/**
 * The query-all mode of `handle_VR_checkRecord` as a state machine: one
 * step per pass of its `while(1)` loop. The driver's method runs this
 * machine on its own state; the lemmas here say how the loop can end.
 */
module Polling {
  import opened Protocol
  import opened Framer

  /** The loop returns when this many check-train replies have been counted. */
  const QUERY_ALL_FRAMES: nat := 51

  /** The loop gives up after more than this many milliseconds without a reply. */
  const IDLE_MS: nat := 500

  /** Status byte the caller's result buffer is filled with before the query. */
  const STATUS_UNSET: byte := 0xF0

  /** `memset` covers this many bytes of the caller's result buffer. */
  const RESULT_FILL: nat := 255

  /** `unsigned long` is 32 bits wide on the 32-bit ARM boards the driver runs on. */
  const ULONG_MOD: int := 0x1_0000_0000

  /** `millis() - start_millis`, computed in `unsigned long`. */
  function Elapsed(start: int, now: int): (e: int)
    ensures 0 <= e < ULONG_MOD
    ensures 0 <= now - start < ULONG_MOD ==> e == now - start
  {
    (now - start) % ULONG_MOD
  }

  /** The record number of the pair at offset i of a check-train reply. */
  function PairRecord(vr: seq<byte>, i: int): byte
    requires 0 <= i && 5 + i < |vr|
  {
    vr[4 + i]
  }

  /** The status of the pair at offset i of a check-train reply. */
  function PairStatus(vr: seq<byte>, i: int): byte
    requires 0 <= i && 5 + i < |vr|
  {
    vr[5 + i]
  }

  /**
   * The inner `for` loop over a check-train reply `vr`, from offset i on:
   * for each even offset i < end, `buf[vr[4+i]] = vr[5+i]`.
   */
  function ApplyPairs(b: seq<byte>, vr: seq<byte>, i: nat, end: int): (r: seq<byte>)
    requires |b| >= 256 && end <= |vr| - 5
    ensures |r| == |b|
    decreases end - i
  {
    if i >= end then b
    else ApplyPairs(b[PairRecord(vr, i) := PairStatus(vr, i)], vr, i + 2, end)
  }

  /** A pair offset from i on: i, i + 2, ... below end. */
  predicate PairFrom(i: nat, j: int, end: int)
  {
    i <= j < end && (j - i) % 2 == 0
  }

  /** The pair offsets from i + 2 on are pair offsets from i on. */
  lemma PairFromNext(i: nat, j: int, end: int)
    requires PairFrom(i + 2, j, end)
    ensures PairFrom(i, j, end)
  {
  }

  /** A record that no pair from offset i on names keeps its status. */
  lemma {:induction false} ApplyPairsKeeps(b: seq<byte>, vr: seq<byte>, i: nat, end: int, x: byte)
    requires |b| >= 256 && end <= |vr| - 5
    requires forall j :: PairFrom(i, j, end) ==> PairRecord(vr, j) != x
    ensures ApplyPairs(b, vr, i, end)[x] == b[x]
    decreases end - i
  {
    if i < end {
      assert PairFrom(i, i, end);
      forall j | PairFrom(i + 2, j, end)
        ensures PairRecord(vr, j) != x
      {
        PairFromNext(i, j, end);
      }
      ApplyPairsKeeps(b[PairRecord(vr, i) := PairStatus(vr, i)], vr, i + 2, end, x);
    }
  }

  /**
   * A pair whose record no later pair names again leaves that record with
   * the pair's status: the last report for a record wins.
   */
  lemma {:induction false} ApplyPairsLastWins(b: seq<byte>, vr: seq<byte>, i: nat, end: int, j: int)
    requires |b| >= 256 && end <= |vr| - 5 && PairFrom(i, j, end)
    requires forall k :: PairFrom(j + 2, k, end) ==> PairRecord(vr, k) != PairRecord(vr, j)
    ensures ApplyPairs(b, vr, i, end)[PairRecord(vr, j)] == PairStatus(vr, j)
    decreases end - i
  {
    var b' := b[PairRecord(vr, i) := PairStatus(vr, i)];
    if j == i {
      ApplyPairsKeeps(b', vr, i + 2, end, PairRecord(vr, i));
    } else {
      ApplyPairsLastWins(b', vr, i + 2, end, j);
    }
  }

  /** The way the query-all loop ended. `ClockStopped`: the environment had no more clock readings. */
  datatype Outcome = Returned(code: int) | ClockStopped

  /**
   * The state of the loop: the caller's result buffer, the scratch buffer,
   * the bytes still to be delivered, the clock readings still to be taken,
   * the replies counted so far (`cnt`) and `start_millis`.
   */
  datatype Poll = Poll(buf: seq<byte>, vr: seq<byte>, input: seq<byte>, clock: seq<int>, frames: nat, start: int)

  /** Either another pass of the loop, or the loop has ended. */
  datatype Step = Next(p: Poll) | Stop(outcome: Outcome, p: Poll)

  predicate PollInv(p: Poll)
  {
    |p.vr| == VR_BUF_SIZE && |p.buf| >= 256 && p.frames < QUERY_ALL_FRAMES
  }

  /**
   * The end of a pass: take a reading; past the idle limit, report
   * `cnt * 5` in buf[0] and return vr_buf[3] if some reply was counted, or
   * return -2 if none was.
   */
  function IdleCheck(p: Poll): (s: Step)
    requires PollInv(p)
    ensures |s.p.buf| == |p.buf| && s.p.vr == p.vr && s.p.frames == p.frames
    ensures s.Next? ==> PollInv(s.p) && |s.p.clock| < |p.clock|
  {
    if p.clock == [] then Stop(ClockStopped, p)
    else
      var q := p.(clock := p.clock[1..]);
      if Elapsed(p.start, p.clock[0]) > IDLE_MS as int then
        if p.frames > 0 then Stop(Returned(p.vr[3] as int), q.(buf := p.buf[0 := Uint8(p.frames * 5)]))
        else Stop(Returned(-2), q)
      else Next(q)
  }

  /**
   * A reply the loop handles: a check-train reply has its pairs applied and
   * is counted, the 51st ends the loop with vr_buf[3], and the clock is read
   * into `start_millis` before the idle check; a reply with another command
   * ends the loop with -3. The pair loop stays inside `vr_buf` when LEN is
   * at most 30, as it is for every reply the receiver accepts.
   */
  function OnReply(p: Poll): (s: Step)
    requires PollInv(p) && p.vr[1] as int <= MAX_REPLY_LEN
    ensures |s.p.buf| == |p.buf| && s.p.vr == p.vr && p.frames <= s.p.frames <= QUERY_ALL_FRAMES
    ensures s.Next? ==> PollInv(s.p) && |s.p.clock| < |p.clock|
  {
    if p.vr[2] == FRAME_CMD_CHECK_TRAIN then
      var b := ApplyPairs(p.buf, p.vr, 0, p.vr[1] as int - 3);
      var n := p.frames + 1;
      if n == QUERY_ALL_FRAMES then Stop(Returned(p.vr[3] as int), p.(buf := b, frames := n))
      else if p.clock == [] then Stop(ClockStopped, p.(buf := b, frames := n))
      else IdleCheck(p.(buf := b, frames := n, clock := p.clock[1..], start := p.clock[0]))
    else Stop(Returned(-3), p)
  }

  /** One pass of the loop: receive, then handle the reply or check for idleness. */
  function PollStep(p: Poll): (s: Step)
    requires PollInv(p)
    ensures |s.p.buf| == |p.buf| && |s.p.vr| == VR_BUF_SIZE && p.frames <= s.p.frames <= QUERY_ALL_FRAMES
    ensures s.Next? ==> PollInv(s.p) && |s.p.clock| < |p.clock|
  {
    var rx := ReceiveFrame(p.vr, p.input, MAX_REPLY_LEN);
    var q := p.(vr := rx.buf, input := rx.rest);
    if rx.code > 0 then OnReply(q) else IdleCheck(q)
  }

  /** The loop has ended with outcome o. */
  predicate EndsWith(s: Step, o: Outcome)
  {
    s.Stop? && s.outcome == o
  }

  /** The loop run to its end. */
  function RunPoll(p: Poll): (s: Step)
    requires PollInv(p)
    ensures s.Stop?
    decreases |p.clock|
  {
    match PollStep(p)
    case Next(q) => RunPoll(q)
    case Stop(o, q) => Stop(o, q)
  }

  /** `memset(buf, 0xF0, 255)`. */
  function FillUnset(b: seq<byte>): (r: seq<byte>)
    requires |b| >= RESULT_FILL
    ensures |r| == |b| && r[RESULT_FILL..] == b[RESULT_FILL..]
    ensures forall i :: 0 <= i < RESULT_FILL ==> r[i] == STATUS_UNSET
  {
    seq(RESULT_FILL, _ => STATUS_UNSET) + b[RESULT_FILL..]
  }

  /**
   * The query-all mode from the point after the request is sent: the
   * buffer filled, the first reading taken into `start_millis`, the loop.
   */
  function QueryAll(buf: seq<byte>, vr: seq<byte>, input: seq<byte>, clock: seq<int>): (s: Step)
    requires |buf| >= 256 && |vr| == VR_BUF_SIZE
    ensures s.Stop?
  {
    var b := FillUnset(buf);
    if clock == [] then Stop(ClockStopped, Poll(b, vr, input, [], 0, 0))
    else RunPoll(Poll(b, vr, input, clock[1..], 0, clock[0]))
  }

  /**
   * A proper end of the loop: never -1; -2 only when no reply was counted;
   * -3 only on a reply carrying another command than check-train; otherwise
   * vr_buf[3] of the last reply, after at least one and at most 51 replies,
   * and when fewer than 51, with buf[0] holding five times the count.
   */
  predicate ProperEnd(s: Step)
  {
    && s.Stop? && |s.p.vr| == VR_BUF_SIZE && |s.p.buf| >= 256 && s.p.frames <= QUERY_ALL_FRAMES
    && (s.outcome.Returned? ==>
          var c := s.outcome.code;
          && (c == -3 || c == -2 || 0 <= c < 256)
          && (c == -2 ==> s.p.frames == 0)
          && (c == -3 ==> s.p.vr[2] != FRAME_CMD_CHECK_TRAIN)
          && (c >= 0 ==> 1 <= s.p.frames && c == s.p.vr[3] as int)
          && (c >= 0 && s.p.frames < QUERY_ALL_FRAMES ==> s.p.buf[0] as int == 5 * s.p.frames))
  }

  /** The idle check ends the loop properly whenever it ends it. */
  lemma IdleCheckEnds(p: Poll)
    requires PollInv(p)
    ensures IdleCheck(p).Stop? ==> ProperEnd(IdleCheck(p))
  {
    if p.clock != [] && Elapsed(p.start, p.clock[0]) > IDLE_MS as int && p.frames > 0 {
      assert 5 * p.frames < 256;
    }
  }

  /** Handling an accepted reply ends the loop properly whenever it ends it. */
  lemma OnReplyEnds(p: Poll)
    requires PollInv(p) && p.vr[1] as int <= MAX_REPLY_LEN
    ensures OnReply(p).Stop? ==> ProperEnd(OnReply(p))
  {
    if p.vr[2] == FRAME_CMD_CHECK_TRAIN {
      var b := ApplyPairs(p.buf, p.vr, 0, p.vr[1] as int - 3);
      var n := p.frames + 1;
      if n < QUERY_ALL_FRAMES && p.clock != [] {
        IdleCheckEnds(p.(buf := b, frames := n, clock := p.clock[1..], start := p.clock[0]));
      }
    }
  }

  /** One pass ends the loop properly whenever it ends it. */
  lemma PollStepEnds(p: Poll)
    requires PollInv(p)
    ensures PollStep(p).Stop? ==> ProperEnd(PollStep(p))
  {
    var rx := ReceiveFrame(p.vr, p.input, MAX_REPLY_LEN);
    var q := p.(vr := rx.buf, input := rx.rest);
    if rx.code > 0 {
      OnReplyEnds(q);
    } else {
      IdleCheckEnds(q);
    }
  }

  /**
   * A pass ends the loop with -3 exactly when the receiver accepts a reply
   * whose command byte is not check-train; a rejected frame is never
   * handled as a reply and never counted.
   */
  lemma PollStepOtherCommand(p: Poll)
    requires PollInv(p)
    ensures var rx := ReceiveFrame(p.vr, p.input, MAX_REPLY_LEN);
            && (EndsWith(PollStep(p), Returned(-3)) <==> rx.code > 0 && rx.buf[2] != FRAME_CMD_CHECK_TRAIN)
            && (rx.code <= 0 ==> PollStep(p).p.frames == p.frames)
  {
    var rx := ReceiveFrame(p.vr, p.input, MAX_REPLY_LEN);
    var q := p.(vr := rx.buf, input := rx.rest);
    if rx.code > 0 && rx.buf[2] == FRAME_CMD_CHECK_TRAIN {
      var b := ApplyPairs(q.buf, q.vr, 0, q.vr[1] as int - 3);
      var n := q.frames + 1;
      if n < QUERY_ALL_FRAMES && q.clock != [] {
        IdleCheckEnds(q.(buf := b, frames := n, clock := q.clock[1..], start := q.clock[0]));
      }
    } else if rx.code <= 0 {
      IdleCheckEnds(q);
    }
  }

  /** However the loop runs, it ends properly (or the clock readings run out). */
  lemma {:induction false} PollOutcomes(p: Poll)
    requires PollInv(p)
    ensures ProperEnd(RunPoll(p))
    ensures |RunPoll(p).p.buf| == |p.buf| && p.frames <= RunPoll(p).p.frames
    decreases |p.clock|
  {
    PollStepEnds(p);
    var st := PollStep(p);
    if st.Next? {
      PollOutcomes(st.p);
    }
  }

  /** The frames of a list, back to back. */
  function Concat(fs: seq<seq<byte>>): seq<byte>
  {
    if fs == [] then [] else fs[0] + Concat(fs[1..])
  }

  /** Well-formed check-train replies that fit the scratch buffer. */
  predicate TrainReplies(fs: seq<seq<byte>>)
  {
    forall i :: 0 <= i < |fs| ==> WellFormed(fs[i], MAX_REPLY_LEN) && fs[i][2] == FRAME_CMD_CHECK_TRAIN
  }

  /** Clock readings that never go back and never jump by more than the idle limit. */
  predicate SteadyClock(c: seq<int>)
  {
    |c| >= 2 ==> 0 <= c[1] - c[0] <= IDLE_MS as int && SteadyClock(c[1..])
  }

  /**
   * Replies arriving back to back on a steady clock end the loop at the
   * 51st, with that reply's byte 3, without waiting for the idle limit.
   */
  lemma {:induction false} PollCountsReplies(p: Poll, fs: seq<seq<byte>>, rest: seq<byte>)
    requires PollInv(p) && |fs| == QUERY_ALL_FRAMES - p.frames
    requires TrainReplies(fs) && p.input == Concat(fs) + rest
    requires SteadyClock(p.clock) && |p.clock| >= 2 * (|fs| - 1)
    ensures EndsWith(RunPoll(p), Returned(fs[|fs| - 1][3] as int))
    ensures RunPoll(p).p.frames == QUERY_ALL_FRAMES && RunPoll(p).p.input == rest
    decreases |fs|
  {
    var f := fs[0];
    assert WellFormed(f, MAX_REPLY_LEN) && f[2] == FRAME_CMD_CHECK_TRAIN;
    assert p.input == f + (Concat(fs[1..]) + rest);
    ReceiveWellFormed(p.vr, f, Concat(fs[1..]) + rest, MAX_REPLY_LEN);
    var rx := ReceiveFrame(p.vr, p.input, MAX_REPLY_LEN);
    assert rx.buf[..|f|] == f;
    assert rx.buf[2] == f[2] && rx.buf[3] == f[3];
    if |fs| > 1 {
      var b := ApplyPairs(p.buf, rx.buf, 0, rx.buf[1] as int - 3);
      var q := Poll(b, rx.buf, rx.rest, p.clock[1..], p.frames + 1, p.clock[0]);
      assert Elapsed(p.clock[0], p.clock[1]) <= IDLE_MS as int;
      assert p.clock[1..][1..] == p.clock[2..];
      assert PollStep(p) == Next(q.(clock := p.clock[2..]));
      assert TrainReplies(fs[1..]);
      PollCountsReplies(q.(clock := p.clock[2..]), fs[1..], rest);
    }
  }

  /**
   * Failed reads do not trip the idle limit: each failed read leaves the
   * last check-train reply in the scratch buffer, the receiver accepts it
   * again, and it is counted again until the count reaches 51.
   */
  lemma {:induction false} PollFailedReadRecountsLastReply(p: Poll)
    requires PollInv(p) && |p.input| < 2
    requires Verdict(p.vr, MAX_REPLY_LEN) > 0 && p.vr[2] == FRAME_CMD_CHECK_TRAIN
    requires SteadyClock(p.clock) && |p.clock| >= 2 * (QUERY_ALL_FRAMES - p.frames - 1)
    ensures EndsWith(RunPoll(p), Returned(p.vr[3] as int))
    ensures RunPoll(p).p.frames == QUERY_ALL_FRAMES
    decreases QUERY_ALL_FRAMES - p.frames
  {
    PollStepFailedRead(p);
    if p.frames + 1 < QUERY_ALL_FRAMES {
      OnReplyCounts(p);
      var b := ApplyPairs(p.buf, p.vr, 0, p.vr[1] as int - 3);
      PollFailedReadRecountsLastReply(p.(buf := b, frames := p.frames + 1, clock := p.clock[2..], start := p.clock[0]));
    }
  }

  /** After a failed read, a pass re-examines the buffer as it stands. */
  lemma PollStepFailedRead(p: Poll)
    requires PollInv(p) && |p.input| < 2 && Verdict(p.vr, MAX_REPLY_LEN) > 0
    ensures PollStep(p) == OnReply(p)
  {
    ReceiveWithoutInputRepeatsBuffer(p.vr, p.input, MAX_REPLY_LEN);
  }

  /**
   * An accepted check-train reply that is not the 51st, on a steady clock,
   * is counted and the loop goes round again.
   */
  lemma OnReplyCounts(p: Poll)
    requires PollInv(p) && Verdict(p.vr, MAX_REPLY_LEN) > 0 && p.vr[2] == FRAME_CMD_CHECK_TRAIN
    requires p.frames + 1 < QUERY_ALL_FRAMES && SteadyClock(p.clock) && |p.clock| >= 2
    ensures OnReply(p) == Next(p.(buf := ApplyPairs(p.buf, p.vr, 0, p.vr[1] as int - 3), frames := p.frames + 1,
                                  clock := p.clock[2..], start := p.clock[0]))
    ensures SteadyClock(p.clock[2..])
  {
    assert Elapsed(p.clock[0], p.clock[1]) <= IDLE_MS as int;
    assert p.clock[1..][1..] == p.clock[2..];
  }
}
