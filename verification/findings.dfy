/**
 * Places where the driver, as written, reads or writes memory it
 * does not own or acts on a reply it has rejected. Each is stated here on
 * the code as written, next to the corrected behaviour the rest of the
 * model uses.
 */
module Findings {
  import opened Protocol
  import opened Framer
  import opened RecordLists
  import opened Polling
  import opened Engine

  /*
   * A. `resource_VR_receive_pkt` reads LEN bytes at offset 2 of the 32-byte
   * `vr_buf` whatever LEN is. As written, the receiver is `ReceiveFrame`
   * with a largest LEN of 255 over the buffer and the memory after it.
   */

  /** As written: a frame with LEN 31 or more is accepted and its bytes land past the end of `vr_buf`. */
  lemma {:induction false} OverlongFrameOverrunsBuffer(mem: seq<byte>, f: seq<byte>, rest: seq<byte>)
    requires |mem| == 257 && WellFormed(f, 255) && |f| > VR_BUF_SIZE
    ensures var r := ReceiveFrame(mem, f + rest, 255);
            r.code == |f| && r.buf[VR_BUF_SIZE..|f|] == f[VR_BUF_SIZE..]
  {
    ReceiveWellFormed(mem, f, rest, 255);
    assert (f + mem[|f|..])[VR_BUF_SIZE..|f|] == f[VR_BUF_SIZE..];
  }

  /** Corrected: the same frame is rejected with -3 and nothing after the header is written. */
  lemma {:induction false} OverlongFrameRejected(mem: seq<byte>, f: seq<byte>, rest: seq<byte>)
    requires |mem| == VR_BUF_SIZE && WellFormed(f, 255) && |f| > VR_BUF_SIZE
    ensures var r := ReceiveFrame(mem, f + rest, MAX_REPLY_LEN);
            r.code == -3 && r.buf[2..] == mem[2..] && r.rest == (f + rest)[2..]
  {
    assert (f + rest)[..2] == f[..2];
  }

  /*
   * B. `handle_VR_load`, `handle_VR_load_one` and the query-all loop of
   * `handle_VR_checkRecord` keep the receive code in a `uint8_t`, so the
   * failure codes -2, -3 and -4 become 254, 253 and 252 and pass the
   * `<= 0` test.
   */

  /** As written: the failure test of `handle_VR_load` on the code truncated to a `uint8_t`. */
  predicate ReceiveFailedAsWritten(code: int)
  {
    Uint8(code) == 0
  }

  /** Every failure code of the receiver passes the truncated test. */
  lemma FailureCodesPassAsWritten(code: int)
    requires -4 <= code <= -2
    ensures !ReceiveFailedAsWritten(code) && Uint8(code) as int == 256 + code
  {
  }

  /** As written: what `handle_VR_load` with a result buffer returns for a received reply. */
  function LoadResultAsWritten(r: Received): (ret: int)
    requires |r.buf| == VR_BUF_SIZE
    ensures ret != -1 ==> r.buf[2] == FRAME_CMD_LOAD && !ReceiveFailedAsWritten(r.code)
  {
    if ReceiveFailedAsWritten(r.code) then -1
    else if r.buf[2] != FRAME_CMD_LOAD then -1
    else r.buf[1] as int - 2
  }

  /** A LOAD reply whose end byte is 0x00 instead of 0x0A. */
  function BadTrailerLoadReply(): seq<byte>
  {
    [FRAME_HEAD, 3, FRAME_CMD_LOAD, 1, 0]
  }

  /** As written: the receiver rejects the reply with -4, and load still reports one byte of result. */
  lemma BadTrailerLoadAcceptedAsWritten()
    ensures var r := ReceiveFrame(seq(VR_BUF_SIZE, _ => 0), BadTrailerLoadReply(), MAX_REPLY_LEN);
            r.code == -4 && LoadResultAsWritten(r) == 1
  {
    ReceiveBadTrailer(seq(VR_BUF_SIZE, _ => 0), CmdFrame(FRAME_CMD_LOAD, [1]), 0, [], MAX_REPLY_LEN);
    assert CmdFrame(FRAME_CMD_LOAD, [1])[..4] + [0] + [] == BadTrailerLoadReply();
  }

  /** Corrected: with the code kept as an `int`, load reports the same reply as a failure. */
  method LoadRejectsBadTrailer() returns (ret: int)
    ensures ret == -1
  {
    var d := new Driver(BadTrailerLoadReply(), []);
    BadTrailerLoadAcceptedAsWritten();
    var buf := new byte[MAX_REPLY_PAYLOAD];
    ret := d.LoadOne(1, buf);
  }

  /**
   * As written: one pass of the query-all loop with the receive code kept in
   * the `uint8_t` parameter `len`, so a rejected frame is handled as a reply
   * on whatever the buffer holds. `None` when the pair loop would run over
   * a LEN above 30, further than any frame `vr_buf` can hold (from LEN 32
   * on, past the buffer itself).
   */
  function PollStepAsWritten(p: Poll): (s: Option<Step>)
    requires PollInv(p)
    ensures ReceiveFrame(p.vr, p.input, MAX_REPLY_LEN).code > 0 ==> s == Some(PollStep(p))
  {
    var rx := ReceiveFrame(p.vr, p.input, MAX_REPLY_LEN);
    var q := p.(vr := rx.buf, input := rx.rest);
    if Uint8(rx.code) == 0 then Some(IdleCheck(q))
    else if q.vr[2] != FRAME_CMD_CHECK_TRAIN then Some(Stop(Returned(-3), q))
    else if q.vr[1] as int > MAX_REPLY_LEN then None
    else Some(OnReply(q))
  }

  /**
   * As written: with no reply counted, a garbled frame (bad head byte) over
   * a buffer whose command byte is not check-train ends the loop with -3
   * "wrong command", where the receive code alone gives the idle check's -2
   * once the wait is past 500 ms.
   */
  lemma {:induction false} GarbledFrameEndsQueryAsWritten(p: Poll, junk: byte, len: byte, now: int)
    requires PollInv(p) && p.frames == 0 && p.vr[2] != FRAME_CMD_CHECK_TRAIN
    requires junk != FRAME_HEAD && p.input == [junk, len] && p.clock == [now]
    requires Elapsed(p.start, now) > IDLE_MS as int
    ensures PollStepAsWritten(p).Some? && EndsWith(PollStepAsWritten(p).value, Returned(-3))
    ensures EndsWith(PollStep(p), Returned(-2))
  {
    var rx := ReceiveFrame(p.vr, p.input, MAX_REPLY_LEN);
    assert rx.code == -2 && rx.buf[2] == p.vr[2];
    FailureCodesPassAsWritten(-2);
  }

  /**
   * As written: over a stale check-train buffer, a garbled frame whose
   * second byte is 255 is counted, and the pair loop would run to offset
   * 252 of the 32-byte buffer.
   */
  lemma {:induction false} GarbledFrameOverrunsAsWritten(p: Poll, junk: byte)
    requires PollInv(p) && p.vr[2] == FRAME_CMD_CHECK_TRAIN
    requires junk != FRAME_HEAD && p.input == [junk, 255]
    ensures PollStepAsWritten(p).None?
    ensures PollStep(p).p.frames == p.frames
  {
    var rx := ReceiveFrame(p.vr, p.input, MAX_REPLY_LEN);
    assert rx.code == -2 && rx.buf[1] == 255 && rx.buf[2] == p.vr[2];
    FailureCodesPassAsWritten(-2);
    PollStepOtherCommand(p);
  }

  /*
   * C. `handle_VR_checkSignature` copies `vr_buf[4]` bytes from offset 5
   * without comparing that count with LEN, so a short reply with a large
   * length byte makes it read past the 32-byte `vr_buf`.
   */

  /** As written: the end of the range of `vr_buf` that `handle_VR_checkSignature` copies from. */
  function SignatureCopyEndAsWritten(b: seq<byte>): (e: int)
    requires |b| == VR_BUF_SIZE
    ensures e >= 5 && (b[4] > 0 ==> e > 5)
  {
    5 + b[4] as int
  }

  /** A CHECK_SIG reply for record 1 whose length byte claims 200 signature bytes. */
  function OverlongSignatureReply(): seq<byte>
  {
    Cmd2Frame(FRAME_CMD_CHECK_SIG, 1, [200])
  }

  /** As written: the reply is accepted and the copy runs to offset 205 of a 32-byte buffer. */
  lemma OverlongSignatureReadsPastBuffer()
    ensures var r := ReceiveFrame(seq(VR_BUF_SIZE, _ => 0), OverlongSignatureReply(), MAX_REPLY_LEN);
            && r.code == 6 && r.buf[2] == FRAME_CMD_CHECK_SIG
            && SignatureCopyEndAsWritten(r.buf) == 205 > VR_BUF_SIZE
  {
    ReceiveCmd2Frame(seq(VR_BUF_SIZE, _ => 0), FRAME_CMD_CHECK_SIG, 1, [200], [], MAX_REPLY_LEN);
    assert OverlongSignatureReply() + [] == OverlongSignatureReply();
  }

  /** Corrected: the same reply makes `CheckSignature` fail with -1 and leave `buf` alone. */
  method CheckSignatureRejectsOverlongLength() returns (ret: int, same: bool)
    ensures ret == -1 && same
  {
    var d := new Driver(OverlongSignatureReply(), []);
    OverlongSignatureReadsPastBuffer();
    var buf := new byte[MAX_REPLY_PAYLOAD];
    var before := buf[..];
    ret := d.CheckSignature(1, buf);
    same := buf[..] == before;
  }

  /*
   * D. The specific-list mode of `handle_VR_checkRecord` deduplicates the
   * caller's list straight into the 32-byte `vr_buf`, and the list may hold
   * up to 255 distinct record numbers.
   */

  /** As written: how many bytes `resource_VR_cleanDup` writes into `vr_buf` from offset 0. */
  function ListedWriteEndAsWritten(records: seq<byte>, len: byte): (e: nat)
    requires len as int <= |records|
    ensures e <= len as int && (len > 0 ==> e > 0)
  {
    |Dedup(records[..len])|
  }

  /** As written: a list of more than 32 distinct record numbers is written past the end of `vr_buf`. */
  lemma DistinctRecordsOverrunAsWritten(records: seq<byte>, len: byte)
    requires VR_BUF_SIZE < len as int <= |records| && NoDup(records[..len])
    ensures ListedWriteEndAsWritten(records, len) == len as int > VR_BUF_SIZE
  {
    DedupOfNoDup(records[..len]);
  }

  /** Record numbers 0 to 32: 33 distinct ids. */
  function ThirtyThreeRecords(): (s: seq<byte>)
    ensures |s| == 33 && NoDup(s)
  {
    seq(33, i requires 0 <= i < 33 => i as byte)
  }

  /**
   * Corrected: asking for the 33 records 0 to 32 returns -1 with nothing
   * sent and neither buffer touched.
   */
  method ManyDistinctRecordsRejected() returns (outcome: Outcome, sent: seq<seq<byte>>, same: bool)
    ensures outcome == Returned(-1) && sent == [] && same
  {
    var records := ThirtyThreeRecords();
    DistinctRecordsOverrunAsWritten(records, 33);
    var d := new Driver([], []);
    var buf := new byte[MAX_REPLY_PAYLOAD];
    var before := buf[..];
    outcome := d.CheckRecord(buf, Some(records), 33);
    sent := d.sent;
    same := buf[..] == before;
  }

  /*
   * E. The specific-list mode of `handle_VR_checkRecord` copies LEN - 3
   * bytes; a check-train reply with LEN 2 is accepted by the receiver and
   * makes that count -1, which `memcpy` takes as a `size_t`.
   */

  /** As written: the byte count `memcpy` receives, as a 32-bit `size_t`. */
  function ListedCopyCountAsWritten(len: byte): (n: int)
    ensures 0 <= n < 0x1_0000_0000
    ensures len >= 3 ==> n == len as int - 3
  {
    (len as int - 3) % 0x1_0000_0000
  }

  /** As written: the empty check-train reply is accepted and the copy count is 0xFFFF_FFFF. */
  lemma EmptyCheckTrainReplyOverrunsAsWritten(mem: seq<byte>)
    requires |mem| == VR_BUF_SIZE
    ensures var r := ReceiveFrame(mem, CmdFrame(FRAME_CMD_CHECK_TRAIN, []), MAX_REPLY_LEN);
            && r.code == 4 && r.buf[2] == FRAME_CMD_CHECK_TRAIN
            && ListedCopyCountAsWritten(r.buf[1]) == 0xFFFF_FFFF
  {
    ReceiveCmdFrame(mem, FRAME_CMD_CHECK_TRAIN, [], [], MAX_REPLY_LEN);
    assert CmdFrame(FRAME_CMD_CHECK_TRAIN, []) + [] == CmdFrame(FRAME_CMD_CHECK_TRAIN, []);
  }

  /**
   * Corrected: for record 1 and the empty reply nothing is copied, the
   * pair count in buf[0] is 0, and the return value is byte 3 of the reply,
   * its end byte.
   */
  method EmptyCheckTrainReplyCopiesNothing() returns (outcome: Polling.Outcome, count: byte, same: bool)
    ensures outcome == Polling.Returned(FRAME_END as int) && count == 0 && same
  {
    var d := new Driver(CmdFrame(FRAME_CMD_CHECK_TRAIN, []), []);
    var buf := new byte[MAX_REPLY_PAYLOAD](_ => 7);
    var before := buf[1..];
    assert Dedup([1][..1]) == [1] by { DedupOfNoDup([1]); }
    EmptyCheckTrainReplyOverrunsAsWritten([1] + d.vrBuf[..][1..]);
    outcome := d.CheckRecord(buf, Some([1]), 1);
    count := buf[0];
    same := buf[1..] == before;
  }
}
