/**
 * The command engine of the Voice Recognition V3 driver: one object
 * holding the shared scratch buffer `vr_buf`, the `timeout` setting and
 * the two ends of the serial line. Every frame written to the line is
 * appended to `sent`; `input` holds the bytes the module has yet to
 * deliver; `clock` holds the `millis()` readings the environment will
 * return, in order.
 */
module Engine {
  import opened Protocol
  import opened Framer
  import opened RecordLists
  import opened Decisions
  import opened Polling

  /** A reply the receiver accepted whose command byte echoes `cmd`. */
  predicate Echoed(r: Received, cmd: byte)
    requires |r.buf| == VR_BUF_SIZE
  {
    r.code > 0 && r.buf[2] == cmd
  }

  /** The payload of an accepted reply: the bytes between its command byte and its end sentinel. */
  function ReplyPayload(b: seq<byte>): (p: seq<byte>)
    requires |b| == VR_BUF_SIZE && Verdict(b, MAX_REPLY_LEN) > 0
    ensures |p| == b[1] as int - 2 <= MAX_REPLY_PAYLOAD
  {
    b[3..b[1] as int + 1]
  }

  /**
   * The payload of an accepted reply after its first byte: the recognition
   * result of a 0x0D reply (group mode, record number, recognizer position,
   * signature length, signature) or the record/status pairs of a
   * check-train reply.
   */
  function PayloadTail(b: seq<byte>): (d: seq<byte>)
    requires |b| == VR_BUF_SIZE && Verdict(b, MAX_REPLY_LEN) > 0
    ensures |d| == if b[1] >= 3 then b[1] as int - 3 else 0
  {
    var p := ReplyPayload(b);
    if p == [] then [] else p[1..]
  }

  /** The LEN a check-recognizer reply must carry, and the status bytes it holds. */
  const RECOGNIZER_REPLY_LEN: byte := 0x0D
  const RECOGNIZER_STATUS_SIZE: nat := 11

  /** The signature of a check-signature reply that fits is the payload after its first two bytes. */
  lemma SignatureBytes(v: seq<byte>)
    requires |v| == VR_BUF_SIZE && Verdict(v, MAX_REPLY_LEN) > 0 && 4 + v[4] as int <= v[1] as int
    ensures v[5..][..v[4]] == ReplyPayload(v)[2..2 + v[4] as int]
  {
    var n := v[4] as int;
    var p := ReplyPayload(v);
    assert p == v[3..v[1] as int + 1];
    forall k | 0 <= k < n
      ensures p[2..2 + n][k] == v[5..][..n][k]
    {
      assert p[2 + k] == v[5 + k];
    }
  }

  /** The payload tail of an accepted reply starts at offset 4 and has LEN - 3 bytes, or none. */
  lemma TailBytes(v: seq<byte>)
    requires |v| == VR_BUF_SIZE && Verdict(v, MAX_REPLY_LEN) > 0
    ensures v[4..][..if v[1] >= 3 then v[1] as int - 3 else 0] == PayloadTail(v)
  {
    var n := if v[1] >= 3 then v[1] as int - 3 else 0;
    var d := PayloadTail(v);
    assert ReplyPayload(v) == v[3..v[1] as int + 1];
    forall k | 0 <= k < n
      ensures v[4..][..n][k] == d[k]
    {
      assert d[k] == ReplyPayload(v)[1 + k] == v[4 + k];
    }
  }

  /** A pass that ends the loop ends the whole run. */
  lemma RunPollStops(p: Poll)
    requires PollInv(p) && PollStep(p).Stop?
    ensures RunPoll(p) == PollStep(p)
  {
  }

  /** A pass that goes round again leaves the run's end unchanged. */
  lemma RunPollContinues(p: Poll, q: Poll)
    requires PollInv(p) && PollStep(p) == Next(q)
    ensures PollInv(q) && RunPoll(p) == RunPoll(q)
  {
  }

  /**
   * k receives in a row into the scratch buffer: the last one's code, and
   * the buffer and input they leave behind.
   */
  function ReceiveRepeated(b: seq<byte>, input: seq<byte>, k: nat): (r: Received)
    requires |b| == VR_BUF_SIZE && k >= 1
    ensures |r.buf| == VR_BUF_SIZE && |r.rest| <= |input|
    ensures r.code == Verdict(r.buf, MAX_REPLY_LEN)
    decreases k
  {
    var r1 := ReceiveFrame(b, input, MAX_REPLY_LEN);
    if k == 1 then r1 else ReceiveRepeated(r1.buf, r1.rest, k - 1)
  }

  /**
   * Well-formed replies arriving back to back are received one per
   * receive: after all of them, exactly the bytes that follow are left and
   * the buffer begins with the last reply.
   */
  lemma {:induction false} ReceiveRepeatedFrames(b: seq<byte>, fs: seq<seq<byte>>, rest: seq<byte>)
    requires |b| == VR_BUF_SIZE && |fs| >= 1
    requires forall i :: 0 <= i < |fs| ==> WellFormed(fs[i], MAX_REPLY_LEN)
    ensures var r := ReceiveRepeated(b, Concat(fs) + rest, |fs|);
            && r.code == |fs[|fs| - 1]| && r.rest == rest
            && r.buf[..|fs[|fs| - 1]|] == fs[|fs| - 1]
    decreases |fs|
  {
    var f := fs[0];
    var tail := Concat(fs[1..]) + rest;
    assert Concat(fs) == f + Concat(fs[1..]);
    assert Concat(fs) + rest == f + tail;
    assert WellFormed(f, MAX_REPLY_LEN);
    ReceiveWellFormed(b, f, tail, MAX_REPLY_LEN);
    var r1 := ReceiveFrame(b, f + tail, MAX_REPLY_LEN);
    assert r1 == Received(|f|, f + b[|f|..], tail);
    if |fs| == 1 {
      assert fs[1..] == [];
      assert (f + b[|f|..])[..|f|] == f;
    } else {
      var more := fs[1..];
      assert forall i :: 0 <= i < |more| ==> more[i] == fs[i + 1];
      assert more[|more| - 1] == fs[|fs| - 1];
      assert ReceiveRepeated(b, f + tail, |fs|) == ReceiveRepeated(r1.buf, r1.rest, |more|);
      ReceiveRepeatedFrames(f + b[|f|..], more, rest);
    }
  }

  /** Size of the local buffer `handle_VR_loop_check` hands to the recognizer. */
  const LOOP_BUF_SIZE: nat := 64

  /** How `resource_VR_setup` ends: ready, or stopped in its endless loop because the module did not answer. */
  datatype SetupOutcome = Ready | Halted

  class Driver {
    /** `vr_buf`, the 32-byte scratch buffer every reply lands in. */
    var vrBuf: array<byte>
    /** `timeout`; passed down to the receiver, which ignores it. */
    var timeout: int
    /** Every frame written to the module, oldest first. */
    var sent: seq<seq<byte>>
    /** The bytes the module has yet to deliver. */
    var input: seq<byte>
    /** The `millis()` readings yet to be taken. */
    var clock: seq<int>

    ghost predicate Valid()
      reads this
    {
      vrBuf.Length == VR_BUF_SIZE
    }

    /** The reply the next receive will produce from the current buffer and input. */
    ghost function NextReply(): (r: Received)
      reads this, vrBuf
      requires Valid()
      ensures |r.buf| == VR_BUF_SIZE
    {
      ReceiveFrame(vrBuf[..], input, MAX_REPLY_LEN)
    }

    /** The driver as loaded: `vr_buf` zeroed (static storage), the default timeout, nothing written yet. */
    constructor (delivered: seq<byte>, readings: seq<int>)
      ensures Valid() && fresh(vrBuf)
      ensures vrBuf[..] == seq(VR_BUF_SIZE, _ => 0)
      ensures timeout == VR_DEFAULT_TIMEOUT && sent == [] && input == delivered && clock == readings
    {
      vrBuf := new byte[VR_BUF_SIZE](_ => 0);
      timeout := VR_DEFAULT_TIMEOUT;
      sent := [];
      input := delivered;
      clock := readings;
    }

    /** `resource_VR_send_cmd2_pkt`: one extended frame written to the module. */
    method SendCmd2Pkt(cmd: byte, subcmd: byte, buf: seq<byte>, len: byte)
      requires len as int <= |buf|
      modifies this
      ensures sent == old(sent) + [Cmd2Frame(cmd, subcmd, buf[..len])]
      ensures vrBuf == old(vrBuf) && input == old(input) && clock == old(clock) && timeout == old(timeout)
    {
      var frame := EncodeCmd2(cmd, subcmd, buf, len);
      sent := sent + [frame];
    }

    /** `resource_VR_send_cmd_pkt`: one command frame written to the module. */
    method SendCmdPkt(cmd: byte, buf: seq<byte>, len: byte)
      requires len as int <= |buf|
      modifies this
      ensures sent == old(sent) + [CmdFrame(cmd, buf[..len])]
      ensures vrBuf == old(vrBuf) && input == old(input) && clock == old(clock) && timeout == old(timeout)
    {
      var frame := EncodeCmd(cmd, buf, len);
      sent := sent + [frame];
    }

    /** `resource_VR_send_pkt`: one header-only frame written to the module. */
    method SendPkt(buf: seq<byte>, len: byte)
      requires len as int <= |buf|
      modifies this
      ensures sent == old(sent) + [PlainFrame(buf[..len])]
      ensures vrBuf == old(vrBuf) && input == old(input) && clock == old(clock) && timeout == old(timeout)
    {
      var frame := EncodePlain(buf, len);
      sent := sent + [frame];
    }

    /**
     * `resource_VR_receive(vr_buf + off, n, timeout)`: the n bytes land in
     * the buffer when the module has them; the result is n either way.
     */
    method Receive(off: nat, n: nat) returns (ret: int)
      requires Valid() && off + n <= VR_BUF_SIZE
      modifies this, vrBuf
      ensures Valid() && vrBuf == old(vrBuf) && ret == n
      ensures (vrBuf[..], input) == ReadInto(old(vrBuf[..]), off, n, old(input))
      ensures sent == old(sent) && clock == old(clock) && timeout == old(timeout)
    {
      if n <= |input| {
        MemCopy(vrBuf, off, input, n);
        input := input[n..];
      }
      return n;
    }

    /**
     * `resource_VR_receive_pkt(vr_buf, timeout)`: the buffer, the input and
     * the code are those the receiver specification gives.
     */
    method ReceivePkt() returns (code: int)
      requires Valid()
      modifies this, vrBuf
      ensures Valid() && vrBuf == old(vrBuf)
      ensures Received(code, vrBuf[..], input) == ReceiveFrame(old(vrBuf[..]), old(input), MAX_REPLY_LEN)
      ensures sent == old(sent) && clock == old(clock) && timeout == old(timeout)
    {
      var got := Receive(0, 2);
      if vrBuf[0] != FRAME_HEAD {
        return -2;
      }
      if vrBuf[1] < 2 || vrBuf[1] as int > MAX_REPLY_LEN {
        return -3;
      }
      ghost var b1 := vrBuf[..];
      got := Receive(2, vrBuf[1] as int);
      assert vrBuf[1] == b1[1] by {
        assert vrBuf[..2] == b1[..2];
      }
      if vrBuf[vrBuf[1] as int + 1] != FRAME_END {
        return -4;
      }
      return vrBuf[1] as int + 2;
    }

    /**
     * `handle_VR_recognize(buf, timeout)`: receive without sending; -1 when
     * the buffer's command byte is not 0x0D (examined before the receive
     * code), 0 when the receive failed, otherwise the recognition result
     * copied to `buf` and its length.
     */
    method Recognize(buf: array<byte>) returns (ret: int)
      requires Valid() && buf.Length >= MAX_REPLY_PAYLOAD - 1 && buf != vrBuf
      modifies this, vrBuf, buf
      ensures Valid() && vrBuf == old(vrBuf)
      ensures sent == old(sent) && clock == old(clock) && timeout == old(timeout)
      ensures var r := old(NextReply()); vrBuf[..] == r.buf && input == r.rest
      ensures var r := old(NextReply());
              && (r.buf[2] != FRAME_CMD_VR ==> ret == -1)
              && (r.buf[2] == FRAME_CMD_VR && r.code <= 0 ==> ret == 0)
              && (Echoed(r, FRAME_CMD_VR) ==> ret == |PayloadTail(r.buf)| && buf[..ret] == PayloadTail(r.buf))
              && (ret <= 0 ==> buf[..] == old(buf[..]))
              && (ret > 0 ==> buf[ret..] == old(buf[ret..]))
    {
      var code := ReceivePkt();
      if vrBuf[2] != FRAME_CMD_VR {
        return -1;
      }
      if code > 0 {
        var i := 0;
        while i < vrBuf[1] as int - 3
          modifies buf
          invariant 0 <= i && (i > 0 ==> i <= vrBuf[1] as int - 3)
          invariant buf[..i] == vrBuf[4..4 + i] && buf[i..] == old(buf[i..])
        {
          buf[i] := vrBuf[4 + i];
          i := i + 1;
        }
        return i;
      }
      return 0;
    }

    /**
     * `handle_VR_load(records, len, buf)`: send the list; -1 unless an
     * accepted LOAD reply comes back; then the reply payload (count, then
     * record/status pairs) copied to `buf` and its length, or 0 when `buf`
     * is null.
     */
    method Load(records: seq<byte>, len: byte, buf: array?<byte>) returns (ret: int)
      requires Valid() && len as int <= |records|
      requires buf != null ==> buf.Length >= MAX_REPLY_PAYLOAD && buf != vrBuf
      modifies this, vrBuf, buf
      ensures Valid() && vrBuf == old(vrBuf) && clock == old(clock) && timeout == old(timeout)
      ensures sent == old(sent) + [CmdFrame(FRAME_CMD_LOAD, records[..len])]
      ensures var r := old(NextReply()); vrBuf[..] == r.buf && input == r.rest
      ensures var r := old(NextReply());
              && (ret == -1 <==> !Echoed(r, FRAME_CMD_LOAD))
              && (ret != -1 && buf == null ==> ret == 0)
              && (ret != -1 && buf != null ==> ret == |ReplyPayload(r.buf)| && buf[..ret] == ReplyPayload(r.buf))
              && (buf != null && ret == -1 ==> buf[..] == old(buf[..]))
              && (buf != null && ret >= 0 ==> buf[ret..] == old(buf[ret..]))
    {
      SendCmdPkt(FRAME_CMD_LOAD, records, len);
      var code := ReceivePkt();
      if code <= 0 {
        return -1;
      }
      if vrBuf[2] != FRAME_CMD_LOAD {
        return -1;
      }
      if buf != null {
        var n := vrBuf[1] as int - 2;
        MemCopy(buf, 0, vrBuf[3..], n);
        return n;
      }
      return 0;
    }

    /** `handle_VR_load_one(record, buf)`: `handle_VR_load` of the one-record list. */
    method LoadOne(record: byte, buf: array?<byte>) returns (ret: int)
      requires Valid()
      requires buf != null ==> buf.Length >= MAX_REPLY_PAYLOAD && buf != vrBuf
      modifies this, vrBuf, buf
      ensures Valid() && vrBuf == old(vrBuf) && clock == old(clock) && timeout == old(timeout)
      ensures sent == old(sent) + [CmdFrame(FRAME_CMD_LOAD, [record])]
      ensures var r := old(NextReply()); vrBuf[..] == r.buf && input == r.rest
      ensures var r := old(NextReply());
              && (ret == -1 <==> !Echoed(r, FRAME_CMD_LOAD))
              && (ret != -1 && buf == null ==> ret == 0)
              && (ret != -1 && buf != null ==> ret == |ReplyPayload(r.buf)| && buf[..ret] == ReplyPayload(r.buf))
              && (buf != null && ret == -1 ==> buf[..] == old(buf[..]))
              && (buf != null && ret >= 0 ==> buf[ret..] == old(buf[ret..]))
    {
      ret := Load([record], 1, buf);
      assert [record][..1] == [record];
    }

    /**
     * `handle_VR_setAutoLoad(records, len)`: -1 without sending when
     * exactly one of the list and its length is absent; otherwise send the
     * bitmap with the list, and 0 exactly when a SET_AL reply comes back.
     */
    method SetAutoLoad(records: Option<seq<byte>>, len: byte) returns (ret: int)
      requires Valid() && (records.Some? ==> len as int <= |records.value|)
      modifies this, vrBuf
      ensures Valid() && vrBuf == old(vrBuf) && clock == old(clock) && timeout == old(timeout)
      ensures records.None? != (len == 0) ==>
                ret == -1 && sent == old(sent) && vrBuf[..] == old(vrBuf[..]) && input == old(input)
      ensures records.None? == (len == 0) ==>
                var payload := if records.None? then [] else records.value[..len];
                var r := old(NextReply());
                && |sent| == |old(sent)| + 1 && sent[..|old(sent)|] == old(sent)
                && |sent[|old(sent)|]| == |payload| + 5
                && sent[|old(sent)|] == Cmd2Frame(FRAME_CMD_SET_AL, sent[|old(sent)|][3], payload)
                && LowBits(sent[|old(sent)|][3], len as int)
                && vrBuf[..] == r.buf && input == r.rest
                && (ret == 0 <==> Echoed(r, FRAME_CMD_SET_AL)) && (ret != 0 ==> ret == -1)
    {
      var payload: seq<byte>;
      if len == 0 && records.None? {
        payload := [];
      } else if len != 0 && records.Some? {
        payload := records.value;
      } else {
        return -1;
      }
      var mask := AutoLoadBitmap(len);
      SendCmd2Pkt(FRAME_CMD_SET_AL, mask, payload, len);
      assert sent[|old(sent)|][3] == mask;
      var code := ReceivePkt();
      if code <= 0 {
        return -1;
      }
      if vrBuf[2] != FRAME_CMD_SET_AL {
        return -1;
      }
      return 0;
    }

    /** `handle_VR_disableAutoLoad()`: `handle_VR_setAutoLoad` with no list, so bitmap 0 and an empty payload. */
    method DisableAutoLoad() returns (ret: int)
      requires Valid()
      modifies this, vrBuf
      ensures Valid() && vrBuf == old(vrBuf) && clock == old(clock) && timeout == old(timeout)
      ensures sent == old(sent) + [Cmd2Frame(FRAME_CMD_SET_AL, 0, [])]
      ensures var r := old(NextReply()); vrBuf[..] == r.buf && input == r.rest
      ensures var r := old(NextReply()); (ret == 0 <==> Echoed(r, FRAME_CMD_SET_AL)) && (ret != 0 ==> ret == -1)
    {
      ret := SetAutoLoad(None, 0);
      ghost var m := sent[|old(sent)|][3];
      ghost var bits := m as bv8;
      forall b: nat | b < 8
        ensures !BitSet(bits, b)
      {
        assert !ByteBit(m, b);
      }
      NoBitsSet(bits);
      assert sent == old(sent) + [sent[|old(sent)|]];
    }

    /**
     * `handle_VR_setSignature(record, buf, len)`: the argument rules decide
     * the payload or reject the call without sending; then 0 exactly when a
     * SET_SIG reply comes back.
     */
    method SetSignature(record: byte, buf: Option<seq<byte>>, len: byte) returns (ret: int)
      requires Valid()
      requires buf.Some? && len == 0 ==> 0 in buf.value
      requires buf.Some? && len != 0 ==> len as int <= |buf.value|
      modifies this, vrBuf
      ensures Valid() && vrBuf == old(vrBuf) && clock == old(clock) && timeout == old(timeout)
      ensures SignaturePayload(buf, len).None? ==>
                ret == -1 && sent == old(sent) && vrBuf[..] == old(vrBuf[..]) && input == old(input)
      ensures SignaturePayload(buf, len).Some? ==>
                var r := old(NextReply());
                && sent == old(sent) + [Cmd2Frame(FRAME_CMD_SET_SIG, record, SignaturePayload(buf, len).value)]
                && vrBuf[..] == r.buf && input == r.rest
                && (ret == 0 <==> Echoed(r, FRAME_CMD_SET_SIG)) && (ret != 0 ==> ret == -1)
    {
      var payload := SignaturePayload(buf, len);
      if payload.None? {
        return -1;
      }
      var p := payload.value;
      SendCmd2Pkt(FRAME_CMD_SET_SIG, record, p, |p| as byte);
      assert p[..|p|] == p;
      var code := ReceivePkt();
      if code <= 0 {
        return -1;
      }
      if vrBuf[2] != FRAME_CMD_SET_SIG {
        return -1;
      }
      return 0;
    }

    /** `handle_VR_deleteSignature(record)`: `handle_VR_setSignature` with no string, so an empty payload. */
    method DeleteSignature(record: byte) returns (ret: int)
      requires Valid()
      modifies this, vrBuf
      ensures Valid() && vrBuf == old(vrBuf) && clock == old(clock) && timeout == old(timeout)
      ensures sent == old(sent) + [Cmd2Frame(FRAME_CMD_SET_SIG, record, [])]
      ensures var r := old(NextReply()); vrBuf[..] == r.buf && input == r.rest
      ensures var r := old(NextReply()); (ret == 0 <==> Echoed(r, FRAME_CMD_SET_SIG)) && (ret != 0 ==> ret == -1)
    {
      ret := SetSignature(record, None, 0);
    }

    /**
     * `handle_VR_checkSignature(record, buf)`: ask for the signature; -1
     * unless a CHECK_SIG reply comes back; then the signature (the payload
     * after the record number and the length byte) copied to `buf` and its
     * length, 0 when the length byte is 0, and -1 when the length byte
     * claims more bytes than the reply holds.
     */
    method CheckSignature(record: byte, buf: array<byte>) returns (ret: int)
      requires Valid() && buf.Length >= MAX_REPLY_PAYLOAD && buf != vrBuf
      modifies this, vrBuf, buf
      ensures Valid() && vrBuf == old(vrBuf) && clock == old(clock) && timeout == old(timeout)
      ensures sent == old(sent) + [Cmd2Frame(FRAME_CMD_CHECK_SIG, record, [])]
      ensures var r := old(NextReply()); vrBuf[..] == r.buf && input == r.rest
      ensures var r := old(NextReply());
              && (!Echoed(r, FRAME_CMD_CHECK_SIG) ==> ret == -1)
              && (Echoed(r, FRAME_CMD_CHECK_SIG) && r.buf[4] == 0 ==> ret == 0)
              && (Echoed(r, FRAME_CMD_CHECK_SIG) && r.buf[4] > 0 ==>
                    var p := ReplyPayload(r.buf);
                    && (2 + r.buf[4] as int > |p| ==> ret == -1)
                    && (2 + r.buf[4] as int <= |p| ==> ret == r.buf[4] as int && buf[..ret] == p[2..2 + ret]))
              && (ret <= 0 ==> buf[..] == old(buf[..]))
              && (ret > 0 ==> buf[ret..] == old(buf[ret..]))
    {
      SendCmd2Pkt(FRAME_CMD_CHECK_SIG, record, [], 0);
      var code := ReceivePkt();
      if code <= 0 {
        return -1;
      }
      if vrBuf[2] != FRAME_CMD_CHECK_SIG {
        return -1;
      }
      if vrBuf[4] > 0 {
        if 4 + vrBuf[4] as int > vrBuf[1] as int {
          return -1;
        }
        var n := vrBuf[4] as int;
        SignatureBytes(vrBuf[..]);
        MemCopy(buf, 0, vrBuf[5..], n);
        return n;
      }
      return 0;
    }

    /** `handle_VR_clear()`: 0 exactly when a CLEAR reply comes back, otherwise -1. */
    method Clear() returns (ret: int)
      requires Valid()
      modifies this, vrBuf
      ensures Valid() && vrBuf == old(vrBuf) && clock == old(clock) && timeout == old(timeout)
      ensures sent == old(sent) + [CmdFrame(FRAME_CMD_CLEAR, [])]
      ensures var r := old(NextReply()); vrBuf[..] == r.buf && input == r.rest
      ensures var r := old(NextReply()); (ret == 0 <==> Echoed(r, FRAME_CMD_CLEAR)) && (ret != 0 ==> ret == -1)
    {
      SendCmdPkt(FRAME_CMD_CLEAR, [], 0);
      var len := ReceivePkt();
      if len <= 0 {
        return -1;
      }
      if vrBuf[2] != FRAME_CMD_CLEAR {
        return -1;
      }
      return 0;
    }

    /**
     * `handle_VR_checkRecognizer(buf)`: -1 unless a CHECK_BSR reply with LEN
     * 0x0D comes back; then its 11 status bytes copied to `buf`, and 11.
     */
    method CheckRecognizer(buf: array<byte>) returns (ret: int)
      requires Valid() && buf.Length >= RECOGNIZER_STATUS_SIZE && buf != vrBuf
      modifies this, vrBuf, buf
      ensures Valid() && vrBuf == old(vrBuf) && clock == old(clock) && timeout == old(timeout)
      ensures sent == old(sent) + [CmdFrame(FRAME_CMD_CHECK_BSR, [])]
      ensures var r := old(NextReply()); vrBuf[..] == r.buf && input == r.rest
      ensures var r := old(NextReply());
              && (ret == -1 <==> !(Echoed(r, FRAME_CMD_CHECK_BSR) && r.buf[1] == RECOGNIZER_REPLY_LEN))
              && (ret != -1 ==> ret == RECOGNIZER_STATUS_SIZE && buf[..ret] == ReplyPayload(r.buf)
                                && buf[ret..] == old(buf[ret..]))
              && (ret == -1 ==> buf[..] == old(buf[..]))
    {
      SendCmdPkt(FRAME_CMD_CHECK_BSR, [], 0);
      var len := ReceivePkt();
      if len <= 0 {
        return -1;
      }
      if vrBuf[2] != FRAME_CMD_CHECK_BSR {
        return -1;
      }
      if vrBuf[1] != RECOGNIZER_REPLY_LEN {
        return -1;
      }
      MemCopy(buf, 0, vrBuf[3..], vrBuf[1] as int - 2);
      return vrBuf[1] as int - 2;
    }

    /**
     * The inner loop of the query-all mode: `buf[vr_buf[4+i]] = vr_buf[5+i]`
     * for each even i below LEN - 3.
     */
    method ApplyStatusPairs(buf: array<byte>)
      requires Valid() && buf.Length >= 256 && buf != vrBuf && vrBuf[1] as int <= MAX_REPLY_LEN
      modifies buf
      ensures buf[..] == ApplyPairs(old(buf[..]), vrBuf[..], 0, vrBuf[1] as int - 3)
    {
      var i := 0;
      while i < vrBuf[1] as int - 3
        invariant 0 <= i
        invariant ApplyPairs(buf[..], vrBuf[..], i, vrBuf[1] as int - 3) == ApplyPairs(old(buf[..]), vrBuf[..], 0, vrBuf[1] as int - 3)
      {
        buf[vrBuf[4 + i]] := vrBuf[4 + i + 1];
        i := i + 2;
      }
    }

    /**
     * The query-all mode of `handle_VR_checkRecord`: fill the result buffer,
     * send the query, take `start_millis`, and run the polling loop; the
     * final state and outcome are those of the loop's state machine.
     */
    method QueryAllRecords(buf: array<byte>) returns (outcome: Outcome)
      requires Valid() && buf.Length >= 256 && buf != vrBuf
      modifies this, vrBuf, buf
      ensures Valid() && vrBuf == old(vrBuf) && timeout == old(timeout)
      ensures sent == old(sent) + [Cmd2Frame(FRAME_CMD_CHECK_TRAIN, 0xFF, [])]
      ensures var s := QueryAll(old(buf[..]), old(vrBuf[..]), old(input), old(clock));
              && EndsWith(s, outcome)
              && buf[..] == s.p.buf && vrBuf[..] == s.p.vr && input == s.p.input && clock == s.p.clock
    {
      var j := 0;
      while j < RESULT_FILL
        modifies buf
        invariant 0 <= j <= RESULT_FILL
        invariant buf[..] == seq(j, _ => STATUS_UNSET) + old(buf[j..])
      {
        buf[j] := STATUS_UNSET;
        j := j + 1;
      }
      assert buf[..] == FillUnset(old(buf[..]));
      SendCmd2Pkt(FRAME_CMD_CHECK_TRAIN, 0xFF, [], 0);
      assert buf[..] == FillUnset(old(buf[..])) && vrBuf[..] == old(vrBuf[..]);
      if clock == [] {
        assert QueryAll(old(buf[..]), old(vrBuf[..]), old(input), old(clock))
            == Stop(ClockStopped, Poll(buf[..], vrBuf[..], input, [], 0, 0));
        return ClockStopped;
      }
      var start := clock[0];
      clock := clock[1..];
      var cnt: nat := 0;
      ghost var p0 := Poll(buf[..], vrBuf[..], input, clock, cnt, start);
      while true
        invariant Valid() && vrBuf == old(vrBuf) && timeout == old(timeout) && cnt < QUERY_ALL_FRAMES
        invariant sent == old(sent) + [Cmd2Frame(FRAME_CMD_CHECK_TRAIN, 0xFF, [])]
        invariant RunPoll(Poll(buf[..], vrBuf[..], input, clock, cnt, start)) == RunPoll(p0)
        decreases |clock|
      {
        ghost var cur := Poll(buf[..], vrBuf[..], input, clock, cnt, start);
        var len := ReceivePkt();
        var stop, out;
        if len > 0 {
          stop, out, cnt, start := OnReplyPass(buf, cnt, start);
        } else {
          stop, out := IdlePass(buf, cnt, start);
        }
        if stop {
          RunPollStops(cur);
          return out;
        }
        RunPollContinues(cur, Poll(buf[..], vrBuf[..], input, clock, cnt, start));
      }
    }

    /**
     * The end of a pass of the query-all loop, the idle check: one clock
     * reading; past 500 ms, buf[0] gets five times the count when some reply
     * was counted.
     */
    method IdlePass(buf: array<byte>, cnt: nat, start: int) returns (stop: bool, outcome: Outcome)
      requires Valid() && buf.Length >= 256 && buf != vrBuf && cnt < QUERY_ALL_FRAMES
      modifies this, buf
      ensures Valid() && vrBuf == old(vrBuf) && sent == old(sent) && input == old(input) && timeout == old(timeout)
      ensures var s := IdleCheck(Poll(old(buf[..]), vrBuf[..], input, old(clock), cnt, start));
              var q := Poll(buf[..], vrBuf[..], input, clock, cnt, start);
              (stop ==> s == Stop(outcome, q)) && (!stop ==> s == Next(q))
    {
      if clock == [] {
        return true, ClockStopped;
      }
      var now := clock[0];
      clock := clock[1..];
      if Elapsed(start, now) > IDLE_MS as int {
        if cnt > 0 {
          buf[0] := Uint8(cnt * 5);
          return true, Returned(vrBuf[3] as int);
        }
        return true, Returned(-2);
      }
      return false, ClockStopped;
    }

    /**
     * A pass of the query-all loop after an accepted reply: a check-train
     * reply is applied and counted (the 51st ends the loop) and restarts
     * `start_millis` before the idle check; another command ends it with -3.
     */
    method OnReplyPass(buf: array<byte>, cnt: nat, start: int) returns (stop: bool, outcome: Outcome, cnt': nat, start': int)
      requires Valid() && buf.Length >= 256 && buf != vrBuf && cnt < QUERY_ALL_FRAMES
      requires Verdict(vrBuf[..], MAX_REPLY_LEN) > 0
      modifies this, buf
      ensures Valid() && vrBuf == old(vrBuf) && sent == old(sent) && input == old(input) && timeout == old(timeout)
      ensures var s := OnReply(Poll(old(buf[..]), vrBuf[..], input, old(clock), cnt, start));
              var q := Poll(buf[..], vrBuf[..], input, clock, cnt', start');
              (stop ==> s == Stop(outcome, q)) && (!stop ==> s == Next(q))
    {
      cnt', start' := cnt, start;
      if vrBuf[2] != FRAME_CMD_CHECK_TRAIN {
        return true, Returned(-3), cnt', start';
      }
      ApplyStatusPairs(buf);
      cnt' := cnt + 1;
      if cnt' == QUERY_ALL_FRAMES {
        return true, Returned(vrBuf[3] as int), cnt', start';
      }
      if clock == [] {
        return true, ClockStopped, cnt', start';
      }
      start' := clock[0];
      clock := clock[1..];
      stop, outcome := IdlePass(buf, cnt', start');
    }

    /**
     * The specific-list mode of `handle_VR_checkRecord`: the list is
     * deduplicated and, when its distinct ids fit `vr_buf`, placed there and
     * sent; an accepted check-train reply has its pairs copied to buf[1..]
     * and their count put in buf[0], and the loop returns the reply's byte
     * 3; -3 on another command, -1 when the receive fails. More distinct ids
     * than `vr_buf` holds give -1 with nothing sent (see README, Findings).
     */
    method CheckListedRecords(buf: array<byte>, records: seq<byte>, len: byte) returns (ret: int)
      requires Valid() && buf.Length >= MAX_REPLY_PAYLOAD && buf != vrBuf
      requires 0 < len as int <= |records|
      modifies this, vrBuf, buf
      ensures Valid() && vrBuf == old(vrBuf) && clock == old(clock) && timeout == old(timeout)
      ensures |Dedup(records[..len])| > VR_BUF_SIZE ==>
                && ret == -1 && sent == old(sent) && vrBuf[..] == old(vrBuf[..]) && input == old(input)
                && buf[..] == old(buf[..])
      ensures var d := Dedup(records[..len]);
              |d| <= VR_BUF_SIZE ==>
              var r := ReceiveFrame(d + old(vrBuf[..])[|d|..], old(input), MAX_REPLY_LEN);
              && sent == old(sent) + [CmdFrame(FRAME_CMD_CHECK_TRAIN, d)]
              && vrBuf[..] == r.buf && input == r.rest
              && (r.code <= 0 ==> ret == -1)
              && (r.code > 0 && r.buf[2] != FRAME_CMD_CHECK_TRAIN ==> ret == -3)
              && (!Echoed(r, FRAME_CMD_CHECK_TRAIN) ==> buf[..] == old(buf[..]))
              && (Echoed(r, FRAME_CMD_CHECK_TRAIN) ==>
                    var pairs := PayloadTail(r.buf);
                    && ret == r.buf[3] as int
                    && buf[0] as int == |pairs| / 2 && buf[1..1 + |pairs|] == pairs
                    && buf[1 + |pairs|..] == old(buf[1 + |pairs|..]))
    {
      var list := new byte[len];
      var k := CleanDup(list, records, len as int);
      if k > VR_BUF_SIZE {
        return -1;
      }
      MemCopy(vrBuf, 0, list[..k], k);
      SendCmdPkt(FRAME_CMD_CHECK_TRAIN, vrBuf[..k], k as byte);
      assert vrBuf[..] == Dedup(records[..len]) + old(vrBuf[..])[k..];
      assert vrBuf[..k][..k] == vrBuf[..k];
      ret := ReceivePkt();
      if ret > 0 {
        if vrBuf[2] == FRAME_CMD_CHECK_TRAIN {
          CopyTrainPairs(buf);
          return vrBuf[3] as int;
        } else {
          return -3;
        }
      } else {
        return -1;
      }
    }

    /**
     * The copy of the specific-list mode: the reply's pairs to buf[1..] and
     * their count to buf[0]. The copy count, LEN - 3, is clamped at 0, and
     * C's truncating division makes the pair count 0 for LEN 2 as well.
     */
    method CopyTrainPairs(buf: array<byte>)
      requires Valid() && buf.Length >= MAX_REPLY_PAYLOAD && buf != vrBuf
      requires Verdict(vrBuf[..], MAX_REPLY_LEN) > 0
      modifies buf
      ensures var pairs := PayloadTail(vrBuf[..]);
              && buf[0] as int == |pairs| / 2 && buf[1..1 + |pairs|] == pairs
              && buf[1 + |pairs|..] == old(buf[1 + |pairs|..])
    {
      var n := if vrBuf[1] >= 3 then vrBuf[1] as int - 3 else 0;
      TailBytes(vrBuf[..]);
      MemCopy(buf, 1, vrBuf[4..], n);
      ghost var copied := buf[..];
      buf[0] := (n / 2) as byte;
      assert buf[1..] == copied[1..];
    }

    /**
     * `handle_VR_checkRecord(buf, records, len)`: with no list and no
     * length, the query-all mode; with a length, the specific-list mode;
     * with a list but length 0, -1 without sending.
     */
    method CheckRecord(buf: array<byte>, records: Option<seq<byte>>, len: byte) returns (outcome: Outcome)
      requires Valid() && buf != vrBuf
      requires records.None? && len == 0 ==> buf.Length >= 256
      requires len > 0 ==> records.Some? && len as int <= |records.value| && buf.Length >= MAX_REPLY_PAYLOAD
      modifies this, vrBuf, buf
      ensures Valid() && vrBuf == old(vrBuf) && timeout == old(timeout)
      ensures records.Some? && len == 0 ==>
                outcome == Returned(-1) && sent == old(sent) && vrBuf[..] == old(vrBuf[..])
                && input == old(input) && clock == old(clock) && buf[..] == old(buf[..])
      ensures records.None? && len == 0 ==>
                var s := QueryAll(old(buf[..]), old(vrBuf[..]), old(input), old(clock));
                && sent == old(sent) + [Cmd2Frame(FRAME_CMD_CHECK_TRAIN, 0xFF, [])]
                && EndsWith(s, outcome)
                && buf[..] == s.p.buf && vrBuf[..] == s.p.vr && input == s.p.input && clock == s.p.clock
      ensures len > 0 && |Dedup(records.value[..len])| > VR_BUF_SIZE ==>
                outcome == Returned(-1) && sent == old(sent) && vrBuf[..] == old(vrBuf[..])
                && input == old(input) && clock == old(clock) && buf[..] == old(buf[..])
      ensures len > 0 && |Dedup(records.value[..len])| <= VR_BUF_SIZE ==>
                var d := Dedup(records.value[..len]);
                var r := ReceiveFrame(d + old(vrBuf[..])[|d|..], old(input), MAX_REPLY_LEN);
                && sent == old(sent) + [CmdFrame(FRAME_CMD_CHECK_TRAIN, d)]
                && vrBuf[..] == r.buf && input == r.rest && clock == old(clock)
                && (r.code <= 0 ==> outcome == Returned(-1))
                && (r.code > 0 && r.buf[2] != FRAME_CMD_CHECK_TRAIN ==> outcome == Returned(-3))
                && (!Echoed(r, FRAME_CMD_CHECK_TRAIN) ==> buf[..] == old(buf[..]))
                && (Echoed(r, FRAME_CMD_CHECK_TRAIN) ==>
                      var pairs := PayloadTail(r.buf);
                      && outcome == Returned(r.buf[3] as int)
                      && buf[0] as int == |pairs| / 2 && buf[1..1 + |pairs|] == pairs
                      && buf[1 + |pairs|..] == old(buf[1 + |pairs|..]))
    {
      if records.None? && len == 0 {
        outcome := QueryAllRecords(buf);
      } else if len > 0 {
        var ret := CheckListedRecords(buf, records.value, len);
        outcome := Returned(ret);
      } else {
        outcome := Returned(-1);
      }
    }

    /**
     * The four `handle_VR_load_one` calls of setup, their results unused:
     * four LOAD frames sent and four replies received.
     */
    method LoadDefaults()
      requires Valid()
      modifies this, vrBuf
      ensures Valid() && vrBuf == old(vrBuf) && clock == old(clock) && timeout == old(timeout)
      ensures sent == old(sent) + [CmdFrame(FRAME_CMD_LOAD, [ON_RECORD]), CmdFrame(FRAME_CMD_LOAD, [OFF_RECORD]),
                                   CmdFrame(FRAME_CMD_LOAD, [FW_RECORD]), CmdFrame(FRAME_CMD_LOAD, [BW_RECORD])]
      ensures var r := ReceiveRepeated(old(vrBuf[..]), old(input), 4); vrBuf[..] == r.buf && input == r.rest
    {
      ghost var r1 := NextReply();
      var loaded := LoadOne(ON_RECORD, null);
      ghost var s1 := sent;
      ghost var r2 := NextReply();
      loaded := LoadOne(OFF_RECORD, null);
      ghost var s2 := sent;
      assert s2 == s1 + [CmdFrame(FRAME_CMD_LOAD, [OFF_RECORD])];
      ghost var r3 := NextReply();
      loaded := LoadOne(FW_RECORD, null);
      ghost var s3 := sent;
      assert s3 == s2 + [CmdFrame(FRAME_CMD_LOAD, [FW_RECORD])];
      ghost var r4 := NextReply();
      loaded := LoadOne(BW_RECORD, null);
      assert sent == s3 + [CmdFrame(FRAME_CMD_LOAD, [BW_RECORD])];
      assert ReceiveRepeated(r3.buf, r3.rest, 1) == r4;
      assert ReceiveRepeated(r2.buf, r2.rest, 2) == r4;
      assert ReceiveRepeated(r1.buf, r1.rest, 3) == r4;
    }

    /**
     * `resource_VR_setup()`: clear the recognizer, halting when that fails,
     * then load the four records the dispatch acts on, whatever each load
     * returns.
     */
    method Setup() returns (o: SetupOutcome)
      requires Valid()
      modifies this, vrBuf
      ensures Valid() && vrBuf == old(vrBuf) && clock == old(clock) && timeout == old(timeout)
      ensures o == Halted <==> !Echoed(old(NextReply()), FRAME_CMD_CLEAR)
      ensures o == Halted ==>
                var r := old(NextReply());
                sent == old(sent) + [CmdFrame(FRAME_CMD_CLEAR, [])] && vrBuf[..] == r.buf && input == r.rest
      ensures o == Ready ==>
                var r := ReceiveRepeated(old(vrBuf[..]), old(input), 5);
                && sent == old(sent) + [CmdFrame(FRAME_CMD_CLEAR, []),
                                        CmdFrame(FRAME_CMD_LOAD, [ON_RECORD]), CmdFrame(FRAME_CMD_LOAD, [OFF_RECORD]),
                                        CmdFrame(FRAME_CMD_LOAD, [FW_RECORD]), CmdFrame(FRAME_CMD_LOAD, [BW_RECORD])]
                && vrBuf[..] == r.buf && input == r.rest
    {
      ghost var r1 := NextReply();
      var cleared := Clear();
      if cleared != 0 {
        return Halted;
      }
      LoadDefaults();
      assert ReceiveRepeated(old(vrBuf[..]), old(input), 5) == ReceiveRepeated(r1.buf, r1.rest, 4);
      return Ready;
    }

    /**
     * `handle_VR_loop_check()`: wait for a recognition into a local 64-byte
     * buffer (`scratch` is what that uninitialized buffer holds); when data
     * came back, the action dispatched on its record number and the group
     * its group byte names.
     */
    method LoopCheck(scratch: seq<byte>) returns (heard: Option<(Action, Group)>)
      requires Valid() && |scratch| == LOOP_BUF_SIZE
      modifies this, vrBuf
      ensures Valid() && vrBuf == old(vrBuf) && sent == old(sent) && clock == old(clock) && timeout == old(timeout)
      ensures var r := old(NextReply()); vrBuf[..] == r.buf && input == r.rest
      ensures var r := old(NextReply());
              && (heard.Some? <==> Echoed(r, FRAME_CMD_VR) && PayloadTail(r.buf) != [])
              && (heard.Some? ==>
                    var d := PayloadTail(r.buf) + scratch[|PayloadTail(r.buf)|..];
                    heard.value == (RecordAction(d[1]), GroupOf(d[0])))
    {
      var buf := new byte[LOOP_BUF_SIZE](i => if 0 <= i < |scratch| then scratch[i] else 0);
      assert buf[..] == scratch;
      var ret := Recognize(buf);
      if ret > 0 {
        assert buf[..] == buf[..ret] + buf[ret..];
        return Some((RecordAction(buf[1]), GroupOf(buf[0])));
      }
      return None;
    }
  }
}
