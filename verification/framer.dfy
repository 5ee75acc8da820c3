/**
 * The framer of the Voice Recognition V3 driver: the three frame encoders
 * and the receiver that validates one frame into the scratch buffer.
 *
 * As the driver computes it, the LEN byte counts every byte that follows
 * it, the trailing end byte included, so a frame is LEN + 2 bytes long.
 */
module Framer {
  import opened Protocol

  /** The frame `resource_VR_send_cmd2_pkt` writes: head, LEN, command, subcommand, payload, end. */
  function Cmd2Frame(cmd: byte, subcmd: byte, payload: seq<byte>): seq<byte>
  {
    [FRAME_HEAD, Uint8(|payload| + 3), cmd, subcmd] + payload + [FRAME_END]
  }

  /** The frame `resource_VR_send_cmd_pkt` writes: head, LEN, command, payload, end. */
  function CmdFrame(cmd: byte, payload: seq<byte>): seq<byte>
  {
    [FRAME_HEAD, Uint8(|payload| + 2), cmd] + payload + [FRAME_END]
  }

  /** The frame `resource_VR_send_pkt` writes: head, LEN, payload, end. */
  function PlainFrame(payload: seq<byte>): seq<byte>
  {
    [FRAME_HEAD, Uint8(|payload| + 1)] + payload + [FRAME_END]
  }

  /** `memcpy(&dst[off], src, n)`. */
  method MemCopy(dst: array<byte>, off: nat, src: seq<byte>, n: nat)
    requires n <= |src| && off + n <= dst.Length
    modifies dst
    ensures dst[..] == old(dst[..off]) + src[..n] + old(dst[off + n..])
  {
    var i := 0;
    while i < n
      invariant 0 <= i <= n
      invariant dst[..] == old(dst[..off]) + src[..i] + old(dst[off + i..])
    {
      dst[off + i] := src[i];
      i := i + 1;
      assert src[..i] == src[..i - 1] + [src[i - 1]];
    }
  }

  /** Builds the extended frame of `resource_VR_send_cmd2_pkt` in a local array, index by index. */
  method EncodeCmd2(cmd: byte, subcmd: byte, buf: seq<byte>, len: byte) returns (frame: seq<byte>)
    requires len as int <= |buf|
    ensures |frame| == len as int + 5
    ensures frame[0] == FRAME_HEAD && frame[1] == Uint8(len as int + 3)
    ensures frame[2] == cmd && frame[3] == subcmd
    ensures frame[4..len as int + 4] == buf[..len] && frame[len as int + 4] == FRAME_END
    ensures frame == Cmd2Frame(cmd, subcmd, buf[..len])
  {
    var n := len as int;
    var data := new byte[n + 5];
    data[0] := FRAME_HEAD;
    data[1] := Uint8(n + 3);
    data[2] := cmd;
    data[3] := subcmd;
    MemCopy(data, 4, buf, n);
    data[n + 4] := FRAME_END;
    frame := data[..];
  }

  /** Builds the plain frame of `resource_VR_send_cmd_pkt` in a local array, index by index. */
  method EncodeCmd(cmd: byte, buf: seq<byte>, len: byte) returns (frame: seq<byte>)
    requires len as int <= |buf|
    ensures |frame| == len as int + 4
    ensures frame[0] == FRAME_HEAD && frame[1] == Uint8(len as int + 2) && frame[2] == cmd
    ensures frame[3..len as int + 3] == buf[..len] && frame[len as int + 3] == FRAME_END
    ensures frame == CmdFrame(cmd, buf[..len])
  {
    var n := len as int;
    var data := new byte[n + 4];
    data[0] := FRAME_HEAD;
    data[1] := Uint8(n + 2);
    data[2] := cmd;
    MemCopy(data, 3, buf, n);
    data[n + 3] := FRAME_END;
    frame := data[..];
  }

  /** Builds the header-only frame of `resource_VR_send_pkt` in a local array, index by index. */
  method EncodePlain(buf: seq<byte>, len: byte) returns (frame: seq<byte>)
    requires len as int <= |buf|
    ensures |frame| == len as int + 3
    ensures frame[0] == FRAME_HEAD && frame[1] == Uint8(len as int + 1)
    ensures frame[2..len as int + 2] == buf[..len] && frame[len as int + 2] == FRAME_END
    ensures frame == PlainFrame(buf[..len])
  {
    var n := len as int;
    var data := new byte[n + 3];
    data[0] := FRAME_HEAD;
    data[1] := Uint8(n + 1);
    MemCopy(data, 2, buf, n);
    data[n + 2] := FRAME_END;
    frame := data[..];
  }

  /**
   * What `resource_VR_receive_pkt` leaves behind: its return code, the
   * scratch buffer and the bytes the module has not yet delivered.
   */
  datatype Received = Received(code: int, buf: seq<byte>, rest: seq<byte>)

  /**
   * `resource_VR_receive(&mem[off], n, timeout)` over the transport: when
   * n bytes are left to deliver they land at mem[off..off+n] and are
   * consumed; otherwise the read fails (no UART handle, or a hard read
   * error) and nothing changes. Either way the source reports n bytes
   * received.
   */
  function ReadInto(mem: seq<byte>, off: nat, n: nat, input: seq<byte>): (r: (seq<byte>, seq<byte>))
    requires off + n <= |mem|
    ensures |r.0| == |mem| && r.0[..off] == mem[..off] && r.0[off + n..] == mem[off + n..]
    ensures |r.1| <= |input|
  {
    if n <= |input| then (mem[..off] + input[..n] + mem[off + n..], input[n..]) else (mem, input)
  }

  /**
   * The verdict `resource_VR_receive_pkt` reaches on a buffer: -2 for a bad
   * head byte, -3 for a LEN below 2 (or above `maxLen`), -4 when the byte at
   * offset LEN + 1 is not the end sentinel, and otherwise the frame length
   * LEN + 2.
   */
  function Verdict(b: seq<byte>, maxLen: nat): int
    requires maxLen + 2 <= |b|
  {
    if b[0] != FRAME_HEAD then -2
    else if b[1] < 2 || b[1] as int > maxLen then -3
    else if b[b[1] as int + 1] != FRAME_END then -4
    else b[1] as int + 2
  }

  /**
   * `resource_VR_receive_pkt` reading into `mem`: two header bytes, then
   * LEN bytes at offset 2; the verdict is taken on the buffer afterwards.
   * `maxLen` is the largest LEN that is read at all (see README, Findings:
   * the driver passes the size of its buffer minus two).
   */
  function ReceiveFrame(mem: seq<byte>, input: seq<byte>, maxLen: nat): (r: Received)
    requires maxLen + 2 <= |mem|
    ensures |r.buf| == |mem| && |r.rest| <= |input|
    ensures r.code == Verdict(r.buf, maxLen)
    ensures r.code == -4 || r.code == -3 || r.code == -2 || 4 <= r.code <= maxLen + 2
  {
    var (b1, in1) := ReadInto(mem, 0, 2, input);
    if b1[0] != FRAME_HEAD then Received(-2, b1, in1)
    else if b1[1] < 2 || b1[1] as int > maxLen then Received(-3, b1, in1)
    else
      var (b2, in2) := ReadInto(b1, 2, b1[1] as int, in1);
      assert b2[0] == b1[0] && b2[1] == b1[1] by { assert b2[..2] == b1[..2]; }
      if b2[b1[1] as int + 1] != FRAME_END then Received(-4, b2, in2)
      else Received(b1[1] as int + 2, b2, in2)
  }

  /** A complete frame as the receiver accepts it. */
  predicate WellFormed(f: seq<byte>, maxLen: nat)
  {
    4 <= |f| <= maxLen + 2 && f[0] == FRAME_HEAD && f[1] as int == |f| - 2 && f[|f| - 1] == FRAME_END
  }

  /** A well-formed frame at the head of the stream is received whole and nothing after it is read. */
  lemma ReceiveWellFormed(mem: seq<byte>, f: seq<byte>, rest: seq<byte>, maxLen: nat)
    requires maxLen + 2 <= |mem| && WellFormed(f, maxLen)
    ensures ReceiveFrame(mem, f + rest, maxLen) == Received(|f|, f + mem[|f|..], rest)
  {
    var input := f + rest;
    var b1 := mem[..0] + input[..2] + mem[2..];
    var in1 := input[2..];
    assert b1[0] == f[0] && b1[1] == f[1];
    var n := |f| - 2;
    var b2 := b1[..2] + in1[..n] + b1[2 + n..];
    assert in1[..n] == f[2..];
    assert b1[..2] == f[..2];
    assert b1[2 + n..] == mem[|f|..];
    assert b2 == f + mem[|f|..];
    assert in1[n..] == rest;
  }

  /** The receiver accepts every extended frame that fits, and the command, subcommand and payload can be read back. */
  lemma ReceiveCmd2Frame(mem: seq<byte>, cmd: byte, subcmd: byte, payload: seq<byte>, rest: seq<byte>, maxLen: nat)
    requires maxLen + 2 <= |mem| && |payload| + 3 <= maxLen < 256
    ensures var r := ReceiveFrame(mem, Cmd2Frame(cmd, subcmd, payload) + rest, maxLen);
            && r.code == |payload| + 5 && r.rest == rest
            && r.buf[..|payload| + 5] == Cmd2Frame(cmd, subcmd, payload)
            && r.buf[2] == cmd && r.buf[3] == subcmd && r.buf[4..|payload| + 4] == payload
  {
    var f := Cmd2Frame(cmd, subcmd, payload);
    ReceiveWellFormed(mem, f, rest, maxLen);
    assert (f + mem[|f|..])[..|f|] == f;
    assert f[4..|payload| + 4] == payload;
  }

  /** The receiver accepts every plain frame that fits, and the command and payload can be read back. */
  lemma ReceiveCmdFrame(mem: seq<byte>, cmd: byte, payload: seq<byte>, rest: seq<byte>, maxLen: nat)
    requires maxLen + 2 <= |mem| && |payload| + 2 <= maxLen < 256
    ensures var r := ReceiveFrame(mem, CmdFrame(cmd, payload) + rest, maxLen);
            && r.code == |payload| + 4 && r.rest == rest
            && r.buf[..|payload| + 4] == CmdFrame(cmd, payload)
            && r.buf[2] == cmd && r.buf[3..|payload| + 3] == payload
  {
    var f := CmdFrame(cmd, payload);
    ReceiveWellFormed(mem, f, rest, maxLen);
    assert (f + mem[|f|..])[..|f|] == f;
    assert f[3..|payload| + 3] == payload;
  }

  /** A header-only frame is accepted when its payload has at least one byte, and rejected with -3 when it is empty. */
  lemma ReceivePlainFrame(mem: seq<byte>, payload: seq<byte>, rest: seq<byte>, maxLen: nat)
    requires maxLen + 2 <= |mem| && |payload| + 1 <= maxLen < 256
    ensures var r := ReceiveFrame(mem, PlainFrame(payload) + rest, maxLen);
            && (payload == [] ==> r.code == -3)
            && (payload != [] ==> r.code == |payload| + 3 && r.rest == rest
                                  && r.buf[..|payload| + 3] == PlainFrame(payload))
  {
    var f := PlainFrame(payload);
    if payload != [] {
      ReceiveWellFormed(mem, f, rest, maxLen);
      assert (f + mem[|f|..])[..|f|] == f;
    } else {
      assert (f + rest)[..2] == [FRAME_HEAD, 1];
    }
  }

  /** A frame whose last byte is anything but the end sentinel is rejected with -4, never truncated or accepted. */
  lemma ReceiveBadTrailer(mem: seq<byte>, f: seq<byte>, x: byte, rest: seq<byte>, maxLen: nat)
    requires maxLen + 2 <= |mem| && WellFormed(f, maxLen) && x != FRAME_END
    ensures ReceiveFrame(mem, f[..|f| - 1] + [x] + rest, maxLen).code == -4
  {
    var g := f[..|f| - 1] + [x];
    var input := g + rest;
    assert input[..2] == f[..2];
    var b1 := mem[..0] + input[..2] + mem[2..];
    var in1 := input[2..];
    var n := |f| - 2;
    var b2 := b1[..2] + in1[..n] + b1[2 + n..];
    assert b2[n + 1] == in1[n - 1] == x;
  }

  /**
   * The read failure is ignored: when a read fails, the receiver
   * validates whatever the buffer still holds, so a frame
   * received earlier is returned again and the -1 code never occurs.
   */
  lemma ReceiveWithoutInputRepeatsBuffer(mem: seq<byte>, input: seq<byte>, maxLen: nat)
    requires maxLen + 2 <= |mem| && |input| < 2
    ensures ReceiveFrame(mem, input, maxLen) == Received(Verdict(mem, maxLen), mem, input)
  {
  }
}
