/**
 * End-to-end exchanges with a freshly set-up driver: the module's replies
 * are given as the bytes it delivers, and each scenario states what the
 * driver sends and returns.
 */
module Scenarios {
  import opened Protocol
  import opened Framer
  import opened Decisions
  import opened Polling
  import opened Engine

  /** Setup when the read of the clear reply fails: the zeroed buffer is rejected and setup halts after one frame. */
  method SetupFailedReadHalts() returns (o: SetupOutcome, sent: seq<seq<byte>>)
    ensures o == Halted && sent == [CmdFrame(FRAME_CMD_CLEAR, [])]
  {
    var d := new Driver([], []);
    ReceiveWithoutInputRepeatsBuffer(d.vrBuf[..], [], MAX_REPLY_LEN);
    o := d.Setup();
    sent := d.sent;
  }

  /** Setup against a module that acknowledges clear: clear, then the four loads. */
  method SetupAcknowledgedLoadsFourRecords() returns (o: SetupOutcome, sent: seq<seq<byte>>)
    ensures o == Ready
    ensures sent == [CmdFrame(FRAME_CMD_CLEAR, []),
                     CmdFrame(FRAME_CMD_LOAD, [1]), CmdFrame(FRAME_CMD_LOAD, [2]),
                     CmdFrame(FRAME_CMD_LOAD, [3]), CmdFrame(FRAME_CMD_LOAD, [4])]
  {
    var reply := CmdFrame(FRAME_CMD_CLEAR, []);
    var d := new Driver(reply, []);
    ReceiveCmdFrame(d.vrBuf[..], FRAME_CMD_CLEAR, [], [], MAX_REPLY_LEN);
    assert reply + [] == reply;
    o := d.Setup();
    sent := d.sent;
  }

  /** Loading record 7 with a result buffer: the reply's payload comes back with its length. */
  method LoadReadsReplyBack() returns (ret: int, result: seq<byte>)
    ensures ret == 3 && result == [1, 7, 0]
  {
    var reply := CmdFrame(FRAME_CMD_LOAD, [1, 7, 0]);
    var d := new Driver(reply, []);
    ReceiveCmdFrame(d.vrBuf[..], FRAME_CMD_LOAD, [1, 7, 0], [], MAX_REPLY_LEN);
    assert reply + [] == reply;
    var buf := new byte[MAX_REPLY_PAYLOAD];
    ret := d.LoadOne(7, buf);
    result := buf[..ret];
  }

  /** A reply to another command makes load fail, and the result buffer is left alone. */
  method LoadRejectsOtherReply() returns (ret: int, same: bool)
    ensures ret == -1 && same
  {
    var reply := CmdFrame(FRAME_CMD_CLEAR, []);
    var d := new Driver(reply, []);
    ReceiveCmdFrame(d.vrBuf[..], FRAME_CMD_CLEAR, [], [], MAX_REPLY_LEN);
    assert reply + [] == reply;
    var buf := new byte[MAX_REPLY_PAYLOAD];
    var before := buf[..];
    ret := d.LoadOne(7, buf);
    same := buf[..] == before;
  }

  /** A recognition of record 1 outside any group is dispatched as "turn on". */
  method LoopCheckTurnsOn(scratch: seq<byte>) returns (heard: Option<(Action, Group)>)
    requires |scratch| == LOOP_BUF_SIZE
    ensures heard == Some((TurnOn, NoGroup))
  {
    var reply := CmdFrame(FRAME_CMD_VR, [1, 0xFF, 1, 0, 0]);
    var d := new Driver(reply, []);
    ReceiveCmdFrame(d.vrBuf[..], FRAME_CMD_VR, [1, 0xFF, 1, 0, 0], [], MAX_REPLY_LEN);
    assert reply + [] == reply;
    heard := d.LoopCheck(scratch);
  }

  /** A reply that is not a recognition dispatches nothing. */
  method LoopCheckIgnoresOtherReply(scratch: seq<byte>) returns (heard: Option<(Action, Group)>)
    requires |scratch| == LOOP_BUF_SIZE
    ensures heard == None
  {
    var reply := CmdFrame(FRAME_CMD_LOAD, [1, 1, 0]);
    var d := new Driver(reply, []);
    ReceiveCmdFrame(d.vrBuf[..], FRAME_CMD_LOAD, [1, 1, 0], [], MAX_REPLY_LEN);
    assert reply + [] == reply;
    heard := d.LoopCheck(scratch);
  }

  /**
   * Query-all when every read fails: the first clock reading starts the
   * wait, the second is past 500 ms, and no reply was counted, so -2.
   */
  method QueryAllFailedReadTimesOut() returns (outcome: Outcome)
    ensures outcome == Returned(-2)
  {
    var buf := new byte[256];
    var d := new Driver([], [0, 501]);
    var p := Poll(FillUnset(buf[..]), d.vrBuf[..], [], [501], 0, 0);
    ReceiveWithoutInputRepeatsBuffer(d.vrBuf[..], [], MAX_REPLY_LEN);
    assert PollStep(p) == Stop(Returned(-2), p.(clock := []));
    outcome := d.CheckRecord(buf, None, 0);
  }
}
