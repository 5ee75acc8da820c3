# Voice Recognition V3 driver, modelled in Dafny

This project models the driver for the elechouse Voice Recognition V3 module
in `Hello_tizen/src/handle_vr3.c`. The driver has two layers:

- **Framer.** Three encoders build frames `0xAA, LEN, [CMD], [SUBCMD], payload, 0x0A`.
  The receiver validates one frame into the shared 32-byte scratch buffer `vr_buf`.
  `resource_VR_cleanDup` removes repeated record numbers.
- **Command engine.** Each `handle_VR_*` operation sends one request and receives one reply.
  It checks that the reply's command byte echoes the request, then copies the reply's payload to the caller.
  The check-train query has a polling loop that ends after 51 replies or after more than 500 ms without one.

Around the engine sit:

- `resource_VR_setup`, which clears the recognizer and loads four records;
- the group-byte reading of `resource_VR_printVR`;
- the record dispatch of `handle_VR_loop_check`.

The model has these modules, one per file:

- `Protocol` (`protocol.dfy`): bytes, `uint8_t` truncation, and the opcodes and sentinels of `vr3.h`.
- `Framer` (`framer.dfy`): the encoders, `memcpy`, the receiver as a function on the buffer and the pending input, and the lemmas that the receiver accepts every encoded frame.
- `RecordLists` (`record_lists.dfy`): `resource_VR_cleanDup` as an in-place method on an array, proved against a dedup function.
- `Decisions` (`decisions.dfy`): the autoload bitmap loop, the set-signature argument rules, the group byte and the record dispatch.
- `Polling` (`polling.dfy`): the query-all loop of `handle_VR_checkRecord` as a state machine, one step per pass, with the lemmas on how it ends.
- `Engine` (`driver.dfy`): a `Driver` class holding the driver's state:
  - `vr_buf`, as an array;
  - the `timeout` setting;
  - the log of frames written (`sent`);
  - the bytes the module has yet to deliver (`input`);
  - the `millis()` readings the environment will return (`clock`).

  Every operation is a method on this class. Each is specified against the receiver function `ReceiveFrame`, applied to the old buffer and input.
- `Scenarios` (`scenarios.dfy`): end-to-end exchanges with a fresh driver.
- `Findings` (`findings.dfy`): six defects of the C code, each stated as written and as corrected.

The model keeps the following behaviours of the code as they are, although a reading of the protocol alone would expect otherwise:

- **Frame length.** LEN counts every byte after itself, the trailing `0x0A` included, as both the encoders (`len+2`, `len+3`) and the receiver (`buf[buf[1]+1]`) compute it. A frame is therefore LEN + 2 bytes long.
- **Failed reads.** A read failure is never reported. `resource_VR_receive` returns the requested count whatever the transport did. So the receiver validates whatever `vr_buf` still holds, and a "short read" error does not exist.
- **Recognize.** `handle_VR_recognize` returns -1 whenever byte 2 of the buffer is not 0x0D, even when no frame arrived.
- **Empty signature.** An empty string with length 0 is sent exactly as a delete.
- **Failed reads in the query-all loop.** A read that fails does not lead to the idle limit. Each failed read leaves the last check-train reply in the buffer, where it is accepted and counted again.

## Model

| member | source | states |
|---|---|---|
| Protocol.Uint8 | Hello_tizen/src/handle_vr3.c:65 | storing an int in a `uint8_t` keeps it modulo 256 |
| Framer.MemCopy | Hello_tizen/src/handle_vr3.c:69 | `memcpy(&dst[off], src, n)`: bytes off..off+n of dst become the first n bytes of src, the rest unchanged |
| Framer.EncodeCmd2 | Hello_tizen/src/handle_vr3.c:61-75 | the extended frame is `0xAA, len+3, cmd, subcmd, buf[0..len), 0x0A`, len + 5 bytes, payload verbatim |
| Framer.EncodeCmd | Hello_tizen/src/handle_vr3.c:83-96 | the plain frame is `0xAA, len+2, cmd, buf[0..len), 0x0A`, len + 4 bytes |
| Framer.EncodePlain | Hello_tizen/src/handle_vr3.c:103-115 | the header-only frame is `0xAA, len+1, buf[0..len), 0x0A`, len + 3 bytes |
| Framer.ReadInto | Hello_tizen/src/handle_vr3.c:125-136 | a read changes only the n target bytes of the buffer and never lengthens the input |
| Framer.ReceiveFrame | Hello_tizen/src/handle_vr3.c:145-166 | the code is the verdict on the buffer afterwards: -2 bad head, -3 LEN below 2 (or above 30), -4 bad end byte, otherwise LEN + 2, at least 4 |
| Framer.ReceiveWellFormed | Hello_tizen/src/handle_vr3.c:145-166 | a well-formed frame at the head of the input is received whole, its code is its length, and the input after it is untouched |
| Framer.ReceiveCmd2Frame | Hello_tizen/src/handle_vr3.c:61-75 | every extended frame that fits is accepted, and command, subcommand and payload read back unchanged |
| Framer.ReceiveCmdFrame | Hello_tizen/src/handle_vr3.c:83-96 | every plain frame that fits is accepted, and command and payload read back unchanged |
| Framer.ReceivePlainFrame | Hello_tizen/src/handle_vr3.c:103-115 | a header-only frame round-trips when its payload is non-empty; with an empty payload (LEN 1) it is rejected with -3 |
| Framer.ReceiveBadTrailer | Hello_tizen/src/handle_vr3.c:159-161 | a frame whose last byte is not 0x0A is rejected with -4 |
| Framer.ReceiveWithoutInputRepeatsBuffer | Hello_tizen/src/handle_vr3.c:129-135 | after a failed read, the receiver re-examines the buffer as it stands, so the -1 code of lines 148-151 is never returned |
| RecordLists.FirstIndex | Hello_tizen/src/handle_vr3.c:175-180 | the position of the first occurrence of a value |
| RecordLists.Dedup | Hello_tizen/src/handle_vr3.c:169-188 | the result has no repetitions, holds exactly the input's values, and is no longer than the input |
| RecordLists.DedupPrefix | Hello_tizen/src/handle_vr3.c:174-186 | deduplicating a longer prefix only appends to the result |
| RecordLists.DedupFirstOccurrenceOrder | Hello_tizen/src/handle_vr3.c:169-188 | values appear in the order of their first occurrence in the input |
| RecordLists.DedupOfNoDup | Hello_tizen/src/handle_vr3.c:169-188 | a list without repetitions is kept as it is |
| RecordLists.DedupIdempotent | Hello_tizen/src/handle_vr3.c:169-188 | deduplicating the output again changes nothing |
| RecordLists.DedupExample | Hello_tizen/src/handle_vr3.c:169-188 | for distinct a, b, c, the list a, b, a, c becomes a, b, c |
| RecordLists.CleanDup | Hello_tizen/src/handle_vr3.c:169-188 | -1 and des untouched when len < 1; otherwise k with 1 <= k <= len, des[0..k) the dedup of buf[0..len), the rest of des untouched |
| Decisions.AutoLoadBitmap | Hello_tizen/src/handle_vr3.c:301-308 | the bitmap has exactly the low min(len, 8) bits set, 0xFF from 8 records on, 0 for none |
| Decisions.Strlen | Hello_tizen/src/handle_vr3.c:355 | `strlen` counts the bytes before the first NUL |
| Decisions.SignaturePayload | Hello_tizen/src/handle_vr3.c:350-363 | null buffer: empty payload (delete) iff len is 0, else rejected; explicit len: the first len bytes; len 0 with a string: rejected iff strlen modulo 256 exceeds 10, otherwise the string's NUL-free prefix |
| Decisions.EmptySignatureIsDelete | Hello_tizen/src/handle_vr3.c:350-358 | an empty string with len 0 sends exactly what a delete sends |
| Decisions.LongSignatureLengthWraps | Hello_tizen/src/handle_vr3.c:355-358 | a string of 256 + k bytes (k <= 10) passes the cap and only its first k bytes are sent |
| Decisions.GroupOf | Hello_tizen/src/handle_vr3.c:602-610 | 0xFF is no group, 0x80..0xFE a user group, below 0x80 a system group, and the byte is recovered from the group |
| Decisions.GroupRoundTrip | Hello_tizen/src/handle_vr3.c:602-610 | every group a byte can name is read back from its byte |
| Decisions.RecordAction | Hello_tizen/src/handle_vr3.c:631-655 | records 1 to 4 select on, off, forward, backward; any other record is undefined |
| Decisions.ActionRoundTrip | Hello_tizen/src/handle_vr3.c:631-655 | each action is dispatched from its own record number |
| Polling.Elapsed | Hello_tizen/src/handle_vr3.c:514 | `millis() - start_millis` in a 32-bit `unsigned long`: in range, and the true difference when that fits |
| Polling.ApplyPairs | Hello_tizen/src/handle_vr3.c:501-503 | the pair loop keeps the result buffer's length |
| Polling.ApplyPairsKeeps | Hello_tizen/src/handle_vr3.c:501-503 | a record no pair names keeps its status |
| Polling.ApplyPairsLastWins | Hello_tizen/src/handle_vr3.c:501-503 | a record ends with the status of the last pair that names it |
| Polling.IdleCheck | Hello_tizen/src/handle_vr3.c:514-520 | the idle check keeps the buffers and the count and consumes a reading when it goes on |
| Polling.OnReply | Hello_tizen/src/handle_vr3.c:499-511 | handling a reply with LEN at most 30 counts at most one frame, never more than 51, and consumes a reading when it goes on |
| Polling.PollStep | Hello_tizen/src/handle_vr3.c:497-521 | one pass keeps the buffer sizes, counts at most one frame and consumes a reading when it goes on |
| Polling.RunPoll | Hello_tizen/src/handle_vr3.c:497-521 | the loop always ends (with the readings as measure) |
| Polling.FillUnset | Hello_tizen/src/handle_vr3.c:494 | bytes 0..254 become 0xF0, the rest untouched |
| Polling.QueryAll | Hello_tizen/src/handle_vr3.c:493-522 | the query-all mode always ends |
| Polling.IdleCheckEnds | Hello_tizen/src/handle_vr3.c:514-520 | an idle timeout returns -2 with no count, or byte 3 of the buffer with buf[0] = 5 × count |
| Polling.OnReplyEnds | Hello_tizen/src/handle_vr3.c:499-511 | a reply ends the loop only with -3, with byte 3 of the 51st reply, or through the idle check |
| Polling.PollStepEnds | Hello_tizen/src/handle_vr3.c:497-521 | a pass that ends the loop ends it properly |
| Polling.PollStepOtherCommand | Hello_tizen/src/handle_vr3.c:498-514 | a pass returns -3 if and only if the receiver accepts a reply whose command byte is not check-train; a rejected frame is not counted |
| Polling.PollOutcomes | Hello_tizen/src/handle_vr3.c:493-522 | the loop never returns -1; -2 only without a counted reply; -3 only with a command byte other than check-train in the buffer; otherwise byte 3 of the last reply after 1 to 51 replies, with buf[0] = 5 × count when fewer than 51 |
| Polling.PollCountsReplies | Hello_tizen/src/handle_vr3.c:497-509 | check-train replies arriving back to back on a steady clock end the loop at the 51st with that reply's byte 3, consuming exactly those replies |
| Polling.PollFailedReadRecountsLastReply | Hello_tizen/src/handle_vr3.c:497-509 | when every read fails, the last check-train reply is counted again on every pass until 51, whatever the clock |
| Polling.OnReplyCounts | Hello_tizen/src/handle_vr3.c:499-514 | a check-train reply that is not the 51st is counted, restarts the wait, and the loop goes on |
| Engine.ReplyPayload | Hello_tizen/src/handle_vr3.c:250 | an accepted reply's payload has LEN - 2 bytes, at most 28 |
| Engine.PayloadTail | Hello_tizen/src/handle_vr3.c:209-211 | the bytes after the payload's first byte: LEN - 3 of them, none for LEN 2 |
| Engine.SignatureBytes | Hello_tizen/src/handle_vr3.c:412-414 | when the signature fits the reply, the bytes copied from offset 5 are the payload after its first two bytes |
| Engine.TailBytes | Hello_tizen/src/handle_vr3.c:209-211 | the bytes copied from offset 4 are exactly the payload tail |
| Engine.ReceiveRepeated | Hello_tizen/src/handle_vr3.c:145-166 | k receives in a row keep the buffer size, never lengthen the input, and end with the verdict on the buffer |
| Engine.ReceiveRepeatedFrames | Hello_tizen/src/handle_vr3.c:145-166 | k well-formed replies back to back are consumed one per receive: the last one's length is the code, it heads the buffer, and only what follows them is left |
| Engine.Driver.NextReply | Hello_tizen/src/handle_vr3.c:43 | the next receive's result keeps the 32-byte buffer size |
| Engine.Driver.constructor | Hello_tizen/src/handle_vr3.c:40-43 | `vr_buf` zeroed, the default timeout, nothing written |
| Engine.Driver.SendCmd2Pkt | Hello_tizen/src/handle_vr3.c:61-75 | appends the extended frame to the written log and changes nothing else |
| Engine.Driver.SendCmdPkt | Hello_tizen/src/handle_vr3.c:83-96 | appends the plain frame to the written log and changes nothing else |
| Engine.Driver.SendPkt | Hello_tizen/src/handle_vr3.c:103-115 | appends the header-only frame to the written log and changes nothing else |
| Engine.Driver.Receive | Hello_tizen/src/handle_vr3.c:125-136 | returns n whatever happened; buffer and input change as one read does |
| Engine.Driver.ReceivePkt | Hello_tizen/src/handle_vr3.c:145-166 | code, buffer and remaining input are the receiver's |
| Engine.Driver.Recognize | Hello_tizen/src/handle_vr3.c:202-217 | -1 when byte 2 is not 0x0D (examined first), 0 on a failed receive, otherwise the recognition data copied to buf and its length; nothing sent |
| Engine.Driver.Load | Hello_tizen/src/handle_vr3.c:238-254 | sends the LOAD frame; -1 unless a LOAD reply comes back; then 0 without buf, or the payload copied to buf and its length |
| Engine.Driver.LoadOne | Hello_tizen/src/handle_vr3.c:273-289 | load of the one-record list |
| Engine.Driver.SetAutoLoad | Hello_tizen/src/handle_vr3.c:298-322 | -1 with nothing sent when exactly one of list and length is absent; otherwise one SET_AL frame whose subcommand has exactly the low min(len, 8) bits set, and 0 iff SET_AL is echoed |
| Engine.Driver.DisableAutoLoad | Hello_tizen/src/handle_vr3.c:331-335 | sends SET_AL with bitmap 0 and no payload; 0 iff echoed |
| Engine.Driver.SetSignature | Hello_tizen/src/handle_vr3.c:346-374 | rejected calls send nothing and return -1; otherwise one SET_SIG frame with the argument rules' payload, and 0 iff echoed |
| Engine.Driver.DeleteSignature | Hello_tizen/src/handle_vr3.c:382-386 | sends SET_SIG with an empty payload; 0 iff echoed |
| Engine.Driver.CheckSignature | Hello_tizen/src/handle_vr3.c:396-418 | -1 unless CHECK_SIG is echoed; 0 for a zero length byte; otherwise the signature bytes copied and their count, or -1 when the length byte runs past the reply |
| Engine.Driver.Clear | Hello_tizen/src/handle_vr3.c:425-443 | sends CLEAR; 0 iff CLEAR is echoed, otherwise -1 |
| Engine.Driver.CheckRecognizer | Hello_tizen/src/handle_vr3.c:457-477 | -1 unless CHECK_BSR is echoed with LEN 0x0D; then the 11 status bytes copied and 11 |
| Engine.Driver.ApplyStatusPairs | Hello_tizen/src/handle_vr3.c:501-503 | the result buffer becomes the pair loop's function of the reply |
| Engine.Driver.QueryAllRecords | Hello_tizen/src/handle_vr3.c:493-522 | sends the 0xFF query, then ends in exactly the outcome, result buffer, scratch buffer, input and readings of the loop's state machine |
| Engine.Driver.IdlePass | Hello_tizen/src/handle_vr3.c:514-520 | performs one idle-check step of the state machine |
| Engine.Driver.OnReplyPass | Hello_tizen/src/handle_vr3.c:499-520 | performs one reply-handling step of the state machine |
| Engine.Driver.CopyTrainPairs | Hello_tizen/src/handle_vr3.c:529-530 | the reply's pairs land in buf[1..], their count in buf[0], and the rest of buf is untouched |
| Engine.Driver.CheckListedRecords | Hello_tizen/src/handle_vr3.c:524-538 | -1 with nothing sent and nothing changed when more than 32 distinct ids are given (corrected, Findings); otherwise sends the deduplicated list; -1 on a failed receive, -3 on another command; otherwise the pairs copied to buf[1..], their count in buf[0], and byte 3 of the reply |
| Engine.Driver.CheckRecord | Hello_tizen/src/handle_vr3.c:488-543 | dispatches to the query-all mode (no list, no length), the specific-list mode (a length, any number of distinct ids), or -1 with nothing sent (a list without a length) |
| Engine.Driver.LoadDefaults | Hello_tizen/src/handle_vr3.c:567-581 | sends LOAD for records 1, 2, 3 and 4 in that order, and leaves the buffer and input of four receives in a row |
| Engine.Driver.Setup | Hello_tizen/src/handle_vr3.c:555-582 | halts iff the clear is not echoed (only the CLEAR frame sent, one reply received); otherwise CLEAR and the four loads, with the buffer and input of five receives in a row |
| Engine.Driver.LoopCheck | Hello_tizen/src/handle_vr3.c:623-663 | dispatches iff a 0x0D reply with recognition data came back, on its record byte and group byte |
| Scenarios.SetupFailedReadHalts | Hello_tizen/src/handle_vr3.c:557-565 | when the read of the clear reply fails, setup halts after one CLEAR frame |
| Scenarios.SetupAcknowledgedLoadsFourRecords | Hello_tizen/src/handle_vr3.c:555-582 | an acknowledged clear is followed by the loads of records 1 to 4 |
| Scenarios.LoadReadsReplyBack | Hello_tizen/src/handle_vr3.c:273-289 | a LOAD reply's payload is returned with its length |
| Scenarios.LoadRejectsOtherReply | Hello_tizen/src/handle_vr3.c:281-283 | a reply to another command gives -1 and leaves buf alone |
| Scenarios.LoopCheckTurnsOn | Hello_tizen/src/handle_vr3.c:629-636 | a recognition of record 1 with no group dispatches "on" |
| Scenarios.LoopCheckIgnoresOtherReply | Hello_tizen/src/handle_vr3.c:206-208 | a reply that is not 0x0D dispatches nothing |
| Scenarios.QueryAllFailedReadTimesOut | Hello_tizen/src/handle_vr3.c:514-520 | with every read failing over the zeroed buffer and a reading 501 ms after the start, query-all returns -2 |
| Findings.OverlongFrameOverrunsBuffer | Hello_tizen/src/handle_vr3.c:155-158 | as written, a frame with LEN >= 31 is accepted and its bytes land past the 32-byte buffer |
| Findings.OverlongFrameRejected | Hello_tizen/src/handle_vr3.c:155-158 | corrected, such a frame is rejected with -3 and nothing past the header is written |
| Findings.FailureCodesPassAsWritten | Hello_tizen/src/handle_vr3.c:240-244 | -2, -3 and -4 kept in a `uint8_t` become 254, 253, 252 and pass the `<= 0` test |
| Findings.LoadResultAsWritten | Hello_tizen/src/handle_vr3.c:238-254 | as written, load reports a result only for a LOAD command byte and a code that passes the truncated test |
| Findings.BadTrailerLoadAcceptedAsWritten | Hello_tizen/src/handle_vr3.c:238-254 | as written, a LOAD reply rejected with -4 still yields one byte of result |
| Findings.LoadRejectsBadTrailer | Hello_tizen/src/handle_vr3.c:238-254 | corrected, the same reply makes load return -1 |
| Findings.PollStepAsWritten | Hello_tizen/src/handle_vr3.c:497-521 | as written, a pass with the code in `uint8_t len` agrees with the corrected pass on every accepted frame, and handles a rejected one as a reply |
| Findings.GarbledFrameEndsQueryAsWritten | Hello_tizen/src/handle_vr3.c:497-520 | as written, a garbled frame over a non-check-train buffer ends the loop with -3, where the corrected pass reaches the idle check's -2 |
| Findings.GarbledFrameOverrunsAsWritten | Hello_tizen/src/handle_vr3.c:497-503 | as written, a garbled frame `xx FF` over a stale check-train buffer is counted and its pair loop runs past `vr_buf`; the corrected pass does not count it |
| Findings.SignatureCopyEndAsWritten | Hello_tizen/src/handle_vr3.c:412-414 | the copy runs from offset 5 to 5 + the length byte |
| Findings.OverlongSignatureReadsPastBuffer | Hello_tizen/src/handle_vr3.c:396-418 | as written, an accepted 6-byte CHECK_SIG reply with length byte 200 makes the copy run to offset 205 of the 32-byte buffer |
| Findings.CheckSignatureRejectsOverlongLength | Hello_tizen/src/handle_vr3.c:396-418 | corrected, the same reply gives -1 and leaves buf alone |
| Findings.ListedWriteEndAsWritten | Hello_tizen/src/handle_vr3.c:525 | the number of bytes `resource_VR_cleanDup` writes into `vr_buf`: at least 1 and at most len |
| Findings.DistinctRecordsOverrunAsWritten | Hello_tizen/src/handle_vr3.c:183 | as written, a list of more than 32 distinct ids is written past the end of the 32-byte `vr_buf` |
| Findings.ManyDistinctRecordsRejected | Hello_tizen/src/handle_vr3.c:524-526 | corrected, the 33 ids 0 to 32 give -1 with nothing sent and the result buffer untouched |
| Findings.ListedCopyCountAsWritten | Hello_tizen/src/handle_vr3.c:529 | the `memcpy` count LEN - 3 as a 32-bit `size_t` |
| Findings.EmptyCheckTrainReplyOverrunsAsWritten | Hello_tizen/src/handle_vr3.c:524-531 | as written, an accepted check-train reply with LEN 2 makes the copy count 0xFFFF_FFFF |
| Findings.EmptyCheckTrainReplyCopiesNothing | Hello_tizen/src/handle_vr3.c:524-531 | corrected, that reply copies nothing, gives pair count 0, and returns its byte 3 |

## Findings

| source | as written | input that shows it | evidently intended | confidence | as-written member | corrected member |
|---|---|---|---|---|---|---|
| Hello_tizen/src/handle_vr3.c:155-158 | LEN bytes are read into the 32-byte `vr_buf` at offset 2 with only `LEN < 2` rejected | any well-formed frame with LEN from 31 to 255 | reject a LEN the buffer cannot hold (above 30) | high; not executed | Findings.OverlongFrameOverrunsBuffer | Findings.OverlongFrameRejected |
| Hello_tizen/src/handle_vr3.c:240-244 | the receive code is kept in `uint8_t ret` (also 275 in load_one), so -2, -3, -4 pass `ret <= 0` | the LOAD reply `AA 03 30 01 00` (end byte 0x00), rejected with -4, still yields one byte of result | keep the code in an `int`, so failures return -1 | high; not executed | Findings.BadTrailerLoadAcceptedAsWritten | Findings.LoadRejectsBadTrailer |
| Hello_tizen/src/handle_vr3.c:498-499 | the query-all loop keeps the receive code in the `uint8_t` parameter `len`, so a rejected frame is handled as a reply on the stale buffer | no reply counted, a garbled frame `00 00` over a buffer whose byte 2 is not 0x02 and a reading past 500 ms: -3 instead of -2; over a check-train buffer, `00 FF` runs the pair loop to offset 252 | keep the code in an `int`, so a rejected frame only leads to the idle check | high; not executed | Findings.GarbledFrameEndsQueryAsWritten | Polling.PollStepOtherCommand |
| Hello_tizen/src/handle_vr3.c:412-414 | `vr_buf[4]` bytes are copied from `vr_buf+5` without comparing with LEN | the accepted CHECK_SIG reply `AA 04 03 01 C8 0A` makes the copy read up to offset 205 | fail when the length byte runs past the reply | medium; not executed | Findings.OverlongSignatureReadsPastBuffer | Findings.CheckSignatureRejectsOverlongLength |
| Hello_tizen/src/handle_vr3.c:525-526 | `resource_VR_cleanDup` writes every distinct id of the list into the 32-byte `vr_buf`, and the list may hold up to 255 | the 33 records 0, 1, ..., 32 | refuse a list with more distinct ids than `vr_buf` holds | high; not executed | Findings.DistinctRecordsOverrunAsWritten | Findings.ManyDistinctRecordsRejected |
| Hello_tizen/src/handle_vr3.c:529-530 | `memcpy(buf+1, vr_buf+4, vr_buf[1]-3)` with LEN 2 passes -1, taken as a huge `size_t` | the accepted check-train reply `AA 02 02 0A` | copy nothing when the reply carries no pairs | high; not executed | Findings.EmptyCheckTrainReplyOverrunsAsWritten | Findings.EmptyCheckTrainReplyCopiesNothing |

The corrected behaviour is what the rest of the model uses:

- **Receiver.** `ReceiveFrame` is applied with a largest LEN of 30 (`MAX_REPLY_LEN`).
- **Receive code.** The operations, the query-all loop included, keep the receive code as an integer.
- **Check signature.** `Engine.Driver.CheckSignature` returns -1 when 4 + the length byte exceeds LEN.
- **Check record.** `Engine.Driver.CheckListedRecords` deduplicates the list into a buffer of its own and returns -1 without sending when more than 32 distinct ids remain.
  It copies max(0, LEN - 3) bytes.
  For LEN 2 the pair count in buf[0] stays 0, as C's truncating division gives.

## Left out

- Engine.Driver.Receive: does not model the wait for a silent module. The read is blocking (`resource_read_data(buf, len, true)`), and `Hello_tizen/src/resource_uart_vr.c:143-148` retries a read that has no data yet forever. In the model, a read either delivers all n bytes or fails and leaves the buffer and input unchanged. A failed read stands for the hard failures of `resource_uart_vr.c:133-134` and `158-162`: no UART handle, or another read error. An exhausted `input` means such a failure, not a module that is still quiet.
- Engine.Driver.SendCmd2Pkt, Engine.Driver.SendCmdPkt, Engine.Driver.SendPkt: a failed write is only logged by the driver. The model records every frame as written.
- Engine.Driver.ReceivePkt: the receive timeout is passed through and ignored by the driver, so `timeout` is only stored. There is no branch for the unreachable -1 code.
- Engine.Driver.QueryAllRecords: `millis()` is computed from `clock()` (processor time). It is replaced by readings the environment supplies, taken from `clock`. When they run out, the outcome is `ClockStopped`, an end the C loop does not have.
- Engine.Driver.QueryAllRecords: requires a result buffer of at least 256 bytes. The loop writes `buf[id]` for any record id up to 0xFF, and the C code does not check the caller's buffer size.
- Engine.Driver.CheckRecord: a null list with a non-zero length makes the C code dereference NULL. The model requires a list whenever the length is non-zero.
- Engine.Driver.Setup: the endless `while(1)` after a failed clear is modelled as the `Halted` outcome.
- Decisions.AutoLoadBitmap: for list positions 31 and beyond, `1<<i` is undefined in C on a 32-bit `int`. The model, like every common compiler for the target, adds no bit that a `uint8_t` keeps from position 8 on.
- Engine.Driver.LoopCheck: the logging, and the `sprintf`/`strncpy` formatting of `resource_VR_printVR`, are left out. This includes its copy of `buf[3]` signature bytes into a 10-byte array. Only the group classification is kept.
- Engine.Driver.CheckSignature: the `record < 0` test is dead code on a `uint8_t` and has no branch in the model.
- The `LOGI`/`LOGE` output of every operation is left out.
- The motor call of `handle_VR_loop_check` is commented out in the source and left out.
- The train, group-control, baud-rate, IO-mode, pulse-width and test operations are declared in `Hello_tizen/inc/vr3.h:157-177` but have no bodies, so there is nothing to model.
- Integer widths:
  - `vr_buf` bytes are modelled as a byte type with values 0..255.
  - Truncation to `uint8_t` is written out (`Uint8`) where the driver stores a wider value, e.g. LEN bytes and `cnt*5`.
  - The `strlen` result is also stored in a `uint8_t`, and that truncation is modelled too.
