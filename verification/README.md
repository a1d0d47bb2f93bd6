# Models of the Serial Modem application

The Serial Modem application turns an nRF91 device into a modem that a host drives with AT
commands over a UART. This project models the parts of it that move bytes or keep books, and
proves what they promise: every statement below is for all inputs, all handler and driver answers,
and all interleavings that the model allows.

| file | what it models |
|---|---|
| `Bytes.dfy` | octets, block copies, lists of blocks; data notifications with offsets |
| `RingBuffer.dfy` | the byte ring buffer with contiguous claims |
| `Checksum.dfy` | the Internet checksum (RFC 1071) and the ICMPv6 checksum (section 2.3 of RFC 4443, section 8.1 of RFC 2460) |
| `Terminator.dfy` | the two on-line searches for the data mode terminator |
| `DataMode.dfy` | data mode of one AT host context |
| `CommandLine.dfy` | AT command line reception as a line editor |
| `UrcQueue.dfy` | when unsolicited result codes may reach a pipe |
| `UartRx.dfy`, `UartTx.dfy` | the two halves of the UART pipe |
| `CoapUpload.dfy`, `CoapRequest.dfy` | the two-thread upload of a CoAP payload, as a protocol and as the code that takes its steps |
| `CoapPull.dfy` | manual reception of a CoAP response |
| `SmsConcat.dfy` | reassembly of concatenated SMS messages (section 9.2.3.24.1 of 3GPP TS 23.040) |
| `HttpBody.dfy`, `HttpHeaders.dfy` | HTTP response accounting; the size of the request headers |
| `Dfu.dfy` | full modem firmware update from the host script to the memory |
| `PollEvents.dfy` | bookkeeping of asynchronous socket events |

Code that updates fields or buffers in place is a class or a method on arrays, proved against
functions on values. Threads, interrupts and timers are atomic steps; a method that can be
interrupted takes the interrupts as a parameter. `dafny verify dfyconfig.toml` checks everything.

## What the proofs show about the code

- **The ICMPv6 receiver is stricter than the checksum.** It accepts a packet if and only if the
  packet verifies and its checksum field is not 0x0000 (`AcceptsIffVerifies`). Packets that the
  sender builds are accepted (`BuildEcho6`, `AcceptReply6`); a valid packet with a zero field is not
  (`ZeroChecksumRejected`). A packet that ends before the checksum is tested as if up to three more
  bytes of the buffer belonged to it (`Covered`).
- **calc_ics at an odd offset.** A re-check gives 0 if and only if the offset is even or the sum of the
  buffer with a cleared field is a multiple of 257 (`CalcIcs`); `OddOffsetFails` is a buffer for which
  it does not.
- **The data mode search is exact for some terminators only:** for all inputs if and only if every
  proper border of a prefix of the terminator is continued by the same byte as the prefix
  (`DataExactIff`). The null mode search is exact if and only if the terminator is one repeated byte
  (`NullExactIff`). The default terminator `+++` has both properties.
- **A failed send in data mode with a declared length** clears the length, and the decrement that
  follows wraps around (`Countdown`). Nothing depends on it, since the mode has changed.
- **The CoAP upload depends on the library copying a block before it signals.** With the copy after
  the signal a block can be overwritten first (`EarlySignalIsUnsafe`).
- **Leaving data mode early aborts the CoAP upload** if and only if the bytes fed in fall short of the
  declared length and are a whole number of blocks (`TruncationAborts`), also when all of them have
  been handed out (`BoundaryTruncation`).
- **A CoAP request can be freed under the data mode thread:** if and only if the thread is inside
  coap_datamode_send_block when coap_callback ends the request or payload_cb gives up waiting
  (`ClosedInUse`). coap_callback does so when a response fails, but also with the final response, such
  as an early 4.13 (`EndWhileWaiting`).
- **While the last block is still to come** and nothing has ended the upload, one of the two threads can
  go on, and the bytes fed in are those handed out and those staged (`LastBlockIsComing`).
- **TX bytes that survive a disable** wait in the ring after the next enable until something else is
  transmitted: bytes in the ring mean a transfer in flight exactly unless they are left over or uart_tx
  has failed in an interrupt (`UartTransmitter.Valid`, `LeftoverStays`). After such a failure the
  semaphore is never given: nothing goes out until the UART has been disabled and enabled
  (`FailedStartStalls`). A failure in pipe_transmit is returned although the bytes stay accepted
  (`PipeTransmit`).
- **A full message queue of the AT host is purged,** and only then can a URC be left without a wake-up
  (`AtHost.Run`); `StrandedUrc` leaves one for every size of the queue.
- **A URC can go out while its pipe is locked.** A flush begins in an idle moment, but its loop does not
  look at the lock again. A URC finds the context locked exactly if, since its flush began, other threads
  have locked it more often than unlocked it; in a flush of the work queue nothing else can disturb
  (`UrcMeansIdle`, `LockedUrc`). The CoAP client thread takes the lock so that no URC gets between a
  notification and its data (app/src/sm_at_coap.c:171-174).
- **Data mode ends well exactly if no send fails:** `FailedIff` says when one does, `FeedSession` what follows.
- **Buffered HTTP bytes can be lost in manual mode.** With the headers complete, an event ends the
  request exactly if it is an error, a hang-up without data, or a read at the end of the input
  (`ProcessRequest`); buffered bytes are then not delivered. A read into a full buffer looks like the
  end of the connection (`FullBufferEndsRequest`); it takes a report of POLLIN, which manual mode has
  stopped asking for. A hang-up alone is enough, too (`HangUpEndsRequest`); AT#XAPOLL on the socket
  asks for it by itself (app/src/sm_at_socket.c:2382).
- **An HTTP client that re-requests an event while being told about it loses the request.** The poll
  handler then stops polling for the bit, although it may still be reported; this happens exactly for
  the bits of `Forgotten` that are not observed meanwhile (`WorkHandler`, `PollWork`). A request that is
  sent in part is such a case (`PartialSendStalls`, app/src/sm_at_httpc.c:862-864). When SO_POLLCB cannot
  be set, the bits count as polled for, and nothing tries again (`FailedPollStalls`).
- **A concatenated SMS with reference number 0 is not put together.** 0 also stands for "no message", so
  every part gets a buffer of its own, and the notification has the text of the part that arrived last
  (`ZeroKeepsLast`): it is right if and only if the number is not 0 or no other part has a text
  (`RightIff`). One stray part with number 0 also spoils the next message (`ZeroSpoilsNext`).
- **The update script takes a short file for complete** if the file ends inside the last chunk of its last
  segment. On a link that works the update succeeds if and only if the file reaches into the last chunk of
  every segment (`DoDfuFile`, `LastStartIs`); the segments have their full length if and only if the file is
  as long as the manifest says (`FullLengthIff`); `ShortFile` lies in between.
- **An SMS payload that fills its slot** puts its terminator on the next slot, whose text then reads as
  empty; a shorter one never does (`StoreBeforeOther`). Parts with a user data header are shorter.

## Model

| member | source | states |
|---|---|---|
| `Checksum.CheckIcs` | app/src/sm_at_icmp.c:51-92 | for every length the result is the complement of the 16-bit one's-complement sum of RFC 1071 over little-endian words, odd lengths included; a negative length counts its two lowest bits |
| `Checksum.OnesSumIsResidue` | app/src/sm_at_icmp.c:57-89 | adding word by word with end-around carry equals the plain sum reduced modulo 0xFFFF, with 0 only for all zeros: what lets 32-bit accumulation stand in for 16-bit |
| `Checksum.AccumulateFour` | app/src/sm_at_icmp.c:57-64 | one 32-bit step with carry has the effect of two 16-bit ones |
| `Checksum.Fold` | app/src/sm_at_icmp.c:87-89 | the fold loop ends and keeps the value modulo 0xFFFF, in 16 bits |
| `Checksum.CalcIcs` | app/src/sm_at_icmp.c:94-102 | the field completes the buffer: the re-check is 0 if and only if the offset is even or the cleared buffer sums to a multiple of 257; no other byte changes |
| `Checksum.FieldCompletes` | app/src/sm_at_icmp.c:94-102 | when the complement of the cleared buffer's sum, put in the field, makes the sum all ones, at even and odd offsets |
| `Checksum.OddOffsetFails` | app/src/sm_at_icmp.c:94-102 | a buffer whose field at an odd offset misses |
| `Checksum.AcceptsIffVerifies` | app/src/sm_at_icmp.c:356-373 | summing complements of the five pieces and folding agrees with the packet's field if and only if the sum over pseudo header and message verifies and the field is not zero |
| `Checksum.FillChecksum6` | app/src/sm_at_icmp.c:214-232 | the field makes the packet verify and is not zero; nothing else changes |
| `Checksum.BuildEcho6` | app/src/sm_at_icmp.c:176-233 | an echo request of any payload length has its header and payload as specified, and verifies |
| `Checksum.AcceptReply6` | app/src/sm_at_icmp.c:356-373 | for every received length the test holds if and only if the part of the buffer that it covers verifies with a field that is not zero |
| `Checksum.ZeroChecksumRejected` | app/src/sm_at_icmp.c:371-373 | a packet that verifies, has a zero field and is turned down |
| `Terminator.DataExactIff` | app/src/sm_at_host.c:841-858 | the data mode search finds the first occurrence on every input if and only if no match can be forgotten |
| `Terminator.NullExactIff` | app/src/sm_at_host.c:1389-1419 | the null mode search finds the first occurrence on every input if and only if the terminator is one repeated byte |
| `Terminator.DataSound` | app/src/sm_at_host.c:841-858 | the match counter is always the length of a terminator prefix that ends the input: no false exit for any terminator |
| `Terminator.DataComplete` | app/src/sm_at_host.c:841-858 | with no forgotten match every occurrence is found when it ends |
| `Terminator.DataLoses` | app/src/sm_at_host.c:841-858 | for every terminator outside the condition, an input that contains it and is missed |
| `Terminator.NullLoses` | app/src/sm_at_host.c:1389-1419 | the same for the null mode search |
| `Terminator.ExactFamilies` | app/src/sm_at_host.c:841-858 | one repeated byte, or a first byte that does not recur, is enough for the data mode search |
| `DataModes.SessionsAreComplete` | app/src/sm_at_host.c:680-711 | in every legal log each session is entered, gets DATAMODE_EXIT once and then #XDATAMODE once |
| `DataModes.DataMode.Enter` | app/src/sm_at_host.c:1585-1607 | succeeds only from AT command mode and starts an empty session |
| `DataModes.DataMode.ExitDatamodeHandler` | app/src/sm_at_host.c:1657-1670 | leaves for null mode; the handler hears DATAMODE_EXIT only the first time |
| `DataModes.DataMode.ExitDatamode` | app/src/sm_at_host.c:680-711 | returns to AT command mode with one announcement, an empty ring and no match, and with the exit if it was not delivered yet |
| `DataModes.DataMode.CallHandler` | app/src/sm_at_host.c:741-755 | one handler call, which may call exit_datamode_handler from inside |
| `DataModes.DataMode.SendClaim` | app/src/sm_at_host.c:722-761 | one offer: all bytes up to the wrap, flagged when the caller says so or others follow; accepted bytes stay a prefix of written bytes, (bytes in ring, retry) goes down, and the session fails exactly on an error, an exit from inside or a second 0 in a row |
| `DataModes.FailedIff` | app/src/sm_at_host.c:741-755 | sending has failed if and only if some call of the session returned an error, left from inside, or took nothing right after another that took nothing |
| `DataModes.DataMode.RawSend` | app/src/sm_at_host.c:714-762 | ends for every handler with an empty ring; the session goes on if and only if no call fails, and then everything written has been accepted |
| `DataModes.DataMode.WriteDataBuf` | app/src/sm_at_host.c:765-785 | ends for every length; all bytes are written, in order; nothing is sent unless the ring is full, and an empty ring starts at the front of its memory |
| `DataModes.DataMode.RawSendScheduled` | app/src/sm_at_host.c:787-809 | a partial terminator has become data: written equals received, and all of it is accepted unless a call fails |
| `DataModes.DataMode.InactivityTimer` | app/src/sm_at_host.c:811-823 | the work is submitted if and only if there are bytes in the ring |
| `DataModes.DataMode.ReceiveDeclared` | app/src/sm_at_host.c:825-839 | with a declared length every byte is written and the mode is left with the last one |
| `DataModes.DataMode.ReceiveSearching` | app/src/sm_at_host.c:841-862 | written followed by the matched prefix of the terminator is what was received; on exit, the input without the terminator; nothing is sent while the ring has space |
| `DataModes.DataMode.ReceiveNull` | app/src/sm_at_host.c:1389-1419 | null mode ends exactly when its search says so, announces -1 if the handler had given an error, and nothing is written |
| `DataModes.DataMode.FeedSession` | app/src/sm_at_host.c:787-862 | a whole session with raw_send_scheduled at any point leaves at the first occurrence of the terminator that it does not cut, and not before; without a failed call everything before it has been accepted and #XDATAMODE is 0, otherwise the session ends in null mode or with -1; a handler that takes part of every offer never fails |
| `DataModes.DataMode.FeedSearching` | app/src/sm_at_host.c:825-862 | the same without raw_send_scheduled: the first occurrence |
| `DataModes.DataMode.FeedNull` | app/src/sm_at_host.c:1389-1419 | null mode to its end: it is left with the first match of its search and announces -1 if the handler had given an error |
| `DataModes.DataMode.Run` | app/src/sm_at_host.c:1421-1448 | any sequence of bytes, timers, scheduled work, entries and aborts keeps conservation, the session log and "handler set if and only if in data mode"; every byte that comes in data mode is received by its session, and every start in AT command mode enters one |
| `CommandLine.CommandsAreGood` | app/src/sm_at_host.c:1238-1386 | every command sent starts with AT, is not empty, fits the largest buffer and has no terminator outside quotes, however short memory is |
| `CommandLine.CommandsAsTyped` | app/src/sm_at_host.c:1238-1386 | whatever good commands are typed with their endings, these and no others are handed on, byte by byte as typed and in order |
| `CommandLine.FullLineFails` | app/src/sm_at_host.c:1250-1263 | a byte for a full line is answered with one error, and the line is forgotten |
| `CommandLine.BackspaceUndoes` | app/src/sm_at_host.c:1272-1291 | a byte followed by backspace leaves line and commands as they were if and only if the byte was undoable: no edit or terminator, not filling the line, not throwing away a lone A |
| `CommandLine.CommandBuffer.Receive` | app/src/sm_at_host.c:1238-1386 | one byte does to the growing buffer what the editor does to a line; `inside_quotes` is the parity of quotes, `prev_character` the last byte; the overflow branch before cmd_send cannot be taken |
| `CommandLine.CommandBuffer.ReceiveAll` | app/src/sm_at_host.c:1238-1386 | for every input, and every pattern of failing realloc, the buffer and the commands are the fold of the edits |
| `CommandLine.EnoughMemory` | app/src/sm_at_host.c:1251-1270 | if only lines of the greatest length are full, the fold is that of the plain editor |
| `UrcQueue.UrcMeansIdle` | app/src/sm_at_host.c:1796-1816 | every URC is part of a flush that began with all locks released, in AT mode and with the timer off; it finds the context locked exactly by what other threads have locked and not unlocked since; and in a flush of the work queue the context is still idle unless such a lock or unlock came |
| `UrcQueue.FlushFacts` | app/src/sm_at_host.c:1230-1236 | the same at any moment of a flush |
| `UrcQueue.LockedUrc` | app/src/sm_at_host.c:1804-1815 | a run in which another thread locks between two URCs of a flush, and the second goes out |
| `UrcQueue.LocksAreDepth` | app/src/sm_at_host.c:1211-1236 | the lock counter is locks less unlocks |
| `UrcQueue.AfterIsGood` | app/src/sm_at_host.c:1796-1816 | an event that may happen keeps discipline and first-in-first-out |
| `UrcQueue.PicksPut` | app/src/sm_at_host.c:1047-1053 | bytes put into the ring extend an order-preserving, repetition-free selection of the bytes offered |
| `UrcQueue.AtHost.UrcSendTo` | app/src/sm_at_host.c:1054-1076 | the URC is queued last, and the context will look at it again |
| `UrcQueue.AtHost.UrcSend` | app/src/sm_at_host.c:1037-1076 | the URC goes into the ring whole and wakes the context, or the ring is emptied and nothing else happens |
| `UrcQueue.AtHost.TakeArrival` | app/src/sm_at_host.c:1037-1076 | what another thread or a timer does to its context, and to no other |
| `UrcQueue.AtHost.SendUrcs` | app/src/sm_at_host.c:1937-1954 | sends the ring only to the URC context, in order, whatever arrives meanwhile; if nothing that arrives concerns the ring, exactly the bytes in it |
| `UrcQueue.AtHost.FlushPipeUrcs` | app/src/sm_at_host.c:1796-1816 | ends with an empty queue whatever other threads do during the flush, and with the ring sent; without their locks the context stays idle |
| `UrcQueue.AtHost.LockContext` | app/src/sm_at_host.c:1224-1236 | an idle context sends what it has before the lock is taken; unless other threads lock meanwhile the depth goes up by exactly one |
| `UrcQueue.AtHost.CommandDone` | app/src/sm_at_host.c:1211-1222 | the last unlock asks for a flush |
| `UrcQueue.AtHost.SendResponse` | app/src/sm_at_host.c:1502-1561 | queued URCs go before a response exactly if the context is idle; otherwise the response is the only thing sent |
| `UrcQueue.AtHost.HandleMessage` | app/src/sm_at_host.c:2019-2031 | an idle context is flushed; any other has its timer running afterwards |
| `UrcQueue.AtHost.Run` | app/src/sm_at_host.c:1956-2033 | in every run, with other threads locking, flushing and responding at any point: URCs reach a pipe only in flushes that began in idle moments; per pipe they leave in queue order, each once; bytes of the ring leave in order, each at most once, are in the histories of the pipes, and none is lost unless the ring overflowed or had no context; neither a queued URC nor a byte in the ring is forgotten unless the message queue overflowed; and every step does what it is for |
| `UrcQueue.StrandedUrc` | app/src/sm_at_host.c:223-232 | how the purge of a full queue leaves an idle context with a URC and no wake-up |
| `UartRx.BlockStartGet` | app/src/sm_uart_handler.c:79-90 | every pointer from the start of a block to its last byte maps to that block |
| `UartRx.AdvanceInBlock` | app/src/sm_uart_handler.c:79-90 | so does a pointer that was moved forward by a partial read |
| `UartRx.QueuedFrame` | app/src/sm_uart_handler.c:300-317 | what the driver writes behind or away from queued events changes none of their bytes |
| `UartRx.UartReceiver.RxBufAlloc` | app/src/sm_uart_handler.c:92-110 | takes a free block with one reference, or fails without any change |
| `UartRx.UartReceiver.RxBufUnref` | app/src/sm_uart_handler.c:117-126 | frees the block exactly when the last reference goes |
| `UartRx.UartReceiver.OnRxRdy` | app/src/sm_uart_handler.c:300-317 | the event is queued with a reference, or dropped with the counters as before |
| `UartRx.UartReceiver.OnBufRequest` | app/src/sm_uart_handler.c:318-333 | a block goes to the driver, or everything is as before |
| `UartRx.UartReceiver.Interrupt` | app/src/sm_uart_handler.c:300-343 | what each event of the driver does to buffers, queue and the enabled flag |
| `UartRx.UartReceiver.RxEnable` | app/src/sm_uart_handler.c:128-153 | a failed enable leaves no block behind |
| `UartRx.UartReceiver.PutFront` | app/src/sm_uart_handler.c:531-540 | the rest of an event goes back in front; if the queue has filled up meanwhile it is dropped and its reference with it |
| `UartRx.UartReceiver.PipeReceive` | app/src/sm_uart_handler.c:507-547 | with interrupts at any point: counters equal owners, free means zero, and returned plus queued bytes are the accepted bytes in order, none lost unless one is received while an event is put back; an empty queue restarts the receiver |
| `UartTx.UartTransmitter.Interrupt` | app/src/sm_uart_handler.c:283-298 | bytes on the line plus bytes in the ring stay the accepted bytes; the next transfer starts if and only if bytes are left and uart_tx succeeds; otherwise the transmitter is stalled |
| `UartTx.UartTransmitter.TxStart` | app/src/sm_uart_handler.c:229-248 | for every result of uart_tx; never called with a transfer in flight |
| `UartTx.UartTransmitter.TxDisable` | app/src/sm_uart_handler.c:206-227 | afterwards nothing new starts; only a transfer that was in flight may still be; the error of uart_tx_abort is returned exactly when the semaphore did not come and there was something to abort |
| `UartTx.UartTransmitter.PipeTransmit` | app/src/sm_uart_handler.c:466-505 | with interrupts and failing uart_tx at any point: exactly one of semaphore and transfer unless stalled, bytes in the ring mean a transfer in flight unless stalled or left over, and the accepted bytes are the first ones of the buffer, at least as many as there was room for; a stalled transmitter stays so |
| `UartTx.FailedStartStalls` | app/src/sm_uart_handler.c:290-297 | a run in which uart_tx fails in the interrupt: whatever is transmitted then, nothing more goes out |
| `UartTx.LeftoverStays` | app/src/sm_uart_handler.c:199-227 | bytes left by an aborted transfer stay in the ring after the next enable, with no transfer |
| `CoapUpload.UploadIsSafe` | app/src/sm_at_coap.c:282-327 | in every interleaving, failing responses included: the blocks are a prefix of the bytes fed in (all of them once the last block is out without an abort), full except the last, one flagged last at the declared length or, after data mode was left, the truncated one; no mutual wait; a repeat returns the last block |
| `CoapUpload.TruncationAborts` | app/src/sm_at_coap.c:530-558 | leaving data mode aborts if and only if the bytes fed in are too few and end on a block boundary; otherwise they become the payload |
| `CoapUpload.BoundaryTruncation` | app/src/sm_at_coap.c:546-557 | a run that is aborted although all bytes fed in were handed out |
| `CoapUpload.ClosedInUse` | app/src/sm_at_coap.c:211-268 | which steps close the request while the data mode thread holds it, and exactly when |
| `CoapUpload.EndWhileWaiting` | app/src/sm_at_coap.c:265-267 | such runs, with a failed and with a final response |
| `CoapUpload.LastBlockIsComing` | app/src/sm_at_coap.c:422-472 | progress: with the last block still to come in a reachable state, a step of one of the threads is possible and all bytes fed in are handed out or staged |
| `CoapUpload.ClientServes` | app/src/sm_at_coap.c:282-327 | a client that calls payload_cb during a wait, with any other steps in between, and does not end the request hands the block out |
| `CoapUpload.LastBlockIsFinal` | app/src/sm_at_coap.c:289-299 | after the last block no step hands out another or changes what a repeat returns |
| `CoapUpload.StepInv` | app/src/sm_at_coap.c:422-472 | every step of either thread keeps the protocol's invariant |
| `CoapUpload.StepBlocks` | app/src/sm_at_coap.c:310-322 | block sizes and the last flag through every step |
| `CoapUpload.EarlySignalIsUnsafe` | app/src/sm_at_coap.c:279-281 | a run in which, without the library's copy inside the step, block 1 is overwritten before it is taken |
| `CoapRequests.RunKeeps` | app/src/sm_at_coap.c:282-327 | the invariant holds wherever a run of the request's code leads |
| `CoapRequests.CoapRequest.PayloadCbHand` | app/src/sm_at_coap.c:310-326 | the callback's end is the protocol's Hand step |
| `CoapRequests.CoapRequest.DatamodeExit` | app/src/sm_at_coap.c:530-558 | truncation and abort are the protocol's exit step |
| `CoapRequests.CoapRequest.AwaitConsumption` | app/src/sm_at_coap.c:453-463 | the wait succeeds if and only if the block has been handed out and the request is still open; -ETIMEDOUT only if it has not |
| `CoapRequests.CoapRequest.DatamodeSendBlock` | app/src/sm_at_coap.c:422-472 | the copy loop is a run of the protocol for every behaviour of the client thread before each turn and during each wait, ends, and feeds in all its bytes; it succeeds if the request can be started and the client serves every wait after that; what each error means |
| `CoapRequests.CoapRequest.Upload` | app/src/sm_at_coap.c:422-472 | a whole payload in any pieces, to a client that serves, is handed out completely, in full blocks with the last one flagged |
| `CoapPull.ResponsePull.CallbackBlock` | app/src/sm_at_coap.c:232-249 | a block is buffered whole, or the request ends |
| `CoapPull.ResponsePull.Pull` | app/src/sm_at_coap.c:889-940 | partial drains deliver the received bytes in order at contiguous offsets, and the callback is let go exactly when the block is drained |
| `Reports.OffsetsAreTrue` | app/src/sm_at_coap.c:913-922 | a host that places data by the offsets gets the delivered stream |
| `SmsConcat.OrderIndependent` | app/src/sm_at_sms.c:83-152 | all parts of a message with a reference number other than 0, in any order, give one notification: header, parts in sequence order, closing quote |
| `SmsConcat.RightIff` | app/src/sm_at_sms.c:83-112 | for every reference number, exactly when the notification is the right one |
| `SmsConcat.ZeroKeepsLast` | app/src/sm_at_sms.c:92-109 | with number 0 it has the text of the last part to arrive |
| `SmsConcat.ZeroSpoilsNext` | app/src/sm_at_sms.c:110-112 | a part with number 0 counts as a part of the next message |
| `SmsConcat.NextMessage` | app/src/sm_at_sms.c:83-87 | an unfinished message does no harm: all parts of another one give its notification |
| `SmsConcat.OtherStartsOver` | app/src/sm_at_sms.c:83-87 | a part of another message is received as if nothing had been there |
| `SmsConcat.Collected` | app/src/sm_at_sms.c:111-144 | what has been collected after any part of the message, in any order |
| `SmsConcat.Strncat` | app/src/sm_at_sms.c:145-150 | a forward byte copy within one buffer appends the string although source and destination lie in the same array |
| `SmsConcat.Compact` | app/src/sm_at_sms.c:145-150 | the slots become one string in sequence order; nothing is read after it was overwritten |
| `SmsConcat.SmsContext.Handle` | app/src/sm_at_sms.c:68-162 | the buffer does what assembly on values does, for parts of any messages, duplicates and errors included |
| `SmsConcat.SmsContext.HandleMessage` | app/src/sm_at_sms.c:68-162 | the two together: one notification for every order of the parts, for number 0 as well |
| `SmsConcat.SmsContext.HandleOrdinary` | app/src/sm_at_sms.c:68-162 | the same for a header below 64 characters and payloads three below the slot size |
| `SmsConcat.StoreBeforeOther` | app/src/sm_at_sms.c:138-141 | a stored text leaves the next slot alone if and only if it is shorter than a slot |
| `HttpBody.StrStr` | app/src/sm_at_httpc.c:754 | finds the first blank line with no NUL before it, if there is one, and reads nothing behind the string |
| `HttpBody.FirstBlankStays` | app/src/sm_at_httpc.c:751-771 | the end of the headers does not depend on how the stream is cut |
| `HttpBody.HttpRequest.TotalIsSentPlusBuffered` | app/src/sm_at_httpc.c:625-629 | total_received equals bytes_sent plus buffered bytes |
| `HttpBody.HttpRequest.RecvRead` | app/src/sm_at_httpc.c:719-749 | received bytes are appended in front of a NUL; a read without room looks like the end |
| `HttpBody.HttpRequest.HeadersComplete` | app/src/sm_at_httpc.c:598-698 | what follows the headers is delivered (auto), kept (manual) or dropped (no body); an auto request ends there exactly by a hang-up, its length or its last chunk |
| `HttpBody.HttpRequest.ProcessRecvBody` | app/src/sm_at_httpc.c:773-804 | auto mode holds nothing back and ends exactly with the body or a hang-up; manual mode loses nothing |
| `HttpBody.HttpRequest.ProcessRequest` | app/src/sm_at_httpc.c:807-926 | with complete headers an event ends a manual request if and only if it is an error, a hang-up without data, or a read at the end of the input, and an auto request also with the end of its body; and with which status |
| `HttpBody.HttpRequest.FeedBody` | app/src/sm_at_httpc.c:789-803 | an auto body of known length, in any pieces: the request ends with the piece that completes it and not before, and all of it is handed on |
| `HttpBody.HangUpEndsRequest` | app/src/sm_at_httpc.c:900-906 | a run in which POLLHUP ends the request with bytes undelivered |
| `HttpBody.HttpRequest.ReceiveBody` | app/src/sm_at_httpc.c:900-926 | in manual mode a read ends the request if and only if nothing can be appended |
| `HttpBody.FullBufferEndsRequest` | app/src/sm_at_httpc.c:723-741 | a run that ends with 2048 bytes undelivered |
| `HttpBody.HttpRequest.PullData` | app/src/sm_at_httpc.c:1350-1459 | a pull delivers in one notification the first bytes of the buffer, or of one read when it is empty, or none when there will be others; and exactly when it ends the request |
| `HttpBody.HttpRequest.Drain` | app/src/sm_at_httpc.c:1376-1395 | pulling again and again delivers everything, or until the body is over |
| `HttpBody.HttpRequest.Run` | app/src/sm_at_httpc.c:807-936 | for any fragmentation and any pulls: the notifications are contiguous and a prefix of what follows the first blank line; the headers are complete as soon as a blank line with no NUL before it has arrived; the one final notification counts the body bytes received (delivered, if cancelled); no read and no pull is passed over |
| `HttpHeaders.HeadersFit` | app/src/sm_at_httpc.c:325-336 | the size is enough, and exact up to the digits of the body length |
| `HttpHeaders.BuildRequest` | app/src/sm_at_httpc.c:297-320 | in a buffer of that size nothing is cut off |
| `HttpHeaders.DecimalLength` | app/src/sm_at_httpc.c:306-309 | a number has at most k digits if and only if it is below 10 to the k |
| `HttpHeaders.DecimalIs` | app/src/sm_at_httpc.c:306-309 | the digits stand for the number |
| `Dfu.Device.DatamodeSend` | app/src/sm_at_dfu.c:141-203 | a fragment is in place and the address moved, or nothing outside it changed and the address stayed |
| `Dfu.Device.DatamodeExit` | app/src/sm_at_dfu.c:205-242 | 0 is reported if and only if no fragment failed and all bytes came |
| `Dfu.RunCommands` | app/src/sm_at_dfu.c:608-638 | whatever a host sends, nothing is written to the modem's memory before the bootloader has been applied; in data mode only bytes count, otherwise every command does what it is for |
| `Dfu.Receive` | app/src/sm_at_dfu.c:168-203 | for every fragmentation and every failure the writes stay in the chunk's range; without a failure the bytes are in place |
| `Dfu.DfuWrite` | app/scripts/sm_dfu_host.py:252-261 | success means that the memory holds the chunk; with bytes missing the device stays in data mode and takes the next command as data, still inside the chunk's range |
| `Dfu.WriteWithRetries` | app/scripts/sm_dfu_host.py:457-466 | the same through any pattern of failed attempts; and it succeeds if a try works and none before it has left the device in data mode |
| `Dfu.ChunksCoverSegment` | app/scripts/sm_dfu_host.py:188-198 | a memory holds all chunks of a segment if and only if it holds the segment |
| `Dfu.ChunksCoverSegments` | app/scripts/sm_dfu_host.py:184-200 | the same for a list of segments |
| `Dfu.FwChunksDisjoint` | app/scripts/sm_dfu_host.py:184-200 | chunks of disjoint segments are disjoint and lie inside them |
| `Dfu.ChunksJoin` | app/scripts/sm_dfu_host.py:188-198 | the chunks of a segment, joined, are the segment |
| `Dfu.BuildSegments` | app/scripts/sm_dfu_host.py:169-182 | the data of the segments follow each other in the file |
| `Dfu.SplitAll` | app/scripts/sm_dfu_host.py:184-200 | the bootloader chunks, joined, are the first segment, and a memory holds all firmware chunks if and only if it holds all other segments |
| `Dfu.ParseChunksBin` | app/scripts/sm_dfu_host.py:137-145 | a plain file is cut like one segment at address 0 |
| `Dfu.WriteChunks` | app/scripts/sm_dfu_host.py:457-470 | if it succeeds all chunks are in memory and none is empty; on a link that recovers it succeeds if none is empty; in any case nothing else changed |
| `Dfu.ChunkSizes` | app/scripts/sm_dfu_host.py:188-198 | no chunk is longer than the size, and none is empty if and only if the data reach the start of the last one |
| `Dfu.LastStartIs` | app/scripts/sm_dfu_host.py:188-198 | where the last chunk starts: the last multiple of the chunk size before the end |
| `Dfu.FullLengthIff` | app/scripts/sm_dfu_host.py:169-185 | every segment has its full length if and only if the file is as long as the manifest says |
| `Dfu.DoDfuFull` | app/scripts/sm_dfu_host.py:408-470 | end to end: the bootloader is staged and applied first, then the memory equals every firmware segment; nothing outside them is ever written; on a link that works it succeeds if and only if the file reaches into the last chunk of every segment |
| `Dfu.DoDfuFile` | app/scripts/sm_dfu_host.py:408-470 | the same from the manifest on: the memory holds the data of every firmware segment at the manifest's address, in full length if the file is as long as the manifest says |
| `Dfu.ShortFile` | app/scripts/sm_dfu_host.py:185-191 | a file with two of the four bytes of its last segment is accepted |
| `PollEvents.UrcNeedsArm` | app/src/sm_at_socket.c:371-380 | between two #XAPOLL notifications with the same bit the bit was armed |
| `PollEvents.BusyIsCarried` | app/src/sm_at_socket.c:342-367 | a bit observed in a busy moment still waits, or the poll was restarted for it |
| `PollEvents.Socket.Update` | app/src/sm_at_socket.c:270-302 | arms the requested bits and polls for the union, unless disabled; if the poll cannot be set, what is polled for stays as it was |
| `PollEvents.Socket.SetXapoll` | app/src/sm_at_socket.c:2307-2333 | the requested bits may be reported, and are polled for unless an error is returned |
| `PollEvents.FailedPollStalls` | app/src/sm_at_socket.c:292-298 | a run in which the poll cannot be set: the bit counts as polled for and is not |
| `PollEvents.StopThenRun` | app/src/sm_at_socket.c:2271-2290 | after a stop every bit is reported at most once more, until somebody asks for events, whatever the steps |
| `PollEvents.AtMostOnce` | app/src/sm_at_socket.c:376-380 | without arming no bit is reported twice |
| `PollEvents.Socket.WorkHandler` | app/src/sm_at_socket.c:331-442 | delayed bits are kept or carried into the restart; an idle socket reports the observed bits that are armed, first of all; with poll_cb firing before the settle, the bits that may be reported and are no longer polled for are exactly those of `Forgotten` |
| `PollEvents.Socket.Settle` | app/src/sm_at_socket.c:398-424 | what was observed is no longer asked for, apart from POLLIN when automatic reception goes on |
| `PollEvents.Socket.TakeTurn` | app/src/sm_at_socket.c:186-207 | with poll_cb before, during and after the handler: all bits stay polled for or pending if and only if those of `Forgotten` are observed meanwhile |
| `PollEvents.PartialSendIsForgotten` | app/src/sm_at_httpc.c:839-866 | re-requesting POLLOUT from the callback is such a case |
| `PollEvents.PartialSendStalls` | app/src/sm_at_socket.c:398-424 | the same as a run of the handler |
| `PollEvents.PollWork` | app/src/sm_at_socket.c:318-442 | the loop over all sockets does this for each, with interrupts in between and the same exact condition |
| `PollEvents.Run` | app/src/sm_at_socket.c:186-207 | every run keeps the history proper; with nothing pending and the poll set the socket is polled for what is wanted; and a bit that may be reported stays polled for or pending unless a work step dropped one that was not observed meanwhile |

## Left out

- AT command argument parsing and handler dispatch: they rest on a parser library that is not part of the repository.
- Modem, GNSS, MQTT, nRF Cloud, LwM2M carrier, provisioning, settings, logging, trace and control pins: thin wrappers.
- PPP and CMUX control, and which context a pipe belongs to: contexts are identified by number, and several may be the URC context in turn.
- `drivers/dtr_uart` and `lib/sm_at_client`: the UART pipe is modelled over an abstract driver that gives back each buffer once and reports only buffers it holds.
- Timer durations, clocks, heap exhaustion (a failing malloc or calloc; a failing realloc is modelled), CBOR decoding, serial I/O and the responses that the script waits for, beyond "heard or not".
- Echo in command reception, and sm_at_host_echo, which stops the idle timer in the middle of a command.
- Creation and destruction of AT host contexts, the idle work list, and pipe transmissions that fail in part: a URC counts as sent when it is handed to the pipe.
- CONFIG_SM_CMUX and current_ctx: data mode is modelled for one context, so that raw_send and enter_datamode always act on the context at hand.
- The CoAP request with a payload of at most one block, which does not use payload_cb.
- The content of HTTP headers: status and Content-Length are parameters, and the chunked end is whatever chunked_eof says.
- Hex output of received data, and the IPv4 echo request, which uses calc_ics as it is.
- The last AT#XDFUAPPLY and the restart after it, application and delta updates, and the MCUboot types.
- exit_datamode_handler in the poll handler: it is `DataMode.Abort`.
- Handle: does not model texts that fill a slot or the buffer beyond `StoreBeforeOther`; parts with a user data header are shorter.
- DfuWrite: the host is taken to see the notification of the session that it has just fed, because what came before the OK is discarded with it (app/scripts/sm_dfu_host.py:52-57), and of a chunk that arrives in full length the right bytes.
- DoDfuFull: starts with the device in AT command mode, because otherwise AT#XDFUINIT is data.
- HandlerContract: data mode handlers never claim more bytes than they were given and never exit with result 0.
- OnRxRdy: does not model an event of length 0, because the driver reports received bytes only; at the end of a full block its pointer would belong to the next block.
- Taking a URC off a queue, or a claim of the common ring, and handing it to the pipe is one step; two threads that flush the same pipe interleave in such steps only.
- Modes and idle timers of other threads: set_sm_mode and the reception of bytes are steps of the work queue.
