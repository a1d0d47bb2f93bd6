/** Manual reception of a CoAP response (auto_reception=0): coap_callback puts one block in
    rx_buf and waits, AT#XCOAPCDATA drains it in pieces. */
module CoapPull {
  import opened Bytes
  import opened Reports

  const EINVAL := 22

  class ResponsePull {
    const rxBuf: array<byte>          // CONFIG_COAP_CLIENT_BLOCK_SIZE bytes
    var rxBufFilled: nat
    var rxConsumed: bool              // semaphore
    var waiting: bool                 // coap_callback is waiting for rx_consumed
    var bytesSent: nat
    var closed: bool
    ghost var received: seq<byte>     // payloads of all blocks so far
    ghost var reports: seq<Report>    // #XCOAPCDATA

    /** Nothing is lost, repeated or reordered, and the callback is let go exactly when its
        block has been drained. */
    ghost predicate Valid()
      reads this, rxBuf
    {
      && rxBufFilled <= rxBuf.Length
      && Delivered(reports) + rxBuf[..rxBufFilled] == received
      && Contiguous(reports) && bytesSent == |Delivered(reports)|
      && (waiting ==> (rxConsumed <==> rxBufFilled == 0))
      && (!waiting && !closed ==> rxBufFilled == 0 && !rxConsumed)
    }

    constructor (block: nat)
      ensures Valid() && fresh(rxBuf) && rxBuf.Length == block && received == [] && reports == [] && !waiting && !closed
    {
      rxBuf := new byte[block](_ => 0);
      rxBufFilled, rxConsumed, waiting, bytesSent, closed := 0, false, false, 0, false;
      received, reports := [], [];
    }

    /** coap_callback with a payload, up to the wait; a block that does not fit ends the request. */
    method CallbackBlock(payload: seq<byte>)
      requires Valid() && !waiting && !closed && payload != []
      modifies this, rxBuf
      ensures Valid() && reports == old(reports)
      ensures closed <==> |payload| > rxBuf.Length
      ensures received == if closed then old(received) else old(received) + payload
      ensures waiting <==> !closed
    {
      if |payload| > rxBuf.Length {
        closed := true;
        return;
      }
      CopyIn(rxBuf, 0, payload);
      rxBufFilled := |payload|;
      waiting := true;
      received := received + payload;
    }

    /** The wait ends with the semaphore, or with the timeout and the request. */
    method CallbackResumes(inTime: bool)
      requires Valid() && waiting && (inTime ==> rxConsumed)
      modifies this
      ensures Valid() && !waiting && received == old(received) && reports == old(reports)
      ensures closed <==> old(closed) || !inTime
      ensures inTime ==> Delivered(reports) == received
    {
      waiting := false;
      if inTime {
        rxConsumed := false;
      } else {
        closed := true;
      }
    }

    /** AT#XCOAPCDATA: at most pullLen bytes, or an empty notification when there is no block. */
    method Pull(pullLen: nat) returns (ret: int)
      requires Valid() && pullLen > 0
      modifies this, rxBuf
      ensures Valid() && received == old(received) && waiting == old(waiting) && closed == old(closed)
      ensures ret == if closed then -EINVAL else 0
      ensures closed ==> reports == old(reports)
      ensures !closed ==> |reports| == |old(reports)| + 1 && reports[..|old(reports)|] == old(reports)
      ensures !closed ==>
                |reports[|old(reports)|].data| == if old(rxBufFilled) <= pullLen then old(rxBufFilled) else pullLen
      ensures !closed ==> rxBufFilled == old(rxBufFilled) - |reports[|old(reports)|].data|
    {
      if closed {
        return -EINVAL;
      }
      ret := 0;
      var sendLen := if rxBufFilled <= pullLen then rxBufFilled else pullLen;
      ghost var r := Report(bytesSent, rxBuf[..sendLen]);
      DeliverMore(reports, r);
      reports := reports + [r];
      if sendLen > 0 {
        assert rxBuf[..rxBufFilled] == rxBuf[..sendLen] + rxBuf[sendLen..rxBufFilled];
        bytesSent := bytesSent + sendLen;
        rxBufFilled := rxBufFilled - sendLen;
        if rxBufFilled > 0 {
          SlideToFront(rxBuf, sendLen, rxBufFilled);
        } else {
          rxConsumed := true;
        }
      }
    }
  }
}
