/** The receive half of the UART pipe: slab blocks with a reference counter, shared by the
    driver and by queued events that point into them. */
module UartRx {
  import opened Bytes
  import opened Arithmetic

  const HEADER := 8                  // ref_counter and len, in front of the data of struct rx_buf_t
  const ENOMEM := 12

  /** struct rx_event_t: a pointer into the slab, as an offset from its start, and a length. */
  datatype RxEvent = RxEvent(buf: nat, len: nat)

  // ---------------------------------------------------------------------------
  // block_start_get
  // ---------------------------------------------------------------------------

  /** block_start_get: the number of the block that a pointer belongs to. */
  function BlockOf(p: nat, size: nat): nat
    requires size > 0
  {
    p / size
  }

  /** A pointer to the block, to its data, or anywhere inside it maps to the block. */
  lemma BlockStartGet(b: nat, k: nat, size: nat)
    requires k < size
    ensures BlockOf(b * size + k, size) == b && BlockOf(b * size + k, size) * size == b * size
  {
    Quotient(b, k, size);
  }

  /** Moving a pointer forward inside its block does not change its block. */
  lemma AdvanceInBlock(p: nat, n: nat, size: nat)
    requires size > 0 && p % size + n < size
    ensures BlockOf(p + n, size) == BlockOf(p, size) && (p + n) % size == p % size + n
  {
    assert p + n == (p / size) * size + (p % size + n);
    Quotient(p / size, p % size + n, size);
  }

  // ---------------------------------------------------------------------------
  // Events
  // ---------------------------------------------------------------------------

  /** The event lies in the part of its block's data that has been received. */
  predicate Inside(e: RxEvent, store: seq<seq<byte>>, size: nat)
    requires size > 0
  {
    && e.len > 0
    && BlockOf(e.buf, size) < |store|
    && HEADER <= e.buf % size
    && e.buf % size - HEADER + e.len <= |store[BlockOf(e.buf, size)]|
  }

  predicate AllInside(q: seq<RxEvent>, store: seq<seq<byte>>, size: nat)
    requires size > 0
  {
    forall i :: 0 <= i < |q| ==> Inside(q[i], store, size)
  }

  /** How many events of q point into block b. */
  function Pointers(q: seq<RxEvent>, b: nat, size: nat): nat
    requires size > 0
  {
    if q == [] then 0 else (if BlockOf(q[0].buf, size) == b then 1 else 0) + Pointers(q[1..], b, size)
  }

  lemma {:induction false} PointersAppend(q: seq<RxEvent>, e: RxEvent, b: nat, size: nat)
    requires size > 0
    ensures Pointers(q + [e], b, size) == Pointers(q, b, size) + (if BlockOf(e.buf, size) == b then 1 else 0)
  {
    if q == [] {
      assert [e][1..] == [];
    } else {
      PointersAppend(q[1..], e, b, size);
      assert (q + [e])[1..] == q[1..] + [e];
    }
  }

  lemma {:induction false} NoPointers(q: seq<RxEvent>, b: nat, size: nat)
    requires size > 0 && Pointers(q, b, size) == 0
    ensures forall i :: 0 <= i < |q| ==> BlockOf(q[i].buf, size) != b
  {
    if q == [] {
    } else {
      NoPointers(q[1..], b, size);
      assert forall i :: 1 <= i < |q| ==> q[i] == q[1..][i - 1];
    }
  }

  /** The bytes that the event refers to. */
  function EventBytes(e: RxEvent, store: seq<seq<byte>>, size: nat): seq<byte>
    requires size > 0 && Inside(e, store, size)
  {
    var off := e.buf % size - HEADER;
    store[BlockOf(e.buf, size)][off..off + e.len]
  }

  /** The bytes that the events of q refer to. */
  function Queued(q: seq<RxEvent>, store: seq<seq<byte>>, size: nat): seq<byte>
    requires size > 0 && AllInside(q, store, size)
  {
    if q == [] then [] else EventBytes(q[0], store, size) + Queued(q[1..], store, size)
  }

  lemma {:induction false} QueuedAppend(q: seq<RxEvent>, e: RxEvent, store: seq<seq<byte>>, size: nat)
    requires size > 0 && AllInside(q, store, size) && Inside(e, store, size)
    ensures Queued(q + [e], store, size) == Queued(q, store, size) + EventBytes(e, store, size)
  {
    if q == [] {
      assert [e][1..] == [];
    } else {
      QueuedAppend(q[1..], e, store, size);
      assert (q + [e])[1..] == q[1..] + [e];
    }
  }

  /** What the driver writes into one block, behind or away from all events, changes none. */
  lemma {:induction false} QueuedFrame(q: seq<RxEvent>, store: seq<seq<byte>>, b: nat, data: seq<byte>, size: nat)
    requires size > 0 && AllInside(q, store, size) && b < |store|
    requires store[b] <= data || Pointers(q, b, size) == 0
    ensures AllInside(q, store[b := data], size)
    ensures Queued(q, store[b := data], size) == Queued(q, store, size)
  {
    if q == [] {
    } else {
      QueuedFrame(q[1..], store, b, data, size);
      var now := store[b := data];
      assert Inside(q[0], now, size);
      assert forall i :: 1 <= i < |q| ==> q[i] == q[1..][i - 1];
      assert EventBytes(q[0], now, size) == EventBytes(q[0], store, size);
    }
  }

  /** The event that is left when the first n bytes have been copied out. */
  lemma Advance(e: RxEvent, n: nat, store: seq<seq<byte>>, size: nat)
    requires size > 0 && Inside(e, store, size) && n < e.len
    requires |store[BlockOf(e.buf, size)]| <= size - HEADER
    ensures BlockOf(e.buf + n, size) == BlockOf(e.buf, size)
    ensures Inside(RxEvent(e.buf + n, e.len - n), store, size)
    ensures EventBytes(e, store, size)
         == EventBytes(e, store, size)[..n] + EventBytes(RxEvent(e.buf + n, e.len - n), store, size)
  {
    AdvanceInBlock(e.buf, n, size);
  }

  // ---------------------------------------------------------------------------
  // The receiver
  // ---------------------------------------------------------------------------

  /** What the driver reports: it wants another buffer (and will take it or not), it has
      received bytes into a buffer, it gives a buffer back, it has stopped. */
  datatype Irq = BufRequest(rspOk: bool) | RxRdy(block: nat, data: seq<byte>) | BufReleased(block: nat) | RxDisabled

  function UpTo(n: nat): (r: set<nat>)
    ensures forall b: nat :: b in r <==> b < n
  {
    if n == 0 then {} else UpTo(n - 1) + {n - 1}
  }

  /** None of the first n interrupts stops the receiver. */
  predicate NoneDisables(irqs: seq<Irq>, n: nat)
    requires n <= |irqs|
  {
    n == 0 || (NoneDisables(irqs, n - 1) && !irqs[n - 1].RxDisabled?)
  }

  predicate NothingReceived(irqs: seq<Irq>)
  {
    forall i :: 0 <= i < |irqs| ==> !irqs[i].RxRdy?
  }

  class UartReceiver {
    const size: nat                   // sizeof(struct rx_buf_t)
    const capacity: nat               // UART_RX_EVENT_COUNT
    const perBuf: nat                 // UART_RX_EVENT_COUNT_FOR_BUF
    var started: bool                 // the work queue runs
    var enabled: bool                 // SM_UART_STATE_RX_ENABLED_BIT
    var noRecovery: bool              // SM_UART_STATE_RX_RECOVERY_DISABLED_BIT
    var store: seq<seq<byte>>         // the received part of every block's data
    var refs: seq<nat>                // ref_counter of every block
    var free: set<nat>                // the slab's free blocks
    var held: set<nat>                // the blocks that were handed to the driver
    var queue: seq<RxEvent>           // rx_event_queue
    var inHand: seq<RxEvent>          // the event that pipe_receive has taken off the queue
    ghost var accepted: seq<byte>     // bytes of all events that were queued
    ghost var returned: seq<byte>     // bytes that pipe_receive has copied out
    ghost var lost: bool              // an event could not be put back in front

    /** A block's counter is one if the driver holds it plus the number of events pointing into
        it, and the block is free exactly when that is zero. */
    ghost predicate Counted()
      reads this
    {
      && size > HEADER && |refs| == |store|
      && (forall b :: 0 <= b < |refs| ==> refs[b] == (if b in held then 1 else 0) + Pointers(inHand + queue, b, size))
      && (forall b :: 0 <= b < |refs| ==> (b in free <==> refs[b] == 0))
      && (forall b :: b in free || b in held ==> b < |refs|)
    }

    /** Returned and queued bytes are the accepted ones, in order. */
    ghost predicate Conserved()
      reads this
    {
      && size > HEADER && AllInside(inHand + queue, store, size)
      && (!lost ==> returned + Queued(inHand + queue, store, size) == accepted)
    }

    /** The bytes of the event in hand. */
    ghost function InHandBytes(): seq<byte>
      reads this
    {
      if inHand != [] && size > HEADER && Inside(inHand[0], store, size) then EventBytes(inHand[0], store, size) else []
    }

    ghost predicate Valid()
      reads this
    {
      && size > HEADER && |inHand| <= 1 && |queue| <= capacity
      && Counted() && Conserved()
      && (forall b :: 0 <= b < |store| ==> |store[b]| <= size - HEADER)
    }

    constructor (bufSize: nat, blocks: nat, capacity: nat, perBuf: nat)
      requires bufSize > 0
      ensures Valid() && queue == [] && inHand == [] && held == {} && !lost && accepted == [] && returned == []
      ensures size == HEADER + bufSize && this.capacity == capacity && this.perBuf == perBuf
      ensures |store| == blocks
    {
      size, this.capacity, this.perBuf := HEADER + bufSize, capacity, perBuf;
      started, enabled, noRecovery, lost := false, false, false, false;
      store, refs := seq(blocks, _ => []), seq(blocks, _ => 0);
      free, held, queue, inHand, accepted, returned := UpTo(blocks), {}, [], [], [], [];
    }

    /** rx_buf_alloc, for the driver. */
    method RxBufAlloc() returns (b: int)
      requires Valid()
      modifies this`refs, this`free, this`held, this`store
      ensures Valid() && InHandBytes() == old(InHandBytes())
      ensures b == -1 <==> old(free) == {}
      ensures b == -1 ==> refs == old(refs) && free == old(free) && held == old(held) && store == old(store)
      ensures b != -1 ==> b in old(free) && free == old(free) - {b} && held == old(held) + {b}
      ensures b != -1 ==> refs == old(refs)[b := 1] && store == old(store)[b := []]
    {
      if free == {} {
        return -1;
      }
      var n: nat :| n in free;
      QueuedFrame(inHand + queue, store, n, [], size);
      NoPointers(inHand + queue, n, size);
      assert inHand != [] ==> inHand[0] == (inHand + queue)[0];
      HandOver(n);
      b := n;
    }

    /** k_mem_slab_alloc has taken block n, for the driver to fill. */
    method HandOver(n: nat)
      requires n < |refs| == |store|
      modifies this`refs, this`free, this`held, this`store
      ensures free == old(free) - {n} && held == old(held) + {n} && refs == old(refs)[n := 1] &&
              store == old(store)[n := []]
    {
      free, held := free - {n}, held + {n};
      refs, store := refs[n := 1], store[n := []];
    }

    /** rx_buf_ref on any pointer into a block. */
    method RxBufRef(p: nat)
      requires size > 0 && BlockOf(p, size) < |refs|
      modifies this`refs
      ensures refs == old(refs)[BlockOf(p, size) := old(refs)[BlockOf(p, size)] + 1]
    {
      var b := BlockOf(p, size);
      refs := refs[b := refs[b] + 1];
    }

    /** rx_buf_unref on any pointer into a block: the last reference frees it. */
    method RxBufUnref(p: nat)
      requires size > 0 && BlockOf(p, size) < |refs| && refs[BlockOf(p, size)] > 0
      modifies this`refs, this`free
      ensures refs == old(refs)[BlockOf(p, size) := old(refs)[BlockOf(p, size)] - 1]
      ensures free == if refs[BlockOf(p, size)] == 0 then old(free) + {BlockOf(p, size)} else old(free)
    {
      var b := BlockOf(p, size);
      var was := refs[b];
      refs := refs[b := was - 1];
      if was == 1 {
        free := free + {b};
      }
    }

    /** rx_buf_ref and rx_buf_unref on the buffer that the driver knows: the data of block b. */
    method RefBuffer(b: nat)
      requires size > HEADER && b < |refs|
      modifies this`refs
      ensures refs == old(refs)[b := old(refs)[b] + 1]
    {
      BlockStartGet(b, HEADER, size);
      RxBufRef(b * size + HEADER);
    }

    method UnrefBuffer(b: nat)
      requires size > HEADER && b < |refs| && refs[b] > 0
      modifies this`refs, this`free
      ensures refs == old(refs)[b := old(refs)[b] - 1]
      ensures free == if refs[b] == 0 then old(free) + {b} else old(free)
    {
      BlockStartGet(b, HEADER, size);
      RxBufUnref(b * size + HEADER);
    }

    /** The driver's reference goes: uart_rx_buf_rsp failed, uart_rx_enable failed, or
        UART_RX_BUF_RELEASED. */
    method Release(b: nat)
      requires Valid() && b in held
      modifies this`refs, this`free, this`held
      ensures Valid() && held == old(held) - {b}
      ensures b in free <==> Pointers(inHand + queue, b, size) == 0
    {
      UnrefBuffer(b);
      held := held - {b};
    }

    /** UART_RX_BUF_REQUEST. */
    method OnBufRequest(rspOk: bool)
      requires Valid()
      modifies this`refs, this`free, this`held, this`store
      ensures Valid() && InHandBytes() == old(InHandBytes()) && old(held) <= held
      ensures capacity - |queue| < perBuf || old(free) == {} || !rspOk ==> held == old(held) && free == old(free)
      ensures capacity - |queue| >= perBuf && old(free) != {} && rspOk ==> |held| == |old(held)| + 1 && free < old(free)
    {
      if capacity - |queue| < perBuf {
        return;
      }
      var b := RxBufAlloc();
      if b == -1 {
        return;
      }
      assert b !in old(held);
      if !rspOk {
        Release(b);
        assert free == old(free);
      }
    }

    /** The driver puts more bytes into a buffer that it holds. */
    method Fill(b: nat, data: seq<byte>)
      requires Valid() && b in held && |store[b]| + |data| <= size - HEADER
      modifies this`store
      ensures Valid() && InHandBytes() == old(InHandBytes()) && store == old(store)[b := old(store)[b] + data]
    {
      QueuedFrame(inHand + queue, store, b, store[b] + data, size);
      assert inHand != [] ==> inHand[0] == (inHand + queue)[0];
      store := store[b := store[b] + data];
    }

    /** UART_RX_RDY, after the driver has filled `data` into block b. */
    method OnRxRdy(b: nat, data: seq<byte>) returns (dropped: bool)
      requires Valid() && b in held && data != [] && |data| <= |store[b]| && store[b][|store[b]| - |data|..] == data
      modifies this`refs, this`free, this`queue, this`accepted
      ensures Valid()
      ensures dropped <==> !started || old(|queue|) == capacity
      ensures dropped ==> queue == old(queue) && accepted == old(accepted) && refs == old(refs) && free == old(free)
      ensures !dropped ==> |queue| == old(|queue|) + 1 && accepted == old(accepted) + data
    {
      if !started {
        return true;
      }
      dropped := |queue| == capacity;
      if dropped {
        RefAndUnref(b);
      } else {
        RefBuffer(b);
        var e := NewEvent(b, |data|);
        Enqueue(e, b, data);
      }
    }

    /** The reference for an event that the queue has no room for. */
    method RefAndUnref(b: nat)
      requires size > HEADER && b < |refs| && refs[b] > 0
      modifies this`refs, this`free
      ensures refs == old(refs) && free == old(free)
    {
      RefBuffer(b);
      UnrefBuffer(b);
      assert refs[b] == old(refs)[b];
    }

    /** The event for the last n bytes in block b. */
    method NewEvent(b: nat, n: nat) returns (e: RxEvent)
      requires size > HEADER && b < |store| && 0 < n <= |store[b]| <= size - HEADER
      ensures e.len == n && BlockOf(e.buf, size) == b && Inside(e, store, size)
      ensures EventBytes(e, store, size) == store[b][|store[b]| - n..]
    {
      Quotient(b, HEADER + |store[b]| - n, size);
      e := RxEvent(b * size + HEADER + |store[b]| - n, n);
    }

    /** What an event at the end adds to the counts and to the bytes. */
    lemma Back(q: seq<RxEvent>, e: RxEvent)
      requires size > HEADER && AllInside(q, store, size) && Inside(e, store, size)
      ensures forall b: nat :: Pointers(q + [e], b, size) == Pointers(q, b, size) +
                                 (if BlockOf(e.buf, size) == b then 1 else 0)
      ensures AllInside(q + [e], store, size)
      ensures Queued(q + [e], store, size) == Queued(q, store, size) + EventBytes(e, store, size)
    {
      QueuedAppend(q, e, store, size);
      forall b: nat
        ensures Pointers(q + [e], b, size) == Pointers(q, b, size) + (if BlockOf(e.buf, size) == b then 1 else 0)
      {
        PointersAppend(q, e, b, size);
      }
    }

    /** k_msgq_put of an event into block b, whose reference is already counted. */
    method Enqueue(e: RxEvent, b: nat, data: seq<byte>)
      requires size > HEADER && b in held && |queue| < capacity && |inHand| <= 1 && Conserved() && |store| == |refs|
      requires Inside(e, store, size) && BlockOf(e.buf, size) == b < |refs| && EventBytes(e, store, size) == data
      requires forall k :: 0 <= k < |store| ==> |store[k]| <= size - HEADER
      requires forall k :: 0 <= k < |refs| ==>
        refs[k] == (if k in held then 1 else 0) + Pointers(inHand + queue, k, size) + (if k == b then 1 else 0)
      requires forall k :: 0 <= k < |refs| ==> (k in free <==> refs[k] == 0)
      requires forall k :: k in free || k in held ==> k < |refs|
      modifies this`queue, this`accepted
      ensures Valid() && |queue| == old(|queue|) + 1 && accepted == old(accepted) + data
    {
      Back(inHand + queue, e);
      assert inHand + (queue + [e]) == inHand + queue + [e];
      queue := queue + [e];
      accepted := accepted + data;
    }

    /** The driver can have put these bytes into block b. */
    predicate Fits(b: nat, data: seq<byte>)
      reads this`held, this`store
    {
      b in held && b < |store| && data != [] && |store[b]| + |data| <= size - HEADER
    }

    /** uart_callback for the receive events. A driver reports only buffers that it holds. */
    method Interrupt(irq: Irq)
      requires Valid()
      modifies this`refs, this`free, this`held, this`store, this`queue, this`accepted, this`enabled
      ensures Valid() && old(accepted) <= accepted && InHandBytes() == old(InHandBytes())
      ensures enabled <==> old(enabled) && !irq.RxDisabled?
      ensures !irq.RxRdy? ==> queue == old(queue) && accepted == old(accepted)
      ensures irq.RxRdy? && old(Fits(irq.block, irq.data)) && started && |old(queue)| < capacity ==>
                |queue| == |old(queue)| + 1 && accepted == old(accepted) + irq.data
      ensures irq.BufReleased? ==> held == old(held) - {irq.block}
      ensures irq.RxRdy? || irq.RxDisabled? ==> held == old(held)
      ensures irq.BufRequest? && irq.rspOk && capacity - |queue| >= perBuf && old(free) != {} ==>
                |held| == |old(held)| + 1
    {
      match irq
      case BufRequest(rspOk) => OnBufRequest(rspOk);
      case RxRdy(b, data) => FillAndReport(b, data);
      case BufReleased(b) => OnBufReleased(b);
      case RxDisabled => enabled := false;
    }

    /** The driver fills its buffer and reports it. */
    method FillAndReport(b: nat, data: seq<byte>)
      requires Valid()
      modifies this`refs, this`free, this`store, this`queue, this`accepted
      ensures Valid() && old(accepted) <= accepted && InHandBytes() == old(InHandBytes())
      ensures old(Fits(b, data)) && started && |old(queue)| < capacity ==>
                |queue| == |old(queue)| + 1 && accepted == old(accepted) + data
    {
      if Fits(b, data) {
        Fill(b, data);
        var _ := OnRxRdy(b, data);
      }
    }

    /** UART_RX_BUF_RELEASED. */
    method OnBufReleased(b: nat)
      requires Valid()
      modifies this`refs, this`free, this`held
      ensures Valid() && held == old(held) - {b}
    {
      if b in held {
        Release(b);
      }
    }

    /** Interrupts that arrive between two statements of the thread. */
    method Interrupts(irqs: seq<Irq>)
      requires Valid()
      modifies this`refs, this`free, this`held, this`store, this`queue, this`accepted, this`enabled
      ensures Valid() && old(accepted) <= accepted && InHandBytes() == old(InHandBytes())
      ensures NothingReceived(irqs) ==> queue == old(queue) && accepted == old(accepted)
      ensures enabled <==> old(enabled) && NoneDisables(irqs, |irqs|)
    {
      ghost var was := enabled;
      var i := 0;
      while i < |irqs|
        invariant 0 <= i <= |irqs| && Valid() && old(accepted) <= accepted && InHandBytes() == old(InHandBytes())
        invariant NothingReceived(irqs) ==> queue == old(queue) && accepted == old(accepted)
        invariant StillEnabled(was, irqs, i)
      {
        NthInterrupt(was, irqs, i);
        i := i + 1;
      }
    }

    ghost predicate StillEnabled(was: bool, irqs: seq<Irq>, n: nat)
      requires n <= |irqs|
      reads this`enabled
    {
      enabled <==> was && NoneDisables(irqs, n)
    }

    method NthInterrupt(ghost was: bool, irqs: seq<Irq>, n: nat)
      requires Valid() && n < |irqs| && StillEnabled(was, irqs, n)
      modifies this`refs, this`free, this`held, this`store, this`queue, this`accepted, this`enabled
      ensures Valid() && old(accepted) <= accepted && InHandBytes() == old(InHandBytes())
      ensures NothingReceived(irqs) ==> queue == old(queue) && accepted == old(accepted)
      ensures StillEnabled(was, irqs, n + 1)
    {
      NextInterrupt(irqs[n]);
    }

    /** What matters of an interrupt to the thread. */
    method NextInterrupt(irq: Irq)
      requires Valid()
      modifies this`refs, this`free, this`held, this`store, this`queue, this`accepted, this`enabled
      ensures Valid() && old(accepted) <= accepted && InHandBytes() == old(InHandBytes())
      ensures enabled <==> old(enabled) && !irq.RxDisabled?
      ensures !irq.RxRdy? ==> queue == old(queue) && accepted == old(accepted)
    {
      Interrupt(irq);
    }

    /** rx_enable; `ret` is what uart_rx_enable returns. */
    method RxEnable(ret: int) returns (err: int)
      requires Valid()
      modifies this`refs, this`free, this`held, this`store, this`enabled
      ensures Valid()
      ensures old(enabled) || noRecovery ==> err == 0 && held == old(held) && enabled == old(enabled)
      ensures !old(enabled) && !noRecovery ==> err == (if old(free) == {} then -ENOMEM else ret)
      ensures !old(enabled) && !noRecovery ==> (enabled <==> err == 0)
      ensures err != 0 ==> held == old(held) && free == old(free)
    {
      if enabled || noRecovery {
        return 0;
      }
      var b := RxBufAlloc();
      if b == -1 {
        return -ENOMEM;
      }
      if ret != 0 {
        Release(b);
        assert free == old(free);
        return ret;
      }
      enabled := true;
      err := 0;
    }

    /** k_msgq_get, when the queue is not empty. */
    method Take() returns (e: RxEvent)
      requires Valid() && inHand == [] && queue != []
      modifies this`queue, this`inHand
      ensures Valid() && inHand == [e] && [e] + queue == old(queue)
      ensures Inside(e, store, size) && InHandBytes() == EventBytes(e, store, size)
    {
      e := queue[0];
      assert [e] + queue[1..] == inHand + queue;
      assert e == (inHand + queue)[0];
      inHand, queue := [e], queue[1..];
    }

    /** The event in hand is used up. */
    method DropInHand(p: nat, ghost out: seq<byte>)
      requires Valid() && |inHand| == 1 && BlockOf(p, size) == BlockOf(inHand[0].buf, size)
      requires out == InHandBytes() || lost
      modifies this`refs, this`free, this`inHand, this`returned
      ensures Valid() && inHand == [] && returned == old(returned) + out
    {
      Front(inHand[0], queue);
      assert inHand == [inHand[0]] && [] + queue == queue;
      RxBufUnref(p);
      inHand := [];
      returned := returned + out;
    }

    /** What the event in front adds to the counts and to the bytes. */
    lemma Front(e: RxEvent, q: seq<RxEvent>)
      requires size > HEADER
      ensures forall b: nat :: Pointers([e] + q, b, size) == Pointers(q, b, size) +
                                 (if BlockOf(e.buf, size) == b then 1 else 0)
      ensures AllInside([e] + q, store, size) <==> Inside(e, store, size) && AllInside(q, store, size)
      ensures AllInside([e] + q, store, size)
        ==> Queued([e] + q, store, size) == EventBytes(e, store, size) + Queued(q, store, size)
    {
      assert ([e] + q)[0] == e && ([e] + q)[1..] == q;
      assert forall i :: 0 <= i < |q| ==> q[i] == ([e] + q)[i + 1];
    }

    /** Advancing the event in front keeps the counts, and takes n bytes off. */
    lemma FrontAdvanced(e: RxEvent, n: nat, q: seq<RxEvent>)
      requires size > HEADER && AllInside([e] + q, store, size) && n < e.len
      requires forall b :: 0 <= b < |store| ==> |store[b]| <= size - HEADER
      ensures Inside(e, store, size) && BlockOf(e.buf + n, size) == BlockOf(e.buf, size)
      ensures AllInside([RxEvent(e.buf + n, e.len - n)] + q, store, size)
      ensures forall b: nat :: Pointers([RxEvent(e.buf + n, e.len - n)] + q, b, size) == Pointers([e] + q, b, size)
      ensures Queued([e] + q, store, size)
           == EventBytes(e, store, size)[..n] + Queued([RxEvent(e.buf + n, e.len - n)] + q, store, size)
    {
      Front(e, q);
      Advance(e, n, store, size);
      Front(RxEvent(e.buf + n, e.len - n), q);
    }

    /** n bytes of the event in hand have been copied; the rest goes to the front of the queue.
        The queue may be full by now: then the rest is dropped. */
    method PutFront(n: nat) returns (ok: bool)
      requires Valid() && |inHand| == 1 && 0 < n < inHand[0].len
      modifies this`refs, this`free, this`inHand, this`queue, this`returned, this`lost
      ensures Valid() && inHand == [] && n < |old(InHandBytes())| && returned == old(returned) + old(InHandBytes())[..n]
      ensures ok <==> old(|queue|) < capacity
      ensures lost <==> old(lost) || !ok
      ensures queue == if ok then [RxEvent(old(inHand[0].buf) + n, old(inHand[0].len) - n)] + old(queue) else old(queue)
    {
      var e := inHand[0];
      assert inHand == [e];
      FrontAdvanced(e, n, queue);
      ghost var out := InHandBytes()[..n];
      if |queue| == capacity {
        lost := true;
        DropInHand(e.buf + n, out);
        return false;
      }
      PutBack(RxEvent(e.buf + n, e.len - n), out);
      ok := true;
    }

    /** k_msgq_put_front, with space. */
    method PutBack(rest: RxEvent, ghost out: seq<byte>)
      requires Valid() && |inHand| == 1 && |queue| < capacity && AllInside([rest] + queue, store, size)
      requires forall b: nat :: Pointers([rest] + queue, b, size) == Pointers(inHand + queue, b, size)
      requires Queued(inHand + queue, store, size) == out + Queued([rest] + queue, store, size)
      modifies this`inHand, this`queue, this`returned
      ensures Valid() && inHand == [] && returned == old(returned) + out && queue == [rest] + old(queue)
    {
      assert [] + ([rest] + queue) == [rest] + queue;
      queue, inHand := [rest] + queue, [];
      returned := returned + out;
    }

    /** One round of the loop of pipe_receive, with interrupts between taking the event and
        putting it back, and after that. */
    method ReceiveSome(room: nat, irqs: seq<Irq>, more: seq<Irq>) returns (out: seq<byte>)
      requires Valid() && inHand == [] && queue != [] && room > 0
      modifies this`refs, this`free, this`held, this`store, this`queue, this`accepted, this`enabled
      modifies this`inHand, this`returned, this`lost
      ensures Valid() && inHand == [] && 0 < |out| <= room && returned == old(returned) + out
      ensures old(accepted) <= accepted
      ensures enabled <==> old(enabled) && NoneDisables(irqs, |irqs|) && NoneDisables(more, |more|)
      ensures NothingReceived(irqs) ==> lost == old(lost)
      ensures NothingReceived(irqs) && NothingReceived(more) ==> accepted == old(accepted)
    {
      var e := Take();
      var n := if e.len <= room then e.len else room;
      var off := e.buf % size - HEADER;
      out := store[BlockOf(e.buf, size)][off..off + n];
      ghost var bytes := InHandBytes();
      assert out == bytes[..n] && |bytes| == e.len;
      Interrupts(irqs);
      if e.len == n {
        DropInHand(e.buf, out);
      } else {
        var _ := PutFront(n);
      }
      Interrupts(more);
    }

    /** pipe_receive into a buffer of `out.Length` bytes; irqs(k) are the interrupts of round k,
        and `ret` is what uart_rx_enable returns if the receiver is to be restarted. */
    method PipeReceive(out: array<byte>, irqs: nat -> (seq<Irq>, seq<Irq>), ret: int) returns (received: nat)
      requires Valid() && inHand == []
      modifies this`refs, this`free, this`held, this`store, this`queue, this`accepted, this`enabled
      modifies this`inHand, this`returned, this`lost, out
      ensures Valid() && inHand == [] && old(accepted) <= accepted
      ensures received <= out.Length && returned == old(returned) + out[..received]
      ensures out[received..] == old(out[..])[received..]
      ensures received < out.Length ==> queue == []
      ensures (forall k :: NothingReceived(irqs(k).0)) ==> lost == old(lost)
      ensures (forall k :: NothingReceived(irqs(k).0) && NothingReceived(irqs(k).1)) ==> accepted == old(accepted)
      ensures out.Length > 0 && queue == [] && !noRecovery && ret == 0 ==> enabled || free == {}
      ensures out.Length == 0 ==> enabled == old(enabled) && queue == old(queue)
    {
      received := ReceiveAll(out, irqs);
      if out.Length > 0 && queue == [] {
        var _ := RxEnable(ret);
      }
    }

    /** The loop of pipe_receive: until the buffer is full or the queue empty. */
    method ReceiveAll(out: array<byte>, irqs: nat -> (seq<Irq>, seq<Irq>)) returns (received: nat)
      requires Valid() && inHand == []
      modifies this`refs, this`free, this`held, this`store, this`queue, this`accepted, this`enabled
      modifies this`inHand, this`returned, this`lost, out
      ensures Valid() && inHand == [] && old(accepted) <= accepted
      ensures received <= out.Length && returned == old(returned) + out[..received]
      ensures out[received..] == old(out[..])[received..]
      ensures received < out.Length ==> queue == []
      ensures (forall k :: NothingReceived(irqs(k).0)) ==> lost == old(lost)
      ensures (forall k :: NothingReceived(irqs(k).0) && NothingReceived(irqs(k).1)) ==> accepted == old(accepted)
      ensures out.Length == 0 ==> enabled == old(enabled) && queue == old(queue)
    {
      received := 0;
      var k := 0;
      while received < out.Length && queue != []
        invariant 0 <= received <= out.Length && Valid() && inHand == [] && old(accepted) <= accepted
        invariant returned == old(returned) + out[..received]
        invariant out[received..] == old(out[..])[received..]
        invariant (forall k :: NothingReceived(irqs(k).0)) ==> lost == old(lost)
        invariant (forall k :: NothingReceived(irqs(k).0) && NothingReceived(irqs(k).1)) ==> accepted == old(accepted)
        invariant out.Length == 0 ==> enabled == old(enabled) && queue == old(queue)
        decreases out.Length - received
      {
        var now := irqs(k);
        var bytes := ReceiveSome(out.Length - received, now.0, now.1);
        CopyOut(out, received, bytes);
        received, k := received + |bytes|, k + 1;
      }
    }
  }

  /** memcpy to the caller's buffer behind what it already holds. */
  method CopyOut(out: array<byte>, at: nat, bytes: seq<byte>)
    requires at + |bytes| <= out.Length
    modifies out
    ensures out[..at + |bytes|] == old(out[..at]) + bytes
    ensures out[at + |bytes|..] == old(out[at..])[|bytes|..]
  {
    CopyIn(out, at, bytes);
  }
}
