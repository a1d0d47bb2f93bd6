/** The transmit half of the UART pipe: a ring buffer, one binary semaphore, and a driver that
    reports the end of a transfer from an interrupt. */
module UartTx {
  import opened Bytes
  import opened Arithmetic
  import opened RingBuffers

  const EAGAIN := 11
  const EINVAL := 22
  const EPERM := 1
  const EFAULT := 14

  /** uart_tx() has been called and has not completed: the length of the claim. */
  datatype Transfer = NoTransfer | InFlight(len: nat)

  /** UART_TX_DONE reports the whole claim, UART_TX_ABORTED the part that went out. If the interrupt
      starts another transfer, uart_tx returns -errno. */
  datatype Irq = Done(errno: nat) | Aborted(len: nat, errno: nat)

  /** Where the one thread that transmits is: outside pipe_transmit, before its
      k_sem_take, or between k_sem_take and tx_start. */
  datatype Place = Outside | Putting | Holding

  /** No more can go out than was handed over. */
  function Cut(irq: Irq, len: nat): (r: Irq)
    ensures r.Aborted? ==> r.len <= len
  {
    match irq
    case Done(_) => irq
    case Aborted(n, _) => irq.(len := if n <= len then n else len)
  }

  predicate NoFailure(irqs: seq<Irq>)
  {
    forall i :: 0 <= i < |irqs| ==> irqs[i].errno == 0
  }

  class UartTransmitter {
    const ring: RingBuffer            // tx_buf
    var open: bool                    // SM_PIPE_STATE_OPEN_BIT
    var enabled: bool                 // SM_UART_STATE_TX_ENABLED_BIT
    var txDone: bool                  // tx_done_sem
    var transfer: Transfer
    ghost var place: Place
    ghost var leftover: bool          // enabled with bytes in the ring, or failed to start; nothing sent since
    ghost var stalled: bool           // uart_tx has failed in an interrupt
    ghost var line: seq<byte>         // bytes that have gone out
    ghost var accepted: seq<byte>     // bytes that pipe_transmit has taken

    /** Bytes go out in the order in which they were accepted, none lost, none twice. While
        enabled, exactly one of "semaphore available" and "transfer in flight" holds, except
        between taking the semaphore and starting, and unless uart_tx has failed in an interrupt:
        then neither does. Outside pipe_transmit bytes in the ring mean a transfer in flight,
        exactly unless that has happened or they are left over. */
    ghost predicate Valid()
      reads this, ring, ring.data
    {
      && ring.Valid()
      && line + ring.Contents() == accepted
      && (transfer.InFlight? ==> transfer.len <= ring.count && !txDone)
      && (stalled ==> enabled && transfer.NoTransfer? && !txDone && !leftover && place != Holding)
      && (enabled && place != Holding ==> (txDone <==> transfer.NoTransfer? && !stalled))
      && (place == Holding ==> !txDone && transfer.NoTransfer?)
      && (enabled && place == Outside && ring.count > 0 ==> (transfer.InFlight? <==> !leftover && !stalled))
      && (enabled && leftover ==> transfer.NoTransfer?)
    }

    constructor (ring: RingBuffer)
      requires ring.Valid() && ring.Contents() == []
      ensures Valid() && this.ring == ring && !open && !enabled && place == Outside && transfer.NoTransfer?
      ensures line == [] && accepted == [] && !stalled
    {
      this.ring := ring;
      open, enabled, txDone, transfer, place, leftover := false, false, false, NoTransfer, Outside, false;
      line, accepted, stalled := [], [], false;
    }

    /** tx_start. It is never called with a transfer in flight; uart_tx returns -errno. */
    method TxStart(errno: nat) returns (err: int)
      requires ring.Valid() && transfer.NoTransfer?
      modifies this`transfer
      ensures err == if enabled then 0 - errno else -EAGAIN
      ensures transfer.InFlight? <==> enabled && errno == 0
      ensures transfer.InFlight? ==> transfer.len <= ring.count && (ring.count > 0 ==> transfer.len > 0)
    {
      if !enabled {
        return -EAGAIN;
      }
      var claim := ring.Claim();
      if errno == 0 {
        transfer := InFlight(|claim|);
      }
      err := 0 - errno;
    }

    /** ring_buf_get_finish: the n oldest bytes are on the line. */
    method SendOut(n: nat)
      requires ring.Valid() && n <= ring.count
      modifies this`line, ring
      ensures ring.Valid() && ring.Contents() == old(ring.Contents())[n..]
      ensures line == old(line) + old(ring.Contents())[..n]
      ensures line + ring.Contents() == old(line + ring.Contents())
    {
      Regroup(line, ring.Contents(), n);
      line := line + ring.Contents()[..n];
      ring.Finish(n);
    }

    /** uart_callback for UART_TX_DONE and UART_TX_ABORTED. The result of tx_start is not looked
        at: when uart_tx fails, the semaphore is not given either. */
    method Interrupt(irq: Irq)
      requires Valid() && transfer.InFlight? && (irq.Aborted? ==> irq.len <= transfer.len)
      modifies this`transfer, this`txDone, this`line, this`stalled, ring
      ensures Valid()
      ensures line == old(line) + old(ring.Contents())[..if irq.Done? then old(transfer.len) else irq.len]
      ensures enabled ==> (transfer.InFlight? <==> ring.count > 0 && irq.errno == 0)
      ensures stalled <==> enabled && ring.count > 0 && irq.errno != 0
      ensures !enabled ==> transfer.NoTransfer?
    {
      SendOut(if irq.Done? then transfer.len else irq.len);
      transfer := NoTransfer;
      Next(irq.Aborted?, irq.errno);
    }

    /** After a transfer: give the semaphore, or start the next transfer. */
    method Next(aborted: bool, errno: nat)
      requires ring.Valid() && line + ring.Contents() == accepted && transfer.NoTransfer? && !txDone && place != Holding
      requires !(enabled && leftover) && !stalled
      modifies this`transfer, this`txDone, this`stalled
      ensures Valid()
      ensures enabled ==> (transfer.InFlight? <==> ring.count > 0 && errno == 0)
      ensures stalled <==> enabled && ring.count > 0 && errno != 0
      ensures !enabled ==> transfer.NoTransfer?
    {
      if ring.count == 0 || (aborted && !enabled) {
        txDone := true;
      } else {
        var _ := TxStart(errno);
        stalled := enabled && errno != 0;
      }
    }

    /** What is on the line after an interrupt, if a transfer is in flight. */
    ghost function SentBy(irq: Irq): seq<byte>
      requires Valid()
      reads this, ring, ring.data
    {
      if transfer.NoTransfer? then line
      else line + ring.Contents()[..if irq.Done? then transfer.len else Cut(irq, transfer.len).len]
    }

    /** Interrupts that arrive between two statements of a thread. */
    method Interrupts(irqs: seq<Irq>)
      requires Valid()
      modifies this`transfer, this`txDone, this`line, this`stalled, ring
      ensures Valid() && old(line) <= line
      ensures irqs == [] || old(transfer.NoTransfer?) ==>
                transfer == old(transfer) && line == old(line) && stalled == old(stalled) && txDone == old(txDone)
      ensures NoFailure(irqs) ==> stalled == old(stalled)
      ensures irqs != [] ==> old(SentBy(irqs[0])) <= line
    {
      var i := 0;
      while i < |irqs|
        invariant 0 <= i <= |irqs| && Valid() && old(line) <= line
        invariant i == 0 || old(transfer.NoTransfer?) ==>
                    transfer == old(transfer) && line == old(line) && stalled == old(stalled) && txDone == old(txDone)
        invariant NoFailure(irqs) ==> stalled == old(stalled)
        invariant if i == 0 then ring.Contents() == old(ring.Contents()) else old(SentBy(irqs[0])) <= line
      {
        if transfer.InFlight? {
          Interrupt(Cut(irqs[i], transfer.len));
        }
        i := i + 1;
      }
    }

    /** tx_enable, with no transfer in flight. */
    method TxEnable()
      requires Valid() && place == Outside && transfer.NoTransfer?
      modifies this`enabled, this`txDone, this`leftover
      ensures Valid() && enabled && stalled == old(stalled)
      ensures leftover == if old(enabled) then old(leftover) else ring.count > 0
    {
      if !enabled {
        enabled := true;
        txDone := true;
        leftover := ring.count > 0;
      }
    }

    /** tx_disable: wait for the semaphore while interrupts go on; if it does not come, the
        transfer is aborted, which a later interrupt reports. abortErr is what uart_tx_abort
        returns; -EFAULT means that there was nothing to abort. */
    method TxDisable(irqs: seq<Irq>, abortErr: int) returns (err: int, ghost taken: bool)
      requires Valid() && place == Outside
      modifies this`enabled, this`txDone, this`transfer, this`line, this`stalled, ring
      ensures Valid() && !enabled && !stalled && old(line) <= line
      ensures err == if !old(enabled) || taken || abortErr == -EFAULT then 0 else abortErr
      ensures old(enabled && txDone) ==> taken
      ensures taken ==> old(enabled) && transfer.NoTransfer? && !txDone
      ensures old(enabled) && irqs == [] ==> (taken <==> old(txDone))
      ensures transfer.InFlight? ==> old(transfer.InFlight?)
      ensures irqs == [] ==> transfer == old(transfer) && line == old(line)
      ensures old(enabled) && irqs != [] ==> old(SentBy(irqs[0])) <= line
    {
      if !enabled {
        return 0, false;
      }
      enabled, stalled := false, false;
      Interrupts(irqs);
      if txDone {
        txDone := false;
        return 0, true;
      }
      err, taken := if abortErr == -EFAULT then 0 else abortErr, false;
    }

    /** ring_buf_put, and the interrupts right after it. */
    method PutSome(buf: seq<byte>, sent: nat, irqs: seq<Irq>, ghost base: seq<byte>) returns (n: nat)
      requires Valid() && place == Putting && sent <= |buf| && accepted == base + buf[..sent]
      modifies this`transfer, this`txDone, this`line, this`accepted, this`stalled, ring, ring.data
      ensures n == Min(|buf| - sent, ring.data.Length - old(ring.count))
      ensures Valid() && accepted == base + buf[..sent + n] && old(line) <= line
      ensures irqs == [] || old(transfer.NoTransfer?) ==>
                transfer == old(transfer) && line == old(line) && stalled == old(stalled)
      ensures NoFailure(irqs) ==> stalled == old(stalled)
    {
      n := PutBytes(buf[sent..]);
      Onward(base, buf, sent, n);
      Interrupts(irqs);
    }

    method PutBytes(rest: seq<byte>) returns (n: nat)
      requires Valid() && place == Putting
      modifies this`accepted, ring, ring.data
      ensures n == Min(|rest|, ring.data.Length - old(ring.count))
      ensures Valid() && accepted == old(accepted) + rest[..n]
    {
      Associate(line, ring.Contents(), rest[..Min(|rest|, ring.data.Length - ring.count)]);
      n := ring.Put(rest);
      accepted := accepted + rest[..n];
    }

    /** The loop of pipe_transmit: it ends when all is accepted or the ring is full. */
    method PutAll(buf: seq<byte>, irqs: nat -> seq<Irq>) returns (sent: nat)
      requires Valid() && place == Putting
      modifies this`transfer, this`txDone, this`line, this`accepted, this`stalled, ring, ring.data
      ensures Min(|buf|, ring.data.Length - old(ring.count)) <= sent <= |buf|
      ensures Valid() && accepted == old(accepted) + buf[..sent]
      ensures (forall k :: irqs(k) == []) || old(transfer.NoTransfer?) ==>
                transfer == old(transfer) && line == old(line) && stalled == old(stalled)
      ensures (forall k :: NoFailure(irqs(k))) ==> stalled == old(stalled)
    {
      sent := 0;
      var k := 0;
      while sent < |buf|
        invariant 0 <= sent <= |buf| && Valid()
        invariant accepted == old(accepted) + buf[..sent]
        invariant if k == 0 then sent == 0 && ring.count == old(ring.count)
                  else Min(|buf|, ring.data.Length - old(ring.count)) <= sent
        invariant (forall k :: irqs(k) == []) || old(transfer.NoTransfer?) ==>
                    transfer == old(transfer) && line == old(line) && stalled == old(stalled)
        invariant (forall k :: NoFailure(irqs(k))) ==> stalled == old(stalled)
        decreases |buf| - sent
      {
        var n := PutSome(buf, sent, irqs(k), old(accepted));
        if n == 0 {
          break;
        }
        sent, k := sent + n, k + 1;
      }
    }

    /** The end of pipe_transmit: whoever gets the semaphore starts the transfer. If that fails,
        the bytes stay in the ring, and the semaphore is given back. */
    method TakeAndStart(errno: nat) returns (err: int)
      requires Valid() && place == Putting
      modifies this`transfer, this`txDone, this`place, this`leftover
      ensures Valid() && place == Outside
      ensures err == if old(txDone) then (if enabled then 0 - errno else -EAGAIN) else 0
      ensures leftover <==> old(txDone) && enabled && errno != 0
      ensures enabled ==> (txDone <==> transfer.NoTransfer? && !stalled)
      ensures enabled && ring.count > 0 ==> (transfer.InFlight? <==> !leftover && !stalled)
      ensures stalled || old(transfer.InFlight?) ==> transfer == old(transfer)
    {
      err := 0;
      leftover := false;
      if txDone {
        txDone := false;
        place := Holding;
        err := TxStart(errno);
        if err != 0 {
          txDone := true;
          leftover := enabled;
        }
      }
      place := Outside;
    }

    /** pipe_transmit. Interrupts may come after every ring_buf_put (irqs(0), irqs(1), ...) and
        before k_sem_take (last). An error of uart_tx is returned although the bytes have been
        accepted; and once it has failed in an interrupt nothing goes out any more. */
    method PipeTransmit(buf: seq<byte>, irqs: nat -> seq<Irq>, last: seq<Irq>, errno: nat)
      returns (ret: int, ghost sent: nat)
      requires Valid() && place == Outside
      modifies this`transfer, this`txDone, this`line, this`accepted, this`place, this`leftover, this`stalled,
               ring, ring.data
      ensures Valid() && place == Outside
      ensures sent <= |buf| && accepted == old(accepted) + buf[..sent]
      ensures !open ==> ret == -EPERM && sent == 0
      ensures open && buf == [] ==> ret == -EINVAL && sent == 0
      ensures open && buf != [] ==> Min(|buf|, ring.data.Length - old(ring.count)) <= sent
      ensures open && buf != [] ==> ret == sent || (ret == 0 - errno < 0 && leftover && enabled)
      ensures open && buf != [] && errno == 0 ==> ret == sent && !leftover
      ensures last == [] && (forall k :: irqs(k) == []) ==>
                line == old(line) && stalled == old(stalled) && (old(transfer.InFlight?) ==> transfer == old(transfer))
      ensures NoFailure(last) && (forall k :: NoFailure(irqs(k))) ==> stalled == old(stalled)
      ensures enabled ==> (txDone <==> transfer.NoTransfer? && !stalled)
      ensures enabled && ring.count > 0 ==> (transfer.InFlight? <==> !leftover && !stalled)
      ensures old(stalled) ==> stalled && transfer.NoTransfer? && line == old(line)
    {
      sent := 0;
      if !open {
        return -EPERM, 0;
      }
      if buf == [] {
        return -EINVAL, 0;
      }
      place := Putting;
      var n := PutAll(buf, irqs);
      Interrupts(last);
      var err := TakeAndStart(errno);
      sent := n;
      ret := if err == 0 || err == -EAGAIN then n else err;
    }
  }

  /** Bytes that a disable left behind: after the next enable they stay in the ring, and no transfer
      is started until something else is transmitted. */
  method LeftoverStays() returns (u: UartTransmitter)
    ensures u.Valid() && u.enabled && u.place == Outside && u.ring.count > 0 && u.transfer.NoTransfer?
  {
    var ring := new RingBuffer(4);
    u := new UartTransmitter(ring);
    u.open := true;
    u.TxEnable();
    var ret, _ := u.PipeTransmit([1], _ => [], [], 0);
    assert u.accepted == [1];
    var err, _ := u.TxDisable([], 0);
    u.Interrupt(Aborted(0, 0));
    u.TxEnable();
  }

  /** How a failing uart_tx stops the output: it fails in the interrupt at the end of a transfer,
      with more to send. Whatever is transmitted afterwards, nothing goes out while the UART stays
      enabled. */
  method FailedStartStalls(errno: nat, more: seq<byte>, irqs: nat -> seq<Irq>, last: seq<Irq>)
    returns (u: UartTransmitter)
    requires errno != 0
    ensures u.Valid() && u.enabled && u.stalled && |u.line| <= 1 && [1, 2] <= u.accepted
  {
    u := OneWaiting();
    u.Interrupt(Done(errno));
    var _, sent := u.PipeTransmit(more, irqs, last, 0);
    assert u.accepted == [1, 2] + more[..sent];
  }

  /** The second byte waits for the transfer of the first. */
  method OneWaiting() returns (u: UartTransmitter)
    ensures fresh(u) && fresh(u.ring) && fresh(u.ring.data)
    ensures u.Valid() && u.open && u.enabled && u.place == Outside && u.line == [] && u.accepted == [1, 2]
    ensures u.transfer.InFlight? && u.transfer.len <= 1 && !u.stalled
  {
    var ring := new RingBuffer(4);
    u := new UartTransmitter(ring);
    u.open := true;
    u.TxEnable();
    var _, _ := u.PipeTransmit([1], _ => [], [], 0);
    assert u.accepted == [1];
    var _, _ := u.PipeTransmit([2], _ => [], [], 0);
    assert u.accepted == [1, 2];
  }
}
