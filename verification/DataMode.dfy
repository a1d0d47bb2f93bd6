/** Data mode of one AT host context: raw_rx_handler, write_data_buf, raw_send,
    raw_send_scheduled, null_handler, enter_datamode, exit_datamode and
    exit_datamode_handler. */
module DataModes {
  import opened Bytes
  import opened RingBuffers
  import opened Terminator

  datatype Mode = AtCommand | Data | Null

  // ---------------------------------------------------------------------------
  // What a data mode session shows to the outside
  // ---------------------------------------------------------------------------

  /** Entry, DATAMODE_EXIT delivered to the handler, #XDATAMODE sent to the host. */
  datatype SessionEvent = Entered | ExitDelivered | Announced(result: int)

  datatype Phase = Idle | Open | Closed | Illegal

  /** Sessions follow each other, and each is: entered, exit delivered, announced. */
  function PhaseAfter(log: seq<SessionEvent>): Phase
  {
    if log == [] then Idle
    else match (PhaseAfter(log[..|log| - 1]), log[|log| - 1])
      case (Idle, Entered) => Open
      case (Open, ExitDelivered) => Closed
      case (Closed, Announced(_)) => Idle
      case _ => Illegal
  }

  function PhaseOf(mode: Mode): Phase
  {
    match mode
    case AtCommand => Idle
    case Data => Open
    case Null => Closed
  }

  lemma PhaseStep(log: seq<SessionEvent>, e: SessionEvent)
    ensures PhaseAfter(log + [e]) == match (PhaseAfter(log), e)
                                     case (Idle, Entered) => Open
                                     case (Open, ExitDelivered) => Closed
                                     case (Closed, Announced(_)) => Idle
                                     case _ => Illegal
  {
    assert (log + [e])[..|log|] == log;
  }

  lemma {:induction false} LegalPrefix(log: seq<SessionEvent>, n: nat)
    requires PhaseAfter(log) != Illegal && n <= |log|
    ensures PhaseAfter(log[..n]) != Illegal
  {
    if n == |log| {
      assert log[..n] == log;
    } else {
      LegalPrefix(log[..|log| - 1], n);
      assert log[..|log| - 1][..n] == log[..n];
    }
  }

  /** The last event of a legal log, and the one before it. */
  lemma LastTwo(log: seq<SessionEvent>)
    requires PhaseAfter(log) != Illegal && log != []
    ensures var n := |log| - 1;
      && (log[n].Entered? <==> PhaseAfter(log) == Open)
      && (log[n].ExitDelivered? <==> PhaseAfter(log) == Closed)
      && (log[n].Announced? <==> PhaseAfter(log) == Idle)
      && (log[n].Entered? ==> n == 0 || log[n - 1].Announced?)
      && (log[n].ExitDelivered? ==> n > 0 && log[n - 1].Entered?)
      && (log[n].Announced? ==> n > 0 && log[n - 1].ExitDelivered?)
  {
    var init := log[..|log| - 1];
    if init != [] {
      assert init[|init| - 1] == log[|log| - 2];
    }
  }

  /** In a legal log every session gets exactly one exit and then exactly one announcement,
      and only the last session can be unfinished. */
  lemma SessionsAreComplete(log: seq<SessionEvent>, i: nat)
    requires PhaseAfter(log) != Illegal && i < |log|
    ensures log[i].Entered? ==> (i + 1 < |log| ==> log[i + 1].ExitDelivered?) &&
                                (i + 2 < |log| ==> log[i + 2].Announced?)
    ensures log[i].ExitDelivered? ==> i > 0 && log[i - 1].Entered?
    ensures log[i].Announced? ==> i > 1 && log[i - 1].ExitDelivered? && log[i - 2].Entered?
    ensures PhaseAfter(log).Idle? <==> log[|log| - 1].Announced?
    ensures PhaseAfter(log).Open? <==> log[|log| - 1].Entered?
  {
    LastTwo(log);
    forall k | 0 < k <= |log|
      ensures PhaseAfter(log[..k]) != Illegal
    {
      LegalPrefix(log, k);
    }
    LastTwo(log[..i + 1]);
    if i > 0 {
      LastTwo(log[..i]);
    }
    if i + 1 < |log| {
      LastTwo(log[..i + 2]);
    }
    if i + 2 < |log| {
      LastTwo(log[..i + 3]);
    }
  }

  // ---------------------------------------------------------------------------
  // The data mode handler, as seen by raw_send
  // ---------------------------------------------------------------------------

  /** What one DATAMODE_SEND call does: optionally exit_datamode_handler() with a result
      from inside the handler, and a return value. */
  datatype Reply = Reply(exit: Exit, ret: int)
  datatype Exit = NoExit | ExitWith(result: int)

  /** Handlers never claim more than they were given and never exit with result 0. */
  ghost predicate HandlerContract(handler: (nat, seq<byte>, bool) -> Reply)
  {
    forall i: nat, d: seq<byte>, more: bool ::
      var r := handler(i, d, more);
      r.ret <= |d| && (r.exit.ExitWith? ==> r.exit.result != 0)
  }

  type Handler = h: (nat, seq<byte>, bool) -> Reply | HandlerContract(h)
    witness (i: nat, d: seq<byte>, more: bool) => Reply(NoExit, 0)

  /** One DATAMODE_SEND call as it happened. */
  datatype Call = Call(data: seq<byte>, more: bool, ret: int, exit: Exit)
  type Send = c: Call | c.ret <= |c.data| witness Call([], false, 0, NoExit)

  /** The bytes that the handler has accepted. */
  function Taken(sends: seq<Send>): seq<byte>
  {
    if sends == [] then []
    else
      var last := sends[|sends| - 1];
      Taken(sends[..|sends| - 1]) + (if last.ret > 0 then last.data[..last.ret] else [])
  }

  predicate LastWasZero(sends: seq<Send>)
  {
    sends != [] && sends[|sends| - 1].ret == 0
  }

  /** Sending has failed: the handler has returned an error or left from inside, or has taken nothing
      twice in a row. */
  predicate Failed(sends: seq<Send>)
  {
    sends != [] &&
    var init, last := sends[..|sends| - 1], sends[|sends| - 1];
    Failed(init) || last.ret < 0 || last.exit.ExitWith? || (last.ret == 0 && LastWasZero(init))
  }

  lemma TakenStep(sends: seq<Send>, s: Send)
    ensures Taken(sends + [s]) == Taken(sends) + (if s.ret > 0 then s.data[..s.ret] else [])
  {
    assert (sends + [s])[..|sends|] == sends;
  }

  lemma FailedStep(sends: seq<Send>, s: Send)
    ensures Failed(sends + [s]) <==>
            Failed(sends) || s.ret < 0 || s.exit.ExitWith? || (s.ret == 0 && LastWasZero(sends))
  {
    assert (sends + [s])[..|sends|] == sends;
  }

  predicate FailsAt(sends: seq<Send>, i: nat)
    requires i < |sends|
  {
    sends[i].ret < 0 || sends[i].exit.ExitWith? || (sends[i].ret == 0 && i > 0 && sends[i - 1].ret == 0)
  }

  lemma {:induction false} FailedIff(sends: seq<Send>)
    ensures Failed(sends) <==> exists i :: 0 <= i < |sends| && FailsAt(sends, i)
  {
    if sends == [] {
    } else {
      var init, n := sends[..|sends| - 1], |sends| - 1;
      FailedIff(init);
      assert forall i :: 0 <= i < n ==> (FailsAt(init, i) <==> FailsAt(sends, i));
      assert LastWasZero(init) <==> n > 0 && sends[n - 1].ret == 0;
      assert Failed(sends) <==> Failed(init) || FailsAt(sends, n);
    }
  }

  /** The calls of a session, with what they come to. */
  datatype Record = Record(calls: seq<Send>, taken: seq<byte>, failed: bool)

  predicate IsRecord(r: Record)
  {
    r.taken == Taken(r.calls) && r.failed == Failed(r.calls)
  }

  const NO_CALLS := Record([], [], false)

  type Calls = r: Record | IsRecord(r) witness NO_CALLS

  function OneMore(r: Calls, s: Send): (q: Calls)
    ensures q.calls == r.calls + [s] && q.taken == r.taken + (if s.ret > 0 then s.data[..s.ret] else [])
    ensures q.failed <==> r.failed || s.ret < 0 || s.exit.ExitWith? || (s.ret == 0 && LastWasZero(r.calls))
  {
    TakenStep(r.calls, s);
    FailedStep(r.calls, s);
    Record(r.calls + [s], Taken(r.calls + [s]), Failed(r.calls + [s]))
  }

  /** A handler that takes something of every offer and stays. */
  ghost predicate Generous(handler: (nat, seq<byte>, bool) -> Reply)
  {
    forall i: nat, d: seq<byte>, more: bool :: d != [] ==>
      handler(i, d, more).ret > 0 && handler(i, d, more).exit.NoExit?
  }

  /** k bytes of a claim are accepted. */
  lemma Accepted(done: seq<byte>, pending: seq<byte>, claim: seq<byte>, k: nat)
    requires k <= |claim| <= |pending| && claim == pending[..|claim|]
    ensures done + claim[..k] + pending[k..] == done + pending
    ensures done <= done + claim[..k] <= done + pending
  {
    Regroup(done, pending, k);
    assert claim[..k] == pending[..k];
  }

  // ---------------------------------------------------------------------------
  // Bytes and pauses
  // ---------------------------------------------------------------------------

  /** What happens in a session: a byte comes in, or raw_send_scheduled runs after a time without
      bytes. */
  datatype Symbol = Octet(c: byte) | Pause

  /** Bytes without a pause. */
  function Lift(s: seq<byte>): (r: seq<Symbol>)
    ensures |r| == |s| && forall i :: 0 <= i < |s| ==> r[i] == Octet(s[i])
  {
    seq(|s|, i requires 0 <= i < |s| => Octet(s[i]))
  }

  /** The bytes alone. */
  function Octets(events: seq<Symbol>): seq<byte>
  {
    if events == [] then []
    else Octets(events[..|events| - 1]) + match events[|events| - 1] case Octet(c) => [c] case Pause => []
  }

  lemma OctetsMore(events: seq<Symbol>, e: Symbol)
    ensures Octets(events + [e]) == Octets(events) + match e case Octet(c) => [c] case Pause => []
  {
    assert (events + [e])[..|events|] == events;
  }

  lemma LiftPrefix(s: seq<byte>, n: nat)
    requires n <= |s|
    ensures Lift(s)[..n] == Lift(s[..n]) && Octets(Lift(s)[..n]) == s[..n]
  {
    OctetsOfLift(s[..n]);
  }

  lemma {:induction false} OctetsOfLift(s: seq<byte>)
    ensures Octets(Lift(s)) == s
  {
    if s == [] {
    } else {
      var init := s[..|s| - 1];
      OctetsOfLift(init);
      assert Lift(s) == Lift(init) + [Octet(s[|s| - 1])];
      OctetsMore(Lift(init), Octet(s[|s| - 1]));
    }
  }

  /** A pause matches no byte of the terminator. */
  lemma LiftNext(t: seq<byte>, events: seq<Symbol>, e: Symbol)
    requires t != [] && DataMatch(Lift(t), events) < |t|
    ensures DataMatch(Lift(t), events + [e])
         == match e case Octet(c) => DataNext(t, DataMatch(Lift(t), events), c) case Pause => 0
  {
    DataMatchStep(Lift(t), events, e);
  }

  lemma LiftEndsWith(s: seq<byte>, w: seq<byte>)
    ensures EndsWith(Lift(s), Lift(w)) <==> EndsWith(s, w)
  {
    if |w| <= |s| {
      var tail := s[|s| - |w|..];
      assert Lift(s)[|s| - |w|..] == Lift(tail);
      if Lift(tail) == Lift(w) {
        assert forall i :: 0 <= i < |w| ==> Lift(tail)[i] == Lift(w)[i];
        assert tail == w;
      }
    }
  }

  lemma LiftForgets(t: seq<byte>)
    requires NoForgottenMatch(t)
    ensures NoForgottenMatch(Lift(t))
  {
    forall b: nat, m: nat | b < m < |t| && Border(Lift(t), b, m)
      ensures Lift(t)[b] == Lift(t)[m]
    {
      LiftPrefix(t, m);
      LiftPrefix(t, b);
      LiftEndsWith(t[..m], t[..b]);
      assert Border(t, b, m);
    }
  }

  lemma LiftOccurs(t: seq<byte>, s: seq<byte>)
    ensures Occurs(Lift(t), Lift(s)) <==> Occurs(t, s)
  {
    forall e: nat | e <= |s|
      ensures OccursAt(Lift(t), Lift(s), e) <==> OccursAt(t, s, e)
    {
      LiftPrefix(s, e);
      LiftEndsWith(s[..e], t);
    }
  }

  /** What FeedSession says of bytes alone. */
  lemma SessionInBytes(t: seq<byte>, input: seq<byte>, n: nat)
    requires n <= |input|
    ensures Octets(Lift(input)[..n]) == input[..n]
    ensures Occurs(Lift(t), Lift(input)[..n]) <==> Occurs(t, input[..n])
    ensures n > 0 ==> (Occurs(Lift(t), Lift(input)[..n - 1]) <==> Occurs(t, input[..n - 1]))
    ensures Occurs(Lift(t), Lift(input)) <==> Occurs(t, input)
  {
    LiftPrefix(input, n);
    LiftOccurs(t, input[..n]);
    if n > 0 {
      LiftPrefix(input, n - 1);
      LiftOccurs(t, input[..n - 1]);
    }
    LiftOccurs(t, input);
  }

  type Pattern = t: seq<byte> | t != [] witness [43]

  const SIZE_MAX := 0xFFFF_FFFF
  const EAGAIN := 11

  class DataMode {
    const t: Pattern                                   // CONFIG_SM_DATAMODE_TERMINATOR
    const ring: RingBuffer                             // data_rb
    const handler: Handler                             // the environment
    var calls: nat

    var mode: Mode
    var handlerSet: bool
    var handlerResult: int
    var dataLen: nat
    var quitStrMatch: nat
    var nullMatchCount: nat
    var scheduled: bool                                // raw_send_scheduled_work is pending

    ghost var log: seq<SessionEvent>
    // The current session: its declared length, all bytes received in data mode, all bytes
    // written to the ring buffer, and all handler calls.
    ghost var declared: nat
    ghost var received: seq<byte>
    ghost var written: seq<byte>
    ghost var sent: Calls
    // What the two matchers have seen: bytes and runs of raw_send_scheduled since entry, and bytes
    // since null mode was entered.
    ghost var events: seq<Symbol>
    ghost var nullSeen: seq<byte>
    ghost var aborted: bool                            // the session was ended from outside

    /** Mode, handler, result and log agree. */
    ghost predicate Control()
      reads this
    {
      && (handlerSet <==> mode == Data)
      && (handlerResult != 0 ==> mode == Null)
      && PhaseAfter(log) == PhaseOf(mode)
    }

    /** Data mode is left for null mode exactly when sending fails, or from outside. */
    ghost predicate Told()
      reads this
    {
      && (mode == Data ==> !sent.failed && !aborted)
      && (mode == Null ==> aborted || (sent.failed && handlerResult != 0))
      && (Generous(handler) ==> !sent.failed)
    }

    /** What holds between any two statements, also inside raw_send and write_data_buf. */
    ghost predicate Core()
      reads this, ring, ring.data
    {
      && ring.Valid() && Control() && Told()
      && sent.taken <= written
      && (mode == Data ==> written == sent.taken + ring.Contents())
    }

    /** Outside of raw_send the last offer was not turned down. */
    ghost predicate Inv()
      reads this, ring, ring.data
    {
      Core() && (mode == Data ==> !LastWasZero(sent.calls))
    }

    /** What holds whenever the context is at rest. */
    ghost predicate Valid()
      reads this, ring, ring.data
    {
      && Inv()
      && quitStrMatch < |t| && nullMatchCount < |t|
      && nullMatchCount == NullMatch(t, nullSeen) && (mode != Null ==> nullSeen == [])
      && (mode == AtCommand ==> ring.Contents() == [] && dataLen == 0 && quitStrMatch == 0)
      && (mode != AtCommand ==> written + t[..quitStrMatch] == received)
      && (mode != AtCommand && declared == 0 ==> quitStrMatch == DataMatch(Lift(t), events))
      && (mode != AtCommand && declared > 0 ==> quitStrMatch == 0)
      && (mode == Data && declared == 0 ==> dataLen == 0)
      && (mode == Data && declared > 0 ==> dataLen > 0 && dataLen + |received| == declared)
    }

    constructor (t: Pattern, ring: RingBuffer, handler: Handler)
      requires ring.Valid() && ring.Contents() == []
      ensures Valid() && mode == AtCommand && log == []
      ensures this.t == t && this.ring == ring && this.handler == handler
    {
      this.t, this.ring, this.handler := t, ring, handler;
      calls, mode, handlerSet, handlerResult, dataLen := 0, AtCommand, false, 0, 0;
      quitStrMatch, nullMatchCount, scheduled := 0, 0, false;
      log, declared, received, written, sent, events, nullSeen := [], 0, [], [], NO_CALLS, [], [];
      aborted := false;
    }

    /** set_sm_mode: which changes of mode are allowed. */
    static predicate ModeChange(from: Mode, to: Mode)
    {
      match from
      case AtCommand => to == Data
      case Data => to == Null || to == AtCommand
      case Null => to == AtCommand || to == Null
    }

    /** enter_datamode with a handler: refused unless the context is in AT command mode. */
    method Enter(len: nat) returns (ok: bool)
      requires Valid()
      modifies this, ring
      ensures Valid()
      ensures ok <==> old(mode) == AtCommand
      ensures ok ==> mode == Data && declared == len && received == written == [] && sent == NO_CALLS && events == []
      ensures ok ==> ring.head == 0
      ensures !ok ==> aborted == old(aborted)
      ensures log == if ok then old(log) + [Entered] else old(log)
      ensures !ok ==> mode == old(mode) && received == old(received) && written == old(written) && sent == old(sent)
    {
      ok := !handlerSet && ModeChange(mode, Data);
      if ok {
        OpenSession(len);
      }
    }

    ghost method ClearRecords(len: nat)
      modifies this`declared, this`received, this`written, this`sent, this`events, this`log, this`aborted
      ensures !aborted && sent == NO_CALLS
      ensures declared == len && received == written == [] && events == []
      ensures DataMatch(Lift(t), events) == 0 && written + t[..0] == received
      ensures log == old(log) + [Entered] && (PhaseAfter(old(log)) == Idle ==> PhaseAfter(log) == Open)
    {
      declared, received, written, sent, events, aborted := len, [], [], NO_CALLS, [], false;
      PhaseStep(log, Entered);
      log := log + [Entered];
    }

    method SetMode(len: nat)
      modifies this`mode, this`handlerSet, this`dataLen
      ensures mode == Data && handlerSet && dataLen == len
    {
      mode := Data;
      handlerSet, dataLen := true, len;
    }

    method OpenSession(len: nat)
      requires Valid() && mode == AtCommand
      modifies this, ring
      ensures Valid() && mode == Data && log == old(log) + [Entered]
      ensures declared == len && received == written == [] && sent == NO_CALLS && events == [] && ring.head == 0
    {
      ring.Reset();
      ClearRecords(len);
      SetMode(len);
    }

    /** exit_datamode_handler: leave for null mode. Called a second time it changes only the
        result, and the handler hears nothing. */
    method ExitDatamodeHandler(result: int)
      requires Control()
      modifies this`mode, this`handlerSet, this`handlerResult, this`dataLen, this`log
      ensures Control()
      ensures mode == if old(mode) == AtCommand then AtCommand else Null
      ensures old(mode) != AtCommand ==> handlerResult == result && dataLen == 0
      ensures old(mode) == AtCommand ==> dataLen == old(dataLen)
      ensures log == if old(mode) == Data then old(log) + [ExitDelivered] else old(log)
    {
      if ModeChange(mode, Null) {
        mode := Null;
        if handlerSet {
          PhaseStep(log, ExitDelivered);
          log := log + [ExitDelivered];
        }
        handlerSet, handlerResult, dataLen := false, result, 0;
      }
    }

    /** exit_datamode: back to AT command mode, whatever is left in the ring is dropped. */
    method ExitDatamode()
      requires Inv()
      modifies this`mode, this`handlerSet, this`handlerResult, this`dataLen, this`log, this`quitStrMatch, ring
      ensures Inv() && mode == AtCommand
      ensures old(mode) == AtCommand ==> log == old(log) && unchanged(this, ring)
      ensures old(mode) != AtCommand ==> ring.Contents() == [] && dataLen == 0 && quitStrMatch == 0
      ensures old(mode) == Data ==> log == old(log) + [ExitDelivered, Announced(0)]
      ensures old(mode) == Null ==> log == old(log) + [Announced(if old(handlerResult) != 0 then -1 else 0)]
    {
      if ModeChange(mode, AtCommand) {
        mode := AtCommand;
        if handlerSet {
          PhaseStep(log, ExitDelivered);
          log := log + [ExitDelivered];
        }
        handlerSet, dataLen, quitStrMatch := false, 0, 0;
        ring.Reset();
        if handlerResult != 0 {
          handlerResult := -1;
        }
        PhaseStep(log, Announced(handlerResult));
        log := log + [Announced(handlerResult)];
        handlerResult := 0;
      }
    }

    /** One call of the handler with DATAMODE_SEND. */
    method CallHandler(data: seq<byte>, more: bool) returns (ret: int)
      requires Core() && mode == Data && data <= ring.Contents()
      modifies this`mode, this`handlerSet, this`handlerResult, this`dataLen, this`log, this`calls, this`sent
      ensures ret == handler(old(calls), data, more).ret <= |data| && calls == old(calls) + 1
      ensures sent.calls == old(sent.calls) + [Call(data, more, ret, handler(old(calls), data, more).exit)]
      ensures sent.taken == old(sent.taken) + (if ret > 0 then data[..ret] else [])
      ensures sent.failed <==> mode == Null || ret < 0 || (ret == 0 && old(LastWasZero(sent.calls)))
      ensures Generous(handler) && data != [] ==> ret > 0 && mode == Data
      ensures mode == if handler(old(calls), data, more).exit.ExitWith? then Null else Data
      ensures mode == Null ==> handlerResult == handler(old(calls), data, more).exit.result != 0 && dataLen == 0
      ensures log == if mode == Null then old(log) + [ExitDelivered] else old(log)
      ensures mode == Data ==> dataLen == old(dataLen)
      ensures Control()
    {
      var reply := handler(calls, data, more);
      calls := calls + 1;
      if reply.exit.ExitWith? {
        ExitDatamodeHandler(reply.exit.result);
      }
      ret := reply.ret;
      Remember(Call(data, more, ret, reply.exit));
    }

    ghost method Remember(s: Send)
      modifies this`sent
      ensures sent.calls == old(sent.calls) + [s]
      ensures sent.taken == old(sent.taken) + (if s.ret > 0 then s.data[..s.ret] else [])
      ensures sent.failed <==>
              old(sent.failed) || s.ret < 0 || s.exit.ExitWith? || (s.ret == 0 && old(LastWasZero(sent.calls)))
    {
      sent := OneMore(sent, s);
    }

    twostate predicate SameSession()
      reads this
    {
      mode == old(mode) && log == old(log) && dataLen == old(dataLen) && handlerResult == old(handlerResult)
    }

    /** Sending failed: the handler has had its exit, and the context is in null mode. */
    twostate predicate HandlerGone()
      reads this
    {
      && old(mode) == Data && mode == Null && log == old(log) + [ExitDelivered]
      && dataLen == 0 && handlerResult != 0
    }

    /** One turn of raw_send on a non-empty ring: the handler is offered the bytes up to the wrap, and
        what it takes is freed. */
    method SendClaim(retry: bool, flag: bool) returns (again: bool)
      requires Core() && ring.count > 0 && (mode == Data ==> (retry <==> !LastWasZero(sent.calls)))
      modifies this`mode, this`handlerSet, this`handlerResult, this`dataLen, this`log, this`calls, this`sent, ring
      ensures Core() && (mode == Data ==> (again <==> !LastWasZero(sent.calls)))
      ensures SameSession() || HandlerGone()
      ensures old(sent.taken) <= sent.taken
      ensures ring.count < old(ring.count) || (ring.count == old(ring.count) && retry && !again)
      ensures mode == Data ==> (again <==> ring.count < old(ring.count))
      ensures old(mode) == Data ==> Offered(flag)
      ensures old(mode) != Data ==> sent == old(sent)
    {
      again := retry;
      var claim := ring.Claim();
      if handlerSet {
        var freed;
        freed, again := OfferClaim(claim, retry, flag);
        ring.Finish(freed);
      } else {
        ring.Finish(|claim|);
      }
    }

    /** One more call: all bytes up to the wrap, flagged if the caller says so or others follow. */
    twostate predicate Offered(flag: bool)
      requires old(ring.Valid())
      reads this, ring, ring.data
    {
      var all, upToWrap := old(ring.Contents()), old(ring.data.Length - ring.head);
      && |sent.calls| == |old(sent.calls)| + 1 && sent.calls[..|old(sent.calls)|] == old(sent.calls)
      && var offer := sent.calls[|old(sent.calls)|];
        && offer.data == all[..if |all| <= upToWrap then |all| else upToWrap]
        && (offer.more <==> flag || |all| > upToWrap)
    }

    /** The handler's answer to a claim: how many bytes may be freed. After a failure that is all of
        them. */
    method OfferClaim(claim: seq<byte>, retry: bool, flag: bool) returns (freed: nat, again: bool)
      requires Core() && handlerSet && 0 < |claim| <= ring.count && claim == ring.Contents()[..|claim|]
      requires retry <==> !LastWasZero(sent.calls)
      modifies this`mode, this`handlerSet, this`handlerResult, this`dataLen, this`log, this`calls, this`sent
      ensures ring.Valid() && Control() && Told() && freed <= |claim| && (freed == 0 ==> retry && !again)
      ensures SameSession() || HandlerGone()
      ensures HandlerGone() <==> sent.failed
      ensures |sent.calls| == |old(sent.calls)| + 1 && sent.calls[..|old(sent.calls)|] == old(sent.calls)
      ensures
        var offer := sent.calls[|old(sent.calls)|];
        offer.data == claim && (offer.more <==> flag || |claim| != ring.count)
      ensures old(sent.taken) <= sent.taken <= written
      ensures mode == Data ==> written == sent.taken + ring.Contents()[freed..]
      ensures mode == Data ==> (again <==> !LastWasZero(sent.calls)) && (again <==> freed > 0)
    {
      ghost var before := ring.Contents();
      var ret := CallHandler(claim, flag || |claim| != ring.count);
      Accepted(old(sent.taken), before, claim, if ret > 0 then ret else 0);
      if ret < 0 || (ret == 0 && !retry) {
        ExitDatamodeHandler(if ret < 0 then ret else -EAGAIN);
        return |claim|, retry;
      }
      freed, again := ret, ret != 0;
    }

    /** raw_send: hand the ring's bytes to the handler until the ring is empty. The session goes on
        exactly unless a call fails. */
    method RawSend(flag: bool)
      requires Inv()
      modifies this`mode, this`handlerSet, this`handlerResult, this`dataLen, this`log, this`calls, this`sent, ring
      ensures Inv() && ring.Contents() == []
      ensures SameSession() || HandlerGone()
      ensures old(mode) == Data ==> (HandlerGone() <==> sent.failed)
      ensures old(mode) != Data ==> sent == old(sent)
      ensures old(sent.taken) <= sent.taken
      ensures mode == Data ==> sent.taken == written
    {
      var retry := true;
      while ring.count > 0
        invariant Core() && (mode == Data ==> (retry <==> !LastWasZero(sent.calls)))
        invariant SameSession() || HandlerGone()
        invariant old(sent.taken) <= sent.taken
        invariant old(mode) != Data ==> sent == old(sent)
        invariant mode == Data && LastWasZero(sent.calls) ==> ring.count > 0
        decreases ring.count, retry
      {
        retry := SendClaim(retry, flag);
      }
    }

    /** One turn of write_data_buf: put what fits, or send when nothing does. */
    method PutOrSend(buf: seq<byte>, index: nat, ghost base: seq<byte>) returns (n: nat)
      requires Inv() && index < |buf| && written == base + buf[..index]
      modifies this`mode, this`handlerSet, this`handlerResult, this`dataLen, this`log, this`calls, this`sent,
               this`written, ring, ring.data
      ensures Inv() && index + n <= |buf| && written == base + buf[..index + n]
      ensures n == if |buf| - index <= old(Room()) then |buf| - index else old(Room())
      ensures n > 0 ==> sent == old(sent) && SameSession() && ring.head == old(ring.head)
      ensures n > 0 ==> ring.count == old(ring.count) + n
      ensures n == 0 ==> ring.count == 0 < old(ring.count)
      ensures SameSession() || HandlerGone()
      ensures old(sent.taken) <= sent.taken
    {
      n := PutSome(buf, index, base);
      if n == 0 {
        RawSend(true);
      }
    }

    method PutSome(buf: seq<byte>, index: nat, ghost base: seq<byte>) returns (n: nat)
      requires Inv() && index < |buf| && written == base + buf[..index]
      modifies this`written, ring, ring.data
      ensures Inv() && index + n <= |buf| && written == base + buf[..index + n]
      ensures n == if |buf| - index <= old(Room()) then |buf| - index else old(Room())
      ensures ring.head == old(ring.head) && ring.count == old(ring.count) + n
    {
      n := ring.Put(buf[index..]);
      Onward(base, buf, index, n);
      written := written + buf[index..][..n];
    }

    /** Free space in the ring. */
    function Room(): nat
      requires ring.Valid()
      reads ring
    {
      ring.data.Length - ring.count
    }

    /** write_data_buf: every byte goes into the ring, sending whenever it is full, and only then. An
        empty ring starts at the front of its memory, so that its bytes can go out in one piece. */
    method WriteDataBuf(buf: seq<byte>)
      requires Inv()
      modifies this`mode, this`handlerSet, this`handlerResult, this`dataLen, this`log, this`calls, this`sent,
               this`written, ring, ring.data
      ensures Inv()
      ensures SameSession() || HandlerGone()
      ensures written == old(written) + buf
      ensures old(sent.taken) <= sent.taken
      ensures |buf| <= old(Room()) ==> sent == old(sent) && SameSession() && ring.count == old(ring.count) + |buf|
      ensures |buf| <= old(Room()) ==> ring.head == if old(ring.count) == 0 then 0 else old(ring.head)
      ensures buf != [] ==> ring.count > 0
    {
      if ring.count == 0 {
        ring.Reset();
      }
      ghost var head := ring.head;
      var index := 0;
      while index < |buf|
        invariant 0 <= index <= |buf| && Inv()
        invariant SameSession() || HandlerGone()
        invariant written == old(written) + buf[..index]
        invariant old(sent.taken) <= sent.taken
        invariant |buf| <= old(Room()) ==> sent == old(sent) && SameSession() && ring.head == head
        invariant |buf| <= old(Room()) ==> ring.count == old(ring.count) + index
        invariant index == |buf| > 0 ==> ring.count > 0
        decreases |buf| - index, ring.count
      {
        var n := PutOrSend(buf, index, old(written));
        index := index + n;
      }
    }

    /** What looked like a terminator was data after all. */
    method FlushMatch()
      requires Inv() && quitStrMatch < |t|
      modifies this`mode, this`handlerSet, this`handlerResult, this`dataLen, this`log, this`calls, this`sent,
               this`written, this`quitStrMatch, ring, ring.data
      ensures Inv() && quitStrMatch == 0
      ensures SameSession() || HandlerGone()
      ensures written == old(written) + t[..old(quitStrMatch)]
      ensures old(sent.taken) <= sent.taken
      ensures old(quitStrMatch) <= old(Room()) ==>
                sent == old(sent) && SameSession() && ring.count == old(ring.count) + old(quitStrMatch)
    {
      WriteDataBuf(t[..quitStrMatch]);
      quitStrMatch := 0;
    }

    /** raw_send_scheduled: on inactivity a partial terminator is data after all, and everything is
        sent. */
    method RawSendScheduled()
      requires Valid()
      modifies this, ring, ring.data
      ensures Valid() && ring.Contents() == []
      ensures SameSession() || HandlerGone()
      ensures quitStrMatch == 0 && received == old(received) && declared == old(declared) && aborted == old(aborted)
      ensures mode != AtCommand ==> written == received
      ensures mode == Data ==> sent.taken == received
      ensures events == old(events) + [Pause] && nullSeen == old(nullSeen)
    {
      NotePause();
      FlushAndSend();
    }

    ghost method NotePause()
      requires mode != AtCommand && declared == 0 ==> DataMatch(Lift(t), events) < |t|
      modifies this`events
      ensures events == old(events) + [Pause]
      ensures mode != AtCommand && declared == 0 ==> DataMatch(Lift(t), events) == 0
    {
      if mode != AtCommand && declared == 0 {
        LiftNext(t, events, Pause);
      }
      events := events + [Pause];
    }

    method FlushAndSend()
      requires Inv() && quitStrMatch < |t|
      modifies this`mode, this`handlerSet, this`handlerResult, this`dataLen, this`log, this`calls, this`sent,
               this`written, this`quitStrMatch, ring, ring.data
      ensures Inv() && quitStrMatch == 0 && ring.Contents() == []
      ensures SameSession() || HandlerGone()
      ensures old(mode) == Data ==> (HandlerGone() <==> sent.failed)
      ensures written == old(written) + t[..old(quitStrMatch)] == written + t[..0]
      ensures mode == Data ==> sent.taken == written
    {
      if quitStrMatch > 0 {
        FlushMatch();
      }
      RawSend(false);
    }

    /** raw_send and then exit_datamode: how a session ends from inside raw_rx_handler. */
    method SendAndExit()
      requires Inv() && mode != AtCommand
      modifies this`mode, this`handlerSet, this`handlerResult, this`dataLen, this`log, this`calls, this`sent,
               this`quitStrMatch, ring
      ensures Inv() && mode == AtCommand
      ensures ring.Contents() == [] && dataLen == 0 && quitStrMatch == 0
      ensures old(mode) == Data ==> LeftAndAnnounced()
      ensures old(mode) == Null ==> log == old(log) + [Announced(if old(handlerResult) != 0 then -1 else 0)]
      ensures old(sent.taken) <= sent.taken
    {
      RawSend(false);
      ExitDatamode();
    }

    /** raw_rx_handler when a length was declared: no search, exit on the last byte. */
    method ReceiveDeclared(c: byte)
      requires Valid() && mode == Data && declared > 0
      modifies this, ring, ring.data
      ensures Valid()
      ensures received == old(received) + [c] && written == received && declared == old(declared)
      ensures scheduled == old(scheduled)
      ensures mode == AtCommand ==> |received| == declared
      ensures |received| == declared ==> mode != Data
      ensures old(sent.taken) <= sent.taken <= written
      ensures Progressed()
      ensures !sent.failed ==> (mode == AtCommand <==> |received| == declared)
    {
      received := received + [c];
      WriteAndCount(c);
    }

    method WriteAndCount(c: byte)
      requires Inv() && mode == Data && dataLen > 0
      modifies this`mode, this`handlerSet, this`handlerResult, this`dataLen, this`log, this`calls, this`sent,
               this`written, this`quitStrMatch, ring, ring.data
      ensures Inv() && written == old(written) + [c] && old(sent.taken) <= sent.taken
      ensures mode == AtCommand ==> old(dataLen) == 1 && LeftAndAnnounced()
      ensures mode == AtCommand ==> ring.Contents() == [] && dataLen == 0 && quitStrMatch == 0
      ensures mode == Data ==> dataLen == old(dataLen) - 1 > 0 && log == old(log)
      ensures mode == Null ==> log == old(log) + [ExitDelivered]
      ensures mode != AtCommand ==> quitStrMatch == old(quitStrMatch)
    {
      WriteDataBuf([c]);
      Countdown();
    }

    /** One declared byte less. A failed send has cleared the length; decrementing it then wraps
        around. */
    method Countdown()
      requires Inv() && ((mode == Data && dataLen > 0) || (mode == Null && dataLen == 0))
      modifies this`mode, this`handlerSet, this`handlerResult, this`dataLen, this`log, this`calls, this`sent,
               this`quitStrMatch, ring
      ensures Inv() && old(sent.taken) <= sent.taken
      ensures old(mode) == Data && old(dataLen) == 1 ==> mode == AtCommand && LeftAndAnnounced()
      ensures mode == AtCommand ==> ring.Contents() == [] && dataLen == 0 && quitStrMatch == 0
      ensures old(mode) == Data && old(dataLen) > 1 ==> mode == Data && dataLen == old(dataLen) - 1
      ensures old(mode) == Null ==> mode == Null
      ensures mode != AtCommand ==> quitStrMatch == old(quitStrMatch) && log == old(log)
    {
      dataLen := if dataLen == 0 then SIZE_MAX else dataLen - 1;
      if dataLen == 0 {
        SendAndExit();
      }
    }

    /** The session goes on, has failed, or is over. */
    twostate predicate Progressed()
      reads this
    {
      !aborted &&
      match mode
      case Data => log == old(log) && !sent.failed
      case Null => log == old(log) + [ExitDelivered] && sent.failed
      case AtCommand => LeftAndAnnounced()
    }

    /** The session is over: the exit was delivered once, and #XDATAMODE says 0 exactly if no call
        failed; then the handler has accepted every byte that was written. */
    twostate predicate LeftAndAnnounced()
      reads this
    {
      if sent.failed then log == old(log) + [ExitDelivered, Announced(-1)]
      else log == old(log) + [ExitDelivered, Announced(0)] && sent.taken == written
    }

    /** The part of raw_rx_handler after retry_match, where c either continues the match or
        there is none to continue. */
    method MatchByte(c: byte)
      requires Inv() && mode != AtCommand && quitStrMatch < |t| && (c == t[quitStrMatch] || quitStrMatch == 0)
      modifies this`mode, this`handlerSet, this`handlerResult, this`dataLen, this`log, this`calls, this`sent,
               this`written, this`quitStrMatch, ring, ring.data
      ensures Inv() && quitStrMatch < |t|
      ensures mode == AtCommand <==> c == t[old(quitStrMatch)] && old(quitStrMatch) + 1 == |t|
      ensures mode == AtCommand ==>
                written == old(written) && ring.Contents() == [] && dataLen == 0 && quitStrMatch == 0
      ensures mode == AtCommand && old(mode) == Data ==> LeftAndAnnounced()
      ensures mode == AtCommand && old(mode) == Null && old(handlerResult) != 0 ==> log == old(log) + [Announced(-1)]
      ensures mode != AtCommand ==>
                (SameSession() || HandlerGone()) &&
                written + t[..quitStrMatch] == old(written) + t[..old(quitStrMatch)] + [c]
      ensures mode != AtCommand ==> quitStrMatch == if c == t[old(quitStrMatch)] then old(quitStrMatch) + 1 else 0
      ensures mode != AtCommand && 0 < old(Room()) ==> mode == old(mode) && sent == old(sent)
      ensures old(sent.taken) <= sent.taken
    {
      if c == t[quitStrMatch] {
        quitStrMatch := quitStrMatch + 1;
        if quitStrMatch == |t| {
          SendAndExit();
        }
      } else {
        WriteDataBuf([c]);
      }
    }

    /** raw_rx_handler when searching for the terminator. */
    method ReceiveSearching(c: byte)
      requires Valid() && mode == Data && declared == 0
      modifies this, ring, ring.data
      ensures Valid()
      ensures received == old(received) + [c] && declared == 0 && scheduled == old(scheduled)
      ensures events == old(events) + [Octet(c)]
      ensures mode == AtCommand <==> DataMatch(Lift(t), events) == |t|
      ensures mode == AtCommand ==> received == written + t
      ensures old(sent.taken) <= sent.taken <= written
      ensures Progressed()
      ensures mode != AtCommand && |t| <= old(Room()) ==> mode == Data && sent == old(sent)
    {
      NoteOctet(c);
      SearchByte(c);
    }

    ghost method NoteOctet(c: byte)
      requires quitStrMatch < |t| && quitStrMatch == DataMatch(Lift(t), events)
      modifies this`events, this`received
      ensures received == old(received) + [c] && events == old(events) + [Octet(c)]
      ensures DataMatch(Lift(t), events) == DataNext(t, quitStrMatch, c)
    {
      LiftNext(t, events, Octet(c));
      received, events := received + [c], events + [Octet(c)];
    }

    /** A byte that does not continue a match ends it first. */
    method SearchByte(c: byte)
      requires Inv() && mode == Data && quitStrMatch < |t|
      modifies this`mode, this`handlerSet, this`handlerResult, this`dataLen, this`log, this`calls, this`sent,
               this`written, this`quitStrMatch, ring, ring.data
      ensures Inv() && quitStrMatch < |t| && old(sent.taken) <= sent.taken
      ensures mode == AtCommand <==> DataNext(t, old(quitStrMatch), c) == |t|
      ensures mode == AtCommand ==> written + t == old(written) + t[..old(quitStrMatch)] + [c] && LeftAndAnnounced()
      ensures mode == AtCommand ==> ring.Contents() == [] && dataLen == 0 && quitStrMatch == 0
      ensures mode != AtCommand ==> quitStrMatch == DataNext(t, old(quitStrMatch), c)
      ensures mode != AtCommand ==> written + t[..quitStrMatch] == old(written) + t[..old(quitStrMatch)] + [c]
      ensures mode == Data ==> log == old(log) && dataLen == old(dataLen)
      ensures mode == Null ==> log == old(log) + [ExitDelivered]
      ensures mode != AtCommand && |t| <= old(Room()) ==> mode == Data && sent == old(sent)
    {
      if c != t[quitStrMatch] && quitStrMatch > 0 {
        FlushMatch();
      }
      MatchByte(c);
    }

    /** null_handler: drop everything up to the terminator. */
    method ReceiveNull(c: byte)
      requires Valid() && mode == Null
      modifies this, ring
      ensures Valid()
      ensures mode == if NullMatch(t, old(nullSeen) + [c]) == |t| then AtCommand else Null
      ensures mode == Null ==> nullSeen == old(nullSeen) + [c] && log == old(log) && handlerResult == old(handlerResult)
      ensures mode == AtCommand ==> log == old(log) + [Announced(if old(handlerResult) != 0 then -1 else 0)]
      ensures sent == old(sent) && written == old(written) && received == old(received)
      ensures scheduled == old(scheduled)
    {
      NullCompare(c);
      if nullMatchCount == |t| {
        LeaveNull();
      }
    }

    method NullCompare(c: byte)
      requires nullMatchCount < |t| && nullMatchCount == NullMatch(t, nullSeen)
      modifies this`nullMatchCount, this`nullSeen
      ensures nullSeen == old(nullSeen) + [c] && nullMatchCount == NullMatch(t, nullSeen) <= |t|
    {
      NullMatchStep(t, nullSeen, c);
      nullSeen := nullSeen + [c];
      if c == t[nullMatchCount] {
        nullMatchCount := nullMatchCount + 1;
      } else {
        nullMatchCount := 0;
      }
    }

    /** The terminator was found in null mode. */
    method LeaveNull()
      requires Inv() && mode == Null
      modifies this`mode, this`handlerSet, this`handlerResult, this`dataLen, this`log, this`quitStrMatch,
               this`nullMatchCount, this`nullSeen, ring
      ensures Valid() && mode == AtCommand
      ensures log == old(log) + [Announced(if old(handlerResult) != 0 then -1 else 0)]
    {
      ExitDatamode();
      nullMatchCount := 0;
      nullSeen := [];
    }

    /** exit_datamode_handler called at rest, for example when the socket breaks. */
    method Abort(result: int)
      requires Valid()
      modifies this`mode, this`handlerSet, this`handlerResult, this`dataLen, this`log, this`aborted
      ensures Valid()
      ensures mode == if old(mode) == AtCommand then AtCommand else Null
      ensures log == if old(mode) == Data then old(log) + [ExitDelivered] else old(log)
      ensures mode == Null ==> handlerResult == result
    {
      aborted := mode != AtCommand;
      ExitDatamodeHandler(result);
    }

    /** A null mode session to its end: every byte is dropped up to the end of the first match. */
    method FeedNull(input: seq<byte>) returns (n: nat)
      requires Valid() && mode == Null
      modifies this, ring
      ensures Valid() && n <= |input| && sent == old(sent) && written == old(written) && received == old(received)
      ensures NoMatch(old(nullSeen), input, n)
      ensures mode == AtCommand ==> NullMatch(t, old(nullSeen) + input[..n]) == |t|
      ensures mode == AtCommand ==> log == old(log) + [Announced(if old(handlerResult) != 0 then -1 else 0)]
      ensures mode != AtCommand ==> mode == Null && n == |input| && log == old(log)
      ensures mode != AtCommand ==> NullMatch(t, old(nullSeen) + input[..n]) < |t|
    {
      n := 0;
      assert nullSeen + input[..0] == nullSeen;
      while n < |input| && mode == Null
        invariant n <= |input| && Valid() && mode != Data && NoMatch(old(nullSeen), input, n)
        invariant sent == old(sent) && written == old(written) && received == old(received)
        invariant if mode == Null then nullSeen == old(nullSeen) + input[..n] && log == old(log)
                                       && handlerResult == old(handlerResult)
                  else NullMatch(t, old(nullSeen) + input[..n]) == |t|
                       && log == old(log) + [Announced(if old(handlerResult) != 0 then -1 else 0)]
      {
        assert old(nullSeen) + input[..n + 1] == nullSeen + [input[n]];
        ReceiveNull(input[n]);
        n := n + 1;
      }
    }

    /** None of the first n inputs ends null mode. */
    ghost predicate NoMatch(seen: seq<byte>, input: seq<byte>, n: nat)
      requires n <= |input|
    {
      forall k :: 0 <= k < n ==> NullMatch(t, seen + input[..k]) < |t|
    }

    /** One byte or pause of a session. */
    method FeedOne(e: Symbol)
      requires Valid() && mode == Data && declared == 0 && NoForgottenMatch(t) && received == Octets(events)
      modifies this, ring, ring.data
      ensures Valid() && declared == 0 && events == old(events) + [e] && received == Octets(events)
      ensures FirstOccurrence() && Progressed()
    {
      LiftForgets(t);
      DataExactAt(Lift(t), events);
      DataExactAt(Lift(t), events + [e]);
      OctetsMore(events, e);
      assert (events + [e])[..|events|] == events;
      match e
      case Octet(c) => ReceiveSearching(c);
      case Pause =>
        LiftNext(t, events, Pause);
        RawSendScheduled();
    }

    /** Data mode goes on as long as the terminator has not been received in one go, and ends with
        the first time it has. */
    ghost predicate FirstOccurrence()
      reads this
    {
      && (mode == AtCommand ==>
        && events != [] && Occurs(Lift(t), events) && !Occurs(Lift(t), events[..|events| - 1])
        && written + t == received)
      && (mode == Data ==> !Occurs(Lift(t), events))
    }

    /** A whole session without a declared length, with raw_send_scheduled at any point. With a
        terminator that leaves no match forgotten, data mode ends with the last byte of the first
        occurrence that is not cut, and all that came before it has been written. If no call of the
        handler fails, all of it has been accepted and #XDATAMODE says 0; otherwise the session ends
        in null mode, or with -1. */
    method FeedSession(input: seq<Symbol>) returns (n: nat)
      requires Valid() && mode == Data && declared == 0 && received == [] && events == []
      requires NoForgottenMatch(t)
      modifies this, ring, ring.data
      ensures Valid() && n <= |input| && events == input[..n] && received == Octets(input[..n])
      ensures mode == AtCommand ==>
        n > 0 && Occurs(Lift(t), input[..n]) && !Occurs(Lift(t), input[..n - 1]) && written + t == received
      ensures mode == Data ==> n == |input| && !Occurs(Lift(t), input)
      ensures sent.taken <= written
      ensures Progressed()
      ensures Generous(handler) ==> mode != Null
      ensures Generous(handler) && mode == AtCommand ==>
        log == old(log) + [ExitDelivered, Announced(0)] && sent.taken == written
    {
      n := FeedAll(input);
      assert events == input[..n];
      if mode == AtCommand {
        assert input[..n - 1] == events[..n - 1];
      } else if mode == Data {
        assert input[..n] == input;
      }
    }

    method FeedAll(input: seq<Symbol>) returns (n: nat)
      requires Valid() && mode == Data && declared == 0 && received == [] && events == []
      requires NoForgottenMatch(t)
      modifies this, ring, ring.data
      ensures n <= |input| && SoFar(input, n) && Progressed()
      ensures mode == Data ==> n == |input|
    {
      n := 0;
      LiftForgets(t);
      DataExactAt(Lift(t), []);
      while n < |input| && mode == Data
        invariant n <= |input| && SoFar(input, n) && Progressed()
      {
        FeedNth(input, n);
        n := n + 1;
      }
    }

    /** The session has seen the first n inputs. */
    ghost predicate SoFar(input: seq<Symbol>, n: nat)
      requires n <= |input|
      reads this, ring, ring.data
    {
      Valid() && declared == 0 && events == input[..n] && received == Octets(events) && FirstOccurrence()
    }

    method FeedNth(input: seq<Symbol>, n: nat)
      requires n < |input| && SoFar(input, n) && mode == Data && NoForgottenMatch(t)
      modifies this, ring, ring.data
      ensures SoFar(input, n + 1) && Progressed()
    {
      FeedOne(input[n]);
      assert input[..n + 1] == input[..n] + [input[n]];
    }

    /** The same for a session without timeouts, in terms of bytes. */
    method FeedSearching(input: seq<byte>) returns (n: nat)
      requires Valid() && mode == Data && declared == 0 && received == [] && events == []
      requires NoForgottenMatch(t)
      modifies this, ring, ring.data
      ensures Valid() && n <= |input| && received == input[..n]
      ensures mode == AtCommand ==>
        n > 0 && Occurs(t, input[..n]) && !Occurs(t, input[..n - 1]) && written + t == input[..n]
      ensures mode == Data ==> n == |input| && !Occurs(t, input)
      ensures sent.taken <= written
      ensures Progressed() && (Generous(handler) ==> mode != Null)
    {
      n := FeedSession(Lift(input));
      SessionInBytes(t, input, n);
    }

    /** sm_at_receive; bytes in AT command mode go to the command line instead. */
    method ReceiveByte(c: byte)
      requires Valid()
      modifies this, ring, ring.data
      ensures Valid() && scheduled == old(scheduled)
      ensures old(mode) == AtCommand ==> mode == AtCommand && received == old(received) && log == old(log)
      ensures old(mode) == Null ==> mode == if NullMatch(t, old(nullSeen) + [c]) == |t| then AtCommand else Null
      ensures old(mode) == Null ==> received == old(received)
      ensures old(mode) == Data ==> received == old(received) + [c] && declared == old(declared) && Progressed()
      ensures old(mode) == Data && declared == 0 ==> events == old(events) + [Octet(c)]
      ensures old(mode) == Data && declared == 0 ==> (mode == AtCommand <==> DataMatch(Lift(t), events) == |t|)
      ensures old(mode) == Data && declared > 0 && !sent.failed ==> (mode == AtCommand <==> |received| == declared)
      ensures NoneEntered(old(log), log)
    {
      if mode == Data && dataLen > 0 {
        ReceiveDeclared(c);
      } else if mode == Data {
        ReceiveSearching(c);
      } else if mode == Null {
        ReceiveNull(c);
      }
    }

    /** inactivity_timer_handler: raw_send_scheduled is submitted if there is anything to send. */
    method InactivityTimer()
      requires Valid()
      modifies this`scheduled
      ensures Valid() && (scheduled <==> old(scheduled) || ring.count > 0)
    {
      if ring.count > 0 {
        scheduled := true;
      }
    }

    /** The work queue runs raw_send_scheduled if it has been submitted. */
    method RunScheduled()
      requires Valid()
      modifies this, ring, ring.data
      ensures Valid() && !scheduled && received == old(received)
      ensures SameSession() || HandlerGone()
      ensures old(scheduled) ==> ring.Contents() == [] && (mode == Data ==> sent.taken == received)
      ensures !old(scheduled) ==> mode == old(mode) && sent == old(sent)
    {
      if scheduled {
        RawSendScheduled();
        scheduled := false;
      }
    }

    /** Any event. */
    method Take(e: Event)
      requires Valid()
      modifies this, ring, ring.data
      ensures Valid() && ModeStep(old(mode), e, mode)
      ensures received == ReceivedNext(old(mode), e, old(received))
      ensures old(log) <= log
      ensures Entries(log) == Entries(old(log)) + if e.Start? && old(mode) == AtCommand then 1 else 0
    {
      if e.Start? {
        var ok := Enter(e.len);
        EntryMore(old(log), Entered);
      } else {
        TakeInSession(e);
        NoEntry(old(log), log);
      }
    }

    method TakeInSession(e: Event)
      requires Valid() && !e.Start?
      modifies this, ring, ring.data
      ensures Valid() && ModeStep(old(mode), e, mode)
      ensures received == ReceivedNext(old(mode), e, old(received)) && NoneEntered(old(log), log)
    {
      match e
      case Receive(c) => ReceiveByte(c);
      case Inactivity => InactivityTimer();
      case Scheduled => RunScheduled();
      case Break(err) => Abort(err);
    }

    /** Every run. `modes` are the modes between the events: every byte that comes in data mode is
        received by the session, every start in AT command mode enters one, and no event is passed
        over. */
    method Run(events: seq<Event>) returns (ghost modes: seq<Mode>)
      requires Valid()
      modifies this, ring, ring.data
      ensures Valid() && old(log) <= log
      ensures |modes| == |events| + 1 && modes[0] == old(mode) && modes[|events|] == mode
      ensures forall i :: 0 <= i < |events| ==> ModeStep(modes[i], events[i], modes[i + 1])
      ensures received == ReceivedAfter(modes, events, old(received))
      ensures Entries(log) == Entries(old(log)) + Starts(modes, events)
    {
      var i := 0;
      modes := [mode];
      while i < |events|
        invariant 0 <= i <= |events| && Valid() && old(log) <= log
        invariant |modes| == i + 1 && modes[0] == old(mode) && modes[i] == mode
        invariant forall k :: 0 <= k < i ==> ModeStep(modes[k], events[k], modes[k + 1])
        invariant received == ReceivedAfter(modes, events[..i], old(received))
        invariant Entries(log) == Entries(old(log)) + Starts(modes, events[..i])
      {
        ghost var before := modes;
        Take(events[i]);
        modes := modes + [mode];
        RunMore(before, mode, events, i, old(received));
        i := i + 1;
      }
      assert events[..|events|] == events;
    }
  }

  lemma RunMore(modes: seq<Mode>, next: Mode, events: seq<Event>, i: nat, first: seq<byte>)
    requires i < |events| && |modes| == i + 1
    ensures ReceivedAfter(modes + [next], events[..i + 1], first)
         == ReceivedNext(modes[i], events[i], ReceivedAfter(modes, events[..i], first))
    ensures Starts(modes + [next], events[..i + 1])
         == Starts(modes, events[..i]) + if events[i].Start? && modes[i] == AtCommand then 1 else 0
  {
    assert events[..i + 1][..i] == events[..i];
    SameModes(modes, modes + [next], events[..i], first);
  }

  lemma {:induction false} SameModes(a: seq<Mode>, b: seq<Mode>, events: seq<Event>, first: seq<byte>)
    requires |events| <= |a| <= |b| && forall k :: 0 <= k < |events| ==> a[k] == b[k]
    ensures ReceivedAfter(a, events, first) == ReceivedAfter(b, events, first)
    ensures Starts(a, events) == Starts(b, events)
  {
    if events == [] {
    } else {
      SameModes(a, b, events[..|events| - 1], first);
    }
  }

  /** What an event may do to the mode. */
  predicate ModeStep(m: Mode, e: Event, n: Mode)
  {
    match e
    case Receive(_) => m == n || m == Data || (m == Null && n == AtCommand)
    case Inactivity => m == n
    case Scheduled => m == n || (m == Data && n == Null)
    case Start(_) => n == if m == AtCommand then Data else m
    case Break(_) => n == if m == AtCommand then AtCommand else Null
  }

  /** The bytes of the session after one more event. */
  function ReceivedNext(m: Mode, e: Event, was: seq<byte>): seq<byte>
  {
    if e.Receive? && m == Data then was + [e.c]
    else if e.Start? && m == AtCommand then []
    else was
  }

  function ReceivedAfter(modes: seq<Mode>, events: seq<Event>, first: seq<byte>): seq<byte>
    requires |events| <= |modes|
  {
    if events == [] then first
    else
      var n := |events| - 1;
      ReceivedNext(modes[n], events[n], ReceivedAfter(modes, events[..n], first))
  }

  /** How many sessions are started. */
  function Starts(modes: seq<Mode>, events: seq<Event>): nat
    requires |events| <= |modes|
  {
    if events == [] then 0
    else
      var n := |events| - 1;
      Starts(modes, events[..n]) + if events[n].Start? && modes[n] == AtCommand then 1 else 0
  }

  /** How many sessions a log has. */
  function Entries(log: seq<SessionEvent>): nat
  {
    if log == [] then 0 else Entries(log[..|log| - 1]) + if log[|log| - 1].Entered? then 1 else 0
  }

  lemma EntryMore(log: seq<SessionEvent>, e: SessionEvent)
    ensures Entries(log + [e]) == Entries(log) + if e.Entered? then 1 else 0
  {
    assert (log + [e])[..|log|] == log;
  }

  /** No session is entered in between. */
  predicate NoneEntered(log: seq<SessionEvent>, more: seq<SessionEvent>)
  {
    log <= more && forall i :: |log| <= i < |more| ==> !more[i].Entered?
  }

  /** Exits and announcements are no entries. */
  lemma {:induction false} NoEntry(log: seq<SessionEvent>, more: seq<SessionEvent>)
    requires NoneEntered(log, more)
    ensures Entries(more) == Entries(log)
    decreases |more|
  {
    if |more| == |log| {
      assert more == log;
    } else {
      NoEntry(log, more[..|more| - 1]);
    }
  }

  /** A byte, the inactivity timer, the work that it submits, a command that enters data mode, and
      exit_datamode_handler from outside. */
  datatype Event = Receive(c: byte) | Inactivity | Scheduled | Start(len: nat) | Break(err: int)
}
