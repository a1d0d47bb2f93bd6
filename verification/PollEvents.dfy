/** Asynchronous socket events (#XAPOLL): event bits move between "polled for", "observed",
    "delayed while the channel is busy" and "reported". */
module PollEvents {

  /** The bits of an event field. A uint8_t of them is a set. */
  datatype Bit = In | Out | Err | Hup | Nval
  type Bits = set<Bit>

  const FATAL: Bits := {Err, Hup, Nval}

  /** What happens to one socket. */
  datatype Event =
    | Arm(bits: Bits)                 // the bits may be reported (again)
    | Urc(bits: Bits)                 // #XAPOLL with the bits
    | Busy(bits: Bits)                // the bits were observed while the channel was busy
    | Carry(bits: Bits)               // the poll was restarted for these bits

  // ---------------------------------------------------------------------------
  // Histories
  // ---------------------------------------------------------------------------

  /** The bits armed since they were last reported. */
  function ArmedAfter(h: seq<Event>): Bits
  {
    if h == [] then {}
    else
      var was, e := ArmedAfter(h[..|h| - 1]), h[|h| - 1];
      if e.Arm? then was + e.bits else if e.Urc? then was - e.bits else was
  }

  /** The bits observed while busy and not yet carried over. */
  function WaitingAfter(h: seq<Event>): Bits
  {
    if h == [] then {}
    else
      var was, e := WaitingAfter(h[..|h| - 1]), h[|h| - 1];
      if e.Busy? then was + e.bits else if e.Carry? then {} else was
  }

  /** Only armed bits are reported, and a restart covers everything that waits. */
  predicate Proper(h: seq<Event>)
  {
    h == [] ||
    var init, e := h[..|h| - 1], h[|h| - 1];
    && Proper(init)
    && (e.Urc? ==> e.bits <= ArmedAfter(init))
    && (e.Carry? ==> WaitingAfter(init) <= e.bits)
  }

  lemma {:induction false} ProperPrefix(h: seq<Event>, n: nat)
    requires Proper(h) && n <= |h|
    ensures Proper(h[..n])
  {
    if n < |h| {
      ProperPrefix(h[..|h| - 1], n);
      assert h[..|h| - 1][..n] == h[..n];
    } else {
      assert h[..n] == h;
    }
  }

  /** A bit that is armed after a URC carried it was armed in between. */
  lemma {:induction false} ArmedInBetween(h: seq<Event>, i: nat, bit: Bit)
    requires i < |h| && h[i].Urc? && bit in h[i].bits && bit in ArmedAfter(h)
    ensures exists k :: i < k < |h| && h[k].Arm? && bit in h[k].bits
  {
    var last := |h| - 1;
    if h[last].Arm? && bit in h[last].bits {
    } else {
      ArmedInBetween(h[..last], i, bit);
      var k :| i < k < last && h[..last][k].Arm? && bit in h[..last][k].bits;
      assert h[k].Arm? && bit in h[k].bits;
    }
  }

  /** Between two #XAPOLL notifications with the same bit the bit was armed again. */
  lemma UrcNeedsArm(h: seq<Event>, i: nat, j: nat, bit: Bit)
    requires Proper(h) && i < j < |h| && h[i].Urc? && h[j].Urc? && bit in h[i].bits && bit in h[j].bits
    ensures exists k :: i < k < j && h[k].Arm? && bit in h[k].bits
  {
    ProperPrefix(h, j + 1);
    assert h[..j + 1][..j] == h[..j];
    ArmedInBetween(h[..j], i, bit);
    var k :| i < k < j && h[..j][k].Arm? && bit in h[..j][k].bits;
    assert h[k].Arm? && bit in h[k].bits;
  }

  /** A bit observed while the channel was busy still waits, or the poll was restarted for it. */
  lemma {:induction false} BusyIsCarried(h: seq<Event>, i: nat, bit: Bit)
    requires Proper(h) && i < |h| && h[i].Busy? && bit in h[i].bits
    ensures bit in WaitingAfter(h) || exists k :: i < k < |h| && h[k].Carry? && bit in h[k].bits
  {
    var last := |h| - 1;
    if i == last {
    } else {
      var init := h[..last];
      BusyIsCarried(init, i, bit);
      if bit !in WaitingAfter(init) {
        var k :| i < k < last && init[k].Carry? && bit in init[k].bits;
        assert h[k].Carry? && bit in h[k].bits;
      } else if h[last].Carry? {
        assert bit in h[last].bits;
      }
    }
  }

  // ---------------------------------------------------------------------------
  // The socket
  // ---------------------------------------------------------------------------

  /** What the HTTP client does when it is told about events: it may request events or stop, and it
      may ask for POLLIN to be kept. */
  datatype Call = Request(bits: Bits) | StopAll
  datatype Http = Http(calls: seq<Call>, rearm: bool)

  /** The surroundings of one turn of the handler: the HTTP client, automatic reception, and the bits
      that poll_cb observes before the turn, during it (after the HTTP client has had its say) and
      after it. */
  datatype Turn = Turn(http: Http, received: bool, before: Bits, during: Bits, after: Bits)

  /** All bits that the first n calls request. */
  function AllRequested(calls: seq<Call>, n: nat): Bits
    requires n <= |calls|
  {
    if n == 0 then {}
    else AllRequested(calls, n - 1) + (match calls[n - 1] case Request(b) => b case StopAll => {})
  }

  /** The client requests nothing. */
  predicate Quiet(http: Http)
  {
    !http.rearm && forall i :: 0 <= i < |http.calls| ==> http.calls[i].StopAll?
  }

  /** What the HTTP client arms in answer to a report. */
  function Requested(reported: Bits, disable: bool, http: Http): Bits
  {
    if reported == {} || disable then {} else AllRequested(http.calls, |http.calls|)
  }

  /** The observed bits that polling goes on without, unless automatic reception brings POLLIN
      back. */
  function Removed(r: Bits, received: bool): Bits
  {
    r * if received then {Out} else {In, Out}
  }

  class Socket {
    var events: Bits                  // bits to poll for
    var revents: Bits                 // bits observed and not yet looked at
    var delayed: Bits                 // delayed_revents
    var xapoll: Bits                  // xapoll_events
    var requested: Bits               // xapoll_events_requested
    var disable: bool
    var polled: Bits                  // what SO_POLLCB is set to; {} once it has fired
    const answers: nat -> int         // the results of set_so_poll_cb, one after the other
    var tries: nat
    ghost var history: seq<Event>

    ghost predicate Valid()
      reads this`history, this`xapoll, this`delayed
    {
      Proper(history) && xapoll == ArmedAfter(history) && delayed == WaitingAfter(history)
    }

    /** The last attempt to set the poll has failed. */
    predicate Failed()
      reads this`tries
    {
      tries > 0 && answers(tries - 1) != 0
    }

    /** The socket is being polled for what is wanted, unless events are still to be looked at, a
        fatal event has ended polling, or the poll could not be set. */
    ghost predicate Watched()
      reads this
    {
      disable || Failed() || polled == events || revents != {} || delayed != {}
    }

    /** Every bit that may be reported is polled for, or was observed and waits. */
    predicate Covered()
      reads this`xapoll, this`events, this`delayed, this`revents
    {
      xapoll <= events + delayed + revents
    }

    /** The bits that may be reported and are neither polled for nor set aside. */
    function Missing(): Bits
      reads this`xapoll, this`events, this`delayed
    {
      xapoll - (events + delayed)
    }

    predicate PolledFor()
      reads this`xapoll, this`events, this`delayed
    {
      Missing() == {}
    }

    lemma CoveredIff()
      ensures Covered() <==> Missing() <= revents
    {
    }

    constructor (answers: nat -> int)
      ensures Valid() && Watched() && Covered() && tries == 0 && this.answers == answers
      ensures events == {} && revents == {} && delayed == {} && xapoll == {} && requested == {} && !disable
      ensures polled == {}
    {
      events, revents, delayed, xapoll, requested, disable, polled, history := {}, {}, {}, {}, {}, false, {}, [];
      this.answers, tries := answers, 0;
    }

    /** No bit has been armed since. */
    twostate predicate Unarmed()
      reads this
    {
      && old(history) <= history
      && forall k :: |old(history)| <= k < |history| && history[k].Arm? ==> history[k].bits == {}
    }

    /** The bits that the handler would drop on this turn. */
    ghost function WouldForget(idle: bool, t: Turn): Bits
      reads this
    {
      var r := revents + t.before;
      if idle && delayed == {} then Forgotten(r, r * xapoll, disable, t.http, t.received) else {}
    }

    /** Something to remember. */
    ghost method Note(e: Event)
      requires Proper(history)
      requires e.Urc? ==> e.bits <= ArmedAfter(history)
      requires e.Carry? ==> WaitingAfter(history) <= e.bits
      modifies this`history
      ensures Proper(history) && history == old(history) + [e]
      ensures ArmedAfter(history) == (if e.Arm? then old(ArmedAfter(history)) + e.bits
                                      else if e.Urc? then old(ArmedAfter(history)) - e.bits
                                      else old(ArmedAfter(history)))
      ensures WaitingAfter(history) == (if e.Busy? then old(WaitingAfter(history)) + e.bits
                                        else if e.Carry? then {}
                                        else old(WaitingAfter(history)))
    {
      assert (history + [e])[..|history|] == history;
      history := history + [e];
    }

    /** poll_cb that may come in between. */
    method Interrupted(bits: Bits)
      requires Valid()
      modifies this`revents, this`polled
      ensures Valid() && revents == old(revents) + bits && (old(Watched()) ==> Watched())
      ensures polled == if bits == {} then old(polled) else {}
    {
      if bits != {} {
        PollCb(bits);
      }
    }

    /** poll_cb, called once per SO_POLLCB. */
    method PollCb(bits: Bits)
      requires Valid() && bits != {}
      modifies this`revents, this`polled
      ensures Valid() && Watched() && revents == old(revents) + bits && polled == {}
    {
      revents := revents + bits;
      polled := {};
    }

    /** update_poll_events. When SO_POLLCB cannot be set, the bits are wanted all the same, but the
        socket is polled for what it was before. */
    method Update(bits: Bits, updateXapoll: bool) returns (err: int)
      requires Valid()
      modifies this`xapoll, this`events, this`polled, this`tries, this`history
      ensures Valid() && (old(PolledFor()) ==> PolledFor()) && (old(Covered()) ==> Covered()) && old(history) <= history
      ensures disable ==> xapoll == old(xapoll) && events == old(events) && polled == old(polled)
                          && history == old(history) && tries == old(tries) && err == 0
      ensures !disable ==> err == answers(old(tries)) && tries == old(tries) + 1 && (Failed() <==> err != 0)
      ensures !disable ==> events == old(events) + bits && polled == if Failed() then old(polled) else events
      ensures !disable ==> xapoll == old(xapoll) + if updateXapoll then requested * bits else {}
      ensures old(Watched()) ==> Watched()
      ensures requested == {} ==> Unarmed()
    {
      if disable {
        return 0;
      }
      if updateXapoll {
        Note(Arm(requested * bits));
        xapoll := xapoll + requested * bits;
      }
      events := events + bits;
      err := SetPollCb();
    }

    /** set_so_poll_cb with the bits that are wanted. */
    method SetPollCb() returns (err: int)
      modifies this`polled, this`tries
      ensures err == answers(old(tries)) && tries == old(tries) + 1 && (Failed() <==> err != 0)
      ensures polled == if Failed() then old(polled) else events
    {
      err := answers(tries);
      tries := tries + 1;
      if err == 0 {
        polled := events;
      }
    }

    /** set_xapoll_events for this socket. */
    method SetXapoll(bits: Bits) returns (err: int)
      requires Valid()
      modifies this`requested, this`xapoll, this`events, this`polled, this`tries, this`history
      ensures Valid() && requested == bits
      ensures xapoll == old(xapoll) + (if disable then {} else bits)
      ensures events == old(events) + (if disable then {} else bits)
      ensures (old(PolledFor()) ==> PolledFor()) && (old(Covered()) ==> Covered())
      ensures old(Watched()) ==> Watched()
      ensures !disable ==> bits <= xapoll && bits <= events && (bits <= polled || Failed())
      ensures !disable ==> err == answers(old(tries)) && (Failed() <==> err != 0)
      ensures !disable ==> polled == if Failed() then old(polled) else events
      ensures old(history) <= history
    {
      requested := bits;
      err := Update(bits, true);
    }

    /** xapoll_stop for this socket: what is armed already stays armed. */
    method XapollStop()
      requires Valid()
      modifies this`requested
      ensures Valid() && requested == {}
    {
      requested := {};
    }

    /** sm_at_httpc_poll_event, as far as it calls back. */
    method HttpEvent(http: Http)
      requires Valid()
      modifies this`requested, this`xapoll, this`events, this`polled, this`tries, this`history
      ensures Valid() && (old(PolledFor()) ==> PolledFor())
      ensures xapoll == old(xapoll) + (if disable then {} else AllRequested(http.calls, |http.calls|))
      ensures old(requested) == {} && Quiet(http) ==> requested == {} && Unarmed()
      ensures old(history) <= history
    {
      var i := 0;
      while i < |http.calls|
        invariant 0 <= i <= |http.calls| && Valid() && (old(PolledFor()) ==> PolledFor())
        invariant xapoll == old(xapoll) + (if disable then {} else AllRequested(http.calls, i))
        invariant old(requested) == {} && Quiet(http) ==> requested == {} && Unarmed()
        invariant old(history) <= history
        decreases |http.calls| - i
      {
        match http.calls[i] {
          case Request(bits) => var _ := SetXapoll(bits);
          case StopAll => XapollStop();
        }
        i := i + 1;
      }
    }

    /** While the channel is busy observed bits are set aside. */
    method SetAside(r: Bits)
      requires Valid()
      modifies this`delayed, this`history
      ensures Valid() && delayed == old(delayed) + r && Unarmed()
    {
      Note(Busy(r));
      delayed := delayed + r;
    }

    /** Back in AT mode and idle: the poll is restarted for all that was set aside, to see what is
        still true. */
    method Restart(r: Bits)
      requires Valid() && delayed != {}
      modifies this`delayed, this`disable, this`xapoll, this`events, this`polled, this`tries, this`history
      ensures Valid() && delayed == {} && !disable
      ensures old(xapoll) <= old(events) + old(delayed) + r ==> PolledFor()
      ensures events == old(events) + old(delayed) + r && (Failed() || polled == events)
      ensures exists k :: |old(history)| <= k < |history| && history[k] == Carry(old(delayed) + r)
      ensures requested == {} ==> Unarmed()
    {
      var bits := delayed + r;
      disable := false;
      Note(Carry(bits));
      delayed := {};
      ghost var k := |history| - 1;
      var _ := Update(bits, true);
      assert history[k] == Carry(bits);
    }

    twostate predicate Reported(bits: Bits)
      reads this`history
    {
      ReportedIn(old(history), bits, history)
    }

    ghost function Now(): Snapshot
      reads this
    {
      Snapshot(revents, delayed, xapoll, events, requested, disable, history)
    }

    /** #XAPOLL, and the HTTP client's reaction. It gives back the bits that are left to handle. */
    method Report(r: Bits, http: Http) returns (left: Bits)
      requires Valid()
      modifies this`requested, this`xapoll, this`events, this`polled, this`tries, this`history
      ensures Valid() && left == r - (if r * old(xapoll) != {} && http.rearm then {In} else {})
      ensures old(xapoll) <= old(events) + r && delayed == {} ==>
        PolledFor() && left * xapoll == left * Requested(r * old(xapoll), disable, http)
      ensures old(requested) == {} && Quiet(http) ==> requested == {} && Unarmed()
      ensures Reported(r * old(xapoll))
    {
      left := r;
      var reported := r * xapoll;
      if reported != {} {
        Note(Urc(reported));
        xapoll := xapoll - reported;
        HttpEvent(http);
        if http.rearm && In in r {
          Note(Arm({In}));
          xapoll, events := xapoll + {In}, events + {In};
          left := left - {In};
        }
      }
    }

    method Drop(bit: Bit, r: Bits)
      modifies this`events
      ensures events == old(events) - r * {bit}
    {
      if bit in r {
        events := events - {bit};
      }
    }

    method Discard(r: Bits)
      modifies this`events, this`disable
      ensures events == old(events) - r * {In, Out} && disable == (old(disable) || r * FATAL != {})
    {
      Drop(Out, r);
      if r * FATAL != {} {
        disable := true;
      }
      Drop(In, r);
    }

    /** What was observed is no longer polled for until it has been dealt with. */
    method Settle(r: Bits, received: bool)
      requires Valid()
      modifies this`disable, this`xapoll, this`events, this`polled, this`tries, this`history
      ensures Valid() && Watched() && disable == (old(disable) || r * FATAL != {})
      ensures events == old(events) - r * {In, Out} + (if In in r && received && !disable then {In} else {})
      ensures xapoll == old(xapoll) + (if In in r && received && !disable then requested * {In} else {})
      ensures old(PolledFor()) ==> Missing() == old(xapoll) * Removed(r, received && !disable) - delayed
      ensures requested == {} ==> Unarmed()
      ensures old(history) <= history
    {
      Discard(r);
      if In in r && received {
        var _ := Update({In}, true);
      }
      var _ := Update({}, false);
      StillMissing(old(xapoll), old(events), delayed, xapoll, events, r, received && !disable);
    }

    /** sm_at_socket_poll_work_handler for one socket of the pipe; poll_cb may observe `fired` in
        between. `received` says that automatic reception is on and succeeds.
        Every bit that may still be reported stays covered in all cases but one: the HTTP client, told
        about a bit, requests that very bit again. The handler then stops polling for it, so that it
        is covered only if it has been observed meanwhile. */
    method WorkHandler(idle: bool, dataMode: bool, datamodeSock: bool, http: Http, received: bool, fired: Bits)
      requires Valid() && Watched() && (idle ==> !dataMode)
      modifies this
      ensures Valid() && Watched() && revents == fired
      ensures delayed == if idle then {} else old(delayed) + old(revents)
      ensures idle && old(delayed) != {} ==>
        !disable && events == old(events) + old(delayed) + old(revents) && (Failed() || polled == events)
      ensures idle && old(delayed) == {} ==> disable == (old(disable) || old(revents) * FATAL != {})
      ensures old(Covered()) ==> Missing() == old(WouldForget(idle, Turn(http, received, {}, {}, {})))
      ensures idle && old(delayed) == {} ==>
        Reported(old(revents * xapoll)) && Dropped(old(revents), old(revents * xapoll) != {} && http.rearm, received)
      ensures dataMode && datamodeSock ==> Dropped(old(revents), false, received)
      ensures (!idle && !dataMode) || (dataMode && !datamodeSock) ==> events == old(events) && xapoll == old(xapoll)
      ensures old(requested) == {} && Quiet(http) ==> requested == {} && Unarmed()
    {
      var r := revents;
      revents := {};
      if !idle {
        WorkBusy(r, dataMode && datamodeSock, received, fired);
      } else if delayed != {} {
        Interrupted(fired);
        Restart(r);
      } else {
        assert r + {} == r;
        ReportAndSettle(r, http, received, fired);
      }
    }

    /** The channel is not idle: observed bits are set aside, but in data mode its own socket goes
        on. */
    method WorkBusy(r: Bits, mine: bool, received: bool, fired: Bits)
      requires Valid() && revents == {} && (r != {} || Watched())
      modifies this
      ensures Valid() && Watched() && revents == fired && delayed == old(delayed) + r
      ensures mine ==> Dropped(r, false, received)
      ensures old(xapoll) <= old(events) + old(delayed) + r ==> Missing() == {}
      ensures !mine ==> events == old(events) && xapoll == old(xapoll)
      ensures requested == old(requested) && (requested == {} ==> Unarmed())
    {
      SetAside(r);
      Interrupted(fired);
      if mine {
        Settle(r, received);
      }
    }

    /** What was observed is no longer asked for, apart from POLLIN when it is brought back: for the
        HTTP client, or because automatic reception goes on. */
    predicate Dropped(r: Bits, rearmed: bool, received: bool)
      reads this`events, this`disable
    {
      && (Out in r ==> Out !in events)
      && (In in r && !rearmed && !(received && !disable) ==> In !in events)
    }

    /** An idle channel with nothing set aside. */
    method ReportAndSettle(r: Bits, http: Http, received: bool, fired: Bits)
      requires Valid() && delayed == {} && revents == {}
      modifies this
      ensures Valid() && Watched() && disable == (old(disable) || r * FATAL != {})
      ensures delayed == {} && revents == fired
      ensures old(xapoll) <= old(events) + r ==>
        Missing() == Forgotten(r, r * old(xapoll), old(disable), http, received)
      ensures old(requested) == {} && Quiet(http) ==> requested == {} && Unarmed()
      ensures Reported(r * old(xapoll)) && Dropped(r, r * old(xapoll) != {} && http.rearm, received)
    {
      ghost var armed := Requested(r * xapoll, disable, http);
      var left := Report(r, http);
      Interrupted(fired);
      ghost var restored := received && !disable && left * FATAL == {};
      assert left * FATAL == r * FATAL;
      SameRemoved(old(xapoll) <= old(events) + r, xapoll, armed, left, restored);
      Settle(left, received);
    }

    /** What a turn of the handler has done. */
    twostate predicate Took(idle: bool, t: Turn)
      reads this
    {
      && revents == t.during + t.after
      && delayed == (if idle then {} else old(delayed + revents) + t.before)
      && (old(Covered()) ==> (Covered() <==> old(WouldForget(idle, t)) <= t.during + t.after))
      && (idle && old(delayed) == {} ==> Reported(old(revents + t.before) * old(xapoll)))
    }

    /** The handler's turn at this socket, with what poll_cb observes before, during and after it. */
    method TakeTurn(idle: bool, dataMode: bool, datamodeSock: bool, t: Turn)
      requires Valid() && Watched() && (idle ==> !dataMode)
      modifies this
      ensures Valid() && Watched() && revents == t.during + t.after
      ensures delayed == if idle then {} else old(delayed) + old(revents) + t.before
      ensures old(Covered()) ==> Missing() == old(WouldForget(idle, t))
      ensures old(Covered()) ==> (Covered() <==> old(WouldForget(idle, t)) <= t.during + t.after)
      ensures old(requested) == {} && Quiet(t.http) ==> requested == {} && Unarmed()
      ensures Took(idle, t)
    {
      Interrupted(t.before);
      ghost var r := revents;
      assert r + {} == r;
      WorkHandler(idle, dataMode, datamodeSock, t.http, t.received, t.during);
      Interrupted(t.after);
      CoveredIff();
    }
  }

  /** What is missing when the observed bits have been removed from the poll, and POLLIN perhaps brought
      back and armed. */
  lemma StillMissing(x: Bits, e: Bits, delayed: Bits, xapoll: Bits, events: Bits, r: Bits, restored: bool)
    requires events == e - r * {In, Out} + if restored && In in r then {In} else {}
    requires x <= xapoll
    requires xapoll == x || (restored && In in r && xapoll == x + {In})
    ensures x - (e + delayed) == {} ==> xapoll - (events + delayed) == x * Removed(r, restored) - delayed
  {
    if x - (e + delayed) == {} {
      forall b: Bit
        ensures b in xapoll - (events + delayed) <==> b in x * Removed(r, restored) - delayed
      {
        assert b in x ==> b !in x - (e + delayed);
      }
    }
  }

  lemma SameRemoved(given: bool, xapoll: Bits, armed: Bits, left: Bits, restored: bool)
    requires given ==> left * xapoll == left * armed
    ensures given ==> xapoll * Removed(left, restored) == Removed(left, restored) * armed
  {
    if given {
      forall b | b in Removed(left, restored)
        ensures b in xapoll <==> b in armed
      {
        assert b in left;
        assert b in left * xapoll <==> b in left * armed;
      }
    }
  }

  /** The bits that the HTTP client arms in answer to r and that the handler then drops. */
  function Forgotten(r: Bits, reported: Bits, disable: bool, http: Http, received: bool): Bits
  {
    var kept := if reported != {} && http.rearm then {In} else {};
    var restored := received && !disable && r * FATAL == {};
    Removed(r - kept, restored) * Requested(reported, disable, http)
  }

  /** sm_at_socket_poll_work_handler: all sockets of the pipe. */
  method PollWork(socks: seq<Socket>, idle: bool, dataMode: bool, datamodeSock: nat, on: nat -> Turn)
    requires forall i, j :: 0 <= i < j < |socks| ==> socks[i] != socks[j]
    requires forall i :: 0 <= i < |socks| ==> socks[i].Valid() && socks[i].Watched()
    requires idle ==> !dataMode
    modifies socks
    ensures forall i :: 0 <= i < |socks| ==> socks[i].Valid() && socks[i].Watched()
    ensures forall i :: 0 <= i < |socks| ==> socks[i].Took(idle, on(i))
  {
    var n := 0;
    while n < |socks|
      invariant 0 <= n <= |socks|
      invariant forall i :: 0 <= i < |socks| ==> socks[i].Valid() && socks[i].Watched()
      invariant forall i :: 0 <= i < n ==> socks[i].Took(idle, on(i))
      invariant forall i :: n <= i < |socks| ==> unchanged(socks[i])
    {
      socks[n].TakeTurn(idle, dataMode, n == datamodeSock, on(n));
      n := n + 1;
    }
  }

  /** A request that is sent in part: told that the socket is writable, the HTTP client sends what it
      can and requests POLLOUT again, which the handler drops. */
  lemma PartialSendIsForgotten()
    ensures Forgotten({Out}, {Out}, false, Http([Request({In, Out})], false), false) == {Out}
  {
    var calls := [Request({In, Out})];
    assert AllRequested(calls, 1) == AllRequested(calls, 0) + {In, Out};
  }

  /** The same as a run: afterwards a bit may still be reported, but the socket is not polled for it
      and nothing is pending. */
  method PartialSendStalls() returns (s: Socket)
    ensures s.Valid() && !s.disable && s.revents == {} && s.delayed == {} && s.polled == s.events
    ensures exists bit :: bit in s.xapoll && bit !in s.polled
  {
    s := new Socket(_ => 0);
    var _ := s.SetXapoll({In, Out});
    s.PollCb({Out});
    PartialSendIsForgotten();
    assert s.revents + {} == {Out} && s.revents * s.xapoll == {Out};
    s.WorkHandler(true, false, false, Http([Request({In, Out})], false), false, {});
    assert Out in s.Missing();
  }

  /** A poll that could not be set: AT#XAPOLL reports the error, but the bits count as polled for, and
      nothing tries again before the next call. */
  method FailedPollStalls(err: int) returns (s: Socket, r: int)
    requires err != 0
    ensures r == err && s.Valid() && s.Covered() && !s.disable && s.revents == {} && s.delayed == {}
    ensures s.xapoll == s.events == {In} && s.polled == {}
  {
    s := new Socket(_ => err);
    r := s.SetXapoll({In});
  }

  datatype Step =
    | Observed(bits: Bits)
    | Done(bits: Bits)                // a send or receive makes the bit interesting again
    | Wanted(bits: Bits)              // AT#XAPOLL, start
    | Stopped                         // AT#XAPOLL, stop
    | Work(idle: bool, dataMode: bool, datamodeSock: bool, turn: Turn)

  /** What an observer sees. */
  datatype Snapshot = Snapshot(
    revents: Bits, delayed: Bits, xapoll: Bits, events: Bits, requested: Bits, disable: bool, history: seq<Event>)

  /** What a step does, a before and b after. */
  predicate StepOk(step: Step, a: Snapshot, b: Snapshot)
  {
    match step
    case Observed(bits) => b == a.(revents := a.revents + bits)
    case Done(bits) =>
      !a.disable ==> b.events == a.events + bits && b.xapoll == a.xapoll + a.requested * bits
    case Wanted(bits) =>
      b.requested == bits && (!a.disable ==> b.events == a.events + bits && b.xapoll == a.xapoll + bits)
    case Stopped => b == a.(requested := {})
    case Work(idle, _, _, t) =>
      && b.revents == t.during + t.after && b.delayed == (if idle then {} else a.delayed + a.revents + t.before)
      && (idle && a.delayed == {} ==> ReportedIn(a.history, (a.revents + t.before) * a.xapoll, b.history))
  }

  /** The first thing after `before` is a notification of these bits, if there are any. */
  predicate ReportedIn(before: seq<Event>, bits: Bits, after: seq<Event>)
  {
    before <= after && (bits != {} ==> |after| > |before| && after[|before|] == Urc(bits))
  }

  /** What a work step drops and is not observed meanwhile; other steps drop nothing. */
  ghost function Lost(s: Socket, step: Step): Bits
    reads s
  {
    if step.Work? then s.WouldForget(step.idle, step.turn) - (step.turn.during + step.turn.after) else {}
  }

  /** Every run of one socket: the history is proper, so that no bit is reported twice without
      having been armed in between (UrcNeedsArm) and no bit observed in a busy moment is lost
      (BusyIsCarried); the socket is polled for what is wanted whenever nothing is pending and the
      last attempt to set the poll was successful; and a
      bit that may be reported stays polled for or pending unless some work step dropped one. `trace`
      is what an observer sees between the steps. */
  method Run(s: Socket, steps: seq<Step>) returns (ghost lost: Bits, ghost trace: seq<Snapshot>)
    requires s.Valid() && s.Watched()
    modifies s
    ensures s.Valid() && s.Watched() && Proper(s.history)
    ensures s.revents == {} && s.delayed == {} && !s.disable && !s.Failed() ==> s.polled == s.events
    ensures old(s.Covered()) && lost == {} ==> s.Covered()
    ensures old(s.requested) == {} && (forall i :: 0 <= i < |steps| ==> Passive(steps[i])) ==> s.Unarmed()
    ensures |trace| == |steps| + 1 && trace[0] == old(s.Now()) && trace[|steps|] == s.Now()
    ensures forall i :: 0 <= i < |steps| ==> StepOk(steps[i], trace[i], trace[i + 1])
  {
    lost, trace := {}, [s.Now()];
    var i := 0;
    while i < |steps|
      invariant 0 <= i <= |steps| && s.Valid() && s.Watched()
      invariant old(s.Covered()) && lost == {} ==> s.Covered()
      invariant old(s.requested) == {} && (forall k :: 0 <= k < |steps| ==> Passive(steps[k])) ==>
                s.requested == {} && s.Unarmed()
      invariant |trace| == i + 1 && trace[0] == old(s.Now()) && trace[i] == s.Now()
      invariant forall k :: 0 <= k < i ==> StepOk(steps[k], trace[k], trace[k + 1])
    {
      lost := lost + Lost(s, steps[i]);
      TakeStep(s, steps[i]);
      trace := trace + [s.Now()];
      i := i + 1;
    }
  }

  /** Nobody asks for events. */
  predicate Passive(step: Step)
  {
    !step.Wanted? && (step.Work? ==> Quiet(step.turn.http))
  }

  method TakeStep(s: Socket, step: Step)
    requires s.Valid() && s.Watched()
    modifies s
    ensures s.Valid() && s.Watched()
    ensures old(s.Covered()) && old(Lost(s, step)) == {} ==> s.Covered()
    ensures old(s.requested) == {} && Passive(step) ==> s.requested == {} && s.Unarmed()
    ensures StepOk(step, old(s.Now()), s.Now())
  {
    match step
    case Observed(bits) =>
      if bits != {} {
        s.PollCb(bits);
      }
    case Done(bits) => var _ := s.Update(bits, true);
    case Wanted(bits) => var _ := s.SetXapoll(bits);
    case Stopped => s.XapollStop();
    case Work(idle, dataMode, mine, turn) =>
      s.TakeTurn(idle, dataMode && !idle, mine, turn);
  }

  /** AT#XAPOLL stop: from then on every bit is reported at most once more, whatever is observed, sent
      or received, as long as nobody asks for events. */
  method StopThenRun(s: Socket, steps: seq<Step>) returns (ghost trace: seq<Snapshot>)
    requires s.Valid() && s.Watched() && forall i :: 0 <= i < |steps| ==> Passive(steps[i])
    modifies s
    ensures s.Valid() && s.Watched() && old(s.history) <= s.history
    ensures forall bit, i, j :: |old(s.history)| <= i < j < |s.history| && s.history[i].Urc? && s.history[j].Urc? ==>
      !(bit in s.history[i].bits && bit in s.history[j].bits)
    ensures |trace| == |steps| + 1 && trace[0] == old(s.Now()).(requested := {}) && trace[|steps|] == s.Now()
    ensures forall i :: 0 <= i < |steps| ==> StepOk(steps[i], trace[i], trace[i + 1])
  {
    s.XapollStop();
    var _, run := Run(s, steps);
    trace := run;
    AtMostOnce(s.history, |old(s.history)|);
  }

  lemma AtMostOnce(h: seq<Event>, from: nat)
    requires Proper(h) && forall k :: from <= k < |h| && h[k].Arm? ==> h[k].bits == {}
    ensures forall bit, i, j :: from <= i < j < |h| && h[i].Urc? && h[j].Urc? ==>
            !(bit in h[i].bits && bit in h[j].bits)
  {
    forall bit, i, j | from <= i < j < |h| && h[i].Urc? && h[j].Urc? && bit in h[i].bits
      ensures bit !in h[j].bits
    {
      if bit in h[j].bits {
        UrcNeedsArm(h, i, j, bit);
        assert false;
      }
    }
  }
}

