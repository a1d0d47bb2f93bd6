/** When unsolicited result codes (URCs) may reach a pipe. Every context has a queue of its own
    for URCs sent to its pipe; URCs without a target go through one ring buffer. */
module UrcQueue {
  import opened Bytes
  import opened RingBuffers

  type Urc = seq<byte>

  datatype Mode = AtMode | DataMode | NullMode

  /** What decides whether a context is idle. */
  datatype View = View(mode: Mode, locks: int, timer: bool)

  predicate Idle(v: View)
  {
    v.mode == AtMode && v.locks == 0 && !v.timer
  }

  /** What happens to one context, in order. Thread 0 is the work queue; a callback of a protocol
      client runs on a thread of its own. */
  datatype Event =
    | Lock(t: nat)                            // executing_lock goes up
    | Unlock(t: nat)                          // and down
    | ModeSet(mode: Mode)
    | Timer(on: bool)                         // the idle timer runs, or not
    | Queue(urc: Urc)                         // urc_send_to puts a URC in the context's queue
    | FlushBegin(t: nat)                      // a thread finds the context idle and starts to flush
    | Send(t: nat, urc: Urc)                  // a URC from that queue goes to the pipe
    | SendCommon(t: nat, data: seq<byte>)     // bytes of the common ring go to the pipe
    | FlushEnd(t: nat)                        // nothing is left
    | Respond(t: nat, data: seq<byte>)        // a response goes to the pipe

  // ---------------------------------------------------------------------------
  // Histories
  // ---------------------------------------------------------------------------

  function ViewStep(v: View, e: Event): View
  {
    match e
    case Lock(_) => v.(locks := v.locks + 1)
    case Unlock(_) => v.(locks := v.locks - 1)
    case ModeSet(m) => v.(mode := m)
    case Timer(on) => v.(timer := on)
    case _ => v
  }

  /** Mode, lock depth and timer after a history. */
  function ViewAfter(h: seq<Event>): View
  {
    if h == [] then View(AtMode, 0, false) else ViewStep(ViewAfter(h[..|h| - 1]), h[|h| - 1])
  }

  function QueuedIn(h: seq<Event>): seq<Urc>
  {
    if h == [] then []
    else QueuedIn(h[..|h| - 1]) + (if h[|h| - 1].Queue? then [h[|h| - 1].urc] else [])
  }

  function SentIn(h: seq<Event>): seq<Urc>
  {
    if h == [] then []
    else SentIn(h[..|h| - 1]) + (if h[|h| - 1].Send? then [h[|h| - 1].urc] else [])
  }

  /** The bytes of the common ring that went to this pipe. */
  function CommonIn(h: seq<Event>): seq<byte>
  {
    if h == [] then []
    else CommonIn(h[..|h| - 1]) + (if h[|h| - 1].SendCommon? then h[|h| - 1].data else [])
  }

  predicate IsUrc(e: Event)
  {
    e.Send? || e.SendCommon?
  }

  /** The threads that are flushing. */
  function OpenStep(open: set<nat>, e: Event): set<nat>
  {
    match e
    case FlushBegin(t) => open + {t}
    case FlushEnd(t) => open - {t}
    case _ => open
  }

  function OpenAfter(h: seq<Event>): set<nat>
  {
    if h == [] then {} else OpenStep(OpenAfter(h[..|h| - 1]), h[|h| - 1])
  }

  /** A flush starts in an idle moment, URCs go out in a flush only, and a thread does nothing else
      to the context until its flush is over. Modes and the timer are a matter of the work queue;
      other threads start the timer of a busy context only. */
  predicate Permitted(v: View, open: set<nat>, e: Event)
  {
    match e
    case FlushBegin(t) => Idle(v) && t !in open
    case Send(t, _) => t in open
    case SendCommon(t, _) => t in open
    case FlushEnd(t) => t in open
    case Lock(t) => t !in open
    case Unlock(t) => t !in open
    case Respond(t, _) => t !in open
    case ModeSet(_) => 0 !in open
    case Timer(on) => on && 0 in open ==> !Idle(v)
    case Queue(_) => true
  }

  predicate Disciplined(h: seq<Event>)
  {
    h == [] ||
    var init := h[..|h| - 1];
    Disciplined(init) && Permitted(ViewAfter(init), OpenAfter(init), h[|h| - 1])
  }

  /** The lock depth is the number of locks less the number of unlocks. */
  function Depth(h: seq<Event>): int
  {
    if h == [] then 0
    else Depth(h[..|h| - 1]) + (if h[|h| - 1].Lock? then 1 else if h[|h| - 1].Unlock? then -1 else 0)
  }

  lemma {:induction false} LocksAreDepth(h: seq<Event>)
    ensures ViewAfter(h).locks == Depth(h)
  {
    if h == [] {
    } else {
      LocksAreDepth(h[..|h| - 1]);
    }
  }

  /** Where the flush of thread t started. */
  function Began(h: seq<Event>, t: nat): (b: nat)
    requires t in OpenAfter(h)
    ensures b < |h| && h[b] == FlushBegin(t)
  {
    if h[|h| - 1] == FlushBegin(t) then |h| - 1 else Began(h[..|h| - 1], t)
  }

  /** Another thread than t locks or unlocks the context. */
  predicate Intrudes(t: nat, e: Event)
  {
    (e.Lock? || e.Unlock?) && e.t != t
  }

  /** What is known in the middle of a flush of thread t: it started in an idle moment, and since
      then only other threads have touched the lock. During a flush of the work queue nothing but
      such an intrusion can make the context busy. */
  ghost predicate InFlush(h: seq<Event>, t: nat, b: nat)
    requires b < |h|
  {
    && Idle(ViewAfter(h[..b])) && h[b] == FlushBegin(t)
    && (forall k :: b < k < |h| && (h[k].Lock? || h[k].Unlock?) ==> Intrudes(t, h[k]))
    && (t == 0 ==> ViewAfter(h).mode == AtMode)
    && (t == 0 && !Idle(ViewAfter(h)) ==> exists k :: b < k < |h| && Intrudes(t, h[k]))
  }

  lemma {:induction false} FlushFacts(h: seq<Event>, t: nat)
    requires Disciplined(h) && t in OpenAfter(h)
    ensures InFlush(h, t, Began(h, t)) && Depth(h) == Depth(h[Began(h, t)..])
  {
    var init, last := h[..|h| - 1], h[|h| - 1];
    if last == FlushBegin(t) {
      LocksAreDepth(init);
      DepthStep(h, |h| - 1);
      assert init[|init|..] == [];
    } else {
      FlushFacts(init, t);
      var b := Began(init, t);
      assert h[..b] == init[..b];
      DepthStep(h, b);
      if t == 0 && !Idle(ViewAfter(h)) {
        FlushDisturbed(h, b);
      }
    }
  }

  lemma {:induction false} DepthStep(h: seq<Event>, b: nat)
    requires b < |h|
    ensures Depth(h) - Depth(h[..|h| - 1]) == Depth(h[b..]) - Depth(h[..|h| - 1][b..])
  {
    var n := |h| - 1;
    assert h[b..][..n - b] == h[b..n] == h[..n][b..];
  }

  /** The step at which a flush of the work queue is disturbed. */
  lemma {:induction false} FlushDisturbed(h: seq<Event>, b: nat)
    requires h != [] && Disciplined(h) && 0 in OpenAfter(h) && b < |h| - 1
    requires InFlush(h[..|h| - 1], 0, b) && 0 in OpenAfter(h[..|h| - 1]) && !Idle(ViewAfter(h))
    ensures exists k :: b < k < |h| && Intrudes(0, h[k])
  {
    var init, last := h[..|h| - 1], h[|h| - 1];
    if Idle(ViewAfter(init)) {
      assert Intrudes(0, last);
    } else {
      var k :| b < k < |init| && Intrudes(0, init[k]);
      assert Intrudes(0, h[k]);
    }
  }

  /** A URC goes to the pipe in a flush which began when all locks were released, in AT mode, and
      with the timer off. The context is locked at the URC exactly if since then other threads have
      locked it more often than they have unlocked it; and for a flush of the work queue the
      context is in AT mode, and still idle unless a thread locked or unlocked it meanwhile. */
  lemma {:induction false} UrcMeansIdle(h: seq<Event>, i: nat)
    requires Disciplined(h) && i < |h| && IsUrc(h[i])
    ensures h[i].t in OpenAfter(h[..i])
    ensures var b := Began(h[..i], h[i].t);
      && Idle(ViewAfter(h[..b])) && Depth(h[..b]) == 0
      && ViewAfter(h[..i]).locks == Depth(h[..i]) == Depth(h[b..i])
      && (forall k :: b < k < i && (h[k].Lock? || h[k].Unlock?) ==> Intrudes(h[i].t, h[k]))
      && (h[i].t == 0 ==> ViewAfter(h[..i]).mode == AtMode)
      && (h[i].t == 0 && (forall k :: b < k < i ==> !Intrudes(0, h[k])) ==> Idle(ViewAfter(h[..i])))
  {
    PrefixDisciplined(h, i + 1);
    assert h[..i + 1][..i] == h[..i];
    FlushFacts(h[..i], h[i].t);
    var b := Began(h[..i], h[i].t);
    assert h[..i][..b] == h[..b];
    assert h[..i][b..] == h[b..i];
    LocksAreDepth(h[..b]);
    LocksAreDepth(h[..i]);
  }

  lemma {:induction false} PrefixDisciplined(h: seq<Event>, n: nat)
    requires Disciplined(h) && n <= |h|
    ensures Disciplined(h[..n])
  {
    if n < |h| {
      PrefixDisciplined(h[..|h| - 1], n);
      assert h[..|h| - 1][..n] == h[..n];
    } else {
      assert h[..n] == h;
    }
  }

  /** struct sm_at_host_ctx as far as URCs go, with its history. */
  datatype Context = Context(view: View, open: set<nat>, buffered: seq<Urc>, common: seq<byte>, history: seq<Event>)

  /** The fields agree with the history, the history is disciplined, and the URCs sent followed by
      those still queued are the URCs queued so far: first in, first out, none twice. */
  predicate Good(x: Context)
  {
    && ViewAfter(x.history) == x.view && OpenAfter(x.history) == x.open
    && CommonIn(x.history) == x.common
    && Disciplined(x.history)
    && SentIn(x.history) + x.buffered == QueuedIn(x.history)
  }

  const FRESH := Context(View(AtMode, 0, false), {}, [], [], [])

  type GoodContext = x: Context | Good(x) witness FRESH

  /** An event that may happen to a context: its URCs are sent in order. */
  predicate Allowed(x: Context, e: Event)
  {
    && Permitted(x.view, x.open, e)
    && (e.Send? ==> x.buffered != [] && e.urc == x.buffered[0])
  }

  /** One event happens to a context. */
  function After(x: Context, e: Event): (y: Context)
    requires e.Send? ==> x.buffered != [] && e.urc == x.buffered[0]
    ensures y.history == x.history + [e] && y.view == ViewStep(x.view, e)
  {
    Context(ViewStep(x.view, e), OpenStep(x.open, e),
            match e case Queue(u) => x.buffered + [u] case Send(_, _) => x.buffered[1..] case _ => x.buffered,
            x.common + (if e.SendCommon? then e.data else []), x.history + [e])
  }

  lemma AfterIsGood(x: Context, e: Event)
    requires Good(x) && Allowed(x, e)
    ensures Good(After(x, e))
  {
    assert After(x, e).history[..|x.history|] == x.history;
    if e.Send? {
      assert [x.buffered[0]] + x.buffered[1..] == x.buffered;
    }
  }

  /** An event that may happen keeps the context good. */
  function Happen(x: GoodContext, e: Event): (y: GoodContext)
    requires Allowed(x, e)
    ensures y.history == x.history + [e] && y.view == ViewStep(x.view, e) && y.open == OpenStep(x.open, e)
    ensures e.Queue? ==> y.buffered == x.buffered + [e.urc]
    ensures e.Send? ==> y.buffered == x.buffered[1..]
    ensures !e.Queue? && !e.Send? ==> y.buffered == x.buffered
    ensures y.common == x.common + (if e.SendCommon? then e.data else [])
  {
    AfterIsGood(x, e);
    After(x, e)
  }

  // ---------------------------------------------------------------------------
  // The common ring: what comes out was put in before, in the same order
  // ---------------------------------------------------------------------------

  /** out[i] is the at[i]-th byte of what was put in, and at increases: nothing goes out twice or
      out of order, though bytes may be dropped. */
  ghost predicate Picks(out: seq<byte>, at: seq<nat>, put: seq<byte>)
  {
    && |at| == |out|
    && (forall i :: 0 <= i < |at| ==> at[i] < |put| && out[i] == put[at[i]])
    && (forall i, j :: 0 <= i < j < |at| ==> at[i] < at[j])
  }

  /** The positions of the next n bytes. */
  function Next(from: nat, n: nat): (r: seq<nat>)
    ensures |r| == n && forall i :: 0 <= i < n ==> r[i] == from + i
  {
    seq(n, i => from + i)
  }

  lemma PicksPut(out: seq<byte>, at: seq<nat>, put: seq<byte>, data: seq<byte>, taken: nat)
    requires Picks(out, at, put) && taken <= |data|
    ensures Picks(out + data[..taken], at + Next(|put|, taken), put + data)
  {
  }

  lemma PicksDrop(out: seq<byte>, at: seq<nat>, put: seq<byte>, n: nat)
    requires Picks(out, at, put) && n <= |out|
    ensures Picks(out[..n], at[..n], put)
  {
  }

  /** All bytes offered to the ring, those that have left it and those in it; where in `put` these
      are, and whether others have been lost. */
  datatype RingBytes = RingBytes(put: seq<byte>, sent: seq<byte>, held: seq<byte>, at: seq<nat>, dropped: bool)

  ghost predicate IsTraffic(x: RingBytes)
  {
    Picks(x.sent + x.held, x.at, x.put) && (!x.dropped ==> x.sent + x.held == x.put)
  }

  ghost const NO_BYTES := RingBytes([], [], [], [], false)

  type Traffic = x: RingBytes | IsTraffic(x) ghost witness NO_BYTES

  /** Of the data offered n bytes fit. */
  ghost function Offer(x: Traffic, data: seq<byte>, n: nat): (y: Traffic)
    requires n <= |data|
    ensures y.put == x.put + data && y.sent == x.sent && y.held == x.held + data[..n]
    ensures y.dropped <==> x.dropped || n < |data|
  {
    PicksPut(x.sent + x.held, x.at, x.put, data, n);
    Associate(x.sent, x.held, data[..n]);
    assert n == |data| ==> data[..n] == data;
    assert !x.dropped && n == |data| ==> x.sent + (x.held + data[..n]) == x.put + data;
    RingBytes(x.put + data, x.sent, x.held + data[..n], x.at + Next(|x.put|, n), x.dropped || n < |data|)
  }

  /** The first n bytes leave. */
  ghost function Leave(x: Traffic, n: nat): (y: Traffic)
    requires n <= |x.held|
    ensures y == x.(sent := x.sent + x.held[..n], held := x.held[n..])
    ensures y.sent + y.held == x.sent + x.held
  {
    Regroup(x.sent, x.held, n);
    x.(sent := x.sent + x.held[..n], held := x.held[n..])
  }

  /** All bytes leave. */
  ghost function Emptied(x: Traffic): (y: Traffic)
    ensures y == x.(sent := x.sent + x.held, held := [])
  {
    assert x.held[..|x.held|] == x.held && x.held[|x.held|..] == [];
    Leave(x, |x.held|)
  }

  lemma AllLeft(x: Traffic, y: Traffic)
    requires y.sent + y.held == x.sent + x.held && y.held == []
    requires y.put == x.put && y.at == x.at && y.dropped == x.dropped
    ensures y == Emptied(x)
  {
  }

  /** The ring is reset. */
  ghost function Lose(x: Traffic): (y: Traffic)
    ensures y.put == x.put && y.sent == x.sent && y.held == [] && y.dropped
  {
    PicksDrop(x.sent + x.held, x.at, x.put, |x.sent|);
    assert (x.sent + x.held)[..|x.sent|] == x.sent == x.sent + [];
    RingBytes(x.put, x.sent, [], x.at[..|x.sent|], true)
  }

  /** A claim of the ring, and the context to whose pipe it went. */
  datatype Claim = Claim(c: nat, data: seq<byte>)

  function AllOf(claims: seq<Claim>): seq<byte>
  {
    if claims == [] then [] else AllOf(claims[..|claims| - 1]) + claims[|claims| - 1].data
  }

  function ToContext(claims: seq<Claim>, c: nat): seq<byte>
  {
    if claims == [] then []
    else
      var last := claims[|claims| - 1];
      ToContext(claims[..|claims| - 1], c) + (if last.c == c then last.data else [])
  }

  lemma ClaimMore(claims: seq<Claim>, m: Claim)
    ensures AllOf(claims + [m]) == AllOf(claims) + m.data
    ensures forall k: nat :: ToContext(claims + [m], k) == ToContext(claims, k) + (if k == m.c then m.data else [])
  {
    assert (claims + [m])[..|claims|] == claims;
  }

  // ---------------------------------------------------------------------------
  // The host
  // ---------------------------------------------------------------------------

  type Thread = t: nat | t > 0 witness 1

  /** What other threads and timers do at any time, also while URCs are being sent. A thread that
      locks an idle context, or responds to it, flushes it first. */
  datatype Arrival =
    | UrcTo(c: nat, urc: Urc)
    | Common(data: seq<byte>)
    | Expire(c: nat)
    | LockFrom(c: nat, t: Thread)
    | UnlockFrom(c: nat, t: Thread, pipe: bool)
    | RespondFrom(c: nat, t: Thread, data: seq<byte>)
    | BeginFrom(c: nat, t: Thread)
    | SendFrom(c: nat, t: Thread)
    | SendRingFrom(c: nat, t: Thread)
    | EndFrom(c: nat, t: Thread)

  predicate Locking(a: Arrival)
  {
    a.LockFrom? || a.UnlockFrom?
  }

  /** No other thread locks or unlocks. */
  predicate Quiet(during: seq<Arrival>)
  {
    forall i :: 0 <= i < |during| ==> !Locking(during[i])
  }

  /** It neither offers bytes to the ring nor sends any from it; `keys` are the contexts. */
  predicate LeavesRing(a: Arrival, keys: set<nat>)
  {
    !a.Common? && !a.SendRingFrom? && (a.UrcTo? ==> a.c in keys)
  }

  predicate LeaveRing(during: seq<Arrival>, keys: set<nat>)
  {
    forall i :: 0 <= i < |during| ==> LeavesRing(during[i], keys)
  }

  /** What the work queue does, and arrivals between its steps. `during` happens during the step. */
  datatype Step =
    | RxByte(c: nat)
    | CmdBegin(c: nat)
    | CmdEnd(c: nat)
    | CmdFinished(c: nat)
    | LockCtx(c: nat, during: seq<Arrival>)
    | CmdDone(c: nat, open: bool)
    | RspSend(c: nat, data: seq<byte>, during: seq<Arrival>)
    | SetMode(c: nat, mode: Mode)
    | Dispatch(during: seq<Arrival>)
    | SelectUrc(c: nat)
    | Arrive(a: Arrival)

  /** Only context c is different. */
  predicate OthersSame(c: nat, was: map<nat, GoodContext>, now: map<nat, GoodContext>)
  {
    now.Keys == was.Keys && forall k :: k in was && k != c ==> now[k] == was[k]
  }

  predicate Ends(x: Context, e: Event)
  {
    x.history != [] && x.history[|x.history| - 1] == e
  }

  /** set_sm_mode. */
  predicate CanChange(from: Mode, to: Mode)
  {
    if from == AtMode then to == DataMode else to != DataMode
  }

  /** What a step does to its context, x before and y after; `posted`: it has a message. */
  predicate Did(s: Step, x: Context, y: Context, posted: bool)
  {
    match s
    case RxByte(_) => y.view.timer
    case CmdBegin(_) => y.view == x.view.(locks := x.view.locks + 1)
    case CmdEnd(_) => y.view == x.view.(locks := x.view.locks - 1)
    case CmdFinished(_) => y.view == x.view.(timer := false) && posted
    case LockCtx(_, during) =>
      && Ends(y, Lock(0)) && (Idle(x.view) ==> y.buffered == [])
      && (Quiet(during) || !Idle(x.view) ==> y.view == x.view.(locks := x.view.locks + 1))
    case CmdDone(_, open) =>
      y.view == x.view.(locks := x.view.locks - 1) && (x.view.locks == 1 && open ==> posted)
    case RspSend(_, data, _) => Ends(y, Respond(0, data)) && (Idle(x.view) ==> y.buffered == [])
    case SetMode(_, mode) => y.view == if CanChange(x.view.mode, mode) then x.view.(mode := mode) else x.view
    case _ => true
  }

  /** The same for what other threads and timers do; what cannot happen now does nothing. */
  predicate Arrives(a: Arrival, x: Context, y: Context, posted: bool)
  {
    match a
    case UrcTo(_, urc) => y.buffered == x.buffered + [urc]
    case Expire(_) => if x.view.timer then y.view == x.view.(timer := false) && posted else y == x
    case LockFrom(_, t) => if t !in x.open then y.view == x.view.(locks := x.view.locks + 1) else y == x
    case UnlockFrom(_, t, pipe) =>
      if t !in x.open then
        y.view == x.view.(locks := x.view.locks - 1) && (x.view.locks == 1 && pipe ==> posted)
      else y == x
    case RespondFrom(_, t, data) => if t !in x.open then Ends(y, Respond(t, data)) else y == x
    case BeginFrom(_, t) => if t !in x.open && Idle(x.view) then Ends(y, FlushBegin(t)) else y == x
    case SendFrom(_, t) =>
      if t in x.open && x.buffered != [] then Ends(y, Send(t, x.buffered[0])) else y == x
    case EndFrom(_, t) => if t in x.open && x.buffered == [] then Ends(y, FlushEnd(t)) else y == x
    case _ => true
  }

  /** What an observer of the host sees. */
  datatype Snapshot = Snapshot(
    ctxs: map<nat, GoodContext>, msgq: seq<nat>, urcCtx: nat, sent: seq<byte>, held: seq<byte>, room: nat)

  /** Bytes are offered to the ring. */
  predicate Offers(data: seq<byte>, a: Snapshot, b: Snapshot)
  {
    && b.sent == a.sent
    && b.held == if a.urcCtx in a.ctxs && |data| <= a.room then a.held + data else []
  }

  predicate StepOk(s: Step, a: Snapshot, b: Snapshot)
  {
    match s
    case Dispatch(during) =>
      a.msgq != [] && a.msgq[0] in a.ctxs && a.msgq[0] in b.ctxs ==>
        ServedOk(a.ctxs[a.msgq[0]], b.ctxs[a.msgq[0]], Quiet(during))
    case SelectUrc(c) => b.urcCtx == c
    case Arrive(e) =>
      && (!e.Common? && e.c in a.ctxs && e.c in b.ctxs ==>
            && Arrives(e, a.ctxs[e.c], b.ctxs[e.c], e.c in b.msgq) && OthersSame(e.c, a.ctxs, b.ctxs))
      && (e.Common? ==> Offers(e.data, a, b))
      && (e.UrcTo? && e.c !in a.ctxs ==> Offers(e.urc, a, b))
      && (e.SendRingFrom? && e.c in a.ctxs && e.t in a.ctxs[e.c].open && e.c == a.urcCtx && a.held != [] ==>
            |b.held| < |a.held| && b.sent + b.held == a.sent + a.held)
    case _ => s.c in a.ctxs && s.c in b.ctxs ==> Did(s, a.ctxs[s.c], b.ctxs[s.c], s.c in b.msgq)
  }

  /** An idle context has sent all it had; another has its timer running. */
  predicate ServedOk(x: Context, y: Context, quiet: bool)
  {
    if Idle(x.view) then y.buffered == [] && (quiet ==> Idle(y.view)) else y.view.timer
  }

  /** The contexts, the claims that have gone to their pipes, and all bytes of these. */
  datatype World = World(ctxs: map<nat, GoodContext>, claims: seq<Claim>, sent: seq<byte>)

  /** The histories of the contexts say what went where. */
  predicate IsWorld(w: World)
  {
    w.sent == AllOf(w.claims) && forall c :: c in w.ctxs ==> w.ctxs[c].common == ToContext(w.claims, c)
  }

  type Instances = w: World | IsWorld(w) witness World(map[], [], [])

  /** A context does something other than sending from the ring. */
  function WithContext(w: Instances, c: nat, x: GoodContext): (v: Instances)
    requires c in w.ctxs && x.common == w.ctxs[c].common
    ensures v == w.(ctxs := w.ctxs[c := x])
  {
    w.(ctxs := w.ctxs[c := x])
  }

  function WithClaim(w: Instances, c: nat, t: nat, data: seq<byte>): (v: Instances)
    requires c in w.ctxs && t in w.ctxs[c].open
    ensures v.ctxs == w.ctxs[c := Happen(w.ctxs[c], SendCommon(t, data))] && v.sent == w.sent + data
  {
    WorldMore(w, c, Happen(w.ctxs[c], SendCommon(t, data)), data);
    World(w.ctxs[c := Happen(w.ctxs[c], SendCommon(t, data))], w.claims + [Claim(c, data)], w.sent + data)
  }

  lemma WorldMore(w: Instances, c: nat, x: GoodContext, data: seq<byte>)
    requires c in w.ctxs && x.common == w.ctxs[c].common + data
    ensures IsWorld(World(w.ctxs[c := x], w.claims + [Claim(c, data)], w.sent + data))
  {
    ClaimMore(w.claims, Claim(c, data));
  }

  lemma ClaimGone(w: Instances, c: nat, t: nat, data: seq<byte>)
    requires c in w.ctxs && t in w.ctxs[c].open
    ensures var v := WithClaim(w, c, t, data);
      && OthersSame(c, w.ctxs, v.ctxs) && v.sent == w.sent + data
      && v.ctxs[c].buffered == w.ctxs[c].buffered && v.ctxs[c].open == w.ctxs[c].open
      && v.ctxs[c].view == w.ctxs[c].view
  {
    var x := Happen(w.ctxs[c], SendCommon(t, data));
    assert WithClaim(w, c, t, data).ctxs[c] == x;
  }

  /** And nothing has been sent from the ring. */
  ghost predicate SameBut(c: nat, was: Instances, now: Instances)
  {
    OthersSame(c, was.ctxs, now.ctxs) && now.sent == was.sent
  }

  lemma SameButTwice(c: nat, a: Instances, b: Instances, d: Instances)
    requires SameBut(c, a, b) && SameBut(c, b, d)
    ensures SameBut(c, a, d)
  {
  }

  /** Idle contexts stay idle if no other thread locks, no queue grows by more than one, and the
      work queue's own flush goes on. */
  ghost predicate Mild(was: map<nat, GoodContext>, now: map<nat, GoodContext>, quiet: bool)
  {
    now.Keys == was.Keys && forall k :: k in was ==> MildOne(was[k], now[k], quiet)
  }

  predicate MildOne(was: GoodContext, now: GoodContext, quiet: bool)
  {
    && (quiet && Idle(was.view) ==> Idle(now.view))
    && |now.buffered| <= |was.buffered| + 1
    && (0 in now.open <==> 0 in was.open)
  }

  lemma MildAt(c: nat, was: map<nat, GoodContext>, now: map<nat, GoodContext>, quiet: bool)
    requires OthersSame(c, was, now)
    requires c in was ==> MildOne(was[c], now[c], quiet)
    ensures Mild(was, now, quiet)
  {
  }

  /** The work queue is flushing context c, and no other; none if there is no such context. */
  ghost predicate Flushing(c: int, m: map<nat, GoodContext>)
  {
    forall k :: k in m ==> (0 in m[k].open <==> k == c)
  }

  lemma StillFlushing(c: int, was: map<nat, GoodContext>, now: map<nat, GoodContext>, quiet: bool)
    requires Flushing(c, was) && Mild(was, now, quiet)
    ensures Flushing(c, now)
  {
    assert forall k :: k in now ==> MildOne(was[k], now[k], quiet);
  }

  lemma FlushingAt(c: int, k: nat, was: map<nat, GoodContext>, now: map<nat, GoodContext>)
    requires Flushing(c, was) && OthersSame(k, was, now) && k in was
    requires 0 in now[k].open <==> 0 in was[k].open
    ensures Flushing(c, now)
  {
  }

  class AtHost {
    const ids: set<nat>               // the contexts
    const ring: RingBuffer            // urc_buf
    const msgqMax: nat                // sm_at_host_msgq
    var insts: Instances              // instance_list, and what has gone to them from the ring
    var urcCtx: nat                   // sm_at_host_get_urc_ctx(); not in insts.ctxs: none
    var msgq: seq<nat>                // contexts with a pending SM_EVENT_URC or SM_EVENT_AT_MODE
    ghost var purged: bool            // sm_at_host_msgq was full once, so that messages are lost
    ghost var traffic: Traffic        // of the ring
    ghost var serving: int            // the context whose message is being handled, or -1
    ghost var servingRing: int        // the same until the ring has been looked at

    /** A context with something to send is going to look at it again: its timer runs, a message is
        waiting, or it is being served. The bytes in the ring are for the URC context. */
    ghost predicate Awake(c: nat)
      reads this`insts, this`msgq, this`serving, this`servingRing, this`urcCtx, this`traffic
    {
      c in insts.ctxs && !insts.ctxs[c].view.timer && c !in msgq ==>
        && (insts.ctxs[c].buffered == [] || c == serving)
        && (c != urcCtx || traffic.held == [] || c == servingRing)
    }

    ghost predicate RingOk()
      reads this`traffic, ring, ring.data
    {
      ring.Valid() && ring.Contents() == traffic.held
    }

    /** Every context but c is awake. */
    ghost predicate CtxsOkBut(c: int)
      reads this`insts, this`msgq, this`purged, this`serving, this`servingRing, this`urcCtx, this`traffic
    {
      && msgqMax > 0 && |msgq| <= msgqMax && insts.ctxs.Keys == ids
      && (purged || forall k :: k != c ==> Awake(k))
    }

    ghost predicate CtxsOk()
      reads this`insts, this`msgq, this`purged, this`serving, this`servingRing, this`urcCtx, this`traffic
    {
      CtxsOkBut(-1)
    }

    ghost predicate Valid()
      reads this, ring, ring.data
    {
      CtxsOk() && RingOk() && traffic.sent == insts.sent
    }

    constructor (ids: set<nat>, urcCtx: nat, ring: RingBuffer, msgqMax: nat)
      requires ring.Valid() && ring.Contents() == [] && msgqMax > 0
      ensures Valid() && this.ids == ids && !purged && this.ring == ring && traffic == NO_BYTES
      ensures serving == servingRing == -1 && msgq == [] && this.msgqMax == msgqMax
      ensures Flushing(-1, insts.ctxs) && forall c :: c in ids ==> insts.ctxs[c] == FRESH
    {
      this.ids, this.ring, this.msgqMax, this.urcCtx := ids, ring, msgqMax, urcCtx;
      insts := World(map c | c in ids :: FRESH, [], []);
      msgq, purged, traffic, serving, servingRing := [], false, NO_BYTES, -1, -1;
    }

    /** is_idle_ctx. */
    predicate IsIdle(c: nat)
      reads this`insts
    {
      c in insts.ctxs && Idle(insts.ctxs[c].view)
    }

    method Put(c: nat, x: GoodContext)
      requires c in insts.ctxs && x.common == insts.ctxs[c].common
      modifies this`insts
      ensures SameBut(c, old(insts), insts) && insts.ctxs[c] == x
    {
      insts := WithContext(insts, c, x);
    }

    /** One event happens to context c. */
    method Do(c: nat, e: Event)
      requires CtxsOkBut(c) && c in insts.ctxs && Allowed(insts.ctxs[c], e) && !e.SendCommon?
      modifies this`insts
      ensures CtxsOkBut(c) && SameBut(c, old(insts), insts)
      ensures insts.ctxs[c].view == ViewStep(old(insts.ctxs)[c].view, e)
      ensures insts.ctxs[c].history == old(insts.ctxs)[c].history + [e]
      ensures insts.ctxs[c].open == OpenStep(old(insts.ctxs)[c].open, e)
      ensures e.Queue? ==> insts.ctxs[c].buffered == old(insts.ctxs)[c].buffered + [e.urc]
      ensures e.Send? ==> insts.ctxs[c].buffered == old(insts.ctxs)[c].buffered[1..]
      ensures !e.Queue? && !e.Send? ==> insts.ctxs[c].buffered == old(insts.ctxs)[c].buffered
      ensures !e.Queue? && !e.Timer? && old(CtxsOk()) ==> CtxsOk()
    {
      Put(c, Happen(insts.ctxs[c], e));
      assert forall k :: k != c && old(Awake(k)) ==> Awake(k);
      assert !e.Queue? && !e.Timer? && old(Awake(c)) ==> Awake(c);
    }

    /** An event that neither moves a URC nor touches the timer. */
    method Note(c: nat, e: Event)
      requires CtxsOk() && c in insts.ctxs && !IsUrc(e) && !e.Queue? && !e.Timer?
      requires Permitted(insts.ctxs[c].view, insts.ctxs[c].open, e)
      modifies this`insts
      ensures CtxsOk() && SameBut(c, old(insts), insts)
      ensures insts.ctxs[c].view == ViewStep(old(insts.ctxs)[c].view, e)
      ensures insts.ctxs[c].buffered == old(insts.ctxs)[c].buffered
      ensures insts.ctxs[c].history == old(insts.ctxs)[c].history + [e]
      ensures insts.ctxs[c].open == OpenStep(old(insts.ctxs)[c].open, e)
    {
      Do(c, e);
    }

    /** An event on the work queue, outside of its flushes. */
    method Own(c: nat, e: Event)
      requires CtxsOk() && c in insts.ctxs && Flushing(-1, insts.ctxs)
      requires e.ModeSet? || e == Lock(0) || e == Unlock(0) || (e.Respond? && e.t == 0)
      modifies this`insts
      ensures CtxsOk() && insts.sent == old(insts.sent) && Flushing(-1, insts.ctxs)
      ensures insts.ctxs[c].view == ViewStep(old(insts.ctxs)[c].view, e)
      ensures insts.ctxs[c].buffered == old(insts.ctxs)[c].buffered
      ensures insts.ctxs[c].history == old(insts.ctxs)[c].history + [e]
    {
      Note(c, e);
      FlushingAt(-1, c, old(insts.ctxs), insts.ctxs);
    }

    /** The queue has got a message for c; if it was full, it was purged first. */
    twostate predicate Posted(c: nat)
      reads this`msgq, this`purged
    {
      && c in msgq
      && |msgq| == (if old(|msgq|) == msgqMax then 1 else old(|msgq|) + 1)
      && (old(|msgq|) == msgqMax ==> purged && msgq == [c])
    }

    /** sm_at_host_event_notify and send_msg. */
    method Notify(c: nat)
      requires CtxsOkBut(c)
      modifies this`msgq, this`purged
      ensures CtxsOk() && c in msgq && Posted(c)
      ensures purged <==> old(purged) || old(|msgq|) == msgqMax
    {
      if |msgq| == msgqMax {
        msgq := [];
        purged := true;
      }
      msgq := msgq + [c];
      assert c == msgq[|msgq| - 1];
      assert purged || forall k :: k != c && old(Awake(k)) ==> Awake(k);
    }

    /** k_timer_start and k_timer_stop. */
    method SetTimer(c: nat, on: bool)
      requires CtxsOkBut(c) && c in insts.ctxs && (on && 0 in insts.ctxs[c].open ==> !IsIdle(c))
      modifies this`insts
      ensures CtxsOkBut(c) && SameBut(c, old(insts), insts)
      ensures insts.ctxs[c].view == old(insts.ctxs[c].view).(timer := on)
      ensures insts.ctxs[c].buffered == old(insts.ctxs[c].buffered)
      ensures insts.ctxs[c].open == old(insts.ctxs[c].open)
    {
      Do(c, Timer(on));
    }

    /** check_idle_timer. */
    method CheckIdleTimer(c: nat, reschedule: bool)
      requires CtxsOkBut(c) && (c in insts.ctxs && 0 in insts.ctxs[c].open ==> !IsIdle(c))
      modifies this`insts
      ensures CtxsOk() && SameBut(c, old(insts), insts)
      ensures c in insts.ctxs ==> insts.ctxs[c].view.timer && insts.ctxs[c].buffered == old(insts.ctxs)[c].buffered
      ensures c in insts.ctxs ==> insts.ctxs[c].open == old(insts.ctxs)[c].open
    {
      if c in insts.ctxs && (reschedule || !insts.ctxs[c].view.timer) {
        SetTimer(c, true);
      }
    }

    /** After a URC was queued: a message if the context is idle, otherwise the timer. */
    method Wake(c: nat)
      requires CtxsOkBut(c)
      modifies this`insts, this`msgq, this`purged
      ensures CtxsOk() && SameBut(c, old(insts), insts) && (old(purged) ==> purged)
      ensures old(IsIdle(c)) ==> insts.ctxs == old(insts.ctxs) && Posted(c)
      ensures !old(IsIdle(c)) ==> msgq == old(msgq) && purged == old(purged)
      ensures !old(IsIdle(c)) && c in insts.ctxs ==> insts.ctxs[c].view.timer
      ensures c in insts.ctxs ==>
                insts.ctxs[c].buffered == old(insts.ctxs)[c].buffered && insts.ctxs[c].open == old(insts.ctxs)[c].open
    {
      if !IsIdle(c) {
        CheckIdleTimer(c, false);
      } else {
        Notify(c);
      }
    }

    /** sm_at_send_internal for a URC with a target pipe. */
    method UrcSendTo(c: nat, urc: Urc)
      requires CtxsOk() && c in insts.ctxs
      modifies this`insts, this`msgq, this`purged
      ensures CtxsOk() && SameBut(c, old(insts), insts) && (old(purged) ==> purged)
      ensures old(IsIdle(c)) ==> IsIdle(c) && Posted(c)
      ensures insts.ctxs[c].buffered == old(insts.ctxs)[c].buffered + [urc]
      ensures insts.ctxs[c].open == old(insts.ctxs)[c].open
      ensures old(IsIdle(c)) ==> insts.ctxs[c].history == old(insts.ctxs)[c].history + [Queue(urc)]
    {
      Do(c, Queue(urc));
      ghost var queued := insts;
      assert insts.ctxs[c].view == old(insts.ctxs[c].view);
      Wake(c);
      SameButTwice(c, old(insts), queued, insts);
    }

    /** ring_buf_reset. */
    method ResetRing()
      requires RingOk()
      modifies this`traffic, ring
      ensures RingOk() && traffic == Lose(old(traffic))
    {
      ring.Reset();
      traffic := Lose(traffic);
    }

    /** ring_buf_put, and ring_buf_reset when not all of it fits. */
    method PutRing(data: seq<byte>) returns (fits: bool)
      requires RingOk()
      modifies this`traffic, ring, ring.data
      ensures RingOk() && traffic.put == old(traffic.put) + data && traffic.sent == old(traffic.sent)
      ensures fits <==> |data| <= ring.data.Length - |old(traffic.held)|
      ensures traffic.held == if fits then old(traffic.held) + data else []
      ensures traffic.dropped <==> old(traffic.dropped) || !fits
    {
      var n := ring.Put(data);
      traffic := Offer(traffic, data, n);
      fits := n == |data|;
      if !fits {
        ResetRing();
      } else {
        assert data[..n] == data;
      }
    }

    /** The ring has a context, and space for the data. */
    predicate HasRoom(data: seq<byte>)
      reads this`insts, this`urcCtx, ring
    {
      urcCtx in insts.ctxs && |data| + ring.count <= ring.data.Length
    }

    /** The data are in the ring, or all of it is lost. */
    twostate predicate Offered(data: seq<byte>)
      reads this`insts, this`urcCtx, this`traffic, ring
    {
      && traffic.sent == old(traffic.sent)
      && traffic.held == (if old(HasRoom(data)) then old(traffic.held) + data else [])
      && (traffic.dropped <==> old(traffic.dropped) || !old(HasRoom(data)))
    }

    /** sm_at_send_internal for a URC without a target: without a URC context, or without space,
        the ring is emptied. */
    method UrcSend(data: seq<byte>)
      requires Valid()
      modifies this`insts, this`msgq, this`purged, this`traffic, ring, ring.data
      ensures Valid() && SameBut(urcCtx, old(insts), insts) && (old(purged) ==> purged)
      ensures old(IsIdle(urcCtx)) ==> insts.ctxs == old(insts.ctxs)
      ensures urcCtx in insts.ctxs ==> insts.ctxs[urcCtx].buffered == old(insts.ctxs)[urcCtx].buffered
      ensures urcCtx in insts.ctxs ==> insts.ctxs[urcCtx].open == old(insts.ctxs)[urcCtx].open
      ensures Offered(data)
      ensures !old(HasRoom(data)) ==> insts == old(insts) && msgq == old(msgq) && purged == old(purged)
      ensures old(HasRoom(data)) ==> if old(IsIdle(urcCtx)) then Posted(urcCtx) else insts.ctxs[urcCtx].view.timer
    {
      if urcCtx !in insts.ctxs {
        ResetRing();
        assert forall k :: old(Awake(k)) ==> Awake(k);
        return;
      }
      var fits := PutRing(data);
      assert forall k :: k != urcCtx && old(Awake(k)) ==> Awake(k);
      if fits {
        Wake(urcCtx);
      } else {
        assert old(Awake(urcCtx)) ==> Awake(urcCtx);
      }
    }

    /** The timer stops and a message is posted: idle_timer_handler, and the end of a command line
        in cmd_rx_handler. */
    method StopTimer(c: nat)
      requires CtxsOk() && c in insts.ctxs
      modifies this`insts, this`msgq, this`purged
      ensures CtxsOk() && SameBut(c, old(insts), insts) && (old(purged) ==> purged) && c in msgq
      ensures insts.ctxs[c].view == old(insts.ctxs)[c].view.(timer := false)
      ensures insts.ctxs[c].buffered == old(insts.ctxs)[c].buffered
      ensures insts.ctxs[c].open == old(insts.ctxs)[c].open
    {
      SetTimer(c, false);
      Notify(c);
    }

    /** Bytes may have gone out of the ring, none was lost and none came. */
    twostate predicate RingKept()
      reads this`traffic
    {
      && traffic.sent + traffic.held == old(traffic.sent + traffic.held)
      && traffic.put == old(traffic.put) && traffic.at == old(traffic.at) && traffic.dropped == old(traffic.dropped)
    }

    /** Something another thread or the timer does. */
    method Arrived(a: Arrival)
      requires Valid()
      modifies this`insts, this`msgq, this`purged, this`traffic, ring, ring.data
      ensures Valid() && Mild(old(insts.ctxs), insts.ctxs, !Locking(a)) && (old(purged) ==> purged)
      ensures LeavesRing(a, ids) ==> traffic == old(traffic)
      ensures !a.Common? && a.c in insts.ctxs ==>
                Arrives(a, old(insts.ctxs)[a.c], insts.ctxs[a.c], a.c in msgq) &&
                OthersSame(a.c, old(insts.ctxs), insts.ctxs)
      ensures a.Common? ==> Offered(a.data)
      ensures a.UrcTo? && a.c !in insts.ctxs ==> Offered(a.urc)
      ensures a.SendRingFrom? && a.c in insts.ctxs &&
              old(a.t in insts.ctxs[a.c].open && a.c == urcCtx && traffic.held != []) ==>
                |traffic.held| < |old(traffic.held)| && RingKept()
    {
      if a.UrcTo? || a.Common? || a.Expire? {
        UrcOrTimer(a);
      } else if a.c in insts.ctxs {
        ThreadStep(a);
      }
    }

    /** urc_send_to, urc_send, or a timer that expires. */
    method UrcOrTimer(a: Arrival)
      requires Valid() && (a.UrcTo? || a.Common? || a.Expire?)
      modifies this`insts, this`msgq, this`purged, this`traffic, ring, ring.data
      ensures Valid() && Mild(old(insts.ctxs), insts.ctxs, true) && (old(purged) ==> purged)
      ensures LeavesRing(a, ids) ==> traffic == old(traffic)
      ensures !a.Common? && a.c in insts.ctxs ==>
                Arrives(a, old(insts.ctxs)[a.c], insts.ctxs[a.c], a.c in msgq) &&
                OthersSame(a.c, old(insts.ctxs), insts.ctxs)
      ensures a.Common? ==> Offered(a.data)
      ensures a.UrcTo? && a.c !in insts.ctxs ==> Offered(a.urc)
    {
      match a
      case UrcTo(c, urc) =>
        // Without a context for the pipe the URC goes the way of those without a target.
        if c in insts.ctxs {
          UrcSendTo(c, urc);
          MildAt(c, old(insts.ctxs), insts.ctxs, true);
        } else {
          UrcSend(urc);
          MildAt(urcCtx, old(insts.ctxs), insts.ctxs, true);
        }
      case Common(data) =>
        UrcSend(data);
        MildAt(urcCtx, old(insts.ctxs), insts.ctxs, true);
      case Expire(c) =>
        if c in insts.ctxs && insts.ctxs[c].view.timer {
          StopTimer(c);
          MildAt(c, old(insts.ctxs), insts.ctxs, true);
        }
    }

    /** A step of a thread other than the work queue. */
    method ThreadStep(a: Arrival)
      requires Valid() && !a.UrcTo? && !a.Common? && !a.Expire? && a.c in insts.ctxs
      modifies this`insts, this`msgq, this`purged, this`traffic, ring
      ensures Valid() && Mild(old(insts.ctxs), insts.ctxs, !Locking(a)) && (old(purged) ==> purged)
      ensures !a.SendRingFrom? ==> traffic == old(traffic)
      ensures Arrives(a, old(insts.ctxs)[a.c], insts.ctxs[a.c], a.c in msgq)
      ensures OthersSame(a.c, old(insts.ctxs), insts.ctxs)
      ensures a.SendRingFrom? && old(a.t in insts.ctxs[a.c].open && a.c == urcCtx && traffic.held != []) ==>
                |traffic.held| < |old(traffic.held)| && RingKept()
    {
      if a.SendRingFrom? {
        ThreadSendsRing(a.c, a.t);
      } else {
        ThreadLeavesRing(a);
      }
    }

    /** In its flush a thread sends the next claim of the ring. */
    method ThreadSendsRing(c: nat, t: nat)
      requires Valid() && c in insts.ctxs
      modifies this`insts, this`traffic, ring
      ensures Valid() && Mild(old(insts.ctxs), insts.ctxs, true)
      ensures OthersSame(c, old(insts.ctxs), insts.ctxs)
      ensures if old(t in insts.ctxs[c].open && c == urcCtx && traffic.held != [])
              then |traffic.held| < |old(traffic.held)| && RingKept() else traffic == old(traffic)
    {
      if t in insts.ctxs[c].open && c == urcCtx && ring.count > 0 {
        SendClaim(c, t);
        MildAt(c, old(insts.ctxs), insts.ctxs, true);
      }
    }

    method ThreadLeavesRing(a: Arrival)
      requires CtxsOk() && !a.UrcTo? && !a.Common? && !a.Expire? && a.c in insts.ctxs
      modifies this`insts, this`msgq, this`purged
      ensures CtxsOk() && Mild(old(insts.ctxs), insts.ctxs, !Locking(a)) && (old(purged) ==> purged)
      ensures insts.sent == old(insts.sent)
      ensures Arrives(a, old(insts.ctxs)[a.c], insts.ctxs[a.c], a.c in msgq)
      ensures OthersSame(a.c, old(insts.ctxs), insts.ctxs)
    {
      if a.t in insts.ctxs[a.c].open {
        ThreadFlushes(a);
      } else {
        ThreadActs(a);
      }
    }

    /** In its flush it sends the next URC, or finds nothing left. */
    method ThreadFlushes(a: Arrival)
      requires CtxsOk() && !a.UrcTo? && !a.Common? && !a.Expire? && a.c in insts.ctxs && a.t in insts.ctxs[a.c].open
      modifies this`insts
      ensures CtxsOk() && Mild(old(insts.ctxs), insts.ctxs, true) && insts.sent == old(insts.sent)
      ensures Arrives(a, old(insts.ctxs)[a.c], insts.ctxs[a.c], a.c in msgq)
      ensures OthersSame(a.c, old(insts.ctxs), insts.ctxs)
    {
      if a.SendFrom? && insts.ctxs[a.c].buffered != [] {
        SendHead(a.c, a.t);
        MildAt(a.c, old(insts.ctxs), insts.ctxs, true);
      } else if a.EndFrom? && insts.ctxs[a.c].buffered == [] {
        Note(a.c, FlushEnd(a.t));
        MildAt(a.c, old(insts.ctxs), insts.ctxs, true);
      }
    }

    /** Outside of a flush it may start one if the context is idle, lock, unlock or respond. */
    method ThreadActs(a: Arrival)
      requires CtxsOk() && !a.UrcTo? && !a.Common? && !a.Expire? && a.c in insts.ctxs && a.t !in insts.ctxs[a.c].open
      modifies this`insts, this`msgq, this`purged
      ensures CtxsOk() && Mild(old(insts.ctxs), insts.ctxs, !Locking(a)) && (old(purged) ==> purged)
      ensures insts.sent == old(insts.sent)
      ensures Arrives(a, old(insts.ctxs)[a.c], insts.ctxs[a.c], a.c in msgq)
      ensures OthersSame(a.c, old(insts.ctxs), insts.ctxs)
    {
      if Locking(a) {
        ThreadLocks(a);
      } else {
        ThreadTalks(a);
      }
    }

    method ThreadTalks(a: Arrival)
      requires CtxsOk() && !a.UrcTo? && !a.Common? && !a.Expire? && a.c in insts.ctxs && a.t !in insts.ctxs[a.c].open
      requires !Locking(a)
      modifies this`insts
      ensures CtxsOk() && Mild(old(insts.ctxs), insts.ctxs, true) && insts.sent == old(insts.sent)
      ensures Arrives(a, old(insts.ctxs)[a.c], insts.ctxs[a.c], a.c in msgq)
      ensures OthersSame(a.c, old(insts.ctxs), insts.ctxs)
    {
      if a.BeginFrom? && IsIdle(a.c) {
        Note(a.c, FlushBegin(a.t));
        MildAt(a.c, old(insts.ctxs), insts.ctxs, true);
      } else if a.RespondFrom? {
        Note(a.c, Respond(a.t, a.data));
        MildAt(a.c, old(insts.ctxs), insts.ctxs, true);
      }
    }

    method ThreadLocks(a: Arrival)
      requires CtxsOk() && Locking(a) && a.c in insts.ctxs && a.t !in insts.ctxs[a.c].open
      modifies this`insts, this`msgq, this`purged
      ensures CtxsOk() && Mild(old(insts.ctxs), insts.ctxs, false) && (old(purged) ==> purged)
      ensures insts.sent == old(insts.sent)
      ensures Arrives(a, old(insts.ctxs)[a.c], insts.ctxs[a.c], a.c in msgq)
      ensures OthersSame(a.c, old(insts.ctxs), insts.ctxs)
    {
      if a.LockFrom? {
        TakeLock(a.c, a.t);
        MildAt(a.c, old(insts.ctxs), insts.ctxs, false);
      } else {
        Release(a.c, a.t, a.pipe);
        MildAt(a.c, old(insts.ctxs), insts.ctxs, false);
      }
    }

    /** The same as an observer sees it. */
    method TakeArrival(a: Arrival)
      requires Valid()
      modifies this`insts, this`msgq, this`purged, this`traffic, ring, ring.data
      ensures Valid() && Mild(old(insts.ctxs), insts.ctxs, !Locking(a)) && (old(purged) ==> purged)
      ensures LeavesRing(a, ids) ==> traffic == old(traffic)
      ensures StepOk(Arrive(a), old(Now()), Now())
    {
      Arrived(a);
    }

    /** The next thing to arrive, if there is one. */
    method ArriveNext(during: seq<Arrival>) returns (rest: seq<Arrival>)
      requires Valid()
      modifies this`insts, this`msgq, this`purged, this`traffic, ring, ring.data
      ensures Valid() && Mild(old(insts.ctxs), insts.ctxs, Quiet(during)) && (old(purged) ==> purged)
      ensures during == [] ==> rest == [] && insts.ctxs == old(insts.ctxs) && ring.count == old(ring.count)
      ensures during != [] ==> rest == during[1..] && StepOk(Arrive(during[0]), old(Now()), Now())
      ensures Quiet(during) ==> Quiet(rest)
      ensures LeaveRing(during, ids) ==> LeaveRing(rest, ids) && traffic == old(traffic)
    {
      if during == [] {
        return [];
      }
      TakeArrival(during[0]);
      rest := during[1..];
    }

    /** One claim of the ring goes to the pipe. */
    method SendClaim(c: nat, t: nat)
      requires Valid() && c in insts.ctxs && t in insts.ctxs[c].open && ring.count > 0
      modifies this`insts, this`traffic, ring
      ensures Valid() && OthersSame(c, old(insts.ctxs), insts.ctxs) && ring.count < old(ring.count)
      ensures RingKept()
      ensures insts.ctxs[c].buffered == old(insts.ctxs)[c].buffered
      ensures insts.ctxs[c].open == old(insts.ctxs)[c].open && insts.ctxs[c].view == old(insts.ctxs)[c].view
    {
      var claim := FreeClaim();
      DoCommon(c, t, claim);
    }

    /** The claim is noted in the context's history. */
    method DoCommon(c: nat, t: nat, claim: seq<byte>)
      requires CtxsOk() && c in insts.ctxs && t in insts.ctxs[c].open
      modifies this`insts
      ensures CtxsOk() && OthersSame(c, old(insts.ctxs), insts.ctxs) && insts.sent == old(insts.sent) + claim
      ensures insts.ctxs[c].buffered == old(insts.ctxs)[c].buffered
      ensures insts.ctxs[c].open == old(insts.ctxs)[c].open && insts.ctxs[c].view == old(insts.ctxs)[c].view
    {
      PutClaim(c, t, claim);
      assert forall k :: old(Awake(k)) ==> Awake(k);
    }

    method PutClaim(c: nat, t: nat, claim: seq<byte>)
      requires c in insts.ctxs && t in insts.ctxs[c].open
      modifies this`insts
      ensures OthersSame(c, old(insts.ctxs), insts.ctxs) && insts.sent == old(insts.sent) + claim
      ensures insts.ctxs[c].buffered == old(insts.ctxs)[c].buffered
      ensures insts.ctxs[c].open == old(insts.ctxs)[c].open && insts.ctxs[c].view == old(insts.ctxs)[c].view
    {
      ClaimGone(insts, c, t, claim);
      insts := WithClaim(insts, c, t, claim);
    }

    /** The head of the context's queue goes to the pipe. */
    method SendHead(c: nat, t: nat)
      requires CtxsOk() && c in insts.ctxs && t in insts.ctxs[c].open && insts.ctxs[c].buffered != []
      modifies this`insts
      ensures CtxsOk() && SameBut(c, old(insts), insts)
      ensures insts.ctxs[c].buffered == old(insts.ctxs)[c].buffered[1..]
      ensures insts.ctxs[c].open == old(insts.ctxs)[c].open && insts.ctxs[c].view == old(insts.ctxs)[c].view
      ensures insts.ctxs[c].history == old(insts.ctxs)[c].history + [Send(t, old(insts.ctxs)[c].buffered[0])]
    {
      Do(c, Send(t, insts.ctxs[c].buffered[0]));
    }

    /** Fewer bytes in the ring need no more wake-ups. */
    method FreeClaim() returns (claim: seq<byte>)
      requires Valid() && ring.count > 0
      modifies this`traffic, ring
      ensures CtxsOk() && RingOk() && ring.count < old(ring.count) && RingKept()
      ensures traffic.sent == old(traffic.sent) + claim
    {
      claim := TakeClaim();
      assert forall k :: old(Awake(k)) ==> Awake(k);
    }

    /** ring_buf_get_claim and ring_buf_get_finish. */
    method TakeClaim() returns (claim: seq<byte>)
      requires RingOk() && ring.count > 0
      modifies this`traffic, ring
      ensures |claim| <= |old(traffic.held)| && claim == old(traffic.held)[..|claim|]
      ensures RingOk() && ring.count < old(ring.count) && traffic == Leave(old(traffic), |claim|)
    {
      claim := ring.Claim();
      ring.Finish(|claim|);
      traffic := Leave(traffic, |claim|);
    }

    /** send_urcs: the ring goes to the URC context. */
    method SendUrcs(c: nat, during: seq<Arrival>) returns (rest: seq<Arrival>)
      requires Valid() && c in insts.ctxs && Flushing(c, insts.ctxs)
      modifies this`insts, this`msgq, this`purged, this`traffic, ring, ring.data
      ensures Valid() && (old(purged) ==> purged) && Flushing(c, insts.ctxs)
      ensures Quiet(during) ==> Quiet(rest) && (old(IsIdle(c)) ==> IsIdle(c))
      ensures c == urcCtx ==> traffic.held == []
      ensures c != urcCtx ==> traffic == old(traffic) && rest == during
      ensures LeaveRing(during, ids) ==> LeaveRing(rest, ids) && RingFlushed(c)
    {
      rest := during;
      if c != urcCtx {
        return;
      }
      while ring.count > 0
        invariant Valid() && (old(purged) ==> purged) && Flushing(c, insts.ctxs)
        invariant Quiet(during) ==> Quiet(rest) && (old(IsIdle(c)) ==> IsIdle(c))
        invariant LeaveRing(during, ids) ==> LeaveRing(rest, ids) && RingKept()
        decreases |rest|, ring.count
      {
        rest := SendRound(c, rest);
      }
      if LeaveRing(during, ids) {
        AllLeft(old(traffic), traffic);
      }
    }

    /** The next thing to arrive while the work queue flushes context c. */
    method ArriveInFlush(c: nat, during: seq<Arrival>) returns (rest: seq<Arrival>)
      requires Valid() && c in insts.ctxs && Flushing(c, insts.ctxs)
      modifies this`insts, this`msgq, this`purged, this`traffic, ring, ring.data
      ensures Valid() && (old(purged) ==> purged) && Flushing(c, insts.ctxs)
      ensures Quiet(during) ==> Quiet(rest) && (old(IsIdle(c)) ==> IsIdle(c))
      ensures |insts.ctxs[c].buffered| <= |old(insts.ctxs)[c].buffered| + 1
      ensures if during == [] then rest == [] && insts.ctxs == old(insts.ctxs) && ring.count == old(ring.count)
              else |rest| < |during|
      ensures LeaveRing(during, ids) ==> LeaveRing(rest, ids) && traffic == old(traffic)
    {
      rest := ArriveNext(during);
      StillFlushing(c, old(insts.ctxs), insts.ctxs, Quiet(during));
      assert MildOne(old(insts.ctxs)[c], insts.ctxs[c], Quiet(during));
    }

    /** One claim goes to the pipe; then something may arrive. */
    method SendRound(c: nat, during: seq<Arrival>) returns (rest: seq<Arrival>)
      requires Valid() && c in insts.ctxs && Flushing(c, insts.ctxs) && ring.count > 0
      modifies this`insts, this`msgq, this`purged, this`traffic, ring, ring.data
      ensures Valid() && (old(purged) ==> purged) && Flushing(c, insts.ctxs)
      ensures Quiet(during) ==> Quiet(rest) && (old(IsIdle(c)) ==> IsIdle(c))
      ensures if during == [] then rest == [] && ring.count < old(ring.count) else |rest| < |during|
      ensures LeaveRing(during, ids) ==> LeaveRing(rest, ids) && RingKept()
    {
      SendClaim(c, 0);
      FlushingAt(c, c, old(insts.ctxs), insts.ctxs);
      rest := ArriveInFlush(c, during);
    }

    /** The head of the context's queue goes to the pipe; then something may arrive. */
    method SendFirst(c: nat, during: seq<Arrival>) returns (rest: seq<Arrival>)
      requires Valid() && c in insts.ctxs && Flushing(c, insts.ctxs) && insts.ctxs[c].buffered != []
      modifies this`insts, this`msgq, this`purged, this`traffic, ring, ring.data
      ensures Valid() && (old(purged) ==> purged) && Flushing(c, insts.ctxs)
      ensures Quiet(during) ==> Quiet(rest) && (old(IsIdle(c)) ==> IsIdle(c))
      ensures 2 * |rest| + |insts.ctxs[c].buffered| < 2 * |during| + |old(insts.ctxs)[c].buffered|
      ensures LeaveRing(during, ids) ==> LeaveRing(rest, ids) && traffic == old(traffic)
    {
      SendHead(c, 0);
      FlushingAt(c, c, old(insts.ctxs), insts.ctxs);
      rest := ArriveInFlush(c, during);
    }

    /** The check that the context is idle, before a flush. */
    method BeginFlush(c: nat)
      requires Valid() && IsIdle(c) && Flushing(-1, insts.ctxs)
      modifies this`insts
      ensures Valid() && Flushing(c, insts.ctxs) && IsIdle(c)
      ensures insts.ctxs[c].buffered == old(insts.ctxs)[c].buffered
      ensures insts.ctxs[c].open == old(insts.ctxs)[c].open + {0}
      ensures insts.ctxs[c].history == old(insts.ctxs)[c].history + [FlushBegin(0)]
    {
      Note(c, FlushBegin(0));
    }

    method EndFlush(c: nat)
      requires Valid() && c in insts.ctxs && Flushing(c, insts.ctxs)
      modifies this`insts
      ensures Valid() && Flushing(-1, insts.ctxs)
      ensures insts.ctxs[c].view == old(insts.ctxs)[c].view && insts.ctxs[c].buffered == old(insts.ctxs)[c].buffered
    {
      Note(c, FlushEnd(0));
    }

    /** What was in the ring has been sent, if c is the URC context. */
    twostate predicate RingFlushed(c: nat)
      reads this`traffic, this`urcCtx
    {
      traffic == if c == urcCtx then Emptied(old(traffic)) else old(traffic)
    }

    /** flush_pipe_urcs: afterwards nothing is queued, whatever arrived in between. The loop does not
        look at the lock again: only without locks of other threads the context is sure to stay
        idle. */
    method FlushPipeUrcs(c: nat, during: seq<Arrival>)
      requires Valid() && IsIdle(c) && Flushing(-1, insts.ctxs) && (servingRing == -1 || servingRing == c)
      modifies this`insts, this`msgq, this`purged, this`traffic, this`servingRing, ring, ring.data
      ensures Valid() && (old(purged) ==> purged) && Flushing(-1, insts.ctxs)
      ensures insts.ctxs[c].buffered == [] && servingRing == -1
      ensures Quiet(during) ==> IsIdle(c)
      ensures LeaveRing(during, ids) ==> RingFlushed(c)
    {
      OpenFlush(c, during);
      EndFlush(c);
    }

    method OpenFlush(c: nat, during: seq<Arrival>)
      requires Valid() && IsIdle(c) && Flushing(-1, insts.ctxs) && (servingRing == -1 || servingRing == c)
      modifies this`insts, this`msgq, this`purged, this`traffic, this`servingRing, ring, ring.data
      ensures Valid() && (old(purged) ==> purged) && Flushing(c, insts.ctxs)
      ensures insts.ctxs[c].buffered == [] && servingRing == -1
      ensures Quiet(during) ==> IsIdle(c)
      ensures LeaveRing(during, ids) ==> RingFlushed(c)
    {
      BeginFlush(c);
      FlushBoth(c, during);
    }

    /** The ring, then the queue. */
    method FlushBoth(c: nat, during: seq<Arrival>)
      requires Valid() && IsIdle(c) && Flushing(c, insts.ctxs) && (servingRing == -1 || servingRing == c)
      modifies this`insts, this`msgq, this`purged, this`traffic, this`servingRing, ring, ring.data
      ensures Valid() && (old(purged) ==> purged) && Flushing(c, insts.ctxs)
      ensures insts.ctxs[c].buffered == [] && servingRing == -1
      ensures Quiet(during) ==> IsIdle(c)
      ensures LeaveRing(during, ids) ==> RingFlushed(c)
    {
      var rest := FlushRing(c, during);
      SendQueue(c, rest);
    }

    method FlushRing(c: nat, during: seq<Arrival>) returns (rest: seq<Arrival>)
      requires Valid() && IsIdle(c) && Flushing(c, insts.ctxs) && (servingRing == -1 || servingRing == c)
      modifies this`insts, this`msgq, this`purged, this`traffic, this`servingRing, ring, ring.data
      ensures Valid() && (old(purged) ==> purged) && Flushing(c, insts.ctxs) && servingRing == -1
      ensures Quiet(during) ==> Quiet(rest) && IsIdle(c)
      ensures LeaveRing(during, ids) ==> LeaveRing(rest, ids) && RingFlushed(c)
    {
      rest := SendUrcs(c, during);
      RingServed(c);
    }

    /** The second half of flush_pipe_urcs: the context's own queue. */
    method SendQueue(c: nat, during: seq<Arrival>)
      requires Valid() && c in insts.ctxs && Flushing(c, insts.ctxs)
      modifies this`insts, this`msgq, this`purged, this`traffic, ring, ring.data
      ensures Valid() && (old(purged) ==> purged) && Flushing(c, insts.ctxs)
      ensures insts.ctxs[c].buffered == [] && (Quiet(during) && old(IsIdle(c)) ==> IsIdle(c))
      ensures LeaveRing(during, ids) ==> traffic == old(traffic)
    {
      var rest := during;
      while insts.ctxs[c].buffered != []
        invariant Valid() && (old(purged) ==> purged) && Flushing(c, insts.ctxs)
        invariant Quiet(during) ==> Quiet(rest) && (old(IsIdle(c)) ==> IsIdle(c))
        invariant LeaveRing(during, ids) ==> LeaveRing(rest, ids) && traffic == old(traffic)
        decreases 2 * |rest| + |insts.ctxs[c].buffered|
      {
        rest := SendFirst(c, rest);
      }
    }

    ghost method RingServed(c: nat)
      requires CtxsOk() && (servingRing == -1 || servingRing == c) && (c == urcCtx ==> traffic.held == [])
      modifies this`servingRing
      ensures CtxsOk() && servingRing == -1
    {
      servingRing := -1;
      assert forall k :: old(Awake(k)) ==> Awake(k);
    }

    /** if (is_idle(ctx)) flush_pipe_urcs(ctx). */
    method FlushIfIdle(c: nat, during: seq<Arrival>)
      requires Valid() && c in insts.ctxs && servingRing == -1 && Flushing(-1, insts.ctxs)
      modifies this`insts, this`msgq, this`purged, this`traffic, this`servingRing, ring, ring.data
      ensures Valid() && (old(purged) ==> purged) && servingRing == -1
      ensures Flushing(-1, insts.ctxs) && (Quiet(during) ==> insts.ctxs[c].view == old(insts.ctxs)[c].view)
      ensures old(IsIdle(c)) ==> insts.ctxs[c].buffered == []
      ensures old(IsIdle(c)) && LeaveRing(during, ids) ==> RingFlushed(c)
      ensures !old(IsIdle(c)) ==> insts.ctxs == old(insts.ctxs) && traffic == old(traffic)
    {
      if IsIdle(c) {
        FlushPipeUrcs(c, during);
      }
    }

    /** sm_at_host_lock_ctx: what was queued goes out before the lock is taken. */
    method LockContext(c: nat, during: seq<Arrival>)
      requires Valid() && c in insts.ctxs && servingRing == -1 && Flushing(-1, insts.ctxs)
      modifies this`insts, this`msgq, this`purged, this`traffic, this`servingRing, ring, ring.data
      ensures Valid() && (old(purged) ==> purged) && servingRing == -1
      ensures Quiet(during) || !old(IsIdle(c)) ==>
                insts.ctxs[c].view == old(insts.ctxs)[c].view.(locks := old(insts.ctxs)[c].view.locks + 1)
      ensures Flushing(-1, insts.ctxs)
      ensures insts.ctxs[c].history != []
      ensures insts.ctxs[c].history[|insts.ctxs[c].history| - 1] == Lock(0)
      ensures old(IsIdle(c)) ==> insts.ctxs[c].buffered == []
      ensures old(IsIdle(c)) && LeaveRing(during, ids) ==> RingFlushed(c)
    {
      FlushIfIdle(c, during);
      OwnLock(c);
    }

    method OwnMode(c: nat, mode: Mode)
      requires CtxsOk() && c in insts.ctxs && Flushing(-1, insts.ctxs)
      modifies this`insts
      ensures CtxsOk() && insts.sent == old(insts.sent) && Flushing(-1, insts.ctxs)
      ensures insts.ctxs[c].view == old(insts.ctxs)[c].view.(mode := mode)
    {
      Own(c, ModeSet(mode));
    }

    method OwnUnlock(c: nat)
      requires CtxsOk() && c in insts.ctxs && Flushing(-1, insts.ctxs)
      modifies this`insts
      ensures CtxsOk() && insts.sent == old(insts.sent) && Flushing(-1, insts.ctxs)
      ensures insts.ctxs[c].view == old(insts.ctxs)[c].view.(locks := old(insts.ctxs)[c].view.locks - 1)
    {
      Own(c, Unlock(0));
    }

    method OwnLock(c: nat)
      requires CtxsOk() && c in insts.ctxs && Flushing(-1, insts.ctxs)
      modifies this`insts
      ensures CtxsOk() && insts.sent == old(insts.sent) && Flushing(-1, insts.ctxs)
      ensures insts.ctxs[c].view == old(insts.ctxs)[c].view.(locks := old(insts.ctxs)[c].view.locks + 1)
      ensures insts.ctxs[c].history != [] && insts.ctxs[c].history[|insts.ctxs[c].history| - 1] == Lock(0)
      ensures insts.ctxs[c].buffered == old(insts.ctxs)[c].buffered
    {
      Own(c, Lock(0));
    }

    method TakeLock(c: nat, t: nat)
      requires CtxsOk() && c in insts.ctxs && t !in insts.ctxs[c].open
      modifies this`insts
      ensures CtxsOk() && SameBut(c, old(insts), insts)
      ensures insts.ctxs[c].view == old(insts.ctxs)[c].view.(locks := old(insts.ctxs)[c].view.locks + 1)
      ensures insts.ctxs[c].buffered == old(insts.ctxs)[c].buffered && insts.ctxs[c].open == old(insts.ctxs)[c].open
      ensures insts.ctxs[c].history == old(insts.ctxs)[c].history + [Lock(t)]
    {
      Note(c, Lock(t));
    }

    /** atomic_dec, and the message when that was the last lock of an open pipe. */
    method Release(c: nat, t: nat, open: bool)
      requires CtxsOk() && c in insts.ctxs && t !in insts.ctxs[c].open
      modifies this`insts, this`msgq, this`purged
      ensures CtxsOk() && SameBut(c, old(insts), insts) && (old(purged) ==> purged)
      ensures insts.ctxs[c].view == old(insts.ctxs)[c].view.(locks := old(insts.ctxs)[c].view.locks - 1)
      ensures insts.ctxs[c].buffered == old(insts.ctxs)[c].buffered && insts.ctxs[c].open == old(insts.ctxs)[c].open
      ensures old(insts.ctxs)[c].view.locks == 1 && open ==> c in msgq
      ensures !(old(insts.ctxs)[c].view.locks == 1 && open) ==> msgq == old(msgq) && purged == old(purged)
    {
      var was := insts.ctxs[c].view.locks;
      Note(c, Unlock(t));
      assert insts.ctxs[c].view == old(insts.ctxs[c].view).(locks := was - 1);
      if was == 1 && open {
        Notify(c);
      }
    }

    /** sm_at_host_cmd_done: the last unlock of an open pipe asks for a flush. */
    method CommandDone(c: nat, open: bool)
      requires Valid() && c in insts.ctxs && Flushing(-1, insts.ctxs)
      modifies this`insts, this`msgq, this`purged
      ensures Valid() && (old(purged) ==> purged) && Flushing(-1, insts.ctxs)
      ensures insts.ctxs[c].view == old(insts.ctxs)[c].view.(locks := old(insts.ctxs)[c].view.locks - 1)
      ensures old(insts.ctxs)[c].view.locks == 1 && open ==> c in msgq
      ensures !(old(insts.ctxs)[c].view.locks == 1 && open) ==> msgq == old(msgq) && purged == old(purged)
    {
      Release(c, 0, open);
    }

    /** rsp_send, rsp_send_to and data_send: in an idle moment all queued URCs go first. */
    method SendResponse(c: nat, data: seq<byte>, during: seq<Arrival>)
      requires Valid() && c in insts.ctxs && servingRing == -1 && Flushing(-1, insts.ctxs)
      modifies this`insts, this`msgq, this`purged, this`traffic, this`servingRing, ring, ring.data
      ensures Valid() && (old(purged) ==> purged) && servingRing == -1
      ensures Flushing(-1, insts.ctxs)
      ensures insts.ctxs[c].history != [] && insts.ctxs[c].history[|insts.ctxs[c].history| - 1] == Respond(0, data)
      ensures old(IsIdle(c)) ==> insts.ctxs[c].buffered == []
      ensures old(IsIdle(c)) && LeaveRing(during, ids) ==> RingFlushed(c)
      ensures !old(IsIdle(c)) ==>
                insts.ctxs[c].history == old(insts.ctxs)[c].history + [Respond(0, data)] && traffic == old(traffic)
    {
      FlushIfIdle(c, during);
      Own(c, Respond(0, data));
    }

    /** set_sm_mode, and the message of exit_datamode on the way back to AT mode. */
    method ChangeMode(c: nat, mode: Mode) returns (ok: bool)
      requires Valid() && c in insts.ctxs && Flushing(-1, insts.ctxs)
      modifies this`insts, this`msgq, this`purged
      ensures Valid() && Flushing(-1, insts.ctxs) && (old(purged) ==> purged)
      ensures ok <==> CanChange(old(insts.ctxs)[c].view.mode, mode)
      ensures insts.ctxs[c].view == if ok then old(insts.ctxs)[c].view.(mode := mode) else old(insts.ctxs)[c].view
      ensures ok && mode == AtMode ==> c in msgq
      ensures !(ok && mode == AtMode) ==> msgq == old(msgq) && purged == old(purged)
    {
      ok := if insts.ctxs[c].view.mode == AtMode then mode == DataMode else mode != DataMode;
      if ok {
        OwnMode(c, mode);
        if mode == AtMode {
          Notify(c);
        }
      }
    }

    /** k_msgq_get. */
    method GetMessage() returns (c: nat)
      requires Valid() && msgq != [] && serving == servingRing == -1
      modifies this`msgq, this`serving, this`servingRing
      ensures Valid() && c == old(msgq[0]) && serving == servingRing == c
    {
      c := msgq[0];
      assert forall k :: k in msgq ==> k == c || k in msgq[1..];
      msgq, serving, servingRing := msgq[1..], c, c;
      assert forall k :: old(Awake(k)) ==> Awake(k);
    }

    /** One message of sm_at_host_work_fn: flush if idle, otherwise look again later. */
    method HandleMessage(during: seq<Arrival>)
      requires Valid() && msgq != [] && serving == servingRing == -1 && Flushing(-1, insts.ctxs)
      modifies this`insts, this`msgq, this`purged, this`traffic, this`serving,
               this`servingRing, ring, ring.data
      ensures Valid() && (old(purged) ==> purged) && serving == servingRing == -1
      ensures Flushing(-1, insts.ctxs) && (old(msgq[0]) in insts.ctxs ==>
                ServedOk(old(insts.ctxs)[old(msgq[0])], insts.ctxs[old(msgq[0])], Quiet(during)))
      ensures old(IsIdle(msgq[0])) && LeaveRing(during, ids) ==> RingFlushed(old(msgq[0]))
    {
      var c := GetMessage();
      Serve(c, during);
      EndService(c);
    }

    method Serve(c: nat, during: seq<Arrival>)
      requires Valid() && servingRing == c && Flushing(-1, insts.ctxs)
      modifies this`insts, this`msgq, this`purged, this`traffic, this`servingRing, ring, ring.data
      ensures Valid() && Flushing(-1, insts.ctxs) && (old(purged) ==> purged)
      ensures servingRing == c || servingRing == -1
      ensures old(IsIdle(c)) && LeaveRing(during, ids) ==> RingFlushed(c)
      ensures c in insts.ctxs ==>
                ServedOk(old(insts.ctxs)[c], insts.ctxs[c], Quiet(during)) &&
                (!insts.ctxs[c].view.timer ==> servingRing == -1)
    {
      if c in insts.ctxs {
        if IsIdle(c) {
          FlushPipeUrcs(c, during);
        } else {
          CheckIdleTimer(c, false);
        }
      }
    }

    ghost method EndService(c: nat)
      requires CtxsOk() && serving == c && (servingRing == c || servingRing == -1)
      requires c in insts.ctxs ==> insts.ctxs[c].view.timer || (insts.ctxs[c].buffered == [] && servingRing == -1)
      modifies this`serving, this`servingRing
      ensures CtxsOk() && serving == servingRing == -1
    {
      serving, servingRing := -1, -1;
      assert forall k :: old(Awake(k)) ==> Awake(k);
    }

    /** A step of one context in which nothing can reach the pipe. */
    method TakeQuiet(s: Step)
      requires CtxsOk() && (s.RxByte? || s.CmdBegin? || s.CmdEnd? || s.CmdFinished?) && s.c in insts.ctxs
      requires Flushing(-1, insts.ctxs)
      modifies this`insts, this`msgq, this`purged
      ensures CtxsOk() && Flushing(-1, insts.ctxs) && insts.sent == old(insts.sent) && (old(purged) ==> purged)
      ensures Did(s, old(insts.ctxs)[s.c], insts.ctxs[s.c], s.c in msgq)
    {
      if s.RxByte? {
        CheckIdleTimer(s.c, true);
      } else if s.CmdBegin? {
        OwnLock(s.c);
      } else if s.CmdEnd? {
        OwnUnlock(s.c);
      } else {
        StopTimer(s.c);
      }
    }

    /** A step of one context. */
    method TakeAt(s: Step)
      requires Valid() && !s.Dispatch? && !s.Arrive? && !s.SelectUrc? && s.c in insts.ctxs && servingRing == -1
      requires Flushing(-1, insts.ctxs)
      modifies this`insts, this`msgq, this`purged, this`traffic, this`servingRing, ring, ring.data
      ensures Valid() && Flushing(-1, insts.ctxs) && servingRing == -1
      ensures (old(purged) ==> purged)
      ensures Did(s, old(insts.ctxs)[s.c], insts.ctxs[s.c], s.c in msgq)
    {
      if s.LockCtx? {
        LockContext(s.c, s.during);
      } else if s.RspSend? {
        SendResponse(s.c, s.data, s.during);
      } else if s.CmdDone? {
        CommandDone(s.c, s.open);
      } else if s.SetMode? {
        var _ := ChangeMode(s.c, s.mode);
      } else {
        TakeQuiet(s);
      }
    }

    /** AT#XCMUXURC: the new URC context will look at the ring. */
    method SelectUrcContext(c: nat)
      requires CtxsOk() && Flushing(-1, insts.ctxs)
      modifies this`urcCtx, this`insts
      ensures CtxsOk() && Flushing(-1, insts.ctxs) && urcCtx == c
      ensures insts.sent == old(insts.sent)
    {
      urcCtx := c;
      assert forall k :: k != c && old(Awake(k)) ==> Awake(k);
      CheckIdleTimer(c, false);
    }

    ghost function Now(): Snapshot
      reads this`insts, this`msgq, this`urcCtx, this`traffic, ring
    {
      Snapshot(insts.ctxs, msgq, urcCtx, traffic.sent, traffic.held,
               if ring.count <= ring.data.Length then ring.data.Length - ring.count else 0)
    }

    /** Any step. */
    method Take(s: Step)
      requires Valid() && serving == servingRing == -1 && Flushing(-1, insts.ctxs)
      modifies this, ring, ring.data
      ensures Valid() && (old(purged) ==> purged) && serving == servingRing == -1
      ensures Flushing(-1, insts.ctxs)
      ensures StepOk(s, old(Now()), Now())
    {
      if s.Dispatch? {
        if msgq != [] {
          HandleMessage(s.during);
        }
      } else if s.Arrive? {
        TakeArrival(s.a);
        StillFlushing(-1, old(insts.ctxs), insts.ctxs, !Locking(s.a));
      } else if s.SelectUrc? {
        SelectUrcContext(s.c);
      } else if s.c in insts.ctxs {
        TakeAt(s);
      }
    }

    /** Every run, from the start on: a URC reaches a pipe only in a flush that began while its
        context was unlocked, in AT mode and quiet, and finds it busy only if another thread has
        locked it since (UrcMeansIdle); every pipe's URCs left in the order in which they were
        queued; no queued URC is forgotten unless the message queue overflowed; bytes for the ring
        leave it in order, and none is lost unless the ring overflowed or had no context. `trace` is
        what an observer sees between the steps. */
    method Run(steps: seq<Step>) returns (ghost trace: seq<Snapshot>)
      requires Valid() && serving == servingRing == -1 && Flushing(-1, insts.ctxs)
      modifies this, ring, ring.data
      ensures Valid() && serving == servingRing == -1 && Flushing(-1, insts.ctxs)
      ensures forall c :: c in insts.ctxs ==> Disciplined(insts.ctxs[c].history)
      ensures forall c :: c in insts.ctxs ==>
                SentIn(insts.ctxs[c].history) + insts.ctxs[c].buffered == QueuedIn(insts.ctxs[c].history)
      ensures !purged ==> forall c :: c in insts.ctxs && insts.ctxs[c].buffered != [] ==>
                insts.ctxs[c].view.timer || c in msgq
      ensures !purged && ring.count > 0 && urcCtx in insts.ctxs ==> insts.ctxs[urcCtx].view.timer || urcCtx in msgq
      ensures traffic.held == ring.Contents() && Picks(traffic.sent + traffic.held, traffic.at, traffic.put)
      ensures !traffic.dropped ==> traffic.sent + traffic.held == traffic.put
      ensures traffic.sent == AllOf(insts.claims)
      ensures forall c :: c in insts.ctxs ==> CommonIn(insts.ctxs[c].history) == ToContext(insts.claims, c)
      ensures |trace| == |steps| + 1 && trace[0] == old(Now()) && trace[|steps|] == Now()
      ensures forall i :: 0 <= i < |steps| ==> StepOk(steps[i], trace[i], trace[i + 1])
    {
      trace := [Now()];
      var i := 0;
      while i < |steps|
        invariant 0 <= i <= |steps| && Valid() && serving == servingRing == -1
        invariant Flushing(-1, insts.ctxs)
        invariant |trace| == i + 1 && trace[0] == old(Now()) && trace[i] == Now()
        invariant forall k :: 0 <= k < i ==> StepOk(steps[k], trace[k], trace[k + 1])
      {
        Take(steps[i]);
        trace := trace + [Now()];
        i := i + 1;
      }
      assert purged || forall c :: c in insts.ctxs ==> Awake(c);
      Histories();
    }

    /** What the contexts' histories say. */
    lemma Histories()
      ensures forall c :: c in insts.ctxs ==> Disciplined(insts.ctxs[c].history)
      ensures forall c :: c in insts.ctxs ==>
        SentIn(insts.ctxs[c].history) + insts.ctxs[c].buffered == QueuedIn(insts.ctxs[c].history)
      ensures traffic.sent == insts.sent ==> traffic.sent == AllOf(insts.claims)
      ensures forall c :: c in insts.ctxs ==> CommonIn(insts.ctxs[c].history) == ToContext(insts.claims, c)
    {
      forall c | c in insts.ctxs
        ensures
          var x := insts.ctxs[c];
          && Disciplined(x.history) && SentIn(x.history) + x.buffered == QueuedIn(x.history)
          && CommonIn(x.history) == ToContext(insts.claims, c)
      {
        assert Good(insts.ctxs[c]);
      }
    }
  }

  /** How a URC goes out while its context is locked: another thread takes the lock after the
      first of two queued URCs, and the flush of the work queue goes on. */
  method LockedUrc(first: Urc, second: Urc) returns (h: AtHost)
    ensures h.Valid() && 0 in h.insts.ctxs && h.insts.ctxs[0].view.locks == 1
    ensures h.insts.ctxs[0].history == LockedRun(first, second)
  {
    h := TwoQueued(first, second);
    SendAround(h, first, second);
    LockedParts(first, second);
  }

  function LockedRun(first: Urc, second: Urc): seq<Event>
  {
    [Queue(first), Queue(second), FlushBegin(0), Send(0, first), Lock(1), Send(0, second)]
  }

  lemma LockedParts(first: Urc, second: Urc)
    ensures [] + [Queue(first)] + [Queue(second)] + Around(first, second) == LockedRun(first, second)
  {
  }

  method TwoQueued(first: Urc, second: Urc) returns (h: AtHost)
    ensures fresh(h) && h.Valid() && h.IsIdle(0) && h.insts.ctxs[0].open == {} && Flushing(-1, h.insts.ctxs)
    ensures h.insts.ctxs[0].buffered == [first, second]
    ensures h.insts.ctxs[0].history == [] + [Queue(first)] + [Queue(second)]
  {
    h := IdleHost();
    QueueIdle(h, first);
    QueueIdle(h, second);
    assert [] + [first] + [second] == [first, second];
  }

  method IdleHost() returns (h: AtHost)
    ensures fresh(h) && h.Valid() && h.IsIdle(0) && h.insts.ctxs[0].open == {} && Flushing(-1, h.insts.ctxs)
    ensures h.insts.ctxs[0].buffered == [] && h.insts.ctxs[0].history == []
  {
    var ring := new RingBuffer(1);
    h := new AtHost({0}, 0, ring, 2);
  }

  method QueueIdle(h: AtHost, urc: Urc)
    requires h.Valid() && h.IsIdle(0) && Flushing(-1, h.insts.ctxs)
    modifies h`insts, h`msgq, h`purged
    ensures h.Valid() && h.IsIdle(0) && Flushing(-1, h.insts.ctxs) && h.insts.ctxs[0].open == old(h.insts.ctxs[0].open)
    ensures h.insts.ctxs[0].buffered == old(h.insts.ctxs[0].buffered) + [urc]
    ensures h.insts.ctxs[0].history == old(h.insts.ctxs[0].history) + [Queue(urc)]
  {
    h.UrcSendTo(0, urc);
    FlushingAt(-1, 0, old(h.insts.ctxs), h.insts.ctxs);
  }

  ghost function Around(first: Urc, second: Urc): seq<Event>
  {
    [FlushBegin(0), Send(0, first), Lock(1), Send(0, second)]
  }

  method SendAround(h: AtHost, first: Urc, second: Urc)
    requires h.Valid() && h.IsIdle(0) && Flushing(-1, h.insts.ctxs) && h.insts.ctxs[0].buffered == [first, second]
    requires 1 !in h.insts.ctxs[0].open
    modifies h`insts
    ensures h.Valid() && 0 in h.insts.ctxs && h.insts.ctxs[0].view.locks == 1
    ensures h.insts.ctxs[0].history == old(h.insts.ctxs[0].history) + Around(first, second)
  {
    ghost var was := h.insts.ctxs[0].history;
    BeginAndSend(h, first, second);
    LockAndSend(h, second);
    AroundParts(was, first, second);
  }

  lemma AroundParts(was: seq<Event>, first: Urc, second: Urc)
    ensures was + [FlushBegin(0)] + [Send(0, first)] + [Lock(1)] + [Send(0, second)] == was + Around(first, second)
  {
  }

  method BeginAndSend(h: AtHost, first: Urc, second: Urc)
    requires h.Valid() && h.IsIdle(0) && Flushing(-1, h.insts.ctxs) && h.insts.ctxs[0].buffered == [first, second]
    modifies h`insts
    ensures h.Valid() && h.IsIdle(0) && h.insts.ctxs[0].open == old(h.insts.ctxs[0].open) + {0}
    ensures h.insts.ctxs[0].buffered == [second]
    ensures h.insts.ctxs[0].history == old(h.insts.ctxs[0].history) + [FlushBegin(0)] + [Send(0, first)]
  {
    h.BeginFlush(0);
    h.SendHead(0, 0);
  }

  method LockAndSend(h: AtHost, urc: Urc)
    requires h.Valid() && h.IsIdle(0) && 0 in h.insts.ctxs[0].open && 1 !in h.insts.ctxs[0].open
    requires h.insts.ctxs[0].buffered == [urc]
    modifies h`insts
    ensures h.Valid() && 0 in h.insts.ctxs && h.insts.ctxs[0].view.locks == 1
    ensures h.insts.ctxs[0].history == old(h.insts.ctxs[0].history) + [Lock(1)] + [Send(0, urc)]
  {
    h.TakeLock(0, 1);
    h.SendHead(0, 0);
  }

  /** How a URC is stranded, for every size of the message queue: its message is still waiting when
      messages for another context fill the queue, and it is purged with the rest. */
  method StrandedUrc(msgqMax: nat, urc: Urc) returns (h: AtHost)
    requires msgqMax > 0
    ensures h.Valid() && h.purged && 0 in h.insts.ctxs
    ensures h.insts.ctxs[0].buffered == [urc] && h.IsIdle(0) && 0 !in h.msgq
  {
    var ring := new RingBuffer(1);
    h := new AtHost({0, 1}, 0, ring, msgqMax);
    Strand(h, urc);
  }

  method Strand(h: AtHost, urc: Urc)
    requires h.Valid() && {0, 1} <= h.ids && h.insts.ctxs[0] == h.insts.ctxs[1] == FRESH && h.msgq == []
    modifies h`insts, h`msgq, h`purged
    ensures h.Valid() && h.purged
    ensures h.insts.ctxs[0].buffered == [urc] && h.IsIdle(0) && h.msgq == [1]
  {
    h.UrcSendTo(0, urc);
    Flood(h, urc);
  }

  /** Messages for context 1 until the queue has been purged. */
  method Flood(h: AtHost, urc: Urc)
    requires h.Valid() && {0, 1} <= h.ids && h.IsIdle(0) && h.IsIdle(1) && |h.msgq| == 1
    modifies h`insts, h`msgq, h`purged
    ensures h.Valid() && h.purged && h.msgq == [1]
    ensures h.insts.ctxs[0] == old(h.insts.ctxs[0])
  {
    var sent := 0;
    while sent < h.msgqMax
      invariant sent <= h.msgqMax && h.Valid()
      invariant h.IsIdle(1) && h.insts.ctxs[0] == old(h.insts.ctxs[0])
      invariant sent < h.msgqMax ==> |h.msgq| == sent + 1
      invariant sent == h.msgqMax ==> h.purged && h.msgq == [1]
    {
      SendToOne(h, urc);
      sent := sent + 1;
    }
  }

  method SendToOne(h: AtHost, urc: Urc)
    requires h.Valid() && {0, 1} <= h.ids && h.IsIdle(1)
    modifies h`insts, h`msgq, h`purged
    ensures h.Valid() && h.IsIdle(1) && h.insts.ctxs[0] == old(h.insts.ctxs[0])
    ensures old(|h.msgq|) < h.msgqMax ==> |h.msgq| == old(|h.msgq|) + 1
    ensures old(|h.msgq|) == h.msgqMax ==> h.purged && h.msgq == [1]
  {
    h.UrcSendTo(1, urc);
  }
}

