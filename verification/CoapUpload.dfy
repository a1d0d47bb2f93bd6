/** The CoAP upload hand-off: the data mode thread fills one staging block, the CoAP client
    thread takes it, and two binary semaphores keep them apart. Every step below is the code
    between two synchronisation points; a step is atomic.

    "payload_cb returns and the library copies the block" is one step (Hand). The source
    relies on this: see EarlySignalIsUnsafe for what happens otherwise. */
module CoapUpload {
  import opened Bytes
  import opened Arithmetic

  /** The data mode thread: outside the handler, in the loop of coap_datamode_send_block with
      bytes left, inside coap_client_req, waiting for staging_consumed, past a failed wait,
      past DATAMODE_EXIT. */
  datatype Producer =
    | Ready
    | Feeding(rest: seq<byte>)
    | Starting(rest: seq<byte>, isLast: bool)
    | AwaitConsumed(rest: seq<byte>)
    | Failed
    | Stopped

  /** The client: outside coap_payload_cb, waiting for staging_ready, having taken it, having
      found payload_aborted clear. */
  datatype Client = Out | AwaitReady | Took | Passed

  /** A block handed to the library by a call that did not just repeat the last one. */
  datatype Block = Block(data: seq<byte>, last: bool)

  datatype Request = Request(
    payloadLen: nat,
    payloadSent: nat,
    started: bool,
    direct: bool,           // the library was given staging itself instead of payload_cb
    staging: seq<byte>,     // staging[..staging_filled]
    ready: bool,            // semaphore staging_ready
    consumed: bool,         // semaphore staging_consumed
    aborted: bool,
    closed: bool,           // the request failed and is gone
    producer: Producer,
    client: Client,
    io: Account
  )

  /** What has gone in and out. */
  datatype Account = Account(
    declared: nat,          // what payloadLen was at first
    fed: seq<byte>,         // all bytes that data mode has passed to the handler
    handed: seq<Block>,     // all fresh blocks
    sent: seq<byte>         // their bytes
  )

  /** A block goes to the library. */
  function Give(io: Account, data: seq<byte>, last: bool): Account
  {
    io.(handed := io.handed + [Block(data, last)], sent := io.sent + data)
  }

  function Init(declared: nat): Request
  {
    Request(declared, 0, false, false, [], false, false, false, false, Ready, Out, Account(declared, [], [], []))
  }

  datatype Action =
    | Feed(data: seq<byte>) | Turn | StartReturns(ok: bool) | Resume | ProducerTimeout | ExitDataMode
    | Call | Take | ClientTimeout | Check | Hand | Fail | Finish

  /** Where the loop goes after the bytes it has copied. */
  function Loop(rest: seq<byte>): Producer
  {
    if rest == [] then Ready else Feeding(rest)
  }

  /** Data mode passes on no more bytes than were declared. Fail and Finish are coap_callback when it
      ends the request, whatever the data mode thread is doing: on a negative result, a block that is
      too large or a host that does not pull; and on the last block of a response. */
  predicate Enabled(r: Request, a: Action)
  {
    !r.closed &&
    match a
    case Feed(data) => r.producer == Ready && data != [] && |r.io.fed| + |data| <= r.io.declared
    case Turn => r.producer.Feeding?
    case StartReturns(ok) => r.producer.Starting? && r.client == Out
    case Resume => r.producer.AwaitConsumed? && r.consumed
    case ProducerTimeout => r.producer.AwaitConsumed?
    case ExitDataMode => r.producer == Ready || r.producer == Failed
    case Call => r.client == Out && r.started && !r.direct
    case Take => r.client == AwaitReady && r.ready
    case ClientTimeout => r.client == AwaitReady
    case Check => r.client == Took
    case Hand => r.client == Passed
    case Fail => r.started && r.client == Out
    case Finish => r.started && r.client == Out
  }

  /** One turn of the loop in coap_datamode_send_block, up to the first wait. */
  function LoopTurn(r: Request, block: nat): Request
    requires r.producer.Feeding? && |r.staging| <= block
  {
    var rest := r.producer.rest;
    var copy := Min(|rest|, block - |r.staging|);
    var isLast := r.payloadSent + |r.staging| + copy >= r.payloadLen;
    var offer := |r.staging| + copy == block || isLast;
    r.(staging := r.staging + rest[..copy], ready := r.ready || offer, started := r.started || offer,
       producer := if !offer then Loop(rest[copy..])
                   else if !r.started then Starting(rest[copy..], isLast)
                   else AfterOffer(rest[copy..], isLast))
  }

  function AfterOffer(rest: seq<byte>, isLast: bool): Producer
  {
    if isLast then Loop(rest) else AwaitConsumed(rest)
  }

  /** coap_datamode_callback(DATAMODE_EXIT) of a large payload. What is staged ends the payload; with
      nothing staged the upload is aborted. If the request had not been started, payload_len is now
      at most one block and the library gets staging as it is. */
  function OnExit(r: Request, block: nat): Request
  {
    var whole := !r.started && r.staging != [];
    var short := !r.started || r.payloadSent + |r.staging| < r.payloadLen;
    r.(producer := Stopped, started := true, ready := r.ready || short,
       payloadLen := if whole then |r.staging|
                     else if short && r.staging != [] then r.payloadSent + |r.staging|
                     else r.payloadLen,
       aborted := r.aborted || (short && r.staging == []),
       direct := r.direct || whole, io := if whole then Give(r.io, r.staging, true) else r.io)
  }

  /** The rest of coap_payload_cb, and the library's copy of the block. */
  function OnHand(r: Request): Request
  {
    var last := r.payloadSent + |r.staging| >= r.payloadLen;
    r.(io := Give(r.io, r.staging, last), payloadSent := r.payloadSent + |r.staging|,
       consumed := r.consumed || !last, client := Out)
  }

  function Apply(r: Request, a: Action, block: nat): Request
    requires Enabled(r, a) && |r.staging| <= block
  {
    match a
    case Feed(data) => r.(io := r.io.(fed := r.io.fed + data), producer := Feeding(data))
    case Turn => LoopTurn(r, block)
    case StartReturns(ok) =>
      if ok then r.(producer := AfterOffer(r.producer.rest, r.producer.isLast))
      else r.(closed := true, producer := Failed)
    case Resume => r.(consumed := false, staging := [], producer := Loop(r.producer.rest))
    case ProducerTimeout => r.(aborted := true, producer := Failed)
    case ExitDataMode => OnExit(r, block)
    case Call => if r.payloadSent >= r.payloadLen then r else r.(client := AwaitReady)
    case Take => r.(ready := false, client := Took)
    case ClientTimeout => r.(client := Out, closed := true)
    case Check => if r.aborted then r.(client := Out, closed := true) else r.(client := Passed)
    case Hand => OnHand(r)
    case Fail => r.(closed := true)
    case Finish => r.(closed := true)
  }

  // ---------------------------------------------------------------------------
  // The invariant
  // ---------------------------------------------------------------------------

  /** A block has been offered and not been handed out. */
  predicate Offered(r: Request)
  {
    r.ready || r.client == Took || r.client == Passed
  }

  predicate LastHanded(r: Request)
  {
    r.io.handed != [] && r.io.handed[|r.io.handed| - 1].last
  }

  function Pending(p: Producer): seq<byte>
  {
    if p.Feeding? || p.Starting? || p.AwaitConsumed? then p.rest else []
  }

  /** Filling: the staging block has room, nobody else touches it. */
  predicate Filling(r: Request, block: nat)
  {
    && !Offered(r) && !r.consumed && !LastHanded(r)
    && |r.staging| < block
    && r.io.fed == r.io.sent + r.staging + Pending(r.producer)
    && |r.io.fed| <= r.payloadLen == r.io.declared
    && (|r.io.fed| == r.payloadLen ==> Pending(r.producer) != [])
  }

  /** A full block that is not the last one has been offered, or taken and not yet reset. */
  predicate FullBlockOut(r: Request, block: nat)
  {
    && |r.staging| == block && !LastHanded(r) && r.started
    && (r.ready ==> r.client.Out? || r.client.AwaitReady?)
    && (Offered(r) <==> !r.consumed)
    && r.io.fed == r.io.sent + (if r.consumed then [] else r.staging) + Pending(r.producer)
    && |r.io.fed| <= r.payloadLen == r.io.declared
    && |r.io.sent| + (if r.consumed then 0 else block) < r.payloadLen
  }

  /** The last block has been offered, or handed out and kept. */
  predicate LastBlockOut(r: Request, block: nat)
  {
    && 0 < |r.staging| <= block && !r.consumed && r.started
    && Pending(r.producer) == []
    && (r.ready ==> r.client.Out? || r.client.AwaitReady?)
    && (if LastHanded(r) then
          && !r.ready && r.client == Out
          && r.io.fed == r.io.sent && r.io.handed[|r.io.handed| - 1].data == r.staging
        else
          && Offered(r) && r.io.fed == r.io.sent + r.staging)
    && |r.io.fed| == r.payloadLen
  }

  /** After an abort only what has been handed out counts, and what may still be. */
  predicate Aborted(r: Request, block: nat)
  {
    && (r.producer == Failed || r.producer == Stopped) && r.started
    && r.io.sent <= r.io.fed
    && (r.client == Passed ==> !LastHanded(r) && |r.staging| == block)
    && (r.client == Passed ==> r.io.sent + r.staging <= r.io.fed && |r.io.sent| + block <= r.payloadLen)
    && (if LastHanded(r) then |r.io.sent| == r.payloadLen && r.io.handed[|r.io.handed| - 1].data == r.staging
        else |r.io.sent| < r.payloadLen)
  }

  /** The whole payload went to the library in one piece. */
  predicate Direct(r: Request)
  {
    && r.client == Out && r.producer == Stopped && LastHanded(r) && |r.io.handed| == 1
    && r.io.fed == r.io.sent && |r.io.fed| == r.payloadLen
  }

  predicate Inv(r: Request, block: nat)
  {
    && block > 0 && |r.staging| <= block < r.io.declared && |r.io.fed| <= r.io.declared
    && (r.direct ==> Direct(r))
    && (!r.direct ==> r.payloadSent == |r.io.sent|)
    && (!r.started ==> r.client == Out && r.io.handed == [] && r.io.sent == [] && !Offered(r))
    && (if r.closed then r.io.sent <= r.io.fed
        else if r.aborted then Aborted(r, block)
        else r.direct || Live(r, block))
  }

  predicate Live(r: Request, block: nat)
  {
    match r.producer
    case Ready => r.payloadLen == r.io.declared && (Filling(r, block) || LastBlockOut(r, block))
    case Feeding(rest) => rest != [] && Filling(r, block)
    case Starting(_, isLast) =>
      r.payloadLen == r.io.declared && if isLast then LastBlockOut(r, block) else FullBlockOut(r, block)
    case AwaitConsumed(_) => FullBlockOut(r, block)
    case Failed => false
    case Stopped => LastBlockOut(r, block)
  }

  lemma InitInv(declared: nat, block: nat)
    requires 0 < block < declared
    ensures Inv(Init(declared), block)
  {
  }

  lemma TurnInv(r: Request, block: nat)
    requires Inv(r, block) && Enabled(r, Turn)
    ensures Inv(Apply(r, Turn, block), block)
  {
    var rest := r.producer.rest;
    var copy := Min(|rest|, block - |r.staging|);
    assert rest == rest[..copy] + rest[copy..];
    assert r.io.fed == r.io.sent + (r.staging + rest[..copy]) + rest[copy..];
  }

  lemma ExitInv(r: Request, block: nat)
    requires Inv(r, block) && Enabled(r, ExitDataMode)
    ensures Inv(Apply(r, ExitDataMode, block), block)
  {
  }

  lemma HandInv(r: Request, block: nat)
    requires Inv(r, block) && Enabled(r, Hand)
    ensures Inv(Apply(r, Hand, block), block)
  {
  }

  lemma FeedInv(r: Request, a: Action, block: nat)
    requires Inv(r, block) && Enabled(r, a) && (a.Feed? || a.StartReturns?)
    ensures Inv(Apply(r, a, block), block)
  {
  }

  lemma WaitInv(r: Request, a: Action, block: nat)
    requires Inv(r, block) && Enabled(r, a) && (a.Resume? || a.ProducerTimeout?)
    ensures Inv(Apply(r, a, block), block)
  {
  }

  lemma ClientInv(r: Request, a: Action, block: nat)
    requires Inv(r, block) && Enabled(r, a)
    requires a.Call? || a.Take? || a.ClientTimeout? || a.Check? || a.Fail? || a.Finish?
    ensures Inv(Apply(r, a, block), block)
  {
  }

  lemma StepInv(r: Request, a: Action, block: nat)
    requires Inv(r, block) && Enabled(r, a)
    ensures Inv(Apply(r, a, block), block)
  {
    match a
    case Turn => TurnInv(r, block);
    case ExitDataMode => ExitInv(r, block);
    case Hand => HandInv(r, block);
    case Feed(_) => FeedInv(r, a, block);
    case StartReturns(_) => FeedInv(r, a, block);
    case Resume => WaitInv(r, a, block);
    case ProducerTimeout => WaitInv(r, a, block);
    case _ => ClientInv(r, a, block);
  }

  // ---------------------------------------------------------------------------
  // Blocks
  // ---------------------------------------------------------------------------

  function Data(blocks: seq<Block>): seq<byte>
  {
    if blocks == [] then [] else Data(blocks[..|blocks| - 1]) + blocks[|blocks| - 1].data
  }

  lemma DataAppend(blocks: seq<Block>, b: Block)
    ensures Data(blocks + [b]) == Data(blocks) + b.data
  {
    assert (blocks + [b])[..|blocks|] == blocks;
  }

  /** Every block but the last is a full one (section 2.3 of RFC 7959), and only the last is
      flagged as last. */
  predicate WellBlocked(handed: seq<Block>, block: nat)
  {
    forall i :: 0 <= i < |handed| ==>
      && 0 < |handed[i].data| <= block
      && (i < |handed| - 1 ==> !handed[i].last)
      && (!handed[i].last ==> |handed[i].data| == block)
  }

  predicate Blocks(r: Request, block: nat)
  {
    r.io.sent == Data(r.io.handed) && WellBlocked(r.io.handed, block)
  }

  lemma AppendBlock(handed: seq<Block>, b: Block, block: nat)
    requires WellBlocked(handed, block) && (handed != [] ==> !handed[|handed| - 1].last)
    requires 0 < |b.data| <= block && (!b.last ==> |b.data| == block)
    ensures WellBlocked(handed + [b], block)
  {
    var all := handed + [b];
    forall i | 0 <= i < |all|
      ensures 0 < |all[i].data| <= block && (i < |all| - 1 ==> !all[i].last) &&
              (!all[i].last ==> |all[i].data| == block)
    {
      if i < |handed| {
        assert all[i] == handed[i];
      }
    }
  }

  /** What a handed-out block looks like. */
  lemma HandedBlock(r: Request, block: nat)
    requires Inv(r, block) && Enabled(r, Hand)
    ensures !LastHanded(r) && 0 < |r.staging| <= block
    ensures r.payloadSent + |r.staging| < r.payloadLen ==> |r.staging| == block
  {
  }

  lemma OtherBlocks(r: Request, a: Action, block: nat)
    requires |r.staging| <= block && Enabled(r, a) && !a.Hand? && !a.ExitDataMode? && !a.Feed?
    ensures Apply(r, a, block).io == r.io
  {
  }

  lemma ExtendBlocks(r: Request, q: Request, b: Block, block: nat)
    requires Blocks(r, block) && !LastHanded(r)
    requires 0 < |b.data| <= block && (!b.last ==> |b.data| == block)
    requires q.io.handed == r.io.handed + [b] && q.io.sent == r.io.sent + b.data
    ensures Blocks(q, block)
  {
    AppendBlock(r.io.handed, b, block);
    DataAppend(r.io.handed, b);
  }

  lemma StepBlocks(r: Request, a: Action, block: nat, q: Request)
    requires Inv(r, block) && Enabled(r, a) && Blocks(r, block) && q == Apply(r, a, block)
    ensures Blocks(q, block)
    ensures r.io.handed <= q.io.handed && r.io.fed <= q.io.fed && r.io.declared == q.io.declared
  {
    if a.Hand? {
      HandedBlock(r, block);
      ExtendBlocks(r, q, Block(r.staging, r.payloadSent + |r.staging| >= r.payloadLen), block);
    } else if a.ExitDataMode? {
      if !r.started && r.staging != [] {
        ExtendBlocks(r, q, Block(r.staging, true), block);
      }
    } else if !a.Feed? {
      OtherBlocks(r, a, block);
    }
  }

  // ---------------------------------------------------------------------------
  // Every run
  // ---------------------------------------------------------------------------

  /** The steps `acts`, in this order, lead from r to q. */
  ghost predicate Steps(r: Request, acts: seq<Action>, block: nat, q: Request)
    decreases |acts|
  {
    && |r.staging| <= block
    && if acts == [] then q == r
       else Enabled(r, acts[0]) && Steps(Apply(r, acts[0], block), acts[1..], block, q)
  }

  predicate Good(r: Request, block: nat)
  {
    Inv(r, block) && Blocks(r, block)
  }

  lemma StepGood(r: Request, a: Action, block: nat, q: Request)
    requires Good(r, block) && Enabled(r, a) && q == Apply(r, a, block)
    ensures Good(q, block) && r.io.handed <= q.io.handed && r.io.fed <= q.io.fed && r.io.declared == q.io.declared
  {
    StepInv(r, a, block);
    StepBlocks(r, a, block, q);
  }

  lemma {:induction false} StepsGood(r: Request, acts: seq<Action>, block: nat, q: Request)
    requires Good(r, block) && Steps(r, acts, block, q)
    ensures Good(q, block) && r.io.handed <= q.io.handed && r.io.fed <= q.io.fed && r.io.declared == q.io.declared
    decreases |acts|
  {
    if acts == [] {
    } else {
      var m := Apply(r, acts[0], block);
      StepGood(r, acts[0], block, m);
      StepsGood(m, acts[1..], block, q);
    }
  }

  /** Only leaving data mode changes the length of the payload. */
  lemma {:induction false} LengthIsKept(r: Request, acts: seq<Action>, block: nat, q: Request)
    requires Steps(r, acts, block, q) && ExitDataMode !in acts
    ensures q.payloadLen == r.payloadLen
    decreases |acts|
  {
    if acts == [] {
    } else {
      StepKeepsLength(r, acts[0], block);
      LengthIsKept(Apply(r, acts[0], block), acts[1..], block, q);
    }
  }

  lemma StepKeepsLength(r: Request, a: Action, block: nat)
    requires Enabled(r, a) && |r.staging| <= block && a != ExitDataMode
    ensures Apply(r, a, block).payloadLen == r.payloadLen
  {
  }

  /** One more step at the end of a run. */
  lemma {:induction false} StepsSnoc(r: Request, acts: seq<Action>, block: nat, m: Request, a: Action)
    requires Steps(r, acts, block, m) && |m.staging| <= block && Enabled(m, a) && |Apply(m, a, block).staging| <= block
    ensures Steps(r, acts + [a], block, Apply(m, a, block))
    decreases |acts|
  {
    if acts == [] {
      assert [a][1..] == [];
      assert Steps(Apply(m, a, block), [], block, Apply(m, a, block));
    } else {
      StepsSnoc(Apply(r, acts[0], block), acts[1..], block, m, a);
      assert (acts + [a])[1..] == acts[1..] + [a];
    }
  }

  lemma InvMeans(r: Request, block: nat)
    requires Inv(r, block)
    ensures r.io.sent <= r.io.fed
    ensures LastHanded(r) && !r.closed ==> |r.io.sent| == r.payloadLen
    ensures LastHanded(r) && !r.aborted && !r.closed ==> r.io.sent == r.io.fed
    ensures !r.closed && r.producer.AwaitConsumed? && r.client == AwaitReady ==> r.ready || r.consumed
    ensures !r.closed && r.started && !r.direct ==> (r.payloadSent >= r.payloadLen <==> LastHanded(r))
    ensures !r.closed && r.started && !r.direct && LastHanded(r) ==> r.staging == r.io.handed[|r.io.handed| - 1].data
  {
  }

  /** What any interleaving of the two threads keeps. */
  lemma UploadIsSafe(declared: nat, block: nat, acts: seq<Action>, r: Request)
    requires 0 < block < declared && Steps(Init(declared), acts, block, r)
    // The blocks handed out are a prefix of the bytes fed in.
    ensures Data(r.io.handed) <= r.io.fed && |r.io.fed| <= declared
    // Full blocks, and one flagged as last: it ends at the declared or the truncated length.
    ensures WellBlocked(r.io.handed, block)
    ensures LastHanded(r) && !r.closed ==> |Data(r.io.handed)| == r.payloadLen
    ensures ExitDataMode !in acts ==> r.payloadLen == declared
    // Without an abort the last block completes everything that was fed in.
    ensures LastHanded(r) && !r.aborted && !r.closed ==> Data(r.io.handed) == r.io.fed
    // The two threads never wait for each other with both semaphores down.
    ensures !r.closed && r.producer.AwaitConsumed? && r.client == AwaitReady ==> r.ready || r.consumed
    // A call after the last block repeats it, and a call before that does not.
    ensures !r.closed && r.started && !r.direct ==>
              (r.payloadSent >= r.payloadLen <==> LastHanded(r))
    ensures !r.closed && r.started && !r.direct && LastHanded(r) ==> r.staging == r.io.handed[|r.io.handed| - 1].data
  {
    InitInv(declared, block);
    StepsGood(Init(declared), acts, block, r);
    InvMeans(r, block);
    if ExitDataMode !in acts {
      LengthIsKept(Init(declared), acts, block, r);
    }
  }

  /** The rest of the upload does not depend on the data mode thread: once it has left, or all bytes
      are fed in, the last block is staged and the client can always take its next step towards
      it. */
  lemma LastBlockIsComing(declared: nat, block: nat, acts: seq<Action>, r: Request)
    requires 0 < block < declared && Steps(Init(declared), acts, block, r)
    requires !r.closed && !r.aborted && !r.direct && !LastHanded(r)
    requires r.producer == Stopped || (r.producer == Ready && |r.io.fed| == declared)
    ensures r.io.fed == r.io.sent + r.staging
    ensures Enabled(r, Call) || Enabled(r, Take) || Enabled(r, Check) || Enabled(r, Hand)
  {
    InitInv(declared, block);
    StepsGood(Init(declared), acts, block, r);
    LastBlockStaged(r, block);
    ClientCanGoOn(r, block);
  }

  lemma LastBlockStaged(r: Request, block: nat)
    requires Inv(r, block) && !r.closed && !r.aborted && !r.direct
    requires r.producer == Stopped || (r.producer == Ready && |r.io.fed| == r.io.declared)
    ensures LastBlockOut(r, block)
  {
  }

  lemma ClientCanGoOn(r: Request, block: nat)
    requires LastBlockOut(r, block) && !r.closed && !r.direct && !LastHanded(r)
    ensures r.io.fed == r.io.sent + r.staging
    ensures Enabled(r, Call) || Enabled(r, Take) || Enabled(r, Check) || Enabled(r, Hand)
  {
  }

  // ---------------------------------------------------------------------------
  // A client that does its part
  // ---------------------------------------------------------------------------

  predicate OfClient(a: Action)
  {
    a.Call? || a.Take? || a.ClientTimeout? || a.Check? || a.Hand? || a.Fail? || a.Finish?
  }

  /** A step of the client thread, if it can take it now. */
  function ClientTry(r: Request, a: Action, block: nat): Request
  {
    if OfClient(a) && Enabled(r, a) && |r.staging| <= block then Apply(r, a, block) else r
  }

  function ClientRun(r: Request, script: seq<Action>, block: nat): Request
  {
    if script == [] then r
    else ClientTry(ClientRun(r, script[..|script| - 1], block), script[|script| - 1], block)
  }

  /** Before the request is started the client does nothing. */
  lemma {:induction false} ClientWaits(r: Request, script: seq<Action>, block: nat)
    requires !r.started && r.client == Out
    ensures ClientRun(r, script, block) == r
  {
    if script == [] {
    } else {
      ClientWaits(r, script[..|script| - 1], block);
    }
  }

  /** The client leaves the data mode thread's side alone. */
  lemma {:induction false} ClientKeeps(r: Request, script: seq<Action>, block: nat)
    ensures ClientRun(r, script, block).producer == r.producer && ClientRun(r, script, block).io.fed == r.io.fed
  {
    if script == [] {
    } else {
      var init := script[..|script| - 1];
      ClientKeeps(r, init, block);
      ClientTryKeeps(ClientRun(r, init, block), script[|script| - 1], block);
    }
  }

  lemma {:induction false} ClientTryKeeps(r: Request, a: Action, block: nat)
    ensures ClientTry(r, a, block).producer == r.producer && ClientTry(r, a, block).io.fed == r.io.fed
  {
    if OfClient(a) && Enabled(r, a) && |r.staging| <= block {
      ClientStepKeeps(r, a, block);
    }
  }

  lemma {:induction false} ClientStepKeeps(r: Request, a: Action, block: nat)
    requires OfClient(a) && Enabled(r, a) && |r.staging| <= block
    ensures Apply(r, a, block).producer == r.producer && Apply(r, a, block).io.fed == r.io.fed
  {
    match a
    case Hand => assert Apply(r, a, block) == OnHand(r);
    case Check =>
    case Call =>
    case _ =>
  }

  /** Nothing in the script ends the request. */
  predicate Polite(script: seq<Action>)
  {
    forall i :: 0 <= i < |script| ==> !script[i].Fail? && !script[i].Finish? && !script[i].ClientTimeout?
  }

  /** How much of Call, Take, Check, Hand the script has in this order, other steps in between. */
  function Progress(script: seq<Action>): (n: nat)
    ensures n <= 4
  {
    if script == [] then 0
    else
      var n := Progress(script[..|script| - 1]);
      if n < 4 && script[|script| - 1] == [Call, Take, Check, Hand][n] then n + 1 else n
  }

  /** The client calls payload_cb, which hands out a block, and does not end the request. */
  predicate Serves(script: seq<Action>)
  {
    Polite(script) && Progress(script) == 4
  }

  /** A block is out: how far the client has got with it. */
  predicate BlockOut(r: Request, block: nat)
  {
    !r.closed && !r.aborted && !r.direct && (FullBlockOut(r, block) || LastBlockOut(r, block))
  }

  function Stage(r: Request): nat
  {
    if r.consumed || LastHanded(r) then 4
    else match r.client case Out => 0 case AwaitReady => 1 case Took => 2 case Passed => 3
  }

  lemma ClientAdvances(r: Request, a: Action, n: nat, block: nat)
    requires Inv(r, block) && BlockOut(r, block) && !a.Fail? && !a.Finish? && !a.ClientTimeout? && n <= Stage(r)
    ensures var q := ClientTry(r, a, block);
      && Inv(q, block) && BlockOut(q, block) && q.producer == r.producer && q.io.fed == r.io.fed
      && n <= Stage(q) && Stage(r) <= Stage(q) && (n < 4 && a == [Call, Take, Check, Hand][n] ==> n < Stage(q))
  {
    if OfClient(a) && Enabled(r, a) {
      StepInv(r, a, block);
    }
  }

  /** A block that is out is handed out by a client that serves. */
  lemma {:induction false} ClientServes(r: Request, script: seq<Action>, block: nat)
    requires Inv(r, block) && BlockOut(r, block) && Polite(script)
    ensures var q := ClientRun(r, script, block);
      && Inv(q, block) && BlockOut(q, block) && q.producer == r.producer && q.io.fed == r.io.fed
      && Progress(script) <= Stage(q) && Stage(r) <= Stage(q)
  {
    if script == [] {
    } else {
      var init := script[..|script| - 1];
      ClientServes(r, init, block);
      ClientAdvances(ClientRun(r, init, block), script[|script| - 1], Progress(init), block);
    }
  }

  /** Without a failure or an end of the response the request stays open. */
  lemma {:induction false} PoliteKeepsOpen(r: Request, script: seq<Action>, block: nat)
    requires Inv(r, block) && !r.closed && !r.aborted && Polite(script)
    ensures var q := ClientRun(r, script, block);
      Inv(q, block) && !q.closed && !q.aborted && q.producer == r.producer && q.io.fed == r.io.fed
  {
    if script == [] {
    } else {
      var init := script[..|script| - 1];
      PoliteKeepsOpen(r, init, block);
      PoliteStep(ClientRun(r, init, block), script[|script| - 1], block);
    }
  }

  lemma PoliteStep(r: Request, a: Action, block: nat)
    requires Inv(r, block) && !r.closed && !r.aborted && !a.Fail? && !a.Finish? && !a.ClientTimeout?
    ensures var q := ClientTry(r, a, block);
      Inv(q, block) && !q.closed && !q.aborted && q.producer == r.producer && q.io.fed == r.io.fed
  {
    if OfClient(a) && Enabled(r, a) {
      StepInv(r, a, block);
    }
  }

  // ---------------------------------------------------------------------------
  // Leaving data mode early
  // ---------------------------------------------------------------------------

  /** Blocks before the last one are full, so their bytes are a multiple of the block size. */
  lemma {:induction false} FullBlocks(handed: seq<Block>, block: nat)
    requires WellBlocked(handed, block) && (handed != [] ==> !handed[|handed| - 1].last)
    ensures |Data(handed)| == |handed| * block
  {
    if handed == [] {
    } else {
      var init := handed[..|handed| - 1];
      assert forall i :: 0 <= i < |init| ==> init[i] == handed[i];
      FullBlocks(init, block);
      assert |handed| * block == |init| * block + block;
    }
  }

  lemma Remainder(k: nat, n: nat, block: nat)
    requires n < block
    ensures (k * block + n) % block == 0 <==> n == 0
  {
    Quotient(k, n, block);
  }

  /** Leaving data mode aborts the upload exactly if the bytes fed in fall short of the declared
      length and end on a block boundary; otherwise what is staged becomes the last block. */
  lemma TruncationAborts(declared: nat, block: nat, acts: seq<Action>, r: Request)
    requires 0 < block < declared && Steps(Init(declared), acts, block, r)
    requires r.producer == Ready && !r.closed && !r.aborted && !r.direct
    ensures Enabled(r, ExitDataMode) && |r.staging| <= block
    ensures Apply(r, ExitDataMode, block).aborted <==> |r.io.fed| < declared && |r.io.fed| % block == 0
    ensures !Apply(r, ExitDataMode, block).aborted ==> Apply(r, ExitDataMode, block).payloadLen == |r.io.fed|
  {
    InitInv(declared, block);
    StepsGood(Init(declared), acts, block, r);
    assert r.io.declared == declared;
    if Filling(r, block) {
      FullBlocks(r.io.handed, block);
      Remainder(|r.io.handed|, |r.staging|, block);
      assert |r.io.fed| == |r.io.handed| * block + |r.staging|;
    }
  }

  // ---------------------------------------------------------------------------
  // Particular runs
  // ---------------------------------------------------------------------------

  lemma {:induction false} StepsJoin(r: Request, a: seq<Action>, m: Request, b: seq<Action>, q: Request, block: nat)
    requires Steps(r, a, block, m) && Steps(m, b, block, q)
    ensures Steps(r, a + b, block, q)
    decreases |a|
  {
    if a == [] {
      assert a + b == b;
    } else {
      StepsJoin(Apply(r, a[0], block), a[1..], m, b, q, block);
      assert (a + b)[1..] == a[1..] + b;
    }
  }

  lemma OneStep(r: Request, a: Action, block: nat)
    requires |r.staging| <= block && Enabled(r, a) && |Apply(r, a, block).staging| <= block
    ensures Steps(r, [a], block, Apply(r, a, block))
  {
    assert [a][1..] == [];
    assert Steps(Apply(r, a, block), [], block, Apply(r, a, block));
  }

  lemma TwoSteps(r: Request, a: Action, m: Request, b: Action, q: Request, block: nat)
    requires |r.staging| <= block && Enabled(r, a) && Apply(r, a, block) == m
    requires |m.staging| <= block && Enabled(m, b) && Apply(m, b, block) == q && |q.staging| <= block
    ensures Steps(r, [a, b], block, q)
  {
    OneStep(r, a, block);
    OneStep(m, b, block);
    StepsJoin(r, [a], m, [b], q, block);
    assert [a] + [b] == [a, b];
  }

  /** The client takes an offered block that is not the last one. */
  lemma HandOut(r: Request, block: nat)
    requires !r.closed && r.client == Out && r.started && !r.direct && r.ready && !r.aborted
    requires |r.staging| <= block && r.payloadSent + |r.staging| < r.payloadLen
    ensures Steps(r, [Call, Take] + [Check], block, r.(ready := false, client := Passed))
    ensures Steps(r, [Call, Take] + [Check] + [Hand], block, OnHand(r.(ready := false, client := Passed)))
  {
    var waiting, passed := r.(ready := false, client := Took), r.(ready := false, client := Passed);
    TwoSteps(r, Call, r.(client := AwaitReady), Take, waiting, block);
    OneStep(waiting, Check, block);
    StepsJoin(r, [Call, Take], waiting, [Check], passed, block);
    OneStep(passed, Hand, block);
    StepsJoin(r, [Call, Take] + [Check], passed, [Hand], OnHand(passed), block);
  }

  /** Everything up to the moment when block 0 is out and the data mode thread is back. */
  function FirstBlock(data: seq<byte>): seq<Action>
  {
    [Feed(data), Turn] + ([Call, Take] + [Check] + [Hand]) + [StartReturns(true), Resume]
  }

  function AfterFirst(declared: nat, data: seq<byte>): Request
  {
    Request(declared, |data|, true, false, [], false, false, false, false, Ready, Out,
            Account(declared, data, [Block(data, false)], data))
  }

  lemma FirstBlockOut(declared: nat, data: seq<byte>)
    requires 0 < |data| < declared
    ensures Steps(Init(declared), FirstBlock(data), |data|, AfterFirst(declared, data))
  {
    var block, zero := |data|, Init(declared);
    var fed := zero.(io := zero.io.(fed := data), producer := Feeding(data));
    var offered := fed.(staging := data, ready := true, started := true, producer := Starting([], false));
    assert [] + data == data && data[..block] == data && data[block..] == [];
    TwoSteps(zero, Feed(data), fed, Turn, offered, block);
    HandOut(offered, block);
    var handed := OnHand(offered.(ready := false, client := Passed));
    assert [] + [Block(data, false)] == [Block(data, false)];
    var waiting := handed.(producer := AwaitConsumed([]));
    TwoSteps(handed, StartReturns(true), waiting, Resume, AfterFirst(declared, data), block);
    StepsJoin(zero, [Feed(data), Turn], offered, [Call, Take] + [Check] + [Hand], handed, block);
    StepsJoin(zero, [Feed(data), Turn] + ([Call, Take] + [Check] + [Hand]), handed, [StartReturns(true), Resume],
              AfterFirst(declared, data), block);
  }

  /** TruncationAborts at an input: one block of two bytes of five declared, and the upload is
      aborted although all that was fed in has been handed out. */
  lemma BoundaryTruncation()
    ensures exists acts: seq<Action>, q: Request ::
      && Steps(Init(5), acts, 2, q)
      && q.producer == Stopped && q.aborted && q.io.fed == q.io.sent == [1, 2]
  {
    var data: seq<byte> := [1, 2];
    var r := AfterFirst(5, data);
    FirstBlockOut(5, data);
    OneStep(r, ExitDataMode, 2);
    StepsJoin(Init(5), FirstBlock(data), r, [ExitDataMode], OnExit(r, 2), 2);
  }

  // ---------------------------------------------------------------------------
  // A request that is freed
  // ---------------------------------------------------------------------------

  /** The data mode thread is inside coap_datamode_send_block, with the request in its hands. */
  predicate InSendBlock(p: Producer)
  {
    p.Feeding? || p.Starting? || p.AwaitConsumed?
  }

  /** The response or the payload callback ends the request. */
  predicate EndsInCallback(a: Action)
  {
    a.Fail? || a.Finish? || a.ClientTimeout?
  }

  /** A request that is closed under the data mode thread: exactly if it is inside
      coap_datamode_send_block and the close comes from the response, be it a failure or a final
      response, or from a payload callback that has waited too long. A failed start and an aborted
      payload never do this. */
  lemma ClosedInUse(declared: nat, block: nat, acts: seq<Action>, r: Request, a: Action)
    requires 0 < block < declared && Steps(Init(declared), acts, block, r)
    requires Enabled(r, a) && |r.staging| <= block && Apply(r, a, block).closed
    ensures InSendBlock(Apply(r, a, block).producer) <==> InSendBlock(r.producer) && EndsInCallback(a)
  {
    InitInv(declared, block);
    StepsGood(Init(declared), acts, block, r);
    AbortedIsOut(r, block);
    ClosingSteps(r, a, block);
  }

  lemma AbortedIsOut(r: Request, block: nat)
    requires Inv(r, block) && !r.closed
    ensures r.aborted ==> !InSendBlock(r.producer)
  {
  }

  lemma ClosingSteps(r: Request, a: Action, block: nat)
    requires Enabled(r, a) && |r.staging| <= block && Apply(r, a, block).closed
    requires r.aborted ==> !InSendBlock(r.producer)
    ensures InSendBlock(Apply(r, a, block).producer) <==> InSendBlock(r.producer) && EndsInCallback(a)
  {
  }

  /** It can happen: the response to block 0 fails, or is already the final one (such as 4.13,
      Request Entity Too Large), while the data mode thread waits with block 1. */
  lemma EndWhileWaiting(a: Action)
    requires a.Fail? || a.Finish?
    ensures exists acts: seq<Action>, q: Request ::
      Steps(Init(4), acts + [a], 1, q) && q.closed && q.producer.AwaitConsumed?
  {
    var r, data: seq<byte> := AfterFirst(4, [7]), [8, 9];
    FirstBlockOut(4, [7]);
    SecondBlockOffered();
    var offered := Second();
    var acts := FirstBlock([7]) + [Feed(data), Turn];
    StepsJoin(Init(4), FirstBlock([7]), r, [Feed(data), Turn], offered, 1);
    OneStep(offered, a, 1);
    StepsJoin(Init(4), acts, offered, [a], offered.(closed := true), 1);
  }

  function Second(): Request
  {
    Request(4, 1, true, false, [8], true, false, false, false, AwaitConsumed([9]), Out,
            Account(4, [7, 8, 9], [Block([7], false)], [7]))
  }

  lemma SecondBlockOffered()
    ensures Steps(AfterFirst(4, [7]), [Feed([8, 9]), Turn], 1, Second())
  {
    var r, data: seq<byte> := AfterFirst(4, [7]), [8, 9];
    var fed := r.(io := r.io.(fed := [7, 8, 9]), producer := Feeding(data));
    assert [7] + data == [7, 8, 9] && data[..1] == [8] && data[1..] == [9];
    TwoSteps(r, Feed(data), fed, Turn, Second(), 1);
  }

  lemma AfterLast(r: Request, block: nat)
    requires Inv(r, block) && LastHanded(r) && !r.closed
    ensures r.started && r.client != Passed && !r.producer.Feeding? && !r.producer.AwaitConsumed?
  {
  }

  lemma StepAfterLast(r: Request, a: Action, block: nat)
    requires |r.staging| <= block && r.started && r.client != Passed && !r.producer.Feeding? &&
             !r.producer.AwaitConsumed?
    requires Enabled(r, a)
    ensures Apply(r, a, block).io.handed == r.io.handed && Apply(r, a, block).staging == r.staging
  {
  }

  /** Once the last block is out, no step hands out another or changes what a repeat returns. */
  lemma {:induction false} LastBlockIsFinal(r: Request, acts: seq<Action>, block: nat, q: Request)
    requires Inv(r, block) && LastHanded(r) && Steps(r, acts, block, q)
    ensures q.io.handed == r.io.handed && q.staging == r.staging
    decreases |acts|
  {
    if acts == [] {
    } else {
      StepInv(r, acts[0], block);
      AfterLast(r, block);
      StepAfterLast(r, acts[0], block);
      LastBlockIsFinal(Apply(r, acts[0], block), acts[1..], block, q);
    }
  }

  /** Why Hand has to be one step. If the library copied the block only after payload_cb had
      signalled staging_consumed and returned, the data mode thread could get there first: in
      this run block 1 is [8], and the library would copy [9]. */
  lemma EarlySignalIsUnsafe()
    ensures exists before: seq<Action>, r: Request, q: Request ::
      && Steps(Init(4), before, 1, r) && r.client == Passed && r.producer.AwaitConsumed? && r.staging == [8]
      && Steps(OnHand(r), [Resume, Turn], 1, q) && q.staging == [9]
  {
    SecondBlockTaken();
    var r := Second().(ready := false, client := Passed);
    var resumed := OnHand(r).(consumed := false, staging := [], producer := Feeding([9]));
    var turned := Apply(resumed, Turn, 1);
    assert [9][..1] == [9] && [] + [9] == [9];
    TwoSteps(OnHand(r), Resume, resumed, Turn, turned, 1);
  }

  lemma SecondBlockTaken()
    ensures exists before: seq<Action> :: Steps(Init(4), before, 1, Second().(ready := false, client := Passed))
  {
    FirstBlockOut(4, [7]);
    SecondBlockOffered();
    var acts := FirstBlock([7]) + [Feed([8, 9]), Turn];
    StepsJoin(Init(4), FirstBlock([7]), AfterFirst(4, [7]), [Feed([8, 9]), Turn], Second(), 1);
    HandOut(Second(), 1);
    StepsJoin(Init(4), acts, Second(), [Call, Take] + [Check], Second().(ready := false, client := Passed), 1);
  }
}
