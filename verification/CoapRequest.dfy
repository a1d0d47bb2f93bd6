/** struct coap_request and the code that works on it, cut at its synchronisation points. Each
    method is one step of the protocol in CoapUpload; coap_datamode_send_block is the loop
    that strings the data mode thread's steps together. */
module CoapRequests {
  import opened Bytes
  import opened Arithmetic
  import opened CoapUpload

  const EIO := 5
  const ETIMEDOUT := 116

  /** A run of the protocol: the steps taken and where they lead. */
  datatype Run = Run(declared: nat, block: nat, acts: seq<Action>, last: Request)

  ghost predicate IsRun(r: Run)
  {
    0 < r.block < r.declared && Steps(Init(r.declared), r.acts, r.block, r.last)
  }

  type ProtocolRun = r: Run | IsRun(r) ghost witness Run(2, 1, [], Init(2))

  lemma RunKeeps(r: ProtocolRun)
    ensures Inv(r.last, r.block) && r.last.io.declared == r.declared
  {
    InitInv(r.declared, r.block);
    StepsGood(Init(r.declared), r.acts, r.block, r.last);
  }

  /** One more step. */
  ghost function More(r: ProtocolRun, a: Action): (q: ProtocolRun)
    requires |r.last.staging| <= r.block && Enabled(r.last, a)
    ensures q == Run(r.declared, r.block, r.acts + [a], Apply(r.last, a, r.block))
    ensures |q.last.staging| <= q.block
  {
    RunKeeps(r);
    StepInv(r.last, a, r.block);
    StepsSnoc(Init(r.declared), r.acts, r.block, r.last, a);
    Run(r.declared, r.block, r.acts + [a], Apply(r.last, a, r.block))
  }

  class CoapRequest {
    const block: nat                  // CONFIG_COAP_CLIENT_BLOCK_SIZE
    const declared: nat               // the length in the command
    const staging: array<byte>
    var stagingFilled: nat
    var payloadLen: nat
    var payloadSent: nat
    var started: bool
    var direct: bool
    var stagingReady: bool
    var stagingConsumed: bool
    var payloadAborted: bool
    var closed: bool
    // Where the two threads are.
    var producer: Producer
    var client: Client
    ghost var io: Account
    ghost var staged: seq<byte>       // staging[..stagingFilled]
    ghost var run: ProtocolRun        // the steps so far

    /** The request is where the run has taken it. */
    ghost predicate Valid()
      reads this, staging
    {
      && staging.Length == block && stagingFilled <= block
      && staged == staging[..stagingFilled]
      && run.block == block && run.declared == declared && run.last == View()
    }

    ghost function View(): Request
      reads this
    {
      Request(payloadLen, payloadSent, started, direct, staged, stagingReady, stagingConsumed,
              payloadAborted, closed, producer, client, io)
    }

    /** A request with a payload of more than one block, in data mode. */
    constructor (block: nat, declared: nat)
      requires 0 < block < declared
      ensures Valid() && fresh(staging) && this.block == block && this.declared == declared
      ensures run.last == Init(declared)
    {
      this.block, this.declared, payloadLen := block, declared, declared;
      staging := new byte[block](_ => 0);
      stagingFilled, payloadSent, started, direct := 0, 0, false, false;
      stagingReady, stagingConsumed, payloadAborted, closed := false, false, false, false;
      producer, client := Ready, Out;
      io, staged := Account(declared, [], [], []), [];
      run := Run(declared, block, [], Init(declared));
    }

    /** What every run keeps holds here. */
    lemma Reached()
      requires Valid()
      ensures Inv(View(), block) && io.declared == declared
    {
      RunKeeps(run);
    }

    /** Before a step is taken it is recorded. */
    ghost method Record(a: Action)
      requires Valid() && Enabled(View(), a)
      modifies this`run
      ensures run.block == block && run.declared == declared && run.last == Apply(View(), a, block)
      ensures |run.last.staging| <= block
    {
      run := More(run, a);
    }

    ghost method RecordTurn()
      requires Valid() && !closed && producer.Feeding?
      modifies this`run
      ensures run.block == block && run.declared == declared && run.last == LoopTurn(View(), block)
    {
      Record(Turn);
    }

    ghost method RecordExit()
      requires Valid() && !closed && (producer == Ready || producer == Failed)
      modifies this`run
      ensures run.block == block && run.declared == declared && run.last == OnExit(View(), block)
    {
      Record(ExitDataMode);
    }

    ghost method RecordHand()
      requires Valid() && !closed && client == Passed
      modifies this`run
      ensures run.block == block && run.declared == declared && run.last == OnHand(View())
    {
      Record(Hand);
    }

    /** memcpy behind what is staged already. */
    method Stage(data: seq<byte>)
      requires stagingFilled + |data| <= staging.Length
      requires staged == staging[..stagingFilled]
      modifies this`stagingFilled, this`staged, staging
      ensures stagingFilled == old(stagingFilled) + |data| <= staging.Length
      ensures staged == old(staged) + data == staging[..stagingFilled]
    {
      CopyIn(staging, stagingFilled, data);
      stagingFilled, staged := stagingFilled + |data|, staged + data;
    }

    /** One turn of the copy loop, up to the point where it may have to wait. */
    method TurnLoop(rest: seq<byte>)
      requires Valid() && !closed && producer == Feeding(rest)
      modifies this, staging
      ensures Valid() && run.last == LoopTurn(old(View()), block)
    {
      RecordTurn();
      CopyAndOffer(rest);
    }

    method CopyAndOffer(rest: seq<byte>)
      requires stagingFilled <= staging.Length == block && staged == staging[..stagingFilled]
      modifies this`stagingFilled, this`staged, this`producer, this`stagingReady, this`started, staging
      ensures stagingFilled <= block && staged == staging[..stagingFilled]
      ensures var copy := Min(|rest|, block - |old(staged)|);
        var isLast := payloadSent + |old(staged)| + copy >= payloadLen;
        var offer := |old(staged)| + copy == block || isLast;
        && staged == old(staged) + rest[..copy]
        && stagingReady == (old(stagingReady) || offer) && started == (old(started) || offer)
        && producer == if !offer then Loop(rest[copy..])
                       else if !old(started) then Starting(rest[copy..], isLast)
                       else AfterOffer(rest[copy..], isLast)
    {
      var copy := Min(|rest|, block - stagingFilled);
      var isLastBlock := payloadSent + stagingFilled + copy >= payloadLen;
      Stage(rest[..copy]);
      MoveOn(rest[copy..], stagingFilled == block || isLastBlock, isLastBlock);
    }

    /** Offer the block, or go on filling it. */
    method MoveOn(next: seq<byte>, offer: bool, isLast: bool)
      modifies this`producer, this`stagingReady, this`started
      ensures stagingReady == (old(stagingReady) || offer) && started == (old(started) || offer)
      ensures producer == if !offer then Loop(next)
                          else if !old(started) then Starting(next, isLast)
                          else AfterOffer(next, isLast)
    {
      if offer {
        stagingReady := true;
        if !started {
          started := true;
          producer := Starting(next, isLast);
        } else {
          producer := AfterOffer(next, isLast);
        }
      } else {
        producer := Loop(next);
      }
    }

    /** staging_consumed was taken: the block can be filled again. */
    method ResumeLoop()
      requires Valid() && !closed && producer.AwaitConsumed? && stagingConsumed
      modifies this
      ensures Valid() && run.last == Apply(old(View()), Resume, block)
    {
      Record(Resume);
      Refill();
    }

    method Refill()
      requires producer.AwaitConsumed?
      modifies this`stagingConsumed, this`stagingFilled, this`staged, this`producer
      ensures !stagingConsumed && stagingFilled == 0 && staged == [] && producer == Loop(old(producer).rest)
    {
      stagingConsumed := false;
      stagingFilled, staged := 0, [];
      producer := Loop(producer.rest);
    }

    /** Waiting for staging_consumed timed out. */
    method GiveUp()
      requires Valid() && !closed && producer.AwaitConsumed?
      modifies this
      ensures Valid() && run.last == Apply(old(View()), ProducerTimeout, block)
    {
      Record(ProducerTimeout);
      payloadAborted := true;
      producer := Failed;
    }

    /** coap_client_req returned. */
    method StartReturned(ok: bool)
      requires Valid() && !closed && producer.Starting? && client == Out
      modifies this
      ensures Valid() && run.last == Apply(old(View()), StartReturns(ok), block)
    {
      Record(StartReturns(ok));
      if ok {
        producer := AfterOffer(producer.rest, producer.isLast);
      } else {
        closed := true;
        producer := Failed;
      }
    }

    /** coap_datamode_callback(DATAMODE_EXIT). */
    method DatamodeExit()
      requires Valid() && !closed && (producer == Ready || producer == Failed)
      modifies this
      ensures Valid() && run.last == OnExit(old(View()), block)
    {
      if !started {
        ExitBeforeStart();
      } else {
        ExitAfterStart();
      }
    }

    /** What has been staged becomes the whole payload; if nothing was, the upload is aborted. */
    method ExitBeforeStart()
      requires Valid() && !closed && (producer == Ready || producer == Failed) && !started
      modifies this
      ensures Valid() && run.last == OnExit(old(View()), block)
    {
      if stagingFilled > 0 {
        SendStaged();
      } else {
        RecordExit();
        StartAborted();
      }
    }

    method StartAborted()
      modifies this`payloadAborted, this`stagingReady, this`started, this`producer
      ensures payloadAborted && stagingReady && started && producer == Stopped
    {
      payloadAborted := true;
      stagingReady, started := true, true;
      producer := Stopped;
    }

    method SendStaged()
      requires Valid() && !closed && (producer == Ready || producer == Failed) && !started && stagingFilled > 0
      modifies this
      ensures Valid() && run.last == OnExit(old(View()), block)
    {
      RecordExit();
      StartWhole();
    }

    method StartWhole()
      requires stagingFilled <= staging.Length && staged == staging[..stagingFilled]
      modifies this`payloadLen, this`direct, this`io, this`stagingReady, this`started, this`producer
      ensures payloadLen == |staged| && direct && io == Give(old(io), staged, true)
      ensures stagingReady && started && producer == Stopped
    {
      payloadLen := stagingFilled;
      stagingReady, started, direct := true, true, true;
      io := Give(io, staging[..stagingFilled], true);
      producer := Stopped;
    }

    /** The payload ends with what has been staged, or is aborted. */
    method ExitAfterStart()
      requires Valid() && !closed && (producer == Ready || producer == Failed) && started
      modifies this
      ensures Valid() && run.last == OnExit(old(View()), block)
    {
      RecordExit();
      EndWithStaged();
    }

    method EndWithStaged()
      requires |staged| == stagingFilled
      modifies this`payloadLen, this`payloadAborted, this`stagingReady, this`producer
      ensures producer == Stopped
      ensures var short := payloadSent + |staged| < old(payloadLen);
        && stagingReady == (old(stagingReady) || short)
        && payloadAborted == (old(payloadAborted) || (short && staged == []))
        && payloadLen == if short && staged != [] then payloadSent + |staged| else old(payloadLen)
    {
      producer := Stopped;
      if payloadSent + stagingFilled < payloadLen {
        if stagingFilled > 0 {
          payloadLen := payloadSent + stagingFilled;
        } else {
          payloadAborted := true;
        }
        stagingReady := true;
      }
    }

    /** coap_payload_cb up to the wait. A call after the last block returns at once, with the
        block that was returned before. */
    method PayloadCbEnter() returns (repeated: bool, len: nat)
      requires Valid() && !closed && client == Out && started && !direct
      modifies this
      ensures Valid() && run.last == Apply(old(View()), Call, block)
      ensures repeated <==> old(LastHanded(View()))
      ensures repeated ==> len == stagingFilled && staging[..len] == io.handed[|io.handed| - 1].data
    {
      Reached();
      InvMeans(View(), block);
      Record(Call);
      repeated := payloadSent >= payloadLen;
      len := stagingFilled;
      if !repeated {
        client := AwaitReady;
      }
    }

    /** k_sem_take(staging_ready) succeeds, or runs out of time. */
    method PayloadCbWait(inTime: bool)
      requires Valid() && !closed && client == AwaitReady && (inTime ==> stagingReady)
      modifies this
      ensures Valid() && run.last == Apply(old(View()), if inTime then Take else ClientTimeout, block)
    {
      Record(if inTime then Take else ClientTimeout);
      if inTime {
        stagingReady := false;
        client := Took;
      } else {
        client := Out;
        closed := true;
      }
    }

    /** The payload_aborted test. */
    method PayloadCbCheck() returns (ret: int)
      requires Valid() && !closed && client == Took
      modifies this
      ensures Valid() && run.last == Apply(old(View()), Check, block)
      ensures ret == if payloadAborted then -EIO else 0
    {
      Record(Check);
      if payloadAborted {
        client := Out;
        closed := true;
        ret := -EIO;
      } else {
        client := Passed;
        ret := 0;
      }
    }

    /** The end of coap_payload_cb, with the library's copy of what it returns. */
    method PayloadCbHand() returns (payload: seq<byte>, lastBlock: bool)
      requires Valid() && !closed && client == Passed
      modifies this
      ensures Valid() && run.last == OnHand(old(View()))
      ensures io == Give(old(io), payload, lastBlock)
    {
      RecordHand();
      payload := staging[..stagingFilled];
      lastBlock := payloadSent + stagingFilled >= payloadLen;
      CountBlock(payload, lastBlock);
    }

    method CountBlock(payload: seq<byte>, lastBlock: bool)
      modifies this`payloadSent, this`client, this`stagingConsumed, this`io
      ensures payloadSent == old(payloadSent) + stagingFilled && client == Out
      ensures stagingConsumed == (old(stagingConsumed) || !lastBlock) && io == Give(old(io), payload, lastBlock)
    {
      payloadSent := payloadSent + stagingFilled;
      if !lastBlock {
        stagingConsumed := true;
      }
      io := Give(io, payload, lastBlock);
      client := Out;
    }

    /** coap_callback ends the request: with a failure, or with the last block of a response. */
    method CallbackEnds(a: Action)
      requires Valid() && !closed && started && client == Out && (a.Fail? || a.Finish?)
      modifies this
      ensures Valid() && closed && run.last == old(View()).(closed := true)
    {
      Record(a);
      closed := true;
    }

    /** One step of the client thread, if it can take this step now. */
    method ClientStep(a: Action)
      requires Valid()
      modifies this
      ensures Valid() && View() == ClientTry(old(View()), a, block)
    {
      if !closed {
        if a.Call? && client == Out && started && !direct {
          var _, _ := PayloadCbEnter();
        } else if a.Take? && client == AwaitReady && stagingReady {
          PayloadCbWait(true);
        } else if a.ClientTimeout? && client == AwaitReady {
          PayloadCbWait(false);
        } else if a.Check? && client == Took {
          var _ := PayloadCbCheck();
        } else if a.Hand? && client == Passed {
          var _, _ := PayloadCbHand();
        } else if (a.Fail? || a.Finish?) && client == Out && started {
          CallbackEnds(a);
        }
      }
    }

    /** What the client thread does while the data mode thread waits. */
    method RunClient(script: seq<Action>)
      requires Valid()
      modifies this
      ensures Valid() && View() == ClientRun(old(View()), script, block)
      ensures producer == old(producer) && io.fed == old(io.fed)
    {
      ghost var start := View();
      var i := 0;
      while i < |script|
        invariant 0 <= i <= |script| && Valid() && Played(start, script, i)
      {
        PlayOne(start, script, i);
        i := i + 1;
      }
      assert script[..|script|] == script;
      ClientKeeps(start, script, block);
    }

    /** i steps of the script have been taken. */
    ghost predicate Played(start: Request, script: seq<Action>, i: nat)
      requires i <= |script|
      reads this
    {
      View() == ClientRun(start, script[..i], block)
    }

    method PlayOne(ghost start: Request, script: seq<Action>, i: nat)
      requires i < |script| && Valid() && Played(start, script, i)
      modifies this
      ensures Valid() && Played(start, script, i + 1)
    {
      ClientStep(script[i]);
      assert script[..i + 1][..i] == script[..i];
    }

    /** coap_start_request: coap_client_req calls payload_cb for block 0 on this thread. */
    method StartRequest(ok: bool)
      requires Valid() && !closed && producer.Starting? && client == Out && stagingReady && !payloadAborted
      modifies this
      ensures Valid() && io.fed == old(io.fed)
      ensures if ok then !closed && producer == old(AfterOffer(producer.rest, producer.isLast)) else closed
      ensures ok ==> exists last :: io.handed == old(io.handed) + [Block(old(staged), last)] && stagingConsumed == !last
      ensures !ok ==> io == old(io)
      ensures ok && producer.AwaitConsumed? ==> stagingConsumed
    {
      if ok {
        FirstCallback();
      }
      StartReturned(ok);
    }

    /** coap_payload_cb for block 0: the block is staged, so the callback does not wait. */
    method FirstCallback()
      requires Valid() && !closed && producer.Starting? && client == Out && stagingReady && !payloadAborted
      modifies this
      ensures Valid() && !closed && client == Out && producer == old(producer) && io.fed == old(io.fed)
      ensures exists last :: io.handed == old(io.handed) + [Block(old(staged), last)] && stagingConsumed == !last
      ensures producer.Starting? && !producer.isLast ==> stagingConsumed
    {
      Reached();
      EnterAndPass();
      var _, last := PayloadCbHand();
      assert io.handed == old(io.handed) + [Block(old(staged), last)];
    }

    twostate predicate SameBlock()
      reads this
    {
      && staged == old(staged) && payloadSent == old(payloadSent) && payloadLen == old(payloadLen)
      && stagingConsumed == old(stagingConsumed)
    }

    method EnterAndPass()
      requires Valid() && !closed && producer.Starting? && client == Out && stagingReady && !payloadAborted
      modifies this
      ensures Valid() && !closed && client == Passed && producer == old(producer) && io == old(io)
      ensures SameBlock()
    {
      EnterAndTake();
      var _ := PayloadCbCheck();
    }

    method EnterAndTake()
      requires Valid() && !closed && producer.Starting? && client == Out && stagingReady && !payloadAborted
      modifies this
      ensures Valid() && !closed && client == Took && producer == old(producer) && io == old(io) && !payloadAborted
      ensures SameBlock()
    {
      Reached();
      var repeated, _ := PayloadCbEnter();
      PayloadCbWait(true);
    }

    /** The loop body of coap_datamode_send_block, waits included. The client thread may take steps
        before the turn and during the wait. A request that is closed meanwhile ends the model: the
        source goes on with a request that is gone (ClosedInUse). */
    method SendTurn(rest: seq<byte>, startOk: bool, before: seq<Action>, during: seq<Action>)
      returns (ret: int, left: seq<byte>)
      requires Valid() && !closed && producer == Feeding(rest)
      modifies this, staging
      ensures Valid() && io.fed == old(io.fed)
      ensures Outcome(ret) && (ret == 0 ==> producer == Loop(left) && |left| < |rest|)
      ensures startOk && Polite(before) && Polite(during) ==> !closed
      ensures ClientRun(old(View()), before, block).closed ==>
                ret == -EIO && View() == ClientRun(old(View()), before, block)
      ensures startOk && Polite(before) && Polite(during) && (old(started) ==> Serves(during)) ==> ret == 0
    {
      OpenClient(before);
      if closed {
        return -EIO, rest;
      }
      left := TurnAndStart(rest, startOk);
      if closed {
        return -EIO, left;
      }
      ret := 0;
      if producer.AwaitConsumed? {
        ret := AwaitConsumption(during);
      }
    }

    /** The turn up to the wait: with the first block the request is started, and the library takes
        the block at once. */
    method TurnAndStart(rest: seq<byte>, startOk: bool) returns (left: seq<byte>)
      requires Valid() && !closed && producer == Feeding(rest)
      modifies this, staging
      ensures Valid() && io.fed == old(io.fed) && |left| < |rest|
      ensures closed ==> !startOk && !old(started)
      ensures !closed ==> !payloadAborted && (producer == Loop(left) || producer == AwaitConsumed(left))
      ensures !closed && producer.AwaitConsumed? && !old(started) ==> stagingConsumed
    {
      Reached();
      left := rest[Min(|rest|, block - stagingFilled)..];
      TurnLoop(rest);
      Reached();
      if producer.Starting? {
        StartRequest(startOk);
        if !closed {
          Reached();
        }
      }
    }

    /** What the results of coap_datamode_send_block mean. */
    ghost predicate Outcome(ret: int)
      reads this
    {
      && (ret == 0 || ret == -EIO || ret == -ETIMEDOUT)
      && (ret == -EIO <==> closed)
      && (ret == -ETIMEDOUT ==> !stagingConsumed && payloadAborted && producer == Failed)
    }

    /** Before the turn. */
    method OpenClient(script: seq<Action>)
      requires Valid() && !closed && producer.Feeding?
      modifies this
      ensures Valid() && producer == old(producer) && io.fed == old(io.fed)
      ensures Polite(script) ==> !closed
      ensures View() == ClientRun(old(View()), script, block)
      ensures !old(started) ==> View() == old(View())
    {
      Reached();
      if Polite(script) {
        PoliteKeepsOpen(View(), script, block);
      }
      if !started {
        ClientWaits(View(), script, block);
      }
      RunClient(script);
    }

    /** k_sem_take(staging_consumed): it fails only if the block has not been handed out. */
    method AwaitConsumption(during: seq<Action>) returns (ret: int)
      requires Valid() && !closed && producer.AwaitConsumed?
      modifies this
      ensures Valid() && io.fed == old(io.fed)
      ensures Outcome(ret) && (ret == 0 ==> producer == Loop(old(producer).rest))
      ensures ret == 0 <==> var q := ClientRun(old(View()), during, block); !q.closed && q.consumed
      ensures Polite(during) ==> !closed
      ensures Polite(during) && (old(stagingConsumed) || Serves(during)) ==> ret == 0
    {
      Reached();
      if Polite(during) {
        ClientServes(View(), during, block);
      }
      RunClient(during);
      if closed {
        return -EIO;
      }
      if stagingConsumed {
        ResumeLoop();
        ret := 0;
      } else {
        GiveUp();
        ret := -ETIMEDOUT;
      }
    }

    /** coap_datamode_send_block. script(k) says what the client thread does before turn k and while
        the data mode thread waits in it; a wait that ends without a token has timed out. Whatever
        it says, the loop stays a run of the protocol; and if the client serves during every wait
        and the request can be started, all bytes are passed on. */
    method DatamodeSendBlock(data: seq<byte>, startOk: bool, script: nat -> (seq<Action>, seq<Action>))
      returns (ret: int)
      requires Valid() && !closed && producer == Ready && data != [] && |io.fed| + |data| <= declared
      modifies this, staging
      ensures Valid() && io.fed == old(io.fed) + data
      ensures Outcome(ret) && (ret == 0 ==> producer == Ready && !payloadAborted)
      ensures startOk && (forall k :: Polite(script(k).0) && Polite(script(k).1)) ==> !closed
      ensures startOk && (forall k :: ServesTurn(script(k), k > 0 || old(started))) ==> ret == 0
      ensures ret == 0 && LastHanded(View()) ==> Data(io.handed) == io.fed
    {
      StartFeeding(data);
      var rest, k := data, 0;
      while rest != []
        invariant Valid() && !closed && producer == Loop(rest) && io.fed == old(io.fed) + data
        invariant k == 0 ==> started == old(started)
        decreases |rest|
      {
        var now := script(k);
        ret, rest := SendTurn(rest, startOk, now.0, now.1);
        if ret != 0 {
          return;
        }
        k := k + 1;
      }
      ret := 0;
      AllHanded();
    }

    method StartFeeding(data: seq<byte>)
      requires Valid() && !closed && producer == Ready && data != [] && |io.fed| + |data| <= declared
      modifies this
      ensures Valid() && !closed && io.fed == old(io.fed) + data && producer == Feeding(data)
      ensures started == old(started)
    {
      Reached();
      Record(Feed(data));
      io := io.(fed := io.fed + data);
      producer := Feeding(data);
    }

    /** What the last block means at rest. */
    lemma AllHanded()
      requires Valid() && !closed && producer == Ready
      ensures !payloadAborted && (LastHanded(View()) ==> Data(io.handed) == io.fed)
    {
      Reached();
      UploadIsSafe(declared, block, run.acts, View());
    }

    /** A whole payload, in pieces as data mode passes them on, to a client that serves during every
        wait and once more at the end: it is handed out completely, the last block flagged. */
    method Upload(pieces: seq<seq<byte>>, scripts: (nat, nat) -> (seq<Action>, seq<Action>), final: seq<Action>)
      requires Valid() && run.last == Init(declared) && |Concat(pieces)| == declared
      requires forall i :: 0 <= i < |pieces| ==> pieces[i] != []
      requires (forall i, k :: ServesTurn(scripts(i, k), i > 0 || k > 0)) && Serves(final)
      modifies this, staging
      ensures Valid() && !closed && !payloadAborted && LastHanded(View())
      ensures Data(io.handed) == Concat(pieces) && WellBlocked(io.handed, block)
    {
      UploadPieces(pieces, scripts);
      FinishUpload(final);
    }

    method UploadPieces(pieces: seq<seq<byte>>, scripts: (nat, nat) -> (seq<Action>, seq<Action>))
      requires Valid() && run.last == Init(declared) && |Concat(pieces)| == declared
      requires forall i :: 0 <= i < |pieces| ==> pieces[i] != []
      requires forall i, k :: ServesTurn(scripts(i, k), i > 0 || k > 0)
      modifies this, staging
      ensures Valid() && !closed && producer == Ready && io.fed == Concat(pieces)
    {
      var i := 0;
      while i < |pieces|
        invariant 0 <= i <= |pieces| && Valid() && !closed && producer == Ready
        invariant io.fed == Concat(pieces[..i]) && (i == 0 ==> !started)
      {
        var now: nat := i;
        ConcatUpTo(pieces, i);
        var ret := DatamodeSendBlock(pieces[i], true, (k: nat) => scripts(now, k));
        i := i + 1;
      }
      assert pieces[..i] == pieces;
    }

    method FinishUpload(final: seq<Action>)
      requires Valid() && !closed && producer == Ready && |io.fed| == declared && Serves(final)
      modifies this
      ensures Valid() && !closed && !payloadAborted && LastHanded(View()) && io.fed == old(io.fed)
      ensures Data(io.handed) == io.fed && WellBlocked(io.handed, block)
    {
      Reached();
      LastBlockStaged(View(), block);
      ClientServes(View(), final, block);
      RunClient(final);
      AllHanded();
      UploadIsSafe(declared, block, run.acts, View());
    }
  }

  /** In a turn in which the request is started already, the client is needed. */
  predicate ServesTurn(turn: (seq<Action>, seq<Action>), started: bool)
  {
    Polite(turn.0) && Polite(turn.1) && (started ==> Serves(turn.1))
  }

  lemma ConcatUpTo(pieces: seq<seq<byte>>, i: nat)
    requires i < |pieces|
    ensures Concat(pieces[..i + 1]) == Concat(pieces[..i]) + pieces[i]
    ensures |Concat(pieces[..i])| + |pieces[i]| <= |Concat(pieces)|
  {
    ConcatAppend(pieces[..i], pieces[i]);
    assert pieces[..i + 1] == pieces[..i] + [pieces[i]];
    ConcatPrefix(pieces, i + 1);
  }

  lemma {:induction false} ConcatPrefix(pieces: seq<seq<byte>>, i: nat)
    requires i <= |pieces|
    ensures |Concat(pieces[..i])| <= |Concat(pieces)|
  {
    if i == 0 {
    } else {
      ConcatPrefix(pieces[1..], i - 1);
      assert pieces[..i][1..] == pieces[1..][..i - 1];
    }
  }
}
