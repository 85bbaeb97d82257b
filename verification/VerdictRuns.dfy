/** What L1 has finally said about a batch stands in every run, overflow and fork selection included. */
module VerdictRuns {
  import opened Batches
  import opened L1Check
  import opened StreamerSpec
  import opened StreamerRuns

  lemma CheckKeepsCache(s: State, env: Env, truth: Truth, b: Batch)
    requires Honest(env.rpc, truth) && CacheSound(s.view, truth)
    ensures CacheSound(CheckBatch(s, env, b).1.view, truth)
  {
    CachedAgreesWithUncached(s.view, env.rpc, truth, s.nextBatchPos, b);
  }

  lemma {:induction false} HasNextKeepsCache(s: State, env: Env, truth: Truth)
    requires Honest(env.rpc, truth) && CacheSound(s.view, truth)
    ensures CacheSound(HasNext(s, env).0.view, truth)
    decreases Size(s)
  {
    hide Honest, CacheSound;
    if s.head.None? {
      if s.buffer != [] && s.buffer[0].number < s.nextBatchPos {
        HasNextKeepsCache(s.(buffer := s.buffer[1..]), env, truth);
      } else if s.buffer != [] && s.buffer[0].number == s.nextBatchPos {
        HasNextKeepsCache(s.(head := Some(s.buffer[0]), buffer := s.buffer[1..]), env, truth);
      }
    } else {
      CheckKeepsCache(s, env, truth, s.head.value);
      var (validity, s1) := CheckBatch(s, env, s.head.value);
      if validity == Drop || validity == Past {
        HasNextKeepsCache(if validity == Drop then DropHeld(s1) else s1.(head := None), env, truth);
      }
    }
  }

  lemma ProcessTxKeepsCache(s: State, env: Env, truth: Truth, blockPos: Height, tx: Tx)
    requires Honest(env.rpc, truth) && CacheSound(s.view, truth)
    ensures CacheSound(ProcessTx(s, env, blockPos, tx).view, truth)
  {
    if tx.Some? {
      CheckKeepsCache(s, env, truth, tx.value);
    }
  }

  lemma {:induction false} ProcessTxsKeepsCache(s: State, env: Env, truth: Truth, blockPos: Height, txs: seq<Tx>)
    requires Honest(env.rpc, truth) && CacheSound(s.view, truth)
    ensures CacheSound(ProcessTxs(s, env, blockPos, txs).view, truth)
    decreases |txs|
  {
    if txs != [] {
      ProcessTxKeepsCache(s, env, truth, blockPos, txs[0]);
      ProcessTxsKeepsCache(ProcessTx(s, env, blockPos, txs[0]), env, truth, blockPos, txs[1..]);
    }
  }

  lemma {:induction false} ProcessBlocksKeepsCache(s: State, env: Env, truth: Truth, start: nat, finish: Height)
    requires Honest(env.rpc, truth) && CacheSound(s.view, truth)
    ensures CacheSound(ProcessBlocks(s, env, start, finish).view, truth)
    decreases finish - start
  {
    if start < finish {
      ProcessTxsKeepsCache(s, env, truth, start, env.log(start));
      ProcessBlocksKeepsCache(ProcessTxs(s, env, start, env.log(start)), env, truth, start + 1, finish);
    }
  }

  lemma UpdateOnceKeepsCache(s: State, env: Env, truth: Truth, net: Network, finalized: Height, i: nat)
    requires finalized + 1 < MAX_UINT64 && Honest(env.rpc, truth) && CacheSound(s.view, truth)
    ensures CacheSound(UpdateOnce(s, env, net, finalized, i).0.view, truth)
  {
    hide Honest, CacheSound, ProcessBlocks, HasNext;
    var (start, finish) := ComputeRange(s.hotShotPos, finalized, HOTSHOT_BLOCK_FETCH_LIMIT);
    if start < finish {
      var s1 := s.(hotShotPos := finish - 1, history := s.history.(seen := Max(s.history.seen, finish)));
      ProcessBlocksKeepsCache(s1, env, truth, start, finish);
      HasNextKeepsCache(FetchRange(s, env, net.answers(i), start, finish).0, env, truth);
    }
  }

  lemma {:induction false} UpdateLoopKeepsCache(s: State, env: Env, truth: Truth, net: Network, finalized: Height,
                                                i: nat, rounds: nat)
    requires finalized + 1 < MAX_UINT64 && Honest(env.rpc, truth) && CacheSound(s.view, truth)
    ensures CacheSound(UpdateLoop(s, env, net, finalized, i, rounds).0.view, truth)
    decreases rounds
  {
    hide Honest, CacheSound, UpdateOnce;
    if rounds > 0 {
      UpdateOnceKeepsCache(s, env, truth, net, finalized, i);
      UpdateLoopKeepsCache(UpdateOnce(s, env, net, finalized, i).0, env, truth, net, finalized, i + 1, rounds - 1);
    }
  }

  lemma StepKeepsCache(s: State, env: Env, truth: Truth, e: Event)
    requires Honest(env.rpc, truth) && CacheSound(s.view, truth)
    ensures CacheSound(Step(s, env, e).0.view, truth)
  {
    hide Honest, HasNext, UpdateLoop;
    match e
    case EvUpdate(net, rounds) =>
      if net.latest.Some? && 2 <= net.latest.value < MAX_UINT64 {
        UpdateLoopKeepsCache(s, env, truth, net, net.latest.value - 2, 0, rounds);
      }
    case EvHasNext => HasNextKeepsCache(s, env, truth);
    case EvPeek => HasNextKeepsCache(s, env, truth);
    case EvNext => HasNextKeepsCache(s, env, truth);
    case _ =>
  }

  lemma {:induction false} RunKeepsCache(s: State, env: Env, truth: Truth, es: seq<Event>)
    requires Honest(env.rpc, truth) && CacheSound(s.view, truth)
    ensures CacheSound(Run(s, env, es).0.view, truth)
    decreases |es|
  {
    if es != [] {
      StepKeepsCache(s, env, truth, es[0]);
      RunKeepsCache(Step(s, env, es[0]).0, env, truth, es[1..]);
    }
  }

  /** In any run from a fresh streamer, under an L1 that fails or tells the canonical chain: an accept or drop
      reached for a batch whose origin is final agrees with the canonical chain, and at every later state with
      finality no lower and the batch not passed the verdict is the same, or is put off by a failing call. */
  lemma VerdictStands(originHotShotPos: Height, originBatchPos: BlockNumber, capacity: nat, env: Env, truth: Truth,
                      es: seq<Event>, es': seq<Event>, b: Batch)
    requires Honest(env.rpc, truth)
    requires
      var s := Run(Create(originHotShotPos, originBatchPos, capacity), env, es).0;
      var t := Run(s, env, es').0;
      && s.view.finalized != ZERO_REF && t.view.finalized != ZERO_REF
      && b.origin.number <= s.view.finalized.number <= t.view.finalized.number
      && t.nextBatchPos <= b.number
      && CheckBatch(s, env, b).0 in {Accept, Drop}
    ensures
      var s := Run(Create(originHotShotPos, originBatchPos, capacity), env, es).0;
      var t := Run(s, env, es').0;
      && (CheckBatch(s, env, b).0 == Accept <==> FinallyAccepted(truth, b))
      && CheckBatch(t, env, b).0 in {CheckBatch(s, env, b).0, Undecided}
      && (NeverFails(env.rpc) ==> CheckBatch(t, env, b).0 == CheckBatch(s, env, b).0)
  {
    hide Run, Honest, NeverFails, CacheSound, FinallyAccepted, Check;
    var s0 := Create(originHotShotPos, originBatchPos, capacity);
    CreatedIsSound(originHotShotPos, originBatchPos, capacity, truth);
    RunKeepsCache(s0, env, truth, es);
    var s := Run(s0, env, es).0;
    RunKeepsCache(s, env, truth, es');
    var t := Run(s, env, es').0;
    FinalVerdictNeverFlips(s.view, t.view, env.rpc, truth, s.nextBatchPos, t.nextBatchPos, b);
  }

  lemma CreatedIsSound(originHotShotPos: Height, originBatchPos: BlockNumber, capacity: nat, truth: Truth)
    ensures CacheSound(Create(originHotShotPos, originBatchPos, capacity).view, truth)
  {
  }

  // ---------- what is known of L1 ----------

  /** The finalized block of the latest Refresh. */
  function LatestFinalized(known: L1BlockRef, es: seq<Event>): L1BlockRef {
    if es == [] then known
    else if es[|es| - 1].EvRefresh? then es[|es| - 1].finalizedL1
    else LatestFinalized(known, es[..|es| - 1])
  }

  /** The batcher of the latest Refresh whose contract call succeeded with a non-zero address. */
  function LatestBatcher(known: Address, es: seq<Event>): Address {
    if es == [] then known
    else
      var last := es[|es| - 1];
      if last.EvRefresh? && last.batcher.Some? && last.batcher.value != ZERO_ADDRESS then last.batcher.value
      else LatestBatcher(known, es[..|es| - 1])
  }

  lemma StepSeesL1(s: State, env: Env, e: Event)
    ensures
      var v := Step(s, env, e).0.view;
      && v.finalized == LatestFinalized(s.view.finalized, [e])
      && v.batcher == LatestBatcher(s.view.batcher, [e])
  {
    hide HasNext;
    match e
    case EvUpdate(net, rounds) =>
      if net.latest.Some? && 2 <= net.latest.value < MAX_UINT64 {
        UpdateKeepsL1(s, env, net, net.latest.value - 2, 0, rounds);
      }
    case _ =>
  }

  lemma OnceKeepsL1(s: State, env: Env, net: Network, finalized: Height, i: nat)
    requires finalized + 1 < MAX_UINT64
    ensures
      var v := UpdateOnce(s, env, net, finalized, i).0.view;
      v.finalized == s.view.finalized && v.batcher == s.view.batcher
  {
    hide HasNext, ProcessBlocks;
  }

  lemma {:induction false} UpdateKeepsL1(s: State, env: Env, net: Network, finalized: Height, i: nat, rounds: nat)
    requires finalized + 1 < MAX_UINT64
    ensures
      var v := UpdateLoop(s, env, net, finalized, i, rounds).0.view;
      v.finalized == s.view.finalized && v.batcher == s.view.batcher
    decreases rounds
  {
    hide UpdateOnce;
    if rounds > 0 {
      OnceKeepsL1(s, env, net, finalized, i);
      UpdateKeepsL1(UpdateOnce(s, env, net, finalized, i).0, env, net, finalized, i + 1, rounds - 1);
    }
  }

  lemma {:induction false} LatestOfRest(known: L1BlockRef, batcher: Address, e: Event, es: seq<Event>)
    ensures LatestFinalized(known, [e] + es) == LatestFinalized(LatestFinalized(known, [e]), es)
    ensures LatestBatcher(batcher, [e] + es) == LatestBatcher(LatestBatcher(batcher, [e]), es)
  {
    if es == [] {
      assert [e] + es == [e];
    } else {
      assert ([e] + es)[..|es|] == [e] + es[..|es| - 1];
      LatestOfRest(known, batcher, e, es[..|es| - 1]);
    }
  }

  /** After any run the streamer knows the finalized block of the latest Refresh, and the batcher of the latest one
      that could tell: a failed call and a zero address leave it as it was. */
  lemma {:induction false} L1IsLatest(s: State, env: Env, es: seq<Event>)
    ensures
      var v := Run(s, env, es).0.view;
      && v.finalized == LatestFinalized(s.view.finalized, es)
      && v.batcher == LatestBatcher(s.view.batcher, es)
    decreases |es|
  {
    hide Step;
    if es != [] {
      StepSeesL1(s, env, es[0]);
      L1IsLatest(Step(s, env, es[0]).0, env, es[1..]);
      LatestOfRest(s.view.finalized, s.view.batcher, es[0], es[1..]);
      assert [es[0]] + es[1..] == es;
    }
  }
}
