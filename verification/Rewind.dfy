/** The pending rewind, exactly: when there is one, where it points, and that taking it uses it up. */
module Rewind {
  import opened Batches
  import opened L1Check
  import opened StreamerSpec
  import opened StreamerRuns

  /** Where the cursor must stand for the next scan to begin at block p. */
  function Before(p: nat): nat {
    if p > 0 then p - 1 else 0
  }

  /** A rewind is pending exactly when some batch scanned since the last batch handed out, or reset, found the
      buffer full; it points before the earliest block of such a batch. */
  ghost predicate RewindExact(s: State) {
    && (s.skipPos != MAX_UINT64 <==> s.history.overflowed != {})
    && (forall p | p in s.history.overflowed :: s.skipPos <= Before(p))
    && (s.skipPos != MAX_UINT64 ==> exists p :: p in s.history.overflowed && s.skipPos == Before(p))
  }

  /** What it means that a batch finds the buffer full: it decodes, is neither dropped nor passed, does not repeat
      the head, does not take the empty head slot, and as many entries are buffered as there is room for. */
  lemma FoundFullIff(s: State, env: Env, tx: Tx)
    ensures Process(s, env, tx).1
       <==> && tx.Some?
            && CheckBatch(s, env, tx.value).0 in {Accept, Undecided}
            && (s.head.Some? ==> s.head.value.number != tx.value.number || s.head.value.hash != tx.value.hash)
            && (s.head.None? ==> tx.value.number != s.nextBatchPos)
            && |s.buffer| >= s.capacity
  {
  }

  lemma ProcessTxKeepsRewind(s: State, env: Env, blockPos: Height, tx: Tx)
    requires RewindExact(s)
    ensures RewindExact(ProcessTx(s, env, blockPos, tx))
    ensures blockPos in ProcessTx(s, env, blockPos, tx).history.overflowed
       <==> blockPos in s.history.overflowed || Process(s, env, tx).1
  {
    hide CheckBatch;
    var (s1, full) := Process(s, env, tx);
    if full {
      var t := Skip(s1, blockPos);
      assert blockPos in t.history.overflowed;
      if s.skipPos <= Before(blockPos) {
        var p :| p in s.history.overflowed && s.skipPos == Before(p);
        assert p in t.history.overflowed;
      }
    }
  }

  lemma {:induction false} ProcessTxsKeepsRewind(s: State, env: Env, blockPos: Height, txs: seq<Tx>)
    requires RewindExact(s)
    ensures RewindExact(ProcessTxs(s, env, blockPos, txs))
    decreases |txs|
  {
    hide RewindExact, ProcessTx;
    if txs != [] {
      ProcessTxKeepsRewind(s, env, blockPos, txs[0]);
      ProcessTxsKeepsRewind(ProcessTx(s, env, blockPos, txs[0]), env, blockPos, txs[1..]);
    }
  }

  lemma {:induction false} ProcessBlocksKeepsRewind(s: State, env: Env, start: nat, finish: Height)
    requires RewindExact(s)
    ensures RewindExact(ProcessBlocks(s, env, start, finish))
    decreases finish - start
  {
    hide RewindExact, ProcessTxs;
    if start < finish {
      ProcessTxsKeepsRewind(s, env, start, env.log(start));
      ProcessBlocksKeepsRewind(ProcessTxs(s, env, start, env.log(start)), env, start + 1, finish);
    }
  }

  lemma UpdateOnceKeepsRewind(s: State, env: Env, net: Network, finalized: Height, i: nat)
    requires finalized + 1 < MAX_UINT64 && RewindExact(s)
    ensures RewindExact(UpdateOnce(s, env, net, finalized, i).0)
  {
    hide ProcessBlocks, HasNext;
    var (start, finish) := ComputeRange(s.hotShotPos, finalized, HOTSHOT_BLOCK_FETCH_LIMIT);
    if start < finish {
      var s1 := s.(hotShotPos := finish - 1, history := s.history.(seen := Max(s.history.seen, finish)));
      ProcessBlocksKeepsRewind(s1, env, start, finish);
    }
  }

  lemma {:induction false} UpdateLoopKeepsRewind(s: State, env: Env, net: Network, finalized: Height, i: nat,
                                                 rounds: nat)
    requires finalized + 1 < MAX_UINT64 && RewindExact(s)
    ensures RewindExact(UpdateLoop(s, env, net, finalized, i, rounds).0)
    decreases rounds
  {
    hide RewindExact, UpdateOnce;
    if rounds > 0 {
      UpdateOnceKeepsRewind(s, env, net, finalized, i);
      UpdateLoopKeepsRewind(UpdateOnce(s, env, net, finalized, i).0, env, net, finalized, i + 1, rounds - 1);
    }
  }

  lemma StepKeepsRewind(s: State, env: Env, e: Event)
    requires RewindExact(s)
    ensures RewindExact(Step(s, env, e).0)
  {
    hide UpdateLoop, HasNext;
    match e
    case EvUpdate(net, rounds) =>
      if net.latest.Some? && 2 <= net.latest.value < MAX_UINT64 {
        UpdateLoopKeepsRewind(s, env, net, net.latest.value - 2, 0, rounds);
      }
    case _ =>
  }

  lemma {:induction false} RunKeepsRewind(s: State, env: Env, es: seq<Event>)
    requires RewindExact(s)
    ensures RewindExact(Run(s, env, es).0)
    decreases |es|
  {
    hide RewindExact, Step;
    if es != [] {
      StepKeepsRewind(s, env, es[0]);
      RunKeepsRewind(Step(s, env, es[0]).0, env, es[1..]);
    }
  }

  /** In every reachable state, whatever is called in whatever order, the pending rewind is exact. */
  lemma RewindIsExact(originHotShotPos: Height, originBatchPos: BlockNumber, capacity: nat, env: Env, es: seq<Event>)
    ensures RewindExact(Run(Create(originHotShotPos, originBatchPos, capacity), env, es).0)
  {
    RunKeepsRewind(Create(originHotShotPos, originBatchPos, capacity), env, es);
  }

  /** A Next that hands out a batch takes the pending rewind and leaves none; any other Next leaves cursor and
      rewind as they are. */
  lemma NextUsesUpRewind(s: State, env: Env)
    ensures
      var (t, out) := Next(s, env);
      && (out.Some? ==>
            && t.skipPos == MAX_UINT64 && t.history.overflowed == {}
            && t.hotShotPos == if s.skipPos == MAX_UINT64 then s.hotShotPos else s.skipPos)
      && (out.None? ==> SameCursor(s, t))
  {
    hide HasNext;
    HasNextShrinks(s, env);
  }
}
