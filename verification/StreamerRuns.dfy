/** Runs of the batch streamer, the invariant every operation keeps, and the numbers a run hands out. */
module StreamerRuns {
  import opened Batches
  import opened BufferSpec
  import opened L1Check
  import opened StreamerSpec

  /** A call; of Update, the first rounds iterations, so that a run also shows what lies inside an Update. */
  datatype Event =
    | EvUpdate(net: Network, rounds: nat)
    | EvRefresh(finalizedL1: L1BlockRef, batcher: Option<Address>, safe: BlockNumber, light: Option<Height>)
    | EvRefreshSafeL1Origin(originLight: Option<Height>)
    | EvReset
    | EvHasNext
    | EvPeek
    | EvNext
    | EvSetProperHead(parent: Hash)

  /** One call; the second component is the batch handed out, if any. */
  function Step(s: State, env: Env, e: Event): (State, Option<Batch>) {
    match e
    case EvUpdate(net, rounds) => (Update(s, env, net, rounds).0, None)
    case EvRefresh(finalizedL1, batcher, safe, light) => (Refresh(s, finalizedL1, batcher, safe, light), None)
    case EvRefreshSafeL1Origin(light) => (RefreshSafeL1Origin(s, light), None)
    case EvReset => (Reset(s), None)
    case EvHasNext => (HasNext(s, env).0, None)
    case EvPeek => (HasNext(s, env).0, None)
    case EvNext => Next(s, env)
    case EvSetProperHead(parent) => (SetProperHead(s, parent), None)
  }

  /** A whole run: the final state and the batches handed out, in order. */
  function Run(s: State, env: Env, es: seq<Event>): (State, seq<Batch>)
    decreases |es|
  {
    if es == [] then (s, [])
    else
      var (s1, out) := Step(s, env, es[0]);
      var (s2, rest) := Run(s1, env, es[1..]);
      (s2, (if out.Some? then [out.value] else []) + rest)
  }

  // ---------- the invariant ----------

  /** The three cursors never fall below the origin and a pending rewind never points ahead. */
  ghost predicate CursorInv(s: State) {
    && s.originHotShotPos <= s.fallbackHotShotPos
    && s.originHotShotPos <= s.hotShotPos
    && (s.skipPos != MAX_UINT64 ==> s.originHotShotPos <= s.skipPos <= s.hotShotPos)
  }

  /** The head is the batch to hand out next, which is above the last safe batch; the buffer is in order. */
  ghost predicate HeadInv(s: State) {
    && (s.head.Some? ==> s.head.value.number == s.nextBatchPos)
    && s.fallbackBatchPos < s.nextBatchPos <= MAX_UINT64
    && Sorted(s.buffer) && |s.buffer| <= s.capacity
  }

  ghost predicate Inv(s: State) {
    CursorInv(s) && HeadInv(s)
  }

  lemma {:induction false} HasNextKeepsHead(s: State, env: Env)
    requires HeadInv(s)
    ensures HeadInv(HasNext(s, env).0)
    ensures HasNext(s, env).1 ==> HasNext(s, env).0.head.Some?
    decreases Size(s)
  {
    if s.head.None? {
      if s.buffer != [] && s.buffer[0].number < s.nextBatchPos {
        HasNextKeepsHead(s.(buffer := s.buffer[1..]), env);
      } else if s.buffer != [] && s.buffer[0].number == s.nextBatchPos {
        HasNextKeepsHead(s.(head := Some(s.buffer[0]), buffer := s.buffer[1..]), env);
      }
    } else {
      var (validity, s1) := CheckBatch(s, env, s.head.value);
      if validity == Drop {
        HasNextKeepsHead(DropHeld(s1), env);
      }
    }
  }

  lemma {:induction false} HasNextShrinks(s: State, env: Env)
    ensures Size(HasNext(s, env).0) <= Size(s)
    ensures HasNext(s, env).1 ==> HasNext(s, env).0.head.Some?
    decreases Size(s)
  {
    if s.head.None? {
      if s.buffer != [] && s.buffer[0].number < s.nextBatchPos {
        HasNextShrinks(s.(buffer := s.buffer[1..]), env);
      } else if s.buffer != [] && s.buffer[0].number == s.nextBatchPos {
        HasNextShrinks(s.(head := Some(s.buffer[0]), buffer := s.buffer[1..]), env);
      }
    } else {
      var (validity, s1) := CheckBatch(s, env, s.head.value);
      if validity == Drop || validity == Past {
        HasNextShrinks(if validity == Drop then DropHeld(s1) else s1.(head := None), env);
      }
    }
  }

  /** What HasNext waits for, in any state: a batch to come, or the verdict on a head that is not passed. */
  lemma {:induction false} NotReadyIsWaiting(s: State, env: Env)
    ensures
      var (t, ready) := HasNext(s, env);
      && (t.head.Some? ==> t.head.value.number >= t.nextBatchPos)
      && (ready ==> t.head.Some?)
      && (t.head.None? ==> !ready && (t.buffer == [] || t.buffer[0].number > t.nextBatchPos))
    decreases Size(s)
  {
    if s.head.None? {
      if s.buffer != [] && s.buffer[0].number < s.nextBatchPos {
        NotReadyIsWaiting(s.(buffer := s.buffer[1..]), env);
      } else if s.buffer != [] && s.buffer[0].number == s.nextBatchPos {
        NotReadyIsWaiting(s.(head := Some(s.buffer[0]), buffer := s.buffer[1..]), env);
      }
    } else {
      var (validity, s1) := CheckBatch(s, env, s.head.value);
      if validity == Drop || validity == Past {
        NotReadyIsWaiting(if validity == Drop then DropHeld(s1) else s1.(head := None), env);
      }
    }
  }

  lemma ProcessKeepsHead(s: State, env: Env, tx: Tx)
    requires HeadInv(s)
    ensures HeadInv(Process(s, env, tx).0)
  {
    if tx.Some? {
      InsertKeepsOrder(s.buffer, s.capacity, tx.value);
    }
  }

  /** Processing transactions of a block at or after the cursor keeps a pending rewind in range. */
  lemma {:induction false} ProcessTxsKeeps(s: State, env: Env, blockPos: Height, txs: seq<Tx>)
    requires Inv(s) && s.originHotShotPos <= (if blockPos > 0 then blockPos - 1 else 0) && blockPos <= s.hotShotPos
    ensures Inv(ProcessTxs(s, env, blockPos, txs))
    decreases |txs|
  {
    if txs != [] {
      ProcessKeepsHead(s, env, txs[0]);
      ProcessTxsKeeps(ProcessTx(s, env, blockPos, txs[0]), env, blockPos, txs[1..]);
    }
  }

  lemma {:induction false} ProcessBlocksKeeps(s: State, env: Env, start: nat, finish: Height)
    requires Inv(s) && s.originHotShotPos <= (if start > 0 then start - 1 else 0) && finish <= s.hotShotPos + 1
    ensures Inv(ProcessBlocks(s, env, start, finish))
    decreases finish - start
  {
    if start < finish {
      ProcessTxsKeeps(s, env, start, env.log(start));
      ProcessBlocksKeeps(ProcessTxs(s, env, start, env.log(start)), env, start + 1, finish);
    }
  }

  lemma FetchRangeKeeps(s: State, env: Env, answer: Answer, finish: Height)
    requires Inv(s) && ScanStart(s.hotShotPos) < finish
    ensures
      var t := FetchRange(s, env, answer, ScanStart(s.hotShotPos), finish).0;
      && Inv(t)
      && s.hotShotPos <= t.hotShotPos
      && t.nextBatchPos == s.nextBatchPos && t.fallbackBatchPos == s.fallbackBatchPos
      && t.history.epoch == s.history.epoch && t.history.from == s.history.from
  {
    var start := ScanStart(s.hotShotPos);
    if finish > 0 && answer.Served? {
      ProcessBlocksKeeps(s.(hotShotPos := finish - 1, history := s.history.(seen := Max(s.history.seen, finish))),
                         env, start, finish);
    }
  }

  lemma UpdateOnceKeeps(s: State, env: Env, net: Network, finalized: Height, i: nat)
    requires Inv(s) && finalized + 1 < MAX_UINT64
    ensures
      var (t, end) := UpdateOnce(s, env, net, finalized, i);
      && Inv(t)
      && s.hotShotPos <= t.hotShotPos
      && t.nextBatchPos == s.nextBatchPos && t.fallbackBatchPos == s.fallbackBatchPos
      && t.history.epoch == s.history.epoch && t.history.from == s.history.from
      && (end == Some(BatchReady) ==> t.head.Some?)
  {
    var (start, finish) := ComputeRange(s.hotShotPos, finalized, HOTSHOT_BLOCK_FETCH_LIMIT);
    if start < finish {
      FetchRangeKeeps(s, env, net.answers(i), finish);
      HasNextKeepsHead(FetchRange(s, env, net.answers(i), start, finish).0, env);
    }
  }

  lemma {:induction false} UpdateLoopKeeps(s: State, env: Env, net: Network, finalized: Height, i: nat, rounds: nat)
    requires Inv(s) && finalized + 1 < MAX_UINT64
    ensures
      var (t, end) := UpdateLoop(s, env, net, finalized, i, rounds);
      && Inv(t)
      && s.hotShotPos <= t.hotShotPos
      && t.nextBatchPos == s.nextBatchPos && t.fallbackBatchPos == s.fallbackBatchPos
      && t.history.epoch == s.history.epoch && t.history.from == s.history.from
      && (end == Some(BatchReady) ==> t.head.Some?)
    decreases rounds
  {
    hide UpdateOnce;
    if rounds > 0 {
      UpdateOnceKeeps(s, env, net, finalized, i);
      var (t, end) := UpdateOnce(s, env, net, finalized, i);
      if end.None? {
        UpdateLoopKeeps(t, env, net, finalized, i + 1, rounds - 1);
      }
    }
  }

  /** Within Update the cursor never moves back, and an Update that reports a batch has the next one ready. */
  lemma UpdateNeverMovesBack(s: State, env: Env, net: Network, rounds: nat)
    requires Inv(s)
    ensures
      var (t, end) := Update(s, env, net, rounds);
      && Inv(t)
      && s.hotShotPos <= t.hotShotPos
      && t.nextBatchPos == s.nextBatchPos && t.fallbackBatchPos == s.fallbackBatchPos
      && t.history.epoch == s.history.epoch && t.history.from == s.history.from
      && (end == Some(BatchReady) ==> t.head.Some?)
  {
    hide UpdateLoop;
    if net.latest.Some? && 2 <= net.latest.value < MAX_UINT64 {
      UpdateLoopKeeps(s, env, net, net.latest.value - 2, 0, rounds);
    }
  }

  /** A call that hands out a batch hands out number nextBatchPos, which is above the last safe batch; a call
      that does not either leaves nextBatchPos alone or resets. */
  ghost predicate Advances(s: State, t: State, out: Option<Batch>) {
    && s.history.epoch <= t.history.epoch
    && (out.Some? ==> s.fallbackBatchPos < out.value.number == s.nextBatchPos)
    && (t.history.epoch == s.history.epoch ==>
          && t.nextBatchPos == s.nextBatchPos + (if out.Some? then 1 else 0)
          && t.history.from == s.history.from)
    && (t.history.epoch != s.history.epoch ==> out.None? && t.nextBatchPos == t.fallbackBatchPos + 1)
  }

  lemma RefreshSafeL1OriginKeeps(s: State, light: Option<Height>)
    requires Inv(s)
    ensures Inv(RefreshSafeL1Origin(s, light)) && Advances(s, RefreshSafeL1Origin(s, light), None)
    ensures RefreshSafeL1Origin(s, light).fallbackBatchPos == s.fallbackBatchPos
  {
  }

  lemma FollowSafeBatchKeeps(s: State, safe: BlockNumber)
    requires Inv(s)
    ensures
      var t := FollowSafeBatch(s, safe);
      Inv(t) && Advances(s, t, None) && t.fallbackBatchPos == safe
  {
  }

  lemma RefreshKeeps(s: State, finalizedL1: L1BlockRef, batcher: Option<Address>, safe: BlockNumber,
                     light: Option<Height>)
    requires Inv(s)
    ensures
      var t := Refresh(s, finalizedL1, batcher, safe, light);
      Inv(t) && Advances(s, t, None) && t.fallbackBatchPos == safe
  {
    var s1 := SeeL1(s, finalizedL1, batcher);
    RefreshSafeL1OriginKeeps(s1, light);
    FollowSafeBatchKeeps(RefreshSafeL1Origin(s1, light), safe);
  }

  lemma SetProperHeadKeeps(s: State, parent: Hash)
    requires Inv(s)
    ensures Inv(SetProperHead(s, parent)) && Advances(s, SetProperHead(s, parent), None)
  {
    var k := DrainRemovesLongestRun(s.buffer, s.nextBatchPos, parent);
  }

  lemma NextKeeps(s: State, env: Env)
    requires Inv(s)
    ensures Inv(Next(s, env).0) && Advances(s, Next(s, env).0, Next(s, env).1)
  {
    HasNextKeepsHead(s, env);
  }

  /** Every call keeps the invariant. */
  lemma StepKeeps(s: State, env: Env, e: Event)
    requires Inv(s)
    ensures Inv(Step(s, env, e).0) && Advances(s, Step(s, env, e).0, Step(s, env, e).1)
  {
    match e
    case EvUpdate(net, rounds) => UpdateNeverMovesBack(s, env, net, rounds);
    case EvRefresh(finalizedL1, batcher, safe, light) => RefreshKeeps(s, finalizedL1, batcher, safe, light);
    case EvRefreshSafeL1Origin(light) => RefreshSafeL1OriginKeeps(s, light);
    case EvReset =>
    case EvHasNext => HasNextKeepsHead(s, env);
    case EvPeek => HasNextKeepsHead(s, env);
    case EvNext => NextKeeps(s, env);
    case EvSetProperHead(parent) => SetProperHeadKeeps(s, parent);
  }

  /** The invariant holds in every state a fresh streamer can reach, whatever is called in whatever order. */
  lemma ReachableInv(originHotShotPos: Height, originBatchPos: BlockNumber, capacity: nat, env: Env, es: seq<Event>)
    ensures Inv(Run(Create(originHotShotPos, originBatchPos, capacity), env, es).0)
  {
    RunKeeps(Create(originHotShotPos, originBatchPos, capacity), env, es);
  }

  /** Between two resets the batches handed out are numbered nextBatchPos, nextBatchPos + 1, and so on, with
      no gap and no repeat, across rewinds and rescans. */
  lemma {:induction false} RunKeeps(s: State, env: Env, es: seq<Event>)
    requires Inv(s)
    ensures
      var (t, out) := Run(s, env, es);
      && Inv(t)
      && s.history.epoch <= t.history.epoch
      && (t.history.epoch == s.history.epoch ==>
            && t.nextBatchPos == s.nextBatchPos + |out|
            && forall k | 0 <= k < |out| :: out[k].number == s.nextBatchPos + k)
    decreases |es|
  {
    if es != [] {
      StepKeeps(s, env, es[0]);
      var (s1, o) := Step(s, env, es[0]);
      RunKeeps(s1, env, es[1..]);
    }
  }

  // ---------- starting over ----------

  /** A reset makes the streamer a new one at the fallback, wherever its cursor stood; only the origin, the L1
      view and the count of resets are carried over. */
  lemma ResetIsNewStart(s: State)
    ensures Reset(s) == Create(s.fallbackHotShotPos, s.fallbackBatchPos, s.capacity).(
                          originHotShotPos := s.originHotShotPos,
                          view := s.view,
                          history := NewHistory(s.history.epoch + 1, s.fallbackHotShotPos))
  {
  }

  /** What the light client's height does in a reachable state: nothing when it cannot be had or is not above the
      origin; else it becomes the fallback, and a lower one than before starts over from there. */
  lemma LightClientMovesFallback(s: State, light: Option<Height>)
    requires CursorInv(s)
    ensures
      var t := RefreshSafeL1Origin(s, light);
      if light.None? || light.value <= s.originHotShotPos then t == s
      else if light.value >= s.fallbackHotShotPos then t == s.(fallbackHotShotPos := light.value)
      else t == Reset(s.(fallbackHotShotPos := light.value)) && t.hotShotPos == light.value
  {
  }

  // ---------- fork selection ----------

  /** SetProperHead, unless the head has the wrong number, clears the head and removes exactly the longest
      front run of entries numbered nextBatchPos whose parent is another one; the rest keeps its order. */
  lemma {:induction false} DrainRemovesLongestRun(buffer: seq<Batch>, next: nat, parent: Hash) returns (k: nat)
    ensures k <= |buffer| && Drain(buffer, next, parent) == buffer[k..]
    ensures forall i | 0 <= i < k :: buffer[i].number == next && buffer[i].parentHash != parent
    ensures k < |buffer| ==> buffer[k].number != next || buffer[k].parentHash == parent
  {
    k := 0;
    if buffer != [] && buffer[0].number == next && buffer[0].parentHash != parent {
      var j := DrainRemovesLongestRun(buffer[1..], next, parent);
      k := j + 1;
      assert buffer[1..][j..] == buffer[k..];
      assert forall i | 0 < i < k :: buffer[i] == buffer[1..][i - 1];
    }
  }

  /** SetProperHead on the whole state: with a head of another number nothing happens; otherwise the head slot is
      emptied, exactly the first k entries go, which are the longest front run for the wanted number with another
      parent, and nothing else changes. */
  lemma SetProperHeadRemovesExactly(s: State, parent: Hash) returns (k: nat)
    ensures s.head.Some? && s.head.value.number != s.nextBatchPos ==> SetProperHead(s, parent) == s
    ensures s.head.None? || s.head.value.number == s.nextBatchPos ==>
              k <= |s.buffer| && SetProperHead(s, parent) == s.(head := None, buffer := s.buffer[k..])
    ensures k <= |s.buffer|
    ensures forall i | 0 <= i < k :: s.buffer[i].number == s.nextBatchPos && s.buffer[i].parentHash != parent
    ensures k < |s.buffer| ==> s.buffer[k].number != s.nextBatchPos || s.buffer[k].parentHash == parent
  {
    k := DrainRemovesLongestRun(s.buffer, s.nextBatchPos, parent);
  }

  /** After SetProperHead, with no stale entry in the buffer, the candidate that HasNext tries first has the
      wanted parent: HasNext behaves as if that candidate were the head, or there is no candidate. */
  lemma ProperHeadPromotedNext(s: State, env: Env, parent: Hash)
    requires Inv(s) && (forall x | x in s.buffer :: x.number >= s.nextBatchPos)
    ensures
      var t := SetProperHead(s, parent);
      && t.head.None?
      && (|t.buffer| > 0 && t.buffer[0].number == t.nextBatchPos ==>
            && t.buffer[0].parentHash == parent
            && HasNext(t, env) == HasNext(t.(head := Some(t.buffer[0]), buffer := t.buffer[1..]), env))
      && (|t.buffer| == 0 || t.buffer[0].number != t.nextBatchPos ==> HasNext(t, env) == (t, false))
  {
    var k := DrainRemovesLongestRun(s.buffer, s.nextBatchPos, parent);
    var t := SetProperHead(s, parent);
    if |t.buffer| > 0 {
      assert t.buffer[0] == s.buffer[k];
      assert s.buffer[k] in s.buffer;
    }
  }
}
