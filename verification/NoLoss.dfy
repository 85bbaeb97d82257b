/** No batch is lost when the buffer overflows: what was scanned is held, or was dropped for good, or will be
    scanned again. */
module NoLoss {
  import opened Batches
  import opened BufferSpec
  import opened L1Check
  import opened StreamerSpec
  import opened StreamerRuns

  /** A batch's hash determines its number, throughout the log. */
  ghost predicate NumbersFixed(log: Log, numberOf: Hash -> nat) {
    forall p: nat, b: Batch | Some(b) in log(p) :: b.number == numberOf(b.hash)
  }

  ghost predicate HeldNumbersFixed(s: State, numberOf: Hash -> nat) {
    && (s.head.Some? ==> s.head.value.number == numberOf(s.head.value.hash))
    && forall x | x in s.buffer :: x.number == numberOf(x.hash)
  }

  ghost predicate Held(s: State, h: Hash) {
    (s.head.Some? && s.head.value.hash == h) || HoldsHash(s.buffer, h)
  }

  /** b is behind the streamer, or in its hands, or was rejected when scanned, or CheckBatch dropped a held
      batch with its hash. */
  ghost predicate Kept(s: State, b: Batch) {
    b.number < s.nextBatchPos || Held(s, b.hash) || b in s.history.rejected || b.hash in s.history.dropped
  }

  /** Block p will be read again once the pending rewind is taken. */
  ghost predicate ToBeRescanned(s: State, p: nat) {
    s.skipPos != MAX_UINT64 && ScanStart(s.skipPos) <= p
  }

  ghost predicate Covered(s: State, log: Log, upTo: nat) {
    forall p: nat, b: Batch | s.history.from <= p < upTo && Some(b) in log(p) :: Kept(s, b) || ToBeRescanned(s, p)
  }

  /** Everything scanned since the last reset is kept, or lies at or after the pending rewind. */
  ghost predicate NothingLost(s: State, log: Log) {
    Covered(s, log, ScanStart(s.hotShotPos))
  }

  ghost predicate KeptGrows(s: State, t: State, numberOf: Hash -> nat) {
    forall b: Batch | b.number == numberOf(b.hash) && Kept(s, b) :: Kept(t, b)
  }

  lemma {:induction false} HasNextKeeps(s: State, env: Env, numberOf: Hash -> nat)
    requires HeldNumbersFixed(s, numberOf)
    ensures HeldNumbersFixed(HasNext(s, env).0, numberOf) && KeptGrows(s, HasNext(s, env).0, numberOf)
    decreases Size(s)
  {
    if s.head.None? {
      if s.buffer != [] && s.buffer[0].number <= s.nextBatchPos {
        var x := s.buffer[0];
        var s1 := s.(head := if x.number == s.nextBatchPos then Some(x) else None, buffer := s.buffer[1..]);
        assert s.buffer == [x] + s1.buffer;
        HasNextKeeps(s1, env, numberOf);
      }
    } else {
      var (validity, s1) := CheckBatch(s, env, s.head.value);
      if validity == Drop {
        HasNextKeeps(DropHeld(s1), env, numberOf);
      } else if validity == Past {
        HasNextKeeps(s1.(head := None), env, numberOf);
      }
    }
  }

  lemma NextKeepsAll(s: State, env: Env, numberOf: Hash -> nat)
    requires HeldNumbersFixed(s, numberOf) && HeadInv(s)
    ensures HeldNumbersFixed(Next(s, env).0, numberOf) && KeptGrows(s, Next(s, env).0, numberOf)
  {
    HasNextKeeps(s, env, numberOf);
    HasNextKeepsHead(s, env);
  }

  lemma ProcessTxKeeps(s: State, env: Env, blockPos: Height, tx: Tx, numberOf: Hash -> nat)
    requires HeldNumbersFixed(s, numberOf)
    requires tx.Some? ==> tx.value.number == numberOf(tx.value.hash)
    ensures
      var t := ProcessTx(s, env, blockPos, tx);
      && HeldNumbersFixed(t, numberOf) && KeptGrows(s, t, numberOf)
      && t.skipPos <= s.skipPos
      && (tx.Some? ==> Kept(t, tx.value) || ToBeRescanned(t, blockPos))
  {
  }

  lemma {:induction false} ProcessTxsKeepsAll(s: State, env: Env, blockPos: Height, txs: seq<Tx>, numberOf: Hash -> nat)
    requires HeldNumbersFixed(s, numberOf)
    requires forall b: Batch | Some(b) in txs :: b.number == numberOf(b.hash)
    ensures
      var t := ProcessTxs(s, env, blockPos, txs);
      && HeldNumbersFixed(t, numberOf) && KeptGrows(s, t, numberOf)
      && t.skipPos <= s.skipPos
      && forall b: Batch | Some(b) in txs :: Kept(t, b) || ToBeRescanned(t, blockPos)
    decreases |txs|
  {
    hide ProcessTx, Kept, HeldNumbersFixed;
    if txs != [] {
      ProcessTxKeeps(s, env, blockPos, txs[0], numberOf);
      ProcessTxsKeepsAll(ProcessTx(s, env, blockPos, txs[0]), env, blockPos, txs[1..], numberOf);
      assert txs == [txs[0]] + txs[1..];
    }
  }

  lemma {:induction false} ProcessBlocksCover(s: State, env: Env, start: nat, finish: Height, numberOf: Hash -> nat)
    requires NumbersFixed(env.log, numberOf) && HeldNumbersFixed(s, numberOf)
    requires Covered(s, env.log, start) && start <= finish
    ensures
      var t := ProcessBlocks(s, env, start, finish);
      HeldNumbersFixed(t, numberOf) && Covered(t, env.log, finish)
    decreases finish - start
  {
    if start < finish {
      ProcessTxsKeepsAll(s, env, start, env.log(start), numberOf);
      var t := ProcessTxs(s, env, start, env.log(start));
      CoveredGrows(s, t, env.log, start, numberOf);
      assert Covered(t, env.log, start + 1);
      ProcessBlocksCover(t, env, start + 1, finish, numberOf);
    }
  }

  lemma CoveredGrows(s: State, t: State, log: Log, upTo: nat, numberOf: Hash -> nat)
    requires NumbersFixed(log, numberOf) && KeptGrows(s, t, numberOf)
    requires Covered(s, log, upTo) && t.skipPos <= s.skipPos && t.history.from == s.history.from
    ensures Covered(t, log, upTo)
  {
  }

  lemma FetchRangeCovers(s: State, env: Env, answer: Answer, finish: Height, numberOf: Hash -> nat)
    requires NumbersFixed(env.log, numberOf) && HeldNumbersFixed(s, numberOf)
    requires NothingLost(s, env.log) && ScanStart(s.hotShotPos) < finish
    ensures
      var t := FetchRange(s, env, answer, ScanStart(s.hotShotPos), finish).0;
      HeldNumbersFixed(t, numberOf) && NothingLost(t, env.log)
  {
    if answer.Served? {
      var s1 := s.(hotShotPos := finish - 1, history := s.history.(seen := Max(s.history.seen, finish)));
      assert KeptGrows(s, s1, numberOf);
      CoveredGrows(s, s1, env.log, ScanStart(s.hotShotPos), numberOf);
      ProcessBlocksCover(s1, env, ScanStart(s.hotShotPos), finish, numberOf);
    }
  }

  lemma HasNextLosesNothing(s: State, env: Env, numberOf: Hash -> nat)
    requires NumbersFixed(env.log, numberOf) && HeldNumbersFixed(s, numberOf) && NothingLost(s, env.log)
    ensures HeldNumbersFixed(HasNext(s, env).0, numberOf) && NothingLost(HasNext(s, env).0, env.log)
  {
    HasNextKeeps(s, env, numberOf);
    CoveredGrows(s, HasNext(s, env).0, env.log, ScanStart(s.hotShotPos), numberOf);
  }

  lemma UpdateOnceLosesNothing(s: State, env: Env, net: Network, finalized: Height, i: nat, numberOf: Hash -> nat)
    requires finalized + 1 < MAX_UINT64
    requires NumbersFixed(env.log, numberOf) && HeldNumbersFixed(s, numberOf) && NothingLost(s, env.log)
    ensures
      var t := UpdateOnce(s, env, net, finalized, i).0;
      HeldNumbersFixed(t, numberOf) && NothingLost(t, env.log)
  {
    var (start, finish) := ComputeRange(s.hotShotPos, finalized, HOTSHOT_BLOCK_FETCH_LIMIT);
    if start < finish {
      FetchRangeCovers(s, env, net.answers(i), finish, numberOf);
      HasNextLosesNothing(FetchRange(s, env, net.answers(i), start, finish).0, env, numberOf);
    }
  }

  lemma {:induction false} UpdateLoopLosesNothing(s: State, env: Env, net: Network, finalized: Height, i: nat,
                                                  rounds: nat, numberOf: Hash -> nat)
    requires finalized + 1 < MAX_UINT64
    requires NumbersFixed(env.log, numberOf) && HeldNumbersFixed(s, numberOf) && NothingLost(s, env.log)
    ensures
      var t := UpdateLoop(s, env, net, finalized, i, rounds).0;
      HeldNumbersFixed(t, numberOf) && NothingLost(t, env.log)
    decreases rounds
  {
    hide UpdateOnce;
    if rounds > 0 {
      UpdateOnceLosesNothing(s, env, net, finalized, i, numberOf);
      var (t, end) := UpdateOnce(s, env, net, finalized, i);
      if end.None? {
        UpdateLoopLosesNothing(t, env, net, finalized, i + 1, rounds - 1, numberOf);
      }
    }
  }

  /** The rewind in Next moves the cursor back exactly to where the lost ground begins. */
  lemma NextLosesNothing(s: State, env: Env, numberOf: Hash -> nat)
    requires Inv(s)
    requires NumbersFixed(env.log, numberOf) && HeldNumbersFixed(s, numberOf) && NothingLost(s, env.log)
    ensures HeldNumbersFixed(Next(s, env).0, numberOf) && NothingLost(Next(s, env).0, env.log)
  {
    NextKeepsAll(s, env, numberOf);
    var t := Next(s, env).0;
    forall p: nat, b: Batch | t.history.from <= p < ScanStart(t.hotShotPos) && Some(b) in env.log(p)
      ensures Kept(t, b) || ToBeRescanned(t, p)
    {
      assert Kept(s, b) || ToBeRescanned(s, p);
    }
  }

  /** A refresh either leaves head, buffer and cursor as they are or starts a new scan. */
  ghost predicate StaysOrRestarts(s: State, t: State) {
    || t == s.(view := t.view, fallbackBatchPos := t.fallbackBatchPos, fallbackHotShotPos := t.fallbackHotShotPos)
    || (t.head.None? && t.buffer == [] && t.skipPos == MAX_UINT64
        && t.history.from == t.history.seen == ScanStart(t.hotShotPos))
  }

  lemma RefreshStaysOrRestarts(s: State, finalizedL1: L1BlockRef, batcher: Option<Address>, safe: BlockNumber,
                               light: Option<Height>)
    ensures StaysOrRestarts(s, RefreshSafeL1Origin(s, light))
    ensures StaysOrRestarts(s, Refresh(s, finalizedL1, batcher, safe, light))
  {
  }

  lemma RestartLosesNothing(s: State, t: State, log: Log, numberOf: Hash -> nat)
    requires HeldNumbersFixed(s, numberOf) && NothingLost(s, log) && StaysOrRestarts(s, t)
    ensures HeldNumbersFixed(t, numberOf) && NothingLost(t, log)
  {
  }

  lemma RefreshLosesNothing(s: State, finalizedL1: L1BlockRef, batcher: Option<Address>, safe: BlockNumber,
                            light: Option<Height>, log: Log, numberOf: Hash -> nat)
    requires HeldNumbersFixed(s, numberOf) && NothingLost(s, log)
    ensures
      var t := RefreshSafeL1Origin(s, light);
      HeldNumbersFixed(t, numberOf) && NothingLost(t, log)
    ensures
      var t := Refresh(s, finalizedL1, batcher, safe, light);
      HeldNumbersFixed(t, numberOf) && NothingLost(t, log)
  {
    RefreshStaysOrRestarts(s, finalizedL1, batcher, safe, light);
    RestartLosesNothing(s, RefreshSafeL1Origin(s, light), log, numberOf);
    RestartLosesNothing(s, Refresh(s, finalizedL1, batcher, safe, light), log, numberOf);
  }

  lemma UpdateLosesNothing(s: State, env: Env, net: Network, rounds: nat, numberOf: Hash -> nat)
    requires NumbersFixed(env.log, numberOf) && HeldNumbersFixed(s, numberOf) && NothingLost(s, env.log)
    ensures
      var t := Update(s, env, net, rounds).0;
      HeldNumbersFixed(t, numberOf) && NothingLost(t, env.log)
  {
    hide UpdateLoop;
    if net.latest.Some? && 2 <= net.latest.value < MAX_UINT64 {
      UpdateLoopLosesNothing(s, env, net, net.latest.value - 2, 0, rounds, numberOf);
    }
  }

  lemma StepLosesNothing(s: State, env: Env, e: Event, numberOf: Hash -> nat)
    requires Inv(s) && !e.EvSetProperHead?
    requires NumbersFixed(env.log, numberOf) && HeldNumbersFixed(s, numberOf) && NothingLost(s, env.log)
    ensures
      var t := Step(s, env, e).0;
      HeldNumbersFixed(t, numberOf) && NothingLost(t, env.log)
  {
    match e
    case EvUpdate(net, rounds) => UpdateLosesNothing(s, env, net, rounds, numberOf);
    case EvRefresh(finalizedL1, batcher, safe, light) =>
      RefreshLosesNothing(s, finalizedL1, batcher, safe, light, env.log, numberOf);
    case EvRefreshSafeL1Origin(light) =>
      RefreshLosesNothing(s, s.view.finalized, None, 0, light, env.log, numberOf);
    case EvReset =>
    case EvHasNext => HasNextLosesNothing(s, env, numberOf);
    case EvPeek => HasNextLosesNothing(s, env, numberOf);
    case EvNext => NextLosesNothing(s, env, numberOf);
  }

  lemma {:induction false} RunLosesNothing(s: State, env: Env, es: seq<Event>, numberOf: Hash -> nat)
    requires Inv(s) && (forall e | e in es :: !e.EvSetProperHead?)
    requires NumbersFixed(env.log, numberOf) && HeldNumbersFixed(s, numberOf) && NothingLost(s, env.log)
    ensures NothingLost(Run(s, env, es).0, env.log)
    decreases |es|
  {
    if es != [] {
      StepKeeps(s, env, es[0]);
      StepLosesNothing(s, env, es[0], numberOf);
      RunLosesNothing(Step(s, env, es[0]).0, env, es[1..], numberOf);
    }
  }

  /** In every state a streamer reaches without SetProperHead: each batch in a block scanned since the last
      reset is passed, or was itself rejected when it was scanned, or shares its hash with a batch that was held
      and then dropped, or is the head, or is in the buffer by hash, or lies in a block at or after the scan
      start of the pending rewind. */
  lemma NothingIsLost(originHotShotPos: Height, originBatchPos: BlockNumber, capacity: nat, env: Env,
                      es: seq<Event>, numberOf: Hash -> nat)
    requires NumbersFixed(env.log, numberOf) && (forall e | e in es :: !e.EvSetProperHead?)
    ensures
      var t := Run(Create(originHotShotPos, originBatchPos, capacity), env, es).0;
      forall p: nat, b: Batch
        | && t.history.from <= p < ScanStart(t.hotShotPos) && Some(b) in env.log(p)
          && b.number >= t.nextBatchPos && b !in t.history.rejected && b.hash !in t.history.dropped
        :: || (t.head.Some? && t.head.value.hash == b.hash)
           || HoldsHash(t.buffer, b.hash)
           || (t.skipPos != MAX_UINT64 && ScanStart(t.skipPos) <= p)
  {
    hide Run;
    var s := Create(originHotShotPos, originBatchPos, capacity);
    RunLosesNothing(s, env, es, numberOf);
    var t := Run(s, env, es).0;
    assert forall p: nat, b: Batch | t.history.from <= p < ScanStart(t.hotShotPos) && Some(b) in env.log(p) ::
        Kept(t, b) || ToBeRescanned(t, p);
  }
}
