/** How far one Update gets when it does not fail and finds nothing to hand out. */
module UpdateCoverage {
  import opened Batches
  import opened StreamerSpec
  import opened StreamerRuns

  /** Blocks left to scan up to the finalized one; not positive when there are none. */
  function Remaining(pos: Height, finalized: Height): int {
    finalized + 1 - ScanStart(pos)
  }

  /** Where start + limit wraps on uint64. */
  predicate LimitWraps(start: nat) {
    start + HOTSHOT_BLOCK_FETCH_LIMIT > MAX_UINT64
  }

  /** No iteration can begin here: the range is empty, or it is one block and is not the first. */
  predicate NothingToFetch(pos: Height, finalized: Height, i: nat)
    requires finalized + 1 < MAX_UINT64
  {
    var (start, finish) := ComputeRange(pos, finalized, HOTSHOT_BLOCK_FETCH_LIMIT);
    start >= finish || (start + 1 == finish && i > 0)
  }

  /** When an iteration ends the loop for want of blocks, and where one that does not end it leaves the cursor. */
  lemma OnceEnds(s: State, env: Env, net: Network, finalized: Height, i: nat)
    requires finalized + 1 < MAX_UINT64
    ensures
      var finish := ComputeRange(s.hotShotPos, finalized, HOTSHOT_BLOCK_FETCH_LIMIT).1;
      var (t, end) := UpdateOnce(s, env, net, finalized, i);
      && (end == Some(RangeExhausted) <==> NothingToFetch(s.hotShotPos, finalized, i))
      && (end == Some(RangeExhausted) ==> t == s)
      && (end.None? ==> !net.answers(i).Failed?
                        && t.hotShotPos == if net.answers(i).Served? then finish - 1 else s.hotShotPos)
  {
  }

  lemma {:induction false} LoopEndsWithNothingToFetch(s: State, env: Env, net: Network, finalized: Height, i: nat,
                                                      rounds: nat)
    requires finalized + 1 < MAX_UINT64
    ensures
      var (t, end) := UpdateLoop(s, env, net, finalized, i, rounds);
      end == Some(RangeExhausted) ==>
        t.hotShotPos + 1 >= finalized || LimitWraps(ScanStart(t.hotShotPos))
    decreases rounds
  {
    hide UpdateOnce;
    if rounds > 0 {
      OnceEnds(s, env, net, finalized, i);
      var (t, end) := UpdateOnce(s, env, net, finalized, i);
      if end.None? {
        LoopEndsWithNothingToFetch(t, env, net, finalized, i + 1, rounds - 1);
      }
    }
  }

  /** An Update that succeeds ends with the next batch in the head slot, or with at most the newest finalized
      block unscanned, or so near the top of uint64 that start + limit wraps. */
  lemma UpdateLeavesAtMostOne(s: State, env: Env, net: Network, rounds: nat)
    requires Inv(s) && net.latest.Some? && 2 <= net.latest.value
    ensures
      var (t, end) := Update(s, env, net, rounds);
      && (end == Some(RangeExhausted) ==>
            t.hotShotPos + 1 >= net.latest.value - 2 || LimitWraps(ScanStart(t.hotShotPos)))
      && (end == Some(BatchReady) ==> t.head.Some? && t.head.value.number == t.nextBatchPos)
  {
    hide UpdateLoop;
    UpdateNeverMovesBack(s, env, net, rounds);
    if net.latest.value < MAX_UINT64 {
      LoopEndsWithNothingToFetch(s, env, net, net.latest.value - 2, 0, rounds);
    }
  }

  /** There Update stops at once, whatever is left to scan. */
  lemma WrapStopsUpdate(s: State, env: Env, net: Network, rounds: nat)
    requires net.latest.Some? && 2 <= net.latest.value < MAX_UINT64 && rounds > 0
    requires LimitWraps(ScanStart(s.hotShotPos))
    ensures Update(s, env, net, rounds) == (s, Some(RangeExhausted))
  {
    OnceEnds(s, env, net, net.latest.value - 2, 0);
  }

  /** Where a loop that has every request served and finds nothing leaves the cursor. */
  function Reached(pos: Height, finalized: Height, i: nat): (r: Height)
    requires finalized + 1 < MAX_UINT64
    decreases Max(finalized + 1, ScanStart(pos)) - ScanStart(pos), if i == 0 then 1 else 0
  {
    if NothingToFetch(pos, finalized, i) then pos
    else Reached(ComputeRange(pos, finalized, HOTSHOT_BLOCK_FETCH_LIMIT).1 - 1, finalized, i + 1)
  }

  /** The size of the last range when r blocks are scanned a hundred at a time. */
  function LastRange(r: nat): (l: nat)
    requires r > 0
    ensures 1 <= l <= HOTSHOT_BLOCK_FETCH_LIMIT && l <= r
  {
    (r - 1) % HOTSHOT_BLOCK_FETCH_LIMIT + 1
  }

  lemma OnlyRange(r: nat)
    requires 0 < r <= HOTSHOT_BLOCK_FETCH_LIMIT
    ensures LastRange(r) == r
  {
  }

  lemma SameLastRange(r: nat)
    requires r > HOTSHOT_BLOCK_FETCH_LIMIT
    ensures LastRange(r - HOTSHOT_BLOCK_FETCH_LIMIT) == LastRange(r)
  {
  }

  /** The newest finalized block is scanned unless it is a range of its own behind another one, or the limit
      wraps before the last range begins. */
  predicate ReachesNewest(pos: Height, finalized: Height, i: nat) {
    var r := Remaining(pos, finalized);
    r > 0
    && !(LastRange(r) == 1 && (i > 0 || r > 1))
    && !LimitWraps(finalized + 1 - LastRange(r))
  }

  lemma {:induction false} ReachedClosedForm(pos: Height, finalized: Height, i: nat)
    requires finalized + 1 < MAX_UINT64 && Remaining(pos, finalized) > 0
    requires pos == 0 && finalized == 0 ==> i == 0
    ensures Reached(pos, finalized, i) == finalized <==> ReachesNewest(pos, finalized, i)
    decreases Max(finalized + 1, ScanStart(pos)) - ScanStart(pos)
  {
    hide LastRange;
    var (start, finish) := ComputeRange(pos, finalized, HOTSHOT_BLOCK_FETCH_LIMIT);
    var r := finalized + 1 - start;
    if r <= HOTSHOT_BLOCK_FETCH_LIMIT {
      OnlyRange(r);
      if !NothingToFetch(pos, finalized, i) {
        assert finish == finalized + 1;
        assert Reached(finalized, finalized, i + 1) == finalized;
      }
    } else {
      SameLastRange(r);
      if !LimitWraps(start) {
        assert finish == start + HOTSHOT_BLOCK_FETCH_LIMIT && Remaining(finish - 1, finalized) > 0;
        ReachedClosedForm(finish - 1, finalized, i + 1);
      }
    }
  }

  lemma {:induction false} LoopCoverage(s: State, env: Env, net: Network, finalized: Height, i: nat, rounds: nat)
    requires finalized + 1 < MAX_UINT64 && forall k :: net.answers(k).Served?
    ensures
      var (t, end) := UpdateLoop(s, env, net, finalized, i, rounds);
      end == Some(RangeExhausted) ==> t.hotShotPos == Reached(s.hotShotPos, finalized, i)
    decreases rounds
  {
    hide UpdateOnce;
    if rounds > 0 {
      OnceEnds(s, env, net, finalized, i);
      var (t, end) := UpdateOnce(s, env, net, finalized, i);
      if end.None? {
        LoopCoverage(t, env, net, finalized, i + 1, rounds - 1);
      }
    }
  }

  /** Exactly when the newest finalized block stays unscanned, for an Update with every request served that has
      blocks to scan and finds nothing to hand out. */
  lemma LastBlockScannedIff(s: State, env: Env, net: Network, rounds: nat)
    requires forall k :: net.answers(k).Served?
    requires net.latest.Some? && 2 <= net.latest.value < MAX_UINT64 && Remaining(s.hotShotPos, net.latest.value - 2) > 0
    requires Update(s, env, net, rounds).1 == Some(RangeExhausted)
    ensures
      var finalized := net.latest.value - 2;
      var r := Remaining(s.hotShotPos, finalized);
      Update(s, env, net, rounds).0.hotShotPos == finalized
      <==> (r == 1 || LastRange(r) != 1) && !LimitWraps(finalized + 1 - LastRange(r))
  {
    hide UpdateLoop, Reached, LastRange;
    LoopCoverage(s, env, net, net.latest.value - 2, 0, rounds);
    ReachedClosedForm(s.hotShotPos, net.latest.value - 2, 0);
  }

  lemma {:induction false} EmptyBlocks(s: State, env: Env, start: nat, finish: Height)
    requires forall p: nat :: env.log(p) == []
    ensures ProcessBlocks(s, env, start, finish) == s
    decreases finish - start
  {
    if start < finish {
      EmptyBlocks(s, env, start + 1, finish);
    }
  }

  /** An Update that leaves the newest finalized block, 100, unscanned: a fresh streamer over 101 empty blocks. */
  lemma LastBlockLeft(env: Env, capacity: nat)
    requires forall p: nat :: env.log(p) == []
    ensures
      var (t, end) := Update(Create(0, 0, capacity), env, Serving(102), 2);
      end == Some(RangeExhausted) && t.hotShotPos == 99
  {
    var s, net := Create(0, 0, capacity), Serving(102);
    var t := s.(hotShotPos := 99, history := s.history.(seen := 100));
    EmptyBlocks(t, env, 0, 100);
    assert UpdateOnce(s, env, net, 100, 0) == (t, None);
    assert UpdateOnce(t, env, net, 100, 1) == (t, Some(RangeExhausted));
    assert UpdateLoop(t, env, net, 100, 1, 1) == (t, Some(RangeExhausted));
    assert UpdateLoop(s, env, net, 100, 0, 2) == (t, Some(RangeExhausted));
  }
}
