/** A run in which the lower streamer resets itself under a window that is kept, and a batch is handed out twice
    in a row. */
module SelfReset {
  import opened Batches
  import opened L1Check
  import opened StreamerSpec
  import opened BufferedSpec

  const X := Batch(1, 11, 0, BlockID(7, 0), 5)

  const FINALIZED := L1BlockRef(1, 10, 0, 0)

  /** X is in block 2; L1 accepts it. */
  function SomeLog(): Log {
    (p: nat) => if p == 2 then [Some(X)] else []
  }

  function SomeEnv(): Env {
    Env(Rpc((c: nat, n: nat) => Some(7), (c: nat, f: nat, n: nat) => Some(5), (c: nat) => {}), SomeLog())
  }

  /** The view after so many checks: the first one filled the cache. */
  function SomeView(calls: nat): L1View {
    L1View(FINALIZED, ZERO_ADDRESS, if calls == 0 then map[] else map[0 := L1Entry(7, [5])], calls)
  }

  function At(next: nat, pos: Height, fallback: Height, head: Option<Batch>, calls: nat, history: History): State {
    State(next, 0, pos, fallback, 0, MAX_UINT64, head, [], 8, SomeView(calls), history)
  }

  function Window(lower: State, batches: seq<Batch>): Buffered {
    Buffered(lower, batches, |batches|, 0, 0)
  }

  /** A Refresh at safe batch 0 with the light client at height. */
  function RefreshAt(height: Height): Event {
    BRefresh(FINALIZED, None, 0, 0, None, Some(height))
  }

  function Run(b: Buffered, es: seq<Event>): (Buffered, seq<Batch>)
    decreases |es|
  {
    if es == [] then (b, [])
    else
      var (b1, out, _) := Step(b, SomeEnv(), es[0]);
      var (b2, rest) := Run(b1, es[1..]);
      (b2, (if out.Some? then [out.value] else []) + rest)
  }

  lemma Accepted(s: State)
    requires s.view == SomeView(s.view.calls) && s.nextBatchPos == 1
    ensures CheckBatch(s, SomeEnv(), X) == (Accept, s.(view := SomeView(s.view.calls + 1)))
  {
    assert (map[] - {})[0 := L1Entry(7, [5])] == map[0 := L1Entry(7, [5])];
  }

  /** Scanning blocks [start, 4) finds X. */
  lemma ScanFindsX(s: State, start: nat)
    requires start <= 2 && s == At(1, 3, s.fallbackHotShotPos, None, s.view.calls, s.history)
    ensures ProcessBlocks(s, SomeEnv(), start, 4) == s.(head := Some(X), view := SomeView(s.view.calls + 1))
    decreases 2 - start
  {
    var env := SomeEnv();
    if start < 2 {
      assert ProcessTxs(s, env, start, env.log(start)) == s;
      ScanFindsX(s, start + 1);
    } else {
      Accepted(s);
      var t := s.(head := Some(X), view := SomeView(s.view.calls + 1));
      assert ProcessTx(s, env, 2, Some(X)) == t;
      assert [Some(X)][1..] == [];
      assert ProcessTxs(s, env, 2, env.log(2)) == t;
      assert ProcessTxs(t, env, 3, env.log(3)) == t;
      assert ProcessBlocks(t, env, 4, 4) == t;
      assert ProcessBlocks(t, env, 3, 4) == t;
    }
  }

  lemma UpdateFindsX(s: State)
    requires s == At(1, s.hotShotPos, s.fallbackHotShotPos, None, s.view.calls, s.history) && s.hotShotPos <= 1
    ensures Update(s, SomeEnv(), Serving(5), 1).0
         == At(1, 3, s.fallbackHotShotPos, Some(X), s.view.calls + 2, s.history.(seen := Max(s.history.seen, 4)))
  {
    var env := SomeEnv();
    var s1 := s.(hotShotPos := 3, history := s.history.(seen := Max(s.history.seen, 4)));
    ScanFindsX(s1, ScanStart(s.hotShotPos));
    var s2 := s1.(head := Some(X), view := SomeView(s.view.calls + 1));
    Accepted(s2);
    assert StreamerSpec.HasNext(s2, env) == (s2.(view := SomeView(s.view.calls + 2)), true);
    assert UpdateOnce(s, env, Serving(5), 3, 0) == (s2.(view := SomeView(s.view.calls + 2)), Some(BatchReady));
  }

  lemma UpdateStep(s: State, batches: seq<Batch>)
    requires s == At(1, s.hotShotPos, s.fallbackHotShotPos, None, s.view.calls, s.history) && s.hotShotPos <= 1
    ensures
      var h := s.history.(seen := Max(s.history.seen, 4));
      Step(Window(s, batches), SomeEnv(), BUpdate(Serving(5), 1))
      == (Window(At(1, 3, s.fallbackHotShotPos, Some(X), s.view.calls + 2, h), batches), None, None)
  {
    hide Update;
    UpdateFindsX(s);
  }

  lemma NextStep(s: State, batches: seq<Batch>)
    requires s == At(1, 3, s.fallbackHotShotPos, Some(X), s.view.calls, s.history) && s.history.overflowed == {}
    ensures Step(Window(s, batches), SomeEnv(), BNext)
         == (Window(At(2, 3, s.fallbackHotShotPos, None, s.view.calls + 1, s.history), batches + [X]), Some(X), None)
  {
    Accepted(s);
    assert StreamerSpec.Next(s, SomeEnv())
        == (At(2, 3, s.fallbackHotShotPos, None, s.view.calls + 1, s.history), Some(X));
  }

  lemma ThreeSteps(b: Buffered, b1: Buffered, b2: Buffered, c: Buffered, e: Event)
    requires Step(b, SomeEnv(), e) == (b1, None, None)
    requires Step(b1, SomeEnv(), BUpdate(Serving(5), 1)) == (b2, None, None)
    requires Step(b2, SomeEnv(), BNext) == (c, Some(X), None)
    ensures Run(b, [e, BUpdate(Serving(5), 1), BNext]).0 == c && Run(b, [e, BUpdate(Serving(5), 1), BNext]).1 == [X]
  {
    hide Step;
    var es := [e, BUpdate(Serving(5), 1), BNext];
    assert es[1..][1..] == [BNext] && [BNext][1..] == [];
    assert Run(b2, [BNext]).0 == c && Run(b2, [BNext]).1 == [X];
    assert Run(b1, es[1..]).0 == c && Run(b1, es[1..]).1 == [X];
  }

  const HISTORY1 := History(0, 0, 4, {}, {}, {})
  const HISTORY2 := History(1, 2, 4, {}, {}, {})

  /** Up to the first Next the window is aligned. */
  lemma FirstHalf()
    ensures
      var b := Window(At(2, 3, 5, None, 3, HISTORY1), [X]);
      var start := Buffered(Create(0, 0, 8), [], 0, 0, 0);
      && Run(start, [RefreshAt(5), BUpdate(Serving(5), 1), BNext]).0 == b
      && Run(start, [RefreshAt(5), BUpdate(Serving(5), 1), BNext]).1 == [X]
      && Aligned(b)
  {
    var start := Buffered(Create(0, 0, 8), [], 0, 0, 0);
    var s0 := At(1, 0, 5, None, 0, History(0, 0, 0, {}, {}, {}));
    assert Step(start, SomeEnv(), RefreshAt(5)) == (Window(s0, []), None, None);
    hide Step;
    UpdateStep(s0, []);
    NextStep(At(1, 3, 5, Some(X), 2, HISTORY1), []);
    assert [] + [X] == [X];
    ThreeSteps(start, Window(s0, []), Window(At(1, 3, 5, Some(X), 2, HISTORY1), []),
               Window(At(2, 3, 5, None, 3, HISTORY1), [X]), RefreshAt(5));
  }

  /** Then the light client reports a lower height, the lower streamer scans again, and the window is appended
      the batch it holds already. */
  lemma SecondHalf()
    ensures
      var b := Window(At(2, 3, 5, None, 3, HISTORY1), [X]);
      var c := Window(At(2, 3, 1, None, 6, HISTORY2), [X, X]);
      && LowerResetsItself(b, FINALIZED, None, 0, Some(1))
      && Run(b, [RefreshAt(1), BUpdate(Serving(5), 1), BNext]).0 == c
      && Run(b, [RefreshAt(1), BUpdate(Serving(5), 1), BNext]).1 == [X]
  {
    var b := Window(At(2, 3, 5, None, 3, HISTORY1), [X]);
    var s2 := At(1, 1, 1, None, 3, History(1, 2, 2, {}, {}, {}));
    assert Step(b, SomeEnv(), RefreshAt(1)) == (Window(s2, [X]), None, None);
    hide Step;
    UpdateStep(s2, [X]);
    NextStep(At(1, 3, 1, Some(X), 5, HISTORY2), [X]);
    assert [X] + [X] == [X, X];
    ThreeSteps(b, Window(s2, [X]), Window(At(1, 3, 1, Some(X), 5, HISTORY2), [X]),
               Window(At(2, 3, 1, None, 6, HISTORY2), [X, X]), RefreshAt(1));
  }

  /** The whole run: the window is aligned until the lower streamer resets itself under it; then number 1 is
      handed out a second time, where number 2 was due. */
  lemma SelfResetHandsOutTwice()
    ensures
      var start := Buffered(Create(0, 0, 8), [], 0, 0, 0);
      var (b, out1) := Run(start, [RefreshAt(5), BUpdate(Serving(5), 1), BNext]);
      var (c, out2) := Run(b, [RefreshAt(1), BUpdate(Serving(5), 1), BNext]);
      && out1 == [X] && out2 == [X]
      && Aligned(b) && b.batches == [X] && CursorOf(b).pos == 2
      && LowerResetsItself(b, FINALIZED, None, 0, Some(1))
      && c.batches == [X, X] && !Aligned(c)
  {
    hide Run, LowerResetsItself;
    FirstHalf();
    SecondHalf();
  }

  /** From the first half on, a Reset and a SetProperHead leave number 1 wanted and number 2 to come. */
  lemma CutLosesAlignment(parent: Hash)
    ensures
      var start := Buffered(Create(0, 0, 8), [], 0, 0, 0);
      var b := Run(start, [RefreshAt(5), BUpdate(Serving(5), 1), BNext]).0;
      var c := BufferedSpec.SetProperHead(BufferedSpec.Reset(b), parent);
      && Aligned(BufferedSpec.Reset(b))
      && !Aligned(c) && CursorOf(c).pos == 1 && c.batches == [] && c.lower.nextBatchPos == 2
  {
    hide Run;
    FirstHalf();
  }
}
