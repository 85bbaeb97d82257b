/** A run that calls Update straight after Next and is handed the wrong alternative. */
module Overtaking {
  import opened Batches
  import opened BufferSpec
  import opened L1Check
  import opened StreamerSpec
  import opened StreamerRuns
  import opened Delivery

  const X := Batch(1, 11, 0, BlockID(7, 0), 5)
  const Y := Batch(2, 22, 11, BlockID(7, 0), 5)
  const Z := Batch(2, 23, 11, BlockID(7, 0), 5)

  const FINALIZED := L1BlockRef(1, 10, 0, 0)

  /** X and Y are in block 1, Z, an alternative to Y, in block 2; L1 accepts all three. */
  function SomeLog(): Log {
    (p: nat) => if p == 1 then [Some(X), Some(Y)] else if p == 2 then [Some(Z)] else []
  }

  function SomeEnv(): Env {
    Env(Rpc((c: nat, n: nat) => Some(7), (c: nat, f: nat, n: nat) => Some(5), (c: nat) => {}), SomeLog())
  }

  function SomeTruth(): Truth {
    Truth((n: nat) => 7, (n: nat) => 5)
  }

  function SomeView(calls: nat): L1View {
    L1View(FINALIZED, ZERO_ADDRESS, if calls == 0 then map[] else map[0 := L1Entry(7, [5])], calls)
  }

  function At(next: nat, pos: Height, head: Option<Batch>, buffer: seq<Batch>, calls: nat): State {
    State(next, 0, pos, 0, 0, MAX_UINT64, head, buffer, 8, SomeView(calls),
          History(0, 0, if pos == 0 then 0 else pos + 1, {}, {}, {}))
  }

  lemma Accepted(s: State, b: Batch)
    requires s.view == SomeView(s.view.calls) && b.origin == BlockID(7, 0) && b.signer == 5
    requires b.number >= s.nextBatchPos
    ensures CheckBatch(s, SomeEnv(), b) == (Accept, s.(view := SomeView(s.view.calls + 1)))
  {
    assert (map[] - {})[0 := L1Entry(7, [5])] == map[0 := L1Entry(7, [5])];
  }

  lemma FirstUpdate()
    ensures Update(At(1, 0, None, [], 0), SomeEnv(), Serving(3), 1).0 == At(1, 1, Some(X), [Y], 3)
  {
    var env := SomeEnv();
    var s := At(1, 0, None, [], 0).(hotShotPos := 1, history := History(0, 0, 2, {}, {}, {}));
    assert ProcessTxs(s, env, 0, []) == s;
    Accepted(s, X);
    var s1 := At(1, 1, Some(X), [], 1);
    assert ProcessTx(s, env, 1, Some(X)) == s1;
    Accepted(s1, Y);
    assert InsertAt([], 0, Y) == [Y];
    assert Insert([], 8, Y) == ([Y], Inserted);
    var s2 := At(1, 1, Some(X), [Y], 2);
    assert ProcessTx(s1, env, 1, Some(Y)) == s2;
    assert [Some(X), Some(Y)][1..] == [Some(Y)] && [Some(Y)][1..] == [];
    assert ProcessTxs(s1, env, 1, [Some(Y)]) == s2;
    assert ProcessTxs(s, env, 1, env.log(1)) == s2;
    assert ProcessBlocks(s2, env, 2, 2) == s2;
    assert ProcessBlocks(s, env, 1, 2) == s2;
    assert ProcessBlocks(s, env, 0, 2) == s2;
    Accepted(s2, X);
    assert HasNext(s2, env) == (At(1, 1, Some(X), [Y], 3), true);
    assert UpdateOnce(At(1, 0, None, [], 0), env, Serving(3), 1, 0)
        == (At(1, 1, Some(X), [Y], 3), Some(BatchReady));
  }

  lemma SecondUpdate()
    ensures Update(At(2, 1, None, [Y], 4), SomeEnv(), Serving(4), 1).0 == At(2, 2, Some(Z), [Y], 6)
  {
    var env := SomeEnv();
    var s := At(2, 2, None, [Y], 4);
    Accepted(s, Z);
    var s1 := At(2, 2, Some(Z), [Y], 5);
    assert ProcessTx(s, env, 2, Some(Z)) == s1;
    assert [Some(Z)][1..] == [];
    assert ProcessTxs(s, env, 2, env.log(2)) == s1;
    assert ProcessBlocks(s1, env, 3, 3) == s1;
    assert ProcessBlocks(s, env, 2, 3) == s1;
    Accepted(s1, Z);
    assert HasNext(s1, env) == (At(2, 2, Some(Z), [Y], 6), true);
    assert UpdateOnce(At(2, 1, None, [Y], 4), env, Serving(4), 2, 0)
        == (At(2, 2, Some(Z), [Y], 6), Some(BatchReady));
  }

  lemma FirstNext()
    ensures Next(At(1, 1, Some(X), [Y], 3), SomeEnv()) == (At(2, 1, None, [Y], 4), Some(X))
  {
    Accepted(At(1, 1, Some(X), [Y], 3), X);
  }

  lemma SecondNext()
    ensures Next(At(2, 2, Some(Z), [Y], 6), SomeEnv()) == (At(3, 2, None, [Y], 7), Some(Z))
  {
    Accepted(At(2, 2, Some(Z), [Y], 6), Z);
  }

  lemma RunFrom(s: State, e: Event, es: seq<Event>, t: State, out: Option<Batch>, rest: seq<Batch>)
    requires Step(s, SomeEnv(), e) == (t, out) && Run(t, SomeEnv(), es).1 == rest
    ensures Run(s, SomeEnv(), [e] + es).1 == (if out.Some? then [out.value] else []) + rest
  {
  }

  /** The run hands out Z for number 2, although Y comes first in the log and is accepted. */
  lemma UnpolledUpdateOvertakes()
    ensures
      var es := [EvRefresh(FINALIZED, None, 0, None)] + ([EvUpdate(Serving(3), 1)]
                + ([EvNext] + ([EvUpdate(Serving(4), 1)] + ([EvNext] + []))));
      Run(Create(0, 0, 8), SomeEnv(), es).1 == [X, Z]
    ensures IsFirstAccepted(SomeLog(), SomeTruth(), 0, Y) && !IsFirstAccepted(SomeLog(), SomeTruth(), 0, Z)
  {
    hide Update, Next;
    FirstUpdate();
    FirstNext();
    SecondUpdate();
    SecondNext();
    var e4 := [EvNext] + [];
    RunFrom(At(2, 2, Some(Z), [Y], 6), EvNext, [], At(3, 2, None, [Y], 7), Some(Z), []);
    var e3 := [EvUpdate(Serving(4), 1)] + e4;
    RunFrom(At(2, 1, None, [Y], 4), EvUpdate(Serving(4), 1), e4, At(2, 2, Some(Z), [Y], 6), None, [Z]);
    var e2 := [EvNext] + e3;
    RunFrom(At(1, 1, Some(X), [Y], 3), EvNext, e3, At(2, 1, None, [Y], 4), Some(X), [Z]);
    var e1 := [EvUpdate(Serving(3), 1)] + e2;
    RunFrom(At(1, 0, None, [], 0), EvUpdate(Serving(3), 1), e2, At(1, 1, Some(X), [Y], 3), None, [X, Z]);
    RunFrom(Create(0, 0, 8), EvRefresh(FINALIZED, None, 0, None), e1, At(1, 0, None, [], 0), None, [X, Z]);
    YIsFirst();
  }

  lemma YIsFirst()
    ensures IsFirstAccepted(SomeLog(), SomeTruth(), 0, Y) && !IsFirstAccepted(SomeLog(), SomeTruth(), 0, Z)
  {
    assert FirstAcceptedAt(SomeLog(), SomeTruth(), 0, Y, 1, 1);
    if IsFirstAccepted(SomeLog(), SomeTruth(), 0, Z) {
      FirstAcceptedIsUnique(SomeLog(), SomeTruth(), 0, Y, Z);
    }
  }
}
