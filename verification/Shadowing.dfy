/** A run in which a copy of a batch with another signer keeps the accepted one from being handed out. The hash
    of a batch does not cover its signer. */
module Shadowing {
  import opened Batches
  import opened L1Check
  import opened StreamerSpec
  import opened StreamerRuns
  import opened Delivery

  const GENUINE := Batch(1, 11, 0, BlockID(7, 20), 5)
  const COPY := Batch(1, 11, 0, BlockID(7, 20), 6)

  /** The origin of both batches is not final at first, and is final later. */
  const BEFORE := L1BlockRef(1, 10, 0, 0)
  const AFTER := L1BlockRef(2, 30, 0, 0)

  /** Both are in block 1, the copy first; L1 registers 5 as the batcher. */
  function SomeLog(): Log {
    (p: nat) => if p == 1 then [Some(COPY), Some(GENUINE)] else []
  }

  function SomeEnv(): Env {
    Env(Rpc((c: nat, n: nat) => Some(7), (c: nat, f: nat, n: nat) => Some(5), (c: nat) => {}), SomeLog())
  }

  function SomeTruth(): Truth {
    Truth((n: nat) => 7, (n: nat) => 5)
  }

  function At(finalized: L1BlockRef, pos: Height, head: Option<Batch>, calls: nat): State {
    State(1, 0, pos, 0, 0, MAX_UINT64, head, [], 8, L1View(finalized, ZERO_ADDRESS, map[], calls),
          History(0, 0, if pos == 0 then 0 else pos + 1, {}, {}, {}))
  }

  lemma PutOff(s: State, b: Batch)
    requires s == At(BEFORE, s.hotShotPos, s.head, s.view.calls) && b in {GENUINE, COPY}
    ensures CheckBatch(s, SomeEnv(), b) == (Undecided, At(BEFORE, s.hotShotPos, s.head, s.view.calls + 1))
  {
  }

  /** The copy takes the head slot; the genuine batch has its hash and is skipped as a duplicate. */
  lemma ScanBoth()
    ensures Update(At(BEFORE, 0, None, 0), SomeEnv(), Serving(3), 2).0 == At(BEFORE, 1, Some(COPY), 3)
  {
    var env, net := SomeEnv(), Serving(3);
    var s := At(BEFORE, 1, None, 0);
    assert ProcessTxs(s, env, 0, []) == s;
    PutOff(s, COPY);
    var s1 := At(BEFORE, 1, Some(COPY), 1);
    assert ProcessTx(s, env, 1, Some(COPY)) == s1;
    PutOff(s1, GENUINE);
    var s2 := At(BEFORE, 1, Some(COPY), 2);
    assert ProcessTx(s1, env, 1, Some(GENUINE)) == s2;
    assert [Some(COPY), Some(GENUINE)][1..] == [Some(GENUINE)] && [Some(GENUINE)][1..] == [];
    assert ProcessTxs(s1, env, 1, [Some(GENUINE)]) == s2;
    assert ProcessTxs(s, env, 1, env.log(1)) == s2;
    assert ProcessBlocks(s2, env, 2, 2) == s2;
    assert ProcessBlocks(s, env, 1, 2) == s2;
    assert ProcessBlocks(s, env, 0, 2) == s2;
    PutOff(s2, COPY);
    var s3 := At(BEFORE, 1, Some(COPY), 3);
    assert UpdateOnce(At(BEFORE, 0, None, 0), env, net, 1, 0) == (s3, None);
    assert UpdateOnce(s3, env, net, 1, 1) == (s3, Some(RangeExhausted));
    assert UpdateLoop(s3, env, net, 1, 1, 1) == (s3, Some(RangeExhausted));
  }

  /** Once the origin is final the copy is dropped, and nothing is left to hand out. */
  lemma CopyDropped()
    ensures
      var (t, out) := Next(At(AFTER, 1, Some(COPY), 3), SomeEnv());
      && out.None? && t.head.None? && t.buffer == [] && t.nextBatchPos == 1
      && t.hotShotPos == 1 && t.skipPos == MAX_UINT64
  {
  }

  lemma RunFrom(s: State, e: Event, es: seq<Event>, t: State, end: State)
    requires Step(s, SomeEnv(), e) == (t, None) && Run(t, SomeEnv(), es).0 == end && Run(t, SomeEnv(), es).1 == []
    ensures Run(s, SomeEnv(), [e] + es).0 == end && Run(s, SomeEnv(), [e] + es).1 == []
  {
  }

  /** The run hands out nothing, although block 1 is behind the cursor with no rewind pending and holds a batch
      for the wanted number that is the first accepted one. */
  lemma CopyShadowsGenuine()
    ensures
      var es := [EvRefresh(BEFORE, None, 0, None)] + ([EvUpdate(Serving(3), 2)]
                + ([EvRefresh(AFTER, None, 0, None)] + ([EvNext] + [])));
      var (t, out) := Run(Create(0, 0, 8), SomeEnv(), es);
      && out == [] && t.head.None? && t.buffer == [] && t.nextBatchPos == GENUINE.number
      && t.hotShotPos == 1 && t.skipPos == MAX_UINT64
    ensures IsFirstAccepted(SomeLog(), SomeTruth(), 0, GENUINE) && Some(GENUINE) in SomeLog()(1)
  {
    hide Update, Next, FirstAcceptedAt;
    ScanBoth();
    CopyDropped();
    var end := Next(At(AFTER, 1, Some(COPY), 3), SomeEnv()).0;
    var e3 := [EvNext] + [];
    RunFrom(At(AFTER, 1, Some(COPY), 3), EvNext, [], end, end);
    var e2 := [EvRefresh(AFTER, None, 0, None)] + e3;
    RunFrom(At(BEFORE, 1, Some(COPY), 3), EvRefresh(AFTER, None, 0, None), e3, At(AFTER, 1, Some(COPY), 3), end);
    var e1 := [EvUpdate(Serving(3), 2)] + e2;
    RunFrom(At(BEFORE, 0, None, 0), EvUpdate(Serving(3), 2), e2, At(BEFORE, 1, Some(COPY), 3), end);
    RunFrom(Create(0, 0, 8), EvRefresh(BEFORE, None, 0, None), e1, At(BEFORE, 0, None, 0), end);
    GenuineIsFirst();
  }

  lemma GenuineIsFirst()
    ensures IsFirstAccepted(SomeLog(), SomeTruth(), 0, GENUINE) && Some(GENUINE) in SomeLog()(1)
  {
    assert FirstAcceptedAt(SomeLog(), SomeTruth(), 0, GENUINE, 1, 1);
  }
}
