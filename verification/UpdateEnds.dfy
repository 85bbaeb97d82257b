/** When the fetch loop of Update ends. A query service that keeps answering with an empty list can hold it for
    ever, because an empty answer does not move the cursor. */
module UpdateEnds {
  import opened Batches
  import opened StreamerSpec
  import opened UpdateCoverage

  ghost predicate LoopEnds(s: State, env: Env, net: Network, finalized: Height, i: nat)
    requires finalized + 1 < MAX_UINT64
  {
    exists rounds: nat :: UpdateLoop(s, env, net, finalized, i, rounds).1.Some?
  }

  /** HasNext, called up to n times with nothing in between, finds a batch. */
  predicate ReadyWithin(s: State, env: Env, n: nat)
    decreases n
  {
    n > 0 && var (t, ready) := HasNext(s, env); ready || ReadyWithin(t, env, n - 1)
  }

  ghost predicate ReadySometime(s: State, env: Env) {
    exists n: nat :: ReadyWithin(s, env, n)
  }

  ghost predicate EmptyFrom(net: Network, i: nat) {
    forall k | k >= i :: net.answers(k).Empty?
  }

  /** At least two blocks are left, every answer from now on is empty, and what is held never becomes ready. */
  ghost predicate Stuck(s: State, env: Env, net: Network, finalized: Height, i: nat)
    requires finalized + 1 < MAX_UINT64
  {
    && !NothingToFetch(s.hotShotPos, finalized, 1)
    && EmptyFrom(net, i)
    && !ReadySometime(s, env)
  }

  // ---------- the loop in two parts ----------

  lemma {:induction false} LoopContinues(s: State, env: Env, net: Network, finalized: Height, i: nat, m: nat, k: nat)
    requires finalized + 1 < MAX_UINT64
    ensures
      var (t, end) := UpdateLoop(s, env, net, finalized, i, m);
      UpdateLoop(s, env, net, finalized, i, m + k)
      == if end.Some? then (t, end) else UpdateLoop(t, env, net, finalized, i + m, k)
    decreases m
  {
    hide UpdateOnce;
    if m > 0 {
      var (t, end) := UpdateOnce(s, env, net, finalized, i);
      if end.None? {
        LoopContinues(t, env, net, finalized, i + 1, m - 1, k);
      }
    }
  }

  // ---------- answers that are empty ----------

  /** With empty answers an iteration is a call of HasNext. */
  lemma EmptyOnce(s: State, env: Env, net: Network, finalized: Height, i: nat)
    requires finalized + 1 < MAX_UINT64 && !NothingToFetch(s.hotShotPos, finalized, i) && net.answers(i).Empty?
    ensures UpdateOnce(s, env, net, finalized, i)
         == (HasNext(s, env).0, if HasNext(s, env).1 then Some(BatchReady) else None)
  {
  }

  lemma {:induction false} LoopOfEmpty(s: State, env: Env, net: Network, finalized: Height, i: nat, rounds: nat)
    requires finalized + 1 < MAX_UINT64 && EmptyFrom(net, i) && !NothingToFetch(s.hotShotPos, finalized, 1)
    ensures UpdateLoop(s, env, net, finalized, i, rounds).1.Some? <==> ReadyWithin(s, env, rounds)
    decreases rounds
  {
    hide UpdateOnce, HasNext;
    if rounds > 0 {
      EmptyOnce(s, env, net, finalized, i);
      LoopOfEmpty(HasNext(s, env).0, env, net, finalized, i + 1, rounds - 1);
    }
  }

  lemma {:induction false} NothingHeldNeverReady(s: State, env: Env, n: nat)
    requires s.head.None? && s.buffer == []
    ensures !ReadyWithin(s, env, n)
    decreases n
  {
    if n > 0 {
      NothingHeldNeverReady(s, env, n - 1);
    }
  }

  // ---------- the exact condition ----------

  lemma StuckNeverEnds(s: State, env: Env, net: Network, finalized: Height, i: nat, m: nat)
    requires finalized + 1 < MAX_UINT64
    requires
      var (t, end) := UpdateLoop(s, env, net, finalized, i, m);
      end.None? && Stuck(t, env, net, finalized, i + m)
    ensures !LoopEnds(s, env, net, finalized, i)
  {
    hide UpdateLoop, UpdateOnce, NothingToFetch, ReadyWithin;
    var t := UpdateLoop(s, env, net, finalized, i, m).0;
    if rounds: nat :| UpdateLoop(s, env, net, finalized, i, rounds).1.Some? {
      if rounds <= m {
        LoopContinues(s, env, net, finalized, i, rounds, m - rounds);
      } else {
        LoopContinues(s, env, net, finalized, i, m, rounds - m);
        LoopOfEmpty(t, env, net, finalized, i + m, rounds - m);
      }
    }
  }

  lemma NotEndedYet(s: State, env: Env, net: Network, finalized: Height, i: nat)
    requires finalized + 1 < MAX_UINT64 && !LoopEnds(s, env, net, finalized, i)
    ensures
      var (t, end) := UpdateOnce(s, env, net, finalized, i);
      end.None? && !LoopEnds(t, env, net, finalized, i + 1)
  {
    hide UpdateOnce;
    var (t, end) := UpdateOnce(s, env, net, finalized, i);
    assert UpdateLoop(s, env, net, finalized, i, 1).1.None?;
    var next := i + 1;
    assert UpdateLoop(t, env, net, finalized, next, 0).1.None?;
    if rounds: nat :| UpdateLoop(t, env, net, finalized, next, rounds).1.Some? {
      LoopContinues(s, env, net, finalized, i, 1, rounds);
    }
  }

  /** A loop that does not end although only empty answers are to come is stuck already. */
  lemma EmptyAndEndlessIsStuck(s: State, env: Env, net: Network, finalized: Height, i: nat)
    requires finalized + 1 < MAX_UINT64 && EmptyFrom(net, i) && !LoopEnds(s, env, net, finalized, i)
    ensures Stuck(s, env, net, finalized, i)
  {
    NotEndedYet(s, env, net, finalized, i);
    OnceEnds(s, env, net, finalized, i);
    NotEndedYet(UpdateOnce(s, env, net, finalized, i).0, env, net, finalized, i + 1);
    OnceEnds(UpdateOnce(s, env, net, finalized, i).0, env, net, finalized, i + 1);
    if n: nat :| ReadyWithin(s, env, n) {
      LoopOfEmpty(s, env, net, finalized, i, n);
    }
  }

  /** j is an answer still to come that is not empty. */
  lemma {:induction false} GetsStuck(s: State, env: Env, net: Network, finalized: Height, i: nat, j: nat)
    returns (m: nat)
    requires finalized + 1 < MAX_UINT64 && !LoopEnds(s, env, net, finalized, i)
    requires j >= i && !net.answers(j).Empty?
    ensures UpdateLoop(s, env, net, finalized, i, m).1.None?
    ensures Stuck(UpdateLoop(s, env, net, finalized, i, m).0, env, net, finalized, i + m)
    decreases Max(finalized + 1, ScanStart(s.hotShotPos)) - ScanStart(s.hotShotPos), j - i
  {
    hide UpdateOnce, Stuck;
    NotEndedYet(s, env, net, finalized, i);
    OnceEnds(s, env, net, finalized, i);
    var t := UpdateOnce(s, env, net, finalized, i).0;
    var k: nat;
    if net.answers(i).Empty? {
      k := GetsStuck(t, env, net, finalized, i + 1, j);
    } else if j' :| j' >= i + 1 && !net.answers(j').Empty? {
      NotEndedYet(t, env, net, finalized, i + 1);
      OnceEnds(t, env, net, finalized, i + 1);
      k := GetsStuck(t, env, net, finalized, i + 1, j');
    } else {
      EmptyAndEndlessIsStuck(t, env, net, finalized, i + 1);
      k := 0;
    }
    m := k + 1;
    assert UpdateLoop(s, env, net, finalized, i, m) == UpdateLoop(t, env, net, finalized, i + 1, k);
  }

  /** Exactly when the loop ends: unless, after some iterations, at least two blocks are left, every further
      answer is empty, and nothing held ever becomes ready. */
  lemma LoopEndsIff(s: State, env: Env, net: Network, finalized: Height, i: nat)
    requires finalized + 1 < MAX_UINT64
    ensures !LoopEnds(s, env, net, finalized, i)
       <==> exists m: nat ::
              var (t, end) := UpdateLoop(s, env, net, finalized, i, m);
              end.None? && Stuck(t, env, net, finalized, i + m)
  {
    if m: nat :| UpdateLoop(s, env, net, finalized, i, m).1.None?
                 && Stuck(UpdateLoop(s, env, net, finalized, i, m).0, env, net, finalized, i + m)
    {
      StuckNeverEnds(s, env, net, finalized, i, m);
    }
    if !LoopEnds(s, env, net, finalized, i) {
      var m: nat;
      if j :| j >= i && !net.answers(j).Empty? {
        m := GetsStuck(s, env, net, finalized, i, j);
      } else {
        EmptyAndEndlessIsStuck(s, env, net, finalized, i);
        m := 0;
      }
      assert UpdateLoop(s, env, net, finalized, i, m).1.None?
             && Stuck(UpdateLoop(s, env, net, finalized, i, m).0, env, net, finalized, i + m);
    }
  }

  // ---------- Update ----------

  ghost predicate Ends(s: State, env: Env, net: Network) {
    exists rounds: nat :: Update(s, env, net, rounds).1.Some?
  }

  lemma EndsWithLoop(s: State, env: Env, net: Network)
    requires net.latest.Some? && 2 <= net.latest.value < MAX_UINT64
    ensures Ends(s, env, net) <==> LoopEnds(s, env, net, net.latest.value - 2, 0)
  {
    hide UpdateLoop;
    var finalized := net.latest.value - 2;
    if rounds: nat :| Update(s, env, net, rounds).1.Some? {
      assert UpdateLoop(s, env, net, finalized, 0, rounds).1.Some?;
    }
    if rounds: nat :| UpdateLoop(s, env, net, finalized, 0, rounds).1.Some? {
      assert Update(s, env, net, rounds).1.Some?;
    }
  }

  /** Whatever is held and whatever L1 answers, an Update ends if non-empty answers keep coming. */
  lemma AnsweredUpdateEnds(s: State, env: Env, net: Network)
    requires forall i: nat :: !EmptyFrom(net, i)
    ensures Ends(s, env, net)
  {
    if net.latest.None? || net.latest.value < 2 || net.latest.value == MAX_UINT64 {
      assert Update(s, env, net, 0).1.Some?;
    } else {
      EndsWithLoop(s, env, net);
      LoopEndsIff(s, env, net, net.latest.value - 2, 0);
    }
  }

  lemma StuckEndless(s: State, env: Env, net: Network, finalized: Height)
    requires finalized + 1 < MAX_UINT64 && Stuck(s, env, net, finalized, 0)
    ensures !LoopEnds(s, env, net, finalized, 0)
  {
    assert UpdateLoop(s, env, net, finalized, 0, 0) == (s, None);
    StuckNeverEnds(s, env, net, finalized, 0, 0);
  }

  /** Against a service that only answers with empty lists, Update ends exactly when at most one block is left
      or something held becomes ready; without anything held the first alone decides. */
  lemma EmptyServiceEndsIff(s: State, env: Env, net: Network)
    requires net.latest.Some? && 2 <= net.latest.value < MAX_UINT64 && EmptyFrom(net, 0)
    ensures Ends(s, env, net)
       <==> NothingToFetch(s.hotShotPos, net.latest.value - 2, 1) || ReadySometime(s, env)
    ensures s.head.None? && s.buffer == [] ==> !ReadySometime(s, env)
  {
    if s.head.None? && s.buffer == [] {
      forall n: nat
        ensures !ReadyWithin(s, env, n)
      {
        NothingHeldNeverReady(s, env, n);
      }
    }
    var finalized := net.latest.value - 2;
    EndsWithLoop(s, env, net);
    if !LoopEnds(s, env, net, finalized, 0) {
      EmptyAndEndlessIsStuck(s, env, net, finalized, 0);
    } else if Stuck(s, env, net, finalized, 0) {
      StuckEndless(s, env, net, finalized);
    }
  }

  lemma {:induction false} NothingMoves(s: State, env: Env, net: Network, finalized: Height, i: nat, rounds: nat)
    requires finalized + 1 < MAX_UINT64 && EmptyFrom(net, i) && !NothingToFetch(s.hotShotPos, finalized, 1)
    requires s.head.None? && s.buffer == []
    ensures UpdateLoop(s, env, net, finalized, i, rounds) == (s, None)
    decreases rounds
  {
    if rounds > 0 {
      EmptyOnce(s, env, net, finalized, i);
      NothingMoves(s, env, net, finalized, i + 1, rounds - 1);
    }
  }

  /** An Update that never ends, and never moves: a fresh streamer with two or more finalized blocks before it
      and a service that answers every request with an empty list. */
  lemma EmptyServiceHoldsUpdate(capacity: nat, env: Env, latest: Uint64, rounds: nat)
    requires 3 <= latest < MAX_UINT64
    ensures
      var s, net := Create(0, 0, capacity), Network(Some(latest), _ => Empty);
      Update(s, env, net, rounds) == (s, None)
  {
    NothingMoves(Create(0, 0, capacity), env, Network(Some(latest), _ => Empty), latest - 2, 0, rounds);
  }

  // ---------- errors ----------

  /** Iteration i is reached, has something to fetch, and its request fails. */
  ghost predicate FailsAt(s: State, env: Env, net: Network, finalized: Height, from: nat, i: nat)
    requires finalized + 1 < MAX_UINT64
  {
    var (t, end) := UpdateLoop(s, env, net, finalized, from, i);
    end.None? && !NothingToFetch(t.hotShotPos, finalized, from + i) && net.answers(from + i).Failed?
  }

  ghost predicate SomeRequestFails(s: State, env: Env, net: Network, finalized: Height, from: nat, rounds: nat)
    requires finalized + 1 < MAX_UINT64
  {
    exists i: nat :: i < rounds && FailsAt(s, env, net, finalized, from, i)
  }

  lemma {:induction false} LoopFailsIff(s: State, env: Env, net: Network, finalized: Height, from: nat, rounds: nat)
    requires finalized + 1 < MAX_UINT64
    ensures UpdateLoop(s, env, net, finalized, from, rounds).1 == Some(FetchFailed)
       <==> SomeRequestFails(s, env, net, finalized, from, rounds)
    decreases rounds
  {
    hide UpdateOnce, NothingToFetch;
    if rounds > 0 {
      var before := UpdateLoop(s, env, net, finalized, from, rounds - 1);
      LoopFailsIff(s, env, net, finalized, from, rounds - 1);
      LoopContinues(s, env, net, finalized, from, rounds - 1, 1);
      if before.1.None? {
        FailsHere(before.0, env, net, finalized, from + rounds - 1);
        assert UpdateLoop(before.0, env, net, finalized, from + rounds - 1, 1).1
            == UpdateOnce(before.0, env, net, finalized, from + rounds - 1).1;
        assert UpdateLoop(s, env, net, finalized, from, rounds).1 == Some(FetchFailed)
          <==> FailsAt(s, env, net, finalized, from, rounds - 1);
      } else {
        assert !FailsAt(s, env, net, finalized, from, rounds - 1);
      }
    }
  }

  lemma FailsHere(s: State, env: Env, net: Network, finalized: Height, i: nat)
    requires finalized + 1 < MAX_UINT64
    ensures UpdateOnce(s, env, net, finalized, i).1 == Some(FetchFailed)
       <==> !NothingToFetch(s.hotShotPos, finalized, i) && net.answers(i).Failed?
  {
  }

  /** Update reports an error exactly when the latest height cannot be had or is the top uint64 value, or an
      iteration that has something to fetch is refused. */
  lemma UpdateFailsIff(s: State, env: Env, net: Network, rounds: nat)
    ensures Update(s, env, net, rounds).1 == Some(FetchFailed)
       <==> || net.latest.None? || net.latest.value == MAX_UINT64
            || (2 <= net.latest.value && SomeRequestFails(s, env, net, net.latest.value - 2, 0, rounds))
  {
    hide UpdateLoop, SomeRequestFails;
    if net.latest.Some? && 2 <= net.latest.value < MAX_UINT64 {
      LoopFailsIff(s, env, net, net.latest.value - 2, 0, rounds);
    }
  }
}
