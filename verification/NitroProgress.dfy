/** How far a Nitro scan gets: every fetch that is served moves on, and enough of them reach the latest block. */
module NitroProgress {
  import opened Batches
  import opened NitroSpec
  import opened NitroRestart

  /** What comes of one fetch: the service's answer, and the steps between its start and its end. */
  datatype Fetched = Fetched(answer: RangeAnswer, between: seq<Event>)

  function Begun<P, C>(y: System<P, C>, env: Env<P, C>, latest: nat, f: Fetched): System<P, C> {
    Run(Step(y, env, EvBegin(Some(latest), f.answer)), env, f.between)
  }

  function After<P, C>(y: System<P, C>, env: Env<P, C>, latest: nat, f: Fetched): System<P, C> {
    Step(Begun(y, env, latest, f), env, EvFinish)
  }

  /** The fetch is served and no Reset comes inside it; the consumer may do as it likes. */
  ghost predicate Completes<P, C>(y: System<P, C>, env: Env<P, C>, latest: nat, f: Fetched) {
    && y.fetch.Idle?
    && (f.answer.RangeEmpty? || (f.answer.RangeServed? && f.answer.l1Height.Some?))
    && Consuming(f.between)
    && Begun(y, env, latest, f).fetch.Fetching? && Begun(y, env, latest, f).fetch.todo == []
  }

  /** A served fetch moves the next block a hundred blocks on, or to the latest one if that is nearer. */
  lemma ServedFetchMoves<P, C>(y: System<P, C>, env: Env<P, C>, latest: nat, f: Fetched)
    requires HeightInv(y.s) && Completes(y, env, latest, f)
    ensures
      var z := After(y, env, latest, f);
      && z.fetch.Idle? && HeightInv(z.s)
      && (y.s.nextHotshotBlockNum <= latest ==> z.s.nextHotshotBlockNum == Min(latest, y.s.nextHotshotBlockNum + 100))
      && (y.s.nextHotshotBlockNum > latest ==> z.s.nextHotshotBlockNum == y.s.nextHotshotBlockNum)
  {
    var y1 := Step(y, env, EvBegin(Some(latest), f.answer));
    StepKeepsHeights(y, env, EvBegin(Some(latest), f.answer));
    ConsumingKeepsFetch(y1, env, f.between);
    RunKeepsHeights(y1, env, f.between);
    StepKeepsHeights(Begun(y, env, latest, f), env, EvFinish);
  }

  lemma {:induction false} ConsumingHandsOver<P, C>(y: System<P, C>, env: Env<P, C>, es: seq<Event>)
    requires y.fetch.Fetching? && Consuming(es)
    ensures
      var z := Run(y, env, es);
      && z.fetch.Fetching? && z.fetch == y.fetch.(todo := z.fetch.todo)
      && z.taken + Messages(env, z.fetch.todo, y.fetch.l1Height)
         == y.taken + Messages(env, y.fetch.todo, y.fetch.l1Height)
    decreases |es|
  {
    if es != [] {
      if es[0].EvPayload? && y.fetch.todo != [] {
        var l := y.fetch.l1Height;
        ConcatAssociates(y.taken, env.read(y.fetch.todo[0], l), Messages(env, y.fetch.todo[1..], l));
      }
      ConsumingHandsOver(Step(y, env, es[0]), env, es[1..]);
    }
  }

  /** What a served fetch takes: the messages of every payload from the old next block to the new one, in order,
      judged at the L1 height the service gave for the range. */
  lemma ServedFetchTakes<P, C>(y: System<P, C>, env: Env<P, C>, latest: nat, f: Fetched)
    requires HeightInv(y.s) && Completes(y, env, latest, f) && f.answer.RangeServed?
    ensures
      var z := After(y, env, latest, f);
      z.taken == y.taken
        + Messages(env, Payloads(env.log, y.s.nextHotshotBlockNum, z.s.nextHotshotBlockNum), f.answer.l1Height.value)
  {
    hide HeightInv;
    ServedFetchMoves(y, env, latest, f);
    var y1 := Step(y, env, EvBegin(Some(latest), f.answer));
    ConsumingHandsOver(y1, env, f.between);
    var z := Begun(y, env, latest, f);
    assert z.taken + [] == z.taken && y.taken + [] == y.taken;
  }

  ghost predicate Series<P, C>(y: System<P, C>, env: Env<P, C>, latest: nat, fs: seq<Fetched>)
    decreases |fs|
  {
    fs != [] ==> Completes(y, env, latest, fs[0]) && Series(After(y, env, latest, fs[0]), env, latest, fs[1..])
  }

  function AfterSeries<P, C>(y: System<P, C>, env: Env<P, C>, latest: nat, fs: seq<Fetched>): System<P, C>
    decreases |fs|
  {
    if fs == [] then y else AfterSeries(After(y, env, latest, fs[0]), env, latest, fs[1..])
  }

  /** n served fetches move the next block by n hundred, or to the latest block. */
  lemma {:induction false} SeriesMoves<P, C>(y: System<P, C>, env: Env<P, C>, latest: nat, fs: seq<Fetched>)
    requires HeightInv(y.s) && y.s.nextHotshotBlockNum <= latest && Series(y, env, latest, fs)
    ensures AfterSeries(y, env, latest, fs).s.nextHotshotBlockNum
         == Min(latest, y.s.nextHotshotBlockNum + 100 * |fs|)
    decreases |fs|
  {
    hide Completes, After;
    if fs != [] {
      ServedFetchMoves(y, env, latest, fs[0]);
      SeriesMoves(After(y, env, latest, fs[0]), env, latest, fs[1..]);
    }
  }

  /** The payloads of a fetch can be handed over one by one. */
  lemma {:induction false} HandOverAll<P, C>(y: System<P, C>, env: Env<P, C>) returns (es: seq<Event>)
    requires y.fetch.Fetching?
    ensures Consuming(es) && Run(y, env, es).fetch == y.fetch.(todo := [])
    decreases |y.fetch.todo|
  {
    if y.fetch.todo == [] {
      es := [];
    } else {
      var rest := HandOverAll(Step(y, env, EvPayload), env);
      es := [EvPayload] + rest;
      assert es[1..] == rest;
    }
  }

  /** With a service that answers, the latest block is reached. */
  lemma {:induction false} LatestIsReached<P, C>(y: System<P, C>, env: Env<P, C>, latest: nat)
    returns (fs: seq<Fetched>)
    requires HeightInv(y.s) && y.fetch.Idle? && y.s.nextHotshotBlockNum <= latest
    ensures Series(y, env, latest, fs) && AfterSeries(y, env, latest, fs).s.nextHotshotBlockNum == latest
    decreases latest - y.s.nextHotshotBlockNum
  {
    if y.s.nextHotshotBlockNum == latest {
      fs := [];
    } else {
      var answer := RangeServed(Some(0));
      var between := HandOverAll(Step(y, env, EvBegin(Some(latest), answer)), env);
      var f := Fetched(answer, between);
      ServedFetchMoves(y, env, latest, f);
      var rest := LatestIsReached(After(y, env, latest, f), env, latest);
      fs := [f] + rest;
      assert fs[1..] == rest;
    }
  }
}
