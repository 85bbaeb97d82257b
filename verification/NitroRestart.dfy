/** Why restarting a Nitro scan at the reported block loses and changes nothing, and when a Reset inside a fetch
    does. */
module NitroRestart {
  import opened Batches
  import opened NitroSpec
  import opened NitroTiles

  // ---------- the reference ----------

  /** All messages of blocks [from, to), in order, as read at an L1 height that does not matter. */
  function Scanned<P, C>(env: Env<P, C>, from: nat, to: nat): seq<Msg<C>> {
    Messages(env, Payloads(env.log, from, to), 0)
  }

  /** Signature verdicts do not depend on the range a payload is fetched in. */
  ghost predicate Steady<P(!new), C>(env: Env<P, C>) {
    forall p: P, l: nat :: env.read(p, l) == env.read(p, 0)
  }

  lemma {:induction false} MessagesConcat<P, C>(env: Env<P, C>, a: seq<P>, b: seq<P>, l: nat)
    ensures Messages(env, a + b, l) == Messages(env, a, l) + Messages(env, b, l)
  {
    if a == [] {
      assert a + b == b;
    } else {
      MessagesConcat(env, a[1..], b, l);
      assert (a + b)[1..] == a[1..] + b;
      var first, rest, last := env.read(a[0], l), Messages(env, a[1..], l), Messages(env, b, l);
      ConcatAssociates(first, rest, last);
    }
  }

  lemma {:induction false} MessagesSteady<P(!new), C>(env: Env<P, C>, ps: seq<P>, l: nat)
    requires Steady(env)
    ensures Messages(env, ps, l) == Messages(env, ps, 0)
  {
    if ps != [] {
      MessagesSteady(env, ps[1..], l);
    }
  }

  lemma ScannedSplit<P, C>(env: Env<P, C>, from: nat, mid: nat, to: nat)
    requires from <= mid <= to
    ensures Scanned(env, from, to) == Scanned(env, from, mid) + Scanned(env, mid, to)
  {
    PayloadsSplit(env.log, from, mid, to);
    MessagesConcat(env, Payloads(env.log, from, mid), Payloads(env.log, mid, to), 0);
  }

  // ---------- runs without a Reset inside a fetch ----------

  /** An empty answer is given only for a range without messages. */
  ghost predicate AnswerTrue<P(!new), C>(y: System<P, C>, env: Env<P, C>, e: Event) {
    e.EvBegin? && e.answer.RangeEmpty? && e.latest.Some? ==>
      Scanned(env, y.s.nextHotshotBlockNum, Until(y.s.nextHotshotBlockNum, e.latest.value)) == []
  }

  ghost predicate Orderly<P(!new), C>(y: System<P, C>, env: Env<P, C>, es: seq<Event>)
    decreases |es|
  {
    es != [] ==>
      && (es[0].EvReset? ==> y.fetch.Idle?)
      && AnswerTrue(y, env, es[0])
      && Orderly(Step(y, env, es[0]), env, es[1..])
  }

  /** What was taken since the last Reset is the log from there to the next block, plus, during a fetch, the
      part of its range that was handed over. */
  ghost predicate ScanInv<P, C>(y: System<P, C>, env: Env<P, C>) {
    && y.from <= y.s.nextHotshotBlockNum
    && (if y.fetch.Idle? then y.taken == Scanned(env, y.from, y.s.nextHotshotBlockNum)
        else
          && y.fetch.start == y.s.nextHotshotBlockNum <= y.fetch.until
          && Scanned(env, y.from, y.fetch.start) <= y.taken
          && y.taken + Messages(env, y.fetch.todo, y.fetch.l1Height) == Scanned(env, y.from, y.fetch.until))
  }

  lemma BeginKeepsScan<P(!new), C>(y: System<P, C>, env: Env<P, C>, latest: Option<nat>, answer: RangeAnswer)
    requires Steady(env) && ScanInv(y, env) && y.fetch.Idle? && AnswerTrue(y, env, EvBegin(latest, answer))
    ensures ScanInv(Step(y, env, EvBegin(latest, answer)), env)
  {
    var from := y.s.nextHotshotBlockNum;
    var fetch := Begin(env.log, from, latest, answer);
    if fetch.Fetching? {
      if fetch.whole {
        MessagesSteady(env, Payloads(env.log, from, fetch.until), fetch.l1Height);
      }
      assert Messages(env, fetch.todo, fetch.l1Height) == Scanned(env, from, fetch.until);
      ScannedSplit(env, y.from, from, fetch.until);
    }
  }

  lemma StepKeepsScan<P(!new), C>(y: System<P, C>, env: Env<P, C>, e: Event)
    requires Steady(env) && ScanInv(y, env) && HeightInv(y.s) && AnswerTrue(y, env, e) && (e.EvReset? ==> y.fetch.Idle?)
    ensures ScanInv(Step(y, env, e), env)
  {
    hide Scanned, HeightInv;
    match e
    case EvBegin(latest, answer) =>
      if y.fetch.Idle? {
        BeginKeepsScan(y, env, latest, answer);
      }
    case EvPayload =>
      if y.fetch.Fetching? && y.fetch.todo != [] {
        var ms := env.read(y.fetch.todo[0], y.fetch.l1Height);
        InsertAllKeepsHeights(y.s, ms);
        var rest := Messages(env, y.fetch.todo[1..], y.fetch.l1Height);
        assert y.taken + (ms + rest) == y.taken + ms + rest;
      }
    case EvFinish =>
      assert y.taken + [] == y.taken;
    case EvReset(_, block) => NothingScanned(env, block);
    case EvAdvance =>
    case EvAdvanceTo(_) =>
  }

  lemma NothingScanned<P, C>(env: Env<P, C>, from: nat)
    ensures Scanned(env, from, from) == []
  {
  }

  /** In a run without a Reset inside a fetch, every message of the blocks from the last Reset on was taken exactly
      once and in order. */
  lemma {:induction false} MessagesTakenOnce<P(!new), C>(y: System<P, C>, env: Env<P, C>, es: seq<Event>)
    requires Steady(env) && ScanInv(y, env) && HeightInv(y.s) && FetchInv(y) && Orderly(y, env, es)
    ensures
      var z := Run(y, env, es);
      && ScanInv(z, env) && HeightInv(z.s) && FetchInv(z)
      && (z.fetch.Idle? ==> z.taken == Scanned(env, z.from, z.s.nextHotshotBlockNum))
    decreases |es|
  {
    if es != [] {
      StepKeepsScan(y, env, es[0]);
      StepKeepsHeights(y, env, es[0]);
      MessagesTakenOnce(Step(y, env, es[0]), env, es[1..]);
    }
  }

  // ---------- contents ----------

  /** A stored height never lies behind the block of the first message at its position. */
  ghost predicate HeightsReach<P, C>(y: System<P, C>, env: Env<P, C>) {
    forall q: nat | q in y.s.msgs ::
      && y.from <= y.s.msgs[q].height
      && First(Scanned(env, y.from, y.s.msgs[q].height), q) == None
  }

  /** The height given to a new message: at or after the last Reset's block, and not beyond the fetch's start. */
  lemma InsertKeepsReach<P, C>(y: System<P, C>, env: Env<P, C>, taken: seq<Msg<C>>, m: Msg<C>)
    requires FirstWins(y.s, taken) && HeightsReach(y, env) && HeightInv(y.s)
    requires y.from <= y.s.nextHotshotBlockNum && Scanned(env, y.from, y.s.nextHotshotBlockNum) <= taken
    ensures HeightsReach(y.(s := Insert(y.s, m)), env)
  {
    var s := y.s;
    var t := Insert(s, m);
    if m.pos in t.msgs && m.pos !in s.msgs {
      var h, n := t.msgs[m.pos].height, s.nextHotshotBlockNum;
      assert y.from <= h <= n;
      ScannedSplit(env, y.from, h, n);
      var a, b := Scanned(env, y.from, h), Scanned(env, h, n);
      FirstConcat(a, b, m.pos);
      assert taken == (a + b) + taken[|a + b|..];
      FirstConcat(a + b, taken[|a + b|..], m.pos);
      assert First(taken, m.pos) == None;
    }
  }

  lemma {:induction false} InsertAllKeeps<P, C>(y: System<P, C>, env: Env<P, C>, taken: seq<Msg<C>>, ms: seq<Msg<C>>)
    requires FirstWins(y.s, taken) && HeightsReach(y, env) && HeightInv(y.s)
    requires y.from <= y.s.nextHotshotBlockNum && Scanned(env, y.from, y.s.nextHotshotBlockNum) <= taken
    ensures
      var t := InsertAll(y.s, ms);
      FirstWins(t, taken + ms) && HeightsReach(y.(s := t), env)
    decreases |ms|
  {
    if ms == [] {
      assert taken + [] == taken;
    } else {
      InsertKeepsFirst(y.s, taken, ms[0]);
      InsertKeepsReach(y, env, taken, ms[0]);
      InsertKeepsHeights(y.s, ms[0]);
      InsertAllKeeps(y.(s := Insert(y.s, ms[0])), env, taken + [ms[0]], ms[1..]);
      assert taken + [ms[0]] + ms[1..] == taken + ms;
    }
  }

  lemma StepKeepsContents<P(!new), C>(y: System<P, C>, env: Env<P, C>, e: Event)
    requires ScanInv(y, env) && HeightInv(y.s) && FirstWins(y.s, y.taken) && HeightsReach(y, env)
    ensures FirstWins(Step(y, env, e).s, Step(y, env, e).taken) && HeightsReach(Step(y, env, e), env)
  {
    if e.EvPayload? && y.fetch.Fetching? && y.fetch.todo != [] {
      InsertAllKeeps(y, env, y.taken, env.read(y.fetch.todo[0], y.fetch.l1Height));
    }
  }

  lemma {:induction false} RunKeepsContents<P(!new), C>(y: System<P, C>, env: Env<P, C>, es: seq<Event>)
    requires Steady(env) && ScanInv(y, env) && HeightInv(y.s) && FetchInv(y) && Orderly(y, env, es)
    requires FirstWins(y.s, y.taken) && HeightsReach(y, env)
    ensures FirstWins(Run(y, env, es).s, Run(y, env, es).taken) && HeightsReach(Run(y, env, es), env)
    decreases |es|
  {
    if es != [] {
      StepKeepsScan(y, env, es[0]);
      StepKeepsHeights(y, env, es[0]);
      StepKeepsContents(y, env, es[0]);
      RunKeepsContents(Step(y, env, es[0]), env, es[1..]);
    }
  }

  // ---------- restarting ----------

  /** The messages at q that a scan from the reported block would see first are those of the whole scan. */
  lemma NothingBeforeRestart<P, C>(y: System<P, C>, env: Env<P, C>, pos: nat, q: nat)
    requires ScanInv(y, env) && y.fetch.Idle? && HeightInv(y.s) && FirstWins(y.s, y.taken) && HeightsReach(y, env)
    requires y.s.currentMessagePos <= pos <= q
    ensures
      var h, n := Earliest(y.s, pos), y.s.nextHotshotBlockNum;
      y.from <= h <= n && First(Scanned(env, h, n), q) == First(Scanned(env, y.from, n), q)
  {
    var h, n := Earliest(y.s, pos), y.s.nextHotshotBlockNum;
    EarliestIsLeast(y.s, pos);
    ScannedSplit(env, y.from, h, n);
    FirstConcat(Scanned(env, y.from, h), Scanned(env, h, n), q);
    if q in y.s.msgs {
      var g := y.s.msgs[q].height;
      ScannedSplit(env, y.from, h, g);
      FirstConcat(Scanned(env, y.from, h), Scanned(env, h, g), q);
    } else {
      assert First(y.taken, q) == None;
    }
  }

  /** The restart point is exact. Take any state reached without a Reset inside a fetch, with no fetch in
      flight; reset to a position not yet passed and to the block reported for it, and scan, in whatever ranges
      and with whatever advances in between, up to the old next block. Then the buffer holds again exactly what
      it held at the positions not yet passed, with the same contents. */
  lemma RestartIsExact<P(!new), C>(nextHotshotBlockNum: nat, startMessagePos: nat, env: Env<P, C>, es: seq<Event>,
                                   pos: nat, es': seq<Event>)
    requires Steady(env) && Orderly(Start(nextHotshotBlockNum, startMessagePos), env, es)
    requires
      var y := Run(Start(nextHotshotBlockNum, startMessagePos), env, es);
      var y0 := Step(y, env, EvReset(pos, Earliest(y.s, pos)));
      && y.fetch.Idle? && pos >= y.s.currentMessagePos
      && Orderly(y0, env, es') && (forall e | e in es' :: !e.EvReset?)
      && Run(y0, env, es').fetch.Idle? && Run(y0, env, es').s.nextHotshotBlockNum == y.s.nextHotshotBlockNum
    ensures
      var y := Run(Start(nextHotshotBlockNum, startMessagePos), env, es);
      var z := Run(Step(y, env, EvReset(pos, Earliest(y.s, pos))), env, es');
      && z.s.currentMessagePos >= pos
      && forall q: nat | q >= z.s.currentMessagePos ::
           && (q in z.s.msgs <==> q in y.s.msgs)
           && (q in z.s.msgs ==> z.s.msgs[q].content == y.s.msgs[q].content)
  {
    var x := Start<P, C>(nextHotshotBlockNum, startMessagePos);
    MessagesTakenOnce(x, env, es);
    RunKeepsContents(x, env, es);
    var y := Run(x, env, es);
    var h := Earliest(y.s, pos);
    var y0 := Step(y, env, EvReset(pos, h));
    MessagesTakenOnce(y0, env, es');
    RunKeepsContents(y0, env, es');
    FromUnchanged(y0, env, es');
    var z := Run(y0, env, es');
    forall q: nat | q >= z.s.currentMessagePos
      ensures
        && (q in z.s.msgs <==> q in y.s.msgs)
        && (q in z.s.msgs ==> z.s.msgs[q].content == y.s.msgs[q].content)
    {
      NothingBeforeRestart(y, env, pos, q);
      assert q in y.s.msgs <==> First(y.taken, q).Some?;
      assert q in z.s.msgs <==> First(z.taken, q).Some?;
    }
  }

  lemma {:induction false} FromUnchanged<P(!new), C>(y: System<P, C>, env: Env<P, C>, es: seq<Event>)
    requires HeightInv(y.s) && FetchInv(y) && (forall e | e in es :: !e.EvReset?)
    ensures Run(y, env, es).from == y.from && Run(y, env, es).s.currentMessagePos >= y.s.currentMessagePos
    decreases |es|
  {
    if es != [] {
      StepKeepsHeights(y, env, es[0]);
      if es[0].EvPayload? && y.fetch.Fetching? && y.fetch.todo != [] {
        InsertAllKeepsHeights(y.s, env.read(y.fetch.todo[0], y.fetch.l1Height));
      }
      FromUnchanged(Step(y, env, es[0]), env, es[1..]);
    }
  }

  // ---------- a Reset inside a fetch ----------

  /** While a fetch started elsewhere is in flight, payloads and advances leave the next block alone. */
  ghost predicate Consuming(es: seq<Event>) {
    forall e | e in es :: e.EvPayload? || e.EvAdvance? || e.EvAdvanceTo? || e.EvBegin?
  }

  lemma {:induction false} ConsumingKeepsFetch<P, C>(y: System<P, C>, env: Env<P, C>, es: seq<Event>)
    requires y.fetch.Fetching? && HeightInv(y.s) && FetchInv(y) && Consuming(es)
    ensures
      var z := Run(y, env, es);
      && z.fetch.Fetching? && z.fetch.start == y.fetch.start && z.fetch.until == y.fetch.until
      && z.s.nextHotshotBlockNum == y.s.nextHotshotBlockNum
    decreases |es|
  {
    if es != [] {
      StepKeepsHeights(y, env, es[0]);
      if es[0].EvPayload? && y.fetch.todo != [] {
        InsertAllKeepsHeights(y.s, env.read(y.fetch.todo[0], y.fetch.l1Height));
      }
      ConsumingKeepsFetch(Step(y, env, es[0]), env, es[1..]);
    }
  }

  /** A Reset inside a fetch is honoured, in that the next fetch begins at its block, exactly when that block is
      not the one the fetch began at, or the fetch covers nothing. */
  lemma ResetInFetchHonouredIff<P, C>(y: System<P, C>, env: Env<P, C>, pos: nat, block: nat, es: seq<Event>)
    requires y.fetch.Fetching? && HeightInv(y.s) && FetchInv(y) && Consuming(es)
    requires
      var f := Run(Step(y, env, EvReset(pos, block)), env, es).fetch;
      f.Fetching? && f.todo == []
    ensures
      var z := Step(Run(Step(y, env, EvReset(pos, block)), env, es), env, EvFinish);
      z.fetch.Idle? && (z.s.nextHotshotBlockNum == block <==> block != y.fetch.start || y.fetch.until == y.fetch.start)
  {
    ConsumingKeepsFetch(Step(y, env, EvReset(pos, block)), env, es);
  }

  /** The undetected case loses messages: a Reset to the very block a fetch began at, after its only payload was
      taken, empties the buffer, and the scan goes on behind that block. */
  lemma SameBlockResetLosesMessages<P, C>(p: P, c: C, nextHotshotBlockNum: nat)
    ensures
      var env := Env((b: nat) => if b == nextHotshotBlockNum then [p] else [], (q: P, l: nat) => [Msg(7, c)]);
      var es := [EvBegin(Some(nextHotshotBlockNum + 1), RangeServed(Some(0)))] + ([EvPayload]
                + ([EvReset(7, nextHotshotBlockNum)] + [EvFinish]));
      var z := Run(Start(nextHotshotBlockNum, 7), env, es);
      && z.fetch.Idle? && z.s.nextHotshotBlockNum == nextHotshotBlockNum + 1 && z.s.currentMessagePos == 7
      && 7 !in z.s.msgs && First(Scanned(env, nextHotshotBlockNum, z.s.nextHotshotBlockNum), 7) == Some(c)
      && z.tiles == [Tile(nextHotshotBlockNum, nextHotshotBlockNum + 1, false)]
  {
    var n := nextHotshotBlockNum;
    var env := Env((b: nat) => if b == n then [p] else [], (q: P, l: nat) => [Msg(7, c)]);
    assert [p][1..] == [];
    assert Payloads(env.log, n, n) == [];
    assert Payloads(env.log, n, n + 1) == [p];
    assert Messages(env, [p], 0) == [Msg(7, c)];
    var e3 := [EvFinish];
    var e2 := [EvReset(7, n)] + e3;
    var e1 := [EvPayload] + e2;
    var e0 := [EvBegin(Some(n + 1), RangeServed(Some(0)))] + e1;
    assert e0[1..] == e1 && e1[1..] == e2 && e2[1..] == e3 && e3[1..] == [];
    var y0 := Start(n, 7);
    var y1 := Step(y0, env, e0[0]);
    assert y1 == y0.(fetch := Fetching(n, n + 1, [p], 0, true));
    var y2 := Step(y1, env, EvPayload);
    assert y2.fetch == Fetching(n, n + 1, [], 0, true);
    var y3 := Step(y2, env, EvReset(7, n));
    var y4 := Step(y3, env, EvFinish);
    assert Run(y3, env, e3) == y4;
    assert Run(y2, env, e2) == y4;
    assert Run(y1, env, e1) == y4;
  }
}
