/** What a consumer of the Nitro streamer is shown, one position after the other. */
module NitroConsumer {
  import opened Batches
  import opened NitroSpec
  import opened NitroRestart

  /** The message Peek shows. */
  function Shown<C>(s: State<C>): Option<C> {
    if s.currentMessagePos in s.msgs then Some(s.msgs[s.currentMessagePos].content) else None
  }

  /** What a consumer that peeks before every Advance is shown in a run. */
  function Consumed<P, C>(y: System<P, C>, env: Env<P, C>, es: seq<Event>): seq<Option<C>>
    decreases |es|
  {
    if es == [] then []
    else (if es[0].EvAdvance? then [Shown(y.s)] else []) + Consumed(Step(y, env, es[0]), env, es[1..])
  }

  /** t has moved to pos: what was below is gone, what is at or above it is as it was. */
  ghost predicate MovedTo<C>(s: State<C>, t: State<C>, pos: nat) {
    && t.currentMessagePos == pos
    && t.nextHotshotBlockNum == s.nextHotshotBlockNum && t.highestPos == s.highestPos
    && (forall q | q >= pos :: q in t.msgs <==> q in s.msgs)
    && (forall q | q >= pos && q in s.msgs :: t.msgs[q] == s.msgs[q])
    && (forall q | q in t.msgs :: q >= pos)
  }

  /** Advance moves by one position and AdvanceTo to the target, if that lies ahead; every message at or above the
      new position keeps its content and its height, and none below it is left. */
  lemma AdvanceMovesExactly<C>(s: State<C>, toPos: nat)
    requires HeightInv(s)
    ensures MovedTo(s, Advance(s), s.currentMessagePos + 1)
    ensures MovedTo(s, AdvanceTo(s, toPos), Max(s.currentMessagePos, toPos))
  {
  }

  /** The consumer moves only by its own Advance. */
  ghost predicate OneByOne(es: seq<Event>) {
    forall e | e in es :: !e.EvReset? && !e.EvAdvanceTo?
  }

  lemma StepKeepsPlace<P, C>(y: System<P, C>, env: Env<P, C>, e: Event)
    requires FirstWins(y.s, y.taken) && !e.EvReset? && !e.EvAdvanceTo?
    ensures
      var z := Step(y, env, e);
      && FirstWins(z.s, z.taken) && y.taken <= z.taken && z.from == y.from
      && z.s.currentMessagePos == y.s.currentMessagePos + (if e.EvAdvance? then 1 else 0)
  {
    if e.EvPayload? && y.fetch.Fetching? && y.fetch.todo != [] {
      var ms := env.read(y.fetch.todo[0], y.fetch.l1Height);
      InsertAllKeepsFirst(y.s, y.taken, ms);
      InsertAllStays(y.s, ms);
    }
  }

  lemma {:induction false} InsertAllStays<C>(s: State<C>, ms: seq<Msg<C>>)
    ensures InsertAll(s, ms).currentMessagePos == s.currentMessagePos
    decreases |ms|
  {
    if ms != [] {
      InsertAllStays(Insert(s, ms[0]), ms[1..]);
    }
  }

  lemma FirstStays<C>(a: seq<Msg<C>>, b: seq<Msg<C>>, q: nat)
    requires a <= b && First(a, q).Some?
    ensures First(b, q) == First(a, q)
  {
    FirstConcat(a, b[|a|..], q);
    assert a + b[|a|..] == b;
  }

  lemma {:induction false} ConsumerSeesFirst<P, C>(y: System<P, C>, env: Env<P, C>, es: seq<Event>)
    requires FirstWins(y.s, y.taken) && OneByOne(es)
    ensures
      var z := Run(y, env, es);
      var shown := Consumed(y, env, es);
      && y.taken <= z.taken && z.from == y.from
      && z.s.currentMessagePos == y.s.currentMessagePos + |shown|
      && forall k | 0 <= k < |shown| && shown[k].Some? :: shown[k] == First(z.taken, y.s.currentMessagePos + k)
    decreases |es|
  {
    hide First, FirstWins, Step;
    if es != [] {
      StepKeepsPlace(y, env, es[0]);
      var y1 := Step(y, env, es[0]);
      ConsumerSeesFirst(y1, env, es[1..]);
      if es[0].EvAdvance? && Shown(y.s).Some? {
        ShownIsFirst(y.s, y.taken);
        FirstStays(y.taken, Run(y1, env, es[1..]).taken, y.s.currentMessagePos);
      }
    }
  }

  lemma ShownIsFirst<C>(s: State<C>, taken: seq<Msg<C>>)
    requires FirstWins(s, taken)
    ensures Shown(s) == First(taken, s.currentMessagePos)
  {
  }

  /** After any Reset, forward or back, in whatever state and inside a fetch or not: what the consumer is shown is
      the first message taken at pos, pos + 1, pos + 2 and so on, with no position passed over. */
  lemma ConsumerAfterReset<P, C>(nextHotshotBlockNum: nat, startMessagePos: nat, env: Env<P, C>, es: seq<Event>,
                                 pos: nat, block: nat, es': seq<Event>)
    requires OneByOne(es')
    ensures
      var y := Step(Run(Start(nextHotshotBlockNum, startMessagePos), env, es), env, EvReset(pos, block));
      var z := Run(y, env, es');
      var shown := Consumed(y, env, es');
      && z.s.currentMessagePos == pos + |shown| && z.from == block
      && forall k | 0 <= k < |shown| && shown[k].Some? :: shown[k] == First(z.taken, pos + k)
  {
    BufferHoldsFirstTaken(nextHotshotBlockNum, startMessagePos, env, es);
    var y := Step(Run(Start(nextHotshotBlockNum, startMessagePos), env, es), env, EvReset(pos, block));
    ConsumerSeesFirst(y, env, es');
  }

  /** The highest position is exact as well: it is where the last Reset put it, or that of a message taken since. */
  lemma {:induction false} HighestIsTaken<P, C>(y: System<P, C>, env: Env<P, C>, es: seq<Event>)
    requires forall e | e in es :: !e.EvReset?
    ensures
      var z := Run(y, env, es);
      && y.taken <= z.taken && y.s.highestPos <= z.s.highestPos
      && (z.s.highestPos == y.s.highestPos || exists m :: m in z.taken && m.pos == z.s.highestPos)
    decreases |es|
  {
    if es != [] {
      var y1 := Step(y, env, es[0]);
      if es[0].EvPayload? && y.fetch.Fetching? && y.fetch.todo != [] {
        HighestInserted(y.s, env.read(y.fetch.todo[0], y.fetch.l1Height));
      }
      HighestIsTaken(y1, env, es[1..]);
      var z := Run(y1, env, es[1..]);
      assert forall m | m in y1.taken :: m in z.taken;
    }
  }

  lemma {:induction false} HighestInserted<C>(s: State<C>, ms: seq<Msg<C>>)
    ensures
      var t := InsertAll(s, ms);
      && s.highestPos <= t.highestPos
      && (t.highestPos == s.highestPos || exists m :: m in ms && m.pos == t.highestPos)
    decreases |ms|
  {
    if ms != [] {
      HighestInserted(Insert(s, ms[0]), ms[1..]);
      assert ms == [ms[0]] + ms[1..];
    }
  }

  lemma HighestAfterReset<P, C>(y: System<P, C>, env: Env<P, C>, pos: nat, block: nat, es: seq<Event>)
    requires forall e | e in es :: !e.EvReset?
    ensures
      var s0 := Run(Start(block, pos), env, es);
      s0.s.highestPos == 1 || exists m :: m in s0.taken && m.pos == s0.s.highestPos
    ensures
      var z := Run(Step(y, env, EvReset(pos, block)), env, es);
      z.s.highestPos == pos || exists m :: m in z.taken && m.pos == z.s.highestPos
  {
    HighestIsTaken(Start(block, pos), env, es);
    HighestIsTaken(Step(y, env, EvReset(pos, block)), env, es);
  }

  /** The same from the start, in terms of the log: without a Reset inside a fetch, what the consumer is shown at
      each position is the first message there in the scanned blocks. */
  lemma ConsumerReadsLog<P(!new), C>(nextHotshotBlockNum: nat, startMessagePos: nat, env: Env<P, C>, es: seq<Event>)
    requires Steady(env) && OneByOne(es)
    requires Orderly(Start(nextHotshotBlockNum, startMessagePos), env, es)
    requires Run(Start(nextHotshotBlockNum, startMessagePos), env, es).fetch.Idle?
    ensures
      var y := Start(nextHotshotBlockNum, startMessagePos);
      var z := Run(y, env, es);
      var shown := Consumed(y, env, es);
      && z.s.currentMessagePos == startMessagePos + |shown|
      && forall k | 0 <= k < |shown| && shown[k].Some? ::
           shown[k] == First(Scanned(env, nextHotshotBlockNum, z.s.nextHotshotBlockNum), startMessagePos + k)
  {
    MessagesTakenOnce(Start(nextHotshotBlockNum, startMessagePos), env, es);
    ConsumerSeesFirst(Start(nextHotshotBlockNum, startMessagePos), env, es);
  }
}
