/** The Nitro streamer as a state with one function per locked section, and the fetch that runs beside it. */
module NitroSpec {
  import opened Batches

  const HOTSHOT_RANGE_LIMIT: nat := 100

  /** A message of a verified payload. */
  datatype Msg<C> = Msg(pos: nat, content: C)

  datatype Stored<C> = Stored(content: C, height: nat)

  datatype State<C> = State(
    nextHotshotBlockNum: nat,
    currentMessagePos: nat,
    highestPos: nat,
    msgs: map<nat, Stored<C>>)

  function Create<C>(nextHotshotBlockNum: nat, startMessagePos: nat): State<C> {
    State(nextHotshotBlockNum, startMessagePos, 1, map[])
  }

  function Reset<C>(s: State<C>, pos: nat, block: nat): State<C> {
    State(block, pos, pos, map[])
  }

  function Advance<C>(s: State<C>): State<C> {
    s.(msgs := s.msgs - {s.currentMessagePos}, currentMessagePos := s.currentMessagePos + 1)
  }

  /** The messages but those at positions [from, to). */
  function Without<C>(msgs: map<nat, Stored<C>>, from: nat, to: nat): map<nat, Stored<C>> {
    map q | q in msgs && !(from <= q < to) :: msgs[q]
  }

  function AdvanceTo<C>(s: State<C>, toPos: nat): State<C> {
    if toPos <= s.currentMessagePos then s
    else
      s.(msgs := Without(s.msgs, s.currentMessagePos, toPos), currentMessagePos := toPos)
  }

  /** The lowering loop: the least of h and the heights stored at nextPos..highest. */
  function Lowered<C>(msgs: map<nat, Stored<C>>, nextPos: nat, highest: nat, h: nat): (r: nat)
    ensures r <= h
    ensures forall q | nextPos <= q <= highest && q in msgs :: r <= msgs[q].height
    ensures r == h || exists q :: nextPos <= q <= highest && q in msgs && r == msgs[q].height
    decreases highest + 1 - nextPos
  {
    if nextPos > highest then h
    else Lowered(msgs, nextPos + 1, highest,
                 if nextPos in msgs && msgs[nextPos].height < h then msgs[nextPos].height else h)
  }

  /** One pass of the insertion loop: the first message at a position wins. */
  function Insert<C>(s: State<C>, m: Msg<C>): (t: State<C>) {
    if m.pos < s.currentMessagePos || m.pos in s.msgs then s
    else
      var highest := Max(s.highestPos, m.pos);
      var height := Lowered(s.msgs, m.pos + 1, highest, s.nextHotshotBlockNum);
      s.(highestPos := highest, msgs := s.msgs[m.pos := Stored(m.content, height)])
  }

  function InsertAll<C>(s: State<C>, ms: seq<Msg<C>>): (t: State<C>)
    decreases |ms|
  {
    if ms == [] then s else InsertAll(Insert(s, ms[0]), ms[1..])
  }

  /** GetCurrentEarliestHotShotBlockNumber: a stored height is returned as it is; otherwise the least height at
      or above pos is looked for. */
  function Earliest<C>(s: State<C>, pos: nat): nat {
    if s.msgs == map[] then s.nextHotshotBlockNum
    else if pos in s.msgs then s.msgs[pos].height
    else Lowered(s.msgs, pos, s.highestPos, s.nextHotshotBlockNum)
  }

  // ---------- heights ----------

  /** Buffered positions lie in [currentMessagePos, highestPos], no stored height is above the next block, and
      heights do not decrease with the position. */
  ghost predicate HeightInv<C>(s: State<C>) {
    && (forall q | q in s.msgs :: s.currentMessagePos <= q <= s.highestPos && s.msgs[q].height <= s.nextHotshotBlockNum)
    && (forall q, r | q in s.msgs && r in s.msgs && q <= r :: s.msgs[q].height <= s.msgs[r].height)
  }

  lemma InsertKeepsHeights<C>(s: State<C>, m: Msg<C>)
    requires HeightInv(s)
    ensures HeightInv(Insert(s, m))
  {
  }

  lemma AdvanceToKeepsHeights<C>(s: State<C>, toPos: nat)
    requires HeightInv(s)
    ensures HeightInv(AdvanceTo(s, toPos))
  {
  }

  lemma MovingOnKeepsHeights<C>(s: State<C>, block: nat)
    requires HeightInv(s) && block >= s.nextHotshotBlockNum
    ensures HeightInv(s.(nextHotshotBlockNum := block))
  {
  }

  lemma {:induction false} InsertAllKeepsHeights<C>(s: State<C>, ms: seq<Msg<C>>)
    requires HeightInv(s)
    ensures
      var t := InsertAll(s, ms);
      && HeightInv(t)
      && t.nextHotshotBlockNum == s.nextHotshotBlockNum && t.currentMessagePos == s.currentMessagePos
    decreases |ms|
  {
    if ms != [] {
      InsertKeepsHeights(s, ms[0]);
      InsertAllKeepsHeights(Insert(s, ms[0]), ms[1..]);
    }
  }

  /** h is the least of the next block and the heights stored at or above pos. */
  ghost predicate LeastHeight<C>(s: State<C>, pos: nat, h: nat) {
    && h <= s.nextHotshotBlockNum
    && (forall q | q in s.msgs && q >= pos :: h <= s.msgs[q].height)
    && (h == s.nextHotshotBlockNum || exists q :: q in s.msgs && q >= pos && s.msgs[q].height == h)
  }

  /** The fast path for a buffered position gives the same as the full minimum. */
  lemma EarliestIsLeast<C>(s: State<C>, pos: nat)
    requires HeightInv(s)
    ensures LeastHeight(s, pos, Earliest(s, pos))
    ensures forall h: nat | LeastHeight(s, pos, h) :: h == Earliest(s, pos)
  {
  }

  // ---------- the fetch that runs beside the consumer ----------

  /** The payloads of each HotShot block, and the messages a payload yields at an L1 height: those that parse
      and whose signature is valid there. */
  datatype Env<!P, !C> = Env(log: nat -> seq<P>, read: (P, nat) -> seq<Msg<C>>)

  /** The answer to the range request of a fetch, with the L1 height in the header of the last block. */
  datatype RangeAnswer = RangeFailed | RangeEmpty | RangeServed(l1Height: Option<nat>)

  /** A fetch in flight: the block it began at, where it will end, the payloads still to be handed to the
      insertion loop and the L1 height they are judged at. whole is history: the payloads of the range were
      listed, and no Reset came since. */
  datatype Fetch<P> = Idle | Fetching(start: nat, until: nat, todo: seq<P>, l1Height: nat, whole: bool)

  /** A range completed by a fetch, with the fetch's whole. */
  datatype Tile = Tile(start: nat, until: nat, whole: bool)

  /** The rest is history since the last Reset: where the scan began, every message handed to the insertion
      loop, every payload handed over by a whole fetch, and the completed ranges. */
  datatype System<P, C> = System(
    s: State<C>,
    fetch: Fetch<P>,
    from: nat,
    taken: seq<Msg<C>>,
    handed: seq<P>,
    tiles: seq<Tile>)

  datatype Event =
    | EvBegin(latest: Option<nat>, answer: RangeAnswer)
    | EvPayload
    | EvFinish
    | EvReset(pos: nat, block: nat)
    | EvAdvance
    | EvAdvanceTo(toPos: nat)

  function Until(from: nat, latest: nat): nat {
    if from > latest then from
    else if latest - from > HOTSHOT_RANGE_LIMIT then from + HOTSHOT_RANGE_LIMIT
    else latest
  }

  /** The payloads of blocks [from, to), in order. */
  function Payloads<P>(log: nat -> seq<P>, from: nat, to: nat): seq<P> {
    if from >= to then [] else Payloads(log, from, to - 1) + log(to - 1)
  }

  /** The messages that payloads yield at an L1 height, in order. */
  function Messages<P, C>(env: Env<P, C>, ps: seq<P>, l1Height: nat): seq<Msg<C>> {
    if ps == [] then [] else env.read(ps[0], l1Height) + Messages(env, ps[1..], l1Height)
  }

  /** fetchNextHotshotBlock up to the first payload; Idle when it fails. */
  function Begin<P>(log: nat -> seq<P>, from: nat, latest: Option<nat>, answer: RangeAnswer): Fetch<P> {
    if latest.None? then Idle
    else
      var until := Until(from, latest.value);
      if from == until then Fetching(from, from, [], 0, false)
      else
        match answer
        case RangeFailed => Idle
        case RangeEmpty => Fetching(from, until, [], 0, false)
        case RangeServed(l1Height) =>
          if l1Height.None? then Idle
          else Fetching(from, until, Payloads(log, from, until), l1Height.value, true)
  }

  /** One locked section, or the unlocked start of a fetch. Steps that are not enabled change nothing. */
  function Step<P, C>(y: System<P, C>, env: Env<P, C>, e: Event): System<P, C> {
    match e
    case EvBegin(latest, answer) =>
      if y.fetch.Idle? then y.(fetch := Begin(env.log, y.s.nextHotshotBlockNum, latest, answer)) else y
    case EvPayload =>
      if y.fetch.Fetching? && y.fetch.todo != [] then
        var payload := y.fetch.todo[0];
        var ms := env.read(payload, y.fetch.l1Height);
        y.(s := InsertAll(y.s, ms), fetch := y.fetch.(todo := y.fetch.todo[1..]), taken := y.taken + ms,
           handed := if y.fetch.whole then y.handed + [payload] else y.handed)
      else y
    case EvFinish =>
      if y.fetch.Fetching? && y.fetch.todo == [] then
        var moved := y.s.nextHotshotBlockNum == y.fetch.start;
        var tile := Tile(y.fetch.start, y.fetch.until, y.fetch.whole);
        y.(s := if moved then y.s.(nextHotshotBlockNum := y.fetch.until) else y.s, fetch := Idle,
           tiles := if moved && tile.start < tile.until then y.tiles + [tile] else y.tiles)
      else y
    case EvReset(pos, block) =>
      System(Reset(y.s, pos, block), if y.fetch.Fetching? then y.fetch.(whole := false) else Idle, block, [], [], [])
    case EvAdvance => y.(s := Advance(y.s))
    case EvAdvanceTo(toPos) => y.(s := AdvanceTo(y.s, toPos))
  }

  function Run<P, C>(y: System<P, C>, env: Env<P, C>, es: seq<Event>): System<P, C>
    decreases |es|
  {
    if es == [] then y else Run(Step(y, env, es[0]), env, es[1..])
  }

  function Start<P, C>(nextHotshotBlockNum: nat, startMessagePos: nat): System<P, C> {
    System(Create(nextHotshotBlockNum, startMessagePos), Idle, nextHotshotBlockNum, [], [], [])
  }

  ghost predicate FetchInv<P, C>(y: System<P, C>) {
    y.fetch.Fetching? ==> y.fetch.start <= y.fetch.until <= y.fetch.start + HOTSHOT_RANGE_LIMIT
  }

  lemma StepKeepsHeights<P, C>(y: System<P, C>, env: Env<P, C>, e: Event)
    requires HeightInv(y.s) && FetchInv(y)
    ensures HeightInv(Step(y, env, e).s) && FetchInv(Step(y, env, e))
  {
    if e.EvPayload? && y.fetch.Fetching? && y.fetch.todo != [] {
      InsertAllKeepsHeights(y.s, env.read(y.fetch.todo[0], y.fetch.l1Height));
    }
  }

  lemma {:induction false} RunKeepsHeights<P, C>(y: System<P, C>, env: Env<P, C>, es: seq<Event>)
    requires HeightInv(y.s) && FetchInv(y)
    ensures HeightInv(Run(y, env, es).s)
    decreases |es|
  {
    if es != [] {
      StepKeepsHeights(y, env, es[0]);
      RunKeepsHeights(Step(y, env, es[0]), env, es[1..]);
    }
  }

  /** In every state reachable under any interleaving of the locked sections, the heights are monotone, so the
      fast path of GetCurrentEarliestHotShotBlockNumber is exact. */
  lemma HeightsStayMonotone<P, C>(nextHotshotBlockNum: nat, startMessagePos: nat, env: Env<P, C>, es: seq<Event>,
                                  pos: nat)
    ensures
      var s := Run(Start(nextHotshotBlockNum, startMessagePos), env, es).s;
      HeightInv(s) && LeastHeight(s, pos, Earliest(s, pos))
  {
    RunKeepsHeights(Start(nextHotshotBlockNum, startMessagePos), env, es);
    EarliestIsLeast(Run(Start(nextHotshotBlockNum, startMessagePos), env, es).s, pos);
  }

  // ---------- what is buffered ----------

  /** The first message at position q. */
  function First<C>(ms: seq<Msg<C>>, q: nat): Option<C> {
    if ms == [] then None else if ms[0].pos == q then Some(ms[0].content) else First(ms[1..], q)
  }

  /** At positions not yet passed, the buffer holds the first message taken there and nothing else. */
  ghost predicate FirstWins<C>(s: State<C>, taken: seq<Msg<C>>) {
    forall q: nat | q >= s.currentMessagePos ::
      && (q in s.msgs <==> First(taken, q).Some?)
      && (q in s.msgs ==> First(taken, q) == Some(s.msgs[q].content))
  }

  lemma {:induction false} FirstConcat<C>(a: seq<Msg<C>>, b: seq<Msg<C>>, q: nat)
    ensures First(a + b, q) == if First(a, q).Some? then First(a, q) else First(b, q)
  {
    if a == [] {
      assert a + b == b;
    } else {
      FirstConcat(a[1..], b, q);
      assert (a + b)[1..] == a[1..] + b;
    }
  }

  lemma InsertKeepsFirst<C>(s: State<C>, taken: seq<Msg<C>>, m: Msg<C>)
    requires FirstWins(s, taken)
    ensures FirstWins(Insert(s, m), taken + [m])
  {
    var t := Insert(s, m);
    forall q: nat | q >= t.currentMessagePos
      ensures
        && (q in t.msgs <==> First(taken + [m], q).Some?)
        && (q in t.msgs ==> First(taken + [m], q) == Some(t.msgs[q].content))
    {
      FirstConcat(taken, [m], q);
      assert [m][1..] == [];
      assert q in s.msgs <==> First(taken, q).Some?;
    }
  }

  lemma {:induction false} InsertAllKeepsFirst<C>(s: State<C>, taken: seq<Msg<C>>, ms: seq<Msg<C>>)
    requires FirstWins(s, taken)
    ensures FirstWins(InsertAll(s, ms), taken + ms)
    decreases |ms|
  {
    if ms == [] {
      assert taken + [] == taken;
    } else {
      InsertKeepsFirst(s, taken, ms[0]);
      InsertAllKeepsFirst(Insert(s, ms[0]), taken + [ms[0]], ms[1..]);
      assert taken + [ms[0]] + ms[1..] == taken + ms;
    }
  }

  lemma {:induction false} RunKeepsFirst<P, C>(y: System<P, C>, env: Env<P, C>, es: seq<Event>)
    requires FirstWins(y.s, y.taken)
    ensures FirstWins(Run(y, env, es).s, Run(y, env, es).taken)
    decreases |es|
  {
    if es != [] {
      if es[0].EvPayload? && y.fetch.Fetching? && y.fetch.todo != [] {
        InsertAllKeepsFirst(y.s, y.taken, env.read(y.fetch.todo[0], y.fetch.l1Height));
      }
      RunKeepsFirst(Step(y, env, es[0]), env, es[1..]);
    }
  }

  /** In every reachable state, Resets inside a fetch included, the buffer holds at each position not yet passed
      exactly the first message taken there since the last Reset. */
  lemma BufferHoldsFirstTaken<P, C>(nextHotshotBlockNum: nat, startMessagePos: nat, env: Env<P, C>, es: seq<Event>)
    ensures
      var y := Run(Start(nextHotshotBlockNum, startMessagePos), env, es);
      FirstWins(y.s, y.taken)
  {
    RunKeepsFirst(Start(nextHotshotBlockNum, startMessagePos), env, es);
  }
}
