/** The buffered wrapper as functions on its state, and why its replay looks like a rewind of the streamer. */
module BufferedSpec {
  import opened Batches
  import opened L1Check
  import opened StreamerSpec
  import opened StreamerRuns

  /** safeL1 is the number of the current safe L1 origin. */
  datatype Buffered = Buffered(
    lower: State,
    batches: seq<Batch>,
    readPos: nat,
    startingBatchPos: BlockNumber,
    safeL1: nat)

  function HandleL2PositionUpdate(b: Buffered, next: BlockNumber): (c: Buffered)
    ensures c.startingBatchPos == next && c.safeL1 == b.safeL1
  {
    if next < b.startingBatchPos then Buffered(StreamerSpec.Reset(b.lower), [], 0, next, b.safeL1)
    else if next > b.startingBatchPos then
      var adjustment := next - b.startingBatchPos;
      if adjustment <= |b.batches| then
        b.(batches := b.batches[adjustment..],
           readPos := if b.readPos >= adjustment then b.readPos - adjustment else 0,
           startingBatchPos := next)
      else b.(batches := [], readPos := 0, startingBatchPos := next)
    else b
  }

  function RefreshSafeL1Origin(b: Buffered, origin: nat, light: Option<Height>): (c: Buffered) {
    if origin < b.safeL1 then Buffered(StreamerSpec.RefreshSafeL1Origin(b.lower, light), [], 0, 0, origin)
    else b.(safeL1 := origin)
  }

  /** light answers the light client call of RefreshSafeL1Origin, light' the one of the lower Refresh. */
  function Refresh(b: Buffered, finalizedL1: L1BlockRef, batcher: Option<Address>, safe: BlockNumber, origin: nat,
                   light: Option<Height>, light': Option<Height>): (c: Buffered)
  {
    var b1 := RefreshSafeL1Origin(HandleL2PositionUpdate(b, safe), origin, light);
    b1.(lower := StreamerSpec.Refresh(b1.lower, finalizedL1, batcher, safe, light'))
  }

  function Reset(b: Buffered): Buffered {
    b.(readPos := 0)
  }

  function HasNext(b: Buffered, env: Env): (Buffered, bool) {
    if b.readPos < |b.batches| then (b, true)
    else
      var (lower, ready) := StreamerSpec.HasNext(b.lower, env);
      (b.(lower := lower), ready)
  }

  lemma FetchShrinks(s: State, env: Env)
    ensures StreamerSpec.Next(s, env).1.Some? ==> Size(StreamerSpec.Next(s, env).0) < Size(s)
  {
  }

  /** The fetch loop of Next: batches numbered below the starting position are passed over. */
  function NextFromLower(b: Buffered, env: Env): (Buffered, Option<Batch>)
    decreases Size(b.lower)
  {
    FetchShrinks(b.lower, env);
    var (lower, out) := StreamerSpec.Next(b.lower, env);
    if out.None? then (b.(lower := lower), None)
    else if out.value.number >= b.startingBatchPos then
      (b.(lower := lower, batches := b.batches + [out.value], readPos := b.readPos + 1), out)
    else NextFromLower(b.(lower := lower), env)
  }

  function Next(b: Buffered, env: Env): (Buffered, Option<Batch>) {
    if b.readPos < |b.batches| then (b.(readPos := b.readPos + 1), Some(b.batches[b.readPos]))
    else NextFromLower(b, env)
  }

  /** A head that HasNext reports ready is reported ready again. */
  lemma {:induction false} ReadyAgain(s: State, env: Env)
    requires StreamerSpec.HasNext(s, env).1
    ensures
      var t := StreamerSpec.HasNext(s, env).0;
      StreamerSpec.HasNext(t, env) == (t.(view := t.view.(calls := t.view.calls + 1)), true)
    decreases Size(s)
  {
    hide Check;
    if s.head.None? {
      if s.buffer[0].number < s.nextBatchPos {
        ReadyAgain(s.(buffer := s.buffer[1..]), env);
      } else {
        ReadyAgain(s.(head := Some(s.buffer[0]), buffer := s.buffer[1..]), env);
      }
    } else {
      var (validity, s1) := CheckBatch(s, env, s.head.value);
      if validity == Accept {
        AcceptedAgain(s.view, env.rpc, s.nextBatchPos, s.head.value);
      } else {
        ReadyAgain(if validity == Drop then DropHeld(s1) else s1.(head := None), env);
      }
    }
  }

  /** The loop of Peek: a ready batch below the starting position is taken from the streamer and discarded. */
  function PeekLower(b: Buffered, env: Env): (Buffered, Option<Batch>)
    decreases Size(b.lower)
  {
    HasNextShrinks(b.lower, env);
    var (lower, ready) := StreamerSpec.HasNext(b.lower, env);
    if !ready then (b.(lower := lower), None)
    else if lower.head.value.number >= b.startingBatchPos then (b.(lower := lower), lower.head)
    else
      ReadyAgain(b.lower, env);
      PeekLower(b.(lower := StreamerSpec.Next(lower, env).0), env)
  }

  function Peek(b: Buffered, env: Env): (Buffered, Option<Batch>) {
    if b.readPos < |b.batches| then (b, Some(b.batches[b.readPos]))
    else PeekLower(b, env)
  }

  function SetProperHead(b: Buffered, parent: Hash): Buffered
    requires b.readPos <= |b.batches|
  {
    b.(batches := b.batches[..b.readPos], lower := StreamerSpec.SetProperHead(b.lower, parent))
  }

  // ---------- alignment of the window with the lower streamer ----------

  /** The window holds the batches right after the safe one, and the lower streamer continues it. */
  ghost predicate Aligned(b: Buffered) {
    && b.lower.fallbackBatchPos == b.startingBatchPos
    && b.lower.nextBatchPos == b.startingBatchPos + 1 + |b.batches|
    && b.readPos <= |b.batches|
    && forall i | 0 <= i < |b.batches| :: b.batches[i].number == b.startingBatchPos + 1 + i
  }

  /** A first Refresh, made before anything is read, aligns the window, whatever the positions it starts from. */
  lemma FirstRefreshAligns(b: Buffered, finalizedL1: L1BlockRef, batcher: Option<Address>, safe: BlockNumber,
                           origin: nat, light: Option<Height>, light': Option<Height>)
    requires b.batches == [] && b.readPos == 0 && b.startingBatchPos == 0 && b.safeL1 <= origin
    requires b.lower.nextBatchPos == b.lower.fallbackBatchPos + 1
    ensures Aligned(Refresh(b, finalizedL1, batcher, safe, origin, light, light'))
  {
  }

  /** The lower streamer resets on account of HotShot heights while it follows a Refresh: the light client
      reports a lower height, or the fallback height overtakes the cursor as the safe batch moves. */
  predicate LowerResetsItself(b: Buffered, finalizedL1: L1BlockRef, batcher: Option<Address>, safe: BlockNumber,
                              light': Option<Height>)
  {
    var s := SeeL1(HandleL2PositionUpdate(b, safe).lower, finalizedL1, batcher);
    var (s1, shouldReset) := ConfirmHeight(s, light');
    shouldReset || (safe != b.startingBatchPos && s1.fallbackHotShotPos > s1.hotShotPos)
  }

  /** A self-reset of the lower streamer is invisible to the wrapper. As long as the safe L1 origin does not
      move back, a Refresh keeps the alignment exactly when there is none or the trimmed window is empty. */
  lemma RefreshKeepsAlignedIff(b: Buffered, finalizedL1: L1BlockRef, batcher: Option<Address>, safe: BlockNumber,
                               origin: nat, light: Option<Height>, light': Option<Height>)
    requires Aligned(b) && b.safeL1 <= origin
    ensures Aligned(Refresh(b, finalizedL1, batcher, safe, origin, light, light'))
       <==> !LowerResetsItself(b, finalizedL1, batcher, safe, light')
            || HandleL2PositionUpdate(b, safe).batches == []
  {
  }

  /** What goes wrong otherwise. After such a self-reset under a window that is kept, the next batch the lower
      streamer yields, once it has scanned again, is numbered like the first of the window, which it repeats. */
  lemma SelfResetRepeats(b: Buffered, finalizedL1: L1BlockRef, batcher: Option<Address>, origin: nat,
                         light: Option<Height>, light': Option<Height>, env: Env, net: Network, rounds: nat)
    requires Inv(b.lower) && Aligned(b) && b.safeL1 <= origin && b.readPos == |b.batches| > 0
    requires LowerResetsItself(b, finalizedL1, batcher, b.startingBatchPos, light')
    ensures
      var c := Refresh(b, finalizedL1, batcher, b.startingBatchPos, origin, light, light');
      var d := c.(lower := Update(c.lower, env, net, rounds).0);
      var (e, out) := Next(d, env);
      out.Some? ==> out.value.number == b.batches[0].number && e.batches == b.batches + [out.value]
  {
    hide Update, StreamerSpec.Next;
    LowerAfterRefresh(b, finalizedL1, batcher, b.startingBatchPos, light');
    RefreshKeeps(b.lower, finalizedL1, batcher, b.startingBatchPos, light');
    var c := Refresh(b, finalizedL1, batcher, b.startingBatchPos, origin, light, light');
    UpdateNeverMovesBack(c.lower, env, net, rounds);
    NextKeeps(Update(c.lower, env, net, rounds).0, env);
  }

  /** Where the lower streamer stands after a Refresh: at the batch after the safe one if anything reset it,
      else where it stood. */
  lemma LowerAfterRefresh(b: Buffered, finalizedL1: L1BlockRef, batcher: Option<Address>, safe: BlockNumber,
                          light': Option<Height>)
    requires Aligned(b)
    ensures
      var t := StreamerSpec.Refresh(HandleL2PositionUpdate(b, safe).lower, finalizedL1, batcher, safe, light');
      && t.fallbackBatchPos == safe
      && t.nextBatchPos ==
           if LowerResetsItself(b, finalizedL1, batcher, safe, light')
              || safe < b.startingBatchPos || safe > b.startingBatchPos + |b.batches|
           then safe + 1 else b.lower.nextBatchPos
  {
  }

  lemma WindowTrimmed(b: Buffered, safe: BlockNumber)
    requires Aligned(b)
    ensures
      var c := HandleL2PositionUpdate(b, safe);
      && c.readPos <= |c.batches|
      && (forall i | 0 <= i < |c.batches| :: c.batches[i].number == safe + 1 + i)
      && (safe < b.startingBatchPos || safe > b.startingBatchPos + |b.batches| ==> c.batches == [])
      && (b.startingBatchPos <= safe <= b.startingBatchPos + |b.batches| ==>
            c.batches == b.batches[safe - b.startingBatchPos..])
  {
  }

  /** The safe L1 origin is compared with the one of the call before. One that moved back empties the window and
      reaches the lower streamer, which takes over the light client's height and starts over from it when it is
      lower than before; any other leaves window and lower streamer as they are. */
  lemma OriginBackIsFoundOut(b: Buffered, before: nat, light: Option<Height>, origin: nat, light': Option<Height>)
    requires CursorInv(b.lower)
    ensures
      var b1 := RefreshSafeL1Origin(b, before, light);
      var c := RefreshSafeL1Origin(b1, origin, light');
      if origin >= before then c == b1.(safeL1 := origin)
      else
        && c.batches == [] && c.readPos == 0 && c.startingBatchPos == 0
        && (light'.Some? && light'.value > b1.lower.originHotShotPos ==>
              && c.lower.fallbackHotShotPos == light'.value
              && (light'.value < b1.lower.fallbackHotShotPos ==>
                    c.lower.hotShotPos == light'.value && c.lower.nextBatchPos == c.lower.fallbackBatchPos + 1))
  {
  }

  /** When the safe L1 origin moves back, the wrapper forgets its window and its starting position. The Refresh
      that finds this out leaves it aligned exactly when the safe batch is 0 and the lower streamer starts over
      from there. */
  lemma OriginBackKeepsAlignedIff(b: Buffered, finalizedL1: L1BlockRef, batcher: Option<Address>, safe: BlockNumber,
                                  origin: nat, light: Option<Height>, light': Option<Height>)
    requires origin < b.safeL1
    ensures
      var c := Refresh(b, finalizedL1, batcher, safe, origin, light, light');
      && c.batches == [] && c.readPos == 0 && c.safeL1 == origin
      && c.lower.fallbackBatchPos == safe
      && (Aligned(c) <==> safe == 0 && c.lower.nextBatchPos == 1)
  {
  }

  /** A later Refresh that moves the safe batch on aligns it again exactly when the lower streamer then stands
      right behind that batch. */
  lemma RefreshRealignsIff(b: Buffered, finalizedL1: L1BlockRef, batcher: Option<Address>, safe: BlockNumber,
                           origin: nat, light: Option<Height>, light': Option<Height>)
    requires b.batches == [] && b.startingBatchPos < safe && b.safeL1 <= origin
    ensures
      var c := Refresh(b, finalizedL1, batcher, safe, origin, light, light');
      Aligned(c) <==> c.lower.nextBatchPos == safe + 1
  {
  }

  // ---------- the reference: one position over one consecutive log ----------

  /** The safe batch and the number to hand out next. */
  datatype Cursor = Cursor(safe: nat, pos: nat)

  function Rewound(c: Cursor): Cursor {
    Cursor(c.safe, c.safe + 1)
  }

  function MovedTo(c: Cursor, safe: nat): Cursor {
    Cursor(safe, if safe < c.safe then safe + 1 else Max(c.pos, safe + 1))
  }

  function Forward(c: Cursor): Cursor {
    Cursor(c.safe, c.pos + 1)
  }

  function CursorOf(b: Buffered): Cursor {
    Cursor(b.startingBatchPos, b.startingBatchPos + 1 + b.readPos)
  }

  function CursorOfStreamer(s: State): Cursor {
    Cursor(s.fallbackBatchPos, s.nextBatchPos)
  }

  /** SetProperHead cuts off what was fetched and not read, though the lower streamer is past it: the window
      stays aligned exactly when all of it was read. The cursor does not move. */
  lemma CutKeepsAlignedIff(b: Buffered, parent: Hash)
    requires Inv(b.lower) && Aligned(b)
    ensures
      var c := SetProperHead(b, parent);
      && (Aligned(c) <==> b.readPos == |b.batches|)
      && CursorOf(c) == CursorOf(b)
      && forall i | 0 <= i < b.readPos :: c.batches[i] == b.batches[i]
  {
  }

  /** SetProperHead reaches the lower streamer: with no stale entry there, the candidate it tries next has the
      wanted parent, or there is none. */
  lemma ProperHeadReachesLower(b: Buffered, env: Env, parent: Hash)
    requires Inv(b.lower) && b.readPos <= |b.batches|
    requires forall x | x in b.lower.buffer :: x.number >= b.lower.nextBatchPos
    ensures
      var t := SetProperHead(b, parent).lower;
      && t.head.None?
      && (|t.buffer| > 0 && t.buffer[0].number == t.nextBatchPos ==> t.buffer[0].parentHash == parent)
      && (|t.buffer| == 0 || t.buffer[0].number != t.nextBatchPos ==> StreamerSpec.HasNext(t, env) == (t, false))
  {
    ProperHeadPromotedNext(b.lower, env, parent);
  }

  /** Otherwise the numbers cut off are passed over: the next batch the wrapper hands out is the one behind them. */
  lemma CutPassesOver(b: Buffered, parent: Hash, env: Env, net: Network, rounds: nat)
    requires Inv(b.lower) && Aligned(b) && b.readPos < |b.batches|
    ensures
      var c := SetProperHead(b, parent);
      var out := Next(c.(lower := Update(c.lower, env, net, rounds).0), env).1;
      out.Some? ==> out.value.number == b.startingBatchPos + 1 + |b.batches| > CursorOf(b).pos
  {
    hide Update, StreamerSpec.Next;
    var c := SetProperHead(b, parent);
    SetProperHeadKeeps(b.lower, parent);
    UpdateNeverMovesBack(c.lower, env, net, rounds);
    NextKeeps(Update(c.lower, env, net, rounds).0, env);
  }

  /** What the window holds is what the log batchAt has at those numbers. */
  ghost predicate WindowFollows(b: Buffered, batchAt: nat -> Batch) {
    forall i | 0 <= i < |b.batches| :: b.batches[i] == batchAt(b.startingBatchPos + 1 + i)
  }

  datatype Event =
    | BUpdate(net: Network, rounds: nat)
    | BRefresh(finalizedL1: L1BlockRef, batcher: Option<Address>, safe: BlockNumber, origin: nat,
               light: Option<Height>, light': Option<Height>)
    | BRefreshSafeL1Origin(rOrigin: nat, rLight: Option<Height>)
    | BReset
    | BHasNext
    | BPeek
    | BNext

  /** One call; the second component is the batch that Next hands out or Peek shows, the third what HasNext
      answers. */
  function Step(b: Buffered, env: Env, e: Event): (Buffered, Option<Batch>, Option<bool>) {
    match e
    case BUpdate(net, rounds) => (b.(lower := Update(b.lower, env, net, rounds).0), None, None)
    case BRefresh(finalizedL1, batcher, safe, origin, light, light') =>
      (Refresh(b, finalizedL1, batcher, safe, origin, light, light'), None, None)
    case BRefreshSafeL1Origin(origin, light) => (RefreshSafeL1Origin(b, origin, light), None, None)
    case BReset => (Reset(b), None, None)
    case BHasNext => var (c, ready) := HasNext(b, env); (c, None, Some(ready))
    case BPeek => var (c, out) := Peek(b, env); (c, out, None)
    case BNext => var (c, out) := Next(b, env); (c, out, None)
  }

  /** The cursor's own move; handedOut tells whether Next had a batch to hand out. */
  function CursorStep(c: Cursor, e: Event, handedOut: bool): Cursor {
    match e
    case BRefresh(_, _, safe, _, _, _) => MovedTo(c, safe)
    case BReset => Rewound(c)
    case BNext => if handedOut then Forward(c) else c
    case _ => c
  }

  /** The call leaves the window usable: the safe L1 origin does not move back, and the lower streamer does not
      reset itself under a window that is kept. */
  predicate KeepsWindow(b: Buffered, e: Event) {
    match e
    case BRefresh(finalizedL1, batcher, safe, origin, light, light') =>
      && b.safeL1 <= origin
      && (!LowerResetsItself(b, finalizedL1, batcher, safe, light') || HandleL2PositionUpdate(b, safe).batches == [])
    case BRefreshSafeL1Origin(origin, _) => b.safeL1 <= origin
    case _ => true
  }

  /** And what the lower streamer has ready, when it is asked, is what the log batchAt has. */
  ghost predicate Quiet(b: Buffered, env: Env, batchAt: nat -> Batch, e: Event) {
    KeepsWindow(b, e) && (e.BPeek? || e.BNext? ==> LowerFollows(b, env, batchAt))
  }

  ghost predicate LowerFollows(b: Buffered, env: Env, batchAt: nat -> Batch) {
    var (lower, ready) := StreamerSpec.HasNext(b.lower, env);
    ready ==> lower.head == Some(batchAt(lower.nextBatchPos))
  }

  ghost predicate QuietRun(b: Buffered, env: Env, batchAt: nat -> Batch, es: seq<Event>)
    decreases |es|
  {
    es != [] ==> Quiet(b, env, batchAt, es[0]) && QuietRun(Step(b, env, es[0]).0, env, batchAt, es[1..])
  }

  /** What HasNext answers is whether Next would hand out a batch. */
  predicate Announces(b: Buffered, env: Env, said: Option<bool>) {
    said.Some? ==> (said.value <==> Next(b, env).1.Some?)
  }

  /** The run behaves like the cursor c over the log batchAt: whatever Next hands out or Peek shows is batchAt
      at the cursor's position, HasNext tells whether Next would hand it out, and every call moves the cursor as
      the reference does. */
  ghost predicate FollowsCursor(b: Buffered, env: Env, batchAt: nat -> Batch, c: Cursor, es: seq<Event>)
    decreases |es|
  {
    && CursorOf(b) == c
    && (es != [] ==>
          var (b1, out, said) := Step(b, env, es[0]);
          && (out.Some? ==> out.value == batchAt(c.pos))
          && Announces(b, env, said)
          && FollowsCursor(b1, env, batchAt, CursorStep(c, es[0], out.Some?), es[1..]))
  }

  lemma LowerStepKeeps(b: Buffered, env: Env, e: StreamerRuns.Event)
    requires Inv(b.lower) && Aligned(b)
    requires e.EvUpdate? || e.EvHasNext?
    ensures
      var c := b.(lower := StreamerRuns.Step(b.lower, env, e).0);
      Inv(c.lower) && Aligned(c)
  {
    match e
    case EvUpdate(net, rounds) => UpdateNeverMovesBack(b.lower, env, net, rounds);
    case EvHasNext => HasNextKeepsHead(b.lower, env);
  }

  /** The lower streamer after k calls of Next. */
  function Nexts(s: State, env: Env, k: nat): State
    decreases k
  {
    if k == 0 then s else Nexts(StreamerSpec.Next(s, env).0, env, k - 1)
  }

  /** In any state, aligned or not, fetching asks the lower streamer as long as it yields batches below the
      starting position, and ends with the first other one, or when it yields none. The batch fetched is the first
      one it can yield that is not below. */
  lemma {:induction false} NextFetchesFirstInWindow(b: Buffered, env: Env) returns (k: nat)
    requires Inv(b.lower)
    ensures
      var (c, out) := NextFromLower(b, env);
      && (forall j: nat | j < k ::
            var skipped := StreamerSpec.Next(Nexts(b.lower, env, j), env).1;
            skipped.Some? && skipped.value.number < b.startingBatchPos)
      && StreamerSpec.Next(Nexts(b.lower, env, k), env) == (c.lower, out)
      && (out.None? ==> c == b.(lower := c.lower))
      && (out.Some? ==>
            && out.value.number == Max(b.lower.nextBatchPos, b.startingBatchPos) == c.lower.nextBatchPos - 1
            && c == b.(lower := c.lower, batches := b.batches + [out.value], readPos := b.readPos + 1))
    decreases Size(b.lower)
  {
    hide StreamerSpec.HasNext;
    FetchShrinks(b.lower, env);
    NextKeeps(b.lower, env);
    var (lower, out) := StreamerSpec.Next(b.lower, env);
    k := 0;
    if out.Some? && out.value.number < b.startingBatchPos {
      var rest := NextFetchesFirstInWindow(b.(lower := lower), env);
      k := rest + 1;
      hide StreamerSpec.Next;
      assert forall j: nat :: Nexts(b.lower, env, j + 1) == Nexts(lower, env, j);
      forall j: nat | j < k
        ensures
          var skipped := StreamerSpec.Next(Nexts(b.lower, env, j), env).1;
          skipped.Some? && skipped.value.number < b.startingBatchPos
      {
        if j > 0 {
          assert Nexts(b.lower, env, j) == Nexts(lower, env, j - 1);
        }
      }
    }
  }

  /** The lower streamer after it was looked at and read k times. */
  function Looks(s: State, env: Env, k: nat): State
    decreases k
  {
    if k == 0 then s else Looks(StreamerSpec.Next(StreamerSpec.HasNext(s, env).0, env).0, env, k - 1)
  }

  /** Peek looks at the lower streamer in the same way, and shows the same batch without taking it. */
  lemma {:induction false} PeekShowsFirstInWindow(b: Buffered, env: Env) returns (k: nat)
    requires Inv(b.lower)
    ensures
      var (c, out) := PeekLower(b, env);
      var (lower, ready) := StreamerSpec.HasNext(Looks(b.lower, env, k), env);
      && (forall j: nat | j < k ::
            var (t, below) := StreamerSpec.HasNext(Looks(b.lower, env, j), env);
            below && t.head.Some? && t.head.value.number < b.startingBatchPos)
      && c == b.(lower := lower) && out == (if ready then lower.head else None)
      && (ready ==> lower.head.Some? && lower.head.value.number
                    == Max(b.lower.nextBatchPos, b.startingBatchPos) == lower.nextBatchPos)
    decreases Size(b.lower)
  {
    hide StreamerSpec.HasNext;
    HasNextShrinks(b.lower, env);
    HasNextKeepsHead(b.lower, env);
    var (lower, ready) := StreamerSpec.HasNext(b.lower, env);
    k := 0;
    if ready && lower.head.value.number < b.startingBatchPos {
      ReadyAgain(b.lower, env);
      NextKeeps(lower, env);
      var after := StreamerSpec.Next(lower, env).0;
      var rest := PeekShowsFirstInWindow(b.(lower := after), env);
      k := rest + 1;
      hide StreamerSpec.Next, Inv;
      forall j: nat | j < k
        ensures
          var (t, below) := StreamerSpec.HasNext(Looks(b.lower, env, j), env);
          below && t.head.Some? && t.head.value.number < b.startingBatchPos
      {
        if j > 0 {
          assert Looks(b.lower, env, j) == Looks(after, env, j - 1);
        }
      }
    }
  }

  /** Reading from an aligned wrapper: no batch of the lower streamer is passed over. */
  lemma NextReadsLower(b: Buffered, env: Env)
    requires Inv(b.lower) && Aligned(b)
    ensures
      var (lower, out) := StreamerSpec.Next(b.lower, env);
      Next(b, env) ==
        if b.readPos < |b.batches| then (b.(readPos := b.readPos + 1), Some(b.batches[b.readPos]))
        else if out.None? then (b.(lower := lower), None)
        else (b.(lower := lower, batches := b.batches + [out.value], readPos := b.readPos + 1), out)
  {
    hide StreamerSpec.Next;
    NextKeeps(b.lower, env);
  }

  lemma PeekReadsLower(b: Buffered, env: Env)
    requires Inv(b.lower) && Aligned(b)
    ensures
      var (lower, ready) := StreamerSpec.HasNext(b.lower, env);
      Peek(b, env) ==
        if b.readPos < |b.batches| then (b, Some(b.batches[b.readPos]))
        else (b.(lower := lower), if ready then lower.head else None)
  {
    hide StreamerSpec.HasNext;
    HasNextKeepsHead(b.lower, env);
  }

  /** HasNext answers true exactly when Next hands out a batch, Peek shows that batch, and asking first changes
      nothing of it. */
  lemma HasNextAnnouncesNext(b: Buffered, env: Env)
    requires Inv(b.lower) && Aligned(b)
    ensures
      var (c, ready) := HasNext(b, env);
      && (ready <==> Next(b, env).1.Some?)
      && Peek(b, env).1 == Next(b, env).1
      && (ready ==> Next(c, env).1 == Next(b, env).1)
  {
    hide StreamerSpec.HasNext, Next, Peek, Inv;
    NextReadsLower(b, env);
    PeekReadsLower(b, env);
    HasNextShrinks(b.lower, env);
    if b.readPos == |b.batches| && HasNext(b, env).1 {
      LowerStepKeeps(b, env, EvHasNext);
      ReadyAgain(b.lower, env);
      NextReadsLower(HasNext(b, env).0, env);
    }
  }

  lemma NextFollows(b: Buffered, env: Env, batchAt: nat -> Batch)
    requires Inv(b.lower) && Aligned(b) && WindowFollows(b, batchAt) && LowerFollows(b, env, batchAt)
    ensures
      var (c, out) := Next(b, env);
      && Inv(c.lower) && Aligned(c) && WindowFollows(c, batchAt)
      && CursorOf(c) == (if out.Some? then Forward(CursorOf(b)) else CursorOf(b))
      && (out.Some? ==> out.value == batchAt(CursorOf(b).pos))
  {
    hide Next, StreamerSpec.HasNext, Inv;
    NextKeeps(b.lower, env);
    NextReadsLower(b, env);
  }

  lemma PeekFollows(b: Buffered, env: Env, batchAt: nat -> Batch)
    requires Inv(b.lower) && Aligned(b) && WindowFollows(b, batchAt) && LowerFollows(b, env, batchAt)
    ensures
      var (c, out) := Peek(b, env);
      && Inv(c.lower) && Aligned(c) && WindowFollows(c, batchAt)
      && CursorOf(c) == CursorOf(b)
      && (out.Some? ==> out.value == batchAt(CursorOf(b).pos))
  {
    hide Peek, StreamerSpec.HasNext;
    HasNextKeepsHead(b.lower, env);
    PeekReadsLower(b, env);
  }

  lemma RefreshFollows(b: Buffered, batchAt: nat -> Batch, finalizedL1: L1BlockRef, batcher: Option<Address>,
                       safe: BlockNumber, origin: nat, light: Option<Height>, light': Option<Height>)
    requires Inv(b.lower) && Aligned(b) && WindowFollows(b, batchAt) && b.safeL1 <= origin
    requires !LowerResetsItself(b, finalizedL1, batcher, safe, light') || HandleL2PositionUpdate(b, safe).batches == []
    ensures
      var c := Refresh(b, finalizedL1, batcher, safe, origin, light, light');
      Inv(c.lower) && Aligned(c) && WindowFollows(c, batchAt) && CursorOf(c) == MovedTo(CursorOf(b), safe)
  {
    hide StreamerSpec.Refresh;
    hide LowerResetsItself;
    RefreshKeepsAlignedIff(b, finalizedL1, batcher, safe, origin, light, light');
    WindowTrimmed(b, safe);
    RefreshKeeps(HandleL2PositionUpdate(b, safe).lower, finalizedL1, batcher, safe, light');
  }

  lemma StepFollows(b: Buffered, env: Env, batchAt: nat -> Batch, e: Event)
    requires Inv(b.lower) && Aligned(b) && WindowFollows(b, batchAt) && Quiet(b, env, batchAt, e)
    ensures
      var (c, out, said) := Step(b, env, e);
      && Inv(c.lower) && Aligned(c) && WindowFollows(c, batchAt)
      && CursorOf(c) == CursorStep(CursorOf(b), e, out.Some?)
      && (out.Some? ==> out.value == batchAt(CursorOf(b).pos))
      && Announces(b, env, said)
  {
    hide Refresh, LowerResetsItself, Next, Peek, Update, StreamerSpec.HasNext;
    match e
    case BUpdate(net, rounds) => LowerStepKeeps(b, env, EvUpdate(net, rounds));
    case BRefresh(finalizedL1, batcher, safe, origin, light, light') =>
      RefreshFollows(b, batchAt, finalizedL1, batcher, safe, origin, light, light');
    case BRefreshSafeL1Origin(_, _) =>
    case BReset =>
    case BHasNext =>
      LowerStepKeeps(b, env, EvHasNext);
      HasNextAnnouncesNext(b, env);
    case BPeek => PeekFollows(b, env, batchAt);
    case BNext => NextFollows(b, env, batchAt);
  }

  /** Replay refines rewinding: from an aligned state on, every quiet run behaves like one position over one
      consecutive log, with Reset going back to the batch after the safe one and the same batches coming again. */
  lemma {:induction false} ReplayRefinesRewinding(b: Buffered, env: Env, batchAt: nat -> Batch, es: seq<Event>)
    requires Inv(b.lower) && Aligned(b) && WindowFollows(b, batchAt) && QuietRun(b, env, batchAt, es)
    ensures FollowsCursor(b, env, batchAt, CursorOf(b), es)
    decreases |es|
  {
    if es != [] {
      StepFollows(b, env, batchAt, es[0]);
      ReplayRefinesRewinding(Step(b, env, es[0]).0, env, batchAt, es[1..]);
    }
  }

  /** The bare streamer moves the same cursor: its own Reset, Refresh and Next make the reference moves as
      long as it does not reset itself on HotShot heights. */
  lemma BareStreamerMovesCursor(s: State, env: Env, finalizedL1: L1BlockRef, batcher: Option<Address>,
                                safe: BlockNumber, light: Option<Height>)
    requires Inv(s)
    ensures CursorOfStreamer(StreamerSpec.Reset(s)) == Rewound(CursorOfStreamer(s))
    ensures
      var (t, out) := StreamerSpec.Next(s, env);
      CursorOfStreamer(t) == (if out.Some? then Forward(CursorOfStreamer(s)) else CursorOfStreamer(s))
    ensures
      var (s1, shouldReset) := ConfirmHeight(SeeL1(s, finalizedL1, batcher), light);
      !shouldReset && (safe == s.fallbackBatchPos || s1.fallbackHotShotPos <= s1.hotShotPos) ==>
        CursorOfStreamer(StreamerSpec.Refresh(s, finalizedL1, batcher, safe, light))
        == MovedTo(CursorOfStreamer(s), safe)
  {
    HasNextShrinks(s, env);
  }
}
