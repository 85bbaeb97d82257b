/** What a Nitro scan covers, in every run: the completed ranges tile the log, and each payload of a range that was
    listed and not disturbed is handed over once, in order. */
module NitroTiles {
  import opened Batches
  import opened NitroSpec

  /** The ranges are consecutive, start at from, end at to, and are 1 to 100 blocks long. */
  predicate Tiles(tiles: seq<Tile>, from: nat, to: nat) {
    if tiles == [] then from == to
    else
      var last := tiles[|tiles| - 1];
      && last.start < last.until <= last.start + HOTSHOT_RANGE_LIMIT && last.until == to
      && Tiles(tiles[..|tiles| - 1], from, last.start)
  }

  /** The payloads of the whole ranges, in order. */
  function TilePayloads<P>(log: nat -> seq<P>, tiles: seq<Tile>): seq<P> {
    if tiles == [] then []
    else
      var last := tiles[|tiles| - 1];
      TilePayloads(log, tiles[..|tiles| - 1]) + (if last.whole then Payloads(log, last.start, last.until) else [])
  }

  /** The range was read whole, or has nothing to read. */
  ghost predicate Read<P>(log: nat -> seq<P>, tile: Tile) {
    tile.whole || Payloads(log, tile.start, tile.until) == []
  }

  ghost predicate TileInv<P, C>(y: System<P, C>, env: Env<P, C>) {
    && Tiles(y.tiles, y.from, y.s.nextHotshotBlockNum)
    && (if y.fetch.Fetching? && y.fetch.whole
        then
          && y.fetch.start == y.s.nextHotshotBlockNum < y.fetch.until
          && y.handed + y.fetch.todo == TilePayloads(env.log, y.tiles) + Payloads(env.log, y.fetch.start, y.fetch.until)
        else y.handed == TilePayloads(env.log, y.tiles))
  }

  lemma OneMoreTile<P>(log: nat -> seq<P>, tiles: seq<Tile>, from: nat, tile: Tile)
    requires Tiles(tiles, from, tile.start) && tile.start < tile.until <= tile.start + HOTSHOT_RANGE_LIMIT
    ensures Tiles(tiles + [tile], from, tile.until)
    ensures TilePayloads(log, tiles + [tile])
         == TilePayloads(log, tiles) + (if tile.whole then Payloads(log, tile.start, tile.until) else [])
  {
    assert (tiles + [tile])[..|tiles|] == tiles;
  }

  lemma StepKeepsTiles<P, C>(y: System<P, C>, env: Env<P, C>, e: Event)
    requires TileInv(y, env) && HeightInv(y.s) && FetchInv(y)
    ensures TileInv(Step(y, env, e), env)
  {
    hide Tiles, TilePayloads, Payloads, HeightInv;
    match e
    case EvBegin(_, _) =>
      assert y.handed + [] == y.handed;
    case EvPayload =>
      if y.fetch.Fetching? && y.fetch.todo != [] {
        InsertAllKeepsHeights(y.s, env.read(y.fetch.todo[0], y.fetch.l1Height));
        assert y.handed + [y.fetch.todo[0]] + y.fetch.todo[1..] == y.handed + y.fetch.todo;
      }
    case EvFinish =>
      if y.fetch.Fetching? && y.fetch.todo == [] {
        assert y.handed + [] == y.handed;
        var tile := Tile(y.fetch.start, y.fetch.until, y.fetch.whole);
        if y.s.nextHotshotBlockNum == tile.start < tile.until {
          OneMoreTile(env.log, y.tiles, y.from, tile);
        }
      }
    case EvReset(_, block) => NoTiles(env.log, block);
    case EvAdvance =>
    case EvAdvanceTo(_) =>
  }

  lemma NoTiles<P>(log: nat -> seq<P>, from: nat)
    ensures Tiles([], from, from) && TilePayloads(log, []) == []
  {
  }

  lemma {:induction false} RunKeepsTiles<P, C>(y: System<P, C>, env: Env<P, C>, es: seq<Event>)
    requires TileInv(y, env) && HeightInv(y.s) && FetchInv(y)
    ensures TileInv(Run(y, env, es), env)
    decreases |es|
  {
    hide TileInv, HeightInv;
    if es != [] {
      StepKeepsTiles(y, env, es[0]);
      StepKeepsHeights(y, env, es[0]);
      RunKeepsTiles(Step(y, env, es[0]), env, es[1..]);
    }
  }

  lemma {:induction false} PayloadsSplit<P>(log: nat -> seq<P>, from: nat, mid: nat, to: nat)
    requires from <= mid <= to
    ensures Payloads(log, from, to) == Payloads(log, from, mid) + Payloads(log, mid, to)
  {
    if mid == to {
      assert Payloads(log, from, mid) + [] == Payloads(log, from, mid);
    } else {
      PayloadsSplit(log, from, mid, to - 1);
      ConcatAssociates(Payloads(log, from, mid), Payloads(log, mid, to - 1), log(to - 1));
    }
  }

  lemma {:induction false} ReadTilesCover<P>(log: nat -> seq<P>, tiles: seq<Tile>, from: nat, to: nat)
    requires Tiles(tiles, from, to) && forall t | t in tiles :: Read(log, t)
    ensures from <= to && TilePayloads(log, tiles) == Payloads(log, from, to)
  {
    if tiles != [] {
      var last := tiles[|tiles| - 1];
      assert last in tiles;
      ReadTilesCover(log, tiles[..|tiles| - 1], from, last.start);
      PayloadsSplit(log, from, last.start, to);
    }
  }

  /** In every reachable state, whatever Resets come inside a fetch, whatever the service answers and however
      signatures are judged: the completed ranges since the last Reset are consecutive, at most a hundred blocks
      long, and cover the blocks from there to nextHotshotBlockNum. Between fetches the payloads handed over are
      those of the whole ranges, each once and in order; they are all payloads of the covered blocks when every
      range was read whole or holds none. */
  lemma ScanningTilesTheLog<P, C>(nextHotshotBlockNum: nat, startMessagePos: nat, env: Env<P, C>, es: seq<Event>)
    ensures
      var y := Run(Start(nextHotshotBlockNum, startMessagePos), env, es);
      && Tiles(y.tiles, y.from, y.s.nextHotshotBlockNum)
      && (y.fetch.Idle? ==> y.handed == TilePayloads(env.log, y.tiles))
      && (y.fetch.Idle? && (forall t | t in y.tiles :: Read(env.log, t)) ==>
            y.handed == Payloads(env.log, y.from, y.s.nextHotshotBlockNum))
  {
    RunKeepsTiles(Start(nextHotshotBlockNum, startMessagePos), env, es);
    var y := Run(Start(nextHotshotBlockNum, startMessagePos), env, es);
    if forall t | t in y.tiles :: Read(env.log, t) {
      ReadTilesCover(env.log, y.tiles, y.from, y.s.nextHotshotBlockNum);
    }
  }

  // ---------- when every range is read ----------

  /** No Reset comes inside a fetch, and an empty answer is given only for a range without payloads. */
  ghost predicate Undisturbed<P, C>(y: System<P, C>, env: Env<P, C>, es: seq<Event>)
    decreases |es|
  {
    es != [] ==>
      && (es[0].EvReset? ==> y.fetch.Idle?)
      && (es[0].EvBegin? && es[0].answer.RangeEmpty? && es[0].latest.Some? ==>
            var from := y.s.nextHotshotBlockNum;
            Payloads(env.log, from, Until(from, es[0].latest.value)) == [])
      && Undisturbed(Step(y, env, es[0]), env, es[1..])
  }

  ghost predicate AllRead<P, C>(y: System<P, C>, env: Env<P, C>) {
    && (forall t | t in y.tiles :: Read(env.log, t))
    && (y.fetch.Fetching? ==> Read(env.log, Tile(y.fetch.start, y.fetch.until, y.fetch.whole)))
  }

  lemma {:induction false} UndisturbedReadsAll<P, C>(y: System<P, C>, env: Env<P, C>, es: seq<Event>)
    requires AllRead(y, env) && Undisturbed(y, env, es)
    ensures AllRead(Run(y, env, es), env)
    decreases |es|
  {
    if es != [] {
      UndisturbedReadsAll(Step(y, env, es[0]), env, es[1..]);
    }
  }

  /** Then every payload since the last Reset is handed over exactly once and in order. */
  lemma EveryPayloadOnce<P, C>(nextHotshotBlockNum: nat, startMessagePos: nat, env: Env<P, C>, es: seq<Event>)
    requires Undisturbed(Start(nextHotshotBlockNum, startMessagePos), env, es)
    ensures
      var y := Run(Start(nextHotshotBlockNum, startMessagePos), env, es);
      y.fetch.Idle? ==> y.handed == Payloads(env.log, y.from, y.s.nextHotshotBlockNum)
  {
    ScanningTilesTheLog(nextHotshotBlockNum, startMessagePos, env, es);
    UndisturbedReadsAll(Start(nextHotshotBlockNum, startMessagePos), env, es);
  }

  /** A fetch that fails on the height, the range or the header processes nothing and moves nothing. */
  lemma FailedFetchMovesNothing<P, C>(y: System<P, C>, env: Env<P, C>, latest: Option<nat>, answer: RangeAnswer)
    requires y.fetch.Idle?
    requires
      || latest.None?
      || (Until(y.s.nextHotshotBlockNum, latest.value) > y.s.nextHotshotBlockNum
          && (answer.RangeFailed? || answer == RangeServed(None)))
    ensures Step(y, env, EvBegin(latest, answer)) == y
  {
  }
}
