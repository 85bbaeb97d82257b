/** The Nitro streamer as the program keeps it: fields and a map changed in place under a lock. Every method is
    tied to the function of the same name in NitroSpec. */
module NitroStreamers {
  import opened Batches
  import opened NitroBytes
  import opened NitroExtract
  import opened V1Codec
  import V1Binary
  import opened NitroSpec
  import NitroRestart

  /** VerifySignature of version 1: the loop that keeps the validly signed messages. */
  method VerifyV1<M>(verifier: Verifier<M>, l1Height: nat, ms: Feed<M>) returns (messages: Feed<M>)
    ensures messages == ValidMessages(verifier, l1Height, ms)
  {
    messages := [];
    for i := 0 to |ms|
      invariant messages == ValidMessages(verifier, l1Height, ms[..i])
    {
      assert ms[..i + 1][..i] == ms[..i];
      if !verifier.v1(ms[i], l1Height) {
        continue;
      }
      messages := messages + [ms[i]];
    }
    assert ms[..|ms|] == ms;
  }

  /** Hands out the messages of a payload one by one, with the height they are given. */
  class MessageIterator<M> {
    const message: Payload<M>
    var position: nat

    constructor (message: Payload<M>)
      ensures this.message == message && position == 0
    {
      this.message := message;
      position := 0;
    }

    method NextMessage() returns (msg: Option<Msg<M>>)
      modifies this
      ensures msg == if old(position) < Count(message) then Some(MessageAt(message, old(position))) else None
      ensures position == if msg.Some? then old(position) + 1 else old(position)
    {
      if position >= Count(message) {
        return None;
      }
      var index := position;
      position := position + 1;
      msg := Some(MessageAt(message, index));
    }
  }

  lemma {:induction false} InsertAllConcat<C>(s: State<C>, a: seq<Msg<C>>, b: seq<Msg<C>>)
    ensures InsertAll(s, a + b) == InsertAll(InsertAll(s, a), b)
    decreases |a|
  {
    if a == [] {
      assert a + b == b;
    } else {
      assert (a + b)[1..] == a[1..] + b;
      InsertAllConcat(Insert(s, a[0]), a[1..], b);
    }
  }

  lemma OneBlockMore<P, C>(s: State<C>, env: Env<P, C>, from: nat, b: nat, l1Height: nat)
    requires from <= b
    ensures InsertAll(s, Messages(env, Payloads(env.log, from, b + 1), l1Height))
         == InsertAll(InsertAll(s, Messages(env, Payloads(env.log, from, b), l1Height)),
                      Messages(env, env.log(b), l1Height))
  {
    NitroRestart.MessagesConcat(env, Payloads(env.log, from, b), env.log(b), l1Height);
    InsertAllConcat(s, Messages(env, Payloads(env.log, from, b), l1Height), Messages(env, env.log(b), l1Height));
  }

  lemma OnePayloadMore<P, C>(s: State<C>, env: Env<P, C>, ps: seq<P>, l1Height: nat)
    requires ps != []
    ensures InsertAll(s, Messages(env, ps, l1Height))
         == InsertAll(InsertAll(s, env.read(ps[0], l1Height)), Messages(env, ps[1..], l1Height))
  {
    InsertAllConcat(s, env.read(ps[0], l1Height), Messages(env, ps[1..], l1Height));
  }

  /** A whole fetch with nothing in between: the payloads are inserted, then the next block moves. */
  function Queue<P, C>(s: State<C>, env: Env<P, C>, latest: Option<nat>, answer: RangeAnswer): State<C> {
    match Begin(env.log, s.nextHotshotBlockNum, latest, answer)
    case Idle => s
    case Fetching(_, until, todo, l1Height, _) =>
      InsertAll(s, Messages(env, todo, l1Height)).(nextHotshotBlockNum := until)
  }

  lemma {:induction false} FetchInSteps<P, C>(y: System<P, C>, env: Env<P, C>) returns (es: seq<Event>)
    requires y.fetch.Fetching? && y.s.nextHotshotBlockNum == y.fetch.start && HeightInv(y.s)
    ensures forall e | e in es :: e.EvPayload? || e.EvFinish?
    ensures
      var z := Run(y, env, es);
      && z.fetch.Idle?
      && z.s == InsertAll(y.s, Messages(env, y.fetch.todo, y.fetch.l1Height)).(nextHotshotBlockNum := y.fetch.until)
    decreases |y.fetch.todo|
  {
    if y.fetch.todo == [] {
      es := [EvFinish];
      assert es[1..] == [];
      assert Run(y, env, es) == Step(y, env, EvFinish);
    } else {
      InsertAllKeepsHeights(y.s, env.read(y.fetch.todo[0], y.fetch.l1Height));
      OnePayloadMore(y.s, env, y.fetch.todo, y.fetch.l1Height);
      var rest := FetchInSteps(Step(y, env, EvPayload), env);
      es := [EvPayload] + rest;
      assert es[1..] == rest;
    }
  }

  /** That is what the locked sections do when no other call comes between them. */
  lemma QueueIsSteps<P, C>(y: System<P, C>, env: Env<P, C>, latest: Option<nat>, answer: RangeAnswer)
    returns (es: seq<Event>)
    requires y.fetch.Idle? && HeightInv(y.s)
    ensures forall e | e in es :: e.EvPayload? || e.EvFinish?
    ensures
      var z := Run(y, env, [EvBegin(latest, answer)] + es);
      z.fetch.Idle? && z.s == Queue(y.s, env, latest, answer)
  {
    var y1 := Step(y, env, EvBegin(latest, answer));
    es := [];
    if y1.fetch.Fetching? {
      es := FetchInSteps(y1, env);
    }
    assert ([EvBegin(latest, answer)] + es)[1..] == es;
  }

  lemma OneMoreRemoved<C>(msgs: map<nat, Stored<C>>, from: nat, to: nat)
    requires from <= to
    ensures Without(msgs, from, to + 1) == Without(msgs, from, to) - {to}
    ensures Without(msgs, from, from) == msgs
  {
  }

  class EspressoStreamer<M> {
    const codecs: Codecs<M>
    const verifier: Verifier<M>
    var nextHotshotBlockNum: nat
    var currentMessagePos: nat
    var messageWithMetadataAndPos: map<nat, Stored<M>>
    var highestPos: nat

    ghost function Abs(): State<M>
      reads this
    {
      State(nextHotshotBlockNum, currentMessagePos, highestPos, messageWithMetadataAndPos)
    }

    /** The part of the streamer's invariant that its loops rely on. */
    ghost predicate Valid()
      reads this
    {
      HeightInv(Abs())
    }

    constructor (codecs: Codecs<M>, verifier: Verifier<M>, nextHotshotBlockNum: nat, startMessagePos: nat)
      ensures Valid() && Abs() == Create(nextHotshotBlockNum, startMessagePos)
      ensures this.codecs == codecs && this.verifier == verifier
    {
      this.codecs, this.verifier := codecs, verifier;
      this.nextHotshotBlockNum := nextHotshotBlockNum;
      currentMessagePos, highestPos := startMessagePos, 1;
      messageWithMetadataAndPos := map[];
    }

    method Reset(pos: nat, block: nat)
      modifies this
      ensures Valid() && Abs() == NitroSpec.Reset(old(Abs()), pos, block)
    {
      currentMessagePos := pos;
      nextHotshotBlockNum := block;
      highestPos := pos;
      messageWithMetadataAndPos := map[];
    }

    /** The current message: whatever was taken since the last Reset, the first message there at the current
        position, or none if there was none. */
    method Peek() returns (msg: Option<Stored<M>>)
      ensures forall taken | FirstWins(Abs(), taken) ::
                First(taken, currentMessagePos) == if msg.Some? then Some(msg.value.content) else None
      ensures msg.Some? ==> currentMessagePos in messageWithMetadataAndPos
                            && msg.value.height == messageWithMetadataAndPos[currentMessagePos].height
    {
      msg := if currentMessagePos in messageWithMetadataAndPos
             then Some(messageWithMetadataAndPos[currentMessagePos]) else None;
    }

    method Advance()
      requires Valid()
      modifies this
      ensures Valid() && Abs() == NitroSpec.Advance(old(Abs()))
    {
      messageWithMetadataAndPos := messageWithMetadataAndPos - {currentMessagePos};
      currentMessagePos := currentMessagePos + 1;
    }

    method AdvanceTo(toPos: nat)
      requires Valid()
      modifies this
      ensures Valid() && Abs() == NitroSpec.AdvanceTo(old(Abs()), toPos)
    {
      if toPos <= currentMessagePos {
        return;
      }
      hide HeightInv, Without;
      AdvanceToKeepsHeights(Abs(), toPos);
      DeleteUpTo(toPos);
      currentMessagePos := toPos;
    }

    /** The loop that deletes the positions from the current one to toPos. */
    method DeleteUpTo(toPos: nat)
      requires currentMessagePos <= toPos
      modifies this`messageWithMetadataAndPos
      ensures messageWithMetadataAndPos == Without(old(messageWithMetadataAndPos), currentMessagePos, toPos)
    {
      hide Without;
      ghost var was := messageWithMetadataAndPos;
      OneMoreRemoved(was, currentMessagePos, currentMessagePos);
      var pos := currentMessagePos;
      while pos < toPos
        invariant currentMessagePos <= pos <= toPos
        invariant messageWithMetadataAndPos == Without(was, currentMessagePos, pos)
      {
        OneMoreRemoved(was, currentMessagePos, pos);
        messageWithMetadataAndPos := messageWithMetadataAndPos - {pos};
        pos := pos + 1;
      }
    }

    /** The end of the run of consecutive positions that starts at currentMessagePos. */
    method GetMessageCount() returns (count: nat)
      requires Valid()
      ensures count >= currentMessagePos && count !in messageWithMetadataAndPos
      ensures forall q | currentMessagePos <= q < count :: q in messageWithMetadataAndPos
    {
      count := currentMessagePos;
      while count in messageWithMetadataAndPos
        invariant count >= currentMessagePos
        invariant forall q | currentMessagePos <= q < count :: q in messageWithMetadataAndPos
        decreases highestPos + 1 - count
      {
        count := count + 1;
      }
    }

    method GetCurrentEarliestHotShotBlockNumber(pos: nat) returns (height: nat)
      requires Valid()
      ensures height == Earliest(Abs(), pos) && LeastHeight(Abs(), pos, height)
    {
      EarliestIsLeast(Abs(), pos);
      if |messageWithMetadataAndPos| == 0 {
        return nextHotshotBlockNum;
      }
      if pos in messageWithMetadataAndPos {
        return messageWithMetadataAndPos[pos].height;
      }
      height := nextHotshotBlockNum;
      var left := messageWithMetadataAndPos.Keys;
      while left != {}
        invariant left <= messageWithMetadataAndPos.Keys
        invariant height <= nextHotshotBlockNum
        invariant forall q | q in messageWithMetadataAndPos && q !in left && q >= pos ::
                    height <= messageWithMetadataAndPos[q].height
        invariant height == nextHotshotBlockNum
                  || exists q :: q in messageWithMetadataAndPos && q >= pos
                                 && messageWithMetadataAndPos[q].height == height
        decreases |left|
      {
        var nextPos :| nextPos in left;
        left := left - {nextPos};
        if nextPos >= pos && messageWithMetadataAndPos[nextPos].height < height {
          height := messageWithMetadataAndPos[nextPos].height;
        }
      }
      assert LeastHeight(Abs(), pos, height);
    }

    /** The loop that looks for a higher position read from an earlier block. */
    method LowestAbove(pos: nat) returns (currHeight: nat)
      ensures currHeight == Lowered(messageWithMetadataAndPos, pos + 1, highestPos, nextHotshotBlockNum)
    {
      currHeight := nextHotshotBlockNum;
      var nextPos := pos + 1;
      while nextPos <= highestPos
        invariant Lowered(messageWithMetadataAndPos, nextPos, highestPos, currHeight)
               == Lowered(messageWithMetadataAndPos, pos + 1, highestPos, nextHotshotBlockNum)
        decreases highestPos + 1 - nextPos
      {
        if nextPos in messageWithMetadataAndPos && messageWithMetadataAndPos[nextPos].height < currHeight {
          currHeight := messageWithMetadataAndPos[nextPos].height;
        }
        nextPos := nextPos + 1;
      }
    }

    method InsertOne(msg: Msg<M>)
      requires Valid()
      modifies this`highestPos, this`messageWithMetadataAndPos
      ensures Valid() && Abs() == Insert(old(Abs()), msg)
    {
      hide Lowered, HeightInv;
      InsertKeepsHeights(Abs(), msg);
      if msg.pos < currentMessagePos || msg.pos in messageWithMetadataAndPos {
        return;
      }
      if msg.pos > highestPos {
        highestPos := msg.pos;
      }
      var currHeight := LowestAbove(msg.pos);
      messageWithMetadataAndPos := messageWithMetadataAndPos[msg.pos := Stored(msg.content, currHeight)];
    }

    method InsertFrom(payload: Payload<M>)
      requires Valid()
      modifies this`highestPos, this`messageWithMetadataAndPos
      ensures Valid() && Abs() == InsertAll(old(Abs()), MessagesFrom(payload, 0))
    {
      var it := new MessageIterator(payload);
      ghost var goal := InsertAll(Abs(), MessagesFrom(payload, 0));
      while true
        invariant Valid() && it.message == payload && it.position <= Count(payload)
        invariant InsertAll(Abs(), MessagesFrom(payload, it.position)) == goal
        decreases Count(payload) - it.position
      {
        ghost var i := it.position;
        var msg := it.NextMessage();
        if msg.None? {
          break;
        }
        assert MessagesFrom(payload, i)[1..] == MessagesFrom(payload, i + 1);
        InsertOne(msg.value);
      }
    }

    method ParseEspressoTransaction(tx: Bytes, l1Height: nat) returns (ok: bool)
      requires Valid() && |tx| <= MAX_SLICE
      modifies this`highestPos, this`messageWithMetadataAndPos
      ensures Valid() && Abs() == InsertAll(old(Abs()), Extract(codecs, verifier, tx, l1Height))
    {
      var message := V1Binary.ParseNitroMessagesFromHotShot(codecs, tx);
      if message.Err? || Count(message.value) == 0 {
        return false;
      }
      var kept := message.value;
      if kept.V0Payload? {
        if !verifier.v0(kept.v0.hash, kept.v0.signature, l1Height) {
          return false;
        }
      } else {
        var valid := VerifyV1(verifier, l1Height, kept.v1);
        kept := V1Payload(valid);
      }
      InsertFrom(kept);
      ok := true;
    }

    /** What a transaction of the log yields. */
    ghost function EnvOf(log: nat -> seq<Bytes>): Env<Bytes, M> {
      Env(log, (tx: Bytes, l1Height: nat) => Extract(codecs, verifier, tx, l1Height))
    }

    /** fetchNextHotshotBlock, handing its transactions to the parser; None when it fails. log is what the range
        request returns, one entry per block; the height and header requests may fail. */
    method FetchNextHotshotBlock(log: nat -> seq<Bytes>, latest: Option<nat>, answer: RangeAnswer)
      returns (toBlock: Option<nat>)
      requires Valid() && forall b: nat, tx | tx in log(b) :: |tx| <= MAX_SLICE
      modifies this`highestPos, this`messageWithMetadataAndPos
      ensures Valid()
      ensures
        match Begin(log, nextHotshotBlockNum, latest, answer)
        case Idle => toBlock == None && Abs() == old(Abs())
        case Fetching(_, until, todo, l1Height, _) =>
          toBlock == Some(until) && Abs() == InsertAll(old(Abs()), Messages(EnvOf(log), todo, l1Height))
    {
      hide HeightInv, Payloads, Extract;
      if latest.None? {
        return None;
      }
      var fromBlock, untilBlock := nextHotshotBlockNum, latest.value;
      if fromBlock > untilBlock {
        return Some(fromBlock);
      }
      if untilBlock - fromBlock > HOTSHOT_RANGE_LIMIT {
        untilBlock := fromBlock + HOTSHOT_RANGE_LIMIT;
      }
      if fromBlock == untilBlock {
        return Some(fromBlock);
      }
      if answer.RangeFailed? || answer == RangeServed(None) {
        return None;
      }
      if answer.RangeServed? {
        HandOver(log, fromBlock, untilBlock, answer.l1Height.value);
      }
      toBlock := Some(untilBlock);
    }

    /** A fetch and the move of the next block, with no other call in between. */
    method QueueMessagesFromHotshot(log: nat -> seq<Bytes>, latest: Option<nat>, answer: RangeAnswer)
      returns (ok: bool)
      requires Valid() && forall b: nat, tx | tx in log(b) :: |tx| <= MAX_SLICE
      modifies this
      ensures Valid() && Abs() == Queue(old(Abs()), EnvOf(log), latest, answer)
      ensures ok <==> Begin(log, old(nextHotshotBlockNum), latest, answer).Fetching?
    {
      hide HeightInv, InsertAll, Messages, Payloads, Extract;
      var startHotshotBlockNum := nextHotshotBlockNum;
      var toBlock := FetchNextHotshotBlock(log, latest, answer);
      if toBlock.None? {
        return false;
      }
      MovingOnKeepsHeights(Abs(), toBlock.value);
      if nextHotshotBlockNum == startHotshotBlockNum {
        nextHotshotBlockNum := toBlock.value;
      }
      ok := true;
    }

    /** Hands every transaction of blocks [fromBlock, untilBlock) to the parser. */
    method HandOver(log: nat -> seq<Bytes>, fromBlock: nat, untilBlock: nat, l1Height: nat)
      requires Valid() && fromBlock <= untilBlock && forall b: nat, tx | tx in log(b) :: |tx| <= MAX_SLICE
      modifies this`highestPos, this`messageWithMetadataAndPos
      ensures Valid()
      ensures Abs() == InsertAll(old(Abs()), Messages(EnvOf(log), Payloads(log, fromBlock, untilBlock), l1Height))
    {
      ghost var s0 := Abs();
      var b := fromBlock;
      while b < untilBlock
        invariant fromBlock <= b <= untilBlock && Valid()
        invariant InsertAll(s0, Messages(EnvOf(log), Payloads(log, fromBlock, b), l1Height)) == Abs()
      {
        HandOverNext(log, s0, fromBlock, b, l1Height);
        b := b + 1;
      }
    }

    /** One more block of the range that began with state s. */
    method HandOverNext(log: nat -> seq<Bytes>, ghost s: State<M>, fromBlock: nat, b: nat, l1Height: nat)
      requires Valid() && fromBlock <= b && forall tx | tx in log(b) :: |tx| <= MAX_SLICE
      requires Abs() == InsertAll(s, Messages(EnvOf(log), Payloads(log, fromBlock, b), l1Height))
      modifies this`highestPos, this`messageWithMetadataAndPos
      ensures Valid() && Abs() == InsertAll(s, Messages(EnvOf(log), Payloads(log, fromBlock, b + 1), l1Height))
    {
      OneBlockMore(s, EnvOf(log), fromBlock, b, l1Height);
      HandOverBlock(log, b, l1Height);
    }

    method HandOverBlock(log: nat -> seq<Bytes>, b: nat, l1Height: nat)
      requires Valid() && forall tx | tx in log(b) :: |tx| <= MAX_SLICE
      modifies this`highestPos, this`messageWithMetadataAndPos
      ensures Valid() && Abs() == InsertAll(old(Abs()), Messages(EnvOf(log), log(b), l1Height))
    {
      var txs := log(b);
      ghost var goal := InsertAll(Abs(), Messages(EnvOf(log), txs, l1Height));
      for k := 0 to |txs|
        invariant Valid()
        invariant InsertAll(Abs(), Messages(EnvOf(log), txs[k..], l1Height)) == goal
      {
        assert txs[k..][1..] == txs[k + 1..];
        OnePayloadMore(Abs(), EnvOf(log), txs[k..], l1Height);
        var parsed := ParseEspressoTransaction(txs[k], l1Height);
      }
    }
  }
}
