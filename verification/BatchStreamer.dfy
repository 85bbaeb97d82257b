/** The batch streamer as the program keeps it: fields changed in place, a head pointer into arrays the buffer
    has given up, and loops. Every method is tied to the function of the same name in StreamerSpec. */
module BatchStreamers {
  import opened Batches
  import BufferSpec
  import opened BatchBuffers
  import L1Check
  import opened StreamerSpec

  const BATCH_BUFFER_CAPACITY: nat := 1024

  class BatchStreamer {
    const env: Env
    const buffer: BatchBuffer
    var nextBatchPos: nat
    var fallbackBatchPos: BlockNumber
    var hotShotPos: Height
    var fallbackHotShotPos: Height
    const originHotShotPos: Height
    var skipPos: Uint64
    var head: Option<Cell>
    var finalizedL1: L1Check.L1BlockRef
    var espressoBatcher: Address
    var cache: map<nat, L1Check.L1Entry>
    /** How many checks were made; it tells the calls to L1 apart. */
    var calls: nat
    ghost var history: History

    ghost predicate Valid()
      reads this, buffer, buffer.Repr
    {
      && buffer.Valid()
      && this !in buffer.Repr
      && (head.Some? ==> head.value in buffer.lent)
    }

    ghost function Abs(): State
      requires Valid()
      reads this, buffer, buffer.Repr
    {
      State(nextBatchPos, fallbackBatchPos, hotShotPos, fallbackHotShotPos, originHotShotPos, skipPos,
            if head.Some? then Some(buffer.lent[head.value]) else None,
            buffer.Contents(), buffer.capacity,
            L1Check.L1View(finalizedL1, espressoBatcher, cache, calls), history)
    }

    /** Nothing that was handed out before has changed. */
    twostate predicate Evolved()
      requires old(Valid())
      reads this, buffer, buffer.Repr
    {
      Valid() && buffer.KeepsLent() && fresh(buffer.Repr - old(buffer.Repr))
    }

    constructor (env: Env, originHotShotPos: Height, originBatchPos: BlockNumber)
      ensures Valid() && fresh(buffer.Repr) && this.env == env
      ensures Abs() == Create(originHotShotPos, originBatchPos, 1024)
    {
      this.env := env;
      buffer := new BatchBuffer(BATCH_BUFFER_CAPACITY);
      nextBatchPos, fallbackBatchPos := originBatchPos + 1, originBatchPos;
      this.originHotShotPos := originHotShotPos;
      hotShotPos, fallbackHotShotPos, skipPos := originHotShotPos, originHotShotPos, MAX_UINT64;
      head := None;
      finalizedL1, espressoBatcher, cache, calls := L1Check.ZERO_REF, ZERO_ADDRESS, map[], 0;
      history := NewHistory(0, originHotShotPos);
    }

    method Reset()
      requires Valid()
      modifies this, buffer.Repr
      ensures Evolved() && Abs() == StreamerSpec.Reset(old(Abs()))
    {
      hide BatchBuffer.Valid, BatchBuffer.Contents;
      hotShotPos := fallbackHotShotPos;
      nextBatchPos := fallbackBatchPos + 1;
      head := None;
      skipPos := MAX_UINT64;
      buffer.Clear();
      history := NewHistory(history.epoch + 1, fallbackHotShotPos);
    }

    method ConfirmEspressoBlockHeight(light: Option<Height>) returns (shouldReset: bool)
      requires Valid()
      modifies this`fallbackHotShotPos
      ensures Evolved() && buffer.lent == old(buffer.lent)
      ensures (Abs(), shouldReset) == ConfirmHeight(old(Abs()), light)
    {
      shouldReset := false;
      if light.None? {
        fallbackHotShotPos := Max(fallbackHotShotPos, originHotShotPos);
        return;
      }
      if light.value <= originHotShotPos {
        return;
      }
      shouldReset := light.value < fallbackHotShotPos;
      fallbackHotShotPos := light.value;
    }

    method RefreshSafeL1Origin(light: Option<Height>)
      requires Valid()
      modifies this, buffer.Repr
      ensures Evolved() && Abs() == StreamerSpec.RefreshSafeL1Origin(old(Abs()), light)
    {
      var shouldReset := ConfirmEspressoBlockHeight(light);
      if shouldReset {
        Reset();
      }
    }

    method Refresh(finalized: L1Check.L1BlockRef, batcher: Option<Address>, safe: BlockNumber, light: Option<Height>)
      requires Valid()
      modifies this, buffer.Repr
      ensures Evolved() && Abs() == StreamerSpec.Refresh(old(Abs()), finalized, batcher, safe, light)
    {
      hide BatchBuffer.Valid, BatchBuffer.Contents, StreamerSpec.RefreshSafeL1Origin, StreamerSpec.FollowSafeBatch;
      finalizedL1 := finalized;
      if batcher.Some? && batcher.value != ZERO_ADDRESS {
        espressoBatcher := batcher.value;
      }
      assert Abs() == SeeL1(old(Abs()), finalized, batcher);
      RefreshSafeL1Origin(light);
      FollowSafeBatch(safe);
    }

    /** The part of Refresh after the safe L1 origin is dealt with. */
    method FollowSafeBatch(safe: BlockNumber)
      requires Valid()
      modifies this, buffer.Repr
      ensures Evolved() && Abs() == StreamerSpec.FollowSafeBatch(old(Abs()), safe)
    {
      if fallbackBatchPos == safe {
        return;
      }
      var shouldReset := safe < fallbackBatchPos;
      shouldReset := shouldReset || fallbackHotShotPos > hotShotPos;
      fallbackBatchPos := safe;
      if nextBatchPos <= fallbackBatchPos {
        shouldReset := true;
      }
      if shouldReset {
        Reset();
      }
    }

    method CheckBatch(batch: Batch) returns (validity: L1Check.Validity)
      requires Valid()
      modifies this`cache, this`calls
      ensures Evolved() && buffer.lent == old(buffer.lent)
      ensures (validity, Abs()) == StreamerSpec.CheckBatch(old(Abs()), env, batch)
    {
      ghost var view := L1Check.L1View(finalizedL1, espressoBatcher, cache, calls);
      calls := calls + 1;
      validity := Verdict(view, batch);
    }

    /** The check proper; view is what the streamer knew before. */
    method Verdict(ghost view: L1Check.L1View, batch: Batch) returns (validity: L1Check.Validity)
      requires calls > 0 && view == L1Check.L1View(finalizedL1, espressoBatcher, cache, calls - 1)
      modifies this`cache
      ensures L1Check.Check(view, env.rpc, nextBatchPos, batch)
           == L1Check.Checked(validity, L1Check.L1View(finalizedL1, espressoBatcher, cache, calls))
    {
      if batch.number < nextBatchPos {
        return L1Check.Past;
      }
      if finalizedL1 == L1Check.ZERO_REF {
        return L1Check.Undecided;
      }
      var origin := batch.origin;
      if origin.number > finalizedL1.number {
        if espressoBatcher != ZERO_ADDRESS && batch.signer != espressoBatcher {
          return L1Check.Drop;
        }
        return L1Check.Undecided;
      }
      var state: L1Check.L1Entry;
      if origin.number in cache {
        state := cache[origin.number];
      } else {
        var hash := env.rpc.headerHash(calls - 1, origin.number);
        if hash.None? {
          return L1Check.Undecided;
        }
        var batcher := env.rpc.batcherAt(calls - 1, finalizedL1.number, origin.number);
        if batcher.None? {
          return L1Check.Undecided;
        }
        if batcher.value == ZERO_ADDRESS {
          return L1Check.Drop;
        }
        state := L1Check.L1Entry(hash.value, [batcher.value]);
        cache := (cache - env.rpc.evicted(calls - 1))[origin.number := state];
      }
      if batch.signer !in state.authorized {
        return L1Check.Drop;
      }
      if state.hash != origin.hash {
        return L1Check.Drop;
      }
      return L1Check.Accept;
    }

    /** Promotes the front of the buffer to the head slot. The pointer is read before the entry is popped and
        becomes stable by that. */
    method Promote(front: Cell)
      requires Valid() && head.None? && buffer.Contents() != [] && front == Cell(buffer.data, buffer.off)
      modifies this`head, buffer
      ensures Evolved() && buffer.Repr == old(buffer.Repr)
      ensures Abs() == old(Abs()).(head := Some(old(buffer.Contents())[0]), buffer := old(buffer.Contents())[1..])
    {
      head := Some(front);
      var popped := buffer.Pop();
    }

    method DiscardFront()
      requires Valid() && buffer.Contents() != []
      modifies buffer
      ensures Evolved() && buffer.Repr == old(buffer.Repr)
      ensures Abs() == old(Abs()).(buffer := old(buffer.Contents())[1..])
    {
      var discarded := buffer.Pop();
    }

    /** The part of an iteration of HasNext that looks for a head: it discards a stale entry, or promotes the
        front of the buffer, or finds nothing to promote. */
    method LookForHead() returns (progress: bool)
      requires Valid() && head.None?
      modifies this`head, buffer
      ensures Evolved() && buffer.Repr == old(buffer.Repr)
      ensures progress ==> StreamerSpec.HasNext(Abs(), env) == StreamerSpec.HasNext(old(Abs()), env)
                           && buffer.len < old(buffer.len)
      ensures !progress ==> StreamerSpec.HasNext(old(Abs()), env) == (Abs(), false)
    {
      var front := buffer.Peek();
      if front.None? {
        return false;
      }
      var number := front.value.arr[front.value.idx].number;
      if number < nextBatchPos {
        DiscardFront();
        return true;
      }
      if number != nextBatchPos {
        return false;
      }
      Promote(front.value);
      return true;
    }

    /** The part of an iteration of HasNext that checks the head: None when the head was dropped. */
    method DecideOnHead() returns (decided: Option<bool>)
      requires Valid() && head.Some?
      modifies this`head, this`cache, this`calls, this`history
      ensures Evolved() && buffer.lent == old(buffer.lent)
      ensures decided.Some? ==> StreamerSpec.HasNext(old(Abs()), env) == (Abs(), decided.value) && head == old(head)
      ensures decided.None? ==> StreamerSpec.HasNext(old(Abs()), env) == StreamerSpec.HasNext(Abs(), env) && head.None?
    {
      hide StreamerSpec.CheckBatch;
      var validity := CheckBatch(head.value.arr[head.value.idx]);
      if validity == L1Check.Accept {
        return Some(true);
      }
      if validity == L1Check.Undecided {
        return Some(false);
      }
      if validity == L1Check.Drop {
        history := history.(dropped := history.dropped + {buffer.lent[head.value].hash});
      }
      head := None;
      return None;
    }

    method HasNext() returns (ready: bool)
      requires Valid()
      modifies this, buffer.Repr
      ensures Evolved() && (Abs(), ready) == StreamerSpec.HasNext(old(Abs()), env)
      ensures ready ==> head.Some?
    {
      hide BatchBuffer.Valid, BatchBuffer.Contents;
      ghost var goal := StreamerSpec.HasNext(Abs(), env);
      while true
        invariant Evolved() && buffer.Repr == old(buffer.Repr)
        invariant StreamerSpec.HasNext(Abs(), env) == goal
        decreases 2 * buffer.len + (if head.Some? then 1 else 0)
      {
        if head.None? {
          var progress := LookForHead();
          if !progress {
            return false;
          }
          if head.None? {
            continue;
          }
        }
        var decided := DecideOnHead();
        if decided.Some? {
          return decided.value;
        }
      }
    }

    method Next() returns (batch: Option<Cell>)
      requires Valid()
      modifies this, buffer.Repr
      ensures Evolved() && Abs() == StreamerSpec.Next(old(Abs()), env).0
      ensures batch.Some? ==> batch.value in buffer.lent
      ensures StreamerSpec.Next(old(Abs()), env).1
           == if batch.Some? then Some(buffer.lent[batch.value]) else None
    {
      hide BatchBuffer.Valid, BatchBuffer.Contents, StreamerSpec.HasNext;
      var ready := HasNext();
      if !ready {
        return None;
      }
      nextBatchPos := nextBatchPos + 1;
      batch := head;
      head := None;
      history := history.(overflowed := {});
      if skipPos != MAX_UINT64 {
        hotShotPos := skipPos;
        skipPos := MAX_UINT64;
      }
    }

    method Peek() returns (batch: Option<Cell>)
      requires Valid()
      modifies this, buffer.Repr
      ensures Evolved() && Abs() == StreamerSpec.HasNext(old(Abs()), env).0
      ensures batch == if StreamerSpec.HasNext(old(Abs()), env).1 then head else None
    {
      var ready := HasNext();
      batch := if ready then head else None;
    }

    method SetProperHead(parent: Hash)
      requires Valid()
      modifies this, buffer.Repr
      ensures Evolved() && Abs() == StreamerSpec.SetProperHead(old(Abs()), parent)
    {
      if head.Some? && head.value.arr[head.value.idx].number != nextBatchPos {
        return;
      }
      head := None;
      while true
        invariant Evolved() && buffer.Repr == old(buffer.Repr)
        invariant Abs() == old(Abs()).(head := None, buffer := buffer.Contents())
        invariant Drain(buffer.Contents(), nextBatchPos, parent) == Drain(old(buffer.Contents()), nextBatchPos, parent)
        decreases buffer.len
      {
        var front := buffer.Peek();
        if front.None? {
          break;
        }
        var candidate := front.value.arr[front.value.idx];
        if candidate.number != nextBatchPos {
          break;
        }
        if candidate.parentHash != parent {
          DiscardFront();
          continue;
        }
        break;
      }
    }

    /** processEspressoTransaction; full reports a batch that found the buffer at capacity. */
    method ProcessEspressoTransaction(tx: Tx, room: nat) returns (full: bool)
      requires Valid()
      modifies this, buffer.Repr
      ensures Evolved() && (Abs(), full) == Process(old(Abs()), env, tx)
    {
      hide StreamerSpec.CheckBatch, BufferSpec.Insert;
      if tx.None? {
        return false;
      }
      var batch := tx.value;
      var validity := CheckBatch(batch);
      if validity == L1Check.Drop {
        history := history.(rejected := history.rejected + {batch});
        return false;
      }
      if validity == L1Check.Past {
        return false;
      }
      if head.Some? {
        var current := head.value.arr[head.value.idx];
        if batch.number == current.number && batch.hash == current.hash {
          return false;
        }
      }
      if batch.number == nextBatchPos && head.None? {
        SetHead(batch);
        return false;
      }
      var outcome := buffer.Insert(batch, room);
      full := outcome == BufferSpec.AtCapacity;
    }

    /** Points the head at the unmarshalled batch, which lives in a cell of its own. */
    method SetHead(batch: Batch)
      requires Valid()
      modifies this`head, buffer
      ensures Evolved() && Abs() == old(Abs()).(head := Some(batch))
    {
      hide BatchBuffer.Valid, BatchBuffer.Contents;
      var own := new Batch[1](_ => batch);
      buffer.Lend(Cell(own, 0));
      head := Some(Cell(own, 0));
    }

    /** One transaction of the block at blockPos, with the rewind point it may set. */
    method ProcessInBlock(tx: Tx, blockPos: Height, room: nat)
      requires Valid()
      modifies this, buffer.Repr
      ensures Evolved() && Abs() == ProcessTx(old(Abs()), env, blockPos, tx)
    {
      var full := ProcessEspressoTransaction(tx, room);
      if full {
        var rewindTo: Height := 0;
        if blockPos > 0 {
          rewindTo := blockPos - 1;
        }
        skipPos := Min(skipPos, rewindTo);
        history := history.(overflowed := history.overflowed + {blockPos});
      }
    }

    method ProcessBlock(txs: seq<Tx>, blockPos: Height, room: nat)
      requires Valid()
      modifies this, buffer.Repr
      ensures Evolved() && Abs() == ProcessTxs(old(Abs()), env, blockPos, txs)
    {
      hide BatchBuffer.Valid, BatchBuffer.Contents, ProcessTx;
      for k := 0 to |txs|
        invariant Evolved()
        invariant ProcessTxs(Abs(), env, blockPos, txs[k..]) == ProcessTxs(old(Abs()), env, blockPos, txs)
      {
        assert txs[k..][1..] == txs[k + 1..];
        ProcessInBlock(txs[k], blockPos, room);
      }
    }

    /** fetchHotShotRange; the service answers with one entry per block of [start, finish). */
    method FetchHotShotRange(answer: Answer, start: nat, finish: Height, room: nat) returns (ok: bool)
      requires Valid()
      modifies this, buffer.Repr
      ensures Evolved() && (Abs(), ok) == FetchRange(old(Abs()), env, answer, start, finish)
    {
      hide BatchBuffer.Valid, BatchBuffer.Contents, ProcessBlocks;
      if finish == 0 || answer.Failed? {
        return false;
      }
      if answer.Empty? {
        return true;
      }
      var count := if start < finish then finish - start else 0;
      var hotShotBlocks := seq(count, i requires 0 <= i < count => env.log(start + i));
      hotShotPos := finish - 1;
      history := history.(seen := Max(history.seen, finish));
      ProcessHotShotBlocks(hotShotBlocks, start, finish, room);
      ok := true;
    }

    method ProcessHotShotBlocks(hotShotBlocks: seq<seq<Tx>>, start: nat, finish: Height, room: nat)
      requires Valid() && |hotShotBlocks| == if start < finish then finish - start else 0
      requires forall i | 0 <= i < |hotShotBlocks| :: hotShotBlocks[i] == env.log(start + i)
      modifies this, buffer.Repr
      ensures Evolved() && Abs() == ProcessBlocks(old(Abs()), env, start, finish)
    {
      hide BatchBuffer.Valid, BatchBuffer.Contents, ProcessTxs;
      ghost var goal := ProcessBlocks(Abs(), env, start, finish);
      for i := 0 to |hotShotBlocks|
        invariant Evolved()
        invariant ProcessBlocks(Abs(), env, start + i, finish) == goal
      {
        var blockPos := start + i;
        ProcessBlock(hotShotBlocks[i], blockPos, room);
      }
    }

    method ComputeEspressoBlockHeightsRange(finalizedBlockHeight: Height, limit: Uint64)
      returns (start: Uint64, finish: Uint64)
      ensures (start, finish) == ComputeRange(hotShotPos, finalizedBlockHeight, limit)
    {
      start := hotShotPos;
      if start > 0 {
        start := start + 1;
      }
      finish := Min(AddUint64(start, limit), finalizedBlockHeight + 1);
    }

    /** rounds is how many iterations of the fetch loop are watched; end is None when it goes on after them. */
    method Update(net: Network, rounds: nat, room: nat) returns (end: Option<UpdateEnd>)
      requires Valid()
      modifies this, buffer.Repr
      ensures Evolved() && (Abs(), end) == StreamerSpec.Update(old(Abs()), env, net, rounds)
    {
      hide UpdateLoop;
      if net.latest.None? {
        return Some(FetchFailed);
      }
      var latest := net.latest.value;
      if latest == MAX_UINT64 {
        return Some(FetchFailed);
      }
      if latest < 2 {
        return Some(RangeExhausted);
      }
      end := FetchLoop(net, latest - 2, rounds, room);
    }

    method FetchLoop(net: Network, finalizedBlockHeight: Height, rounds: nat, room: nat)
      returns (end: Option<UpdateEnd>)
      requires Valid() && finalizedBlockHeight + 1 < MAX_UINT64
      modifies this, buffer.Repr
      ensures Evolved() && (Abs(), end) == UpdateLoop(old(Abs()), env, net, finalizedBlockHeight, 0, rounds)
    {
      hide StreamerSpec.UpdateOnce;
      ghost var goal := UpdateLoop(Abs(), env, net, finalizedBlockHeight, 0, rounds);
      end := None;
      var i := 0;
      while i < rounds
        invariant Evolved() && i <= rounds && end.None?
        invariant UpdateLoop(Abs(), env, net, finalizedBlockHeight, i, rounds - i) == goal
      {
        end := UpdateOnce(net, finalizedBlockHeight, i, room);
        if end.Some? {
          return;
        }
        i := i + 1;
      }
    }

    /** Iteration i of the fetch loop; Some when the loop ends there. */
    method UpdateOnce(net: Network, finalizedBlockHeight: Height, i: nat, room: nat) returns (end: Option<UpdateEnd>)
      requires Valid() && finalizedBlockHeight + 1 < MAX_UINT64
      modifies this, buffer.Repr
      ensures Evolved()
      ensures (Abs(), end) == StreamerSpec.UpdateOnce(old(Abs()), env, net, finalizedBlockHeight, i)
    {
      hide BatchBuffer.Valid, BatchBuffer.Contents, FetchRange, StreamerSpec.HasNext;
      var start, finish := ComputeEspressoBlockHeightsRange(finalizedBlockHeight, HOTSHOT_BLOCK_FETCH_LIMIT);
      if start >= finish || (start + 1 == finish && i > 0) {
        return Some(RangeExhausted);
      }
      var ok := FetchHotShotRange(net.answers(i), start, finish, room);
      if !ok {
        return Some(FetchFailed);
      }
      var ready := HasNext();
      return if ready then Some(BatchReady) else None;
    }
  }
}
