/** The buffered wrapper as the program keeps it: a slice of pointers into cells the lower streamer has given
    up. Every method is tied to the function of the same name in BufferedSpec. */
module BufferedStreamers {
  import opened Batches
  import L1Check
  import StreamerRuns
  import StreamerSpec
  import opened BatchBuffers
  import opened BatchStreamers
  import opened BufferedSpec

  class BufferedEspressoStreamer {
    const streamer: BatchStreamer
    var batches: seq<Option<Cell>>
    var readPos: nat
    var startingBatchPos: BlockNumber
    var currentSafeL1Origin: BlockID

    ghost predicate Valid()
      reads this, streamer, streamer.buffer, streamer.buffer.Repr
    {
      && streamer.Valid()
      && this !in streamer.buffer.Repr
      && readPos <= |batches|
      && Stable(streamer.buffer.lent, batches)
    }

    /** Every pointer of the slice denotes a batch the streamer has lent. */
    static ghost predicate Stable(lent: map<Cell, Batch>, cells: seq<Option<Cell>>) {
      forall i | 0 <= i < |cells| :: cells[i].Some? && cells[i].value in lent
    }

    static ghost function Values(lent: map<Cell, Batch>, cells: seq<Option<Cell>>): (s: seq<Batch>)
      requires Stable(lent, cells)
      ensures |s| == |cells| && forall i | 0 <= i < |s| :: s[i] == lent[cells[i].value]
    {
      seq(|cells|, i requires 0 <= i < |cells| => lent[cells[i].value])
    }

    ghost function Abs(): Buffered
      requires Valid()
      reads this, streamer, streamer.buffer, streamer.buffer.Repr
    {
      Buffered(streamer.Abs(), Values(streamer.buffer.lent, batches), readPos, startingBatchPos,
               currentSafeL1Origin.number)
    }

    /** The window keeps its batches while the lower streamer moves on. */
    static lemma ValuesKept(lent: map<Cell, Batch>, lent': map<Cell, Batch>, cells: seq<Option<Cell>>)
      requires Stable(lent, cells) && forall c | c in lent :: c in lent' && lent'[c] == lent[c]
      ensures Stable(lent', cells) && Values(lent', cells) == Values(lent, cells)
    {
    }

    constructor (streamer: BatchStreamer)
      requires streamer.Valid()
      ensures Valid() && this.streamer == streamer
      ensures Abs() == Buffered(streamer.Abs(), [], 0, 0, 0)
    {
      this.streamer := streamer;
      batches, readPos, startingBatchPos, currentSafeL1Origin := [], 0, 0, BlockID(0, 0);
    }

    method Update(net: StreamerSpec.Network, rounds: nat, room: nat) returns (end: Option<StreamerSpec.UpdateEnd>)
      requires Valid()
      modifies streamer, streamer.buffer.Repr
      ensures Valid() && streamer.Evolved()
      ensures
        var (lower, end') := StreamerSpec.Update(old(streamer.Abs()), streamer.env, net, rounds);
        Abs() == old(Abs()).(lower := lower) && end == end'
    {
      hide BatchBuffer.Valid, BatchBuffer.Contents, BatchStreamer.Abs, StreamerSpec.Update;
      end := streamer.Update(net, rounds, room);
      ValuesKept(old(streamer.buffer.lent), streamer.buffer.lent, batches);
    }

    method HandleL2PositionUpdate(nextPosition: BlockNumber)
      requires Valid()
      modifies this, streamer, streamer.buffer.Repr
      ensures Valid() && streamer.Evolved()
      ensures Abs() == BufferedSpec.HandleL2PositionUpdate(old(Abs()), nextPosition)
    {
      hide BatchBuffer.Valid, BatchBuffer.Contents, BatchStreamer.Abs, StreamerSpec.Reset;
      if nextPosition < startingBatchPos {
        readPos := 0;
        startingBatchPos := nextPosition;
        batches := [];
        streamer.Reset();
        return;
      }
      if nextPosition > startingBatchPos {
        var positionAdjustment := nextPosition - startingBatchPos;
        if positionAdjustment <= |batches| {
          Trim(positionAdjustment);
          readPos := if readPos >= positionAdjustment then readPos - positionAdjustment else 0;
        } else {
          batches := [];
          readPos := 0;
        }
        startingBatchPos := nextPosition;
      }
    }

    /** Clears the first pointers of the slice and cuts them off. */
    method Trim(count: nat)
      requires count <= |batches|
      modifies this`batches
      ensures batches == old(batches)[count..]
    {
      for i := 0 to count
        invariant |batches| == |old(batches)|
        invariant forall k | i <= k < |batches| :: batches[k] == old(batches)[k]
      {
        batches := batches[i := None];
      }
      batches := batches[count..];
    }

    method RefreshSafeL1Origin(safeL1Origin: BlockID, light: Option<Height>)
      requires Valid()
      modifies this, streamer, streamer.buffer.Repr
      ensures Valid() && streamer.Evolved()
      ensures Abs() == BufferedSpec.RefreshSafeL1Origin(old(Abs()), safeL1Origin.number, light)
    {
      hide BatchBuffer.Valid, BatchBuffer.Contents, BatchStreamer.Abs, StreamerSpec.RefreshSafeL1Origin;
      if safeL1Origin.number < currentSafeL1Origin.number {
        currentSafeL1Origin := safeL1Origin;
        startingBatchPos := 0;
        readPos := 0;
        batches := [];
        streamer.RefreshSafeL1Origin(light);
        return;
      }
      currentSafeL1Origin := safeL1Origin;
    }

    method Refresh(finalizedL1: L1Check.L1BlockRef, batcher: Option<Address>, safe: BlockNumber, safeL1Origin: BlockID,
                   light: Option<Height>, light': Option<Height>)
      requires Valid()
      modifies this, streamer, streamer.buffer.Repr
      ensures Valid() && streamer.Evolved()
      ensures Abs() == BufferedSpec.Refresh(old(Abs()), finalizedL1, batcher, safe, safeL1Origin.number, light, light')
    {
      HandleL2PositionUpdate(safe);
      RefreshSafeL1Origin(safeL1Origin, light);
      ghost var lent := streamer.buffer.lent;
      streamer.Refresh(finalizedL1, batcher, safe, light');
      ValuesKept(lent, streamer.buffer.lent, batches);
    }

    method Reset()
      requires Valid()
      modifies this`readPos
      ensures Valid() && Abs() == BufferedSpec.Reset(old(Abs()))
    {
      readPos := 0;
    }

    method HasNext() returns (ready: bool)
      requires Valid()
      modifies streamer, streamer.buffer.Repr
      ensures Valid() && streamer.Evolved()
      ensures (Abs(), ready) == BufferedSpec.HasNext(old(Abs()), streamer.env)
    {
      hide BatchBuffer.Valid, BatchBuffer.Contents, BatchStreamer.Abs, StreamerSpec.HasNext;
      if readPos < |batches| {
        return true;
      }
      ready := streamer.HasNext();
      ValuesKept(old(streamer.buffer.lent), streamer.buffer.lent, batches);
    }

    /** Asks the streamer for its next batch and keeps it if it belongs to the window. */
    method FetchOne() returns (batch: Option<Cell>, kept: bool)
      requires Valid()
      modifies this`batches, this`readPos, streamer, streamer.buffer.Repr
      ensures Valid() && streamer.Evolved()
      ensures batch.Some? ==> batch.value in streamer.buffer.lent
      ensures batch.None? || kept ==>
        NextFromLower(old(Abs()), streamer.env)
        == (Abs(), if batch.Some? then Some(streamer.buffer.lent[batch.value]) else None)
      ensures batch.Some? && !kept ==>
        && NextFromLower(old(Abs()), streamer.env) == NextFromLower(Abs(), streamer.env)
        && StreamerSpec.Size(Abs().lower) < StreamerSpec.Size(old(Abs()).lower)
    {
      hide BatchBuffer.Contents, BatchStreamer.Abs, StreamerSpec.HasNext, StreamerSpec.Next;
      FetchShrinks(streamer.Abs(), streamer.env);
      batch := streamer.Next();
      ValuesKept(old(streamer.buffer.lent), streamer.buffer.lent, batches);
      kept := false;
      if batch.Some? && batch.value.arr[batch.value.idx].number >= startingBatchPos {
        batches := batches + [batch];
        readPos := readPos + 1;
        kept := true;
        assert Values(streamer.buffer.lent, batches)
            == old(Abs()).batches + [streamer.buffer.lent[batch.value]];
      }
    }

    method Next() returns (batch: Option<Cell>)
      requires Valid()
      modifies this`batches, this`readPos, streamer, streamer.buffer.Repr
      ensures Valid() && streamer.Evolved()
      ensures batch.Some? ==> batch.value in streamer.buffer.lent
      ensures BufferedSpec.Next(old(Abs()), streamer.env)
           == (Abs(), if batch.Some? then Some(streamer.buffer.lent[batch.value]) else None)
    {
      if readPos < |batches| {
        batch := batches[readPos];
        readPos := readPos + 1;
        return;
      }
      ghost var goal := NextFromLower(Abs(), streamer.env);
      while true
        invariant Valid() && streamer.Evolved()
        invariant NextFromLower(Abs(), streamer.env) == goal
        decreases StreamerSpec.Size(Abs().lower)
      {
        var kept: bool;
        batch, kept := FetchOne();
        if batch.None? || kept {
          return;
        }
      }
    }

    /** Looks at the streamer's next batch and discards it if it lies below the window. */
    method PeekOne() returns (batch: Option<Cell>, inWindow: bool)
      requires Valid()
      modifies streamer, streamer.buffer.Repr
      ensures Valid() && streamer.Evolved()
      ensures batch.Some? && inWindow ==> batch.value in streamer.buffer.lent
      ensures batch.None? || inWindow ==>
        PeekLower(old(Abs()), streamer.env)
        == (Abs(), if batch.Some? then Some(streamer.buffer.lent[batch.value]) else None)
      ensures batch.Some? && !inWindow ==>
        && PeekLower(old(Abs()), streamer.env) == PeekLower(Abs(), streamer.env)
        && StreamerSpec.Size(Abs().lower) < StreamerSpec.Size(old(Abs()).lower)
    {
      ghost var lower := streamer.Abs();
      StreamerRuns.HasNextShrinks(lower, streamer.env);
      batch := streamer.Peek();
      inWindow := false;
      if batch.Some? {
        inWindow := batch.value.arr[batch.value.idx].number >= startingBatchPos;
        if !inWindow {
          ReadyAgain(lower, streamer.env);
          var discarded := streamer.Next();
        }
      }
      ValuesKept(old(streamer.buffer.lent), streamer.buffer.lent, batches);
    }

    method Peek() returns (batch: Option<Cell>)
      requires Valid()
      modifies streamer, streamer.buffer.Repr
      ensures Valid() && streamer.Evolved()
      ensures batch.Some? ==> batch.value in streamer.buffer.lent
      ensures BufferedSpec.Peek(old(Abs()), streamer.env)
           == (Abs(), if batch.Some? then Some(streamer.buffer.lent[batch.value]) else None)
    {
      if readPos < |batches| {
        return batches[readPos];
      }
      ghost var goal := PeekLower(Abs(), streamer.env);
      while true
        invariant Valid() && streamer.Evolved()
        invariant PeekLower(Abs(), streamer.env) == goal
        decreases StreamerSpec.Size(Abs().lower)
      {
        var inWindow: bool;
        batch, inWindow := PeekOne();
        if batch.None? || inWindow {
          return;
        }
      }
    }

    method SetProperHead(parent: Hash)
      requires Valid()
      modifies this`batches, streamer, streamer.buffer.Repr
      ensures Valid() && streamer.Evolved()
      ensures Abs() == BufferedSpec.SetProperHead(old(Abs()), parent)
    {
      hide BatchBuffer.Valid, BatchBuffer.Contents, BatchStreamer.Abs, StreamerSpec.SetProperHead;
      batches := batches[..readPos];
      streamer.SetProperHead(parent);
      ValuesKept(old(streamer.buffer.lent), streamer.buffer.lent, batches);
    }
  }
}
