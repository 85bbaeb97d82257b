/** The buffer as the program keeps it: a window [off, off + len) onto a backing array that is shifted in
    place or replaced on insertion, and whose cells are handed out as pointers. */
module BatchBuffers {
  import opened Batches
  import opened BufferSpec

  /** A pointer to a batch: one cell of one array. */
  datatype Cell = Cell(arr: array<Batch>, idx: nat)

  class BatchBuffer {
    var data: array<Batch>
    var off: nat
    var len: nat
    const capacity: nat

    /** Every pointer that has left the buffer, with the batch it denoted then. */
    ghost var lent: map<Cell, Batch>
    ghost var Repr: set<object>

    ghost predicate Valid()
      reads this, Repr
      ensures Valid() ==> this in Repr
    {
      && this in Repr
      && data in Repr
      && off + len <= data.Length
      && forall c | c in lent :: Owned(c) && c.arr[c.idx] == lent[c]
    }

    /** c lies in an array of the buffer, outside the live window. */
    ghost predicate Owned(c: Cell)
      reads this
    {
      c.arr in Repr && c.idx < c.arr.Length && (c.arr == data ==> c.idx < off)
    }

    ghost function Contents(): (s: seq<Batch>)
      requires Valid()
      reads this, Repr
      ensures |s| == len
    {
      data[off..off + len]
    }

    /** Pointers handed out before keep the batch they denoted. */
    twostate predicate KeepsLent()
      reads this
    {
      forall c | c in old(lent) :: c in lent && lent[c] == old(lent)[c]
    }

    constructor (capacity: nat)
      ensures Valid() && fresh(Repr)
      ensures Contents() == [] && lent == map[] && this.capacity == capacity
    {
      this.capacity := capacity;
      data := new Batch[0];
      off, len, lent := 0, 0, map[];
      new;
      Repr := {this, data};
    }

    method Clear()
      requires Valid()
      modifies Repr
      ensures Valid() && fresh(Repr - old(Repr))
      ensures Contents() == [] && lent == old(lent)
    {
      data := new Batch[0];
      off, len := 0, 0;
      Repr := Repr + {data};
    }

    /** The search loop of slices.BinarySearchFunc. */
    method BinarySearch(batch: Batch) returns (pos: nat, found: bool)
      requires Valid()
      ensures pos == Search(Contents(), batch, 0, len)
      ensures found <==> pos < len && Contents()[pos].hash == batch.hash
    {
      hide Middle;
      var i, j := 0, len;
      while i < j
        invariant i <= j <= len
        invariant Search(Contents(), batch, i, j) == Search(Contents(), batch, 0, len)
      {
        var h := Middle(i, j);
        assert Contents()[h] == data[off + h];
        if Compare(data[off + h], batch) < 0 {
          i := h + 1;
        } else {
          j := h;
        }
      }
      pos := i;
      if i < len {
        assert Contents()[i] == data[off + i];
      }
      found := i < len && Compare(data[off + i], batch) == 0;
    }

    /** Moves a[from..to] one cell to the right. */
    static method ShiftRight(a: array<Batch>, from: nat, to: nat)
      requires from <= to < a.Length
      modifies a
      ensures forall i | 0 <= i <= from :: a[i] == old(a[i])
      ensures forall i | from < i <= to :: a[i] == old(a[i - 1])
    {
      var k := to;
      while k > from
        invariant from <= k <= to
        invariant forall i | 0 <= i <= k :: a[i] == old(a[i])
        invariant forall i | k < i <= to :: a[i] == old(a[i - 1])
      {
        a[k] := a[k - 1];
        k := k - 1;
      }
    }

    /** slices.Insert on a[lo..hi] within the capacity of the backing array. */
    static method InsertInPlace(a: array<Batch>, lo: nat, pos: nat, hi: nat, batch: Batch)
      requires lo + pos <= hi < a.Length
      modifies a
      ensures a[lo..hi + 1] == InsertAt(old(a[lo..hi]), pos, batch)
      ensures forall i | 0 <= i < lo :: a[i] == old(a[i])
    {
      ghost var was := a[lo..hi];
      ShiftRight(a, lo + pos, hi);
      a[lo + pos] := batch;
      forall i | 0 <= i <= hi - lo
        ensures a[lo + i] == InsertAt(was, pos, batch)[i]
      {
        if i < pos {
          assert a[lo + i] == old(a[lo + i]) == was[i];
        } else if i > pos {
          assert a[lo + i] == old(a[lo + i - 1]) == was[i - 1];
        }
      }
    }

    method ShiftIn(pos: nat, batch: Batch)
      requires Valid() && pos <= len && off + len < data.Length
      modifies this`len, data
      ensures Valid() && Contents() == InsertAt(old(Contents()), pos, batch)
    {
      InsertInPlace(data, off, pos, off + len, batch);
      len := len + 1;
    }

    /** A new array that starts with the entries, a gap at pos filled with batch. */
    static method CopyAround(entries: seq<Batch>, pos: nat, batch: Batch, room: nat) returns (bigger: array<Batch>)
      requires pos <= |entries|
      ensures fresh(bigger) && bigger.Length == |entries| + 1 + room
      ensures bigger[..|entries| + 1] == InsertAt(entries, pos, batch)
    {
      bigger := new Batch[|entries| + 1 + room](_ => batch);
      forall i | 0 <= i < pos {
        bigger[i] := entries[i];
      }
      forall i | pos <= i < |entries| {
        bigger[i + 1] := entries[i];
      }
    }

    /** slices.Insert beyond it: the entries move to a larger array; the old array is left as it is. */
    method Reallocate(pos: nat, batch: Batch, room: nat)
      requires Valid() && pos <= len
      modifies this
      ensures Valid() && fresh(Repr - old(Repr)) && lent == old(lent)
      ensures Contents() == InsertAt(old(Contents()), pos, batch)
    {
      var bigger := CopyAround(data[off..off + len], pos, batch, room);
      data, off, len := bigger, 0, len + 1;
      Repr := Repr + {bigger};
    }

    /** room is how much larger than needed the runtime makes a new backing array. */
    method Insert(batch: Batch, room: nat) returns (outcome: InsertOutcome)
      requires Valid()
      modifies Repr
      ensures Valid() && fresh(Repr - old(Repr)) && lent == old(lent)
      ensures (Contents(), outcome) == BufferSpec.Insert(old(Contents()), capacity, batch)
    {
      if len >= capacity {
        return AtCapacity;
      }
      var pos, found := BinarySearch(batch);
      if found {
        return Duplicate;
      }
      if off + len < data.Length {
        ShiftIn(pos, batch);
      } else {
        Reallocate(pos, batch, room);
      }
      outcome := Inserted;
    }

    /** The front cell. It is a pointer into the live window, not yet a stable one. */
    method Peek() returns (front: Option<Cell>)
      requires Valid()
      ensures front.None? <==> Contents() == []
      ensures front.Some? ==> front.value == Cell(data, off) && data[off] == Contents()[0]
    {
      front := if len == 0 then None else Some(Cell(data, off));
    }

    method Get(i: int) returns (entry: Option<Batch>)
      requires Valid()
      ensures entry == if 0 <= i < len then Some(Contents()[i]) else None
    {
      if 0 <= i < len {
        assert Contents()[i] == data[off + i];
        entry := Some(data[off + i]);
      } else {
        entry := None;
      }
    }

    /** Dropping the front entry makes every pointer to its cell stable. */
    method Pop() returns (front: Option<Batch>)
      requires Valid()
      modifies this
      ensures Valid() && Repr == old(Repr)
      ensures front == if old(Contents()) == [] then None else Some(old(Contents())[0])
      ensures Contents() == if front.None? then [] else old(Contents())[1..]
      ensures lent == if front.None? then old(lent) else old(lent)[old(Cell(data, off)) := front.value]
      ensures KeepsLent()
    {
      if len == 0 {
        return None;
      }
      front := Some(data[off]);
      lent := lent[Cell(data, off) := data[off]];
      off, len := off + 1, len - 1;
    }

    /** Registers a pointer that was made elsewhere, so that it counts among the stable ones. */
    ghost method Lend(c: Cell)
      requires Valid() && c.arr !in Repr && c.idx < c.arr.Length
      modifies this`lent, this`Repr
      ensures Valid() && Repr == old(Repr) + {c.arr} && Contents() == old(Contents())
      ensures lent == old(lent)[c := c.arr[c.idx]] && KeepsLent()
    {
      lent := lent[c := c.arr[c.idx]];
      Repr := Repr + {c.arr};
    }
  }
}
