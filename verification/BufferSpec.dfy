/** The sorted, bounded batch buffer: its insertion rule as a function, and what that rule keeps. */
module BufferSpec {
  import opened Batches

  datatype InsertOutcome = Inserted | AtCapacity | Duplicate

  /** The comparator of the binary search. It is not monotone on a run of equal numbers: an entry with
      the wanted hash compares equal, its neighbours on either side compare smaller. */
  function Compare(a: Batch, t: Batch): int {
    if a.hash == t.hash then 0
    else if a.number > t.number then 1
    else -1
  }

  function Middle(i: nat, j: nat): (h: nat)
    requires i < j
    ensures i <= h < j
  {
    (i + j) / 2
  }

  /** The binary search over s[i..j], as slices.BinarySearchFunc performs it. */
  function Search(s: seq<Batch>, t: Batch, i: nat, j: nat): (pos: nat)
    requires i <= j <= |s|
    ensures i <= pos <= j
    decreases j - i
  {
    if i == j then i
    else
      var h := Middle(i, j);
      if Compare(s[h], t) < 0 then Search(s, t, h + 1, j) else Search(s, t, i, h)
  }

  function InsertAt(s: seq<Batch>, pos: nat, b: Batch): (s': seq<Batch>)
    requires pos <= |s|
  {
    s[..pos] + [b] + s[pos..]
  }

  function Insert(s: seq<Batch>, capacity: nat, b: Batch): (r: (seq<Batch>, InsertOutcome)) {
    if |s| >= capacity then (s, AtCapacity)
    else
      var pos := Search(s, b, 0, |s|);
      if pos < |s| && Compare(s[pos], b) == 0 then (s, Duplicate)
      else (InsertAt(s, pos, b), Inserted)
  }

  ghost predicate Sorted(s: seq<Batch>) {
    forall i, j | 0 <= i < j < |s| :: s[i].number <= s[j].number
  }

  /** Every entry with the hash of b also has its number. */
  ghost predicate HashFixesNumber(s: seq<Batch>, b: Batch) {
    forall x | x in s && x.hash == b.hash :: x.number == b.number
  }

  ghost predicate HoldsHash(s: seq<Batch>, h: Hash) {
    exists x :: x in s && x.hash == h
  }

  /** g splits s after the entries numbered at most n. */
  ghost predicate GroupEnd(s: seq<Batch>, n: nat, g: nat) {
    && g <= |s|
    && (forall i | 0 <= i < g :: s[i].number <= n)
    && (forall i | g <= i < |s| :: s[i].number > n)
  }

  /** The entries numbered n, in buffer order. */
  function OfNumber(s: seq<Batch>, n: nat): (r: seq<Batch>) {
    if s == [] then []
    else (if s[0].number == n then [s[0]] else []) + OfNumber(s[1..], n)
  }

  lemma {:induction false} OfNumberConcat(s: seq<Batch>, t: seq<Batch>, n: nat)
    ensures OfNumber(s + t, n) == OfNumber(s, n) + OfNumber(t, n)
  {
    if s == [] {
      assert s + t == t;
    } else {
      assert (s + t)[1..] == s[1..] + t;
      OfNumberConcat(s[1..], t, n);
      var first := if s[0].number == n then [s[0]] else [];
      assert first + (OfNumber(s[1..], n) + OfNumber(t, n)) == first + OfNumber(s[1..], n) + OfNumber(t, n);
    }
  }

  lemma {:induction false} OfNumberNone(s: seq<Batch>, n: nat)
    requires forall x | x in s :: x.number != n
    ensures OfNumber(s, n) == []
  {
    if s != [] {
      OfNumberNone(s[1..], n);
    }
  }

  /** Where the search stops: its left neighbour compares smaller, the entry it stands on does not. */
  lemma {:induction false} SearchStops(s: seq<Batch>, t: Batch, i: nat, j: nat)
    requires i <= j <= |s|
    requires i > 0 ==> Compare(s[i - 1], t) < 0
    requires j < |s| ==> Compare(s[j], t) >= 0
    ensures
      var pos := Search(s, t, i, j);
      && (pos > 0 ==> Compare(s[pos - 1], t) < 0)
      && (pos < |s| ==> Compare(s[pos], t) >= 0)
    decreases j - i
  {
    hide Compare, Middle;
    if i < j {
      var h := Middle(i, j);
      if Compare(s[h], t) < 0 {
        SearchStops(s, t, h + 1, j);
      } else {
        SearchStops(s, t, i, h);
      }
    }
  }

  /** Although the comparator is not monotone, the search ends on an entry with the wanted hash or at the
      end of the group of the wanted number, and in the second case the last of the group is no duplicate. */
  lemma SearchLands(s: seq<Batch>, b: Batch)
    requires Sorted(s)
    ensures
      var pos := Search(s, b, 0, |s|);
      || (pos < |s| && s[pos].hash == b.hash)
      || (GroupEnd(s, b.number, pos) && (pos > 0 ==> s[pos - 1].hash != b.hash))
  {
    SearchStops(s, b, 0, |s|);
    StopIsGroupEnd(s, b, Search(s, b, 0, |s|));
  }

  lemma StopIsGroupEnd(s: seq<Batch>, b: Batch, pos: nat)
    requires Sorted(s) && pos <= |s|
    requires pos > 0 ==> Compare(s[pos - 1], b) < 0
    requires pos < |s| ==> Compare(s[pos], b) >= 0
    ensures (pos < |s| && s[pos].hash == b.hash) || GroupEnd(s, b.number, pos)
  {
  }

  lemma InsertAtSorted(s: seq<Batch>, pos: nat, b: Batch)
    requires Sorted(s) && GroupEnd(s, b.number, pos)
    ensures Sorted(InsertAt(s, pos, b))
  {
  }

  /** Insert keeps the buffer sorted, changes it only when it reports success, and fails exactly when the buffer
      is full or the search lands on the hash. */
  lemma InsertKeepsOrder(s: seq<Batch>, capacity: nat, b: Batch)
    requires Sorted(s)
    ensures
      var (s', outcome) := Insert(s, capacity, b);
      && Sorted(s')
      && (outcome == AtCapacity <==> |s| >= capacity)
      && (outcome == Duplicate ==> HoldsHash(s, b.hash))
      && (outcome != Inserted ==> s' == s)
      && (outcome == Inserted ==> |s'| == |s| + 1)
  {
    if |s| < capacity {
      SearchLands(s, b);
      var pos := Search(s, b, 0, |s|);
      if Insert(s, capacity, b).1 == Duplicate {
        assert s[pos] in s;
      } else {
        InsertAtSorted(s, pos, b);
      }
    }
  }

  /** A batch that is inserted comes last in its number group, and no other group changes: within a number the
      first inserted stays first. */
  lemma InsertKeepsGroups(s: seq<Batch>, capacity: nat, b: Batch, n: nat)
    requires Sorted(s) && Insert(s, capacity, b).1 == Inserted
    ensures OfNumber(Insert(s, capacity, b).0, n) == OfNumber(s, n) + (if n == b.number then [b] else [])
  {
    SearchLands(s, b);
    InsertedGroup(s, Search(s, b, 0, |s|), b, n);
  }

  lemma InsertedGroup(s: seq<Batch>, pos: nat, b: Batch, n: nat)
    requires GroupEnd(s, b.number, pos)
    ensures OfNumber(InsertAt(s, pos, b), n) == OfNumber(s, n) + (if n == b.number then [b] else [])
  {
    OfNumberConcat(s[..pos], [b] + s[pos..], n);
    OfNumberConcat([b], s[pos..], n);
    OfNumberConcat(s[..pos], s[pos..], n);
    assert s[..pos] + s[pos..] == s;
    assert s[..pos] + ([b] + s[pos..]) == InsertAt(s, pos, b);
    assert [b][1..] == [];
    if n == b.number {
      OfNumberNone(s[pos..], n);
    }
  }

  /** What Insert does to membership. */
  lemma InsertMembers(s: seq<Batch>, capacity: nat, b: Batch)
    ensures
      var (s', outcome) := Insert(s, capacity, b);
      && (forall x :: x in s' <==> x in s || (outcome == Inserted && x == b))
      && (outcome != AtCapacity ==> HoldsHash(s', b.hash))
  {
  }

  // ---------- which duplicates are reported ----------

  /** Whether a search for the boundary g over [i, j) looks at index d. Only the length of the buffer and
      the end of the number group decide this, not the hashes. */
  predicate Probed(i: nat, j: nat, g: nat, d: nat)
    decreases j - i
  {
    i < j && (
      var h := Middle(i, j);
      h == d || (if h < g then Probed(h + 1, j, g, d) else Probed(i, h, g, d)))
  }

  lemma {:induction false} ProbedInRange(i: nat, j: nat, g: nat, d: nat)
    requires Probed(i, j, g, d)
    ensures i <= d < j
    decreases j - i
  {
    hide Middle;
    var h := Middle(i, j);
    if h != d {
      if h < g {
        ProbedInRange(h + 1, j, g, d);
      } else {
        ProbedInRange(i, h, g, d);
      }
    }
  }

  /** Once the upper bound stands on a duplicate, the search ends on a duplicate. */
  lemma SearchEndsOnDuplicate(s: seq<Batch>, b: Batch, i: nat, j: nat)
    requires i <= j < |s| && Sorted(s) && HashFixesNumber(s, b)
    requires i > 0 ==> Compare(s[i - 1], b) < 0
    requires s[j].hash == b.hash
    ensures s[Search(s, b, i, j)].hash == b.hash
  {
    SearchStops(s, b, i, j);
    assert s[j] in s;
  }

  lemma {:induction false} SearchFindsProbed(s: seq<Batch>, b: Batch, g: nat, i: nat, j: nat)
    requires i <= g <= j <= |s| && Sorted(s) && HashFixesNumber(s, b) && GroupEnd(s, b.number, g)
    requires i > 0 ==> Compare(s[i - 1], b) < 0
    requires j < |s| ==> Compare(s[j], b) > 0
    ensures
      var pos := Search(s, b, i, j);
      (pos < |s| && s[pos].hash == b.hash)
      <==> exists d: nat :: Probed(i, j, g, d) && d < |s| && s[d].hash == b.hash
    decreases j - i
  {
    hide Middle;
    if i < j {
      var h := Middle(i, j);
      if s[h].hash == b.hash {
        assert s[h] in s;
        SearchEndsOnDuplicate(s, b, i, h);
        assert Probed(i, j, g, h);
      } else if h < g {
        SearchFindsProbed(s, b, g, h + 1, j);
        assert forall d: nat :: Probed(i, j, g, d) <==> d == h || Probed(h + 1, j, g, d);
      } else {
        SearchFindsProbed(s, b, g, i, h);
        assert forall d: nat :: Probed(i, j, g, d) <==> d == h || Probed(i, h, g, d);
      }
    }
  }

  /** Insert does not reject every duplicate. It rejects b exactly when some entry with its hash sits on
      the path a binary search takes to the end of b's number group. */
  lemma DuplicateReportedIff(s: seq<Batch>, capacity: nat, b: Batch, g: nat)
    requires Sorted(s) && HashFixesNumber(s, b) && |s| < capacity
    requires GroupEnd(s, b.number, g)
    ensures Insert(s, capacity, b).1 == Duplicate
       <==> exists d: nat :: Probed(0, |s|, g, d) && d < |s| && s[d].hash == b.hash
  {
    SearchFindsProbed(s, b, g, 0, |s|);
  }

  lemma {:induction false} LastOfGroupProbed(i: nat, j: nat, g: nat)
    requires i < g <= j
    ensures Probed(i, j, g, g - 1)
    decreases j - i
  {
    hide Middle;
    var h := Middle(i, j);
    if h != g - 1 {
      if h < g {
        LastOfGroupProbed(h + 1, j, g);
      } else {
        LastOfGroupProbed(i, h, g);
      }
    }
  }

  /** In particular the last entry of a number group is never inserted twice. */
  lemma LastOfGroupRejected(s: seq<Batch>, capacity: nat, b: Batch, g: nat)
    requires Sorted(s) && HashFixesNumber(s, b) && |s| < capacity
    requires GroupEnd(s, b.number, g) && g > 0 && s[g - 1].hash == b.hash
    ensures Insert(s, capacity, b) == (s, Duplicate)
  {
    LastOfGroupProbed(0, |s|, g);
    DuplicateReportedIff(s, capacity, b, g);
  }

  /** A duplicate that is accepted: the first of three alternatives for one number, offered again. */
  lemma DuplicateMissed(a: Batch, b: Batch, c: Batch)
    requires a.number == b.number == c.number
    requires a.hash != b.hash && a.hash != c.hash && b.hash != c.hash
    ensures Insert([a, b, c], 4, a) == ([a, b, c, a], Inserted)
  {
    var s := [a, b, c];
    assert Search(s, a, 0, 3) == Search(s, a, 2, 3) == Search(s, a, 3, 3) == 3;
    assert InsertAt(s, 3, a) == [a, b, c, a];
  }
}
