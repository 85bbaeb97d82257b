/** What is handed out depends on the log and on L1 only: for each number, the first batch in HotShot order
    that L1 finally accepts, however calls and range splits interleave. */
module Delivery {
  import opened Batches
  import opened BufferSpec
  import opened L1Check
  import opened StreamerSpec
  import opened StreamerRuns
  import NoLoss

  // ---------- the reference ----------

  /** b sits in the log at or after block from, L1 accepts it, and no batch of its number that sits earlier in
      that part of the log is accepted. */
  ghost predicate IsFirstAccepted(log: Log, truth: Truth, from: nat, b: Batch) {
    exists p: nat, i: nat :: FirstAcceptedAt(log, truth, from, b, p, i)
  }

  ghost predicate FirstAcceptedAt(log: Log, truth: Truth, from: nat, b: Batch, p: nat, i: nat) {
    && from <= p && i < |log(p)| && log(p)[i] == Some(b)
    && FinallyAccepted(truth, b)
    && forall q: nat, j: nat | from <= q && j < |log(q)| && (q < p || (q == p && j < i)) ::
         log(q)[j] != None && log(q)[j].value.number == b.number ==> !FinallyAccepted(truth, log(q)[j].value)
  }

  lemma FirstAcceptedIsUnique(log: Log, truth: Truth, from: nat, b: Batch, c: Batch)
    requires IsFirstAccepted(log, truth, from, b) && IsFirstAccepted(log, truth, from, c)
    requires b.number == c.number
    ensures b == c
  {
  }

  // ---------- the log as one sequence ----------

  function Decoded(txs: seq<Tx>): seq<Batch> {
    if txs == [] then []
    else (if txs[0].Some? then [txs[0].value] else []) + Decoded(txs[1..])
  }

  /** The batches in blocks [from, to), in order. */
  function Blocks(log: Log, from: nat, to: nat): seq<Batch> {
    if from >= to then [] else Blocks(log, from, to - 1) + Decoded(log(to - 1))
  }

  function FirstOk(truth: Truth, s: seq<Batch>): Option<Batch> {
    if s == [] then None
    else if FinallyAccepted(truth, s[0]) then Some(s[0])
    else FirstOk(truth, s[1..])
  }

  /** The first accepted batch numbered n in s. */
  function Winner(truth: Truth, s: seq<Batch>, n: nat): Option<Batch> {
    FirstOk(truth, OfNumber(s, n))
  }

  lemma {:induction false} FirstOkConcat(truth: Truth, s: seq<Batch>, t: seq<Batch>)
    ensures FirstOk(truth, s + t) == if FirstOk(truth, s).Some? then FirstOk(truth, s) else FirstOk(truth, t)
  {
    if s == [] {
      assert s + t == t;
    } else {
      assert (s + t)[1..] == s[1..] + t;
      FirstOkConcat(truth, s[1..], t);
    }
  }

  lemma WinnerConcat(truth: Truth, s: seq<Batch>, t: seq<Batch>, n: nat)
    ensures Winner(truth, s + t, n) == if Winner(truth, s, n).Some? then Winner(truth, s, n) else Winner(truth, t, n)
  {
    OfNumberConcat(s, t, n);
    FirstOkConcat(truth, OfNumber(s, n), OfNumber(t, n));
  }

  lemma WinnerOfOne(truth: Truth, b: Batch, n: nat)
    ensures Winner(truth, [b], n) == if b.number == n && FinallyAccepted(truth, b) then Some(b) else None
  {
    assert [b][1..] == [];
    assert OfNumber([b], n) == if b.number == n then [b] else [];
    assert FirstOk(truth, [b]) == if FinallyAccepted(truth, b) then Some(b) else None;
  }

  lemma {:induction false} WinnerNone(truth: Truth, s: seq<Batch>, n: nat)
    ensures Winner(truth, s, n) == None <==> forall x | x in s && x.number == n :: !FinallyAccepted(truth, x)
    ensures Winner(truth, s, n).Some? ==> Winner(truth, s, n).value in s && Winner(truth, s, n).value.number == n
  {
    if s != [] {
      assert s == [s[0]] + s[1..];
      WinnerConcat(truth, [s[0]], s[1..], n);
      WinnerOfOne(truth, s[0], n);
      WinnerNone(truth, s[1..], n);
    }
  }

  lemma {:induction false} DecodedMembers(txs: seq<Tx>, b: Batch)
    ensures b in Decoded(txs) <==> Some(b) in txs
  {
    if txs != [] {
      DecodedMembers(txs[1..], b);
      assert txs == [txs[0]] + txs[1..];
    }
  }

  lemma {:induction false} BlocksMembers(log: Log, from: nat, to: nat, b: Batch)
    ensures b in Blocks(log, from, to) <==> exists p: nat :: from <= p < to && Some(b) in log(p)
  {
    if from < to {
      BlocksMembers(log, from, to - 1, b);
      DecodedMembers(log(to - 1), b);
      if b in Blocks(log, from, to) {
        if Some(b) !in log(to - 1) {
          var p: nat :| from <= p < to - 1 && Some(b) in log(p);
        }
      }
    }
  }

  lemma {:induction false} WinnerInBlock(truth: Truth, txs: seq<Tx>, b: Batch) returns (i: nat)
    requires Winner(truth, Decoded(txs), b.number) == Some(b)
    ensures i < |txs| && txs[i] == Some(b) && FinallyAccepted(truth, b)
    ensures forall j | 0 <= j < i && txs[j].Some? && txs[j].value.number == b.number ::
              !FinallyAccepted(truth, txs[j].value)
  {
    var first := if txs[0].Some? then [txs[0].value] else [];
    WinnerConcat(truth, first, Decoded(txs[1..]), b.number);
    if txs[0].Some? {
      WinnerOfOne(truth, txs[0].value, b.number);
    }
    if Winner(truth, first, b.number).Some? {
      i := 0;
    } else {
      var k := WinnerInBlock(truth, txs[1..], b);
      i := k + 1;
      forall j | 0 <= j < i && txs[j].Some? && txs[j].value.number == b.number
        ensures !FinallyAccepted(truth, txs[j].value)
      {
        assert j > 0 ==> txs[j] == txs[1..][j - 1];
      }
    }
  }

  /** The winner in the flattened log is the first accepted batch of its number. */
  lemma {:induction false} WinnerIsFirst(truth: Truth, log: Log, from: nat, to: nat, b: Batch)
    requires Winner(truth, Blocks(log, from, to), b.number) == Some(b)
    ensures IsFirstAccepted(log, truth, from, b)
  {
    WinnerConcat(truth, Blocks(log, from, to - 1), Decoded(log(to - 1)), b.number);
    if Winner(truth, Blocks(log, from, to - 1), b.number).Some? {
      WinnerIsFirst(truth, log, from, to - 1, b);
    } else {
      var i := WinnerInBlock(truth, log(to - 1), b);
      WinnerNone(truth, Blocks(log, from, to - 1), b.number);
      forall q: nat, j: nat | from <= q < to - 1 && j < |log(q)| && log(q)[j] != None
                              && log(q)[j].value.number == b.number
        ensures !FinallyAccepted(truth, log(q)[j].value)
      {
        assert log(q)[j] in log(q);
        BlocksMembers(log, from, to - 1, log(q)[j].value);
      }
      assert FirstAcceptedAt(log, truth, from, b, to - 1, i);
    }
  }

  // ---------- assumptions on the log and on L1 ----------

  /** What a hash says about the batch that carries it: its number and whether L1 finally accepts it. */
  datatype Naming = Naming(numberOf: Hash -> nat, acceptedOf: Hash -> bool)

  ghost predicate InLog(log: Log, b: Batch) {
    exists p: nat :: Some(b) in log(p)
  }

  ghost predicate Named(naming: Naming, truth: Truth, b: Batch) {
    b.number == naming.numberOf(b.hash) && FinallyAccepted(truth, b) == naming.acceptedOf(b.hash)
  }

  ghost predicate HashesIdentify(log: Log, naming: Naming, truth: Truth) {
    forall b | InLog(log, b) :: Named(naming, truth, b)
  }

  /** The signer filter applied before an origin is final drops only batches that L1 would drop anyway. */
  ghost predicate FilterSound(view: L1View, log: Log, truth: Truth) {
    forall b | InLog(log, b) && b.origin.number > view.finalized.number
               && view.batcher != ZERO_ADDRESS && b.signer != view.batcher ::
      !FinallyAccepted(truth, b)
  }

  ghost predicate WorldOk(env: Env, naming: Naming, truth: Truth) {
    Honest(env.rpc, truth) && HashesIdentify(env.log, naming, truth)
  }

  ghost predicate ViewOk(s: State, env: Env, truth: Truth) {
    CacheSound(s.view, truth) && FilterSound(s.view, env.log, truth)
  }

  // ---------- the order kept in head and buffer ----------

  function HeldInOrder(s: State): seq<Batch> {
    (if s.head.Some? then [s.head.value] else []) + s.buffer
  }

  /** For every number still to come, head and buffer name the same winner as the scanned batches. */
  ghost predicate OrderKept(s: State, truth: Truth, scanned: seq<Batch>) {
    forall n: nat | n >= s.nextBatchPos :: Winner(truth, HeldInOrder(s), n) == Winner(truth, scanned, n)
  }

  /** An empty head slot has no candidate waiting in the buffer. */
  ghost predicate HeadReady(s: State) {
    s.head.None? ==> forall x | x in s.buffer :: x.number != s.nextBatchPos
  }

  ghost predicate HeldFromLog(s: State, log: Log) {
    && (s.head.Some? ==> InLog(log, s.head.value))
    && forall x | x in s.buffer :: InLog(log, x)
  }

  /** A verdict is the final one, or is put off. */
  lemma CheckIsFinal(s: State, env: Env, truth: Truth, b: Batch)
    requires Honest(env.rpc, truth) && ViewOk(s, env, truth) && InLog(env.log, b)
    ensures
      var (validity, t) := CheckBatch(s, env, b);
      && ViewOk(t, env, truth)
      && (validity == Accept ==> FinallyAccepted(truth, b))
      && (validity == Drop ==> !FinallyAccepted(truth, b))
  {
  }

  /** HasNext discards only what L1 rejects, and the head it reports ready is the winner of its number. */
  lemma {:induction false} HasNextKeepsOrder(s: State, env: Env, truth: Truth, scanned: seq<Batch>)
    requires HeadInv(s) && HeldFromLog(s, env.log) && Honest(env.rpc, truth) && ViewOk(s, env, truth)
    requires OrderKept(s, truth, scanned)
    ensures
      var (t, ready) := HasNext(s, env);
      && HeldFromLog(t, env.log) && ViewOk(t, env, truth) && OrderKept(t, truth, scanned) && HeadReady(t)
      && (ready ==> t.head.Some? && Winner(truth, scanned, t.nextBatchPos) == t.head)
    decreases Size(s)
  {
    if s.head.None? {
      if s.buffer != [] && s.buffer[0].number <= s.nextBatchPos {
        var x := s.buffer[0];
        var s1 := s.(head := if x.number == s.nextBatchPos then Some(x) else None, buffer := s.buffer[1..]);
        DropOrPromoteFront(s, s1, truth, scanned);
        HasNextKeepsOrder(s1, env, truth, scanned);
      }
    } else {
      CheckIsFinal(s, env, truth, s.head.value);
      var (validity, s1) := CheckBatch(s, env, s.head.value);
      if validity == Drop {
        DropHead(s, DropHeld(s1), truth, scanned);
        HasNextKeepsOrder(DropHeld(s1), env, truth, scanned);
      } else if validity == Accept {
        WinnerConcat(truth, [s.head.value], s.buffer, s.nextBatchPos);
        WinnerOfOne(truth, s.head.value, s.nextBatchPos);
      }
    }
  }

  lemma DropOrPromoteFront(s: State, t: State, truth: Truth, scanned: seq<Batch>)
    requires s.head.None? && s.buffer != [] && s.buffer[0].number <= s.nextBatchPos == t.nextBatchPos
    requires t.head == if s.buffer[0].number == s.nextBatchPos then Some(s.buffer[0]) else None
    requires t.buffer == s.buffer[1..]
    requires OrderKept(s, truth, scanned)
    ensures OrderKept(t, truth, scanned)
    ensures s.buffer == [s.buffer[0]] + t.buffer
  {
    var x := s.buffer[0];
    assert s.buffer == [x] + t.buffer == HeldInOrder(s);
    if x.number < s.nextBatchPos {
      forall n: nat | n >= t.nextBatchPos
        ensures Winner(truth, HeldInOrder(t), n) == Winner(truth, scanned, n)
      {
        WinnerConcat(truth, [x], t.buffer, n);
        WinnerOfOne(truth, x, n);
        assert HeldInOrder(t) == t.buffer;
        assert Winner(truth, HeldInOrder(s), n) == Winner(truth, scanned, n);
      }
    } else {
      assert HeldInOrder(t) == HeldInOrder(s);
      forall n: nat | n >= t.nextBatchPos
        ensures Winner(truth, HeldInOrder(t), n) == Winner(truth, scanned, n)
      {
        assert Winner(truth, HeldInOrder(s), n) == Winner(truth, scanned, n);
      }
    }
  }

  /** Emptying the head slot changes no winner when the head is rejected or is passed. */
  lemma DropHead(s: State, t: State, truth: Truth, scanned: seq<Batch>)
    requires s.head.Some? && t.head.None? && t.buffer == s.buffer && t.nextBatchPos >= s.nextBatchPos
    requires !FinallyAccepted(truth, s.head.value) || s.head.value.number < t.nextBatchPos
    requires OrderKept(s, truth, scanned)
    ensures OrderKept(t, truth, scanned)
  {
    forall n: nat | n >= t.nextBatchPos
      ensures Winner(truth, HeldInOrder(t), n) == Winner(truth, scanned, n)
    {
      WinnerConcat(truth, [s.head.value], s.buffer, n);
      WinnerOfOne(truth, s.head.value, n);
      assert HeldInOrder(t) == t.buffer;
      assert Winner(truth, HeldInOrder(s), n) == Winner(truth, scanned, n);
    }
  }

  // ---------- scanning keeps the order ----------

  /** The new batch does not change the winner of its number. */
  lemma OrderUnchanged(s: State, truth: Truth, scanned: seq<Batch>, b: Batch)
    requires OrderKept(s, truth, scanned)
    requires !FinallyAccepted(truth, b) || b.number < s.nextBatchPos || Winner(truth, HeldInOrder(s), b.number).Some?
    ensures OrderKept(s, truth, scanned + [b])
  {
    forall n: nat | n >= s.nextBatchPos
      ensures Winner(truth, HeldInOrder(s), n) == Winner(truth, scanned + [b], n)
    {
      WinnerConcat(truth, scanned, [b], n);
      WinnerOfOne(truth, b, n);
      assert Winner(truth, HeldInOrder(s), n) == Winner(truth, scanned, n);
    }
  }

  /** b would take the empty head slot ahead of an accepted batch of its number that waits in the buffer. */
  ghost predicate Overtakes(s: State, truth: Truth, b: Batch) {
    && s.head.None? && b.number == s.nextBatchPos && FinallyAccepted(truth, b)
    && Winner(truth, s.buffer, b.number) !in {None, Some(b)}
  }

  /** b would be taken for a duplicate of a held batch although no held batch of its number is accepted. */
  ghost predicate Shadowed(s: State, truth: Truth, b: Batch) {
    && FinallyAccepted(truth, b) && b.number >= s.nextBatchPos && Winner(truth, HeldInOrder(s), b.number) == None
    && (if s.head.Some? && b.number == s.head.value.number && b.hash == s.head.value.hash then true
        else (s.head.Some? || b.number != s.nextBatchPos) && Insert(s.buffer, s.capacity, b).1 == Duplicate)
  }

  /** Taking the empty head slot keeps the order exactly when nothing is overtaken. */
  lemma HeadTaken(s: State, truth: Truth, scanned: seq<Batch>, b: Batch)
    requires s.head.None? && b.number == s.nextBatchPos && OrderKept(s, truth, scanned)
    ensures OrderKept(s.(head := Some(b)), truth, scanned + [b]) <==> !Overtakes(s, truth, b)
  {
    var t := s.(head := Some(b));
    assert HeldInOrder(s) == s.buffer;
    forall n: nat | n >= s.nextBatchPos
      ensures
        Winner(truth, HeldInOrder(t), n) == Winner(truth, scanned + [b], n)
        <==> !(n == b.number && Overtakes(s, truth, b))
    {
      WinnerConcat(truth, scanned, [b], n);
      WinnerConcat(truth, [b], s.buffer, n);
      WinnerOfOne(truth, b, n);
      assert Winner(truth, HeldInOrder(s), n) == Winner(truth, scanned, n);
    }
    assert Winner(truth, HeldInOrder(t), b.number) == Winner(truth, scanned + [b], b.number)
      <==> !Overtakes(s, truth, b);
  }

  /** A batch that joins its group in the buffer. */
  lemma Buffered(s: State, truth: Truth, scanned: seq<Batch>, b: Batch)
    requires Sorted(s.buffer) && OrderKept(s, truth, scanned)
    requires Insert(s.buffer, s.capacity, b).1 == Inserted
    ensures OrderKept(s.(buffer := Insert(s.buffer, s.capacity, b).0), truth, scanned + [b])
  {
    var buffer' := Insert(s.buffer, s.capacity, b).0;
    var front := if s.head.Some? then [s.head.value] else [];
    forall n: nat | n >= s.nextBatchPos
      ensures Winner(truth, front + buffer', n) == Winner(truth, scanned + [b], n)
    {
      WinnerConcat(truth, scanned, [b], n);
      WinnerConcat(truth, front, buffer', n);
      WinnerConcat(truth, front, s.buffer, n);
      InsertKeepsGroups(s.buffer, s.capacity, b, n);
      FirstOkConcat(truth, OfNumber(s.buffer, n), if n == b.number then [b] else []);
      WinnerOfOne(truth, b, n);
      assert [b][1..] == [];
      assert Winner(truth, HeldInOrder(s), n) == Winner(truth, scanned, n);
    }
  }

  /** An equal hash among the held batches: the winner of that number is decided already, if b is accepted. */
  lemma HeldCopyDecides(s: State, log: Log, naming: Naming, truth: Truth, b: Batch)
    requires HashesIdentify(log, naming, truth) && HeldFromLog(s, log) && InLog(log, b)
    requires exists x :: x in HeldInOrder(s) && x.hash == b.hash
    ensures FinallyAccepted(truth, b) ==> Winner(truth, HeldInOrder(s), b.number).Some?
  {
    var x :| x in HeldInOrder(s) && x.hash == b.hash;
    assert Named(naming, truth, x) && Named(naming, truth, b);
    WinnerNone(truth, HeldInOrder(s), b.number);
  }

  /** A dropped duplicate keeps the order exactly when it was not needed as the winner of its number. */
  lemma DuplicateSkipped(s: State, truth: Truth, scanned: seq<Batch>, b: Batch)
    requires OrderKept(s, truth, scanned) && b.number >= s.nextBatchPos
    ensures OrderKept(s, truth, scanned + [b])
       <==> !(FinallyAccepted(truth, b) && Winner(truth, HeldInOrder(s), b.number) == None)
  {
    if FinallyAccepted(truth, b) && Winner(truth, HeldInOrder(s), b.number) == None {
      WinnerConcat(truth, scanned, [b], b.number);
      WinnerOfOne(truth, b, b.number);
      assert Winner(truth, HeldInOrder(s), b.number) == Winner(truth, scanned, b.number);
    } else {
      OrderUnchanged(s, truth, scanned, b);
    }
  }

  /** The exact condition under which scanning one more batch keeps the order of head and buffer. */
  lemma ProcessKeepsOrderIff(s: State, env: Env, truth: Truth, scanned: seq<Batch>, b: Batch)
    requires HeadInv(s) && HeldFromLog(s, env.log) && Honest(env.rpc, truth) && ViewOk(s, env, truth)
    requires OrderKept(s, truth, scanned) && InLog(env.log, b)
    requires !Process(s, env, Some(b)).1
    ensures
      var t := Process(s, env, Some(b)).0;
      && HeldFromLog(t, env.log) && ViewOk(t, env, truth)
      && (OrderKept(t, truth, scanned + [b]) <==> !Overtakes(s, truth, b) && !Shadowed(s, truth, b))
      && (HeadReady(s) ==> HeadReady(t))
  {
    CheckIsFinal(s, env, truth, b);
    var (validity, s1) := CheckBatch(s, env, b);
    assert HeldInOrder(s1) == HeldInOrder(s);
    if validity == Drop || validity == Past {
      OrderUnchanged(s1, truth, scanned, b);
    } else if s1.head.Some? && b.number == s1.head.value.number && b.hash == s1.head.value.hash {
      DuplicateSkipped(s1, truth, scanned, b);
    } else if b.number == s1.nextBatchPos && s1.head.None? {
      HeadTaken(s1, truth, scanned, b);
    } else {
      InsertMembers(s.buffer, s.capacity, b);
      if Insert(s.buffer, s.capacity, b).1 == Duplicate {
        DuplicateSkipped(s1, truth, scanned, b);
      } else {
        Buffered(s1, truth, scanned, b);
      }
    }
  }

  lemma ProcessKeepsOrder(s: State, env: Env, naming: Naming, truth: Truth, scanned: seq<Batch>, b: Batch)
    requires HeadInv(s) && HeldFromLog(s, env.log) && WorldOk(env, naming, truth) && ViewOk(s, env, truth)
    requires OrderKept(s, truth, scanned) && HeadReady(s) && InLog(env.log, b)
    requires !Process(s, env, Some(b)).1
    ensures
      var t := Process(s, env, Some(b)).0;
      && HeldFromLog(t, env.log) && ViewOk(t, env, truth)
      && OrderKept(t, truth, scanned + [b]) && HeadReady(t)
  {
    ProcessKeepsOrderIff(s, env, truth, scanned, b);
    WinnerNone(truth, s.buffer, s.nextBatchPos);
    NotShadowed(s, env.log, naming, truth, b);
  }

  lemma NotShadowed(s: State, log: Log, naming: Naming, truth: Truth, b: Batch)
    requires HeadInv(s) && HashesIdentify(log, naming, truth) && HeldFromLog(s, log) && InLog(log, b)
    ensures !Shadowed(s, truth, b)
  {
    if Shadowed(s, truth, b) {
      if s.head.Some? && b.number == s.head.value.number && b.hash == s.head.value.hash {
        assert s.head.value in HeldInOrder(s);
      } else {
        InsertKeepsOrder(s.buffer, s.capacity, b);
        var x :| x in s.buffer && x.hash == b.hash;
        assert x in HeldInOrder(s);
      }
      HeldCopyDecides(s, log, naming, truth, b);
    }
  }

  // ---------- the invariant of delivery ----------

  ghost predicate Ordered(s: State, env: Env, truth: Truth, scanned: seq<Batch>) {
    HeadInv(s) && HeldFromLog(s, env.log) && ViewOk(s, env, truth) && OrderKept(s, truth, scanned)
  }

  /** The scanned part of the log is [from, seen), and the cursor stands at its end. Position 0 stands both for
      nothing scanned and for block 0 scanned, so block 0 may be read twice. */
  ghost predicate ScanInv(s: State) {
    && s.history.from <= s.history.seen
    && s.history.from <= ScanStart(s.hotShotPos)
    && (if s.hotShotPos > 0 then s.history.seen == s.hotShotPos + 1 else s.history.seen <= 1)
  }

  ghost predicate InStep(s: State, env: Env, truth: Truth) {
    && Inv(s) && ScanInv(s) && s.skipPos == MAX_UINT64
    && Ordered(s, env, truth, Blocks(env.log, s.history.from, s.history.seen))
  }

  lemma {:induction false} TxsKeepOrder(s: State, env: Env, naming: Naming, truth: Truth, scanned: seq<Batch>,
                                        blockPos: Height, txs: seq<Tx>)
    requires WorldOk(env, naming, truth) && Ordered(s, env, truth, scanned) && HeadReady(s)
    requires forall b: Batch | Some(b) in txs :: InLog(env.log, b)
    requires ProcessTxs(s, env, blockPos, txs).skipPos == MAX_UINT64
    ensures
      var t := ProcessTxs(s, env, blockPos, txs);
      Ordered(t, env, truth, scanned + Decoded(txs)) && HeadReady(t)
    decreases |txs|
  {
    if txs == [] {
      assert scanned + Decoded(txs) == scanned;
    } else {
      var s1 := ProcessTx(s, env, blockPos, txs[0]);
      var first := if txs[0].Some? then [txs[0].value] else [];
      TxKeepsOrder(s, env, naming, truth, scanned, blockPos, txs[0]);
      TxsKeepOrder(s1, env, naming, truth, scanned + first, blockPos, txs[1..]);
      assert scanned + first + Decoded(txs[1..]) == scanned + Decoded(txs);
    }
  }

  lemma TxKeepsOrder(s: State, env: Env, naming: Naming, truth: Truth, scanned: seq<Batch>, blockPos: Height, tx: Tx)
    requires WorldOk(env, naming, truth) && Ordered(s, env, truth, scanned) && HeadReady(s)
    requires tx.Some? ==> InLog(env.log, tx.value)
    requires ProcessTx(s, env, blockPos, tx).skipPos == MAX_UINT64
    ensures
      var t := ProcessTx(s, env, blockPos, tx);
      Ordered(t, env, truth, scanned + if tx.Some? then [tx.value] else []) && HeadReady(t)
  {
    ProcessKeepsHead(s, env, tx);
    if tx.Some? {
      ProcessKeepsOrder(s, env, naming, truth, scanned, tx.value);
    } else {
      assert scanned + [] == scanned;
    }
  }

  lemma {:induction false} BlocksKeepOrder(s: State, env: Env, naming: Naming, truth: Truth, start: nat, finish: Height)
    requires WorldOk(env, naming, truth) && HeadReady(s) && s.history.from <= start <= finish
    requires Ordered(s, env, truth, Blocks(env.log, s.history.from, start))
    requires ProcessBlocks(s, env, start, finish).skipPos == MAX_UINT64
    ensures
      var t := ProcessBlocks(s, env, start, finish);
      Ordered(t, env, truth, Blocks(env.log, s.history.from, finish)) && HeadReady(t)
    decreases finish - start
  {
    hide Ordered, WorldOk, HeadReady;
    if start < finish {
      TxsKeepOrder(s, env, naming, truth, Blocks(env.log, s.history.from, start), start, env.log(start));
      BlocksKeepOrder(ProcessTxs(s, env, start, env.log(start)), env, naming, truth, start + 1, finish);
    }
  }

  /** Batches that are part of the scanned log already name no new winner. */
  lemma RescanNamesNoWinner(s: State, truth: Truth, scanned: seq<Batch>, again: seq<Batch>)
    requires OrderKept(s, truth, scanned + again)
    requires forall b | b in again :: b in scanned
    ensures OrderKept(s, truth, scanned)
  {
    forall n: nat | n >= s.nextBatchPos
      ensures Winner(truth, HeldInOrder(s), n) == Winner(truth, scanned, n)
    {
      assert Winner(truth, HeldInOrder(s), n) == Winner(truth, scanned + again, n);
      WinnerConcat(truth, scanned, again, n);
      WinnerNone(truth, scanned, n);
      WinnerNone(truth, again, n);
    }
  }

  /** Only head, buffer, numbers and the L1 view matter to the order. */
  lemma OrderedElsewhere(s: State, env: Env, truth: Truth, scanned: seq<Batch>, pos: Height, history: History)
    requires Ordered(s, env, truth, scanned)
    ensures Ordered(s.(hotShotPos := pos, history := history), env, truth, scanned)
  {
    assert HeldInOrder(s.(hotShotPos := pos, history := history)) == HeldInOrder(s);
  }

  lemma FetchKeepsOrder(s: State, env: Env, naming: Naming, truth: Truth, answer: Answer, finish: Height)
    requires WorldOk(env, naming, truth) && InStep(s, env, truth) && HeadReady(s)
    requires ScanStart(s.hotShotPos) < finish
    requires FetchRange(s, env, answer, ScanStart(s.hotShotPos), finish).0.skipPos == MAX_UINT64
    ensures
      var t := FetchRange(s, env, answer, ScanStart(s.hotShotPos), finish).0;
      InStep(t, env, truth) && HeadReady(t)
  {
    hide HeldFromLog, ViewOk, OrderKept, WorldOk;
    FetchRangeKeeps(s, env, answer, finish);
    if answer.Served? {
      var start, from := ScanStart(s.hotShotPos), s.history.from;
      var s1 := s.(hotShotPos := finish - 1, history := s.history.(seen := Max(s.history.seen, finish)));
      OrderedElsewhere(s, env, truth, Blocks(env.log, from, s.history.seen), s1.hotShotPos, s1.history);
      if s.history.seen == start {
        BlocksKeepOrder(s1, env, naming, truth, start, finish);
      } else {
        var scanned := Blocks(env.log, from, 1);
        TxsKeepOrder(s1, env, naming, truth, scanned, 0, env.log(0));
        var s2 := ProcessTxs(s1, env, 0, env.log(0));
        forall b | b in Decoded(env.log(0))
          ensures b in scanned
        {
          DecodedMembers(env.log(0), b);
          BlocksMembers(env.log, from, 1, b);
        }
        RescanNamesNoWinner(s2, truth, scanned, Decoded(env.log(0)));
        BlocksKeepOrder(s2, env, naming, truth, 1, finish);
      }
    }
  }

  lemma HasNextInStep(s: State, env: Env, truth: Truth)
    requires Honest(env.rpc, truth) && InStep(s, env, truth)
    ensures
      var (t, ready) := HasNext(s, env);
      && InStep(t, env, truth) && HeadReady(t)
      && (ready ==> t.head.Some? && IsFirstAccepted(env.log, truth, s.history.from, t.head.value))
  {
    HasNextKeepsHead(s, env);
    HasNextKeepsOrder(s, env, truth, Blocks(env.log, s.history.from, s.history.seen));
    var (t, ready) := HasNext(s, env);
    if ready {
      WinnerIsFirst(truth, env.log, s.history.from, s.history.seen, t.head.value);
    }
  }

  /** L1 has decided on every held batch of the number wanted next. */
  ghost predicate Settled(s: State) {
    && s.view.finalized != ZERO_REF
    && forall x | x in HeldInOrder(s) && x.number == s.nextBatchPos :: x.origin.number <= s.view.finalized.number
  }

  lemma {:induction false} NothingPutOff(s: State, env: Env, truth: Truth)
    requires HeadInv(s) && HeldFromLog(s, env.log) && Honest(env.rpc, truth) && NeverFails(env.rpc)
    requires ViewOk(s, env, truth) && Settled(s)
    ensures !HasNext(s, env).1 ==> HasNext(s, env).0.head.None?
    decreases Size(s)
  {
    if s.head.None? {
      if s.buffer != [] && s.buffer[0].number <= s.nextBatchPos {
        var x := s.buffer[0];
        var s1 := s.(head := if x.number == s.nextBatchPos then Some(x) else None, buffer := s.buffer[1..]);
        assert s.buffer == [x] + s1.buffer;
        NothingPutOff(s1, env, truth);
      }
    } else {
      CheckIsFinal(s, env, truth, s.head.value);
      CachedAgreesWithUncached(s.view, env.rpc, truth, s.nextBatchPos, s.head.value);
      var (validity, s1) := CheckBatch(s, env, s.head.value);
      assert s.head.value in HeldInOrder(s);
      if validity == Drop {
        assert forall x | x in HeldInOrder(DropHeld(s1)) :: x in HeldInOrder(s);
        NothingPutOff(DropHeld(s1), env, truth);
      }
    }
  }

  lemma ReadyIffWinner(s: State, env: Env, truth: Truth, scanned: seq<Batch>)
    requires HeadInv(s) && HeldFromLog(s, env.log) && Honest(env.rpc, truth) && NeverFails(env.rpc)
    requires ViewOk(s, env, truth) && Settled(s) && OrderKept(s, truth, scanned)
    ensures HasNext(s, env).1 <==> Winner(truth, scanned, s.nextBatchPos).Some?
  {
    HasNextKeepsOrder(s, env, truth, scanned);
    NothingPutOff(s, env, truth);
    var t := HasNext(s, env).0;
    if !HasNext(s, env).1 {
      assert HeldInOrder(t) == t.buffer;
      WinnerNone(truth, HeldInOrder(t), s.nextBatchPos);
    }
  }

  lemma {:induction false} WinnerAccepted(truth: Truth, s: seq<Batch>, n: nat)
    requires Winner(truth, s, n).Some?
    ensures FinallyAccepted(truth, Winner(truth, s, n).value)
  {
    assert s == [s[0]] + s[1..];
    WinnerConcat(truth, [s[0]], s[1..], n);
    WinnerOfOne(truth, s[0], n);
    if Winner(truth, [s[0]], n).None? {
      WinnerAccepted(truth, s[1..], n);
    }
  }

  lemma WinnerIffInLog(truth: Truth, log: Log, from: nat, to: nat, n: nat)
    ensures Winner(truth, Blocks(log, from, to), n).Some?
       <==> exists b: Batch, p: nat ::
              from <= p < to && Some(b) in log(p) && b.number == n && FinallyAccepted(truth, b)
  {
    var scanned := Blocks(log, from, to);
    WinnerNone(truth, scanned, n);
    if Winner(truth, scanned, n).Some? {
      var w := Winner(truth, scanned, n).value;
      WinnerAccepted(truth, scanned, n);
      BlocksMembers(log, from, to, w);
      var p: nat :| from <= p < to && Some(w) in log(p);
    }
    if b: Batch, p: nat :| from <= p < to && Some(b) in log(p) && b.number == n && FinallyAccepted(truth, b) {
      BlocksMembers(log, from, to, b);
    }
  }

  /** Nothing accepted is overlooked: when L1 answers and has decided, HasNext has a batch to hand out exactly
      when the scanned log has an accepted one for the wanted number. */
  lemma ReadyIffAcceptedScanned(s: State, env: Env, truth: Truth)
    requires Honest(env.rpc, truth) && NeverFails(env.rpc) && InStep(s, env, truth) && Settled(s)
    ensures HasNext(s, env).1
       <==> exists b: Batch, p: nat ::
              && s.history.from <= p < s.history.seen && Some(b) in env.log(p)
              && b.number == s.nextBatchPos && FinallyAccepted(truth, b)
  {
    ReadyIffWinner(s, env, truth, Blocks(env.log, s.history.from, s.history.seen));
    WinnerIffInLog(truth, env.log, s.history.from, s.history.seen, s.nextBatchPos);
  }

  lemma UpdateOnceInStep(s: State, env: Env, naming: Naming, truth: Truth, net: Network, finalized: Height, i: nat)
    requires finalized + 1 < MAX_UINT64
    requires WorldOk(env, naming, truth) && InStep(s, env, truth) && HeadReady(s)
    requires UpdateOnce(s, env, net, finalized, i).0.skipPos == MAX_UINT64
    ensures
      var t := UpdateOnce(s, env, net, finalized, i).0;
      InStep(t, env, truth) && HeadReady(t)
  {
    var (start, finish) := ComputeRange(s.hotShotPos, finalized, HOTSHOT_BLOCK_FETCH_LIMIT);
    if !(start >= finish || (start + 1 == finish && i > 0)) {
      var s1 := FetchRange(s, env, net.answers(i), start, finish).0;
      FetchKeepsOrder(s, env, naming, truth, net.answers(i), finish);
      HasNextInStep(s1, env, truth);
    }
  }

  lemma {:induction false} UpdateLoopInStep(s: State, env: Env, naming: Naming, truth: Truth, net: Network,
                                            finalized: Height, i: nat, rounds: nat)
    requires finalized + 1 < MAX_UINT64
    requires WorldOk(env, naming, truth) && InStep(s, env, truth) && HeadReady(s)
    requires UpdateLoop(s, env, net, finalized, i, rounds).0.skipPos == MAX_UINT64
    ensures
      var t := UpdateLoop(s, env, net, finalized, i, rounds).0;
      InStep(t, env, truth) && HeadReady(t)
    decreases rounds
  {
    hide UpdateOnce;
    if rounds > 0 {
      UpdateOnceInStep(s, env, naming, truth, net, finalized, i);
      var (t, end) := UpdateOnce(s, env, net, finalized, i);
      if end.None? {
        UpdateLoopInStep(t, env, naming, truth, net, finalized, i + 1, rounds - 1);
      }
    }
  }

  lemma UpdateInStep(s: State, env: Env, naming: Naming, truth: Truth, net: Network, rounds: nat) returns (t: State)
    requires WorldOk(env, naming, truth) && InStep(s, env, truth) && HeadReady(s)
    requires Update(s, env, net, rounds).0.skipPos == MAX_UINT64
    ensures t == Update(s, env, net, rounds).0 && InStep(t, env, truth) && HeadReady(t)
  {
    hide UpdateLoop;
    if net.latest.None? || net.latest.value == MAX_UINT64 || net.latest.value < 2 {
      t := s;
    } else {
      t := UpdateLoop(s, env, net, net.latest.value - 2, 0, rounds).0;
      UpdateLoopInStep(s, env, naming, truth, net, net.latest.value - 2, 0, rounds);
    }
  }

  lemma NextInStep(s: State, env: Env, truth: Truth)
    requires Honest(env.rpc, truth) && InStep(s, env, truth)
    ensures
      var (t, out) := Next(s, env);
      && InStep(t, env, truth)
      && (out.None? ==> HeadReady(t))
      && (out.Some? ==> IsFirstAccepted(env.log, truth, s.history.from, out.value))
  {
    NextKeeps(s, env);
    HasNextInStep(s, env, truth);
    var (s1, ready) := HasNext(s, env);
    if ready {
      DropHead(s1, Next(s, env).0, truth, Blocks(env.log, s.history.from, s.history.seen));
    }
  }

  lemma RefreshInStep(s: State, t: State, env: Env, truth: Truth)
    requires InStep(s, env, truth) && Inv(t) && NoLoss.StaysOrRestarts(s, t)
    requires t.view.cache == s.view.cache && FilterSound(t.view, env.log, truth)
    ensures InStep(t, env, truth)
    ensures HeadReady(s) || (t.head.None? && t.buffer == []) ==> HeadReady(t)
  {
  }

  // ---------- runs ----------

  /** Whether a batch was handed out since the streamer was last polled. */
  predicate Pending(pending: bool, e: Event, out: Option<Batch>) {
    match e
    case EvNext => out.Some?
    case EvHasNext => false
    case EvPeek => false
    case EvReset => false
    case _ => pending
  }

  /** A run without SetProperHead and without overflow, in which HasNext, Peek or a Next that found nothing
      comes between a batch handed out and the following Update, under a signer filter that stays sound. */
  ghost predicate Calm(s: State, env: Env, truth: Truth, pending: bool, es: seq<Event>)
    decreases |es|
  {
    && s.skipPos == MAX_UINT64
    && FilterSound(s.view, env.log, truth)
    && (es != [] ==>
          && !es[0].EvSetProperHead?
          && (es[0].EvUpdate? ==> !pending)
          && var (t, out) := Step(s, env, es[0]);
             Calm(t, env, truth, Pending(pending, es[0], out), es[1..]))
  }

  /** Every batch the run hands out is the first accepted one of its number, counted from the block at which
      the scan since the latest reset began. */
  ghost predicate HandsOutFirstAccepted(s: State, env: Env, truth: Truth, es: seq<Event>)
    decreases |es|
  {
    es != [] ==>
      var (t, out) := Step(s, env, es[0]);
      && (out.Some? ==> IsFirstAccepted(env.log, truth, s.history.from, out.value))
      && HandsOutFirstAccepted(t, env, truth, es[1..])
  }

  lemma RefreshesStayOrRestart(s: State, env: Env, e: Event)
    requires e.EvRefresh? || e.EvRefreshSafeL1Origin? || e.EvReset?
    ensures
      var t := Step(s, env, e).0;
      && NoLoss.StaysOrRestarts(s, t) && t.view.cache == s.view.cache
      && (e.EvReset? ==> t.head.None? && t.buffer == [])
  {
  }

  lemma RestartInStep(s: State, env: Env, truth: Truth, e: Event)
    requires InStep(s, env, truth) && (e.EvRefresh? || e.EvRefreshSafeL1Origin? || e.EvReset?)
    requires FilterSound(Step(s, env, e).0.view, env.log, truth)
    ensures
      var t := Step(s, env, e).0;
      InStep(t, env, truth) && (HeadReady(s) || e.EvReset? ==> HeadReady(t))
  {
    StepKeeps(s, env, e);
    RefreshesStayOrRestart(s, env, e);
    RefreshInStep(s, Step(s, env, e).0, env, truth);
  }

  lemma StepInStep(s: State, env: Env, naming: Naming, truth: Truth, pending: bool, e: Event)
    requires WorldOk(env, naming, truth) && InStep(s, env, truth) && (!pending ==> HeadReady(s))
    requires !e.EvSetProperHead? && (e.EvUpdate? ==> !pending)
    requires Step(s, env, e).0.skipPos == MAX_UINT64 && FilterSound(Step(s, env, e).0.view, env.log, truth)
    ensures
      var (t, out) := Step(s, env, e);
      && InStep(t, env, truth)
      && (!Pending(pending, e, out) ==> HeadReady(t))
      && (out.Some? ==> IsFirstAccepted(env.log, truth, s.history.from, out.value))
  {
    match e
    case EvUpdate(net, rounds) => var t := UpdateInStep(s, env, naming, truth, net, rounds);
    case EvRefresh(_, _, _, _) => RestartInStep(s, env, truth, e);
    case EvRefreshSafeL1Origin(_) => RestartInStep(s, env, truth, e);
    case EvReset => RestartInStep(s, env, truth, e);
    case EvHasNext => HasNextInStep(s, env, truth);
    case EvPeek => HasNextInStep(s, env, truth);
    case EvNext => NextInStep(s, env, truth);
  }

  lemma {:induction false} CalmRunsHandOutFirstAccepted(s: State, env: Env, naming: Naming, truth: Truth,
                                                        pending: bool, es: seq<Event>)
    requires WorldOk(env, naming, truth) && InStep(s, env, truth) && (!pending ==> HeadReady(s))
    requires Calm(s, env, truth, pending, es)
    ensures HandsOutFirstAccepted(s, env, truth, es)
    decreases |es|
  {
    if es != [] {
      var (t, out) := Step(s, env, es[0]);
      assert Calm(t, env, truth, Pending(pending, es[0], out), es[1..]);
      StepInStep(s, env, naming, truth, pending, es[0]);
      CalmRunsHandOutFirstAccepted(t, env, naming, truth, Pending(pending, es[0], out), es[1..]);
    }
  }

  lemma CreatedInStep(originHotShotPos: Height, originBatchPos: BlockNumber, capacity: nat, env: Env, truth: Truth)
    ensures
      var s := Create(originHotShotPos, originBatchPos, capacity);
      InStep(s, env, truth) && HeadReady(s)
  {
  }

  /** Delivery refines the log: from a fresh streamer, every batch handed out is the first accepted batch of
      its number, whatever the interleaving of calls, the range splits, the failing calls and the resets. */
  lemma DeliveryRefinesLog(originHotShotPos: Height, originBatchPos: BlockNumber, capacity: nat, env: Env,
                           naming: Naming, truth: Truth, es: seq<Event>)
    requires WorldOk(env, naming, truth)
    requires Calm(Create(originHotShotPos, originBatchPos, capacity), env, truth, false, es)
    ensures HandsOutFirstAccepted(Create(originHotShotPos, originBatchPos, capacity), env, truth, es)
  {
    CreatedInStep(originHotShotPos, originBatchPos, capacity, env, truth);
    CalmRunsHandOutFirstAccepted(Create(originHotShotPos, originBatchPos, capacity), env, naming, truth, false, es);
  }

  lemma {:induction false} FirstAcceptedWithinEpoch(s: State, env: Env, truth: Truth, es: seq<Event>)
    requires Inv(s) && HandsOutFirstAccepted(s, env, truth, es)
    requires Run(s, env, es).0.history.epoch == s.history.epoch
    ensures forall k | 0 <= k < |Run(s, env, es).1| ::
              IsFirstAccepted(env.log, truth, s.history.from, Run(s, env, es).1[k])
    decreases |es|
  {
    if es != [] {
      var t := Step(s, env, es[0]).0;
      StepKeeps(s, env, es[0]);
      RunKeeps(t, env, es[1..]);
      FirstAcceptedWithinEpoch(t, env, truth, es[1..]);
    }
  }

  /** Timing does not matter: two streamers with the same origin that read the same log hand out the same
      batches, although their calls, answers, capacities and caches differ, as long as neither resets. */
  lemma TimingIndependent(originHotShotPos: Height, originBatchPos: BlockNumber, truth: Truth, naming: Naming,
                          capacity1: nat, env1: Env, es1: seq<Event>, capacity2: nat, env2: Env, es2: seq<Event>)
    requires env1.log == env2.log && WorldOk(env1, naming, truth) && WorldOk(env2, naming, truth)
    requires Calm(Create(originHotShotPos, originBatchPos, capacity1), env1, truth, false, es1)
    requires Calm(Create(originHotShotPos, originBatchPos, capacity2), env2, truth, false, es2)
    requires Run(Create(originHotShotPos, originBatchPos, capacity1), env1, es1).0.history.epoch == 0
    requires Run(Create(originHotShotPos, originBatchPos, capacity2), env2, es2).0.history.epoch == 0
    ensures
      var out1 := Run(Create(originHotShotPos, originBatchPos, capacity1), env1, es1).1;
      var out2 := Run(Create(originHotShotPos, originBatchPos, capacity2), env2, es2).1;
      forall k | 0 <= k < |out1| && k < |out2| :: out1[k] == out2[k]
  {
    var s1 := Create(originHotShotPos, originBatchPos, capacity1);
    var s2 := Create(originHotShotPos, originBatchPos, capacity2);
    DeliveryRefinesLog(originHotShotPos, originBatchPos, capacity1, env1, naming, truth, es1);
    DeliveryRefinesLog(originHotShotPos, originBatchPos, capacity2, env2, naming, truth, es2);
    FirstAcceptedWithinEpoch(s1, env1, truth, es1);
    FirstAcceptedWithinEpoch(s2, env2, truth, es2);
    RunKeeps(s1, env1, es1);
    RunKeeps(s2, env2, es2);
    var out1, out2 := Run(s1, env1, es1).1, Run(s2, env2, es2).1;
    forall k | 0 <= k < |out1| && k < |out2|
      ensures out1[k] == out2[k]
    {
      FirstAcceptedIsUnique(env1.log, truth, s1.history.from, out1[k], out2[k]);
    }
  }
}
