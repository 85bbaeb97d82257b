/** The validity check of a batch against L1: its cache, the calls it makes, and why caching is harmless. */
module L1Check {
  import opened Batches

  datatype Validity = Drop | Accept | Undecided | Past

  datatype L1BlockRef = L1BlockRef(hash: Hash, number: nat, parentHash: Hash, time: nat)

  const ZERO_REF := L1BlockRef(0, 0, 0, 0)

  datatype L1Entry = L1Entry(hash: Hash, authorized: seq<Address>)

  /** The answers of the L1 nodes. The first argument is the running count of checks, so that two calls
      may be answered differently; None is a failed call.
      - headerHash(call, number): hash of the rollup L1 header;
      - batcherAt(call, finalized, number): batcher registered at L1 block number, asked at finalized;
      - evicted(call): keys that leave the cache when the call adds an entry. */
  datatype Rpc = Rpc(
    headerHash: (nat, nat) -> Option<Hash>,
    batcherAt: (nat, nat, nat) -> Option<Address>,
    evicted: nat -> set<nat>)

  /** What the streamer knows of L1. */
  datatype L1View = L1View(
    finalized: L1BlockRef,
    batcher: Address,
    cache: map<nat, L1Entry>,
    calls: nat)

  datatype Checked = Checked(validity: Validity, view: L1View)

  /** The comparison that ends every check that got as far as an entry for its origin. */
  function Judge(entry: L1Entry, b: Batch): Validity {
    if b.signer !in entry.authorized then Drop
    else if entry.hash != b.origin.hash then Drop
    else Accept
  }

  /** CheckBatch. next is the number of the batch the streamer will hand out next. */
  function Check(v: L1View, rpc: Rpc, next: nat, b: Batch): (r: Checked) {
    var v0 := v.(calls := v.calls + 1);
    if b.number < next then Checked(Past, v0)
    else if v.finalized == ZERO_REF then Checked(Undecided, v0)
    else if b.origin.number > v.finalized.number then
      if v.batcher != ZERO_ADDRESS && b.signer != v.batcher then Checked(Drop, v0)
      else Checked(Undecided, v0)
    else if b.origin.number in v0.cache then Checked(Judge(v0.cache[b.origin.number], b), v0)
    else
      match rpc.headerHash(v.calls, b.origin.number)
      case None => Checked(Undecided, v0)
      case Some(hash) =>
        match rpc.batcherAt(v.calls, v.finalized.number, b.origin.number)
        case None => Checked(Undecided, v0)
        case Some(batcher) =>
          if batcher == ZERO_ADDRESS then Checked(Drop, v0)
          else
            var entry := L1Entry(hash, [batcher]);
            Checked(Judge(entry, b), v0.(cache := (v.cache - rpc.evicted(v.calls))[b.origin.number := entry]))
  }

  /** An accepted batch is accepted again at once: its origin is cached by then. */
  lemma AcceptedAgain(v: L1View, rpc: Rpc, next: nat, b: Batch)
    requires Check(v, rpc, next, b).validity == Accept
    ensures
      var w := Check(v, rpc, next, b).view;
      Check(w, rpc, next, b) == Checked(Accept, w.(calls := w.calls + 1))
  {
  }

  /** L1 is asked once for a block: after a check that was decided on a finalized origin, by a registered batcher,
      whatever the verdict, no check of a batch with that origin number depends on any further answer. */
  lemma AskedOnce(v: L1View, rpc: Rpc, next: nat, b: Batch, rpc1: Rpc, rpc2: Rpc, next': nat, b': Batch)
    requires Check(v, rpc, next, b).validity in {Accept, Drop} && b.origin.number <= v.finalized.number
    requires rpc.batcherAt(v.calls, v.finalized.number, b.origin.number) != Some(ZERO_ADDRESS)
    requires b'.origin.number == b.origin.number
    ensures
      var w := Check(v, rpc, next, b).view;
      && Check(w, rpc1, next', b') == Check(w, rpc2, next', b')
      && (b'.number >= next' && w.finalized != ZERO_REF ==> Check(w, rpc1, next', b').validity in {Accept, Drop})
  {
  }

  // ---------- L1 as it finally is ----------

  /** The canonical chain: header hashes and batcher history at finalized heights. */
  datatype Truth = Truth(headerHash: nat -> Hash, batcherAt: nat -> Address)

  /** Calls either fail or report the canonical chain, whenever they are made. */
  ghost predicate Honest(rpc: Rpc, truth: Truth) {
    && (forall c: nat, n: nat :: rpc.headerHash(c, n) in {None, Some(truth.headerHash(n))})
    && (forall c: nat, f: nat, n: nat | n <= f :: rpc.batcherAt(c, f, n) in {None, Some(truth.batcherAt(n))})
  }

  ghost predicate NeverFails(rpc: Rpc) {
    && (forall c: nat, n: nat :: rpc.headerHash(c, n).Some?)
    && (forall c: nat, f: nat, n: nat | n <= f :: rpc.batcherAt(c, f, n).Some?)
  }

  /** The verdict on b once its origin is final: signed by the batcher of that L1 block, on that block. */
  predicate FinallyAccepted(truth: Truth, b: Batch) {
    && truth.batcherAt(b.origin.number) != ZERO_ADDRESS
    && b.signer == truth.batcherAt(b.origin.number)
    && b.origin.hash == truth.headerHash(b.origin.number)
  }

  /** Everything cached is canonical and was final when it was cached. */
  ghost predicate CacheSound(v: L1View, truth: Truth) {
    forall n | n in v.cache ::
      && truth.batcherAt(n) != ZERO_ADDRESS
      && v.cache[n] == L1Entry(truth.headerHash(n), [truth.batcherAt(n)])
  }

  /** The check with no cache and no failing call. */
  function Uncached(finalized: L1BlockRef, batcher: Address, truth: Truth, next: nat, b: Batch): Validity {
    if b.number < next then Past
    else if finalized == ZERO_REF then Undecided
    else if b.origin.number > finalized.number then
      if batcher != ZERO_ADDRESS && b.signer != batcher then Drop else Undecided
    else if FinallyAccepted(truth, b) then Accept
    else Drop
  }

  /** Whatever was evicted, a check gives the verdict of asking L1 anew, or is put off because a call
      failed; it keeps the cache sound. When no call fails it gives exactly that verdict. */
  lemma CachedAgreesWithUncached(v: L1View, rpc: Rpc, truth: Truth, next: nat, b: Batch)
    requires Honest(rpc, truth) && CacheSound(v, truth)
    ensures
      var r := Check(v, rpc, next, b);
      var asked := Uncached(v.finalized, v.batcher, truth, next, b);
      && CacheSound(r.view, truth)
      && r.view.finalized == v.finalized && r.view.batcher == v.batcher
      && (r.validity == asked
          || (r.validity == Undecided && asked in {Accept, Drop} && b.origin.number <= v.finalized.number))
      && (NeverFails(rpc) ==> r.validity == asked)
  {
  }

  /** A verdict on a batch whose origin is final never flips: at any later view, with finality no lower and
      the batch not yet passed, the check gives the same verdict or is put off by a failing call. */
  lemma FinalVerdictNeverFlips(v: L1View, w: L1View, rpc: Rpc, truth: Truth, next: nat, next': nat, b: Batch)
    requires Honest(rpc, truth) && CacheSound(v, truth) && CacheSound(w, truth)
    requires v.finalized != ZERO_REF && w.finalized != ZERO_REF
    requires b.origin.number <= v.finalized.number <= w.finalized.number
    requires next' <= b.number
    requires Check(v, rpc, next, b).validity in {Accept, Drop}
    ensures Check(w, rpc, next', b).validity in {Check(v, rpc, next, b).validity, Undecided}
    ensures NeverFails(rpc) ==> Check(w, rpc, next', b).validity == Check(v, rpc, next, b).validity
    ensures Check(v, rpc, next, b).validity == Accept <==> FinallyAccepted(truth, b)
  {
  }
}
