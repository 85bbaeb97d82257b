/** The batch streamer as a state and functions on it, one per operation. */
module StreamerSpec {
  import opened Batches
  import opened BufferSpec
  import opened L1Check

  const HOTSHOT_BLOCK_FETCH_LIMIT: nat := 100

  /** A HotShot transaction after UnmarshalBatch: None when the payload does not decode. */
  type Tx = Option<Batch>

  /** The namespace's transactions in each HotShot block. Blocks are never changed, only added. */
  type Log = nat -> seq<Tx>

  /** What does not change during the life of a streamer. */
  datatype Env = Env(rpc: Rpc, log: Log)

  /** The query service's answer to a range request: an error, an empty list, or one entry per block. */
  datatype Answer = Failed | Empty | Served

  /** The answers one Update call gets: the latest height, then one answer per range request. */
  datatype Network = Network(latest: Option<Uint64>, answers: nat -> Answer)

  /** A service that serves every request. */
  function Serving(latest: Uint64): Network {
    Network(Some(latest), _ => Served)
  }

  /** History that no operation reads: the number of resets; and, since the last one, the block at which the
      scan began, the end of what has been scanned, the batches rejected when they were scanned, and the hashes
      of the batches that were dropped while they were held; and, since the last reset or batch handed out, the
      blocks in which a batch found the buffer full. */
  datatype History = History(
    epoch: nat,
    from: nat,
    seen: nat,
    rejected: set<Batch>,
    dropped: set<Hash>,
    overflowed: set<nat>)

  datatype State = State(
    nextBatchPos: nat,
    fallbackBatchPos: BlockNumber,
    hotShotPos: Height,
    fallbackHotShotPos: Height,
    originHotShotPos: Height,
    skipPos: Uint64,
    head: Option<Batch>,
    buffer: seq<Batch>,
    capacity: nat,
    view: L1View,
    history: History)

  /** The first block a scan from cursor pos reads. */
  function ScanStart(pos: nat): nat {
    if pos == 0 then 0 else pos + 1
  }

  /** The history of the scan that begins after cursor pos. */
  function NewHistory(epoch: nat, pos: nat): History {
    History(epoch, ScanStart(pos), ScanStart(pos), {}, {}, {})
  }

  function Create(originHotShotPos: Height, originBatchPos: BlockNumber, capacity: nat): State {
    State(originBatchPos + 1, originBatchPos, originHotShotPos, originHotShotPos, originHotShotPos,
          MAX_UINT64, None, [], capacity, L1View(ZERO_REF, ZERO_ADDRESS, map[], 0),
          NewHistory(0, originHotShotPos))
  }

  /** t differs from s at most in the head, the buffer, the pending rewind, the L1 view and what was given up;
      the rewind only moves back and what was given up only grows. */
  predicate SameScan(s: State, t: State) {
    && t.nextBatchPos == s.nextBatchPos
    && t.fallbackBatchPos == s.fallbackBatchPos
    && t.hotShotPos == s.hotShotPos
    && t.skipPos <= s.skipPos
    && t.fallbackHotShotPos == s.fallbackHotShotPos
    && t.originHotShotPos == s.originHotShotPos
    && t.capacity == s.capacity
    && t.view.finalized == s.view.finalized
    && t.view.batcher == s.view.batcher
    && t.history.epoch == s.history.epoch
    && t.history.from == s.history.from
    && t.history.seen == s.history.seen
    && s.history.rejected <= t.history.rejected
    && s.history.dropped <= t.history.dropped
    && s.history.overflowed <= t.history.overflowed
  }

  predicate SameCursor(s: State, t: State) {
    SameScan(s, t) && t.skipPos == s.skipPos && t.history.overflowed == s.history.overflowed
  }

  // ---------- reset and refresh ----------

  function Reset(s: State): (t: State) {
    s.(hotShotPos := s.fallbackHotShotPos,
       nextBatchPos := s.fallbackBatchPos + 1,
       head := None,
       skipPos := MAX_UINT64,
       buffer := [],
       history := NewHistory(s.history.epoch + 1, s.fallbackHotShotPos))
  }

  /** confirmEspressoBlockHeight; light is the light client's block height at the safe L1 origin. */
  function ConfirmHeight(s: State, light: Option<Height>): (r: (State, bool)) {
    match light
    case None => (s.(fallbackHotShotPos := Max(s.fallbackHotShotPos, s.originHotShotPos)), false)
    case Some(height) =>
      if height <= s.originHotShotPos then (s, false)
      else (s.(fallbackHotShotPos := height), height < s.fallbackHotShotPos)
  }

  function RefreshSafeL1Origin(s: State, light: Option<Height>): (t: State) {
    var (s1, shouldReset) := ConfirmHeight(s, light);
    if shouldReset then Reset(s1) else s1
  }

  /** The new finalized block, and the answer of the BatchAuthenticator contract if there is one. */
  function SeeL1(s: State, finalizedL1: L1BlockRef, batcher: Option<Address>): (t: State) {
    var known := if batcher.Some? && batcher.value != ZERO_ADDRESS then batcher.value else s.view.batcher;
    s.(view := s.view.(finalized := finalizedL1, batcher := known))
  }

  function FollowSafeBatch(s: State, safe: BlockNumber): (t: State) {
    if s.fallbackBatchPos == safe then s
    else
      var shouldReset := safe < s.fallbackBatchPos || s.fallbackHotShotPos > s.hotShotPos;
      var s1 := s.(fallbackBatchPos := safe);
      if shouldReset || s1.nextBatchPos <= safe then Reset(s1) else s1
  }

  function Refresh(s: State, finalizedL1: L1BlockRef, batcher: Option<Address>, safe: BlockNumber,
                   light: Option<Height>): (t: State)
  {
    FollowSafeBatch(RefreshSafeL1Origin(SeeL1(s, finalizedL1, batcher), light), safe)
  }

  // ---------- handing out ----------

  function CheckBatch(s: State, env: Env, b: Batch): (r: (Validity, State))
    ensures SameCursor(s, r.1) && r.1.head == s.head && r.1.buffer == s.buffer && r.1.history == s.history
    ensures r.0 == Past <==> b.number < s.nextBatchPos
  {
    var c := L1Check.Check(s.view, env.rpc, s.nextBatchPos, b);
    (c.validity, s.(view := c.view))
  }

  /** Empties the head slot of a batch that CheckBatch dropped. */
  function DropHeld(s: State): (t: State)
    requires s.head.Some?
    ensures SameCursor(s, t)
  {
    s.(head := None, history := s.history.(dropped := s.history.dropped + {s.head.value.hash}))
  }

  /** Notes that b was dropped when it was scanned. */
  function Reject(s: State, b: Batch): (t: State)
    ensures SameCursor(s, t)
  {
    s.(history := s.history.(rejected := s.history.rejected + {b}))
  }

  /** How much HasNext can still discard. */
  function Size(s: State): nat {
    2 * |s.buffer| + (if s.head.Some? then 1 else 0)
  }

  function HasNext(s: State, env: Env): (r: (State, bool))
    ensures SameCursor(s, r.0) && |r.0.buffer| <= |s.buffer|
    decreases Size(s)
  {
    if s.head.None? then
      if s.buffer == [] then (s, false)
      else if s.buffer[0].number < s.nextBatchPos then HasNext(s.(buffer := s.buffer[1..]), env)
      else if s.buffer[0].number != s.nextBatchPos then (s, false)
      else HasNext(s.(head := Some(s.buffer[0]), buffer := s.buffer[1..]), env)
    else
      var (validity, s1) := CheckBatch(s, env, s.head.value);
      match validity
      case Accept => (s1, true)
      case Undecided => (s1, false)
      case Drop => HasNext(DropHeld(s1), env)
      case Past => HasNext(s1.(head := None), env)
  }

  function Next(s: State, env: Env): (r: (State, Option<Batch>)) {
    var (s1, ready) := HasNext(s, env);
    if ready then
      (s1.(nextBatchPos := s1.nextBatchPos + 1,
           head := None,
           hotShotPos := if s1.skipPos != MAX_UINT64 then s1.skipPos else s1.hotShotPos,
           skipPos := MAX_UINT64,
           history := s1.history.(overflowed := {})),
       s1.head)
    else (s1, None)
  }

  /** The buffer after the front entries numbered next with another parent than wanted are gone. */
  function Drain(buffer: seq<Batch>, next: nat, parent: Hash): (rest: seq<Batch>) {
    if buffer != [] && buffer[0].number == next && buffer[0].parentHash != parent
    then Drain(buffer[1..], next, parent)
    else buffer
  }

  function SetProperHead(s: State, parent: Hash): (t: State) {
    if s.head.Some? && s.head.value.number != s.nextBatchPos then s
    else s.(head := None, buffer := Drain(s.buffer, s.nextBatchPos, parent))
  }

  // ---------- scanning ----------

  /** processEspressoTransaction; the flag reports a full buffer. */
  function Process(s: State, env: Env, tx: Tx): (r: (State, bool))
    ensures SameCursor(s, r.0)
  {
    if tx.None? then (s, false)
    else
      var b := tx.value;
      var (validity, s1) := CheckBatch(s, env, b);
      if validity == Drop then (Reject(s1, b), false)
      else if validity == Past then (s1, false)
      else if s1.head.Some? && b.number == s1.head.value.number && b.hash == s1.head.value.hash then (s1, false)
      else if b.number == s1.nextBatchPos && s1.head.None? then (s1.(head := Some(b)), false)
      else
        var (buffer, outcome) := Insert(s1.buffer, s1.capacity, b);
        (s1.(buffer := buffer), outcome == AtCapacity)
  }

  /** The rewind point for a batch of block blockPos that found the buffer full. */
  function Skip(s: State, blockPos: Height): (t: State) {
    s.(skipPos := Min(s.skipPos, if blockPos > 0 then blockPos - 1 else 0),
       history := s.history.(overflowed := s.history.overflowed + {blockPos}))
  }

  function ProcessTx(s: State, env: Env, blockPos: Height, tx: Tx): (t: State)
    ensures SameScan(s, t)
  {
    var (s1, full) := Process(s, env, tx);
    if full then Skip(s1, blockPos) else s1
  }

  function ProcessTxs(s: State, env: Env, blockPos: Height, txs: seq<Tx>): (t: State)
    ensures SameScan(s, t)
    decreases |txs|
  {
    if txs == [] then s
    else ProcessTxs(ProcessTx(s, env, blockPos, txs[0]), env, blockPos, txs[1..])
  }

  function ProcessBlocks(s: State, env: Env, start: nat, finish: Height): (t: State)
    ensures SameScan(s, t)
    decreases finish - start
  {
    if start >= finish then s
    else ProcessBlocks(ProcessTxs(s, env, start, env.log(start)), env, start + 1, finish)
  }

  function FetchRange(s: State, env: Env, answer: Answer, start: nat, finish: Height): (r: (State, bool))
    ensures r.0.hotShotPos == if answer.Served? && finish > 0 then finish - 1 else s.hotShotPos
    ensures r.0.skipPos <= s.skipPos
  {
    if finish == 0 || answer.Failed? then (s, false)
    else if answer.Empty? then (s, true)
    else
      var s1 := s.(hotShotPos := finish - 1, history := s.history.(seen := Max(s.history.seen, finish)));
      (ProcessBlocks(s1, env, start, finish), true)
  }

  /** Addition on uint64. */
  function AddUint64(a: Uint64, b: Uint64): Uint64 {
    if a + b <= MAX_UINT64 then a + b else a + b - MAX_UINT64 - 1
  }

  /** computeEspressoBlockHeightsRange. */
  function ComputeRange(pos: Height, finalized: Height, limit: Uint64): (r: (Uint64, Uint64))
    ensures r.0 == ScanStart(pos)
    ensures r.1 <= finalized + 1
  {
    var start := ScanStart(pos);
    (start, Min(AddUint64(start, limit), finalized + 1))
  }

  /** How Update ended: with an error, with a batch to hand out, or with no range left to fetch. */
  datatype UpdateEnd = FetchFailed | BatchReady | RangeExhausted

  /** Iteration i of the fetch loop of Update; Some when the loop ends there. */
  function UpdateOnce(s: State, env: Env, net: Network, finalized: Height, i: nat): (r: (State, Option<UpdateEnd>))
    requires finalized + 1 < MAX_UINT64
    ensures r.0.skipPos <= s.skipPos
  {
    var (start, finish) := ComputeRange(s.hotShotPos, finalized, HOTSHOT_BLOCK_FETCH_LIMIT);
    if start >= finish || (start + 1 == finish && i > 0) then (s, Some(RangeExhausted))
    else
      var (s1, ok) := FetchRange(s, env, net.answers(i), start, finish);
      if !ok then (s1, Some(FetchFailed))
      else
        var (s2, ready) := HasNext(s1, env);
        (s2, if ready then Some(BatchReady) else None)
  }

  /** The fetch loop of Update from iteration i on, watched for so many rounds; None when it has not ended by
      then. The loop need not end at all. */
  function UpdateLoop(s: State, env: Env, net: Network, finalized: Height, i: nat, rounds: nat)
    : (r: (State, Option<UpdateEnd>))
    requires finalized + 1 < MAX_UINT64
    ensures r.0.skipPos <= s.skipPos
    decreases rounds
  {
    if rounds == 0 then (s, None)
    else
      var (t, end) := UpdateOnce(s, env, net, finalized, i);
      if end.Some? then (t, end) else UpdateLoop(t, env, net, finalized, i + 1, rounds - 1)
  }

  function Update(s: State, env: Env, net: Network, rounds: nat): (r: (State, Option<UpdateEnd>)) {
    if net.latest.None? || net.latest.value == MAX_UINT64 then (s, Some(FetchFailed))
    else if net.latest.value < 2 then (s, Some(RangeExhausted))
    else UpdateLoop(s, env, net, net.latest.value - 2, 0, rounds)
  }
}
