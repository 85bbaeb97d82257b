/** The wrapper over the streamer: replay hands out the log. What the streamer below offers is not assumed here;
    it follows from the log and from L1. */
module Replay {
  import opened Batches
  import L1Check
  import StreamerSpec
  import StreamerRuns
  import opened Delivery
  import opened BufferedSpec

  /** batchAt names, for each number the log has an accepted batch for, the first such batch. */
  ghost predicate NamesFirstAccepted(log: StreamerSpec.Log, truth: L1Check.Truth, batchAt: nat -> Batch) {
    forall b: Batch | IsFirstAccepted(log, truth, 0, b) :: b == batchAt(b.number)
  }

  /** What the light client's height at the safe L1 origin is meant to guarantee: before the block the current
      scan began at, L1 accepts no batch above the safe one. */
  ghost predicate NothingUnsafeBefore(s: StreamerSpec.State, log: StreamerSpec.Log, truth: L1Check.Truth) {
    forall p: nat, b: Batch | p < s.history.from && Some(b) in log(p) && b.number > s.fallbackBatchPos ::
      !L1Check.FinallyAccepted(truth, b)
  }

  /** Whether the lower streamer handed out a batch and was not polled since. While the window is unread the
      wrapper's own HasNext and Peek do not poll it. */
  predicate LowerPending(b: Buffered, pending: bool, e: Event, out: Option<Batch>) {
    match e
    case BNext => if b.readPos < |b.batches| then pending else out.Some?
    case BHasNext => pending && b.readPos < |b.batches|
    case BPeek => pending && b.readPos < |b.batches|
    case _ => pending
  }

  /** The conditions of delivery on the lower streamer, at every point of the run, and those of replay. */
  ghost predicate CalmReplay(b: Buffered, env: StreamerSpec.Env, truth: L1Check.Truth, pending: bool, es: seq<Event>)
    decreases |es|
  {
    && b.lower.skipPos == MAX_UINT64
    && FilterSound(b.lower.view, env.log, truth)
    && NothingUnsafeBefore(b.lower, env.log, truth)
    && (es != [] ==>
          && KeepsWindow(b, es[0])
          && (es[0].BUpdate? ==> !pending)
          && var (c, out, _) := Step(b, env, es[0]);
             CalmReplay(c, env, truth, LowerPending(b, pending, es[0], out), es[1..]))
  }

  lemma FirstFromStart(log: StreamerSpec.Log, truth: L1Check.Truth, from: nat, b: Batch)
    requires IsFirstAccepted(log, truth, from, b)
    requires forall p: nat, x: Batch | p < from && Some(x) in log(p) && x.number == b.number ::
               !L1Check.FinallyAccepted(truth, x)
    ensures IsFirstAccepted(log, truth, 0, b)
  {
    var p: nat, i: nat :| FirstAcceptedAt(log, truth, from, b, p, i);
    forall q: nat, j: nat | j < |log(q)| && (q < p || (q == p && j < i))
                            && log(q)[j] != None && log(q)[j].value.number == b.number
      ensures !L1Check.FinallyAccepted(truth, log(q)[j].value)
    {
      assert log(q)[j] in log(q);
    }
    assert FirstAcceptedAt(log, truth, 0, b, p, i);
  }

  /** What the lower streamer has ready is what the log has at that number. */
  lemma LowerOffersFirstAccepted(b: Buffered, env: StreamerSpec.Env, truth: L1Check.Truth, batchAt: nat -> Batch)
    requires L1Check.Honest(env.rpc, truth) && InStep(b.lower, env, truth)
    requires NothingUnsafeBefore(b.lower, env.log, truth) && NamesFirstAccepted(env.log, truth, batchAt)
    ensures LowerFollows(b, env, batchAt)
  {
    HasNextInStep(b.lower, env, truth);
    StreamerRuns.HasNextKeepsHead(b.lower, env);
    var (t, ready) := StreamerSpec.HasNext(b.lower, env);
    if ready {
      FirstFromStart(env.log, truth, b.lower.history.from, t.head.value);
    }
  }

  /** What the wrapper's HasNext comes to: when L1 answers and has decided, it is true exactly when the window is
      unread or the scanned log holds an accepted batch for the number at the cursor. */
  lemma HasNextIffUnreadOrScanned(b: Buffered, env: StreamerSpec.Env, truth: L1Check.Truth)
    requires L1Check.Honest(env.rpc, truth) && L1Check.NeverFails(env.rpc)
    requires Aligned(b) && InStep(b.lower, env, truth) && Settled(b.lower)
    ensures HasNext(b, env).1
       <==> || b.readPos < |b.batches|
            || exists x: Batch, p: nat ::
                 && b.lower.history.from <= p < b.lower.history.seen && Some(x) in env.log(p)
                 && x.number == CursorOf(b).pos && L1Check.FinallyAccepted(truth, x)
  {
    hide StreamerSpec.HasNext, InStep, Settled;
    ReadyIffAcceptedScanned(b.lower, env, truth);
  }

  /** A Refresh of the wrapper reaches the lower streamer as a Refresh, behind a Reset when the safe batch moved
      back. */
  lemma RefreshReachesLower(b: Buffered, env: StreamerSpec.Env, truth: L1Check.Truth, e: Event)
    requires e.BRefresh? && b.safeL1 <= e.origin && InStep(b.lower, env, truth)
    requires FilterSound(Step(b, env, e).0.lower.view, env.log, truth)
    ensures
      var c := Step(b, env, e).0;
      InStep(c.lower, env, truth) && (HeadReady(b.lower) ==> HeadReady(c.lower))
  {
    hide InStep, FilterSound, HeadReady, StreamerSpec.Refresh;
    var refresh := StreamerRuns.EvRefresh(e.finalizedL1, e.batcher, e.safe, e.light');
    var lower := b.lower;
    if e.safe < b.startingBatchPos {
      FilterKept(lower, env, truth);
      RestartInStep(lower, env, truth, StreamerRuns.EvReset);
      lower := StreamerSpec.Reset(lower);
    }
    assert Step(b, env, e).0.lower == StreamerRuns.Step(lower, env, refresh).0;
    RestartInStep(lower, env, truth, refresh);
  }

  lemma FilterKept(s: StreamerSpec.State, env: StreamerSpec.Env, truth: L1Check.Truth)
    requires InStep(s, env, truth)
    ensures FilterSound(StreamerSpec.Reset(s).view, env.log, truth)
  {
  }

  lemma StepKeepsLower(b: Buffered, env: StreamerSpec.Env, naming: Naming, truth: L1Check.Truth, pending: bool,
                       e: Event)
    requires WorldOk(env, naming, truth) && InStep(b.lower, env, truth) && (!pending ==> HeadReady(b.lower))
    requires Aligned(b) && KeepsWindow(b, e) && (e.BUpdate? ==> !pending)
    requires
      var c := Step(b, env, e).0;
      c.lower.skipPos == MAX_UINT64 && FilterSound(c.lower.view, env.log, truth)
    ensures
      var (c, out, _) := Step(b, env, e);
      InStep(c.lower, env, truth) && (!LowerPending(b, pending, e, out) ==> HeadReady(c.lower))
  {
    hide HeadReady, FilterSound, Next, Peek, Refresh, StreamerSpec.Update, StreamerSpec.HasNext, LowerResetsItself;
    match e
    case BUpdate(net, rounds) => var t := UpdateInStep(b.lower, env, naming, truth, net, rounds);
    case BRefresh(_, _, _, _, _, _) => RefreshReachesLower(b, env, truth, e);
    case BRefreshSafeL1Origin(_, _) =>
    case BReset =>
    case BHasNext => HasNextInStep(b.lower, env, truth);
    case BPeek =>
      PeekReadsLower(b, env);
      HasNextInStep(b.lower, env, truth);
    case BNext =>
      NextReadsLower(b, env);
      NextInStep(b.lower, env, truth);
  }

  /** So the condition of replay on the lower streamer holds all along. */
  lemma {:induction false} CalmReplayIsQuiet(b: Buffered, env: StreamerSpec.Env, naming: Naming, truth: L1Check.Truth,
                                             batchAt: nat -> Batch, pending: bool, es: seq<Event>)
    requires WorldOk(env, naming, truth) && NamesFirstAccepted(env.log, truth, batchAt)
    requires InStep(b.lower, env, truth) && (!pending ==> HeadReady(b.lower))
    requires Aligned(b) && WindowFollows(b, batchAt) && CalmReplay(b, env, truth, pending, es)
    ensures QuietRun(b, env, batchAt, es)
    decreases |es|
  {
    hide Step, InStep, HeadReady, Aligned, WindowFollows, KeepsWindow, LowerFollows;
    if es != [] {
      var (c, out, _) := Step(b, env, es[0]);
      LowerInv(b, env, truth);
      LowerOffersFirstAccepted(b, env, truth, batchAt);
      StepFollows(b, env, batchAt, es[0]);
      assert CalmReplay(c, env, truth, LowerPending(b, pending, es[0], out), es[1..]);
      StepKeepsLower(b, env, naming, truth, pending, es[0]);
      CalmReplayIsQuiet(c, env, naming, truth, batchAt, LowerPending(b, pending, es[0], out), es[1..]);
    }
  }

  /** Replay hands out the log: from an aligned state on, Next hands out and Peek shows the first accepted batch
      of the number at the cursor, and every call moves the cursor as one position over one log. */
  lemma ReplayHandsOutLog(b: Buffered, env: StreamerSpec.Env, naming: Naming, truth: L1Check.Truth,
                          batchAt: nat -> Batch, pending: bool, es: seq<Event>)
    requires WorldOk(env, naming, truth) && NamesFirstAccepted(env.log, truth, batchAt)
    requires InStep(b.lower, env, truth) && (!pending ==> HeadReady(b.lower))
    requires Aligned(b) && WindowFollows(b, batchAt) && CalmReplay(b, env, truth, pending, es)
    ensures FollowsCursor(b, env, batchAt, CursorOf(b), es)
  {
    hide QuietRun, FollowsCursor, HeadReady;
    LowerInv(b, env, truth);
    CalmReplayIsQuiet(b, env, naming, truth, batchAt, pending, es);
    ReplayRefinesRewinding(b, env, batchAt, es);
  }

  lemma LowerInv(b: Buffered, env: StreamerSpec.Env, truth: L1Check.Truth)
    requires InStep(b.lower, env, truth)
    ensures StreamerRuns.Inv(b.lower)
  {
  }

  /** The same from the start: a wrapper around a fresh streamer, refreshed once before anything is read. */
  lemma ReplayFromFirstRefresh(originHotShotPos: Height, originBatchPos: BlockNumber, capacity: nat,
                               env: StreamerSpec.Env, naming: Naming, truth: L1Check.Truth, batchAt: nat -> Batch,
                               e: Event, es: seq<Event>)
    requires WorldOk(env, naming, truth) && NamesFirstAccepted(env.log, truth, batchAt)
    requires
      var b := Buffered(StreamerSpec.Create(originHotShotPos, originBatchPos, capacity), [], 0, 0, 0);
      e.BRefresh? && CalmReplay(Step(b, env, e).0, env, truth, false, es)
    ensures
      var b := Buffered(StreamerSpec.Create(originHotShotPos, originBatchPos, capacity), [], 0, 0, 0);
      FollowsCursor(Step(b, env, e).0, env, batchAt, Cursor(e.safe, e.safe + 1), es)
  {
    var b := Buffered(StreamerSpec.Create(originHotShotPos, originBatchPos, capacity), [], 0, 0, 0);
    CreatedInStep(originHotShotPos, originBatchPos, capacity, env, truth);
    RefreshReachesLower(b, env, truth, e);
    FirstRefreshAligns(b, e.finalizedL1, e.batcher, e.safe, e.origin, e.light, e.light');
    ReplayHandsOutLog(Step(b, env, e).0, env, naming, truth, batchAt, false, es);
  }
}
