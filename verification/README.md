# Espresso streamers: a Dafny model

The repository reads a rollup's transactions back from the Espresso (HotShot) log. This project models its three
stateful parts and proves what they keep, over all inputs and all runs.

1. **The OP streamer stack** (`op/`). `BatchStreamer` scans the log in ranges, asks L1 for a verdict on each batch,
   keeps one head slot and a bounded sorted buffer, and hands batches out by consecutive number. When the buffer is
   full it remembers a rewind point. `BufferedEspressoStreamer` lies on top and replays a window of batches instead
   of rewinding the streamer below.
2. **The Nitro streamer** (`nitro/nitro_streamer.go`). A background fetch and a consumer share a map of messages, a
   cursor and a next-block counter under a lock. Stored block heights are lowered on insertion so that a restart
   point can be read off.
3. **The V0 and V1 payload framing** (`nitro/utils.go` and the two binary files). Length-prefixed encoders and
   parsers, the greedy payload builder, and the choice of the version.

## How the model is laid out

| file | what it holds |
|---|---|
| `Batches.dfy` | shared value types |
| `BufferSpec.dfy`, `BatchBuffer.dfy` | the batch buffer: insertion as a function with its laws, then the class over arrays |
| `L1Check.dfy` | the verdict on a batch, its cache, and the canonical chain it is compared with |
| `StreamerSpec.dfy`, `BatchStreamer.dfy` | the streamer as functions on a state, then the class tied to them |
| `StreamerRuns.dfy`, `VerdictRuns.dfy`, `Rewind.dfy`, `NoLoss.dfy`, `Delivery.dfy` | invariants and results over runs |
| `UpdateCoverage.dfy`, `UpdateEnds.dfy` | how far one Update gets, when it ends, and when it fails |
| `Overtaking.dfy`, `Shadowing.dfy` | two runs in which the streamer hands out something other than the first accepted batch |
| `BufferedSpec.dfy`, `BufferedStreamer.dfy` | the buffered wrapper: functions with the replay results, then the class |
| `Replay.dfy` | the wrapper over the streamer: replay hands out the log |
| `SelfReset.dfy` | a run in which the wrapper hands out one batch twice |
| `NitroBytes.dfy`, `V0Codec.dfy`, `V1Codec.dfy` | the wire formats as functions, exactness and round trips |
| `V0Binary.dfy`, `V1Binary.dfy`, `HotShotPayload.dfy` | the encoders, parsers and the builder as loops over buffers and offsets |
| `NitroExtract.dfy` | from a transaction to its messages: parsing and signature checks |
| `NitroSpec.dfy`, `NitroTiles.dfy`, `NitroProgress.dfy`, `NitroRestart.dfy`, `NitroConsumer.dfy` | the Nitro streamer as one function per locked section: heights, what a scan covers, how far it gets, restarting, what a consumer is shown |
| `NitroStreamer.dfy` | the Nitro streamer, its iterator and its signature filter as classes and loops |

Code that changes state is a class or a method with the same loops; each method's postcondition gives its whole new
state as the function of the same name. The results over runs are lemmas about those functions.

Outside calls are parameters, as unconstrained as the code leaves them. An L1 call may fail or answer differently each
time: its answer depends on a running count of checks. The query service may fail, answer an empty list, or answer
with one entry per block, in any sequence, forever. The fetch loop of Update need not end, so Update is modelled by
what it has done after any number of iterations (`rounds`); a run may stop inside it, and what runs keep they keep
there too. The light client and the `BatchAuthenticator` contract may fail. LRU eviction removes an arbitrary set of
entries at each insertion; a slice that grows gets an arbitrary amount of room. RLP, JSON, Keccak and signature checks
are functions; the lemmas that need `decode(encode(x)) == x`, non-empty encodings, or one encoding per body say so
with `Lawful` and `Canonical`.

Pointers are explicit. The buffer is an array with an offset and a length, shifted in place or reallocated on
insertion, and a pointer is an array with an index. `lent` records every pointer that left the buffer together with
the batch it denoted, and every operation keeps those batches: the head, and each batch already handed out, stay
what they were.

Where comments and code differ, the model follows the code:

- `CanSafelyReadElements` is true when the elements do not fit (`nitro/utils.go:508-513`).
- The diagrams of the V0 format show a 32-byte signature; the code writes an 8-byte length and then the signature
  (`nitro/v0_nitro_types_binary.go:106-154`).
- The comment on `Update` says it stops only when there is nothing left to process; it can leave one block
  (`op/op_streamer.go:410-425`, see `LastBlockScannedIff`).

## What does not hold, and exactly when it does

- Duplicate rejection: `DuplicateMissed` is a buffer that accepts one; `DuplicateReportedIff` gives the exact
  condition.
- Delivery of the first accepted batch: `UnpolledUpdateOvertakes` is a run that hands out the second alternative
  because `Update` follows `Next` directly. `CopyShadowsGenuine` is a run in which a copy with another signer
  suppresses the accepted batch. `ProcessKeepsOrderIff` gives the exact condition for one scanned batch.
- Scanning up to the newest finalized block: `LastBlockLeft` and `LastBlockScannedIff`; near the top of uint64,
  `WrapStopsUpdate`.
- Termination of `Update`: `EmptyServiceHoldsUpdate` is an Update that never ends and never moves.
  `LoopEndsIff` says exactly when the loop ends, `EmptyServiceEndsIff` what that comes to when every answer is empty.
- Alignment of the buffered window with the streamer below: `SelfResetHandsOutTwice` is a run that
  hands out one number twice; `RefreshKeepsAlignedIff` gives the exact condition.
- Alignment after the wrapper's SetProperHead, or after a safe L1 origin that moves back: `CutLosesAlignment`,
  `CutKeepsAlignedIff`, `CutPassesOver`, `OriginBackKeepsAlignedIff`, `RefreshRealignsIff`.
- A `Reset` that arrives during a Nitro fetch: `SameBlockResetLosesMessages` and `ResetInFetchHonouredIff`.

## Model

| member | source | states |
|---|---|---|
| BufferSpec.SearchLands | op/batch_buffer.go:66-81 | In a sorted buffer the search ends on an entry with the wanted hash or at the end of the wanted number's group, although its comparator is not monotone there |
| BufferSpec.InsertKeepsOrder | op/batch_buffer.go:61-89 | Insert keeps the buffer sorted by number; it reports a full buffer exactly when it is full and a duplicate only when the hash is there, and then changes nothing |
| BufferSpec.InsertKeepsGroups | op/batch_buffer.go:76-88 | An inserted batch comes last in its number group and no other group changes, so the earliest committed batch of a number stays first |
| BufferSpec.InsertMembers | op/batch_buffer.go:83-88 | Insert adds the batch and loses none; unless the buffer is full the hash is present afterwards |
| BufferSpec.DuplicateReportedIff | op/batch_buffer.go:83-85 | A batch is reported as a duplicate if and only if an entry with its hash lies on the path a binary search takes to the end of its number group, a path that depends on positions only |
| BufferSpec.LastOfGroupRejected | op/batch_buffer.go:76-80 | The last entry of a number group is never inserted a second time |
| BufferSpec.DuplicateMissed | op/batch_buffer.go:61-89 | Three alternatives for one number, the first offered again: it is inserted twice |
| BatchBuffers.BatchBuffer.constructor | op/batch_buffer.go:42-47 | A new buffer is empty, has the given capacity and has lent nothing |
| BatchBuffers.BatchBuffer.Clear | op/batch_buffer.go:57-59 | The buffer is empty afterwards and no pointer handed out before changes |
| BatchBuffers.BatchBuffer.BinarySearch | op/batch_buffer.go:66-81 | The loop over the array stops where the specified search does and reports a match exactly when the entry there has the wanted hash |
| BatchBuffers.BatchBuffer.ShiftRight | op/batch_buffer.go:87 | The cells from the insertion point on move one to the right, in place, and nothing before it moves |
| BatchBuffers.BatchBuffer.InsertInPlace | op/batch_buffer.go:87 | Insertion within the backing array puts the batch at its position and leaves every cell before the live window alone |
| BatchBuffers.BatchBuffer.Reallocate | op/batch_buffer.go:87 | Insertion beyond the backing array gives the same contents in a new array and does not touch the old one |
| BatchBuffers.BatchBuffer.Insert | op/batch_buffer.go:61-89 | The array buffer behaves as the specified insertion and no pointer handed out before changes |
| BatchBuffers.BatchBuffer.Peek | op/batch_buffer.go:98-103 | The front cell as a pointer into the live window, or none when the buffer is empty |
| BatchBuffers.BatchBuffer.Get | op/batch_buffer.go:91-96 | The entry at an index, or none outside the buffer, negative indices included |
| BatchBuffers.BatchBuffer.Pop | op/batch_buffer.go:105-114 | The front entry goes, the rest stays in order, and the pointer to the popped cell keeps its batch from now on |
| L1Check.AcceptedAgain | op/op_streamer.go:292-338 | An accepted batch is accepted again at once without any call to L1 |
| L1Check.AskedOnce | op/op_streamer.go:292-338 | After a check decided on a finalized origin, accept or drop, no check of a batch of that L1 block depends on any further answer of L1, except when the block has no registered batcher |
| L1Check.CachedAgreesWithUncached | op/op_streamer.go:263-350 | Whatever was evicted, the verdict is the one of asking L1 anew, or the check is put off because a call failed; the cache only ever holds canonical entries |
| L1Check.FinalVerdictNeverFlips | op/op_streamer.go:263-350 | Between two views with canonical caches, an accept or drop reached for a finalized origin is never replaced by another verdict while finality does not go down and the batch is not passed; it is an accept exactly when the canonical chain accepts |
| VerdictRuns.VerdictStands | op/op_streamer.go:263-350 | The same over every run of a new streamer, overflow, resets and SetProperHead included: the cache is canonical in every reachable state, so a final verdict stands at every later state |
| VerdictRuns.L1IsLatest | op/op_streamer.go:222-232 | After any run the streamer knows the finalized block of the latest Refresh and the batcher of the latest one whose contract call succeeded with a non-zero address |
| StreamerRuns.UpdateNeverMovesBack | op/op_streamer.go:389-447 | Update never moves the cursor back, hands nothing out, and when it stops on a ready batch the head slot is filled |
| StreamerRuns.StepKeeps | op/op_streamer.go:202-785 | Every public call keeps the cursor bounds, the head's number, the number above the last safe batch and the buffer order; it hands out number nextBatchPos or resets to the batch after the safe one |
| StreamerRuns.ReachableInv | op/op_streamer.go:148-199 | The same in every state a new streamer can reach: origin below fallback and cursor, a pending rewind between origin and cursor, the head numbered nextBatchPos |
| StreamerRuns.RunKeeps | op/op_streamer.go:674-743 | Between two resets the batches handed out are numbered nextBatchPos, nextBatchPos + 1 and so on, without gap or repeat, across rewinds and rescans |
| StreamerRuns.ResetIsNewStart | op/op_streamer.go:202-209 | A reset makes the streamer a new one at the fallback, wherever its cursor stood; only origin and L1 view are carried over |
| StreamerRuns.LightClientMovesFallback | op/op_streamer.go:755-785 | In a reachable state an unreachable light client, or a height not above the origin, changes nothing; any other height becomes the fallback, and a lower one than before starts over from there |
| StreamerRuns.NotReadyIsWaiting | op/op_streamer.go:694-744 | In any state HasNext stops only on a head that is not passed, or with no entry left that is wanted next or stale |
| Rewind.RewindIsExact | op/op_streamer.go:578-590 | In every reachable state a rewind is pending if and only if a batch scanned since the last batch handed out, or reset, found the buffer full, and it points one block before the earliest such block, or to 0 |
| Rewind.NextUsesUpRewind | op/op_streamer.go:674-688 | A Next that hands out a batch leaves no rewind pending and its cursor at the rewind point, or where it was if there was none; any other Next leaves both as they are |
| Rewind.FoundFullIff | op/op_streamer.go:599-656 | A transaction finds the buffer full if and only if it decodes to a batch that is accepted or undecided, does not repeat the head, does not take the empty head slot, and the buffer is at capacity |
| StreamerRuns.DrainRemovesLongestRun | op/op_streamer.go:485-524 | The drain loop removes exactly the longest front run of entries for the wanted number with another parent and keeps the rest in order |
| StreamerRuns.SetProperHeadRemovesExactly | op/op_streamer.go:461-525 | With a head of another number nothing happens; otherwise the head slot is emptied, exactly the longest stale front run goes, and nothing else of the streamer changes |
| StreamerRuns.ProperHeadPromotedNext | op/op_streamer.go:461-525 | After SetProperHead, with no stale entries, the candidate HasNext tries next has the requested parent, or there is no candidate |
| NoLoss.ProcessTxKeeps | op/op_streamer.go:578-590 | A scanned batch is held, or was itself rejected, or shares its hash with a held batch that was dropped, or is passed, or its block lies at or after the rewind point that is set; no batch held before is given up |
| NoLoss.NextLosesNothing | op/op_streamer.go:674-688 | The rewind in Next takes the cursor back far enough that nothing scanned and unheld stays behind it |
| NoLoss.NothingIsLost | op/op_streamer.go:570-593 | In every reachable state each batch scanned since the last reset and not passed is the head, or in the buffer by hash, or in a block the pending rewind will scan again, unless since that reset it was itself rejected when scanned or a held batch with its hash was dropped |
| UpdateCoverage.UpdateLeavesAtMostOne | op/op_streamer.go:389-447 | For every latest height, an Update that ends without error ends with the wanted batch in the head slot, or with at most the newest finalized block unscanned, or where start plus limit wraps on 64 bits |
| UpdateCoverage.WrapStopsUpdate | op/op_streamer.go:370 | Where start plus limit wraps, Update stops at once, whatever is left to scan |
| UpdateCoverage.LastBlockScannedIff | op/op_streamer.go:408-425 | With every request served, blocks to scan and nothing to hand out, the newest finalized block is reached if and only if it is not a range of its own behind another one and the limit does not wrap before the last range |
| UpdateCoverage.LastBlockLeft | op/op_streamer.go:410-425 | A new streamer over 101 empty blocks stops at block 99 |
| UpdateEnds.LoopEndsIff | op/op_streamer.go:405-446 | The fetch loop goes on for ever if and only if after some iterations at least two blocks are left, every further answer is empty and nothing held ever becomes ready |
| UpdateEnds.AnsweredUpdateEnds | op/op_streamer.go:389-447 | Update ends, whatever is held and whatever L1 answers, if non-empty answers keep coming |
| UpdateEnds.EmptyServiceEndsIff | op/op_streamer.go:549-552 | Against a service that answers only with empty lists, Update ends if and only if at most one block is left or something held becomes ready, which cannot be when nothing is held |
| UpdateEnds.EmptyServiceHoldsUpdate | op/op_streamer.go:549-552 | A new streamer with two or more finalized blocks before it: after any number of empty answers Update has neither ended nor moved |
| UpdateEnds.UpdateFailsIff | op/op_streamer.go:389-430 | Update reports an error if and only if the latest height cannot be had or is the top uint64 value, or an iteration that has something to fetch is refused |
| Delivery.FirstAcceptedIsUnique | op/op_streamer.go:674-691 | The reference is well defined: a log has at most one first accepted batch for a number |
| Delivery.HasNextKeepsOrder | op/op_streamer.go:694-744 | HasNext discards only batches that L1 rejects or that are passed, and the head it reports ready is the first accepted batch of its number among those scanned |
| Delivery.ReadyIffAcceptedScanned | op/op_streamer.go:694-744 | When L1 answers and has decided, HasNext has a batch to hand out if and only if the scanned log holds an accepted batch for the wanted number |
| Delivery.ProcessKeepsOrderIff | op/op_streamer.go:599-664 | Scanning one more batch keeps head and buffer in agreement with the log if and only if it neither takes the head slot ahead of an accepted buffered batch of its number nor is skipped as a duplicate of a rejected one |
| Delivery.FetchKeepsOrder | op/op_streamer.go:533-594 | A fetched range keeps head and buffer in agreement with the log, also when block 0 is read twice |
| Delivery.DeliveryRefinesLog | op/op_streamer.go:533-743 | Over a whole run, whatever the interleaving, the range splits and the failing calls, every batch handed out is the first one of its number in HotShot order that L1 finally accepts |
| Delivery.TimingIndependent | op/op_streamer.go:389-743 | Two streamers over the same log hand out the same batches although calls, answers, capacities and caches differ |
| Overtaking.UnpolledUpdateOvertakes | op/op_streamer.go:631-638 | A concrete run: Update straight after Next puts a newly scanned alternative in the head slot ahead of the buffered first one, and it is handed out |
| Shadowing.CopyShadowsGenuine | op/op_streamer.go:626-629 | A concrete run: a copy with the same hash and another signer takes the head slot before its origin is final, the accepted batch is skipped as its duplicate, and nothing is handed out |
| BatchStreamers.BatchStreamer.constructor | op/op_streamer.go:177-198 | A new streamer wants the batch after the origin batch, stands at the HotShot origin, holds nothing and has no rewind pending |
| BatchStreamers.BatchStreamer.Reset | op/op_streamer.go:202-209 | Cursor and number go back to the fallback, head, rewind and buffer are cleared, and batches handed out earlier do not change |
| BatchStreamers.BatchStreamer.ConfirmEspressoBlockHeight | op/op_streamer.go:755-785 | The fallback never drops below the origin; a reset is asked for exactly when the light client reports less than the fallback and more than the origin |
| BatchStreamers.BatchStreamer.RefreshSafeL1Origin | op/op_streamer.go:214-219 | Confirms the height and resets when asked to |
| BatchStreamers.BatchStreamer.Refresh | op/op_streamer.go:222-259 | Takes over the finalized block and a non-zero batcher, then the safe L1 origin, then the safe batch |
| BatchStreamers.BatchStreamer.FollowSafeBatch | op/op_streamer.go:236-258 | Nothing happens when the safe batch is the known one; otherwise it becomes the fallback, with a reset when it moved back, when the fallback block is ahead of the cursor or when the wanted number is not above it |
| BatchStreamers.BatchStreamer.CheckBatch | op/op_streamer.go:263-350 | Gives the specified verdict and changes nothing but the cache |
| BatchStreamers.BatchStreamer.Verdict | op/op_streamer.go:267-349 | The order of the tests: passed, uninitialised, not final, cached, asked, unregistered, wrong signer, wrong block |
| BatchStreamers.BatchStreamer.Promote | op/op_streamer.go:715-716 | The head takes the pointer to the front cell before it is popped, and denotes that batch afterwards |
| BatchStreamers.BatchStreamer.HasNext | op/op_streamer.go:694-744 | The loop terminates with the specified state, and a ready head is there |
| BatchStreamers.BatchStreamer.Next | op/op_streamer.go:674-691 | Hands out the head as a pointer whose batch never changes again, moves on by one number and takes a pending rewind |
| BatchStreamers.BatchStreamer.Peek | op/op_streamer.go:450-455 | Shows the head if HasNext holds, and does not consume it |
| BatchStreamers.BatchStreamer.SetProperHead | op/op_streamer.go:461-525 | Returns early on a head with another number, else empties the head and drains the buffer by the loop |
| BatchStreamers.BatchStreamer.ProcessEspressoTransaction | op/op_streamer.go:599-664 | One transaction: undecodable, dropped, passed, duplicate of the head, new head, or buffered; a full buffer is reported |
| BatchStreamers.BatchStreamer.ProcessInBlock | op/op_streamer.go:578-590 | A full buffer moves the rewind point to one block before, or to 0, and never forward |
| BatchStreamers.BatchStreamer.FetchHotShotRange | op/op_streamer.go:533-594 | A finish of 0, an error or an empty answer moves nothing; else the cursor goes to the last block of the range and every transaction is processed in order |
| BatchStreamers.BatchStreamer.ComputeEspressoBlockHeightsRange | op/op_streamer.go:362-373 | The range starts after the cursor, at 0 for cursor 0, and ends at the limit or past the finalized block, with the addition wrapping on 64 bits |
| BatchStreamers.BatchStreamer.Update | op/op_streamer.go:389-447 | After any number of iterations the call stands in the specified state, ended with an error, a ready batch or nothing left, or still going |
| BatchStreamers.BatchStreamer.FetchLoop | op/op_streamer.go:405-446 | The same for the loop, for every sequence of answers |
| BatchStreamers.BatchStreamer.UpdateOnce | op/op_streamer.go:406-444 | One iteration: nothing left, a failed fetch, a ready batch, or another round |
| BufferedSpec.ReadyAgain | op/op_streamer.go:694-744 | A head reported ready is reported ready again with nothing else changed, so a Peek followed by Next takes the batch that was shown |
| BufferedSpec.FirstRefreshAligns | op/buffered_streamer.go:128-133 | A first Refresh before anything is read aligns the window with the streamer below |
| BufferedSpec.WindowTrimmed | op/buffered_streamer.go:68-105 | The window keeps exactly the batches above the new safe batch, in order, and is emptied by a move back or past its end |
| BufferedSpec.RefreshKeepsAlignedIff | op/buffered_streamer.go:128-133 | With the safe L1 origin not moving back, a Refresh keeps the alignment if and only if the lower streamer does not reset itself on HotShot heights or the trimmed window is empty |
| BufferedSpec.SelfResetRepeats | op/op_streamer.go:245-257 | After any such self-reset under a window that is kept and read, the next batch the lower streamer yields repeats the number of the first in the window and is appended behind the last |
| BufferedSpec.OriginBackIsFoundOut | op/buffered_streamer.go:110-125 | The safe L1 origin is compared with the one before: a lower one empties the window and reaches the lower streamer, which follows the light client's height; any other changes nothing else |
| BufferedSpec.OriginBackKeepsAlignedIff | op/buffered_streamer.go:110-133 | The Refresh that finds a safe L1 origin moved back leaves the wrapper aligned if and only if the safe batch is 0 and the lower streamer starts over from it |
| BufferedSpec.RefreshRealignsIff | op/buffered_streamer.go:80-103 | A later Refresh that moves the safe batch on aligns an emptied wrapper again if and only if the lower streamer then stands right behind that batch |
| BufferedSpec.CutKeepsAlignedIff | op/buffered_streamer.go:196-199 | SetProperHead keeps the wrapper aligned if and only if the window was read to its end; what was read stays |
| BufferedSpec.CutPassesOver | op/buffered_streamer.go:196-199 | Otherwise the numbers cut off are passed over: the next batch handed out is the one behind them |
| BufferedSpec.ProperHeadReachesLower | op/buffered_streamer.go:196-199 | After the wrapper's SetProperHead, with no stale entries, the candidate the lower streamer tries next has the wanted parent, or there is none |
| BufferedSpec.NextFetchesFirstInWindow | op/buffered_streamer.go:174-188 | In any state fetching goes on exactly as long as the lower streamer yields batches below the starting position; the batch fetched is the first it can yield that is not below |
| BufferedSpec.PeekShowsFirstInWindow | op/buffered_streamer.go:205-215 | Peek looks on in the same way and shows that batch without taking it |
| SelfReset.SelfResetHandsOutTwice | op/op_streamer.go:780-784 | A concrete run: the window is aligned, the light client reports a lower height, and Next hands out number 1 again where number 2 was due |
| SelfReset.CutLosesAlignment | op/buffered_streamer.go:196-199 | A concrete run: after a Reset, SetProperHead cuts number 1 off and the lower streamer goes on with number 2 |
| BufferedSpec.NextReadsLower | op/buffered_streamer.go:166-189 | From an aligned state Next replays the window or takes exactly one batch from the lower streamer, passing over none |
| BufferedSpec.PeekReadsLower | op/buffered_streamer.go:201-216 | From an aligned state Peek shows the window or the lower streamer's head, and discards nothing |
| BufferedSpec.HasNextAnnouncesNext | op/buffered_streamer.go:153-159 | From an aligned state HasNext answers true if and only if Next hands out a batch, Peek shows that same batch, and asking first changes nothing of it |
| BufferedSpec.ReplayRefinesRewinding | op/buffered_streamer.go:68-216 | Every run in which the lower streamer offers what a fixed log has behaves like one position over that log: Reset returns to the batch after the safe one, Refresh moves as the reference does, the same batches come again, and HasNext tells whether Next would hand one out |
| Replay.LowerOffersFirstAccepted | op/op_streamer.go:694-744 | What the lower streamer has ready is the first batch of its number in the log that L1 finally accepts, although its scan began at a later block |
| Replay.HasNextIffUnreadOrScanned | op/buffered_streamer.go:153-159 | When L1 answers and has decided, the wrapper's HasNext is true if and only if the window is unread or the scanned log holds an accepted batch for the number at the cursor |
| Replay.ReplayHandsOutLog | op/buffered_streamer.go:68-216 | Under the conditions of delivery on the lower streamer, the wrapper hands out and shows the first accepted batch of each number, forward, backward, past the window and after Reset |
| Replay.ReplayFromFirstRefresh | op/buffered_streamer.go:44-216 | The same for a wrapper around a new streamer, refreshed once before anything is read |
| BufferedSpec.BareStreamerMovesCursor | op/op_streamer.go:202-259 | The bare streamer's own Reset, Next and Refresh move that same cursor, so replay and true rewinding agree |
| BufferedStreamers.BufferedEspressoStreamer.constructor | op/buffered_streamer.go:44-48 | A new wrapper has an empty window at position 0 |
| BufferedStreamers.BufferedEspressoStreamer.Update | op/buffered_streamer.go:51-53 | Only the lower streamer moves; the window keeps its batches |
| BufferedStreamers.BufferedEspressoStreamer.HandleL2PositionUpdate | op/buffered_streamer.go:68-105 | Back: window dropped and lower streamer reset; forward within the window: front cut and read position shifted; past it: window dropped; same: nothing |
| BufferedStreamers.BufferedEspressoStreamer.Trim | op/buffered_streamer.go:88-92 | Clearing the first pointers and cutting the slice leaves exactly the rest |
| BufferedStreamers.BufferedEspressoStreamer.RefreshSafeL1Origin | op/buffered_streamer.go:110-125 | An older origin empties the window and reaches the lower streamer; any other is only stored |
| BufferedStreamers.BufferedEspressoStreamer.Refresh | op/buffered_streamer.go:128-133 | Position first, then origin, then the lower Refresh, with the window's batches unchanged by it |
| BufferedStreamers.BufferedEspressoStreamer.Reset | op/buffered_streamer.go:139-142 | Only the read position goes back; the lower streamer is not touched |
| BufferedStreamers.BufferedEspressoStreamer.HasNext | op/buffered_streamer.go:153-159 | True within the window, else the lower streamer's answer |
| BufferedStreamers.BufferedEspressoStreamer.Next | op/buffered_streamer.go:166-189 | Replays from the window, else fetches, passing over batches below the window, and appends what it hands out; the loop terminates |
| BufferedStreamers.BufferedEspressoStreamer.Peek | op/buffered_streamer.go:201-216 | Shows what Next would hand out, discarding batches below the window; the loop terminates |
| BufferedStreamers.BufferedEspressoStreamer.SetProperHead | op/buffered_streamer.go:196-199 | Cuts the window at the read position and passes the call on |
| NitroBytes.NumberOfBigEndian | nitro/v0_nitro_types_binary.go:48-51 | Reading a big-endian number gives the number written |
| NitroBytes.BigEndianOfNumber | nitro/v0_nitro_types_binary.go:201-205 | Writing a number read gives the bytes that were there |
| NitroBytes.ReadTestIsExact | nitro/utils.go:508-513 | Within the data the wrapping subtraction test is the exact one for every claimed length; past the end it is off by 2^64 |
| NitroBytes.Copy | nitro/v0_nitro_types_binary.go:53 | Copying at an offset writes the source there and nothing else |
| V0Codec.ParseMessage | nitro/v0_nitro_types_binary.go:190-239 | A frame never reads past its input, and a parsed or skipped frame takes at least sixteen bytes |
| V0Codec.ParseOfWire | nitro/v0_nitro_types_binary.go:264-290 | Parsing a concatenation of frames gives the messages of the non-empty ones in order and consumes everything |
| V0Codec.ParsedIsWire | nitro/v0_nitro_types_binary.go:264-290 | Whatever parses is a concatenation of frames whose bodies decode |
| V0Codec.AcceptsExactlyWire | nitro/v0_nitro_types_binary.go:264-290 | On every byte string: accepted if and only if it is such a concatenation, and then consumed to the last byte |
| V0Codec.ErrorIsFirstFault | nitro/v0_nitro_types_binary.go:190-290 | A refused input is good frames up to a fault, and the error is that of the fault: too few bytes for a header or for the claimed body, or a body that does not decode |
| V0Codec.V0ErrorIsExact | nitro/v0_nitro_types_binary.go:318-364 | The signed payload fails for want of bytes for the length or the signature, or with the error of its frames; a length mismatch is never reported |
| V0Codec.EmptyFramesDoNotMatter | nitro/v0_nitro_types_binary.go:270-279 | On every byte string, parsing gives the messages or the error of the input with all zero-length frames deleted |
| V0Codec.EncodedIsWire | nitro/v0_nitro_types_binary.go:84-104 | The encoding of a message list is a concatenation of non-empty frames with exactly those messages |
| V0Codec.V0RoundTrip | nitro/v0_nitro_types_binary.go:318-364 | Parsing an encoding gives back signature, positions and messages in order, with the hash of the signed part |
| V0Codec.V0Reencodes | nitro/v0_nitro_types_binary.go:130-154 | Encoding a parse gives back the original bytes if and only if the input has no empty frame, for bodies with one encoding |
| V0Binary.EncodeV0MessageAndIndex | nitro/v0_nitro_types_binary.go:36-61 | The filled buffer is position, length and body, with no byte left over |
| V0Binary.Concatenate | nitro/v0_nitro_types_binary.go:97-103 | Copying the pieces at a moving offset gives their concatenation |
| V0Binary.EncodeV0MessageAndIndexes | nitro/v0_nitro_types_binary.go:84-104 | The frames of all messages in order, or a failure when one body cannot be encoded |
| V0Binary.EncodeV0SignatureAndMessages | nitro/v0_nitro_types_binary.go:130-154 | Signature behind its length, then the frames |
| V0Binary.ParseV0MessageAndIndex | nitro/v0_nitro_types_binary.go:190-239 | On every input the offset arithmetic stays within the data and 64 bits, with the specified result, error and bytes read |
| V0Binary.ParseMessagesStep | nitro/v0_nitro_types_binary.go:270-287 | One pass of the loop consumes at least sixteen bytes or ends the parse |
| V0Binary.ParseV0MessageAndIndexes | nitro/v0_nitro_types_binary.go:264-290 | The loop over offsets terminates with the specified parse of the whole input |
| V0Binary.ParseV0SignatureAndMessages | nitro/v0_nitro_types_binary.go:318-364 | The same for the signed payload: too short, too short for the signature, bad frames, or the parsed payload |
| V1Codec.FeedAcceptsExactly | nitro/v1_nitro_type_binary.go:186-200 | On every byte string: accepted if and only if it is a concatenation of embedded values that decode, and then consumed to the last byte |
| V1Codec.V1AcceptsExactly | nitro/v1_nitro_type_binary.go:230-247 | Accepted if and only if the input is a header that reads as the version, then embedded values that decode |
| V1Codec.FeedErrorIsFirstFault | nitro/v1_nitro_type_binary.go:186-200 | A refused feed is good values up to a fault, and the error is that of the fault |
| V1Codec.V1ErrorIsExact | nitro/v1_nitro_type_binary.go:230-247 | The error is that of the header, or of another version, or of the feed |
| V1Codec.V1RoundTrip | nitro/v1_nitro_type_binary.go:230-247 | Parsing an encoding gives back the messages in order |
| V1Codec.V0Dispatched | nitro/utils.go:475-498 | An encoded V0 payload with a 65-byte signature is taken for V0 and comes back unchanged |
| V1Codec.V1Dispatched | nitro/utils.go:475-498 | An encoded V1 payload is taken for V1 and comes back unchanged |
| V1Codec.DispatchesExactly | nitro/utils.go:475-498 | On every byte string: taken for V0 if and only if it is a 65-byte signature followed by frames that decode, for V1 if and only if it is the header followed by values that decode, of unknown format if and only if it has neither prefix, and otherwise refused with the error of the version its prefix names |
| V1Binary.EncodeEmbeddedJSON | nitro/v1_nitro_type_binary.go:34-60 | The filled buffer is the length and the JSON text, with no byte left over |
| V1Binary.ParseEmbeddedJSON | nitro/v1_nitro_type_binary.go:80-105 | On every input the offset arithmetic stays within the data and 64 bits, with the specified result |
| V1Binary.EncodeV1BroadcastFeedMessages | nitro/v1_nitro_type_binary.go:292-321 | The embedded messages in order, or a failure when one cannot be encoded |
| V1Binary.ParseFeedStep | nitro/v1_nitro_type_binary.go:190-197 | One pass of the loop consumes at least eight bytes or ends the parse |
| V1Binary.ParseV1BroadcastFeedMessages | nitro/v1_nitro_type_binary.go:186-200 | The loop over offsets terminates with the specified parse of the whole input |
| V1Binary.ParseV1HeaderAndBroadcastFeedMessages | nitro/v1_nitro_type_binary.go:230-247 | Header, version test, then the messages, with the offsets reported on failure |
| V1Binary.EncodeV1HeaderAndBroadcastMessages | nitro/v1_nitro_type_binary.go:347-373 | The header followed by the messages |
| V1Binary.ParseNitroMessagesFromHotShot | nitro/utils.go:475-498 | The version is chosen by the first bytes, V1 before V0, and anything else is refused |
| HotShotPayload.BuildRawHotShotPayload | nitro/utils.go:68-99 | The payload is the frames of the longest prefix of positions that can be fetched and fits with the quote allowance |
| HotShotPayload.WireInjective | nitro/utils.go:90-96 | A payload determines its positions and bodies |
| HotShotPayload.SignedPayloadReadsBack | nitro/utils.go:101-118 | A signed payload parses as V0 if and only if every body that is there decodes; then the quote, positions and messages come back in order without the empty ones |
| HotShotPayload.BuildSignParse | nitro/utils.go:68-118 | Building, signing and parsing gives the quote and the first msgCnt positions and messages, and the signed payload fits when the quote keeps to its allowance |
| NitroSpec.Lowered | nitro/nitro_streamer.go:281-288 | The loop's height is a lower bound of the heights above the position and is one of them or the new one |
| NitroSpec.InsertKeepsHeights | nitro/nitro_streamer.go:261-291 | Inserting a message keeps heights non-decreasing in position, positions in bounds and heights at most the next block |
| NitroSpec.EarliestIsLeast | nitro/nitro_streamer.go:201-220 | The fast path for a buffered position gives the unique full minimum over all positions at or above it |
| NitroSpec.HeightsStayMonotone | nitro/nitro_streamer.go:126-291 | Both hold in every state reachable under any interleaving of Reset, Advance, AdvanceTo, insertion and fetch completion |
| NitroSpec.BufferHoldsFirstTaken | nitro/nitro_streamer.go:268-291 | In every state reachable under any interleaving, the buffer holds at each position not yet passed exactly the first message taken there since the last Reset |
| NitroConsumer.AdvanceMovesExactly | nitro/nitro_streamer.go:152-171 | Advance moves by one position and AdvanceTo to a target ahead; every message at or above the new position keeps content and height, and none below is left |
| NitroConsumer.ConsumerAfterReset | nitro/nitro_streamer.go:126-157 | After any Reset, forward or back, a consumer that peeks before every Advance is shown the first message taken at the position it was reset to, the next, and so on, passing over none |
| NitroConsumer.ConsumerReadsLog | nitro/nitro_streamer.go:138-157 | In a run without a Reset that is the first message at each position in the scanned blocks |
| NitroConsumer.HighestAfterReset | nitro/nitro_streamer.go:277-279 | The highest position is where the last Reset put it, 1 at the start, or that of a message taken since |
| NitroTiles.ScanningTilesTheLog | nitro/nitro_streamer.go:175-199 | In every reachable state, Resets inside a fetch included: completed ranges are consecutive, one to 100 blocks long, and cover the blocks since the last Reset; the payloads handed over between fetches are those of the undisturbed listed ranges, once and in order |
| NitroTiles.EveryPayloadOnce | nitro/nitro_streamer.go:347-354 | With no Reset inside a fetch and empty answers given only for ranges without payloads, every payload of those blocks is handed over exactly once and in order |
| NitroRestart.MessagesTakenOnce | nitro/nitro_streamer.go:347-354 | With signature verdicts that do not depend on the range, so is every message |
| NitroTiles.FailedFetchMovesNothing | nitro/nitro_streamer.go:305-340 | A fetch that fails on the height, the range or the header leaves everything as it was |
| NitroProgress.ServedFetchMoves | nitro/nitro_streamer.go:305-356 | A fetch that is served and not reset moves the next block a hundred on, or to the latest block if that is nearer, whatever the consumer does meanwhile |
| NitroProgress.ServedFetchTakes | nitro/nitro_streamer.go:335-354 | It takes the messages of every payload in between, in order, judged at the L1 height given for the range |
| NitroProgress.SeriesMoves | nitro/nitro_streamer.go:175-199 | n such fetches move it by n hundred, or to the latest block |
| NitroProgress.LatestIsReached | nitro/nitro_streamer.go:175-199 | With a service that answers, the latest block is reached |
| NitroRestart.RestartIsExact | nitro/nitro_streamer.go:126-293 | Resetting to a position not yet passed and the block reported for it, and scanning up to the old next block, brings back exactly the messages that were buffered from there on, with the same contents |
| NitroRestart.ResetInFetchHonouredIff | nitro/nitro_streamer.go:192-197 | A Reset during a fetch makes the next fetch begin at its block if and only if that block is not the one the fetch began at, or the fetch covers nothing |
| NitroRestart.SameBlockResetLosesMessages | nitro/nitro_streamer.go:192-197 | A concrete run: a Reset to the block a fetch began at empties the buffer and the scan goes on behind that block |
| NitroExtract.ValidMessages | nitro/utils.go:345-359 | Exactly the validly signed messages are kept |
| NitroExtract.ExtractedIff | nitro/nitro_streamer.go:235-258 | A message is extracted from a transaction if and only if it parses and is V0 with an accepted signature and holds that position and content, or is V1 and holds that message with an accepted signature of its own |
| NitroExtract.ExtractedExactly | nitro/nitro_streamer.go:235-266 | In order and multiplicity: all messages of an accepted V0 payload, none of a refused one, and of a V1 payload each message whose signature is accepted, once, with its sequence number as position |
| NitroStreamers.VerifyV1 | nitro/utils.go:345-359 | The loop keeps them in order |
| NitroExtract.MessagesFrom | nitro/utils.go:376-422 | The messages a payload yields from an index on: position and content of each, in order |
| NitroStreamers.MessageIterator.NextMessage | nitro/utils.go:387-400 | Hands out each message once, in order, then reports the end and stays there |
| NitroStreamers.QueueIsSteps | nitro/nitro_streamer.go:175-199 | A whole fetch, failed or served, is one particular interleaving of the locked sections when no other call comes between them |
| NitroStreamers.EspressoStreamer.constructor | nitro/nitro_streamer.go:67-88 | A new streamer is empty, at the given block and position, with highest position 1 |
| NitroStreamers.EspressoStreamer.Reset | nitro/nitro_streamer.go:126-136 | Position, block and highest position are replaced and the map is emptied |
| NitroStreamers.EspressoStreamer.Peek | nitro/nitro_streamer.go:138-143 | Gives the first message taken at the current position since the last Reset, or nothing when none was taken there |
| NitroStreamers.EspressoStreamer.Advance | nitro/nitro_streamer.go:152-157 | The current message goes and the position moves by one |
| NitroStreamers.EspressoStreamer.AdvanceTo | nitro/nitro_streamer.go:159-171 | Everything below the target goes; an earlier target changes nothing |
| NitroStreamers.EspressoStreamer.GetMessageCount | nitro/nitro_streamer.go:114-124 | The first position from the current one on that is not buffered |
| NitroStreamers.EspressoStreamer.GetCurrentEarliestHotShotBlockNumber | nitro/nitro_streamer.go:201-220 | The least height at or above the position, by either path and for any iteration order of the map |
| NitroStreamers.EspressoStreamer.InsertOne | nitro/nitro_streamer.go:268-291 | The first message at a position wins, earlier positions are skipped, and the height is lowered to the least above |
| NitroStreamers.EspressoStreamer.ParseEspressoTransaction | nitro/nitro_streamer.go:235-295 | A transaction that does not parse, is empty or is badly signed adds nothing; else its valid messages are inserted in order |
| NitroStreamers.EspressoStreamer.FetchNextHotshotBlock | nitro/nitro_streamer.go:297-357 | A failed height, range or header request inserts nothing; else the end of the range of at most 100 blocks is reported and the messages of its transactions, judged at the L1 height of its last block, are inserted in order |
| NitroStreamers.EspressoStreamer.QueueMessagesFromHotshot | nitro/nitro_streamer.go:175-199 | The whole fetch: failures change nothing, an empty answer only moves the next block, else every transaction of the range is inserted first |

## Left out

- RPC clients, contract bindings, the light client contract, Keccak, ECDSA recovery, RLP and JSON: parameters, as described above.
- Logging, the log debouncer, timers, context cancellation, starting and stopping the goroutine, the batch timestamp LRU: no state the modelled properties depend on.
- `op/derivation/espresso_batch.go`: only number, hash, parent hash, origin and signer of a batch are modelled; conversion from and to L2 blocks is not.
- `nitro/batch_addr_monitor.go`, the feed hash functions and CanBatcherAddressSend: part of the signature check, which is a parameter.
- The `Want` values and texts of error messages: never used as an index. The wrapped additions that compute them are not modelled.
- Positions at the top of the uint64 range: L2 block numbers, HotShot positions and light client heights are below 2^64 - 1, and Nitro positions and blocks are unbounded. For a Nitro message at position 2^64 - 1 the source's lowering loop does not end; that is not modelled.
- A range answer of the wrong length: an answer has one entry per block or is empty, which the position arithmetic of the source relies on.
- A slice that was set to nil and a slice that is empty are the same.
- DeliveryRefinesLog: assumes that batches with equal hashes have equal numbers and equal final verdicts (the hash does not cover the signer, see CopyShadowsGenuine), that L1 calls fail or tell the canonical chain, that the signer filter applied before finality drops only batches L1 would drop, and no overflow, no SetProperHead, and HasNext or Peek between a batch handed out and the next Update. Without the last one the claim is false (UnpolledUpdateOvertakes). ProcessKeepsOrderIff is the exact condition for one step.
- TimingIndependent: the same assumptions, and no reset in either run.
- NothingIsLost: assumes that a hash determines its batch's number, and no SetProperHead, which discards batches on purpose. A batch is exempt when a held batch with its hash was dropped, because then the code can lose the other copy (CopyShadowsGenuine). When a batch that was skipped is scanned again is not stated: the rewind is taken by the next successful Next, and without one it is not taken.
- BatchStreamers.BatchStreamer.Update: a call that does not end returns nothing, so the method is watched for a number of iterations; when it ends is LoopEndsIff.
- ReplayRefinesRewinding: assumes that the safe L1 origin does not move back, that the lower streamer does not reset itself under a kept window (exact condition in RefreshKeepsAlignedIff), that what it has ready is what one fixed log has at that number, and no SetProperHead. Replay.ReplayHandsOutLog proves the third of these from the conditions of DeliveryRefinesLog and from what the light client's height is for: that no batch above the safe one is accepted before the block a scan begins at.
- RestartIsExact: assumes that signature verdicts do not depend on the range a payload is fetched in, that an empty answer is given only for a range without messages, and no Reset inside a fetch. MessagesTakenOnce shares these; ScanningTilesTheLog needs none of them.
- NitroStreamers.EspressoStreamer.QueueMessagesFromHotshot: the method runs without other calls in between; the interleavings with Reset, Advance and AdvanceTo are the steps of NitroSpec, and QueueIsSteps connects the two.
- V0RoundTrip, V1RoundTrip and the dispatch lemmas: CumulativeSumMsgSize, which is not serialised, is not part of a message.
