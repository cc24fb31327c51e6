# Folio in Dafny

A model of Folio, a BookKeeper-style ledger store, and proofs about it. Three parts of the system are
covered:

- **The storage node.** Record framing and ALIGN padding, the batching WAL journal, the hot/warm cache and
  the flush loop, two-phase crash recovery, the tiered reader, fencing. The node is a state machine over
  file bytes, two indexes and a cache, in which appends, journal batches, flush steps and the separate
  lookups of a read interleave freely and the process may crash between any two steps.
- **The client protocol.** Quorum appends with fragment changes, last-add-confirmed (LAC) tracking, reads
  that choose an owning fragment, fencing, and the compare-and-swap metadata store.
- **Re-replication and offload.** Copying a fragment to a new node, and moving sealed segments to S3.

Code that updates state in place is a class or a method with loops, proved equal to a function on values;
the laws are proved about those functions and about every run of the state machines built on them.

## Files

| file | content |
|---|---|
| `Words`, `Records` | integers as bytes, the record format, the write buffer |
| `Scanning`, `BatchFiles`, `Resume` | the recovery scan, what it reads back from files of padded batches, and the active file after a crash |
| `EntryCache`, `EntrySegments`, `Keys` | the hot/warm cache, EntrySegment files and ids, the order of index keys |
| `Recovery`, `RecoveryLaws`, `CrashRecovery` | two-phase recovery as a function, its laws, and as the loops that compute it |
| `NodeRun`, `NodeInvariant`, `Durability`, `CrashSafety`, `Restart`, `NodeFence`, `FenceAnswers` | the node's steps, what each keeps in memory and on disk, the crash, life after it, and what a fence answers and fixes |
| `Journal`, `JournalRefinement` | the journal thread, and its turns as steps of the node |
| `Blocks`, `TieredReads` | records read through blocks; the block cache and the read tiers |
| `Failures` | runs of a node that reach what it does not promise |
| `Protocol`, `Metadata` | ledger records, the in-memory store, the etcd store |
| `Ledger`, `Appends`, `FragmentChanges`, `Client` | the client handle, when its appends succeed, what its fragment changes replace, and the creation of a ledger |
| `QuorumLog`, `Sealing`, `Fencing`, `Rereplication` | quorum log correctness, sealing, stale writers, replica repair |
| `Offload` | the offloader beside the flush loop and its start-up |

## What the code does not promise

Each of these has its exact condition, and an input, run or continuation that shows the failure.

- The scan reads a 4-byte length even when only 1 to 3 bytes of padding are left, so it can take padding
  and the next batch's first bytes for a length: `BatchFiles.ScanInvertsWrite`,
  `BatchFiles.TwoBytePaddingLosesABatch`.
- A zero word at an aligned position makes the scan loop stand still: `Scanning.LoopDivergesIff`,
  `BatchFiles.ZeroTailHangs`, `Scanning.FourZerosHang`.
- The journal takes its resume offset from the length of the active file, rounded down, normally before
  recovery cuts a torn file. The next batch can overwrite a kept record, or leave a hole of zeros in which the
  next recovery stands still: `Resume.RecordsKeptIff`, `Resume.NextScanIff`, `Resume.ShortTearLosesARecord`,
  `Resume.TornBlockHangsTheNextStart`.
- Recovery is idempotent except that a key whose location was purged can be indexed again on the next start,
  from a segment scanned before the purge: `RecoveryLaws.RecoverTwice`, `RecoveryLaws.PurgedKeyComesBack`.
- A record that reaches into a third block cannot be read back from its file, acknowledged or not:
  `Blocks.AssemblyRefinesDirectRead`, `NodeInvariant.ReadEntryAnswers`, `Failures.LongEntryFails`.
- `fence_ledger` looks into `entry_index` before `wal_index` while the flush loop moves keys from the second
  to the first. On a node that never restarted its answer bounds every acknowledged id all the same; after a
  restart it can be too low. It is never above what the node holds: `NodeFence.FirstLifeFenceBound`,
  `NodeFence.FenceSafeIff`, `FenceAnswers.FenceExactIff`, `Failures.FenceAnswerTooLow`.
- A read that found a segment Local and opens its file after the offloader has switched it to S3 and removed it
  fails, unless its blocks are cached: `TieredReads.SplitReadIff`, `TieredReads.SwitchUnderARead`.
- A failed append leaves its id to the next one, and nodes acknowledge a known id without comparing bytes. The
  log is correct as long as the client repeats a failed append with the same bytes:
  `QuorumLog.QuorumLogCorrect`, `QuorumLog.FailedAppendReusesItsId`.
- Quorums are validated as given and stored modulo 256, so a ledger can acknowledge what no node holds:
  `Client.NewLedgerStartsLog`, `Client.WideQuorumsAckNothing`.
- `change_fragment` changes the handle before the store accepts the change, so what locks a stale writer out
  is decided anew by the fragment its last refused append left: `Fencing.LockedOutIff`,
  `Fencing.SecondAppendIff`, `Fencing.SecondAppendEscapes`.
- Sealing asks the nodes of the last fragment only and records one entry less than they hold, so it hides every
  acknowledged entry from the sealed LAC on, which can be all of them: `Sealing.SealAfterRun`,
  `Sealing.SealHidesEverything`. Copying the last fragment stops one entry early:
  `Rereplication.LosesAHolderIff`, `Rereplication.LastEntryLosesAHolder`.
- Re-replication looks the fragment up again by its start, so with two fragments of the same start it edits
  the earlier one: `Rereplication.RestoreReplication`, `Rereplication.EqualStartsKeepTheFailedNode`.
- The start-up reset of stuck uploads can hit an upload that is underway, and a lost registry switch is taken
  for success: `Offload.PickSafeIff`, `Offload.EarlyPickIsReached`.

## Hypotheses

- The checksum is an arbitrary function from bytes to 32 bits; the framing laws hold for every such function.
  That a torn tail does not happen to carry a valid checksum is the hypothesis `Genuine` of a crash image:
  records found past the synced bytes are ones that were submitted.
- A serialised entry is not empty and a record's length fits 32 bits (`Writable`).
- One payload per key reaches a node: a submission for a known key carries the payload submitted before.
- An index keeps a subset of the locations written to it at the crash, files keep what was synced, followed by
  anything.
- Ensembles and the lists of spare nodes name no node twice.
- The log theorems have one writer; a second one is the stale writer of Fencing.
- Statements about `Recover` say what recovery leaves when it ends.

## Model

| member | source | states |
|---|---|---|
| Records.DecodeInvertsEncode | crates/folio-node/src/storage/segment.rs:117-217 | Decoding at a position gives a record if and only if that record's encoding stands there, for every checksum function |
| Records.DecodeGrows | crates/folio-node/src/storage/segment.rs:165-217 | A record that decodes still decodes when the bytes grow at the end |
| Records.AlignedBuffer.Push | crates/folio-node/src/storage/segment.rs:117-134 | The buffer grows by the record's encoding; the returned offset decodes to the record; the length is the cast to u32 |
| Records.AlignedBuffer.PaddedAligned | crates/folio-node/src/storage/segment.rs:151-156 | The buffer is a prefix, all behind it is zero, and the length is the least multiple of ALIGN that holds it |
| Scanning.HungIff | crates/folio-node/src/recovery/crash_recovery.rs:130-141 | The scan hangs if and only if it meets a zero word behind the last record and another at the boundary that one sends it to |
| Scanning.LoopDivergesIff | crates/folio-node/src/recovery/crash_recovery.rs:127-156 | The scan loop takes more than any number of turns if and only if those two zero words stand there |
| Scanning.FourZerosHang | crates/folio-node/src/recovery/crash_recovery.rs:137-141 | Four zero bytes are a file on which the loop never ends |
| Scanning.FoundAreRecords | crates/folio-node/src/recovery/crash_recovery.rs:127-156 | What a scan finds decodes at its offset, lies in the file, in order and without overlap |
| Scanning.ScanOfGrownFile | crates/folio-node/src/recovery/crash_recovery.rs:256-300 | A grown file scans to what was found before, continued from the last valid position |
| Scanning.ScanOfCutFile | crates/folio-node/src/recovery/crash_recovery.rs:158-174 | A file cut at the last valid position keeps every found record and shows no tear |
| BatchFiles.PlacedDecode | crates/folio-node/src/storage/lsmc_journal.rs:265-290 | Each record of a batch decodes at the offset given to it |
| BatchFiles.ScanInvertsWrite | crates/folio-node/src/recovery/crash_recovery.rs:127-176 | The scan of a file of non-empty batches yields exactly the pushed records at their offsets and ends cleanly, if and only if every batch's padding fits the batch after it |
| BatchFiles.ScanKeepsIntactPrefix | crates/folio-node/src/recovery/crash_recovery.rs:127-176 | With any bytes behind them, intact batches are read back in full and the scan goes on behind them |
| BatchFiles.ZeroTailHangs | crates/folio-node/src/recovery/crash_recovery.rs:130-141 | Behind intact batches the scan stands still if and only if four zero bytes follow |
| BatchFiles.TwoBytePaddingLosesABatch | crates/folio-node/src/recovery/crash_recovery.rs:131-141 | A two-batch file with two bytes of padding whose second batch is not read back |
| EntryCache.EntrySegmentCache.Insert | crates/folio-node/src/storage/entry_cache.rs:69-79 | A warm key is left alone; any other becomes hot with the new payload, and its bytes are counted if it was not cached |
| EntryCache.EntrySegmentCache.Get | crates/folio-node/src/storage/entry_cache.rs:81-85 | Finds exactly the keys of the hot and warm tiers, with their payload |
| EntryCache.EntrySegmentCache.DrainHotToWarm | crates/folio-node/src/storage/entry_cache.rs:104-115 | Returns each hot entry once, empties the hot tier, and changes nothing a reader can see |
| EntryCache.EntrySegmentCache.EvictWarm | crates/folio-node/src/storage/entry_cache.rs:122-124 | Exactly the hot entries stay readable; the hot tier and its byte count do not change |
| EntryCache.ListsIff | crates/folio-node/src/storage/entry_cache.rs:104-115 | A drained list holds exactly the records of the drained map |
| EntrySegments.EntrySegmentWriter.WriteBatch | crates/folio-node/src/storage/entry_segment.rs:91-123 | On success the file gains the padded batch and each returned location decodes to its entry; on a failed or short write the offset and the bytes before it stay |
| EntrySegments.ScanNextId | crates/folio-node/src/storage/entry_segment.rs:24-40 | The least id above every segment file |
| EntrySegments.MaxId | crates/folio-node/src/storage/fjall.rs:593-603 | The greatest registered id, or none |
| EntrySegments.NextId | crates/folio-node/src/storage/entry_segment.rs:47-54 | The least id above every segment that has a file or a registry entry |
| Keys.KeyRoundTrip | crates/folio-node/src/storage/fjall.rs:143-160 | Key encoding and decoding are inverse to each other on 16-byte keys, and only shorter keys are refused |
| Keys.KeyOrder | crates/folio-node/src/storage/fjall.rs:143-148 | Byte order of encoded keys is exactly (ledger, entry) order, and the encoding is injective |
| Keys.RangeIsLedger | crates/folio-node/src/storage/fjall.rs:233-240 | The inclusive byte range holds exactly one ledger's keys |
| Keys.ScanLedgerLocations | crates/folio-node/src/storage/fjall.rs:233-248 | Returns exactly one ledger's locations, in entry order |
| Keys.GetNextEntryId | crates/folio-node/src/storage/fjall.rs:250-266 | The ledger's greatest entry id plus one, or 0 without entries |
| Keys.NextIsUnique | crates/folio-node/src/storage/fjall.rs:250-266 | That description determines the answer |
| CrashRecovery.CollectStale | crates/folio-node/src/storage/fjall.rs:211-224 | Lists exactly the keys located in the segment at or past the offset |
| CrashRecovery.DeleteTail | crates/folio-node/src/storage/fjall.rs:211-230 | Removes exactly those keys and returns them |
| CrashRecovery.CrashRecovery.RecoverEntrySegment | crates/folio-node/src/recovery/crash_recovery.rs:98-179 | The phase 1 loop on one EntrySegment reports exactly whether it would never end, and computes the specified files, index and cache |
| CrashRecovery.CrashRecovery.ReplayWalSegment | crates/folio-node/src/recovery/crash_recovery.rs:242-326 | The phase 2 loop on one WAL segment reports exactly whether it would never end, and computes the specified files, index and cache, and the checkpoint if it ends |
| CrashRecovery.CrashRecovery.Recover | crates/folio-node/src/recovery/crash_recovery.rs:67-83 | Both phases over all segments end exactly if no scan hangs, and then leave the specified store |
| Recovery.IndexAbsentIs | crates/folio-node/src/recovery/crash_recovery.rs:272-301 | Indexing found records adds exactly the keys absent from both indexes, each at one of its records |
| Recovery.ReplayCacheIs | crates/folio-node/src/recovery/crash_recovery.rs:272-301 | Replay puts exactly the keys without an EntrySegment location into the cache, with their submitted payload |
| RecoveryLaws.EntTearRepair | crates/folio-node/src/recovery/crash_recovery.rs:158-174 | After a tear the kept prefix holds exactly the records before it, no location remains at or past the cut, and each surviving location that was a record still decodes to it |
| RecoveryLaws.WalTearRepair | crates/folio-node/src/recovery/crash_recovery.rs:302-381 | The same for a WAL segment and `wal_index`, from its checkpoint on |
| RecoveryLaws.CheckpointSurvives | crates/folio-node/src/recovery/crash_recovery.rs:256-270 | The scan from 0 passes through a checkpoint in every later file that keeps the bytes before it, and is then the scan of that prefix followed by the scan from the checkpoint |
| RecoveryLaws.ReplayStoresOnPath | crates/folio-node/src/recovery/crash_recovery.rs:302-326 | The checkpoint a replay stores is passed by the scan from 0 as well |
| RecoveryLaws.CheckpointedReplayIsFullReplay | crates/folio-node/src/recovery/crash_recovery.rs:256-326 | Replay of a segment from its checkpoint, with tear, cut and purge, leaves the same files, indexes and checkpoints as replay from 0 once all earlier records are indexed; only the cache differs |
| RecoveryLaws.PhaseOneIndexes | crates/folio-node/src/recovery/crash_recovery.rs:87-179 | Key by key, what `entry_index` holds after phase 1, and at which record |
| RecoveryLaws.SettledReplay | crates/folio-node/src/recovery/crash_recovery.rs:183-218 | A replay of segments that are already replayed changes nothing |
| RecoveryLaws.RecoverTwice | crates/folio-node/src/recovery/crash_recovery.rs:66-218 | A second recovery changes nothing but `entry_index`, and that exactly when some key is purged and found again in another segment |
| RecoveryLaws.PurgedKeyComesBack | crates/folio-node/src/recovery/crash_recovery.rs:66-179 | A store whose `entry_index` differs after one and after two recoveries |
| NodeInvariant.StepKeeps | crates/folio-node/src/storage/node.rs:161-346 | Every step of appends, journal, flush loop, fences and block reads keeps the node's invariant |
| NodeInvariant.RunKeeps | crates/folio-node/src/storage/entry_cache.rs:222-282 | So does every run |
| NodeInvariant.NoReadAtWal | crates/folio-node/src/storage/tiered_reader.rs:129-150 | No read ever gets to a WAL file: a key in `wal_index` is still cached or already in `entry_index` |
| NodeInvariant.ReadFromIs | crates/folio-node/src/storage/tiered_reader.rs:84-108 | Reading a file at a good location gives the submitted payload if the location fits two blocks and fails otherwise, whatever lies behind the synced bytes |
| NodeInvariant.ReadEntryAnswers | crates/folio-node/src/storage/tiered_reader.rs:62-108 | A read that has found a location answers the submitted payload if it fits two blocks and an error if not: always the payload up to one block and a byte, always an error past two blocks |
| NodeInvariant.ReadsLinearise | crates/folio-node/src/storage/node.rs:320-346 | However flush steps interleave with a read's lookups, a read of an entry acknowledged before it began never ends in EntryNotFound, every answer is the submitted payload, and an error means that the record does not fit the two blocks at its location |
| Durability.StepDurable | crates/folio-node/src/storage/node.rs:249-266 | Every step keeps each readable key in a synced WAL batch and each location at a record of a synced EntrySegment batch |
| Durability.RunDurable | crates/folio-node/src/storage/entry_cache.rs:234-280 | So does every run from an empty directory |
| CrashSafety.PhaseTwo | crates/folio-node/src/recovery/crash_recovery.rs:183-326 | After replay `wal_index` and the cache hold exactly the WAL's keys that phase 1 did not index, with their submitted payload |
| CrashSafety.RecoveryRestores | crates/folio-node/src/recovery/crash_recovery.rs:67-83 | Recovery of any crash image of a durable node brings back every readable key with its payload |
| CrashSafety.CrashSafety | crates/folio-node/src/recovery/crash_recovery.rs:67-326 | For every run from an empty directory and every crash image of its last state, each acknowledged entry is, after recovery, in `entry_index` at a place that decodes to its payload, or in the cache with it |
| Resume.PrefixKeptIff | crates/folio-node/src/storage/lsmc_journal.rs:187-192 | Bytes of the active WAL survive every next batch if and only if they end at or below the resume offset |
| Resume.RecordsKeptIff | bins/foliod/src/journal_server.rs:89-104 | With the offset of the torn or of the cut length, all kept records survive every next batch if and only if the offset is not below the cut, and when that is |
| Resume.NextScanIff | bins/foliod/src/journal_server.rs:89-104 | The next scan reads back the kept records and the new batch if and only if the batch starts at the first boundary behind the cut and the length read over the hole fits; from a later boundary it hangs |
| Resume.TornBlockHangsTheNextStart | crates/folio-node/src/recovery/crash_recovery.rs:260-270 | A torn block after which the journal leaves a hole and the next recovery never ends |
| Resume.ShortTearLosesARecord | crates/folio-node/src/storage/lsmc_journal.rs:187-192 | A torn file after which the next batch overwrites the record that recovery kept |
| Restart.ResumedWrites | crates/folio-node/src/storage/lsmc_journal.rs:227-237 | The first batch after a restart is written at the resume offset |
| Restart.RestartKeeps | crates/folio-node/src/storage/node.rs:96-138 | A restarted node satisfies the running invariant, with everything acknowledged before the crash still acknowledged |
| Restart.ReadsAfterCrash | crates/folio-node/src/storage/node.rs:302-346 | Run, crash at any step, recover, resume at any offset, run on: no read of an entry acknowledged before the crash ends in EntryNotFound, every answer is the submitted payload, and only a record that does not fit two blocks ends in an error |
| NodeFence.FenceBound | crates/folio-node/src/storage/node.rs:350-383 | Under every interleaving with the three lookups the answer is at least the id of any entry held before the call, acknowledged or not, unless that entry's WAL location is taken away between the second lookup and the third |
| NodeFence.FirstLifeFenceBound | crates/folio-node/src/storage/node.rs:350-383 | On a node that never restarted the answer is at least every id acknowledged or held, under every interleaving |
| NodeFence.FenceSafeIff | crates/folio-node/src/storage/node.rs:350-383 | In every state, of a first life or after a restart: an id acknowledged or held is bounded under every schedule of the third lookup if and only if the flush loop is dead or the first two lookups bound it already |
| NodeFence.FenceHypotheses | crates/folio-node/src/storage/node.rs:96-138 | Every state of a run from an empty directory, and every state after a crash and restart, meets the hypotheses of that condition |
| NodeFence.ComingStays | crates/folio-node/src/storage/entry_cache.rs:234-280 | While the flush loop lives, every key in `wal_index` is hot or in the flush underway |
| NodeFence.FinishFlush | crates/folio-node/src/storage/entry_cache.rs:241-254 | A live flush loop can finish its flush, taking exactly that flush's keys to `entry_index` and out of `wal_index` |
| NodeFence.FlushHot | crates/folio-node/src/storage/entry_cache.rs:234-254 | From an idle flush loop there is a schedule that moves exactly the hot entries to `entry_index` and out of `wal_index` |
| NodeFence.EmptyWal | crates/folio-node/src/storage/entry_cache.rs:234-254 | From every state with a live flush loop there is a schedule that empties `wal_index` |
| FenceAnswers.FenceAnswerHeld | crates/folio-node/src/storage/node.rs:350-383 | The bound from above: under every interleaving an answer above 0 is the id of an entry of that ledger that the node holds |
| FenceAnswers.FenceExactIff | crates/folio-node/src/storage/node.rs:350-383 | With the ledger fenced and none of its appends in flight, the answer is exactly the highest id held, under every schedule, if and only if the flush loop is dead or the first two lookups bound everything held |
| FenceAnswers.FenceExact | crates/folio-node/src/storage/node.rs:350-383 | The same for one schedule: the answer is the highest id held if no WAL location of the ledger is taken away between the second lookup and the third |
| FenceAnswers.FirstLifeFenceExact | crates/folio-node/src/storage/node.rs:350-383 | On a node that never restarted the answer for such a ledger is the highest id held, under every schedule |
| FenceAnswers.FenceInvReached | crates/folio-node/src/storage/node.rs:96-138 | Every state of a first life and every state after a crash and restart meets the hypotheses of the three |
| FenceAnswers.FenceRun | crates/folio-node/src/storage/node.rs:258-346 | In every run the highest id noted for a ledger is one of an entry held, and nothing held is lost |
| FenceAnswers.FenceIsFinal | crates/folio-node/src/storage/node.rs:258-383 | Once a fence is set and the appends then in flight are done, no run makes an entry of the ledger appear, disappear or be acknowledged anew |
| FenceAnswers.FenceSurvivesRestart | crates/folio-node/src/storage/node.rs:96-138 | Nor does a crash, a restart and any run after it |
| Failures.FenceAnswerTooLow | crates/folio-node/src/storage/node.rs:350-383 | A run, crash, restart and flush after which the fence answer is below an acknowledged id |
| Failures.LongEntryFails | crates/folio-node/src/storage/tiered_reader.rs:84-108 | A run from an empty directory in which the read of an acknowledged entry of more than two blocks fails |
| Journal.SucceedKeeps | crates/folio-node/src/storage/lsmc_journal.rs:315-337 | Acknowledging a written and synced batch keeps the journal valid: one answer per request, each Ok decodes in synced bytes, acknowledged ranges are disjoint |
| Journal.FailKeeps | crates/folio-node/src/storage/lsmc_journal.rs:305-354 | So does refusing a batch, whatever the failed write left behind the offset |
| Journal.TurnKeeps | crates/folio-node/src/storage/lsmc_journal.rs:245-363 | A turn of the loop keeps the journal valid and every earlier answer, and adds an Ok only if the whole padded batch was written and synced |
| Journal.GatherIs | crates/folio-node/src/storage/lsmc_journal.rs:265-288 | Filling a batch takes messages in order until the channel is empty or the buffer has reached MAX_BATCH_BYTES, and no further; the writes among them are the batch, the seals are refused |
| Journal.TurnAnswers | crates/folio-node/src/storage/lsmc_journal.rs:245-363 | Each request of the batch is answered Ok if and only if the whole padded batch was written and synced, with the active segment, its own length and an offset that decodes to its record; else with an error |
| Journal.SealTurnAnswers | crates/folio-node/src/storage/lsmc_journal.rs:252-263 | A seal request is answered with the sealed segment exactly if the sealing succeeded, and only then a new file becomes active |
| Journal.AcksHoldForever | crates/folio-node/src/storage/lsmc_journal.rs:245-411 | Over every run of submissions and turns, with any failures and seals: each request is answered at most once and for good, and each Ok ever given still decodes to its record in synced bytes |
| Journal.LsmcJournal.Submit | crates/folio-node/src/storage/lsmc_journal.rs:96-126 | A request enters the channel |
| Journal.LsmcJournal.Collect | crates/folio-node/src/storage/lsmc_journal.rs:265-288 | The loop that fills a batch computes the specified batch, offsets and bytes, and refuses seals on the way |
| Journal.LsmcJournal.Acknowledge | crates/folio-node/src/storage/lsmc_journal.rs:324-337 | Answers each request with its segment, offset and length after the sync, as TurnAnswers and SucceedKeeps state them |
| Journal.LsmcJournal.Refuse | crates/folio-node/src/storage/lsmc_journal.rs:306-354 | Answers each request with an error and leaves the offset |
| Journal.LsmcJournal.WriteAndSync | crates/folio-node/src/storage/lsmc_journal.rs:295-354 | Acknowledges the batch exactly if all of it was written and synced; what each request is then told is in TurnAnswers |
| Journal.LsmcJournal.WriteBatch | crates/folio-node/src/storage/lsmc_journal.rs:265-363 | One turn on a write request, seal at the threshold included, is the turn that GatherIs, TurnAnswers and TurnKeeps describe |
| Journal.LsmcJournal.SealActive | crates/folio-node/src/storage/lsmc_journal.rs:252-263 | One turn on a seal request is the specified turn |
| Journal.LsmcJournal.Rotate | crates/folio-node/src/storage/lsmc_journal.rs:378-411 | The sealed file keeps its id and bytes and a new file becomes active |
| JournalRefinement.TurnIsSteps | crates/folio-node/src/storage/lsmc_journal.rs:245-363 | Each turn of the journal thread is a JournalWrite or JournalFail of the node with the batch's requests, a JournalSeal, or both, and leaves files, offset and waiting requests in step |
| JournalRefinement.AnswerIsStage | crates/folio-node/src/storage/lsmc_journal.rs:295-354 | A request of the batch is journaled in the node if and only if it was answered Ok, and dropped from it if and only if it was answered with an error |
| JournalRefinement.SubmitMatches | crates/folio-node/src/storage/lsmc_journal.rs:96-115 | A submitted request enters both |
| JournalRefinement.OthersMatch | crates/folio-node/src/storage/node.rs:258-346 | The node's other steps leave the journal alone |
| JournalRefinement.StartMatches | crates/folio-node/src/storage/lsmc_journal.rs:227-243 | A journal and a node on an empty directory start in step |
| Blocks.TwoBlocks | crates/folio-node/src/storage/tiered_reader.rs:84-108 | Two neighbouring blocks put together are the file's bytes over both |
| Blocks.AssemblyRefinesDirectRead | crates/folio-node/src/storage/tiered_reader.rs:84-108 | A record decodes from its assembled blocks as it does from the file if its in-block offset plus length is at most two blocks, and reads as torn otherwise |
| Blocks.ShortWindowTears | crates/folio-node/src/storage/segment.rs:165-217 | A window that cuts a record short reads as torn |
| Blocks.FitsBySize | crates/folio-node/src/storage/tiered_reader.rs:90-104 | A record of up to one block and a byte always fits, one of more than two blocks never, others by their offset |
| TieredReads.TieredReadIsDirectRead | crates/folio-node/src/storage/tiered_reader.rs:62-156 | An entry whose segment is local or in S3 reads back as its payload from that tier, blocks permitting |
| TieredReads.WalReadIsDirectRead | crates/folio-node/src/storage/tiered_reader.rs:129-156 | An entry that only the WAL index has reads back as its payload from the WAL file, blocks permitting; without the file it is an error, not an absent entry |
| TieredReads.TieredReader.NotFoundIff | crates/folio-node/src/storage/tiered_reader.rs:62-156 | In whatever state the files and registries are, a read reports an absent entry if and only if neither index has it |
| TieredReads.TieredReader.GetEntryBlock | crates/folio-node/src/storage/tiered_reader.rs:160-177 | A block of the segment's bytes exactly if it is cached or the file is there, and the cache keeps holding only such blocks |
| TieredReads.TieredReader.ReadEntryBlocks | crates/folio-node/src/storage/tiered_reader.rs:84-108 | One- or two-block assembly gives what decoding the segment's bytes from those blocks would, and an error if a block is not to be had |
| TieredReads.TieredReader.Lookup | crates/folio-node/src/storage/tiered_reader.rs:62-84 | Indexes and registry send the read to a local file, to S3, to the WAL, or nowhere |
| TieredReads.TieredReader.Fetch | crates/folio-node/src/storage/tiered_reader.rs:84-156 | In whatever state the segment has come to since, the route gives the specified outcome |
| TieredReads.TieredReader.ReadEntry | crates/folio-node/src/storage/tiered_reader.rs:62-156 | Lookup and fetch at once: the outcome is that of the cache-free read over the same indexes, registries and files, if the file the registry names is there; not found if and only if neither index has the key |
| TieredReads.SplitReadIff | crates/folio-node/src/storage/tiered_reader.rs:62-108 | A read of a sealed segment whose lookup and block fetches are apart gives the payload if and only if the record fits two blocks and each block it needs was cached or its file there when it was fetched |
| TieredReads.SwitchUnderARead | crates/folio-node/src/storage/tiered_reader.rs:62-108 | A read that fails because its segment went to S3 between lookup and open, and the next read that succeeds |
| TieredReads.TieredReader.DropBlocks | crates/folio-node/src/storage/block_cache.rs:50-59 | Dropping blocks keeps the cache sound |
| TieredReads.TieredReader.AppendActive | crates/folio-node/src/storage/tiered_reader.rs:77-88 | Growth of an active segment leaves every cached block correct |
| TieredReads.TieredReader.OpenSegment | crates/folio-node/src/storage/entry_cache.rs:285-301 | A new active segment leaves the cache sound |
| TieredReads.TieredReader.Seal | crates/folio-node/src/storage/entry_cache.rs:303-317 | Sealing fixes the bytes that blocks may be cached from |
| TieredReads.TieredReader.PutObject | crates/folio-node/src/storage/offloader.rs:170-177 | An uploaded object has the sealed bytes |
| TieredReads.TieredReader.SwitchToS3 | crates/folio-node/src/storage/offloader.rs:192-203 | After the switch and the removal of the file every record reads as it was, from S3 |
| Metadata.AtomicBumpsVersion | crates/folio-core/src/metadata.rs:101-139 | An accepted operation writes one record, one version up; a refused one writes nothing |
| Metadata.AtomicCompares | crates/folio-core/src/metadata.rs:101-139 | A put succeeds if and only if the stored version is the one it carries, a transition if and only if the stored state is the expected one; what each then stores, and each refusal |
| Metadata.InMemoryMetadataStore.CreateLedger | crates/folio-core/src/metadata.rs:62-90 | Succeeds exactly for valid options, with the next id: an open, empty record at version 1 with one fragment from entry 0 on the given ensemble, whose quorums are those asked for if and only if they fit a byte |
| Client.CreateLedger | crates/folio-ledger/src/client.rs:46-59 | A handle on a new record; for a write quorum that fits a byte and an ensemble of distinct nodes, not smaller than it, over nodes that hold nothing, the first state of the theorems on whole runs |
| Client.NewLedgerStartsLog | crates/folio-ledger/src/client.rs:46-59 | That first state is met with the quorums asked for if and only if the write quorum fits a byte, and the ensemble is of distinct nodes and no smaller than it |
| Client.WideQuorumsAckNothing | crates/folio-core/src/metadata.rs:62-90 | Quorums of 256 pass validation and are stored as 0: the first append is acknowledged although no node holds anything |
| Metadata.InMemoryMetadataStore.PutLedger | crates/folio-core/src/metadata.rs:101-116 | Is the atomic put |
| Metadata.InMemoryMetadataStore.TransitionState | crates/folio-core/src/metadata.rs:118-139 | Is the atomic transition |
| Metadata.InMemoryMetadataStore.DeleteLedger | crates/folio-core/src/metadata.rs:145-148 | Removes that record only |
| Metadata.EtcdRefinesAtomic | crates/folio-core/src/metadata.rs:291-355 | Each answer of the read-then-compare store is what the atomic store would answer at that moment, except for conflicts reported after a change underneath |
| Metadata.RunGrows | crates/folio-core/src/metadata.rs:291-355 | Over every run versions only grow, an unchanged version is an unchanged record, and a deleted ledger never comes back |
| Metadata.NoLostUpdate | crates/folio-core/src/metadata.rs:291-355 | A commit succeeds only if no state since its read held another record of that ledger |
| Metadata.StaleHolderLockedOut | crates/folio-core/src/metadata.rs:291-318 | Once a record is past the version a client holds, no put of that version succeeds in any later state of any run |
| Metadata.RunRefinesAtomic | crates/folio-core/src/metadata.rs:291-355 | Every run of interleaved reads and commits leaves the store as its accepted operations, done atomically in commit order, each of which the atomic store accepts |
| Metadata.IdsUnique | crates/folio-core/src/metadata.rs:201-237 | Over every run of the id counter the issued ids count up by one: none twice, none left out |
| Ledger.LacTracker.Advance | crates/folio-ledger/src/lac_tracker.rs:19-23 | The LAC becomes the maximum of itself, the reported values and the id: at least each of them, and one of them |
| Ledger.Send | crates/folio-ledger/src/ledger.rs:68-96 | Delivers the entry to each node of the write set and collects the replies |
| Ledger.CountOutcomes | crates/folio-ledger/src/ledger.rs:98-111 | Sorts the replies into acknowledgements, failures and a fenced flag |
| Ledger.SequentialRead | crates/folio-ledger/src/speculative.rs:14-43 | The first node in order that answers wins; without one the last node's error is returned |
| Ledger.LedgerHandle.Change | crates/folio-ledger/src/fragment.rs:9-61 | Is the specified fragment change: pushed locally first, then put with a version check, where the put may be lost, or take effect without an answer; the pushed fragment starts at the next entry and keeps both quorums |
| FragmentChanges.ChangeFragmentIs | crates/folio-ledger/src/fragment.rs:9-61 | On every input: a fragment is pushed if and only if survivors and spare nodes make a write quorum; it keeps both quorums, and its ensemble is the survivors in their old order, then one listed node from outside the old ensemble for each failed one, as far as they go; when the change is reported done, and what the store then has |
| FragmentChanges.ReplacesMembers | crates/folio-ledger/src/fragment.rs:9-61 | So every old member that did not fail stays, every new one is listed, no failed one is back and the ensemble does not grow |
| FragmentChanges.AttemptReplaces | crates/folio-ledger/src/ledger.rs:118-168 | The nodes an attempt replaces are exactly those of the write set whose answer did not come back, from the first entry not acknowledged on; when it is tried again; after a fenced answer nothing changes |
| Appends.AttemptAnswers | crates/folio-ledger/src/ledger.rs:60-168 | On every environment: an attempt succeeds, under the next id, if and only if at least ack-quorum of the write-quorum first nodes of the ensemble answer and none of these is fenced; the error otherwise; no other node is written to |
| Appends.RequestIs | crates/folio-node/src/storage/node.rs:161-299 | What one request leaves on its node and what it is answered, for each way it can be delivered |
| Appends.SendAllReplies | crates/folio-ledger/src/ledger.rs:83-97 | Each node of the write set answers for itself, and no other node is touched |
| Appends.CountIs | crates/folio-ledger/src/ledger.rs:98-111 | The count is fenced exactly if a reply is; otherwise acks are the acknowledging nodes, and failures the nodes without an answer |
| Ledger.LedgerHandle.DoAppend | crates/folio-ledger/src/ledger.rs:51-176 | The two-attempt loop computes the specified outcome: handle, store, nodes and result |
| Ledger.LedgerHandle.Read | crates/folio-ledger/src/ledger.rs:180-211 | Refuses ids past the last or the LAC, picks the owning fragment by reverse search, and answers from the nodes of its ensemble that resolve |
| QuorumLog.AppendIsSteps | crates/folio-ledger/src/ledger.rs:51-176 | An append is its first attempt and, if that asks for it, its second, between which late requests may arrive |
| QuorumLog.OwnerPush | crates/folio-ledger/src/fragment.rs:53-59 | A pushed fragment owns exactly the ids from its start on; the others keep their owner |
| QuorumLog.FragmentsStay | crates/folio-ledger/src/fragment.rs:9-61 | In every run fragments once pushed stay as they are |
| QuorumLog.LogStep | crates/folio-ledger/src/ledger.rs:51-176 | Every attempt, successful or failed, and every late delivery, also between two attempts, keeps the log invariant as long as a failed id is retried with the same bytes |
| QuorumLog.LacStep | crates/folio-ledger/src/lac_tracker.rs:19-23 | Every step, failed appends included, keeps the writer's LAC at the last acknowledged id and every node's at or below it |
| QuorumLog.LacSound | crates/folio-ledger/src/ledger.rs:68-125 | In every state of every run, failed appends with any bytes included, the LAC is the last acknowledged id and no node is past it |
| Appends.NodeLacWindow | crates/folio-node/src/storage/node.rs:279-299 | In every state of every run a node's LAC lies between the id before its highest entry and the last id acknowledged to the writer |
| Appends.ReopenKeepsLog | crates/folio-ledger/src/ledger.rs:23-40 | A handle opened on a record with the fragments, last entry and LAC of the log goes on under the next id, with both invariants |
| QuorumLog.RunKeeps | crates/folio-ledger/src/ledger.rs:68-125 | Both invariants hold in every state of every run that retries a failed id with the same bytes |
| QuorumLog.QuorumLogCorrect | crates/folio-ledger/src/ledger.rs:51-211 | In every state of every such run each acknowledged id is held with its bytes by at least as many distinct nodes as the ack quorum the ledger was created with, in the write set of the fragment that `read` picks for it, whatever fragment changes there were |
| QuorumLog.ReadsCorrect | crates/folio-ledger/src/ledger.rs:180-211 | Ids not acknowledged are not found, every answer is the acknowledged bytes, and a read succeeds while fewer nodes of the write set are unreachable than the ack quorum the ledger was created with |
| QuorumLog.FailedAppendReusesItsId | crates/folio-ledger/src/ledger.rs:118-168 | With other bytes it fails: an acknowledged append whose id reads back as the bytes of the failed append before it |
| Sealing.FenceEnsemble | crates/folio-node/src/recovery/mod.rs:50-54 | Fences the ensemble node by node, collects what each answers, changes nothing else, and fails exactly if a node cannot be reached |
| Sealing.FenceAndSeal | crates/folio-node/src/recovery/mod.rs:35-61 | Succeeds exactly if the last fragment's nodes are all reached and no other client has changed the record by the time of the put; then those nodes are fenced, and the record is the one read, Closed, one or two versions up, with the highest answer as LAC; every append on a handle opened on it is refused as a state conflict and changes nothing |
| Sealing.NotOpenRefuses | crates/folio-ledger/src/ledger.rs:51-58 | An append on a handle that is not open is refused with the state found, in every environment, and leaves handle, store and nodes as they were |
| Sealing.SealedReadsIff | crates/folio-node/src/recovery/mod.rs:56-60 | A handle opened on the sealed record can read exactly the ids below the LAC that a reachable node of their fragment holds; the entry at the LAC is not found |
| Sealing.SealAfterRun | crates/folio-node/src/recovery/mod.rs:56-60 | After any steady run: an acknowledged entry can be read from the sealed ledger if and only if it is below the sealed LAC and a reachable node of its fragment holds it; no read gives other bytes; all acknowledged entries survive if and only if the LAC is at least their number |
| Sealing.SealedLacBound | crates/folio-node/src/recovery/mod.rs:50-60 | With exact answers the LAC is at most the number of acknowledged entries, and equal to it only if a node of the last fragment holds an entry never acknowledged |
| Sealing.SealHidesEverything | crates/folio-node/src/recovery/mod.rs:35-61 | A run of three appends after which neither acknowledged entry can be read from the sealed ledger |
| Fencing.StaleWriterLockedOut | crates/folio-ledger/src/ledger.rs:60-169 | With the version moved on and more than write-quorum minus ack-quorum nodes of the write set fenced, the handle's next append fails, whichever replies are lost and whatever spare nodes are offered |
| Fencing.LockedOutIff | crates/folio-ledger/src/ledger.rs:60-169 | No environment lets a stale handle's next append succeed if and only if more than write-quorum minus ack-quorum nodes of its last fragment's write set are fenced |
| Fencing.RefusedStaysStale | crates/folio-ledger/src/ledger.rs:148-168 | A refused append of a stale handle leaves the store, the fences and all of the handle but at most one more fragment as they were |
| Fencing.LostAnswerMakesStale | crates/folio-ledger/src/fragment.rs:53-59 | A put that takes effect while its answer is lost leaves the handle behind the store by its own write |
| Fencing.SecondAppendIff | crates/folio-ledger/src/fragment.rs:53-59 | The append after a refused one is locked out if and only if enough of the write set of the fragment then last is fenced |
| Fencing.SealedLedgerLocksOut | crates/folio-node/src/recovery/mod.rs:35-61 | The lockout after sealing, for a handle with the sealed record's fragments |
| Fencing.FencedAnswerKeepsHandle | crates/folio-ledger/src/ledger.rs:98-116 | A fenced reply leaves handle and store as they were |
| Fencing.SecondAppendEscapes | crates/folio-ledger/src/fragment.rs:53-59 | A stale handle whose first append fails and whose second is acknowledged on a fragment only it knows |
| Rereplication.FindFragment | crates/folio-node/src/recovery/mod.rs:69-76 | The last fragment that starts at or before the entry, which is its owner |
| Rereplication.FindTarget | crates/folio-node/src/recovery/mod.rs:84-90 | The first listed node outside the ensemble other than the failed one, if there is one |
| Rereplication.CopyEndIsNextStart | crates/folio-node/src/recovery/mod.rs:95-101 | With increasing starts the copied range ends at the next fragment's start, or at the LAC for the last |
| Rereplication.CopyRange | crates/folio-node/src/recovery/mod.rs:103-111 | Succeeds exactly if the source can be read for the whole range and the target takes it; then the target holds every id of the range, new ones with the source's bytes, and no other node changes |
| Rereplication.FindStart | crates/folio-node/src/recovery/mod.rs:115-119 | The first fragment with the given start |
| Rereplication.RestoreReplication | crates/folio-node/src/recovery/mod.rs:63-125 | Exactly when it succeeds; and then, if the owner is the first fragment with its start, its ensemble keeps its size without duplicates and without the failed node, no entry of the copied range has fewer holders, and the entry at the end of the range has fewer exactly if the failed node held it and the target did not; otherwise the owner is unchanged |
| Rereplication.HoldersKept | crates/folio-node/src/recovery/mod.rs:103-123 | The target makes up for the failed node |
| Rereplication.LosesAHolderIff | crates/folio-node/src/recovery/mod.rs:96-111 | An entry that is not copied has fewer holders if and only if the failed node held it and the target did not |
| Rereplication.LastEntryLosesAHolder | crates/folio-node/src/recovery/mod.rs:63-125 | A call after which the entry at the LAC has one holder instead of two |
| Rereplication.EqualStartsKeepTheFailedNode | crates/folio-node/src/recovery/mod.rs:114-123 | A ledger with two fragments of the same start whose owning fragment still names the failed node after an Ok |
| Offload.StepKeeps | crates/folio-node/src/storage/offloader.rs:152-205 | Every step of upload, verification, switch, deletion, rollback, crash, start-up and flush keeps each registered segment readable with its sealed bytes |
| Offload.IdsAreFresh | crates/folio-node/src/storage/entry_segment.rs:47-54 | A new segment's id was never given out before |
| Offload.IndexedSegmentsAvailable | crates/folio-node/src/storage/offloader.rs:137-205 | In every state of every run in which uploads are taken up only when settled, each segment `entry_index` points into is readable from a local file or from S3 |
| Offload.FailedUploadsAreRetried | crates/folio-node/src/storage/offloader.rs:152-205 | In every such run, whatever uploads and verifications fail and wherever the process crashes: once start-up is done and the offloader rests, every segment is active, in S3, or local and ready to be taken up |
| Offload.NeverLoses | crates/folio-node/src/storage/offloader.rs:152-205 | From a good state no continuation without a new upload makes a registered segment unreadable |
| Offload.PickSafeIff | crates/folio-node/src/storage/entry_cache.rs:183-217 | Taking up a segment can end in its loss if and only if a start-up reset may still hit it |
| Offload.EarlyPickIsReached | crates/folio-node/src/storage/entry_cache.rs:183-217 | A run from an empty node to a pick that can end in the loss of an indexed segment |

## Left out

- One crash and one recovery: the crash theorem starts from an empty directory, because the active WAL file is registered under a new id at every start.
- WAL garbage collection: it consults `wal_index`, which appends do not write.
- Failures of truncate, read or index calls inside recovery, its statistics and its list of candidates.
- Journal.LsmcJournal.Submit: request ids are distinct and records are Writable; ids stand for the reply channels.
- Sealing.FenceAndSeal: a node's answer is an input; what `fence_ledger` computes from its indexes is in NodeFence and FenceAnswers, and SealedLacBound is about exact answers.
- Ledger.SequentialRead: the hedged mode is any node's answer, or any node's error if none answers, without its timing.
- Journal.LsmcJournal.constructor: starts on an empty active file; what resuming an existing file does to it is in Resume.
- Registry lookups and offloading inside the node's state machine; they are in TieredReads and Offload.
- Wrap-around of 64-bit ids, offsets and versions, and lengths of 4 GiB and more beyond what Push states.
- The `appended_at_ms` stamp inside a payload; a payload is opaque bytes.
- CRC32, HMAC, digests, bincode, master keys and health checks.
- S3 multipart upload and its retries, disk pressure and the age policy: an upload is one step that may fail.
- io_uring, O_DIRECT and real files: writes and syncs are steps that may fail.
- etcd leases, elections and watches; node registration.
- gRPC, TLS, channel pools, resolvers, the CLI, metrics, the scrubber and the client's ledger cache.
- The in-process backend, `LedgerIndex` and `FileJournal`, which store and return values.
