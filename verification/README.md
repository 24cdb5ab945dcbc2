# KINGMAST edge protocols in Dafny

This project models the parts of KINGMAST that keep state between calls or print bytes that
others must read back: the Raspberry Pi's history store and gateway, its A/B boot guard and
recovery executor, and the risk engine's audit journal, replay and rate guards, signing bytes,
viewer sessions, event buffer, alert hysteresis, sensor fusion and driver monitoring.

Objects that change in place are classes with the same fields; their methods are proved equal
to functions on values, and the promises are lemmas about those functions over whole runs.
Printers and parsers are functions. Time is always an argument, and a lemma says so where it
needs the clock not to go back. Where something outside the model matters it is a parameter:
SHA-256, HMAC, JSON rendering and parsing of the journal, which byte strings are JSON objects,
the disk's other contents, whether a write succeeds, and after how many writes power is lost.

| file | content |
|---|---|
| `LineRepair.dfy`, `StoragePlan.dfy`, `RingStore.dfy`, `RingStoreClass.dfy`, `RingStoreSafety.dfy`, `RingStoreClock.dfy`, `RingStoreSizes.dfy`, `RingStoreCounts.dfy` | JSONL ring store: torn-tail repair, capacity loop, append, power loss, sizes and counters |
| `AuditVerifier.dfy`, `AuditJournal.dfy`, `AuditJournalClass.dfy`, `AuditJournalSafety.dfy`, `AuditCodec.dfy`, `AuditBounds.dfy`, `AuditReasons.dfy` | hash-chained audit journal: verifier and its reasons, rotating writer, restarts, bounds |
| `RateLimiter.dfy`, `TimestampStore.dfy`, `EdgeGuard.dfy`, `RateDecisions.dfy`, `TimestampDecisions.dfy`, `EdgeDecisions.dfy` | bounded tables that prune (rate windows, timestamps, device sessions), and their answers told from the history |
| `BootGuard.dfy`, `BootGuardClass.dfy`, `BootSafety.dfy`, `BootInterleaving.dfy`, `BootReceipts.dfy`, `BootEffects.dfy`, `BootOutcomes.dfy`, `BootText.dfy` | A/B boot states, autoboot file, recovery executor, crashes and interleavings |
| `CanonicalJson.dfy`, `CanonicalJsonProofs.dfy`, `DevicePayloads.dfy`, `Utf8.dfy`, `DeviceBytes.dfy`, `GatewayJson.dfy` | canonical JSON, the device payloads that are signed as texts and as bytes, and the text the gateway rebuilds |
| `JsonReader.dfy`, `Utf8Reader.dfy`, `PayloadReader.dfy` | readers written from RFC 8259, RFC 3629 and the line layout, sharing nothing with the printers |
| `ViewerSession.dfy` | viewer session tokens |
| `HistoryGateway.dfy`, `GatewayAdmission.dfy`, `EventBuffer.dfy`, `EventRecords.dfy`, `AlertStabilizer.dfy`, `AlertLaws.dfy` | de-duplicating gateway, event buffer, alert hysteresis |
| `EdgeFusion.dfy`, `EdgeFusionLaws.dfy`, `FusionCounts.dfy`, `DriverMonitoring.dfy`, `DriverStates.dfy` | radar-camera association, run lengths and the driver assessment |
| `Collections.dfy`, `Sorting.dfy`, `Texts.dfy`, `Decimals.dfy`, `Fractions.dfy` | shared vocabulary: options, suffixes, stable sort, split and join, decimal notation |

## What the proofs bring out

- The capacity loop deletes every segment before it reports `storage-capacity-reserved`: exactly the
  records that would not fit an empty store cost the whole history
  (`RingStoreSafety.CapacityReservedIff`).
- Segments are ordered by the clock in their names. After the clock steps back, a fresh segment is
  filed before older ones; what an append leaves is a suffix of what was written exactly when it went
  to the open segment, or nothing different is filed after the fresh one
  (`RingStoreClock.AppendInOrderIff`; a run that fails it is `RingStoreClock.ClockStepsBackExample`).
- The fixed-window limiter lets at most `2 * limit - 1` calls of a key through in any interval of
  one window length, and some runs reach that (`RateLimits.RateBound`, `RateLimits.BoundIsReached`).
- Pruning of the timestamp store re-admits a replay exactly when the time-to-live does not exceed
  the accepted skew; in a store of one key, where the newcomer must itself go stale first, only when
  twice it does not (`TimestampStores.SafeIff`). For device sessions the bound is 35 s
  (`EdgeGuards.SafeIff`), and sequence numbers of one boot must increase over a gap exactly when the
  session outlives it (`EdgeGuards.SequencesIncreaseIff`).
- A rotation whose write fails leaves an empty current file; a restart then starts a new chain, and
  the retained files no longer verify as one (`AuditJournalSafety.RotateFailRestartBreaksChain`). A
  rotation that stops before its last rename does no such harm
  (`AuditJournalSafety.FailedAppendCleanIff`), and each attempt loses at most the oldest file
  (`AuditJournalSafety.RotationLosesOldest`).
- The executor's cooldown is off while the last receipt is stamped zero: two requests a millisecond
  apart on a clock that starts at the epoch are both executed (`BootSafety.EpochSkipsCooldown`), and
  for no other stamp (`BootSafety.CooldownKeptIff`).
- Nothing in the executor keeps two of it from running at once, and two that pass their tests before
  either writes both receipt one generation (`BootReceipts.TwoExecutorsReceiptTwice`); one at a time,
  generations increase whatever else interleaves (`BootReceipts.InterleavedReceiptsChained`).
- A gateway identity belongs to one legal packet unless a second colon divides its two ids into legal
  ones as well; then another packet shares it and, sent second, is answered as a duplicate and never
  stored (`HistoryGateway.SharedIdentityIff`, `HistoryGateway.AmbiguousHidesAnother`).
- The ingress payload separates device and key id only because key ids hold no newline, and it is
  the pattern for key ids that excludes one (`DeviceBytes.KeyIdConfusedIff`). As bytes, a device id
  shares every payload with another exactly when it holds an unpaired surrogate or U+FFFD
  (`DeviceBytes.DeviceIdSharedIff`).
- The sender sorts keys by UTF-16 code unit, the gateway by code point, and Python puts exponents where
  JavaScript does not. The gateway rebuilds the signed text exactly when no string has an unpaired
  surrogate, no object has two keys that first differ in a surrogate on one side and a code unit from
  U+E000 on the other, and no number has a size from 1e-9 up to, but not, 1e-4
  (`GatewayJson.MessagesAgreeIff`); otherwise it checks a correct signature against another text, as
  for a longitude of 0.00005 (`GatewayJson.SmallNumberExample`).
- The bearing residual that gates a match is the angle between two bearings, across north too, exactly
  while the track's is no more than 540 degrees below the detection's, or whole turns from that: beyond,
  JavaScript's remainder is negative and the residual exceeds half a circle
  (`EdgeFusionLaws.AngleDeltaIff`). Bearings from 0 to 360 are never concerned.
- A journal whose current file is damaged before a restart stores nothing more until the file is dealt
  with by hand: every append counts two errors and changes nothing (`AuditBounds.BrokenStoresNothing`).

## Model

| member | source | states |
|---|---|---|
| LineRepair.FindValidEnd | edge/pi-storage/storage_runtime.py:135-152 | The repair loop finds the end of exactly the complete object lines at the front of a file, for arbitrary bytes |
| LineRepair.FirstLineCut | edge/pi-storage/storage_runtime.py:137 | The first raw line ends after the first LF, CR LF or lone CR, as `splitlines(keepends=True)` cuts it, else with the file |
| LineRepair.CompleteIff | edge/pi-storage/storage_runtime.py:138-150 | A line is kept if and only if a line feed ends it and what is between the white space before that is an object |
| LineRepair.RepairKeepsLongest | edge/pi-storage/storage_runtime.py:135-158 | Every reading of a prefix of the file as complete object lines is a prefix of what repair keeps |
| LineRepair.RepairIdempotent | edge/pi-storage/storage_runtime.py:152-158 | A repaired file consists of complete lines only and a second repair changes nothing |
| LineRepair.RepairAfterTornWrite | edge/pi-storage/storage_runtime.py:123-160 | After any number of bytes of a line reached a clean file, repair leaves the earlier lines, and the new one only if its newline was written |
| StoragePlans.RoomMeansNotCritical | edge/pi-storage/storage_runtime.py:33-65 | In exact arithmetic, room above the rounded reserve rules out mode `critical` |
| StoragePlans.QuotaAndReserveFit | edge/pi-storage/storage_runtime.py:45-51 | Quota and reserve never overlap: together they take at most nine tenths of the disk |
| RingStoreSizes.ModeIff | edge/pi-storage/storage_runtime.py:50-56 | The mode without dividing: critical while the free share is at most the reserve, normal from more than five percent of the disk above it |
| RingStores.AdaptiveJsonlRingStore.constructor | edge/pi-storage/storage_runtime.py:71-101 | A new instance knows nothing but the directory and has not checked recovery |
| RingStores.AdaptiveJsonlRingStore.Open | edge/pi-storage/storage_runtime.py:81-89 | Exactly the configurations out of range are refused, in the order they are checked |
| RingStores.AdaptiveJsonlRingStore.RepairInterruptedSegments | edge/pi-storage/storage_runtime.py:123-160 | Once per instance truncates every segment to its complete lines, one file after the other, with the counters |
| RingStores.AdaptiveJsonlRingStore.RepairOneSegment | edge/pi-storage/storage_runtime.py:127-159 | One file of the repair pass: what is left to do afterwards is the repair from the next file on |
| RingStores.AdaptiveJsonlRingStore.EnsureRoom | edge/pi-storage/storage_runtime.py:169-190 | The pruning loop ends and leaves the state, the directory contents on the way and the result of the capacity function |
| RingStores.AdaptiveJsonlRingStore.RemoveSegment | edge/pi-storage/storage_runtime.py:183-190 | Unlinks the victim, forgets it if it was being written, counts it |
| RingStores.AdaptiveJsonlRingStore.StartSegment | edge/pi-storage/storage_runtime.py:162-167 | Takes the next counter modulo one million and creates the segment, or fails without one if the name exists |
| RingStores.AdaptiveJsonlRingStore.WriteRecord | edge/pi-storage/storage_runtime.py:200-207 | Opens a segment when there is none or the record does not fit, then writes, passing through every prefix of the line |
| RingStores.AdaptiveJsonlRingStore.StoreLine | edge/pi-storage/storage_runtime.py:198-211 | Capacity, segment and write in that order; any failure counts one write error |
| RingStores.AdaptiveJsonlRingStore.Append | edge/pi-storage/storage_runtime.py:192-211 | Repairs first, refuses an oversized record uncounted, then stores the line |
| RingStoreSafety.VictimIsOldest | edge/pi-storage/storage_runtime.py:177-183 | With ordered names the segment removed is always the oldest, the one being written only when it is alone |
| RingStoreSafety.PrunesFewestOldest | edge/pi-storage/storage_runtime.py:169-190 | The loop drops the fewest oldest segments that make room; it gives up only with the store empty, or at once when the disk figures are refused |
| RingStoreSafety.CapacityReservedIff | edge/pi-storage/storage_runtime.py:169-182 | The whole store is given up if and only if the disk figures are legal and not even the empty store has room |
| RingStoreSafety.PruningSafe | edge/pi-storage/storage_runtime.py:169-190 | Every directory content pruning passes through can be recovered to a suffix of the log |
| RingStoreSafety.RoomAfterWrite | edge/pi-storage/storage_runtime.py:171-176 | Room checked before a write is quota and reserve kept after it |
| RingStoreSafety.RepairFromSafe | edge/pi-storage/storage_runtime.py:123-160 | Repair interrupted after any file leaves the complete lines alone; finished, every file is clean |
| RingStoreSafety.TornWriteSafe | edge/pi-storage/storage_runtime.py:202-205 | Power loss after any byte of the line: the next instance recovers the acknowledged lines and the whole line only if it is all there |
| RingStoreSafety.AppendSafe | edge/pi-storage/storage_runtime.py:192-211 | One append keeps the run invariant in its result and in every content on its way, the clock mattering only where a segment is opened; success leaves the record newest, within quota and above the reserve |
| RingStoreSafety.RunSafe | edge/pi-storage/storage_runtime.py:123-211 | Every run of appends, power losses, restarts and status requests keeps the invariant |
| RingStoreSafety.RetainedIsSuffix | edge/pi-storage/storage_runtime.py:123-211 | Over every run from any directory, what is retained is a suffix of the lines found at the start and all written since, byte for byte |
| RingStoreSafety.AcknowledgedIsNewest | edge/pi-storage/storage_runtime.py:198-208 | After any run an acknowledged record is the newest retained, within quota and reserve, and not in mode `critical` |
| RingStoreClock.AppendInOrderIff | edge/pi-storage/storage_runtime.py:102-211 | For every append that succeeds, pruning or not: what is retained stays a suffix of everything written if and only if the record goes to the open segment, or no segment left that sorts after the fresh one holds a different record |
| RingStoreClock.FreshSegmentInOrderIff | edge/pi-storage/storage_runtime.py:102-103 | The step of that which opens a segment with room at hand |
| RingStoreClock.NewestNameSuffices | edge/pi-storage/storage_runtime.py:162-167 | A clock that gives the newest name meets what an append asks of it |
| RingStoreClock.ClockStepsBack | edge/pi-storage/storage_runtime.py:102-211 | Any two records, the second appended after a restart on an earlier clock, are retained in the reverse order |
| RingStoreClock.ClockStepsBackExample | edge/pi-storage/storage_runtime.py:102-211 | One such run with legal settings, whose retained lines are not a suffix of the written ones |
| RingStoreSizes.SegmentsBounded | edge/pi-storage/storage_runtime.py:162-211 | Over every run, whatever the clock does and wherever power is lost, every segment was there at the start, whole or cut, or holds at most `segment_bytes` bytes or one line |
| RingStoreSizes.AppendPlaces | edge/pi-storage/storage_runtime.py:171-207 | A successful append puts its line behind the open segment if that is kept and both together fit `segment_bytes`, else into a segment of its own; no other kept segment changes |
| RingStoreSizes.AcknowledgedPlaces | edge/pi-storage/storage_runtime.py:171-207 | The same after every run whose fresh segments get the newest name |
| RingStoreSizes.PrunesUntilFits | edge/pi-storage/storage_runtime.py:169-190 | In bytes on disk: the fewest oldest segments are dropped after which the record fits quota and reserve; with none left the append fails if it still does not |
| RingStoreCounts.RepairCounts | edge/pi-storage/storage_runtime.py:123-160 | Bytes found are bytes left plus bytes counted as discarded; as many segments are counted as are now shorter |
| RingStoreCounts.AppendCounts | edge/pi-storage/storage_runtime.py:192-211 | An append counts once, as written or as an error, and not at all if too large; segments before and opened are those left and those counted as pruned |
| AuditVerifier.VerifyAuditJournalText | services/risk-engine/src/audit-journal.ts:29-58 | The verifier loop gives the verdict, reason and counts of the scan of the trimmed non-empty lines, whatever JSON their records are |
| AuditVerifier.VerifierAcceptsChains | services/risk-engine/src/audit-journal.ts:29-58 | It accepts exactly v1 lines followed by v2 entries that link and hash correctly, and reports their counts and last hash |
| AuditReasons.RejectedAtFirstBreak | services/risk-engine/src/audit-journal.ts:29-58 | Anything else is turned down at its first line that breaks the chain, for the one reason that explains that break, with counts and last hash of the lines before |
| AuditVerifier.TrimCutsBlanks | services/risk-engine/src/audit-journal.ts:30 | Trimming cuts exactly the white space at both ends |
| AuditVerifier.HeadBindsHistory | services/risk-engine/src/audit-journal.ts:26-58 | Of two accepted v2 logs with one last hash the shorter is the end of the longer, if no entry of one collides with an entry of the other |
| AuditVerifier.HeadDeterminesLog | services/risk-engine/src/audit-journal.ts:26-58 | If both also start a chain, they are equal |
| AuditVerifier.LinesConcat | services/risk-engine/src/audit-journal.ts:30 | Newline-terminated texts concatenate line by line |
| AuditJournals.BoundedAuditJournal.Open | services/risk-engine/src/audit-journal.ts:61-75 | Exactly a path that is not blank with a size and a file count in range is accepted; a new journal knows nothing but its files |
| AuditJournals.BoundedAuditJournal.InitializeIntegrityHead | services/risk-engine/src/audit-journal.ts:102-114 | Reads the head from a current file that verifies, refuses and counts one that does not |
| AuditJournals.BoundedAuditJournal.RotateFiles | services/risk-engine/src/audit-journal.ts:124-134 | Moves every file one place up and drops the last, from the last place down, and counts it when done; stopped by a failing removal or rename it has dealt with the places so far; a single-file journal drops its file and head |
| AuditJournals.BoundedAuditJournal.WriteLine | services/risk-engine/src/audit-journal.ts:116-122 | Rotates when the line does not fit in UTF-8 bytes, then appends whole lines, unless the rotation stops |
| AuditJournals.BoundedAuditJournal.Append | services/risk-engine/src/audit-journal.ts:77-94 | Initialises, links to the head, writes; the head and counters follow success or failure, wherever it fails |
| AuditCodecs.LawsCanBeMet | services/risk-engine/src/audit-journal.ts:26-27 | Some codec meets all that the rows below assume of hashing, rendering and parsing |
| AuditJournalSafety.InitializeAgrees | services/risk-engine/src/audit-journal.ts:102-114 | A chain never fails the writer's own check and the head found is its last hash |
| AuditJournalSafety.EmptyJournal | services/risk-engine/src/audit-journal.ts:61-75 | A journal whose files do not exist yet satisfies what the run theorems start from |
| AuditJournalSafety.RotationLosesOldest | services/risk-engine/src/audit-journal.ts:124-134 | Wherever a rotation stops, the joined lines have lost exactly those of the oldest file, or none if it stops before anything |
| AuditJournalSafety.CurrentSafe | services/risk-engine/src/audit-journal.ts:77-134 | Every append, stored or not and whatever operation fails, leaves a current file the verifier accepts, with its last hash in memory after success |
| AuditJournalSafety.CurrentFileVerifies | services/risk-engine/src/audit-journal.ts:77-134 | The same over every run of appends, appends that fail anywhere and restarts from any newline-terminated file that verifies |
| AuditJournalSafety.RetainedFilesVerify | services/risk-engine/src/audit-journal.ts:77-134 | With two or more files and clean restarts the retained files, oldest first, verify as one chain that is a suffix of everything stored |
| AuditJournalSafety.UncleanRestartBreaksChain | services/risk-engine/src/audit-journal.ts:102-114 | After a restart the next stored entry continues the joined chain if and only if the restart was clean |
| AuditJournalSafety.FailedAppendCleanIff | services/risk-engine/src/audit-journal.ts:116-134 | An entry that does not fit and is not stored: the restart after it is clean if and only if the rotation stopped before its last rename |
| AuditJournalSafety.RotateFailRestartBreaksChain | services/risk-engine/src/audit-journal.ts:77-134 | That entry, a restart and a stored entry: the retained files no longer verify as one chain |
| AuditBounds.FilesBounded | services/risk-engine/src/audit-journal.ts:77-134 | Over every run of appends, failures anywhere and restarts, from files within bounds, each retained file has at most `maxBytes` bytes of UTF-8 or is a single line |
| AuditBounds.StoredPlaces | services/risk-engine/src/audit-journal.ts:116-134 | A stored line goes behind the current file if both together have at most `maxBytes` bytes, every other file staying; else into a new current file, the others one place up and the oldest gone |
| AuditBounds.UnstoredLeavesFiles | services/risk-engine/src/audit-journal.ts:116-122 | An append that fails though its line would fit leaves every file alone |
| AuditBounds.RotatedUnwritten | services/risk-engine/src/audit-journal.ts:116-134 | A rotation whose write fails has moved the files up and keeps the head; a journal of one file starts over |
| AuditBounds.ByteLengthIsSize | services/risk-engine/src/audit-journal.ts:120 | The length compared with `maxBytes` is that of the UTF-8 encoding |
| AuditBounds.AppendCounts | services/risk-engine/src/audit-journal.ts:77-134 | Each append counts once, as written or as an error, and counts a rotation exactly when its line would not fit and no rename was stopped |
| AuditBounds.BrokenStoresNothing | services/risk-engine/src/audit-journal.ts:102-114 | A new instance over a current file that is not a chain counts two errors an append and changes nothing else |
| RateLimits.BoundedFixedWindowRateLimiter.Open | services/risk-engine/src/bounded-state.ts:13-19 | At least one key is demanded; a new limiter has no windows |
| RateLimits.BoundedFixedWindowRateLimiter.Prune | services/risk-engine/src/bounded-state.ts:23-25 | Exactly the windows that have run out are deleted |
| RateLimits.BoundedFixedWindowRateLimiter.Consume | services/risk-engine/src/bounded-state.ts:27-41 | Windows, decision and both counters are those of the bounded limiter function; bad arguments change nothing |
| RateLimits.KeysBounded | services/risk-engine/src/bounded-state.ts:37-39 | Live keys never exceed `maxKeys`, whatever the clock does |
| RateLimits.PruningInvisible | services/risk-engine/src/bounded-state.ts:23-41 | Over every run the answers are those of a limiter that never prunes, except for lack of room |
| RateLimits.PacedSpan | services/risk-engine/src/bounded-state.ts:30-40 | Any 2 * limit accepted calls of a key in a row span at least one window length |
| RateLimits.RateBound | services/risk-engine/src/bounded-state.ts:27-41 | Any half-open interval of one window length holds at most 2 * limit - 1 accepted calls of a key |
| RateLimits.BoundIsReached | services/risk-engine/src/bounded-state.ts:27-41 | For every limit and window some run reaches that number |
| RateDecisions.AnswersFromHistory | services/risk-engine/src/bounded-state.ts:23-41 | Over every run the next answer, waiting time included, is settled by the calls accepted before: an open window counts up to the limit, a new one is refused if and only if `maxKeys` other keys have an open one |
| RateDecisions.CapacityIff | services/risk-engine/src/bounded-state.ts:37-40 | Capacity is answered exactly to a key without an open window while at least `maxKeys` others have one |
| TimestampStores.BoundedMonotonicTimestampStore.Open | services/risk-engine/src/bounded-state.ts:51-58 | At least one key and a second to live are demanded; a new store is empty |
| TimestampStores.BoundedMonotonicTimestampStore.Prune | services/risk-engine/src/bounded-state.ts:62 | Exactly the entries unseen for the time-to-live are deleted |
| TimestampStores.BoundedMonotonicTimestampStore.Accept | services/risk-engine/src/bounded-state.ts:64-72 | Entries, answer and both counters are those of the bounded store function |
| TimestampStores.NoReadmission | services/risk-engine/src/bounded-state.ts:62-72 | With a long enough time-to-live accepted timestamps of a key strictly increase, and the answers are those of a store that never forgets, except for lack of room |
| TimestampStores.Readmits | services/risk-engine/src/bounded-state.ts:62-72 | With a shorter one, a run that accepts a timestamp again |
| TimestampStores.SafeIff | services/risk-engine/src/bounded-state.ts:62-72 | Replay safety over every run holds if and only if the time-to-live, doubled for a store of one key, exceeds the accepted skew |
| TimestampDecisions.AnswersFromHistory | services/risk-engine/src/bounded-state.ts:62-72 | Over every run the next answer is settled by the calls accepted before, up to a key unseen for the time-to-live; room is refused if and only if `maxKeys` other keys were seen within it |
| EdgeGuards.EdgePacketGuard.constructor | services/risk-engine/src/edge-guard.ts:45-48 | Settings are kept when in range and set to the nearest bound otherwise, defaults as given |
| EdgeGuards.EdgePacketGuard.PruneExpired | services/risk-engine/src/edge-guard.ts:52-57 | Prunes exactly the expired sessions, and only when full or when the interval has passed |
| EdgeGuards.EdgePacketGuard.AcceptPacket | services/risk-engine/src/edge-guard.ts:59-85 | Sessions, verdict with its reason, and the rejection counter are those of the guard function |
| EdgeGuards.SessionsBounded | services/risk-engine/src/edge-guard.ts:54-78 | Sessions never exceed `maxSessions`, whatever the clock does |
| EdgeGuards.SequencesIncrease | services/risk-engine/src/edge-guard.ts:59-85 | Between boot changes accepted sequence numbers strictly increase unless the session expired in between |
| EdgeGuards.SequencesIncreaseIff | services/risk-engine/src/edge-guard.ts:52-85 | Over every run accepted packets of one boot that arrive a given gap apart have increasing sequence numbers if and only if the gap is at most the session's time-to-live |
| EdgeGuards.StartsLower | services/risk-engine/src/edge-guard.ts:52-85 | For every longer gap, a run that accepts a lower sequence number |
| EdgeGuards.Readmits | services/risk-engine/src/edge-guard.ts:52-85 | With sessions shorter than 35 s, a run that accepts one packet twice |
| EdgeGuards.SafeIff | services/risk-engine/src/edge-guard.ts:52-85 | Expiry never re-admits an accepted packet of the same boot if and only if sessions live at least 35 s |
| EdgeDecisions.AnswersFromHistory | services/risk-engine/src/edge-guard.ts:52-85 | Over every run the next verdict is settled by the packet and the last accepted one of each device, up to an expired session: protocol, clock and GNSS bounds, then order, regression by more than 2 s, or room |
| EdgeDecisions.ExpiredLeave | services/risk-engine/src/edge-guard.ts:52-57 | Over every run, once a packet is judged no session is kept that was last seen longer ago than the time-to-live and a minute, or twice the time-to-live if that is less |
| BootGuards.PersistentFiles.Replace | edge/pi-resilience/boot_guard.py:80-97 | One atomic replacement, or nothing once power is lost |
| BootGuards.AtomicBootStateStore.LoadState | edge/pi-resilience/boot_guard.py:66-72 | The saved state, or the default one without a file; a state that does not validate is refused |
| BootGuards.AtomicBootStateStore.SaveState | edge/pi-resilience/boot_guard.py:74-98 | Validates, increments the generation, stamps and replaces |
| BootGuards.BootGuard.StageCandidate | edge/pi-resilience/boot_guard.py:105-122 | The stage transition, its refusals in order, the save, and the saved state returned |
| BootGuards.BootGuard.BeginCandidateBoot | edge/pi-resilience/boot_guard.py:124-139 | Spends one attempt and boots the candidate, or asks for rollback past the budget |
| BootGuards.BootGuard.AcceptCandidate | edge/pi-resilience/boot_guard.py:141-160 | Makes the observed candidate known-good, or refuses |
| BootGuards.BootGuard.ReportFailure | edge/pi-resilience/boot_guard.py:162-168 | Asks for rollback while a candidate is staged or booting, and saves in any case |
| BootGuards.BootGuard.RecoverAfterUncleanBoot | edge/pi-resilience/boot_guard.py:170-178 | Asks for rollback after a boot that is not the candidate's, else saves nothing; returns the state that stands |
| BootGuards.RaspberryPiTrybootConfig.WriteFile | edge/pi-resilience/boot_guard.py:202-221 | Replaces the autoboot file with what can be rendered, else fails before any write |
| BootGuards.RecoveryExecutor.CommitAndReceipt | edge/pi-resilience/recovery_executor.py:116-130 | The autoboot file first, then the receipt, stopping at whatever fails |
| BootGuards.RecoveryExecutor.ExecuteOnce | edge/pi-resilience/recovery_executor.py:103-136 | Generation and cooldown guards, then boot state, autoboot and receipt in that order, each possibly the last before power is lost |
| BootGuards.Commands.Prepare | edge/pi-resilience/boot_guard.py:277-285 | The autoboot file for a staged candidate, known-good partition as default |
| BootGuards.Commands.Accept | edge/pi-resilience/boot_guard.py:286-296 | Accepts first, then makes the new known-good partition the default |
| BootGuards.Commands.Reboot | edge/pi-resilience/boot_guard.py:301-304 | Begins the candidate boot and refuses once the budget is spent, state saved either way |
| BootSafety.SavedKeepsInv | edge/pi-resilience/boot_guard.py:105-178 | Every state any command saves satisfies the boot invariant |
| BootSafety.RunKeepsStateInv | edge/pi-resilience/boot_guard.py:105-178 | Over every run with power lost anywhere: active slot is known-good outside booting, candidate present and different outside `stable`, attempts 1 to max while booting |
| BootSafety.KnownGoodOnlyByAcceptance | edge/pi-resilience/boot_guard.py:141-160 | Known-good changes only by accepting a booting candidate in a tryboot boot observed on its own partition |
| BootSafety.StageBudget | edge/pi-resilience/boot_guard.py:124-139 | Without another stage the candidate is booted at most `max_candidate_attempts` times |
| BootSafety.GenerationsIncrease | edge/pi-resilience/recovery_executor.py:103-130 | Of two receipts in a run the later one has the larger generation |
| BootSafety.ReceiptsChained | edge/pi-resilience/recovery_executor.py:97-130 | Over every run receipted generations strictly increase and receipts are a cooldown apart unless the earlier one is stamped zero |
| BootSafety.CooldownKeptIff | edge/pi-resilience/recovery_executor.py:103-130 | A receipt with a given stamp is followed no sooner than the cooldown, over every run, if and only if the stamp is not zero |
| BootSafety.EpochSkipsCooldown | edge/pi-resilience/recovery_executor.py:103-130 | The run that skips it: requests 1 and 2 at times 0 and 1 are both receipted |
| BootSafety.EpochSkipsCooldownExample | edge/pi-resilience/recovery_executor.py:103-146 | The same from an empty disk with the default slots |
| BootSafety.CommitSucceedsIff | edge/pi-resilience/recovery_executor.py:41-118 | The known-good slot can be committed exactly when the slot partitions are legal and the other slot's is not the known-good one |
| BootSafety.RenderNeverFails | edge/pi-resilience/boot_guard.py:188-200 | If staged partitions follow the slot map, rendering never fails on any run |
| BootSafety.RerunSameAutoboot | edge/pi-resilience/recovery_executor.py:103-130 | Power lost before the receipt: the same request run again ends with the same autoboot file and the receipt |
| BootSafety.AutobootTextDetermines | edge/pi-resilience/boot_guard.py:188-200 | The text of the autoboot file determines both partitions |
| BootEffects.FailureTakesEffect | edge/pi-resilience/boot_guard.py:162-178 | A failure reported, requested or found after an unclean boot while a candidate is staged or booting leaves the disk asking for rollback, known-good active, with the right reason |
| BootEffects.FailureEndsBooting | edge/pi-resilience/boot_guard.py:105-178 | Over every run: after it the candidate is never booted again without another stage |
| BootEffects.IdleFailureKeepsState | edge/pi-resilience/boot_guard.py:162-168 | With no candidate under way a reported failure changes only generation and date |
| BootEffects.CleanRecoveryKeepsState | edge/pi-resilience/boot_guard.py:170-178 | A boot that is the candidate's own, or none under way: recovery changes nothing |
| BootEffects.StageTakesEffect | edge/pi-resilience/boot_guard.py:105-122 | A legal stage is on disk as asked with no attempt spent, any other leaves the state alone |
| BootEffects.BootTakesEffect | edge/pi-resilience/boot_guard.py:124-139 | A boot spends one attempt while any is left, then gives the candidate up |
| BootEffects.BudgetIsReached | edge/pi-resilience/boot_guard.py:124-139 | Reboots one after the other boot a candidate exactly as often as its budget says, and one more gives it up |
| BootEffects.AtMostFiveBoots | edge/pi-resilience/boot_guard.py:54-57 | Whatever budget is saved, without another stage a candidate is never booted more than five times |
| BootEffects.AcceptTakesEffect | edge/pi-resilience/boot_guard.py:141-160 | A booting candidate seen on its own partition in a tryboot boot becomes known-good, with nothing left of the candidate; otherwise the state stays |
| BootEffects.PrepareTakesEffect | edge/pi-resilience/boot_guard.py:277-285 | A prepared tryboot has known-good as default and the candidate on trial |
| BootEffects.AcceptWritesAutoboot | edge/pi-resilience/boot_guard.py:286-296 | An acceptance has the new known-good as default and the one before on trial |
| BootEffects.RequestTakesEffect | edge/pi-resilience/recovery_executor.py:103-130 | A due request that nothing stops leaves known-good as default, the other slot on trial, and its receipt |
| BootOutcomes.SucceedsIff | edge/pi-resilience/boot_guard.py:105-310 | Exactly which commands end without an error, from the disk they find |
| BootText.TextReadsBack | edge/pi-resilience/boot_guard.py:188-197 | Read by sections, the file gives the default partition, in a tryboot boot the one on trial, and the A/B switch |
| BootText.RenderIff | edge/pi-resilience/boot_guard.py:188-200 | It is refused exactly for partitions not positive, equal, or of more than 450 digits together |
| BootInterleaving.DefaultIsAccepted | edge/pi-resilience/boot_guard.py:277-295 | However guard commands and executors interleave between writes and wherever power is lost, the default partition has at some time been known-good |
| BootInterleaving.DefaultStoodKnownGood | edge/pi-resilience/boot_guard.py:277-295 | The same without the record: the default partition stood as known-good on disk at some moment of the run |
| BootInterleaving.AcceptedStood | edge/pi-resilience/boot_guard.py:141-160 | The record of accepted partitions holds only what stood as known-good on disk |
| BootInterleaving.CommandIsSchedule | edge/pi-resilience/boot_guard.py:264-310 | Every command losing power after any number of writes is a run of steps of that system |
| BootInterleaving.RunIsSchedule | edge/pi-resilience/boot_guard.py:264-310 | So is every run of commands, one after the other |
| BootReceipts.InterleavedReceiptsChained | edge/pi-resilience/recovery_executor.py:97-130 | However processes interleave and wherever power is lost: while no two executors are past their tests at once, generations strictly increase and receipts are a cooldown apart unless the earlier one is stamped zero |
| BootReceipts.GenerationsIncrease | edge/pi-resilience/recovery_executor.py:103-130 | So from any disk each generation is receipted at most once, and only above the last receipt found |
| BootReceipts.TwoExecutorsReceiptTwice | edge/pi-resilience/recovery_executor.py:103-130 | Whenever a reboot request is due, two executors can both pass the tests, and its generation is receipted twice |
| CanonicalJsonProofs.StablePrintsCanon | services/risk-engine/src/device-auth.ts:34-39 | The recursive printer that sorts rendered members prints the value with its members sorted |
| CanonicalJsonProofs.PrintCancels | services/risk-engine/src/device-auth.ts:34-39 | A printed value can be read back from the front of any text, as JavaScript or Python wrote its numbers, so no print is a proper beginning of another |
| CanonicalJsonProofs.CanonIffEquivalent | services/risk-engine/src/device-auth.ts:37-38 | Sorting members makes two values equal exactly when they are equal up to key order |
| CanonicalJsonProofs.StableIffEquivalent | services/risk-engine/src/device-auth.ts:34-39 | Texts are equal exactly for values equal up to key order |
| CanonicalJsonProofs.StableHasNoNewline | services/risk-engine/src/device-auth.ts:34-39 | The canonical text never holds a raw newline |
| JsonReader.ReadsBack | services/risk-engine/src/device-auth.ts:34-39 | A reader written from RFC 8259 reads every printed text, JavaScript's or Python's, as a whole and back to what the value means |
| JsonReader.StableIsJson | services/risk-engine/src/device-auth.ts:34-39 | So the canonical text is JSON for a value equal up to key order, and its keys ascend |
| JsonReader.EscapeIsShortest | services/risk-engine/src/device-auth.ts:35-38 | Each unit is escaped only if it must be, and then in the shortest way there is |
| JsonReader.PlainUnchanged | services/risk-engine/src/device-auth.ts:35-38 | A string that needs no escape is printed as it is |
| DevicePayloads.NewlineInKeyIdCollides | services/risk-engine/src/device-auth.ts:49-51 | With a newline in a key id two different pairs of device and key share one payload |
| DevicePayloads.KeyIdsHaveNoNewline | services/risk-engine/src/device-auth.ts:30 | A key id that matches the pattern holds no newline |
| Utf8.EncodeInjective | services/risk-engine/src/device-auth.ts:47-50 | Texts without unpaired surrogates have different UTF-8 bytes |
| Utf8.SameBytesIff | services/risk-engine/src/device-auth.ts:47-50 | Texts have the same UTF-8 bytes exactly when replacing unpaired surrogates makes them equal |
| Utf8.BytesSharedIff | services/risk-engine/src/device-auth.ts:47-50 | A text shares its bytes with another if and only if it holds an unpaired surrogate or U+FFFD |
| Utf8.PrintPaired | services/risk-engine/src/device-auth.ts:34-39 | Printed JSON holds no unpaired surrogate, whatever its strings hold |
| Utf8Reader.EncodeReadsBack | services/risk-engine/src/device-auth.ts:47-50 | A reader written from RFC 3629 reads the bytes back to the text, unpaired surrogates replaced |
| Utf8Reader.LoneSurrogateBytes | services/risk-engine/src/device-auth.ts:47-50 | An unpaired surrogate becomes the bytes EF BF BD |
| DeviceBytes.PacketBytesDetermine | services/risk-engine/src/device-auth.ts:46-48 | The bytes of packet payloads are equal exactly when packets, up to key order, are, and key ids once their unpaired surrogates are replaced |
| DeviceBytes.IngressBytesDetermine | services/risk-engine/src/device-auth.ts:49-51 | The bytes of ingress payloads are equal exactly when all parts are, device ids once their unpaired surrogates are replaced |
| DeviceBytes.DeviceIdSharedIff | services/risk-engine/src/device-auth.ts:49-51 | A device id shares the bytes of any payload with another if and only if it holds an unpaired surrogate or U+FFFD |
| DeviceBytes.KeyIdConfusedIff | services/risk-engine/src/device-auth.ts:30-51 | A key id gives the bytes of a different legal one, for some device ids, if and only if it ends in a newline and a legal key id; the pattern excludes all of them |
| DeviceBytes.PacketIsNoIngress | services/risk-engine/src/device-auth.ts:46-51 | No ingress payload has the bytes of a packet payload |
| PayloadReader.PacketReads | services/risk-engine/src/device-auth.ts:46-48 | Read line by line, a packet's payload is the title, device, key id, boot, sequence and time, then JSON for the packet |
| PayloadReader.IngressReads | services/risk-engine/src/device-auth.ts:49-51 | An ingress payload is the title, scope, device, key id and time, then JSON for what is sent |
| PayloadReader.KeyIdPattern | services/risk-engine/src/device-auth.ts:30 | The key ids allowed, character by character |
| GatewayJson.SameOrderIff | edge/pi-storage/history_gateway.py:23-24 | Order by code unit and order by code point differ on exactly the keys that clash |
| Fractions.SpellDetermines | services/risk-engine/src/device-auth.ts:35 | A number's text, JavaScript's or Python's, determines the number |
| Fractions.SpellAlikeIff | edge/pi-storage/history_gateway.py:23-24 | The two languages write a number that is not a plain integer alike if and only if it is not from 1e-9 up to, but not, 1e-4 |
| Fractions.ExponentIff | edge/pi-storage/history_gateway.py:23-24 | Which numbers either language writes with an exponent |
| GatewayJson.TextsAgreeIff | edge/pi-storage/history_gateway.py:23-24 | The gateway's sorted JSON is the sender's canonical text if and only if every string can be encoded, no object has clashing keys and no number is in that range |
| GatewayJson.MessagesAgreeIff | edge/pi-storage/history_gateway.py:31-40 | The gateway rebuilds a packet's signed text under exactly that condition, the key id being encodable too |
| GatewayJson.SameHeads | edge/pi-storage/history_gateway.py:31-39 | What gateway and sender put before the JSON is the same |
| GatewayJson.GatewayTextIsJson | edge/pi-storage/history_gateway.py:23-24 | What the gateway prints is JSON for the value |
| GatewayJson.ClashExample | edge/pi-storage/history_gateway.py:23-24 | A legal value whose two texts differ |
| GatewayJson.SmallNumberExample | edge/pi-storage/history_gateway.py:23-24 | A longitude of 0.00005, which the gateway rebuilds as 5e-05 |
| ViewerSessions.IssuedReadsBack | packages/contracts/src/viewer-session.ts:31-60 | An issued token reads back its claims exactly from 30 s before issue to 30 s after expiry, under another secret only if it signs the same |
| ViewerSessions.IssuedText | packages/contracts/src/viewer-session.ts:31-38 | A token is `v1.viewer:read`, issue and expiry in seconds, 600 apart, the nonce and the signature of all that |
| ViewerSessions.ReadIff | packages/contracts/src/viewer-session.ts:40-60 | A token is accepted, and with which claims, exactly when it spells version, scope, two numbers 600 s apart, a legal nonce and their signature, within the window |
| ViewerSessions.SignatureBinds | packages/contracts/src/viewer-session.ts:57-58 | One signature belongs to one accepted token, or two different payloads share it |
| ViewerSessions.LawsCanBeMet | packages/contracts/src/viewer-session.ts:21-48 | Some pair of HMAC and number reading meets what the rows above assume |
| HistoryGateway.RecentIdentitySet.constructor | edge/pi-storage/history_gateway.py:103-105 | A capacity below one is raised to one; the set starts empty |
| HistoryGateway.RecentIdentitySet.Remember | edge/pi-storage/history_gateway.py:108-116 | Adds a new identity last and drops the oldest past capacity; a known one changes nothing |
| HistoryGateway.HistoryRuntime.Validate | edge/pi-storage/history_gateway.py:154-166 | The first malformed or refused record decides the error; only refusals are counted |
| HistoryGateway.HistoryRuntime.StoreRecord | edge/pi-storage/history_gateway.py:168-183 | Remembers before it appends: a failed append leaves the identity remembered |
| HistoryGateway.HistoryRuntime.IngestBatch | edge/pi-storage/history_gateway.py:143-195 | A payload without a records array is refused; otherwise state and reply of the batch are those of the ingest function |
| HistoryGateway.BatchLaws | edge/pi-storage/history_gateway.py:143-195 | A batch is refused if and only if some record is; refused, it stores and remembers nothing; else every record counts once as stored or duplicate unless an append fails |
| GatewayAdmission.BatchTakenIff | edge/pi-storage/history_gateway.py:143-166 | A batch of 1 to 128 records is taken if and only if each is well-formed and signed, or the token is valid and signatures are not required; the first that is not names the error and what is counted |
| GatewayAdmission.BatchSize | edge/pi-storage/history_gateway.py:146-148 | No other number of records is taken |
| HistoryGateway.RunLaws | edge/pi-storage/history_gateway.py:102-195 | Over every run the recent set is the newest `capacity` remembered; with no failed append any capacity + 1 stored in a row are distinct |
| HistoryGateway.IdentityEqualIff | edge/pi-storage/history_gateway.py:27-28 | Identities are equal exactly when sequences are and device and boot ids read the same around their colon |
| HistoryGateway.SharedIdentityIff | edge/pi-storage/history_gateway.py:27-54 | Another legal packet shares a packet's identity if and only if a second colon divides its ids into legal ones |
| HistoryGateway.AmbiguousHidesAnother | edge/pi-storage/history_gateway.py:143-195 | Every such packet hides another: ingested second, it is answered as a duplicate and never stored |
| HistoryGateway.RecognisedIsDropped | edge/pi-storage/history_gateway.py:168-171 | A record whose identity is recognised is counted as a duplicate and changes nothing else |
| HistoryGateway.ColonNeedNotCollide | edge/pi-storage/history_gateway.py:27-54 | A colon in a boot id alone does not make an identity ambiguous |
| HistoryGateway.IdentityDeterminesPacket | edge/pi-storage/history_gateway.py:27-28 | With boot ids free of colons an identity belongs to one packet |
| HistoryGateway.IdentityCollides | edge/pi-storage/history_gateway.py:27-56 | Two legal packets of different devices share an identity |
| EventBuffers.EdgeEventBuffer.Open | services/risk-engine/src/event-buffer.ts:7-11 | Capacities of 1 to 10000 are accepted; a new buffer is empty |
| EventBuffers.EdgeEventBuffer.Ingest | services/risk-engine/src/event-buffer.ts:13-37 | Records, seen keys and the records created are those of folding the alerts of the frame one by one |
| EventBuffers.EdgeEventBuffer.RebuildSeen | services/risk-engine/src/event-buffer.ts:47-50 | The seen set becomes the keys read from the ids of the records kept |
| EventBuffers.KeyRecovered | services/risk-engine/src/event-buffer.ts:16-20 | The key read from a record's id is the one it was made with, whatever colons the alert id holds |
| EventBuffers.KeyDetermines | services/risk-engine/src/event-buffer.ts:16 | A key stands for one alert id and one severity |
| EventBuffers.RunKeepsInv | services/risk-engine/src/event-buffer.ts:13-37 | Over every history the records are the newest `capacity` created, their keys are seen, nothing never created is, and at most 4 * capacity keys are |
| EventBuffers.Deduplicates | services/risk-engine/src/event-buffer.ts:13-37 | Any capacity + 1 records created in a row have different keys, and only a key created before is dropped |
| EventBuffers.RetainedDistinct | services/risk-engine/src/event-buffer.ts:31-35 | The records kept always have pairwise different keys |
| EventRecords.CreatedFromAlerts | services/risk-engine/src/event-buffer.ts:13-37 | Over every history each record created says what its alert said, in the order of the alerts |
| EventRecords.SeenAfter | services/risk-engine/src/event-buffer.ts:16-36 | Keys are forgotten only by the alert that would make them more than four times the capacity, and then all but those of the records kept |
| AlertStabilizers.Evaluate | services/risk-engine/src/alert-stabilizer.ts:18-44 | The two loops and the sort give the next active map, in insertion order, and its reply |
| AlertStabilizers.AlertStabilizer.Update | services/risk-engine/src/alert-stabilizer.ts:49-51 | Replaces the active map by the next one |
| AlertStabilizers.AlertStabilizer.Preview | services/risk-engine/src/alert-stabilizer.ts:53-63 | Gives the reply an update would give and changes nothing |
| AlertStabilizers.NextAt | services/risk-engine/src/alert-stabilizer.ts:20-39 | With distinct keys, what one call does to the entry of any key, named or not |
| AlertStabilizers.ReplySorted | services/risk-engine/src/alert-stabilizer.ts:41-43 | The reply is the active alerts, most severe and then newest first, ties in the order they became active |
| AlertStabilizers.DowngradeHeld | services/risk-engine/src/alert-stabilizer.ts:24-34 | Over every run a tracked key's severity drops only 1800 ms or more after its last change |
| AlertStabilizers.NeverBelowIncoming | services/risk-engine/src/alert-stabilizer.ts:24-34 | The reported severity is never below the incoming one |
| AlertStabilizers.LeavesOnlyUnseen | services/risk-engine/src/alert-stabilizer.ts:37-39 | A key leaves only after more than 1200 ms without being named |
| AlertLaws.ReportedWhenNamed | services/risk-engine/src/alert-stabilizer.ts:20-35 | Over every run a key named is reported with the incoming severity, unless that is less grave and the last change less than 1800 ms ago, and otherwise as it came in |
| AlertLaws.ReportedWhenNew | services/risk-engine/src/alert-stabilizer.ts:20-35 | A key not tracked is reported as it comes in, and only if it does |
| AlertLaws.StaysIff | services/risk-engine/src/alert-stabilizer.ts:37-39 | A key not named stays, unchanged, for exactly 1200 ms after it last was |
| AlertLaws.ReplyOrder | services/risk-engine/src/alert-stabilizer.ts:41-43 | No alert stands behind a less grave one or an older one of its severity |
| EdgeFusion.MatchCamera | services/risk-engine/src/edge-fusion.ts:88-111 | The first unused detection of least score among those that pass all three gates, or none if none passes |
| EdgeFusion.AssociateTracks | services/risk-engine/src/edge-fusion.ts:138-177 | One object a track in order, each with its best detection among those left; used ids, match count, conflicts and greatest skew |
| EdgeFusion.AddCameraOnly | services/risk-engine/src/edge-fusion.ts:179-199 | The detections left unmatched that have a distance and enough confidence, in order |
| EdgeFusion.FuseEdgePerception | services/risk-engine/src/edge-fusion.ts:123-213 | Freshness filters, association, ordering, truncation and all diagnostics |
| EdgeFusion.MatchingOneToOne | services/risk-engine/src/edge-fusion.ts:88-149 | No detection id is matched twice; each match passes the gates and has least score among detections no earlier track took |
| EdgeFusion.UnmatchedHasNone | services/risk-engine/src/edge-fusion.ts:88-149 | A track stays unmatched only if an earlier one took every detection within its gates |
| EdgeFusion.ReplyLaws | services/risk-engine/src/edge-fusion.ts:138-213 | Before truncation: every track once, then each qualifying unmatched detection as often as seen; the match count; the reply sorted, the nearest 64 |
| EdgeFusionLaws.AngleDeltaIff | services/risk-engine/src/edge-fusion.ts:44-46 | The residual is the angle between the bearings, exactly unless the track's is more than 540 degrees below the detection's and not whole turns from that |
| EdgeFusionLaws.GatesIff | services/risk-engine/src/edge-fusion.ts:88-104 | For ordinary bearings a match is allowed exactly within 120 ms, 9 degrees and, where the camera has a distance, 8 m |
| EdgeFusionLaws.ScoresCompare | services/risk-engine/src/edge-fusion.ts:88-111 | Which of two matches is better: a degree weighs like 60 ms and like 20 sevenths of a metre, and no distance like 2.8 m |
| EdgeFusionLaws.TracksUsed | services/risk-engine/src/edge-fusion.ts:129-136 | Exactly the tracks at most 250 ms old and 50 ms ahead are used, of a frame that is so too |
| EdgeFusionLaws.DetectionsUsed | services/risk-engine/src/edge-fusion.ts:129-136 | The same for detections and 350 ms |
| FusionCounts.DiagnosticsCount | services/risk-engine/src/edge-fusion.ts:113-152 | For bearings of a circle, disagreements are the unmatched tracks that a detection left over contradicts by more than 8 m; the greatest skew is that of the matches |
| FusionCounts.ReplyHolds | services/risk-engine/src/edge-fusion.ts:179-201 | The reply holds all tracks and the unmatched detections with a distance and 0.72 confidence, or the 64 nearest of them, nearest first |
| DriverMonitoring.LongestSpanMs | services/risk-engine/src/driver-monitoring.ts:35-45 | The loop gives the greatest span of a run that could not begin earlier, for samples in any order |
| DriverMonitoring.LongestOfStretches | services/risk-engine/src/driver-monitoring.ts:35-45 | On samples in time order that is the greatest span over all qualifying stretches with gaps up to 2200 ms, and nothing else is |
| DriverMonitoring.AssessDriverMonitoring | services/risk-engine/src/driver-monitoring.ts:47-82 | The assessment, refusals in order included, of the samples sorted by time |
| DriverMonitoring.OrderIrrelevant | services/risk-engine/src/driver-monitoring.ts:47-56 | The order in which samples arrive never changes the assessment |
| DriverMonitoring.MicrosleepIff | services/risk-engine/src/driver-monitoring.ts:71-80 | A microsleep is reported exactly when a stretch of closed eyes lasts 1.8 s; an attentive driver has looked away for less than 1.5 s |
| DriverMonitoring.ScoresInRange | services/risk-engine/src/driver-monitoring.ts:58-81 | Every score reported lies between zero and one |
| DriverStates.AssessedIff | services/risk-engine/src/driver-monitoring.ts:47-63 | A window is assessed if and only if it has three samples over 1.5 s without gaps, half of them trusted, and a face in enough of those |
| DriverStates.RefusedBecause | services/risk-engine/src/driver-monitoring.ts:47-63 | A refusal names the first thing wrong, with the shares it was refused for |
| DriverStates.StateIff | services/risk-engine/src/driver-monitoring.ts:77-80 | State and reason are those of the first that holds of drowsy, long away and away, told from stretches and weights |
| DriverStates.ScoresAre | services/risk-engine/src/driver-monitoring.ts:57-70 | Shares and confidence are, to two decimals, those of the samples' weights |
| DriverStates.LongestReported | services/risk-engine/src/driver-monitoring.ts:71-72 | The longest closures and glances reported are the longest stretches of the samples seen |
| DriverStates.ScoreIs | services/risk-engine/src/driver-monitoring.ts:73-75 | The attention score is, to two decimals, that of these shares and stretches |
| DriverStates.ScoreFalls | services/risk-engine/src/driver-monitoring.ts:73-75 | It never rises with more closed eyes, more looking away or fewer faces |
| DriverStates.ScoreCosts | services/risk-engine/src/driver-monitoring.ts:73-75 | What each of the five costs by itself |
| Sorting.SortSorts | services/risk-engine/src/alert-stabilizer.ts:41-43 | The comparator's order holds between any two elements of the reply |
| Sorting.SortStable | services/risk-engine/src/alert-stabilizer.ts:41-43 | Elements that rank equal keep their order |
| Texts.SplitJoin | packages/contracts/src/viewer-session.ts:36-42 | Parts without the separator survive joining and splitting |
| Texts.JoinSplit | services/risk-engine/src/event-buffer.ts:49 | Every text is the join of what it splits into |
| Decimals.IntegerInjective | services/risk-engine/src/device-auth.ts:47 | Different integers are written differently |

## Left out

- User interface, browser state, internationalisation and the HMI's own rate limiting, which repeats the bounded stores.
- HTTP servers, sockets, TLS, subprocesses, reboot calls, file modes, `fsync`; an atomic replacement or a whole-line append is one step, except that the ring store's write may stop after any byte.
- SHA-256, HMAC and Ed25519: uninterpreted; where collisions matter a lemma names the pair that must not collide.
- Floating point: percentages, scores, angles and confidences are exact reals; times are whole milliseconds; in JSON a number is its shortest significant digits (at most 17) and its point, and that both languages print the shortest digits that read back is assumed.
- `stable` prints `undefined` as `null`: `StableIffEquivalent` equates the two, and a value that came from JSON text holds none.
- A ring-store write that fails part way in a process that goes on, and segments deleted by others: not modelled.
- Segment names are pairs of numbers; zero padding to 20 and 6 digits makes their textual order the same.
- RingStoreSafety.RetainedIsSuffix: assumes that each append that has to open a segment gets the newest name (or one already taken, which fails it); `AppendInOrderIff` says exactly when a single append may do without.
- AuditJournals.BoundedAuditJournal.Open: the path is only tested for being blank; the disk is one place per file, so it has as many places as the journal has files.
- RateLimits.BoundedFixedWindowRateLimiter.Consume: the upper end of the safe integers is not checked, here and in the other settings.
- AuditJournals.BoundedAuditJournal.Append: calls run one after the other, so the pending counter, the time of the last error and the promise chain are left out; a failed write stores nothing.
- Audit files whose last line lacks its newline: nothing is promised.
- RingStoreSizes.SegmentsBounded: records hold no line feed, as the encoder writes them.
- TimestampDecisions.AnswersFromHistory: whether a key unseen for the time-to-live has been pruned depends on when the store was last full, so a replay of it may get either answer; `EdgeDecisions.AnswersFromHistory` leaves the same open for an expired session.
- EdgeGuards.SequencesIncrease: sequences may start lower again after a session expires or the boot id changes, and alternating boot ids replay; that is what the code does.
- BootGuards.RecoveryExecutor.ExecuteOnce: owner, mode and schema checks of the request are one flag (readable or not), and request generations restart when the agent does.
- BootGuards.AtomicBootStateStore.LoadState: schema and control authority are constants; a file that is not a JSON object of the right fields is refused by the same test as a state that does not validate, and only the latter is represented.
- AuditJournals.BoundedAuditJournal.WriteLine: a failing test for a file's existence or size, or `mkdir`, counts as the operation after it failing.
- GatewayJson.MessagesAgreeIff: the packet travels as JavaScript prints it, so whole numbers below 1e21 arrive as plain integers; a sender that writes `5.0` is outside it.
- HistoryGateway.HistoryRuntime.Validate: packet shape and signature checks are flags of a record; a JSON boolean as sequence number is not modelled.
- HistoryGateway.HistoryRuntime.IngestBatch: the store is seen as the list of identities appended and the number of appends that succeed before one fails; the lock is left out.
- AlertStabilizers.Evaluate: incoming alerts carry their stable key; how a title becomes one is left out, and laws over runs assume distinct keys in a call.
- EdgeFusion.FuseEdgePerception: an object is its track and detection; kind, zone, severity, confidence and projected position are left out.
- DriverMonitoring.AssessDriverMonitoring: sums are exact, so the rounding to two decimals is that of the exact value.
- ViewerSessions.ReadIff: how `Number` reads a text is a parameter known only to read decimals of safe integers back.
- EventBuffers.EdgeEventBuffer.Ingest: fields that are only copied are one opaque value; the journal call and `list` are left out.
- Single-decision policies (collision claim, environment, calibration, camera trust, ego motion, standby, deployment checklist) and small counters and backoffs: each is settled by reading one branch.
