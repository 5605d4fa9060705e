# Verification of the foundational store

A Dafny model of the Substreams foundational store: a key-value store that remembers, for each key, which block wrote it, keeps unfinalized writes in memory until their block can no longer be undone, and answers "what was the value of this key at block b".

`dafny verify dfyconfig.toml` checks everything. There are five layers, from the bytes up.

| files | layer |
|---|---|
| `ByteOrder`, `OrderedDb`, `Entries`, `Chain`, `Wrappers` | byte order and big-endian numbers; Badger as an ordered map with seeks in both directions and atomic batches; batches and the reference meaning of a history of batches (`Chain.Writer`: replay it, the first write stands in if-not-exist mode, the last one in overwrite mode) |
| `FanOut`, `TimeTravelKeys`, `TimeTravelLookup`, `TimeTravelWrites`, `LatestCells`, `Readers`, `TimeTravelStore`, `LatestStore` | the two Badger stores: composite keys, seeks, stamped cells, the bounded parallel fan-out of the readers |
| `Backing`, `ForkAwareSpec`, `ForkAware` | the contract both stores meet, and the fork-aware write-back cache over either |
| `SinkerSpec`, `Sinker`, `KeyView`, `ForkRuns`, `IfNotExistRuns`, `StampedReads`, `ValidChainRuns`, `OverwriteRuns`, `MixedRuns`, `Provenance`, `CursorHistory`, `CrashRecovery`, `MidBlockCrash`, `CursorFile` | the sinker as a state machine, and theorems over whole runs of blocks, undo signals and restarts |
| `FirstReads`, `ServiceReads`, `GrpcServer` | what `GetFirst` answers over stores, cache and runs, and against its published definition; the query service's head-block gate, and what its clients are told |

The classes (`OrderedDb.Db`, `TimeTravelStore.Store`, `LatestStore.Store`, `ForkAware.Store`, `Sinker.Sinker`, `GrpcServer.Server`) follow the Go methods, loops included. Each method is proved equal to a pure function of the old state, byte for byte and without asking anything of the keys; the theorems are about those functions.

Maps are filtered by subtraction and built by recursion, never by comprehension: Dafny 4.11 lets two comprehensions that come out as the same map agree on keys outside it as well, which is contradictory.

## Main results

- **Time travel.** `Get`'s one forward seek stops at the latest version at or below the requested block exactly when no stored key of another user key intrudes (`SeekExact`); over a prefix-free key set it always does (`ReadIsLatest`), and after any history of batches it reads what was accepted last at the greatest block not above the requested one (`ReadAfterHistory`). The same for the oldest version and the reverse seek.
- **Fork refinement.** After every legal if-not-exist run of blocks, undos and restarts, over either store, a read at or above the flush point answers with the first write among the surviving blocks (`ForkRefinement`, `RequestRefinement`). At every other block too: a write is found exactly from the first flush point at or above it (`ReadsAtEveryBlock`).
- **Overwrite mode.** The last surviving write, for every key no undo or restart cut out of a slot that had replaced an unflushed surviving write (`OverwriteCorrect`), and exactly when one undo gets it wrong (`UndoExact`).
- **Mixed flags.** For blocks with any flags, reads at the head are the reference answer exactly when no if-not-exist flush dropped an overwrite that has not been replaced since (`MixedExact`).
- **`GetFirst`.** Over either store it answers each key with the value under its oldest stamp (`FirstGathers`), with slots laid over it (`FirstResponds`). After if-not-exist runs that is the first surviving write (`FirstRefinement`, and at every block `FirstAtEveryBlock`); after blocks with any flags the unflushed standing write, else the oldest stored value (`FirstAfterBlocks`), which no later event ever changes (`OldestStays`).
- **Served requests.** The head is the last block, or the last valid block of an undo, or what the saved cursor recorded (`GateExact`); requests past it are turned away and the others get the first surviving writes (`ServedGet`, `ServedGetFirst`).
- **No value from the future, no orphaned value,** whatever the flags (`NoReadFromFuture`, `OrphanSafety`).
- **Crash recovery.** For any process that has handled blocks in one mode, started after any earlier legal run in that mode (`BootsAgain`): restart and replay rebuild cache and store exactly when nothing cached lies at or below the saved cursor (`RecoveryExact`), all answers are the same again exactly when such slots hold what is stored anyway (`RecoveryExactReads`), and both hold after an output block whose irreversible block's cursor is still at hand (`RecoveryAtLib`). In if-not-exist mode the same replay absorbs a crash between a block's flush and its cursor (`MidCrashExact`). The cursor file always holds what the last block or undo saved (`FileIsSaved`), so any number of restarts in a row recovers like one (`RecoveryAfterRestarts`).

## Where the code differs from what one might expect

- Prefix-free keys. Keys are documented as arbitrary bytes, but if one user key extends another, lookups and existence checks can mix them up (`ReadCrossesKeys` gives an input; `SeekExact`, `ReverseSeekExact` and `ProbeExact` say exactly when, and `OrderExact` which pairs of keys keep the index in order).
- An undo to the last valid block `n` evicts slots at or above `n`, so unflushed writes of block `n` itself go too (`UndoDropsTipWrite` is such a run). `UndoKeepsValidChain` says exactly which keys answer differently from the valid chain afterwards, and `ValidChainRefinement` carries this over whole runs. The other run theorems therefore let "below `n`, or flushed" survive an undo.
- Flushing restamps values with the flush block. Reads below the flush point can change (`FlushHidesOldReads`); `FlushBelowTimeTravel` and `FlushBelowLatest` say exactly which, and the run theorems speak of reads at or above it unless they say otherwise.
- A flush goes by the flag of the output that triggers it, whatever the flags its slots were written under, so an if-not-exist output can drop an acknowledged overwrite (`OverwriteIsLost`; exactly when: `MixedExact`).
- One slot a key: in overwrite mode an undo can take out a write without bringing back the unflushed one it had replaced (`ReplacedWriteIsLost`; exactly when: `UndoExact`).
- The cursor saved is the current block's own whenever the irreversible block's cursor is not on file, in particular until the first irreversible block handled since start, and for a second block with the same irreversible block (its cursor has been pruned). A crash then loses cached writes (`FreshStartLosesWrites`).
- After a restart the head block is the chain head recorded in the cursor, not the block the cursor stands at, so the service answers about blocks that are still to be played again (`GateOpensTooEarly`; the answers are right exactly under the condition of `GateAfterRestart`).
- The service definition promises that `GetFirst` finds the first key at or after the requested one; both Badger stores look up exactly the requested key (`GetFirstStopsAtKey`). The model follows the code, and `GetFirstExact` says when the two agree.

## Assumptions about the surroundings

- Legal runs (`ForkRuns.LegalStep`): a new block's number is above every surviving block's and above the highest flush point, and no undo goes below the highest flush point. With irreversible blocks that never go back and no restart, that highest flush point is the cache's own `flushUpToBlock` (`SettledIsFlushPoint`).
- Crash recovery and the cursor history also use that a block is filed under its cursor's own block id, that irreversible blocks never go back and never pass the block, and (crash recovery) that an id stands for one number. The stream after a restart is the same blocks again, from the one after the saved cursor's.

## Model

| member | source | states |
|---|---|---|
| ByteOrder.LessTotal | store/badger_time_traversal/getter.go:45 | the byte comparison that bounds the scans is a total order (with irreflexivity and transitivity beside it) |
| ByteOrder.BigEndianOrder | store/badger_time_traversal/setter.go:24-25 | byte order on equal-width big-endian numbers is numeric order |
| ByteOrder.U64RoundTrip | store/badger/getter.go:53 | decoding the eight bytes of any uint64 gives it back |
| ByteOrder.PutUint64 | store/badger_time_traversal/setter.go:25 | exactly eight bytes of the buffer become the number's encoding, the rest stays |
| OrderedDb.HasPrefixExact | store/badger_time_traversal/setter.go:93-96 | one seek and a prefix test find out whether any stored key starts with the prefix |
| OrderedDb.Db.Seek | store/badger_time_traversal/getter.go:45 | a forward iterator stands at the least key not below the start |
| OrderedDb.Db.SeekReverse | store/badger_time_traversal/getter.go:121 | a reverse iterator stands at the greatest key not above the end |
| Entries.LastWinsIsLastMention | store/ForkAware/store.go:77-83 | a batch applied in order keeps exactly the keys it mentions, each with its last value |
| FanOut.EveryScheduleGathers | store/badger_time_traversal/getter.go:16-84 | under every interleaving: holders never exceed the workers, at most four turns a key, never stuck, and at the end position i holds lookup i, or an error of one of the failing lookups |
| FanOut.GathersAgree | store/badger_time_traversal/getter.go:75-83 | success if and only if no lookup failed, and then one possible result |
| FanOut.NoWorkersMeansStuck | store/badger_time_traversal/getter.go:20-31 | with a semaphore of size zero the readers hang exactly when there is a key to read |
| TimeTravelKeys.MakeTimeTraversalKey | store/badger_time_traversal/setter.go:15-28 | the buffer built in place is the user key followed by the eight bytes of MaxUint64 minus the block |
| TimeTravelKeys.SplitComposite | store/badger_time_traversal/setter.go:12-28 | the last eight bytes give back key and block, for every uint64 |
| TimeTravelKeys.CompositeSplit | store/badger_time_traversal/setter.go:12-28 | every stored key of at least eight bytes is the composite key of exactly one version |
| TimeTravelKeys.OrderEmbedding | store/badger_time_traversal/setter.go:12-28 | for keys neither of which extends the other, byte order is user key ascending, then block descending, and the encoding is injective |
| TimeTravelKeys.OrderExact | store/badger_time_traversal/setter.go:12-28 | for any two keys that order holds between all their versions if and only if neither extends the other or the extension begins with eight FF bytes; else block 0 of the shorter and MaxUint64 of the longer break it |
| TimeTravelKeys.ExtensionBreaksOrder | store/badger_time_traversal/setter.go:12-28 | an instance of the failing case |
| TimeTravelKeys.FixedLengthIsPrefixFree | store/badger_time_traversal/setter.go:12-28 | keys of one length are prefix-free |
| TimeTravelKeys.LatestAt | store/postgres_time_traversal/store.go:75-78 | the relational reference query: greatest block at or below the requested one, none exactly if there is none |
| TimeTravelLookup.SeekExact | store/badger_time_traversal/getter.go:40-54 | the single seek finds the latest version at or below the block (or nothing) if and only if no foreign key is stored inside the range ahead of it |
| TimeTravelLookup.ReadIsLatest | store/badger_time_traversal/getter.go:40-64 | over prefix-free keys, the value of the greatest block at or below the requested one, NOT_FOUND exactly if there is none |
| TimeTravelLookup.ReadCrossesKeys | store/badger_time_traversal/getter.go:40-64 | without prefix-freeness: a key never written is answered with another key's value |
| TimeTravelLookup.ReverseSeekExact | store/badger_time_traversal/getter.go:111-135 | the reverse seek finds the oldest version if and only if no foreign key hides it or stands in for it |
| TimeTravelLookup.ReadFirstIsOldest | store/badger_time_traversal/getter.go:86-135 | over prefix-free keys, the value of the least block, whatever block the request names |
| TimeTravelLookup.ProbeIsExistence | store/badger_time_traversal/setter.go:91-104 | over prefix-free keys the if-not-exist probe succeeds exactly if some version of the key is stored |
| TimeTravelLookup.ProbeExact | store/badger_time_traversal/setter.go:91-104 | in general the probe is wrong exactly when only versions of longer keys start with the key |
| TimeTravelWrites.HistoryRefinement | store/badger_time_traversal/setter.go:80-133 | after any history of batches, any flags and block numbers: one version per key and block at which something was accepted, with the value accepted last |
| TimeTravelWrites.ReadAfterHistory | store/badger_time_traversal/getter.go:14-64 | after any such history a read gives the value accepted last at the greatest block at or below the requested one |
| TimeTravelWrites.WriteOnce | store/badger_time_traversal/setter.go:85-104 | over if-not-exist histories each key has at most one version, from the first batch that contains it, and reads find it from its block on |
| TimeTravelWrites.RepeatedKeyTakesLast | store/badger_time_traversal/setter.go:89-125 | existence checks see the database before the batch, so of a repeated new key the last mention lands |
| Readers.LookUpVersion | store/badger_time_traversal/getter.go:33-65 | one worker's answer is the bounded forward seek's, for arbitrary keys |
| Readers.LookUpFirst | store/badger_time_traversal/getter.go:104-136 | one worker's answer is the reverse seek's between the bounds built in place |
| Readers.LookUpCell | store/badger/getter.go:32-64 | one worker's answer: the cell's value, NOT_FOUND if absent or stamped later, an error if too short to carry a stamp |
| Readers.Worker.Gather | store/badger_time_traversal/getter.go:16-84 | under every schedule of the workers the request ends with the lookup of each key at its position, or the error of a failing one |
| TimeTravelStore.Store.Get | store/badger_time_traversal/getter.go:16-84 | under every schedule the response is, position by position, the lookup of the requested key |
| TimeTravelStore.Store.GetFirst | store/badger_time_traversal/getter.go:87-155 | the same for oldest versions |
| TimeTravelStore.Store.Set | store/badger_time_traversal/setter.go:31-77 | a single write is a batch of one |
| TimeTravelStore.Store.SetAll | store/badger_time_traversal/setter.go:80-133 | the database becomes exactly the old one with the accepted part of the batch under its composite keys |
| LatestCells.CellParts | store/badger/setter.go:81-87 | stamp and value come back out of a cell |
| LatestCells.HistoryRefinement | store/badger/getter.go:33-63 | after any history of batches, any flags and block numbers, a read finds the standing write's value exactly from its block on |
| LatestStore.Store.Get | store/badger/getter.go:15-83 | under every schedule, position by position the lookup of the key, or the error of a failing one |
| LatestStore.Store.GetFirst | store/badger/getter.go:85-89 | the same as Get |
| LatestStore.Store.Set | store/badger/setter.go:12-52 | a single write is a batch of one |
| LatestStore.Store.SetAll | store/badger/setter.go:55-101 | the database becomes exactly the old one with the accepted cells put in |
| Backing.ReadExact | store/store.go:8-12 | over either store: a value found was stored for the key under a stamp at or below the block, and nothing found means nothing was |
| Backing.ReadAbove | store/store.go:8-12 | over either store all reads at or above the highest stamp agree |
| Backing.PutTop | store/store.go:8-12 | over either store a batch at or above the highest stamp updates exactly the accepted keys; if-not-exist accepts exactly the keys with no value |
| Backing.PutStores | store/store.go:8-12 | over either store a batch stores its own values under its own block and nothing else |
| Backing.ReadAtPut | store/store.go:8-12 | over either store a read at a batch's own block finds the batch's value if it was accepted, else what it found before |
| ForkAwareSpec.BatchAlignment | store/ForkAware/store.go:40-83 | an if-not-exist batch, with any repetitions, changes exactly the slots of keys neither cached nor found below, each to its last mention |
| ForkAwareSpec.BatchFailsExactly | store/ForkAware/store.go:40-74 | a batch fails if and only if it is if-not-exist over the store without versions and mentions an uncached key whose stored value is too short to carry its stamp |
| ForkAwareSpec.WriteThrough | store/ForkAware/store.go:85-100 | a batch at or below the flush point is found in the wrapped store at its own block, as far as that store accepts it; one above it leaves the wrapped store alone |
| ForkAwareSpec.FlushTransparency | store/ForkAware/store.go:144-173 | with all stamps at or below the flush point, reads of a key from there on stay the same unless the flush is if-not-exist and the key is already stored with another value, in which case they do not |
| ForkAwareSpec.FlushBelowTimeTravel | store/ForkAware/store.go:162 | over the time-travel store a flush changes a read below its block if and only if a slot answered it and the store below answers differently |
| ForkAwareSpec.FlushBelowLatest | store/ForkAware/store.go:162 | over the other store, for a key whose cell the flush replaces, only a read that found nothing stays; for the others the same rule |
| ForkAwareSpec.FlushHidesOldReads | store/ForkAware/store.go:162 | an input over the time-travel store on which a read below the flush point changes |
| ForkAware.Store.constructor | store/ForkAware/store.go:27-33 | an empty cache, flush point 0 |
| ForkAware.Store.SetAll | store/ForkAware/store.go:36-103 | fails exactly if the existence check does, changing nothing; otherwise exactly the accepted keys get slots, and are written through if the block is at or below the flush point |
| ForkAware.Store.Get | store/ForkAware/store.go:106-123 | position by position the slot if it is not later than the block, else the wrapped store's answer; an error exactly if the wrapped store has one |
| ForkAware.Store.GetFirst | store/ForkAware/store.go:126-141 | the same overlay over the wrapped store's GetFirst |
| ForkAware.Store.FlushUpToBlock | store/ForkAware/store.go:144-173 | exactly the slots at or below the block move to the wrapped store, stamped with the flush block, whatever order the map is walked in |
| ForkAware.Store.EvictUpToBlock | store/ForkAware/store.go:176-195 | exactly the slots at or above the block go |
| Sinker.Sinker.constructor | sink/sinker.go:29-48 | empty history; the head block is the loaded cursor's chain head, or 0 |
| Sinker.Sinker.PruneHistory | sink/sinker.go:99-103 | exactly the cursors above the irreversible block stay, if each is filed under its own id |
| Sinker.Sinker.HandleBlockScopedData | sink/sinker.go:50-109 | the whole new state: store, history, head block and cursor file; on a store error only the history has changed; if the cursor cannot be saved the writes and the flush have landed and nothing after them |
| Sinker.Sinker.HandleBlockUndoSignal | sink/sinker.go:111-129 | eviction at the last valid block, new head block, history untouched; the cursor saved, or left as it was if that fails |
| Sinker.RestartProcess | cmd/foundational-store/server.go:123-158 | a new process finds the database and the cursor file, and nothing else |
| KeyView.SetAllSound | store/ForkAware/store.go:36-103 | above the flush point a batch never fails and keeps the bounds on stamps and slots |
| KeyView.SetAllProjects | store/ForkAware/store.go:36-103 | seen through one key a batch is a slot write, refused in if-not-exist mode if the key has a slot or a stored value |
| KeyView.FlushProjects | store/ForkAware/store.go:144-173 | seen through one key a flush turns a slot at or below it into the stored value, unless if-not-exist finds one there |
| ForkRuns.StepKeeps | sink/sinker.go:50-129 | every legal event keeps the bounds on stamps and slots and the shape of the surviving chain |
| IfNotExistRuns.ForkRefinement | store/ForkAware/store.go:36-195 | after every legal if-not-exist run of blocks, undos and restarts, over either store, a read at or above the flush point is the first write of the key among surviving blocks at or below the block asked, or NOT_FOUND |
| IfNotExistRuns.RequestRefinement | store/ForkAware/store.go:105-123 | the same for whole requests: no error, one such answer per position |
| IfNotExistRuns.UndoKeepsValidChain | sink/sinker.go:111-117 | after an undo to n, reads agree with the blocks up to and including n if and only if the key's first write is not an unflushed write of block n |
| IfNotExistRuns.UndoDropsTipWrite | sink/sinker.go:111-117 | a legal run over either store on which an undo to block 5 loses block 5's own write |
| StampedReads.ReadsAtEveryBlock | store/ForkAware/store.go:144-173 | after every legal if-not-exist run, at every block: the key's first surviving write is found exactly from the first flush point at or above it, or from its own block while unflushed |
| ValidChainRuns.ValidChainRefinement | sink/sinker.go:111-117 | over whole runs without restarts: reads at or above the flush point are the first write in the valid chain (undos keep their target block) for every key that was never at the tip, unflushed, of an undo |
| OverwriteRuns.OverwriteCorrect | store/ForkAware/store.go:76-83 | after every legal overwrite run, reads at the head give the last surviving write of every key no undo or restart was unsafe for |
| OverwriteRuns.BlocksAreSafe | store/ForkAware/store.go:76-83 | without undos and restarts that is every key |
| OverwriteRuns.UndoExact | store/ForkAware/store.go:176-195 | after one undo, the last surviving write is read if and only if the evicted slot had not replaced an unflushed survivor, or the stored value happens to be equal |
| OverwriteRuns.ReplacedWriteIsLost | store/ForkAware/store.go:79-82 | a legal run over either store on which an undo loses a surviving write |
| MixedRuns.MixedExact | store/ForkAware/store.go:144-173 | after every legal run of blocks with any flags, a read at the head is the standing write if and only if no if-not-exist output's flush met a slot over another stored value without an overwrite of the key since |
| MixedRuns.OverwriteIsLost | store/ForkAware/store.go:144-173 | such a run over either store: an if-not-exist output drops an acknowledged overwrite |
| Provenance.NoReadFromFuture | store/ForkAware/store.go:87-170 | under any sequence of batches, flushes, evictions and restarts with any flags and numbers, over either store, a value read at b was written for the key at a block at or below b |
| Provenance.OrphanSafety | sink/sinker.go:111-117 | after any legal run, any flags, every slot, stored value and answer was written by a surviving block |
| Provenance.UndoLeavesNothingAbove | sink/sinker.go:111-117 | right after an undo to n no surviving write is above n |
| CursorHistory.HistoryInvariant | sink/sinker.go:52-103 | the history is exactly the latest cursors handled since start with a number above the irreversible block |
| CursorHistory.SavedCursor | sink/sinker.go:89-97 | the saved cursor is the irreversible block's own if and only if that is the current block or was handled since start with a number above the previous irreversible block; else it is the current one |
| CursorHistory.SettledIsFlushPoint | store/ForkAware/store.go:149-150 | without restarts the bound used by the run theorems is the cache's flush point |
| CrashRecovery.BootsAgain | cmd/foundational-store/server.go:123-158 | after any legal run in one mode, with undos and earlier restarts, the next process starts in a state the recovery theorems apply to |
| CrashRecovery.RecoveryExact | sink/sinker.go:79-97 | for a process that has handled blocks only, in one mode, started after any legal earlier run: restart and replay from the saved cursor rebuild cache and store if and only if no slot was written at or below the saved cursor's block |
| CrashRecovery.RecoveryExactReads | sink/sinker.go:79-97 | in either mode every read of every key at every block is the same again if and only if every slot at or below the saved block holds the value already stored for its key |
| CrashRecovery.RecoveryAtLib | sink/sinker.go:79-97 | for the same processes every read is as before if the last block carried output and its irreversible block's cursor was at hand |
| CrashRecovery.FreshStartLosesWrites | sink/sinker.go:89-97 | a legal run over either store on which a crash loses an acknowledged write |
| MidBlockCrash.BootsOnceAgain | cmd/foundational-store/server.go:123-158 | after any legal if-not-exist run the next process starts in a state the theorem below applies to |
| MidBlockCrash.MidCrashExact | sink/sinker.go:79-97 | if-not-exist mode, a crash after a block's flush and before its cursor is saved: the replay from the cursor before, over blocks already flushed, gives every read the answer of the uninterrupted run if and only if no slot of that run lies at or below the saved block |
| CursorFile.FileIsSaved | sink/sinker.go:94-124 | after any legal run, restarts included, the cursor file holds what the last block or undo signal saved, or what was there at the start |
| CursorFile.SavedExact | sink/sinker.go:89-97 | a block saves the irreversible block's own cursor, as last handled, if its process has that at hand, and its own otherwise |
| CursorFile.RestartsSettle | cmd/foundational-store/server.go:125-154 | restarts in a row leave the state of the first and resume after the same block |
| CursorFile.RecoveryAfterRestarts | cmd/foundational-store/server.go:125-154 | the recovery theorems for any number of restarts before the replay, which starts after the block the last process finds in the file |
| FirstReads.FirstGathers | store/badger_time_traversal/getter.go:86-155 | a store's GetFirst over known keys has no error and gives, position by position, the value under the key's least stamp (the time-travel store whatever block is asked, the other one if that is not later), or NOT_FOUND if there is none |
| FirstReads.FirstResponds | store/ForkAware/store.go:126-141 | the cache's GetFirst gives, position by position, a slot not later than the block, else that oldest value |
| FirstReads.FirstAtEveryBlock | store/ForkAware/store.go:126-141 | after every legal if-not-exist run, at every block: the first surviving write, over the time-travel store from any block once it is flushed |
| FirstReads.FirstRefinement | store/ForkAware/store.go:126-141 | at or above the flush point: no error, and the first write among surviving blocks at or below the block asked, at every position |
| FirstReads.FirstAfterBlocks | store/ForkAware/store.go:126-141 | after legal blocks with any flags: the standing write of a key if it is unflushed and not later than the block asked, else its oldest stored value |
| FirstReads.FirstAfterOverwrites | store/ForkAware/store.go:126-141 | the same after any legal overwrite run for the keys it is safe for |
| FirstReads.FirstStored | store/badger_time_traversal/setter.go:80-133 | the block that first stores a key stores its standing write, as its oldest value |
| FirstReads.OldestStays | store/badger_time_traversal/setter.go:80-133 | over the time-travel store no legal run ever changes which value of a key is the oldest |
| FirstReads.FirstIsNotLatest | store/badger_time_traversal/getter.go:86-135 | a legal run after which GetFirst answers the first of two flushed overwrites and Get the second |
| ServiceReads.GateAfterRestart | grpc/server.go:83-86 | what the head gate lets through after a restart is answered as before if and only if every slot it reaches holds the value already stored |
| ServiceReads.GateOpensTooEarly | sink/sinker.go:34-37 | a legal run over either store after whose restart the gate lets a request about a block not yet replayed through, to a missing answer |
| ServiceReads.GetFirstExact | proto/sf/substreams/foundational-store/service/v2/service.proto:18-20 | over either store the answer is the definition's (least key at or after the requested one that is there at the block) if and only if the requested key is there, or the store has nothing to answer with and no later key is there |
| ServiceReads.GetFirstStopsAtKey | store/badger_time_traversal/getter.go:104-136 | an input on which it is not |
| GrpcServer.Server.Get | grpc/server.go:75-113 | a request past the sinker's head block gets block_reached false; any other the store's response |
| GrpcServer.Server.GetFirst | grpc/server.go:116-142 | the same over GetFirst |
| GrpcServer.GateExact | sink/sinker.go:105-129 | after any legal run the gate is open exactly up to the last handled block, or an undo's last valid block, or after restarts the chain's head in the cursor saved last |
| GrpcServer.GateAfterRestarts | sink/sinker.go:34-37 | restarting again leaves the gate where the first restart put it |
| GrpcServer.ServedGet | grpc/server.go:75-113 | after every legal if-not-exist run clients asking past the head are turned away, and those asking at or above the flush point are told the first surviving writes |
| GrpcServer.ServedGetFirst | grpc/server.go:116-142 | the same for GetFirst |
| GrpcServer.FailedBlockLeavesNoTrace | sink/sinker.go:79-81 | a block whose batch fails changes no answer, no gate and nothing a restart finds |
| GrpcServer.UnsavedBlockKeepsPlace | sink/sinker.go:94-97 | a block whose cursor is not saved moves neither the gate nor the place to resume from |

## Left out

- Badger's internals, and input/output errors of the database and the cursor file: the database is an ordered map, a batch lands at once (the real batch can split a very large one), and the only error kept is a stored value too short for its stamp.
- Snapshots of concurrent readers: a request's workers all see one database state, since the cache's lock keeps writers out.
- The Postgres stores: only the text of their latest-version query is used, as a reference.
- The gRPC transport, authentication, the command line, the store-manager ping and logging; of the query service only the head gate and the pass to the store are modelled.
- The legacy service adapter and the readiness flag of the remote-feed store.
- Protobuf encoding and type URLs: entries are key bytes and value bytes, an answer is a code, a key and value bytes.
- A cache slot's own copy of its key: it always equals the key the slot is filed under.
- Cursor strings and the cursor file's format: the file is one durable variable that a save replaces whole or not at all.
- DSN parsing and base58 helpers.
- Sinker.Sinker.PruneHistory: if some cursor is filed under another block's id, only what may remain is stated, because the outcome then depends on the order the map is walked in.
- OverwriteRuns.OverwriteCorrect: over whole runs the condition is sufficient only, because equal values can hide a lost write; for a single undo UndoExact is exact.
- ValidChainRuns.ValidChainRefinement: over whole runs the condition is sufficient only, because a later block can write the same value again; for a single undo UndoKeepsValidChain is exact.
- CrashRecovery.RecoveryExact: the crashing process itself has handled no undo (earlier ones may have); after an undo the cursor file holds the undo's own cursor, unflushed writes below it are lost, and what remains is the restart of the run theorems.
- MidBlockCrash.MidCrashExact: if-not-exist mode only, and not for the first block of a process; a crash before the flush lands leaves what RecoveryExact starts from.
- MixedRuns.MixedExact: blocks only; for undos and restarts in runs that mix the flags only provenance (NoReadFromFuture, OrphanSafety) is proved.
- ServiceReads.GetFirstExact: speaks of the wrapped stores, not of slots laid over them.
