# MEGALON in Dafny

MEGALON keeps objects coherent across hosts that share CXL memory which the hardware keeps only
partly coherent. This project models the parts of it whose correctness does not show from any one
function, and proves what they promise:

- **The dynamic seqlock and the coherence protocol on it.** A 32-bit word packs a free bit, a lock bit
  and a sequence count. Readers, writers and flushers use it, together with a per-node table of the last
  sequence seen and explicit cache flushes, so that reads of non-coherent memory are up to date.
- **The life of coherence records.** A record is reserved locked, published in the directory, written
  through, locked again, detached and freed, by any number of threads at once.
- **The global cache directory**, which exists as a replicated state machine with sentinel answers and as
  a plain concurrent map.
- **The structures under it**: the LRU list, the record table and its reclaim scan, the slot bitmap, the
  file page loops and the cache-line flush.

Protocols are step systems: a state, the program counter of every thread or node, and one action per
atomic access. `Run` is any finite interleaving of any number of threads, and the theorems hold in every
state of every run; beside them stand lemmas that an operation left to itself completes, each naming the
whole state it ends in. Structures that the source updates in place are classes with loops, proved against
functions or ghost sequences. `dafny verify dfyconfig.toml` checks everything.

The modelled builds have `DYN_WMETA`, `NR` and `SCR`, `C3_RWLOCK == 0` and no `PARTITIONED_NODE`.

## Files

| file | content |
|---|---|
| BitMasks, SeqlockWord, SeqlockRuns | bitwise masks; the seqlock word, packed and by field; all runs of its operations |
| CoherenceProtocol, CoherenceSafety, CoherenceAlone, CoherenceProgress, CoherenceLimits | slot reads and writes over private caches; their invariant; one node alone; reads and writes complete; exactly when reads are coherent |
| RecordLifecycle, RecordAgreement, RecordProgress | concurrent life of records; agreement with the directory; every operation completes |
| FlushProtocol | writers and the disk flusher |
| NrDirectory, NrInvariants, NrHandlers | the replicated directory for any number of nodes; what every run of operations keeps; its handlers in place |
| PlainDirectory, DirectorySimulation | the plain directory; the simulation between the two |
| LruList, LruPolicy | pointer chains; the LRU policy object |
| RecordTable, RecordReclaim | reserving and recycling records; the reclaim scan |
| SlotBitmap, SlotBitmapRuns | the free-slot bitmap alone; threads sharing the bitmaps |
| FilePages, CacheFlush | page-splitting reads and writes; flushing an address range |
| Common | optional values, counting, scans that wrap around |

## Where the code does not do what it seems to promise

Each of these is proved, with the exact condition under which the promise does hold.

- Reads are coherent if and only if there is at most one node or all writes cover the same lines
  (`CoherentExactlyForOneRange`). With two nodes, a write of fewer lines leaves stale lines cached in the
  writer while it takes over the new sequence number.
- For a read that began on an allocated record, the retry check tells whether the read was undisturbed,
  exactly unless the record was reallocated, or sections completed, and a multiple of 2^29 separates the
  section counts (`RetryMisleadsExactly`). A reallocation restarts the count, so that does happen
  (`ReallocationFoolsRetry`).
- The reclaim scan moves its start index and its loop counter past each record it frees, so it skips
  records: it frees all it could on every table if and only if it is asked for at most one record or there
  is only one (`MeetsRequestExactly`).
- The comment at src/core/scr_bitmap.h:42 says that the dirty count cannot underflow. It does not drift,
  but it is below zero (and wraps) for a moment when one thread clears a bit before the thread that set it
  has counted; it stays at zero or above in every run if and only if there is at most one thread or no slot
  (`DirtyCountNeverNegativeExactly`).
- Recycling a record or a slot that is already free counts it down again (`RecycleWmeta`,
  `RecycleCacheNode`: the counter stays right if and only if it was not free; `RecycleTwice` and
  `RecycleSlotTwice` do it).
- The two directories answer a call alike if and only if it does not evict a valid local copy beside a
  record, does not succeed for the null key, and is not one they report apart: admission of a local copy
  that is there, removal of an entry without a record, clearing a copy that is not the last, attaching a
  record where there is one (`CallSimulates`; each case is reached in a lemma `...Differs`).
- A record can end up beside a valid local copy. An operation leaves that so if and only if it fails a
  check that its caller can make (`KeepsExclusiveExactly`); attaching a record at admission, creating a
  key by a local copy with a record, and swapping a local copy in all do it (`LateAttachBreaks`,
  `CreationBreaks`, `SwapBreaks`).
- The dirty test masks with a 32-bit shift: at offset 31 it answers for bits 31 to 63
  (`TestBitExactly`, `TestBitMisreads`).
- Flushing an empty range that starts inside a line flushes that line (`Flush`).

## Model

| member | source | states |
|---|---|---|
| SeqlockWord.PackIsBijective | src/core/seqcount.h:75-90 | the three fields and the packed 32-bit word determine each other |
| SeqlockWord.MaskTestsAgree | src/core/seqcount.cc:37-43 | masking with the free bit, the lock bit and one reads exactly the free field, the lock field and the parity of the count |
| SeqlockWord.MaskSectionsAgree | src/core/seqcount.cc:32-196 | begin, end and unlock, as masks on the packed word, give the packed form of what they do to the fields: no carry leaves the count |
| SeqlockWord.MaskFreeAgrees | src/core/seqcount.cc:203-216 | freeing, as masks, gives the free word with the count rounded up to even |
| SeqlockWord.MaskFreeLockedAgrees | src/core/seqcount.cc:236-249 | freeing under the lock gives the same word with the lock bit cleared |
| SeqlockWord.MaskAllocateAgrees | src/core/seqcount.cc:268-280 | allocation, as masks, gives the allocated word with the count restarted, locked and odd if asked for |
| SeqlockWord.MaskRetryAgrees | src/core/seqcount.cc:330-346 | the masked retry test is the test on the fields |
| SeqlockWord.MaskLockAgrees | src/core/seqcount.cc:150-183 | setting the lock bit of the packed word sets only that field |
| SeqlockWord.CountsMatch | src/core/seqcount.cc:330-346 | two even counts are equal exactly when the sections between them are a multiple of 2^29; an odd count never matches |
| SeqlockRuns.WordTellsSections | src/core/seqcount.cc:32-301 | in every run: at most one holder; locked and odd exactly for an open write section, locked and even exactly for a lock-only section; free implies unlocked, unlocked implies even |
| SeqlockRuns.ReleasesNeverOverwrite | src/core/seqcount.cc:106-114 | the word a release loaded is still the word when it stores, so plain stores overwrite nobody's update |
| SeqlockRuns.CountAfterSections | src/core/seqcount.cc:32-114 | after k write sections since allocation the count is 2k mod 2^30, plus one while a section is open, whatever lock-only sections interleave |
| SeqlockRuns.EndReturnsZeroOnWrap | src/core/seqcount.cc:106-114 | the end of a section returns 0 exactly when the number of sections is a multiple of 2^29 |
| SeqlockRuns.RetryExact | src/core/seqcount.cc:309-352 | the retry check passes exactly when the record is not free, no write section is open and the section counts differ by a multiple of 2^29, also across reallocations if the record was allocated at the start |
| SeqlockRuns.RetrySoundAndComplete | src/core/seqcount.cc:309-352 | with fewer than 2^29 sections in between, it passes exactly when no write section was open at any moment in between and the record stayed allocated |
| SeqlockRuns.RetryMisleadsExactly | src/core/seqcount.cc:309-352 | for a read that began on an allocated record, acceptance is equivalent to an undisturbed window exactly unless no write is open on an allocated record at the end, the section counts differ by a multiple of 2^29, and the record was reallocated or sections completed |
| SeqlockRuns.RetryFromFreeExactly | src/core/seqcount.cc:309-352 | a read that began on a free record was never undisturbed, and is accepted exactly when the record is allocated again, no write is open and its sections bring the count back |
| SeqlockRuns.ReallocationFoolsRetry | src/core/seqcount.cc:264-280 | a run in which the record is freed and reallocated and the check passes over an open write section |
| SeqlockRuns.UnlockedOperationsSucceed | src/core/seqcount.cc:32-216 | on an allocated, unlocked record that no one changes meanwhile, begin, lock and free succeed at the first attempt, with their whole resulting state |
| SeqlockRuns.AllocationSucceeds | src/core/seqcount.cc:264-280 | a free record is allocated at the first attempt, into an open write section exactly if the lock is asked for |
| SeqlockRuns.SectionHolderSucceeds | src/core/seqcount.cc:106-249 | the holder of a write section ends it, or frees the record, at the first attempt |
| SeqlockRuns.LockHolderSucceeds | src/core/seqcount.cc:187-249 | so does the holder of a lock-only section |
| SeqlockRuns.SectionsComplete | src/core/seqcount.cc:32-196 | a whole write section moves the count on by two and is one more section; a whole lock-only section leaves the state as it was |
| SeqlockRuns.LostSwapsChangeNothing | src/core/seqcount.cc:32-280 | a compare-and-swap that meets a changed word changes nothing, and its thread is where it was before the load |
| CoherenceSafety.RunKeepsInv | src/core/c3.cc:363-519 | the protocol invariant (caches, remembered sequence numbers, sections, memory) holds in every state of every run whose writes cover one range |
| CoherenceSafety.IdleNodesCacheCommittedLines | src/core/c3.cc:363-519 | an idle node caches a line only if it remembers a sequence number, and then the line has the value committed at that number |
| CoherenceSafety.AcceptedReadsAreCoherent | src/core/c3.cc:400-519 | a read that passes the end check has copied exactly the contents of the last completed write, with no writer inside |
| CoherenceProgress.ReadCompletes | src/core/c3.cc:363-519 | from every reachable state in which the record is allocated and no write is open, an idle node's own steps reach an accepted read of any lines, whatever it remembers and caches; if all writes cover one range, the read returns the last write |
| CoherenceProgress.WriteCompletes | src/core/c3.cc:577-671 | likewise an idle node's own steps complete a write of any data: it is committed over the last write, the count moves on by two, and the node remembers it |
| CoherenceProgress.RejectedReadStartsOver | src/core/c3.cc:400-519 | a read that fails the end check leaves its node idle, with nothing of the slot cached and nothing remembered |
| CoherenceProgress.NotifiedReadStartsOver | src/core/c3.cc:400-430 | a read whose notification fails leaves its node idle, with nothing of the slot cached and remembering what it did |
| CoherenceProgress.LockOnlyLeavesNoTrace | src/core/seqcount.cc:150-196 | a lock-only section of a reclaimer or flusher leaves the state of the protocol as it was |
| CoherenceLimits.StaleRead | lib/shm_obj_handle.cc:1049-1131 | for any two different write ranges and two nodes there is a run in which an accepted read returns an old line |
| CoherenceAlone.RunKeepsInv | src/core/c3.cc:363-671 | a node alone sees in every state of every run what it last wrote, through its cache or in memory, whatever ranges it writes |
| CoherenceAlone.ReadsAreCoherentAlone | src/core/c3.cc:400-519 | so every read that it completes is coherent |
| CoherenceLimits.CoherentExactlyForOneRange | src/core/c3.cc:577-671 | every accepted read of every run is coherent if and only if there is at most one node or all write ranges are the same |
| RecordAgreement.RunKeepsInv | lib/shm_obj_handle.cc:514-682 | the agreement invariant holds in every state of every run of creating, switching, writing and reclaiming threads |
| RecordAgreement.DirectoryAndRecordsAgree | lib/shm_obj_handle.cc:626-682 | a record that a key names is not free and carries that key; no two keys name one record; every allocated unlocked record is named by its own key |
| RecordAgreement.ReclaimerGetsItsRecord | src/manager/wmeta_manager.cc:76-98 | a reclaimer's detach returns the very record it locked, and no key names that record afterwards; the unlock branch is never reached |
| RecordAgreement.WriterHoldsNamedRecord | src/core/c3.cc:577-671 | a writer past its start check exclusively holds the record its key names, and no other thread writes that key |
| RecordAgreement.CountTellsSections | src/core/c3.cc:577-671 | in every run the count of a held record is odd exactly while its holder is inside a write section, and the count of a record nobody holds is even |
| RecordAgreement.CreationNeverRaces | lib/shm_obj_handle.cc:514-620 | with one creator per key, creation never meets an existing entry |
| RecordAgreement.CounterCountsNonFree | src/core/write_meta.cc:141-188 | the allocated counter, plus increments and minus decrements still to come, is the number of records that are not free, in every run |
| RecordProgress.AttachCompletes | lib/shm_obj_handle.cc:514-682 | a thread that waits for a record and finds one free reserves it, publishes it under its key, unlocks it and counts it; nothing else changes |
| RecordProgress.RefusedSwitchCompletes | lib/shm_obj_handle.cc:626-682 | a switch that the directory refuses gives its record back; neither directory nor counter has changed |
| RecordProgress.ReadOnlyCreationCompletes | lib/shm_obj_handle.cc:514-620 | a creation in read-only mode adds an entry without a record and nothing else |
| RecordProgress.WriteCompletes | src/core/c3.cc:577-671 | a write through the record its key names moves that record's count on by two and changes nothing else |
| RecordProgress.FailedWriteCompletes | src/core/c3.cc:577-671 | a writer whose key changed while it waited leaves the record unlocked, one section later |
| RecordProgress.ReclaimCompletes | src/manager/wmeta_manager.cc:76-98 | reclaiming an allocated, unlocked record makes its key read-only, frees the record with its count kept, counts it down and returns the thread to what it was doing |
| RecordProgress.KeptVictimIsUnlocked | src/manager/wmeta_manager.cc:88-98 | the unlock branch, which no run reaches, would leave the record as it was found |
| FlushProtocol.RunKeepsInv | src/manager/flush_manager.cc:61-142 | the flush invariant holds in every state of every run |
| FlushProtocol.FlushCompletes | src/manager/flush_manager.cc:61-142 | from every state with a dirty slot, no write open and the flusher waiting, the flusher's own steps put the page on disk and clear the dirty bit; page and word are as before and the flusher waits again |
| FlushProtocol.SectionStores | lib/shm_obj_handle.cc:930-950 | in every run, while a write section is open and so when it ends, the page is the page at its start with the stores of its writer applied in order |
| FlushProtocol.WriteCompletes | lib/shm_obj_handle.cc:930-950 | a writer's own steps store any sequence of values; the page has exactly those stores, the slot is dirty and the disk is as before |
| FlushProtocol.AbortedWriteStoresNothing | lib/shm_obj_handle.cc:930-938 | a write given up at its start leaves page, disk and dirty bit as they were, one section later |
| FlushProtocol.DisturbedCopyIsDropped | src/manager/flush_manager.cc:112-118 | a copy that a write has disturbed is dropped and nothing else changes |
| FlushProtocol.DisturbedFlushKeepsDirty | src/manager/flush_manager.cc:124-134 | a write between the copy and the second check leaves the slot dirty and the record unlocked as it was |
| FlushProtocol.CleanMeansOnDisk | src/manager/flush_manager.cc:61-142 | whenever the dirty bit is clear and no write section is open, the disk block equals the page |
| FlushProtocol.ClearsOnlyWhatItWrote | src/core/c3.cc:521-574 | when the flusher is about to clear the dirty bit, disk and page are equal and no writer is inside |
| NrHandlers.InvalidateLoop | third-party/nr_rust/ffi/ffi_nr_hashmap.rs:370-376 | the loop marks exactly the present copies other than the given one |
| NrHandlers.AllAbsent | third-party/nr_rust/ffi/ffi_nr_hashmap.rs:469-472 | the loop answers whether no copy is present |
| NrHandlers.NrHashMap.ClearCopy | third-party/nr_rust/ffi/ffi_nr_hashmap.rs:465-472 | clears one copy, returns what it was and drops the entry exactly when none is left |
| NrHandlers.NrHashMap.SwitchToRW | third-party/nr_rust/ffi/ffi_nr_hashmap.rs:370-391 | the in-place switch to RW mode is the specified operation, never panics, and keeps the directory invariant exactly under its check, which the CXL slot always passes |
| NrHandlers.NrHashMap.CheckPut | third-party/nr_rust/ffi/ffi_nr_hashmap.rs:250-303 | from a valid directory an admission panics exactly for a missing local copy of an entry with a record, keeps the copy invariant, and keeps the whole invariant exactly unless it brings a record to an entry with a valid local copy |
| NrHandlers.NrHashMap.CheckSwitch | third-party/nr_rust/ffi/ffi_nr_hashmap.rs:304-328 | attaching or detaching never panics, and keeps the invariant exactly when it detaches or there is no valid local copy |
| NrHandlers.NrHashMap.DeleteIf | third-party/nr_rust/ffi/ffi_nr_hashmap.rs:432-480 | from a valid directory an eviction never panics and keeps the invariant; it is the specified operation from any directory, its panic included |
| NrInvariants.StepKeepsCopies | third-party/nr_rust/ffi/ffi_nr_hashmap.rs:186-480 | every array operation keeps: an invalidated copy is present and every entry has a copy |
| NrInvariants.RunKeepsCopies | third-party/nr_rust/ffi/ffi_nr_hashmap.rs:186-480 | so does every run |
| NrInvariants.NeverPutsIntoInvalidated | third-party/nr_rust/ffi/ffi_nr_hashmap.rs:250-303 | after any run the "put into an invalidated entry" panic is unreachable |
| NrInvariants.PutMeans | third-party/nr_rust/ffi/ffi_nr_hashmap.rs:186-249 | a put makes its copy present and valid, leaves every other copy, and sets the record exactly if it brings one |
| NrInvariants.CheckPutMeans | third-party/nr_rust/ffi/ffi_nr_hashmap.rs:206-227 | a checked put is the put if the copy is missing; otherwise it changes nothing and answers nothing |
| NrInvariants.SwapMeans | third-party/nr_rust/ffi/ffi_nr_hashmap.rs:329-351 | a swap clears the one copy and fills the other if that is empty; record and other copies stay |
| NrInvariants.InvalidationMeans | third-party/nr_rust/ffi/ffi_nr_hashmap.rs:352-391 | an invalidation leaves no valid copy where it applies, every other copy as it was, and no record replaced |
| NrInvariants.AnswersMean | third-party/nr_rust/ffi/ffi_nr_hashmap.rs:186-527 | an answer to a key other than the null key tells the entry as it now is, the copy that was cleared, or the record that was detached or removed |
| NrInvariants.KeepsExclusiveExactly | third-party/nr_rust/ffi/ffi_nr_hashmap.rs:186-480 | for every operation, a check the caller can make beforehand decides exactly whether it leaves every entry with a record without a valid local copy |
| NrInvariants.RunKeepsExclusive | third-party/nr_rust/ffi/ffi_nr_hashmap.rs:186-480 | runs whose operations pass the check keep records exclusive |
| NrInvariants.RunExclusiveExactly | third-party/nr_rust/ffi/ffi_nr_hashmap.rs:186-480 | over a whole run, records are exclusive in every state exactly when every operation passes the check |
| NrInvariants.NoValidCopyBesideRecord | third-party/nr_rust/ffi/ffi_nr_hashmap.rs:432-480 | after such a run from the empty directory an entry with a record has no valid local copy, so the eviction panic is unreachable |
| NrInvariants.LateAttachBreaks | third-party/nr_rust/ffi/ffi_nr_hashmap.rs:250-303 | from the empty directory, admitting a local copy and then a CXL copy with a record leaves a valid local copy beside the record |
| NrInvariants.CreationBreaks | third-party/nr_rust/ffi/ffi_nr_hashmap.rs:228-249 | creating a key by a local copy that comes with a record leaves the copy valid beside it |
| NrInvariants.SwapBreaks | third-party/nr_rust/ffi/ffi_nr_hashmap.rs:329-351 | creating a key with a record and swapping a local copy in leaves the copy valid beside it |
| NrInvariants.KeepsRecordExactly | third-party/nr_rust/ffi/ffi_nr_hashmap.rs:186-527 | the operations after which a key still has its record are exactly those that do not detach or replace it and do not remove the entry or its last copy |
| NrInvariants.OnlyFirstSwitchSucceeds | third-party/nr_rust/ffi/ffi_nr_hashmap.rs:370-391 | of RW switches of a key between which every operation keeps the record, the first succeeds and every later one is refused and keeps the first one's record |
| PlainDirectory.GlobalCacheDirectory.CheckAndInsertEntry | src/index/gcd.cc:173-213 | from a valid directory an admission throws exactly for a missing local copy of an entry with a record, and keeps the invariant exactly unless it brings a record to an entry with a valid local copy |
| PlainDirectory.GlobalCacheDirectory.SwitchToRW | src/index/gcd.cc:240-260 | the in-place switch to RW mode, with its loop, is the specified operation and keeps the invariant |
| PlainDirectory.GlobalCacheDirectory.DeleteCopy | src/index/gcd.cc:124-154 | the in-place eviction, with its loop, is the specified operation and keeps the invariant |
| DirectorySimulation.CallSimulates | src/index/gcd_nr.cc:90-209 | for every call of the shared interface and every key, the decoded answers on related directories are the same exactly unless the call evicts a valid local copy beside a record, succeeds for the null key, or is one of four cases reported apart; only such an eviction leaves unrelated directories |
| DirectorySimulation.RunSimulates | src/index/gcd.cc:80-260 | a run of calls gives the same answers throughout exactly when each of its calls does, and then ends in related directories |
| DirectorySimulation.AbortsExactly | src/index/gcd_nr.cc:176-181 | from a directory in order, a call aborts exactly when it admits a local copy beside a record |
| DirectorySimulation.DisciplinedRunSimulates | src/index/gcd_nr.cc:90-209 | from the empty directory, a run that keeps records and local copies apart never aborts and ends in related directories, and the answers are the same exactly when no call is misread or reported apart |
| DirectorySimulation.DetachReturnsRecord | src/index/gcd_nr.cc:183-188 | the replicated detach returns exactly the record the entry had |
| DirectorySimulation.AdmissionDiffers | src/index/gcd.cc:173-213 | from the empty directory, admitting the same local copy twice is answered differently |
| DirectorySimulation.NullKeyDiffers | third-party/nr_rust/ffi/ffi_nr_hashmap.rs:845-876 | on the empty directory an admission of the null key is answered differently |
| DirectorySimulation.EvictionDiffers | third-party/nr_rust/ffi/ffi_nr_hashmap.rs:432-480 | from the empty directory, inserting a local copy, admitting the CXL copy with a record and evicting the local copy aborts on one directory only |
| DirectorySimulation.DeleteDiffers | src/index/gcd.cc:92-101 | from the empty directory, inserting a key and removing it is answered differently |
| DirectorySimulation.DeleteLocalDiffers | src/index/gcd.cc:103-115 | from the empty directory, inserting a copy and clearing another is answered differently |
| DirectorySimulation.AttachDiffers | src/index/gcd.cc:231-238 | from the empty directory, attaching a record to a key that was created with one is answered differently |
| LruList.ReserveKeepsLinks | src/core/lru_policy.cc:219-238 | unlinking the first free node leaves both chains well linked and the node in neither |
| LruList.RecycleKeepsLinks | src/core/lru_policy.cc:268-274 | pushing a reserved node on the free list leaves both chains well linked |
| LruList.UnlinkKeepsLinks | src/core/lru_policy.cc:95-113 | the pointer updates of an eviction remove exactly that node from the active chain |
| LruList.AppendKeepsLinks | src/core/lru_policy.cc:165-175 | the pointer updates of an insertion append the node to the active chain |
| LruList.MoveKeepsLinks | src/core/lru_policy.cc:193-214 | the pointer updates of a touch move the node to the end of the active chain |
| LruList.Pigeonhole | src/core/lru_policy.cc:139-156 | a node outside a chain leaves the chain shorter than the pool |
| LruList.PrevUndoesNext | src/core/lru_policy.cc:241-250 | next and previous undo each other, also across the ends |
| LruList.WalkMeetsEveryNodeOnce | src/core/lru_policy.cc:241-244 | stepping forward from the head meets the nodes of the list once each, in order, before wrapping |
| LruCachePolicy.LruPolicy.constructor | src/core/lru_policy.cc:12-62 | after the initialisation loop every node is free, in pool order |
| LruCachePolicy.LruPolicy.ReserveCacheNode | src/core/lru_policy.cc:219-238 | takes the first free node, or none exactly when none is free |
| LruCachePolicy.LruPolicy.RecycleCacheNodeLocked | src/core/lru_policy.cc:268-274 | a reserved node becomes the first free one |
| LruCachePolicy.LruPolicy.Insert | src/core/lru_policy.cc:139-183 | a reserved node is appended as the most recent; there is always room, so the wait is never entered |
| LruCachePolicy.LruPolicy.EvictLocked | src/core/lru_policy.cc:95-124 | the node is removed, the order of the others is kept, and the node is reserved |
| LruCachePolicy.LruPolicy.TouchLocked | src/core/lru_policy.cc:193-217 | a listed node becomes the most recent and the others keep their order; a reserved node is left alone |
| LruCachePolicy.LruPolicy.NextCacheNodeLocked | src/core/lru_policy.cc:241-244 | a step from a listed node stays in the list and is the step that the walk around the list is made of |
| LruCachePolicy.LruPolicy.PrevCacheNodeLocked | src/core/lru_policy.cc:247-250 | a step back from a listed node stays in the list and is the step that undoes the forward one |
| LruCachePolicy.LruPolicy.HeadIsLeastRecent | src/core/lru_policy.cc:139-217 | the head was inserted or touched before every other node, the tail after |
| LruCachePolicy.LruPolicy.PoolIsConserved | src/core/lru_policy.cc:12-22 | listed, free and reserved nodes partition the pool, and the two counts are the list lengths |
| Common.ScanPosition | src/core/write_meta.cc:159-160 | step i of a scan from any start looks at index j exactly when j is i places after the start, so a scan looks at every index once |
| RecordTable.CrowdedExactly | src/core/write_meta.cc:156 | the guard refuses exactly when more than 95 of 100 records are counted |
| RecordTable.SharedMetadata.CheckReserveWmeta | src/core/write_meta.cc:141-171 | without a hint it gives nothing if more than 95% are counted; otherwise it gives nothing exactly when every record is in use or locked; it takes the free, unlocked record nearest after the start, changes no other, and the counter stays the number of records in use |
| RecordTable.SharedMetadata.RecycleWmeta | src/core/write_meta.cc:173-188 | frees the record and counts it down; refuses exactly a record that is neither free nor locked; the counter stays right exactly when the record was not free |
| RecordTable.RecycleTwice | src/core/write_meta.cc:173-188 | reserving a record and recycling it twice leaves the counter one below the number of records in use |
| RecordTable.ReserveAgain | src/core/write_meta.cc:141-188 | a record that was reserved and recycled, whatever its count was, is the one reserved next when its index is the start |
| RecordReclaim.DetachIsSwitchOperation | src/index/gcd_nr.cc:183-188 | the detach used by the scan is the replicated directory's operation after decoding |
| RecordReclaim.ReclaimReleases | src/manager/wmeta_manager.cc:76-98 | one iteration on a record in use frees that record, detaches its block, keeps the agreement and lowers the number in use by one |
| RecordReclaim.ReclaimFreesExactly | src/manager/wmeta_manager.cc:59-101 | a call frees exactly as many records as it returns, at most the request; it detaches exactly the entries that named them, changes nothing else and keeps the agreement |
| RecordReclaim.ReclaimsNothingExactly | src/manager/wmeta_manager.cc:59-101 | it frees nothing exactly when nothing is asked for or nothing is in use |
| RecordReclaim.SecondIsMissed | src/manager/wmeta_manager.cc:69-94 | with records 0 and 1 in use and a larger request, one record is freed and the other is never looked at |
| RecordReclaim.SmallRequestIsMet | src/manager/wmeta_manager.cc:59-101 | a request for one record, or on a table of one, frees all it could |
| RecordReclaim.TwoInUseIsReached | src/manager/wmeta_manager.cc:59-101 | the directory of the table on which a larger request fails is reached by admitting two blocks |
| RecordReclaim.MeetsRequestExactly | src/manager/wmeta_manager.cc:59-101 | on every agreeing table of n records with a directory in order it frees all it could if and only if the request is at most one or n is one |
| RecordReclaim.WriteMetadataManager.ReclaimAt | src/manager/wmeta_manager.cc:73-97 | the in-place loop body is the specified step, its unlock branch included; on an agreeing table it frees exactly a record in use, keeps the agreement and keeps the counter right |
| RecordReclaim.WriteMetadataManager.IterativeReclaim | src/manager/wmeta_manager.cc:59-101 | the loop is the specified scan, in table, directory, start index and result |
| RecordReclaim.WriteMetadataManager.DoReclaim | src/manager/wmeta_manager.cc:141-168 | the allocated count ends at the threshold plus what was missed and never below the threshold; below it nothing changes; only records were freed and only their entries detached |
| SlotBitmap.FirstSet | src/core/bitmap.h:190-191 | the lowest set bit of a row, or none exactly when no bit is set |
| SlotBitmap.TestBitExactly | src/core/bitmap.h:170-180 | for offsets below 32 the dirty test answers the bit exactly unless it is bit 31, clear, with a higher bit set |
| SlotBitmap.TestBitMisreads | src/core/bitmap.h:170-180 | with bit 32 set only, bit 31 is taken for set |
| SlotBitmap.RowsFor | src/core/bitmap.h:13-16 | the rows have a bit for every page and fewer than 64 more |
| SlotBitmap.SharedBitmap.constructor | src/core/scr_bitmap.cc:5-37 | every bit of the rows starts free, so every page number is a free slot |
| SlotBitmap.SharedBitmap.FindSetBit | src/core/bitmap.h:182-197 | the row nearest after the start that has a set bit, and its lowest bit; none exactly when no row has one |
| SlotBitmap.SharedBitmap.ReserveSlot | src/core/scr_bitmap.h:64-74 | takes the named slot exactly if it is free, and no other |
| SlotBitmap.SharedBitmap.ReserveCacheNode | src/core/scr_bitmap.h:78-96 | fails exactly when no slot is free, and then every slot below the page count is taken; otherwise takes a slot that was free and changes no other; the slot is below the page count when that is a multiple of 64; the count stays the number of slots in use |
| SlotBitmap.SharedBitmap.RecycleCacheNode | src/core/scr_bitmap.h:98-107 | frees the slot and no other; the count stays right exactly when the slot was in use |
| SlotBitmap.RecycleSlotTwice | src/core/scr_bitmap.h:98-107 | reserving a slot and recycling it twice leaves a wrong count |
| SlotBitmapRuns.RunKeepsInv | src/core/scr_bitmap.h:39-107 | in every run: every slot is free, handed out or with one thread, and each counter is right up to the updates still to come |
| SlotBitmapRuns.TakenIsExclusive | src/core/bitmap.h:100-122 | a slot that a compare-and-swap takes was free and in nobody's hands, and afterwards no other thread has it |
| SlotBitmapRuns.NoSlotIsHandedOutTwice | src/core/scr_bitmap.h:64-107 | between two steps of a run that take the same slot, by whatever threads, a step gives it back |
| SlotBitmapRuns.CountersAreExactAtRest | src/core/scr_bitmap.h:39-107 | with no operation under way the counters are the slots in use and the dirty bits |
| SlotBitmapRuns.SlotCountStaysInRange | src/core/scr_bitmap.h:78-107 | the slot count is never below zero, and differs from the slots in use by exactly the updates still to come |
| SlotBitmapRuns.ReserveCompletes | src/core/scr_bitmap.h:78-96 | a thread's own steps take a free slot, hand it out and count it; nothing else changes |
| SlotBitmapRuns.RecycleCompletes | src/core/scr_bitmap.h:98-107 | they give a slot back and count it down |
| SlotBitmapRuns.SetDirtyCompletes | src/core/scr_bitmap.h:39-60 | they set or clear a dirty bit and count it exactly if it was different |
| SlotBitmapRuns.DirtyLoopEndsDone | src/core/scr_bitmap.h:39-60 | however threads interleave, the loop ends only where it sees the bit as wanted or has itself flipped it |
| SlotBitmapRuns.LostSwapsGiveBack | src/core/bitmap.h:100-122 | a swap that meets a changed row takes, frees and counts nothing |
| SlotBitmapRuns.RecycleOfFreeCounts | src/core/scr_bitmap.h:98-107 | recycling a slot whose bit is set already, which no run does, still counts it down |
| SlotBitmapRuns.SecondThreadGoesBelow | src/core/scr_bitmap.h:39-60 | for any two threads and any slot of any bitmap, a run that ends with the dirty count at -1 |
| SlotBitmapRuns.DirtyCountNeverNegativeExactly | src/core/scr_bitmap.h:39-60 | on a given bitmap the dirty count stays at zero or above in every run if and only if there is at most one thread or no slot |
| FilePages.FileHandle.Pread | lib/file.cc:93-120 | returns the file's bytes from the offset on, up to the first page that serves less than it was asked for |
| FilePages.FileHandle.Pwrite | lib/file.cc:122-147 | the file changes by exactly the bytes it reports written, at the offset, across any page boundaries |
| FilePages.FullServiceTransfersAll | lib/file.cc:93-147 | if every page serves in full, all bytes are transferred |
| FilePages.WriteThenRead | lib/file.cc:93-147 | a range whose contents were changed is read back as changed, and reads outside it are unaffected |
| FilePages.FileHandle.WriteAndReadBack | lib/file.cc:93-147 | a fully served Pwrite followed by Pread of the same range returns the bytes written, across any page boundaries |
| CacheFlush.Flush | src/common/helper.cc:101-113 | flushes, for a positive size, exactly the 64-byte lines that hold a byte of the range, each once and in order |

## Left out

- The log and the replicas of the replicated directory (`execute_mut`, `execute_anchor`): the directory is one atomic map, and the change notification may fail at any time and passes only if the entry is unchanged.
- C++ memory orderings and the `NO_COHERENCE` flushes of metadata: steps are sequentially consistent, and a weak compare-and-swap does not fail spuriously.
- `C3_RWLOCK` builds, the owner-tagged begin, and moves to a partitioned node.
- The branches of creation and admission that meet an existing entry: creation is modelled with one creator per key, as the loaders use it.
- The evict and replicate managers, `SampleReclaim` and `SampleVictim`: the first two would repeat the directory operations, and sampling has no termination argument.
- `EvictOneLocked` and the bulk recycling of the LRU list, and `LocalPageList`: unused or disabled.
- The directory operations `Put`, `CheckPut`, `Swap`, `CheckMoveLocalArray` and `CheckSwapArray`: unused by the modelled builds, or outside the invariants.
- Memory nodes with a number other than 0: the Rust code uses the configured number as the CXL slot and the C++ code always uses slot 0, so the model fixes it to 0.
- Values of 2^63 and above as slot or record indices, which the sentinel encoding would turn negative.
- `CoherenceProtocol`: line granularity, so writes that cover part of a line are not modelled; one thread per node; no hardware prefetch; fewer than 2^29 sections in one lifetime of a record.
- `RecordLifecycle` and `FlushProtocol`: a load and its compare-and-swap are one step there, which SeqlockRuns justifies for the word itself; the flusher's dirty test reads the right bit.
- `FlushProtocol`: one slot and one flusher, no reallocation of the record and fewer than 2^29 sections during one flush.
- `SlotBitmapRuns`: the scan may choose any slot, not only the lowest set bit of a row, and a failed swap of a recycle gives the slot back to the caller.
- DirectorySimulation.CallSimulates: the answer of `SwitchToReadOnly` is not compared, because the plain directory returns whether the entry exists and the replicated one the record; `DetachReturnsRecord` says which record that is.
- RecordTable.SharedMetadata.CheckReserveWmeta: the 95% guard divides reals, not doubles.
- RecordReclaim.WriteMetadataManager.IterativeReclaim: runs while no other thread holds a record; waiting for a lock is not modelled here, and concurrent reclaim is in RecordAgreement.
- LruCachePolicy.LruPolicy.constructor: a pool of size zero is not covered, because the source then starts the free list at a node that does not exist.
- LruCachePolicy.LruPolicy.ReserveCacheNode: the two list locks are one, so each method is one atomic change; node pointers are positions in the pool.
- SlotBitmap.TestBitExactly: offsets from 32 on are not covered, because shifting a 32-bit one that far is undefined.
- FilePages.FileHandle.Pread: negative offsets are not covered; the page cache is a map and how much it serves is a parameter.
- CacheFlush.Flush: address overflow is not modelled.
- The flush manager's threshold counter and its moving start index, NUMA placement, memory regions, system call interposition, configuration, logging, and the benchmarks.
