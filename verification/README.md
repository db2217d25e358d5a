# The Git core of GitEdge, in Dafny

GitEdge serves Git repositories from Workers: a Durable Object holds the refs of one
repository, object storage holds its packs, and the Worker speaks the Git protocol.
This project models the parts of that Worker where a mistake would lose data, serve the
wrong object or let two pushes overwrite each other, and proves what they keep.

| file | what it models |
|---|---|
| `Receive.dfy`, `ReceiveRuns.dfy` | the receive lease and the commit of a push: one atomic step per RPC, and facts about every run of them |
| `Validation.dfy`, `RefName.dfy` | ref commands as compare-and-swap, their application, the names that are accepted |
| `Closure.dfy` | what a fetch sends: common haves, the stop set, the batched search |
| `Heap.dfy`, `Compaction.dfy` | the binary heap and the k-way merge of pack indexes |
| `IdxView.dfy`, `IdxFormat.dfy`, `IdxLoad.dfy`, `ViewCache.dfy`, `Candidates.dfy` | parsed pack indexes, the layout they are parsed from, their searches, their byte-capped caches, and the candidates for an object |
| `Delta.dfy`, `PackMeta.dfy`, `Materialize.dfy`, `StoredEntry.dfy` | the delta interpreter, pack entry headers and OFS distances, recursive delta resolution, and what it reads from stored entries |
| `RefExtract.dfy`, `RefIndex.dfy` | reference extraction from object payloads, and the `.refs` sidecar writer and reader |
| `PktLine.dfy`, `Upload.dfy` | the command section and the pack of a push, read from chunks of any size |
| `RateLimit.dfy`, `Limiter.dfy` | the sliding-window limiter and the FIFO semaphore |
| `Routes.dfy` | route resolution over a candidate cache, and the repair of that cache |
| `Bytes.dfy`, `Bits.dfy` | bytes, object ids, big-endian integers, hexadecimal, 32-bit operators |

`dafny verify dfyconfig.toml` checks everything. Pack and index formats follow
gitformat-pack(5), sections "pack-*.pack files have the following format", "Deltified
representation" and "Version 2 pack-*.idx files"; pkt-lines follow gitprotocol-common(5),
section "pkt-line Format".

Code that works step by step is a method or a class here, proved against a function that
says what it computes; what the function means is then proved in lemmas. A thrown
exception is an `Err`, `Threw` or `Rejected` value. Numbers are unbounded; where the code
relies on 32-bit arithmetic, `Bits.ToInt32`, `Bits.BitOr` and explicit remainders say so.

Several promises hold only up to a limit of that arithmetic or of the environment, and are
stated as equivalences:

- An OFS distance survives coding exactly below 2^31, and so does a size in an entry header.
- A sidecar is accepted exactly when its references number less than 2^32, because the start
  table keeps the low 32 bits of each count.
- A pkt-line is read back exactly when its payload has at most 65531 bytes.
- A command section is read exactly when some number of chunks holds it within 256 KiB; the
  cap is checked per chunk, so a body over the cap that is read in one chunking is refused in
  a single chunk.
- A delta whose declared sizes are true applies exactly when base and result are shorter
  than 2^31. A declared size below 2^35 that is too large by a multiple of 2^32 goes
  unnoticed; from 2^35 on the sixth group meets the first, and what is accepted follows from
  where each bit lands.
- Once a public repository stops changing, its route key holds its record exactly when its
  own last message was not followed by another repository's message that had captured the
  same key: the handler deletes a captured key without asking whose it is. Its comment calls
  stale captured slugs safe. The resolver re-confirms every entry, so no one is misrouted; but
  a visitor who is routed from the cache alone does not find such a repository.
- A preflighted push cannot conflict at finalize unless an administrative ref write happened
  in between; then the refs of the last such write decide.
- The two tree parsers list the same entries except when a payload is a serialised tree
  followed by an entry whose id has exactly nineteen bytes.
- For a pack that has had one index only, a load of its view gives what loading without
  caches gives exactly when no cache answers or the index is still stored, with the size of
  that view if none is asked for: the caches are never told of a removal.
- A minute holds at most as many allowed calls of a key as the last of them named; with one
  limit per key that is the limit.

## Model

| member | source | states |
|---|---|---|
| ReceiveRuns.CommitIsExclusive | src/worker/do/repo/catalog/leases.ts:33-65 | over every run with fresh tokens: when a token that was begun reaches the ref checks of a finalize, its begin had been granted, no other receive committed in between, and without an administrative ref write the refs are still those its begin returned |
| ReceiveRuns.TokenFinalizesOnce | src/worker/do/repo/catalog/receive.ts:70-105 | a token gets past the lease check of finalize at most once in any run |
| ReceiveRuns.CommitCondition | src/worker/do/repo/catalog/receive.ts:70-105 | finalize reports a lease mismatch iff the token is not the stored one, and commits iff it is and every command is valid and passes against the current refs; the clock plays no part |
| ReceiveRuns.PreflightedPushNeverConflicts | src/worker/git/receive/streamReceivePack.ts:287-315 | a push whose commands passed the preflight checks against the refs its begin returned never gets a ref conflict at finalize, even past its expiry: it commits iff its lease is still stored |
| ReceiveRuns.SetRefsDecides | src/worker/do/repo/catalog/receive.ts:94-105 | over any run: with administrative ref writes between a begin and its finalize, a finalize whose lease is still stored conflicts iff its commands fail against what the last of those writes stored |
| ReceiveRuns.CreateConflictsOnceCreated | src/worker/do/repo/catalog/receive.ts:94-105 | a run in which a create passes its preflight checks on a new repository, an administrative write creates the branch, and the finalize conflicts |
| ReceiveRuns.CreateNeedsAbsence | src/worker/git/operations/validation.ts:38-66 | a create passes on an empty repository and fails once the branch exists |
| ReceiveRuns.RunAddsUp | src/worker/do/repo/catalog/receive.ts:107-142 | over every run in which no one writes the refs by hand or clears the storage: the refs are the fold of the committed command lists, refsVersion counts the commits, and from the first commit on names are unique |
| ReceiveRuns.RunKeepsHead | src/worker/do/repo/catalog/receive.ts:107-112 | over every run in which no one writes refs or HEAD by hand or clears the storage, HEAD matches the refs from the first commit on |
| ReceiveRuns.CommitSwaps | src/worker/git/operations/validation.ts:27-85 | each committed command's old id was the ref's value just before the commit (absent = zero id); refs it does not name are untouched, named ones hold their last write |
| ReceiveRuns.CommitRecordsPack | src/worker/do/repo/catalog/receive.ts:113-131 | a commit with a pack leaves one active receive row of tier 0 with its key, sizes and object count under the next sequence number, and one more packset version |
| ReceiveRuns.CommittedPackStays | src/worker/do/repo/catalog/receive.ts:113-131 | over any run a committed pack stays in the active catalog until the storage is cleared, with the sizes and the count of its push unless its key is committed again; every later granted begin lists it, and it cannot be removed by hand |
| ReceiveRuns.CommittedPackIsFirst | src/worker/do/repo/catalog/receive.ts:113-131 | where every row is older, a committed pack is the first of the active catalog |
| ReceiveRuns.CommitReports | src/worker/do/repo/catalog/receive.ts:107-159 | HEAD keeps its target, the lease is gone, and the result says whether commands were given and whether refs are left |
| ReceiveRuns.CommitAsksForCompaction | src/worker/do/repo/catalog/receive.ts:131-137 | a commit asks for compaction iff it added a pack and some tier now has five or more active packs |
| ReceiveRuns.RefusalKeepsState | src/worker/do/repo/catalog/receive.ts:70-105 | a finalize that does not commit keeps refs, HEAD, versions and catalog, and drops the lease iff it is its own |
| ReceiveRuns.LeaseLastsThirtyMinutes | src/worker/do/repo/catalog/leases.ts:33-48 | a begin within thirty minutes of a granted one is refused while that lease is stored |
| Receive.ActiveIsExact | src/worker/do/repo/db/dal/packCatalog.ts:28-36 | the active catalog is exactly the rows in state active, newest first |
| ReceiveRuns.StepKeepsCatalog | src/worker/do/repo/catalog/receive.ts:113-137 | every modelled step, administrative writes, pack removal and clearing the storage included, keeps pack keys unique and receive rows with distinct sequence numbers below nextPackSeq |
| ReceiveRuns.RunKeepsCatalog | src/worker/do/repo/catalog/receive.ts:113-137 | the same over every run |
| ReceiveRuns.ReceiveSequenceNumbersDiffer | src/worker/do/repo/catalog/receive.ts:121-129 | in such a catalog any two receive rows differ in sequence number and key |
| Receive.RepoStore.BeginReceiveLease | src/worker/do/repo/catalog/leases.ts:33-65 | a lease of thirty minutes is granted iff none is stored that has not expired; the whole new state and the returned snapshot, field by field |
| Receive.RepoStore.AbortReceiveLease | src/worker/do/repo/catalog/leases.ts:67-73 | drops the lease iff the token is the stored one |
| Receive.RepoStore.ClearExpiredLeases | src/worker/do/repo/catalog/leases.ts:14-31 | drops exactly the leases whose expiry is not after now |
| Receive.RepoStore.FinalizeReceiveState | src/worker/do/repo/catalog/receive.ts:52-159 | the whole new state and result of a finalize: token only, invalid names, compare-and-swap, commit |
| Receive.RepoStore.CommitReceive | src/worker/do/repo/catalog/receive.ts:107-142 | refs, HEAD, version, lease and catalog after the commit step |
| Receive.RepoStore.RecordPack | src/worker/do/repo/catalog/receive.ts:113-137 | the catalog row, the sequence counter, the packset version and the compaction wish |
| Receive.RepoStore.RemovePack | src/worker/do/repo/packOperations.ts:60-161 | removes the catalog row of a superseded pack, named by its key or by its short name, and refuses any other |
| Receive.RepoStore.ClearRepositoryStorage | src/worker/do/repo/packOperations.ts:168-183 | leaves the state of a new repository |
| Receive.FilterInvalid | src/worker/do/repo/catalog/receive.ts:79-81 | the statuses of exactly the commands with invalid names, in order |
| ReceiveRuns.InvalidNamesAreListed | src/worker/do/repo/catalog/receive.ts:79-81 | a status is listed iff it is that of a command with an invalid name |
| Validation.ValidateReceiveCommands | src/worker/git/operations/validation.ts:27-70 | one status per command, computed against the refs as a map in which later duplicates win |
| Validation.ValidationIsCompareAndSwap | src/worker/git/operations/validation.ts:27-70 | a command passes iff its old id is the current one up to letter case, absent counting as zero, and it does not delete an absent ref |
| Validation.StatusesNameRefs | src/worker/git/operations/validation.ts:27-70 | every status names its ref, and its reason says which check failed |
| Validation.LaterDuplicatesWin | src/worker/git/operations/validation.ts:31-31 | in the map made of the current refs the last ref of a name counts |
| Validation.SetKeepsPlaces | src/worker/git/operations/validation.ts:72-85 | an updated ref keeps its place in the list and a new one goes last |
| Validation.ApplyReceiveCommands | src/worker/git/operations/validation.ts:72-85 | the resulting list is the ordered application of all commands |
| Validation.ApplyEffect | src/worker/git/operations/validation.ts:72-85 | after application a ref holds its last write or is deleted by it, refs no command names are untouched, names are unique |
| RefNames.ValidRefNames | src/worker/git/operations/validation.ts:15-25 | a name is accepted iff it is refs/ followed by components that are neither empty nor dots, hold no forbidden character, backslash or @{, the last ending in neither . nor .lock |
| RefNames.AcceptableIsByComponent | src/worker/git/operations/validation.ts:18-23 | the substring checks on a whole name are exactly the same checks on each component |
| Closure.FindCommonHaves | src/worker/git/operations/closure.ts:10-35 | a duplicate-free list of lower-case haves that are present, from the first 128 |
| Closure.BuildStopSet | src/worker/git/operations/fetch/neededFast.ts:21-60 | the acknowledged haves and at most twenty ids more, each on a first-parent chain of one of them; from ten haves on nothing is added, and below that, given time, the chains are exhausted or exactly twenty ids are added |
| Closure.WalkMainline | src/worker/git/operations/fetch/neededFast.ts:38-57 | adds at most twenty ids, each on a first-parent chain of the queue it starts from; given time, it stops only when the chains are exhausted or twenty are added |
| Closure.MainlineIsGrounded | src/worker/git/operations/fetch/neededFast.ts:38-57 | what stands on a first-parent chain of an acknowledged have is reachable from it |
| Closure.ComputeClosure | src/worker/git/operations/fetch/neededFast.ts:62-160 | terminates; without timeout or failed read the result is exactly the ids reachable from the wants along paths that avoid the stop set, each once; cut short, a subset; it fails only if some read fails, and never times out when allowed one turn for every want and every reference |
| Closure.SearchBatch | src/worker/git/operations/fetch/neededFast.ts:89-146 | one batch keeps the search invariant, shrinks (unseen ids, queue length) lexicographically, is fetched unless its read fails, and queues no more references than the ids it adds have |
| Closure.MarkBatch | src/worker/git/operations/fetch/neededFast.ts:89-104 | marks a batch seen, and needed unless stopped |
| Closure.ReadRefs | src/worker/git/operations/fetch/neededFast.ts:108-137 | one list of successors for each id read, in order; unless the read fails, it is fetched and every readable id of the batch is read |
| Closure.Enqueue | src/worker/git/operations/fetch/neededFast.ts:140-146 | appends the unseen references, list by list, in order and with repetitions |
| Closure.PathIsNeeded | src/worker/git/operations/fetch/neededFast.ts:78-147 | once the queue is dry every node of an avoiding path has been found needed |
| Closure.ClientGetsEverything | src/worker/git/operations/fetch/neededFast.ts:20-60 | anything reachable from a want is in the answer or reachable from an acknowledged have |
| Closure.SuccessorsAreEdges | src/worker/git/object-store/store.ts:154-172 | a commit leads to its tree and all its parents, a tree to its entries, a tag to its target, a blob nowhere |
| Closure.ComputeNeededFast | src/worker/git/operations/fetch/neededFast.ts:8-160 | the acknowledged haves are those present among the first 128; needed is contained in closure(wants); and when no read fails and the clock allows one turn for every want and every reference, closure(wants) is contained in needed plus closure(acknowledged haves), so whatever a needed commit, tree or tag refers to is needed or reachable from an acknowledged have |
| Heap.BinaryHeap.constructor | src/worker/common/heap.ts:20-27 | heap order and the multiset of the given items |
| Heap.BinaryHeap.Push | src/worker/common/heap.ts:41-44 | keeps heap order and adds exactly the pushed element |
| Heap.BinaryHeap.Pop | src/worker/common/heap.ts:46-55 | removes exactly the returned element, which precedes or ties all others; empty gives nothing |
| Heap.BinaryHeap.Heapify | src/worker/common/heap.ts:57-59 | establishes heap order on any array, same multiset |
| Heap.BinaryHeap.SiftDown | src/worker/common/heap.ts:61-73 | repairs heap order below one node, same multiset |
| Heap.BinaryHeap.SiftUp | src/worker/common/heap.ts:75-85 | repairs heap order above one node, same multiset |
| Heap.RootIsMinimum | src/worker/common/heap.ts:46-55 | in a heap-ordered array the root precedes or ties every element |
| Heap.SiftDownStep | src/worker/common/heap.ts:61-73 | swapping with the selected child moves the only broken edges one level down |
| Heap.SiftUpStep | src/worker/common/heap.ts:75-85 | swapping with the parent moves the only broken edge one level up |
| Compaction.BuildCompactionNeededOids | src/worker/git/compaction/plan.ts:44-85 | the output is the union of all source names for any tables, and strictly ascending when every table is sorted, duplicates within and across packs allowed |
| Compaction.MergeNext | src/worker/git/compaction/plan.ts:63-82 | one turn of the merge keeps the invariant between heap, cursors and output and uses up one row |
| Compaction.SeedHeap | src/worker/git/compaction/plan.ts:54-58 | the heap holds the first row of every non-empty pack, each once |
| Compaction.MergeStep | src/worker/git/compaction/plan.ts:63-82 | popping a least row, emitting its name if new and pushing its successor keeps the merge invariant |
| Compaction.ComparatorIsTotal | src/worker/git/compaction/plan.ts:45-52 | the heap priority is a total preorder |
| Compaction.CompareRawOid | src/worker/git/compaction/plan.ts:10-24 | lexicographic comparison of two names |
| Bytes.CompareIsOrder | src/worker/git/compaction/plan.ts:10-24 | byte comparison is antisymmetric and zero only on equal names |
| Bytes.CompareTransitive | src/worker/git/compaction/plan.ts:10-24 | byte comparison is transitive |
| Bytes.FirstDifferenceDecides | src/worker/git/compaction/plan.ts:10-24 | the first byte that differs decides |
| Compaction.SourceNamesAreNames | src/worker/git/compaction/plan.ts:44-85 | the names merged are those in the name tables |
| Materialize.MaterializeCandidate | src/worker/git/object-store/materialize.ts:57-173 | terminates on every pack set; gives the result of the recursive reading and leaves the visited set as it was |
| Materialize.ReadObject | src/worker/git/object-store/store.ts:41-64 | reads the first candidate of an id, with the same guarantees |
| Materialize.ReadIsMeaning | src/worker/git/object-store/materialize.ts:57-173 | any object read is the meaning of a chain from its entry: the base's kind with every delta applied in order |
| Materialize.MeaningIsRead | src/worker/git/object-store/materialize.ts:57-173 | an entry that has a meaning is read, whatever other entries are being visited |
| Materialize.ReadIffMeaning | src/worker/git/object-store/materialize.ts:57-173 | a read from scratch returns an object iff the entry has that meaning |
| Materialize.ReadOutcome | src/worker/git/object-store/materialize.ts:57-173 | every outcome: what the end of the chain of bases gives with the deltas applied, be it an object, a missing entry or an error; an entry whose bases never end is refused as a cycle |
| Materialize.EndlessIsCycle | src/worker/git/object-store/materialize.ts:63-73 | an entry whose bases never end is refused as a cycle, whatever other entries are being visited |
| Materialize.ChainIsUnique | src/worker/git/object-store/materialize.ts:131-155 | an entry has at most one chain with a meaning |
| Materialize.BaseIsInSnapshot | src/worker/git/object-store/materialize.ts:131-155 | the base of a delta entry is again an entry of the snapshot |
| StoredEntries.StoredObjectIsRead | src/worker/git/object-store/materialize.ts:57-173 | from bytes to objects: if the first entry of a name is stored as a whole object, or as a delta by distance or by name on an entry that is, at any depth, reading the name gives that object with every delta applied |
| StoredEntries.OfsIsRead | src/worker/git/object-store/materialize.ts:132-150 | an entry stored with type code 6 and a distance below 2^31 is a delta on the entry of its pack so many bytes before it |
| StoredEntries.RefIsRead | src/worker/git/object-store/materialize.ts:151-155 | an entry stored with type code 7 and a name is a delta on the first entry of that name in pack order |
| StoredEntries.WholeIsRead | src/worker/git/object-store/materialize.ts:127-129 | an entry stored with type code 1 to 4 is the object itself |
| StoredEntries.OfsWithoutBase | src/worker/git/object-store/materialize.ts:134-142 | without an entry at that distance nothing is read |
| StoredEntries.RefWithoutBase | src/worker/git/object-store/materialize.ts:157-166 | without an entry of that name nothing is read |
| IdxViews.ParseIdxView | src/worker/git/object-store/idxView.ts:162-239 | returns the view, undefined or a throw exactly as the format checks say |
| IdxViews.ParsedViewIsWellFormed | src/worker/git/object-store/idxView.ts:212-239 | every parsed view has its offset index sorted and its next offsets linked, for the given pack and size |
| IdxFormat.IndexRoundTrip | src/worker/git/pack/indexer/writeIdx.ts:45-146 | an index laid out as the format has it, 64-bit offsets included, is parsed to exactly its names, offsets, fanout and checksums, iff its offsets are safe integers |
| IdxFormat.WrittenIndexIsSearchable | src/worker/git/pack/indexer/writeIdx.ts:32-110 | with its rows in ascending order every name of such an index is found |
| IdxViews.NextOffsetIsLeastLarger | src/worker/git/object-store/idxView.ts:218-224 | with distinct offsets the next offset of a row is the least larger offset, or packSize - 20 for the last |
| IdxViews.FindOffsetIndex | src/worker/git/object-store/idxView.ts:108-120 | the binary search over offsets, as a function |
| IdxViews.FindOffsetIsLinearScan | src/worker/git/object-store/idxView.ts:108-120 | the offset search hits iff some row has the offset, and returns such a row |
| IdxViews.FindOidIndexFromBytes | src/worker/git/object-store/idxView.ts:136-154 | the fanout-bounded binary search over names; a needle that does not fit gives -1 |
| IdxViews.FindOidIsLinearScan | src/worker/git/object-store/idxView.ts:136-154 | on sorted names and a consistent fanout the search hits iff some row has the name, and returns such a row |
| IdxViews.CompareOidAt | src/worker/git/object-store/idxView.ts:83-90 | byte comparison of a row with a needle |
| Candidates.FindOidRunInIdx | src/worker/git/object-store/candidates.ts:83-104 | the widest run of equal names around the row the search hits, or nothing iff there is no hit or the id is malformed |
| Candidates.CollectPackedObjectCandidates | src/worker/git/object-store/candidates.ts:113-136 | exactly all matching rows of all packs not excluded, each with the place of its row, in pack then row order; nothing for a malformed id |
| Candidates.FindFirstPackedObjectCandidate | src/worker/git/object-store/candidates.ts:142-161 | the hit of the first pack that has one |
| Candidates.FirstCandidateIsInScan | src/worker/git/object-store/candidates.ts:142-161 | the first candidate exists iff the full scan is non-empty, and is one of its rows in its first pack |
| Candidates.FirstCandidateIsHit | src/worker/git/object-store/candidates.ts:142-161 | the first candidate is a row with this name, with the offsets of that row |
| Candidates.SortedHitsAreContiguous | src/worker/git/object-store/candidates.ts:83-104 | on sorted names equal rows are adjacent |
| IdxLoads.LoadIdxView | src/worker/git/object-store/idxView.ts:241-343 | the fitting memo entry, or else the size-matched cache entry, or else a direct load, and what the memo holds afterwards; with a size hint only a view of that pack and size; for a pack that has had one index only this is the direct load iff no cache answered or the index, and the size if none was given, are still stored; the caches hold only views of indexes once stored, which every load keeps |
| IdxLoads.LoadedFits | src/worker/git/object-store/idxView.ts:17-24 | whatever the caches hold, a load with a size hint gives a view of that pack for that size, or none |
| IdxLoads.LoadedIsDirect | src/worker/git/object-store/idxView.ts:250-343 | for a pack that has had one index only a load gives what loading without caches gives iff no cache answers or the index, and the pack size if none is given, are still stored |
| IdxLoads.RemovedIndexIsServed | src/worker/git/object-store/idxView.ts:254-258 | a view that was loaded is served to the rest of the request after its index has been removed |
| IdxLoads.RemovedIndexExample | src/worker/git/object-store/idxView.ts:254-258 | such a load, with the index of an empty pack |
| IdxLoads.CachesOutliveStores | src/worker/git/object-store/idxView.ts:17-64 | storing further packs, or removing some, leaves both caches truthful |
| IdxLoads.CacheKeyInjective | src/worker/git/object-store/idxView.ts:19-24 | different packs or sizes never share a cache key |
| ViewCaches.ViewCache.Touch | src/worker/git/object-store/idxView.ts:39-64 | the new entries, with the counter equal to the sum of the stored sizes and at most 16 MiB |
| ViewCaches.ViewCache.EvictOldest | src/worker/git/pack/refIndex.ts:124-130 | evicts from the front until the cap holds; the exit by an empty first key is never taken |
| ViewCaches.TouchEvictsOldest | src/worker/git/pack/refIndex.ts:111-131 | a touch drops the fewest oldest entries that make room and never the one just inserted; a view over the cap is not stored |
| ViewCaches.TouchIsSound | src/worker/git/pack/refIndex.ts:111-131 | a touch keeps keys distinct and the cap |
| ViewCaches.CacheHoldsLastTouch | src/worker/git/pack/refIndex.ts:111-131 | over any touches the cap holds and whatever the cache has for a key is what was touched last under it |
| Delta.ApplyGitDelta | src/worker/git/object-store/delta.ts:1-53 | the in-place interpreter equals the interpreter written as a function, errors included |
| Delta.EncodedDeltaApplies | src/worker/git/object-store/delta.ts:1-53 | for any encoding of any copy/insert list under any declared sizes the result is the concatenation of the outputs iff both sizes read as the true ones, and an error otherwise |
| Delta.TrueSizesApply | src/worker/git/object-store/delta.ts:16-20 | with its true sizes declared, a delta applies iff base and result are both shorter than 2^31 |
| Delta.WrappedSizesApply | src/worker/git/object-store/delta.ts:16-20 | declared sizes below 2^35 are accepted iff they are the true ones up to a multiple of 2^32 |
| Delta.DeclaredSizesApply | src/worker/git/object-store/delta.ts:16-20 | declared sizes of any length are accepted iff base and result are shorter than 2^31 and the bits of the declared sizes land on those of the true ones |
| Delta.SizeReadsAs | src/worker/git/object-store/delta.ts:4-14 | a size of any length reads as m iff bit 7i + r of it, moved to (7i mod 32) + r, meets exactly the bits of m |
| Delta.SixthGroupApplies | src/worker/git/object-store/delta.ts:4-20 | a declared base size of 2^35 + 16 is refused for a base of 16 bytes and accepted for one of 24 |
| Delta.AcceptedDeltaHasMeaning | src/worker/git/object-store/delta.ts:1-53 | whatever bytes are accepted, the result has the declared length and is the output of an instruction list the bytes spell |
| Delta.OpsRoundTrip | src/worker/git/object-store/delta.ts:23-49 | running encoded instructions yields their outputs, in order |
| Delta.OpRoundTrip | src/worker/git/object-store/delta.ts:23-49 | one encoded instruction is understood: a copy of so many bytes from an offset below 2^31, both written low byte first with zero bytes left out, size 0 meaning 0x10000, or an insert |
| Delta.OperandsAreNumbers | src/worker/git/object-store/delta.ts:26-35 | the operand bytes of an offset below 2^31 and of a size read as these numbers |
| Delta.VarintRoundTrip | src/worker/git/object-store/delta.ts:4-14 | an encoded size reads back iff it is below 2^31; below 2^35 it reads as the signed value of its low 32 bits |
| PackMeta.EncodeOfsDeltaDistance | src/worker/git/pack/packMeta.ts:126-143 | the group loop produces the distance encoding of the format |
| PackMeta.OfsDeltaDistanceLength | src/worker/git/pack/packMeta.ts:110-121 | the length loop gives the length of the encoding |
| PackMeta.DistanceRoundTrip | src/worker/git/pack/packMeta.ts:82-101 | decoding an encoded distance consumes it and gives it back iff it is below 2^31 |
| PackMeta.EncodingIsOnto | src/worker/git/pack/packMeta.ts:126-143 | a terminated byte string is re-encoded to itself iff its value is below 2^31 |
| PackMeta.EncodeObjHeader | src/worker/git/core/objects.ts:40-53 | the header loop produces the kind and size encoding with its 32-bit arithmetic |
| PackMeta.EncodedSize | src/worker/git/core/objects.ts:40-53 | an encoded header spells its size iff the size is below 2^31 |
| PackMeta.ReadPackHeaderExFromBuf | src/worker/git/pack/packMeta.ts:59-104 | the cursor loops equal the header parser written as a function |
| PackMeta.HeaderRoundTrip | src/worker/git/pack/packMeta.ts:59-104 | a written header followed by a distance, a base id or nothing, between any bytes, parses back to kind, size bytes, base and length |
| RefIndex.SidecarRoundTrip | src/worker/git/pack/refIndex.ts:476-567 | parsing built bytes is Ready iff the index matches and the references number less than 2^32, with the recorded kind and references at every row; any other index is stale |
| RefIndex.SidecarHoldsReferences | src/worker/git/pack/refIndex.ts:384-474 | end to end: an accepted sidecar answers each row with exactly the references of the object at that row |
| RefIndex.AcceptedViewIsValid | src/worker/git/pack/refIndex.ts:476-567 | for arbitrary accepted bytes the row ranges are in bounds, ordered, adjacent, and end with the raw references |
| RefIndex.PackRefsBuilder.Build | src/worker/git/pack/refIndex.ts:399-473 | both passes of the builder produce the sidecar bytes, or the first row's error |
| RefIndex.RowsAreComplete | src/worker/git/pack/refIndex.ts:410-427 | a sidecar is built iff every object has a known kind and whole recorded references |
| RefIndex.PackRefsBuilder.RecordObject | src/worker/git/pack/refIndex.ts:391-393 | records exactly the references of the object; the extractors never refuse |
| RefIndex.CountRefs | src/worker/git/pack/refIndex.ts:410-427 | the first pass: row checks and running reference counts |
| RefIndex.WriteSidecar | src/worker/git/pack/refIndex.ts:429-465 | the second pass fills one buffer of the computed size, left to right |
| RefIndex.ParsePackRefView | src/worker/git/pack/refIndex.ts:476-567 | the parser's verdicts in their order |
| RefIndex.GetPackRefRefsAt | src/worker/git/pack/refIndex.ts:601-624 | the ids between the row's two starts; nothing outside the table |
| RefIndex.GetPackRefRawRefAt | src/worker/git/pack/refIndex.ts:587-599 | the id at an offset of a row, or nothing outside the row |
| RefIndex.HeaderReadsBack | src/worker/git/pack/refIndex.ts:435-446 | a written header reads back, pack sizes up to the safe integer limit included |
| RefIndex.StartsReadBack | src/worker/git/pack/refIndex.ts:452-455 | written starts read back as their low 32 bits |
| RefExtract.ParseCommitRefBytes | src/worker/git/pack/refIndex.ts:236-270 | both passes agree on every payload: the buffer is filled exactly with the tree and the parents, and the decoder never refuses |
| RefExtract.ParseTagRefBytes | src/worker/git/pack/refIndex.ts:283-303 | the object id iff the header names one and a known kind |
| RefExtract.ParseTreeClosureRefBytes | src/worker/git/pack/refIndex.ts:330-343 | both passes agree on every payload: the ids of all complete entries that are not gitlinks, in order |
| RefExtract.HeaderLineSpans | src/worker/git/pack/refIndex.ts:221-234 | the lines visited are those before the first empty one, without their line endings |
| RefExtract.WriteHexOidAt | src/worker/git/pack/refIndex.ts:179-193 | writes the decoded id, or refuses iff a digit is not hexadecimal |
| RefExtract.ObjectRefBytes | src/worker/git/pack/refIndex.ts:345-359 | the references of an object of any kind |
| RefExtract.CommitRoundTrip | src/worker/git/pack/refIndex.ts:236-270 | a written commit gives back its tree and its parents in order, then whatever ids its other header lines name as parents, whatever its message says |
| RefExtract.TagRoundTrip | src/worker/git/pack/refIndex.ts:283-303 | a written tag gives back its object iff it names a known kind |
| RefExtract.HeaderRoundTrip | src/worker/git/pack/refIndex.ts:221-234 | written header lines are read back and nothing of the message is taken for one |
| RefExtract.WordsAreSpelled | src/worker/git/pack/refIndex.ts:19-22 | the prefixes, kinds and the gitlink mode, spelled out |
| RefExtract.TypeLineNamesKind | src/worker/git/pack/refIndex.ts:272-281 | a type line starts with type and one of the four kinds |
| RefExtract.CarriageReturnIsDropped | src/worker/git/pack/refIndex.ts:221-234 | a line that ends in a carriage return is read without it |
| RefExtract.TreeRoundTrip | src/worker/git/pack/refIndex.ts:305-343 | a serialised tree gives its entries back; closure references are its ids without gitlinks, and the other parser gives all ids |
| RefExtract.ParseTreeChildOids | src/worker/git/core/object-parse.ts:41-56 | the second tree parser, with its looser bound, as a function |
| RefExtract.ChildOidsAreEntries | src/worker/git/core/object-parse.ts:41-56 | on every payload that parser lists all complete entries and then, if present, one id cut short by a byte |
| RefExtract.TreeParsersAgree | src/worker/git/core/object-parse.ts:41-56 | the two tree parsers see the same entries unless the payload is a serialised tree followed by an entry whose id has nineteen bytes |
| RefExtract.EntriesSpell | src/worker/git/pack/refIndex.ts:305-343 | every payload is the serialisation of its entries followed by a remainder that holds no complete entry |
| RefExtract.ShortTreeExample | src/worker/git/core/object-parse.ts:41-56 | a tree of one entry with a nineteen-byte id: skipped by one parser, listed by the other |
| PktLines.ParsePktSectionPrefix | src/worker/git/receive/pktSectionStream.ts:20-63 | the verdict and lines of the frames up to the flush packet |
| PktLines.SectionIsStable | src/worker/git/receive/pktSectionStream.ts:20-63 | the verdicts ok and invalid do not change when more bytes follow |
| PktLines.ReadPktSectionStream | src/worker/git/receive/pktSectionStream.ts:65-120 | the loop over chunks equals re-parsing what is buffered after each chunk under the 256 KiB cap |
| PktLines.StreamIsWholeParse | src/worker/git/receive/pktSectionStream.ts:65-120 | a successful read has the lines and offset of one parse of the whole body and leaves exactly the remaining bytes; each failure is one of the whole body |
| PktLines.ChunksDoNotMatter | src/worker/git/receive/pktSectionStream.ts:65-120 | two successful reads of one body in different chunks mean the same |
| PktLines.ReadSucceeds | src/worker/git/receive/pktSectionStream.ts:73-119 | a read succeeds iff some number of chunks holds the section without exceeding the cap |
| PktLines.StreamRoundTrip | src/worker/git/receive/pktSectionStream.ts:65-120 | a command section and a pack of any size, in any chunking: read iff some number of chunks brings the whole section within 256 KiB, and then separated into its lines and the pack |
| PktLines.OneChunkIsRefused | src/worker/git/receive/pktSectionStream.ts:114-118 | any push over 256 KiB in all is read when its section comes in a chunk of its own and refused when it all comes in one |
| PktLines.SameBodyTwoChunkings | src/worker/git/receive/pktSectionStream.ts:114-118 | one such body in two chunkings, one read and one refused |
| PktLines.ParsePktSection | src/worker/git/core/pktline.ts:20-47 | the buffered parser succeeds iff the prefix parser does, with the same lines and offset |
| PktLines.PktLine | src/worker/git/core/pktline.ts:53-61 | header and payload |
| PktLines.PktLineRoundTrip | src/worker/git/core/pktline.ts:53-61 | a written pkt-line is read back, whatever follows, iff its payload has at most 65531 bytes |
| PktLines.SectionRoundTrip | src/worker/git/core/pktline.ts:20-47 | any list of such pkt-lines and a flush packet is read back as a section, whatever follows |
| PktLines.DecodePktLines | src/worker/git/core/pktline.ts:112-143 | the items of a buffer up to the first malformed frame, lines with their decoded text |
| PktLines.ItemsRoundTrip | src/worker/git/core/pktline.ts:112-143 | any mix of lines and special packets decodes to itself |
| PktLines.OneEndingIsTrimmed | src/worker/git/receive/pktSectionStream.ts:59-59 | one line ending is dropped, with or without its carriage return |
| PktLines.SpecialPackets | src/worker/git/core/pktline.ts:20-47 | the flush, delimiter and response-end packets, spelled out |
| Upload.StageMultipartPack | src/worker/git/receive/r2Upload.ts:254-382 | succeeds iff the bytes are acceptable (size limit, PACK header, at least 32 bytes, trailer digest), in any chunking, with parts that depend on the bytes alone; a rejection names a true reason |
| Upload.PartsConserve | src/worker/git/receive/r2Upload.ts:281-336 | the parts join to the pack, are numbered from 1, all but the last are exactly 8 MiB and the last holds the remainder, possibly empty |
| Upload.StageKnownLengthPack | src/worker/git/receive/r2Upload.ts:135-239 | succeeds iff the bytes are acceptable and of the announced length; what is stored is the pack; a rejection names a true reason |
| Upload.StagePackToR2 | src/worker/git/receive/r2Upload.ts:431-465 | either way of staging accepts the same packs, up to the announced length, and stores the pack |
| Upload.UpdateTrailerWindow | src/worker/git/receive/r2Upload.ts:116-133 | hashed bytes followed by the tail are all bytes read, the tail holding the last min(20, total) |
| Upload.UploadFullParts | src/worker/git/receive/r2Upload.ts:304-317 | uploads every full part that is buffered and conserves the bytes |
| Upload.CheckHeader | src/worker/git/receive/r2Upload.ts:105-114 | judges the first twelve bytes once they are there, whatever chunks they came in |
| Upload.HeaderIsSignature | src/worker/git/receive/r2Upload.ts:105-114 | a header is accepted iff it starts with PACK and version 2 |
| Upload.RefusedForGood | src/worker/git/receive/r2Upload.ts:105-114 | a header refused early is the header of the whole body |
| RateLimit.SharedRateLimitDurableObject.Consume | workers/limits/src/index.ts:21-47 | the new hits table and the decision |
| RateLimit.WindowHoldsAtMostLimit | workers/limits/src/index.ts:21-47 | on a clock that does not run backwards every window of 60000 ms holds at most as many allowed hits of a key as the last of them named as its limit, whatever other keys do |
| RateLimit.OneLimitHolds | workers/limits/src/index.ts:21-47 | a key whose calls name at most some limit never has more allowed hits than that in one minute |
| RateLimit.TableIsHistory | workers/limits/src/index.ts:24-31 | pruning loses nothing a later call would count |
| RateLimit.AdmittedCounts | workers/limits/src/index.ts:26-32 | a call is allowed iff its limit is finite and, with it, its key has no more allowed hits in the last 60000 ms than that |
| RateLimit.AllowedOnceOldestLeaves | workers/limits/src/index.ts:32-44 | a refused caller that asked for no less than the last allowed call of its key, and whose key is left alone, is allowed later iff the oldest hit has left the window |
| RateLimit.RetryAfterIsEnough | workers/limits/src/index.ts:40-43 | waiting retryAfter seconds is enough, and a whole second less is not, except that it is at least one |
| Limiter.SubrequestLimiter.AcquireSlot | src/worker/git/operations/limits.ts:20-31 | takes a free slot or joins the queue |
| Limiter.SubrequestLimiter.ReleaseSlot | src/worker/git/operations/limits.ts:33-38 | frees a slot and hands it to the first in the queue |
| Limiter.SlotsAreExact | src/worker/git/operations/limits.ts:11-48 | over every interleaving: cur is the number of running tasks and at most max, a non-empty queue implies cur = max, started followed by queued is the arrival order |
| Limiter.ClampNeverFires | src/worker/git/operations/limits.ts:33-35 | a finishing task always holds a slot, so the clamp at zero never fires |
| Limiter.IdleMeansDone | src/worker/git/operations/limits.ts:33-38 | no wakeup is lost: when nothing runs, every task that arrived has started and finished |
| Routes.CacheNeverMisroutes | src/worker/repositories/route.ts:47-125 | for any cache content the route with fallback is the store's own answer apart from source; from the cache alone it is that route iff the entry names its row, else null |
| Routes.StoreAnswers | src/worker/repositories/route.ts:93-125 | the store's own answer: the route of the row with these slugs, field by field, or none |
| Routes.VisibilityIsCurrent | src/worker/repositories/route.ts:47-86 | a resolved route carries the visibility its row has now |
| Routes.RouteCache.HandleRouteCacheSyncMessage | src/worker/tasks/routeCacheSync.ts:31-114 | the whole new key-value state after one message, also when the store fails after the first operation and the message is left for a retry |
| Routes.SyncIsIdempotent | src/worker/tasks/routeCacheSync.ts:47-114 | redelivery changes nothing |
| Routes.RetryCompletes | src/worker/tasks/routeCacheSync.ts:80-114 | a delivery that stopped halfway and its retry add up to one delivery |
| Routes.MessageAtKey | src/worker/tasks/routeCacheSync.ts:47-114 | what a delivery, complete or stopped halfway, does to the canonical key of any row, its own or another's |
| Routes.PublicRouteConverges | src/worker/tasks/routeCacheSync.ts:96-108 | over any deliveries, some stopped halfway, once a public row has stopped changing while all others may change: its canonical key holds its record iff its own last repair was not followed by another row's message that had captured that key |
| Routes.PublicRouteIsServed | src/worker/repositories/route.ts:47-125 | once a public row has stopped changing, a visitor routed from the cache alone gets its route iff the row's own last repair was not followed by another row's message that had captured its key, and no route otherwise |
| Routes.PrivateRouteDisappears | src/worker/tasks/routeCacheSync.ts:80-94 | once a private row has stopped changing while all others may change, its canonical key survives only deliveries that never touched it |
| Routes.DeletedRepositoryTakesRoute | src/worker/tasks/routeCacheSync.ts:47-53 | a deleted repository's message, delivered after the message of the new public repository with the same slug, leaves the new one without an entry: it is not found from the cache alone, and is found with fallback |
| Routes.CanonicalKeysDiffer | src/worker/repositories/routeCache.ts:16-18 | addressable rows have different cache keys |
| Candidates.OidAtIndexMatches | src/worker/git/object-store/candidates.ts:48-54 | whether a row's name is the id |
| Candidates.ExpandLeft | src/worker/git/object-store/candidates.ts:90-93 | the widest extension of the run to the left |
| Candidates.ExpandRight | src/worker/git/object-store/candidates.ts:95-101 | the widest extension of the run to the right |
| Candidates.CollectFromPack | src/worker/git/object-store/candidates.ts:126-132 | the candidates of one pack are its matching rows, and on a searchable index all of them in order |
| Candidates.CollectRows | src/worker/git/object-store/candidates.ts:129-132 | one candidate for every row of the run, in row order |
| Closure.FetchMissing | src/worker/git/operations/fetch/neededFast.ts:118-133 | after a read every readable id of the batch has its successor list, and the memo stays true |
| Delta.ReadVarintAt | src/worker/git/object-store/delta.ts:4-14 | the size loop, with the shift count taken modulo 32 and the result as a signed 32-bit value |
| Delta.ReadOperands | src/worker/git/object-store/delta.ts:28-34 | the operand bytes whose flag is set, zero past the end of the delta |
| Delta.ReadInstruction | src/worker/git/object-store/delta.ts:24-49 | the output of one instruction and where the next starts, or its error |
| Delta.RunInto | src/worker/git/object-store/delta.ts:20-52 | the result or error of the instructions; on success the buffer is full and is the result |
| Heap.BinaryHeap.Swap | src/worker/common/heap.ts:87-91 | exchanges two elements |
| IdxLoads.FromCaches | src/worker/git/object-store/idxView.ts:250-285 | answers iff the memo has a fitting view or the cache a size-matched one; a memo entry of the wrong size is replaced by the answer or dropped |
| IdxLoads.Remember | src/worker/git/object-store/idxView.ts:322-330 | the new cache and memo after filing a view; both keep holding only views of indexes once stored |
| IdxViews.ReadOffsets | src/worker/git/object-store/idxView.ts:199-210 | 31-bit and large offsets, with their failures |
| IdxViews.LinkOffsets | src/worker/git/object-store/idxView.ts:214-224 | the sorted offsets and the next offset of every row |
| IdxViews.SearchRows | src/worker/git/object-store/idxView.ts:143-153 | the search loop, as a function of the comparisons |
| PackMeta.CollectGroups | src/worker/git/pack/packMeta.ts:129-141 | the groups of seven bits, reversed and flagged |
| PackMeta.ReadOfsDistance | src/worker/git/pack/packMeta.ts:82-93 | the distance loop with its signed 32-bit arithmetic |
| PktLines.ReadFrame | src/worker/git/receive/pktSectionStream.ts:25-57 | one round of the parser loop: a payload to go on with, or the outcome |
| PktLines.FrameAt | src/worker/git/receive/pktSectionStream.ts:26-54 | the frame at a cursor: the three special headers, a length, or a refusal |
| Receive.RepoStore.EnsureRepoMetadataDefaults | src/worker/do/repo/catalog/receive.ts:67-68 | stores the default counters where none are stored |
| RefExtract.HasHexOidAt | src/worker/git/pack/refIndex.ts:171-177 | whether forty hexadecimal digits stand before the line end |
| RefExtract.LineHasPrefix | src/worker/git/pack/refIndex.ts:195-206 | whether a line starts with a prefix |
| RefExtract.CountCommitRefs | src/worker/git/pack/refIndex.ts:237-252 | the first pass over a commit: where its tree id starts and how many parents it names |
| RefExtract.FillParents | src/worker/git/pack/refIndex.ts:261-267 | the second pass fills the rest of the buffer with all parents, in order |
| RefExtract.ScanTag | src/worker/git/pack/refIndex.ts:284-298 | where the object id starts, and whether a known kind is named |
| RefExtract.IsValidTagTypeLine | src/worker/git/pack/refIndex.ts:272-281 | whether a line names a known kind |
| RefExtract.VisitTreeClosureRawRefs | src/worker/git/pack/refIndex.ts:305-328 | the visitor gets the ids of all complete entries that are not gitlinks, in order |
| RefExtract.IsGitlinkMode | src/worker/git/pack/refIndex.ts:375-382 | whether the mode is 160000 |
| RefIndex.WriteStarts | src/worker/git/pack/refIndex.ts:452-455 | writes the start table in place |
| RefIndex.WriteRows | src/worker/git/pack/refIndex.ts:457-465 | writes the references in place, row after row, to the end of the buffer |
| RefIndex.ParseTables | src/worker/git/pack/refIndex.ts:519-551 | the checks after the header, in their order |

## Left out

- Transport: R2, KV, D1, queues, Durable Object calls and alarms are parameters or table state; each Durable Object method is one atomic step, and a storage operation does not fail halfway, except that a route repair may stop between its two operations.
- zlib and SHA-1 are functions given as parameters; so are the text decoder and the number parser of pkt headers, the latter agreeing with hexadecimal on four hexadecimal digits.
- Clocks are parameters: a timeout in the fetch search is a number of turns after which it gives up.
- Hexadecimal id strings: packs, indexes, candidates and merges work on the raw twenty bytes; the string forms of ids and `hexToBytes` are not modelled there.
- Letter case: `toLowerCase` is modelled on ASCII letters.
- Pack tables of 2^30 rows and more: the midpoint `(lo + hi) >> 1` is taken without 32-bit overflow, and allocation failures do not occur.
- In-flight promise coalescing and the request memo of whole objects; the memo of index views is modelled in `IdxLoads`.
- `loadPackRefView`: only its cache and its parser are modelled, not its lookup order.
- Cache size estimates: a view's size is any function of the view, fixed for a cache.
- `seedMinimalRepo`, which fills a repository for tests, is no event of the runs.
- Parents of a commit in the fetch search are those `src/worker/git/core/commitParse.ts` reports. It also takes message lines of the form `parent <id>` for parents, so reachable from an acknowledged have means reachable along those edges too, which the client need not hold.
- Progress messages, logging and the soft subrequest budget.
- Compaction commit (which supersedes packs), pack indexing, connectivity checks, pack rewriting and sideband encoding; the order of entries by id is a given permutation, and the catalog upsert replaces by key.
- The loops of `writeIdxV2` and its sort: `IdxFormat.WriteIdx` is the layout they produce, for rows in any order.
- Rows of the active catalog that agree in sequence number and tier keep the order of the table.
- The wake-up scheduled when compaction is wanted: only the stored wish is modelled.
- Fetch: reading references is one batch that succeeds or fails; how a batch reads sidecars and objects is not modelled.
- Equality of the byte-level commit and tag extractors with the regular-expression parsers of `src/worker/git/core/object-parse.ts`: they differ on message bodies and letter case.
- ViewCaches.ViewCache.Touch: the map is a sequence of entries in insertion order, so lookup cost is not modelled.
- Routes.PublicRouteConverges: assumes namespace slugs without a slash, as `src/shared/slugs.ts` enforces, and a row whose namespace exists.
- The start of the first row of a foreign sidecar: the parser does not check that it is zero, so neither does the model.
- Authentication, sessions, gateway routing, forge administration, and all user interface code.
