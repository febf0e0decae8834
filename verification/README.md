# MongoMVCC maintenance engine: garbage collection of commits and documents

A Dafny model of the garbage collector in `MongoDBVMaintenance`, the part of
MongoMVCC that reclaims history no branch can reach. Without its MongoDB calls
it is three algorithms over sets of 64-bit ids.

- **Dangling commits** (`doFindDanglingCommits`). Start from every commit that
  the expiry filter selects, meaning it has no timestamp or one older than
  `maxTime`. Walk the parent chain from every branch head. A walk stops at
  commit 0, or at a commit an earlier walk already checked. Drop every visited
  commit. What is left is dangling.
- **Unreferenced documents** (`doFindUnreferencedDocuments`). Start from every
  eligible document of a collection. Drop every oid that appears as a value in
  the delta map for that collection, in any commit. Reachable and dangling
  commits both count.
- **Batched deletion** (`pruneDanglingCommits`, `pruneUnreferencedDocuments`).
  The found ids are deleted in consecutive slices of at most 1000 ids, one
  delete request per slice. The operation returns how many ids were found.

The store is a set of immutable values:

- the commits collection is a `map<Id, Commit>`;
- a commit holds its parent id, an optional timestamp, and, per collection, the
  delta map from uid to oid;
- the branches are the sequence of their head ids;
- a user collection is a map from oid to optional timestamp.

The clock and the expiry in milliseconds are integer parameters. Deleting is
map-domain subtraction.

`VHistory.getParent` is not part of this model. It is modelled as the stored
commit's `parent` field, under two preconditions:

- `ParentOrdered`: ids grow with creation time, so a parent's id is non-negative
  and smaller than its child's id;
- `HeadsIntact`: every head's chain reaches 0 through stored commits.

A walk in the model terminates for the same reason the Java loop does: each
step checks a commit that was not checked before, and there are only finitely
many commits. The ordering makes `Chain` and `Intact` well-founded. It is also
a precondition of every walk, and it shows that a walk never stops at a commit
it checked itself.

Modules, one per concern: `Ids` (ids, `Option`, set to array), `JavaInt` (Java
`long`/`int` wrap-around), `History` (commit graph, chains, reachability),
`Expiry` (the time window), `Dangling`, `Unreferenced`, `Chunks` (the slice
loop) and `Maintenance` (the prune operations and what pruning does to later
scans).

Three behaviours of the code a reader may not expect:

- Walks stop before commit 0. If a commit with id 0 is stored and is old
  enough, no branch protects it and it is reported
  (`Dangling.StoredRootIsNotProtected`).
- A second prune is guaranteed to return 0 only for the same `maxTime`. With
  a real clock, commits that have aged into the window in the meantime are
  found on the second run. `Maintenance.PruneThenFindNothing` states the property for a fixed
  `maxTime`.
- A prune may delete the old, unreachable parent of a young, unreachable
  commit. The young commit is kept, but its chain no longer reaches commit 0
  (`Maintenance.PruneStrandsYoungCommit`).

## Model

| member | source | states |
|---|---|---|
| `Expiry.MaxTime` | src/main/java/de/fhg/igd/mongomvcc/impl/MongoDBVMaintenance.java:88-93 | `maxTime` is `now - expiryMillis` whenever that fits in a Java `long`; otherwise it is that difference shifted by 2^64, the way long subtraction wraps |
| `Expiry.Eligible` | src/main/java/de/fhg/igd/mongomvcc/impl/MongoDBVMaintenance.java:100-102 | the `$not $gte` filter: an item is selected exactly when it does not carry a timestamp at or after `maxTime`, so a missing timestamp is selected |
| `History.Chain` | src/main/java/de/fhg/igd/mongomvcc/impl/MongoDBVMaintenance.java:116-123 | a full parent walk visits only stored commits, never commit 0, and visits its start exactly when that is a stored non-zero commit |
| `History.Ancestry` | src/main/java/de/fhg/igd/mongomvcc/impl/MongoDBVMaintenance.java:110-124 | a commit is reachable exactly when it lies on the full chain of some branch head |
| `History.ChainClosed` | src/main/java/de/fhg/igd/mongomvcc/impl/MongoDBVMaintenance.java:116-122 | the chain of any commit on a chain is contained in that chain |
| `History.AncestryClosed` | src/main/java/de/fhg/igd/mongomvcc/impl/MongoDBVMaintenance.java:117-119 | the chain of a commit already reached from an earlier head is reached entirely, which is why the early break may stop there |
| `History.RemovalKeepsChain` | src/main/java/de/fhg/igd/mongomvcc/impl/MongoDBVMaintenance.java:116-123 | deleting commits off a head's chain leaves that chain, and its reaching 0, unchanged |
| `History.RemovalKeepsAncestry` | src/main/java/de/fhg/igd/mongomvcc/impl/MongoDBVMaintenance.java:109-124 | deleting unreachable commits leaves every branch chain intact and the reachable set unchanged |
| `Dangling.DanglingSet` | src/main/java/de/fhg/igd/mongomvcc/impl/MongoDBVMaintenance.java:95-127 | a commit is dangling exactly when it is stored, eligible, and on the full chain of no branch head |
| `Dangling.WalkChain` | src/main/java/de/fhg/igd/mongomvcc/impl/MongoDBVMaintenance.java:115-123 | the walk with the `alreadyCheckedCommits` break ends having checked, and dropped from the dangling set, exactly the commits a full walk of the chain would; it extends the visit log and visits no commit twice; it terminates because the unchecked commits shrink |
| `Dangling.FindDanglingCommits` | src/main/java/de/fhg/igd/mongomvcc/impl/MongoDBVMaintenance.java:95-128 | the returned ids have no repeats and are exactly the dangling commits for `now - expiryMillis`; across all branches the walks visit each reachable commit exactly once |
| `Dangling.StoredRootIsNotProtected` | src/main/java/de/fhg/igd/mongomvcc/impl/MongoDBVMaintenance.java:116 | a stored, old enough commit with id 0 is reported, because every walk stops before 0 |
| `Unreferenced.EliminateReferences` | src/main/java/de/fhg/igd/mongomvcc/impl/MongoDBVMaintenance.java:181-188 | iterating one delta map removes from the candidates exactly the oids that are values of that map |
| `Unreferenced.FindUnreferencedDocuments` | src/main/java/de/fhg/igd/mongomvcc/impl/MongoDBVMaintenance.java:161-193 | the returned oids have no repeats and are exactly the eligible documents of the collection that no delta of any stored commit maps to |
| `Ids.SetToSeq` | src/main/java/de/fhg/igd/mongomvcc/impl/MongoDBVMaintenance.java:127 | an id set becomes an array holding each member once and nothing else, in no promised order |
| `Chunks.SliceSize` | src/main/java/de/fhg/igd/mongomvcc/impl/MongoDBVMaintenance.java:78 | a slice taken inside the array has between 1 and 1000 ids and stays inside the array; only the last slice may be shorter |
| `Chunks.DeleteInChunks` | src/main/java/de/fhg/igd/mongomvcc/impl/MongoDBVMaintenance.java:76-83 | the corrected loop, advancing by the slice size: slice k holds ids k·1000 up to (k+1)·1000 of the found array, each slice has 1 to 1000 ids, laid end to end they are the found array, there are ⌈n/1000⌉ of them, and exactly the found ids leave the table while every other entry stays as it was |
| `Chunks.ConcatMembers` | src/main/java/de/fhg/igd/mongomvcc/impl/MongoDBVMaintenance.java:149-156 | an id is in the found array exactly when some slice holds it |
| `Chunks.DistinctSlicesDisjoint` | src/main/java/de/fhg/igd/mongomvcc/impl/MongoDBVMaintenance.java:149-156 | when the found array has no repeats, no id is sent in two delete requests |
| `Chunks.AsWrittenIndexOverflows` | src/main/java/de/fhg/igd/mongomvcc/impl/MongoDBVMaintenance.java:77-80 | for an array of 2,147,483,001 ids, `i += 1000` wraps to a negative index that still passes `i < length`, and the next slice length is negative |
| `Chunks.AsWrittenOverflowBound` | src/main/java/de/fhg/igd/mongomvcc/impl/MongoDBVMaintenance.java:77 | the `i += 1000` index wraps after the last slice exactly for arrays longer than 2,147,483,000 ids |
| `Chunks.CorrectedAgreesWithoutOverflow` | src/main/java/de/fhg/igd/mongomvcc/impl/MongoDBVMaintenance.java:77-78 | wherever `i += 1000` does not overflow, the corrected step takes the same slice and continues or stops as the source does |
| `Chunks.AsWrittenStepInRange` | src/main/java/de/fhg/igd/mongomvcc/impl/MongoDBVMaintenance.java:77-78 | below 2,147,483,000 ids one `i += 1000` step stays in `int` range, takes the same slice as the corrected step, and advances the deleted prefix to the slice's end |
| `Chunks.AsWrittenDeleteInChunks` | src/main/java/de/fhg/igd/mongomvcc/impl/MongoDBVMaintenance.java:76-83 | the loop as written, in Java `int` arithmetic: for arrays of at most 2,147,483,000 ids slice k holds ids k·1000 up to (k+1)·1000 of the found array, its slices have 1 to 1000 ids, laid end to end they are the found array, there are ⌈n/1000⌉ of them, and exactly the found ids leave the table |
| `Maintenance.PruneDanglingCommits` | src/main/java/de/fhg/igd/mongomvcc/impl/MongoDBVMaintenance.java:70-86 | returns the number of dangling commits; deletes exactly those, in disjoint slices of 1 to 1000 ids that together cover them and send `count` ids with no repeats; leaves every reachable commit and every other commit as it was |
| `Maintenance.PruneUnreferencedDocuments` | src/main/java/de/fhg/igd/mongomvcc/impl/MongoDBVMaintenance.java:142-159 | returns the number of unreferenced documents; deletes exactly those, in disjoint slices of 1 to 1000 ids that send `count` ids with no repeats; never deletes a document some commit references |
| `Maintenance.PruneThenFindNothing` | src/main/java/de/fhg/igd/mongomvcc/impl/MongoDBVMaintenance.java:95-127 | after the dangling commits are deleted, every branch chain is intact, the reachable commits are the same, and a new scan with the same `maxTime` and branches finds none |
| `Maintenance.RootHeadRemovesNothing` | src/main/java/de/fhg/igd/mongomvcc/impl/MongoDBVMaintenance.java:116 | a branch whose head is 0 changes nothing about which commits are dangling |
| `Maintenance.RemovalFreesDocuments` | src/main/java/de/fhg/igd/mongomvcc/impl/MongoDBVMaintenance.java:175-189 | deleting commits never turns an unreferenced document into a referenced one; afterwards a document is unreferenced exactly when every commit that referenced it was deleted |
| `Maintenance.NoDeltaNoEffect` | src/main/java/de/fhg/igd/mongomvcc/impl/MongoDBVMaintenance.java:179-181 | a commit without a delta, or with an empty delta, for the collection has no effect on which documents are unreferenced |
| `Maintenance.PruneStrandsYoungCommit` | src/main/java/de/fhg/igd/mongomvcc/impl/MongoDBVMaintenance.java:95-127 | with commit 3 off the head 1 old and commit 4 on top of 3 young, only 3 is dangling; 4's chain reaches 0 before the prune and no longer does after it |
| `Maintenance.ForkedStoreScenario` | src/main/java/de/fhg/igd/mongomvcc/impl/MongoDBVMaintenance.java:95-193 | with the chain 1 ← 2 under the head and commit 3 forked off 1, only 3 is dangling; a document only 3 references is kept by a document scan before the commit prune and reported by one after it |

## Left out

- MongoDB I/O is not modelled: `fsyncAndLock`/`unlock`, `find`, `remove`, cursors and query objects. Scans read immutable maps and a delete is map-domain subtraction.
- The database lock and commits created concurrently during a scan are not modelled, because that is concurrency. The class comment itself calls the lock a best-effort precaution.
- Store failures are not modelled. An I/O error aborting a scan or a prune part-way is an I/O concern.
- `TimeUnit.toMillis` and `System.currentTimeMillis` are not modelled. The model takes `now` and `expiryMillis` as `long`-range integers.
- `Tree.deserializeCommit` and the internals of `IdHashSet`/`IdMap`/`IdMapIterator` are not part of this model. Dafny sets and maps stand in for them.
- `VHistory.getParent` is not part of this model. It is the stored commit's `parent`. Its behaviour for a missing commit is unknown, so the dangling scan requires every head's chain to be intact (`HeadsIntact`). It also requires ids to be ordered (`ParentOrdered`).
- Branch names are dropped. The scan reads only each branch's head id.
- MongoDB's treatment of a non-numeric timestamp value under `$not $gte` is not modelled. A timestamp is either absent or an integer.
- The order of the ids in a found array is not modelled. It depends on the hash set's iteration order.
- Maintenance.PruneDanglingCommits: requires the found set to fit in one Java array (at most 2^31 - 1 ids), because Java cannot build a larger array. It deletes with the corrected loop `Chunks.DeleteInChunks`, so for 2,147,483,001 to 2^31 - 1 ids it returns the count where the Java loop throws (see ## Findings).
- Maintenance.PruneUnreferencedDocuments: requires the found set to fit in one Java array, for the same reason. It also deletes with the corrected loop `Chunks.DeleteInChunks`, so for 2,147,483,001 to 2^31 - 1 ids it returns the count where the Java loop at lines 150-153 throws (see ## Findings).
- Chunks.AsWrittenDeleteInChunks: models the Java slice loop as written only for arrays of at most 2,147,483,000 ids. Above that its index wraps and the loop throws; `Chunks.AsWrittenIndexOverflows` and the finding below show that case.
- The read path is not part of this model: checkout, delta-chain resolution and the index tests that exercise them.

## Findings

| source | as written | input that shows it | evidently intended | confidence | as-written member | corrected member |
|---|---|---|---|---|---|---|
| src/main/java/de/fhg/igd/mongomvcc/impl/MongoDBVMaintenance.java:77-80 (and :150-153) | the slice loop advances with `i += sliceCount` in 32-bit `int` arithmetic | a found array of 2,147,483,001 ids: after the slice at 2,147,483,000 the index wraps to -2,147,483,296, which still passes `i < length`; `Math.min(1000, length - i)` is then -999, so `new long[-999]` throws after every id has been deleted and the count is never returned | each slice is 1 to 1000 ids taken inside the array, and the loop ends after the last one | low: needs an array of more than 2,147,483,000 ids; not executed | `Chunks.AsWrittenIndexOverflows` (with `Chunks.AsWrittenDeleteInChunks` below the bound, `Chunks.AsWrittenNextIndex`, `Chunks.AsWrittenSliceLength`, `Chunks.AsWrittenOverflowBound`) | `Chunks.DeleteInChunks` (advances by the slice size, so the index never passes the array length; `Chunks.CorrectedAgreesWithoutOverflow`) |
