/** The maintenance operations as the caller sees them: find, then delete in
    slices, then report how many ids were found; and what pruning does to a
    later run of either scan. */
module Maintenance {
  import opened Ids
  import opened JavaInt
  import opened History
  import opened Expiry
  import opened Dangling
  import opened Unreferenced
  import opened Chunks

  /** `pruneDanglingCommits`: deletes every dangling commit, in slices of at
      most `SliceCount` ids that share no id, and returns how many there were.
      No commit a branch head reaches is deleted, nor is any other commit
      touched. */
  method PruneDanglingCommits(store: CommitStore, heads: seq<Id>, now: int, expiryMillis: int)
    returns (count: int, store': CommitStore, slices: seq<seq<Id>>)
    requires IsLong(now) && IsLong(expiryMillis)
    requires ParentOrdered(store)
    requires HeadsIntact(store, heads)
    requires |DanglingSet(store, heads, MaxTime(now, expiryMillis))| <= IntMax
    ensures count == |DanglingSet(store, heads, MaxTime(now, expiryMillis))|
    ensures store'.Keys == store.Keys - DanglingSet(store, heads, MaxTime(now, expiryMillis))
    ensures forall c :: c in store' ==> store'[c] == store[c]
    ensures Ancestry(store, heads) <= store'.Keys
    ensures forall k :: 0 <= k < |slices| ==> 1 <= |slices[k]| <= SliceCount
    ensures forall j, k, x :: 0 <= j < k < |slices| && x in slices[j] ==> x !in slices[k]
    ensures Elements(Concat(slices)) == DanglingSet(store, heads, MaxTime(now, expiryMillis))
    ensures |slices| == (count + SliceCount - 1) / SliceCount
    ensures Distinct(Concat(slices)) && |Concat(slices)| == count
  {
    var cids, visits := FindDanglingCommits(store, heads, now, expiryMillis);
    store', slices := DeleteInChunks(store, cids);
    DistinctSlicesDisjoint(slices);
    count := |cids|;
  }

  /** `pruneUnreferencedDocuments`: deletes every unreferenced document of
      `coll` in slices and returns how many there were. A document some
      commit references is never deleted. */
  method PruneUnreferencedDocuments(docs: DocumentTable, store: CommitStore, coll: string, now: int, expiryMillis: int)
    returns (count: int, docs': DocumentTable, slices: seq<seq<Id>>)
    requires IsLong(now) && IsLong(expiryMillis)
    requires |UnreferencedSet(docs, store, coll, MaxTime(now, expiryMillis))| <= IntMax
    ensures count == |UnreferencedSet(docs, store, coll, MaxTime(now, expiryMillis))|
    ensures docs'.Keys == docs.Keys - UnreferencedSet(docs, store, coll, MaxTime(now, expiryMillis))
    ensures forall o :: o in docs' ==> docs'[o] == docs[o]
    ensures forall o :: o in docs && Referenced(store, coll, o) ==> o in docs'
    ensures forall k :: 0 <= k < |slices| ==> 1 <= |slices[k]| <= SliceCount
    ensures forall j, k, x :: 0 <= j < k < |slices| && x in slices[j] ==> x !in slices[k]
    ensures Elements(Concat(slices)) == UnreferencedSet(docs, store, coll, MaxTime(now, expiryMillis))
    ensures |slices| == (count + SliceCount - 1) / SliceCount
    ensures Distinct(Concat(slices)) && |Concat(slices)| == count
  {
    var oids := FindUnreferencedDocuments(docs, store, coll, now, expiryMillis);
    docs', slices := DeleteInChunks(docs, oids);
    DistinctSlicesDisjoint(slices);
    count := |oids|;
  }

  /** Pruning the dangling commits keeps every branch chain intact, and a
      second scan with the same window and the same branches finds nothing:
      a second prune deletes nothing and returns 0. */
  lemma PruneThenFindNothing(store: CommitStore, heads: seq<Id>, maxTime: int)
    requires ParentOrdered(store)
    requires HeadsIntact(store, heads)
    ensures var store' := store - DanglingSet(store, heads, maxTime);
      && ParentOrdered(store')
      && HeadsIntact(store', heads)
      && Ancestry(store', heads) == Ancestry(store, heads)
      && DanglingSet(store', heads, maxTime) == {}
  {
    var removed := DanglingSet(store, heads, maxTime);
    RemovalKeepsAncestry(store, heads, removed);
    var store' := store - removed;
    forall c | c in store' && Eligible(store'[c].timestamp, maxTime)
      ensures c in Ancestry(store', heads)
    {
      assert c in store && c !in removed;
    }
    assert DanglingSet(store', heads, maxTime) == {};
  }

  /** A branch whose head is commit 0 reaches nothing and protects nothing. */
  lemma RootHeadRemovesNothing(store: CommitStore, heads: seq<Id>, maxTime: int)
    requires ParentOrdered(store)
    ensures DanglingSet(store, heads + [0], maxTime) == DanglingSet(store, heads, maxTime)
  {
  }

  /** Removing commits only ever frees documents: what was unreferenced stays
      unreferenced, and a document becomes unreferenced exactly when the
      removed commits held its last references. */
  lemma RemovalFreesDocuments(docs: DocumentTable, store: CommitStore, removed: set<Id>, coll: string, maxTime: int)
    ensures UnreferencedSet(docs, store, coll, maxTime) <= UnreferencedSet(docs, store - removed, coll, maxTime)
    ensures forall o :: o in UnreferencedSet(docs, store - removed, coll, maxTime) <==>
      && o in docs
      && Eligible(docs[o], maxTime)
      && forall c, u :: (c in store && coll in store[c].objects && u in store[c].objects[coll] && store[c].objects[coll][u] == o) ==> c in removed
  {
    var store' := store - removed;
    forall o ensures Referenced(store', coll, o) <==> exists c, u :: c in store && c !in removed && coll in store[c].objects && u in store[c].objects[coll] && store[c].objects[coll][u] == o
    {
      if Referenced(store', coll, o) {
        var c, u :| c in store' && coll in store'[c].objects && u in store'[c].objects[coll] && store'[c].objects[coll][u] == o;
        assert c in store && c !in removed;
      }
      if exists c, u :: c in store && c !in removed && coll in store[c].objects && u in store[c].objects[coll] && store[c].objects[coll][u] == o {
        var c, u :| c in store && c !in removed && coll in store[c].objects && u in store[c].objects[coll] && store[c].objects[coll][u] == o;
        assert c in store' && store'[c] == store[c];
      }
    }
  }

  /** A commit without a delta for the collection references none of its
      documents: dropping it changes nothing about that collection. */
  lemma NoDeltaNoEffect(docs: DocumentTable, store: CommitStore, c: Id, coll: string, maxTime: int)
    requires c in store
    requires coll !in store[c].objects || store[c].objects[coll] == map[]
    ensures UnreferencedSet(docs, store - {c}, coll, maxTime) == UnreferencedSet(docs, store, coll, maxTime)
  {
    RemovalFreesDocuments(docs, store, {c}, coll, maxTime);
  }

  /** A root chain 1 <- 2 with the branch head at 2, and commit 3 forked off
      1 that no branch names, all of them old. */
  function ForkedStore(): CommitStore {
    map[1 := Commit(0, Some(10), map[]),
        2 := Commit(1, Some(10), map[]),
        3 := Commit(1, Some(10), map["persons" := map[7 := 70]])]
  }

  /** In that history only commit 3 is dangling. Document 70, which only
      commit 3 references, survives a document scan run before the commit
      prune and is reported by one run after it. */
  lemma {:induction false} ForkedStoreScenario()
    ensures ParentOrdered(ForkedStore()) && HeadsIntact(ForkedStore(), [2])
    ensures DanglingSet(ForkedStore(), [2], 100) == {3}
    ensures 70 !in UnreferencedSet(map[70 := Some(10)], ForkedStore(), "persons", 100)
    ensures 70 in UnreferencedSet(map[70 := Some(10)], ForkedStore() - {3}, "persons", 100)
  {
    var store := ForkedStore();
    assert Intact(store, 2) by {
      assert Intact(store, 1);
    }
    assert Chain(store, 1) == {1};
    assert Chain(store, 2) == {1, 2};
    assert Ancestry(store, [2]) == {1, 2} by {
      assert [2][..0] == [];
    }
    assert Referenced(store, "persons", 70) by {
      assert 3 in store && "persons" in store[3].objects && 7 in store[3].objects["persons"];
    }
    var pruned := store - {3};
    assert pruned.Keys == {1, 2};
    assert !Referenced(pruned, "persons", 70);
  }

  /** An old commit 3 off the root commit 1, which is the only head, and a
      young commit 4 on top of 3 that no branch names. */
  function StrandedStore(): CommitStore {
    map[1 := Commit(0, Some(10), map[]),
        3 := Commit(1, Some(10), map[]),
        4 := Commit(3, Some(1000), map[])]
  }

  /** A prune may delete the old parent of a young unreachable commit: only
      3 is dangling, so 4 is kept, and afterwards the chain of 4 no longer
      reaches commit 0. */
  lemma {:induction false} PruneStrandsYoungCommit()
    ensures ParentOrdered(StrandedStore()) && HeadsIntact(StrandedStore(), [1])
    ensures DanglingSet(StrandedStore(), [1], 100) == {3}
    ensures Intact(StrandedStore(), 4)
    ensures !Intact(StrandedStore() - {3}, 4)
  {
  }
}
