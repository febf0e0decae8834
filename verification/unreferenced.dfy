/** Unreferenced-document detection (`doFindUnreferencedDocuments`): old
    documents of a collection that no commit's delta points to. */
module Unreferenced {
  import opened Ids
  import opened JavaInt
  import opened History
  import opened Expiry

  /** A user collection: document oid to its optional timestamp. */
  type DocumentTable = map<Id, Option<int>>

  /** Some commit's delta for `coll` maps some uid to `oid`. Every stored
      commit counts, whether a branch reaches it or not. */
  ghost predicate Referenced(store: CommitStore, coll: string, oid: Id) {
    exists c, u :: c in store && coll in store[c].objects && u in store[c].objects[coll] && store[c].objects[coll][u] == oid
  }

  /** Some commit of `cs` references `oid` in `coll`. */
  ghost predicate ReferencedAmong(store: CommitStore, cs: set<Id>, coll: string, oid: Id) {
    exists c, u :: c in cs && c in store && coll in store[c].objects && u in store[c].objects[coll] && store[c].objects[coll][u] == oid
  }

  /** The documents the timestamp filter selects and no commit references. */
  ghost function UnreferencedSet(docs: DocumentTable, store: CommitStore, coll: string, maxTime: int): set<Id> {
    set o | o in docs && Eligible(docs[o], maxTime) && !Referenced(store, coll, o)
  }

  /** Looking at all commits is the same as looking at every stored one. */
  lemma ReferencedAmongAll(store: CommitStore, coll: string, oid: Id)
    ensures ReferencedAmong(store, store.Keys, coll, oid) <==> Referenced(store, coll, oid)
  {
  }

  /** The inner loop: iterates one delta map and removes each value it holds
      from the candidate oids. */
  method EliminateReferences(oids: set<Id>, objs: map<Id, Id>) returns (rest: set<Id>)
    ensures forall o :: o in rest <==> o in oids && forall u :: u in objs ==> objs[u] != o
  {
    rest := oids;
    var keys := objs.Keys;
    while keys != {}
      invariant keys <= objs.Keys
      invariant forall o :: o in rest <==> o in oids && forall u :: u in objs && u !in keys ==> objs[u] != o
      decreases keys
    {
      NonEmptyHasMember(keys);
      var u :| u in keys;
      rest := rest - {objs[u]};
      keys := keys - {u};
    }
  }

  /** Collects the eligible documents of `coll`, then removes every oid that
      a delta of any commit for `coll` holds, and lists what is left. */
  method FindUnreferencedDocuments(docs: DocumentTable, store: CommitStore, coll: string, now: int, expiryMillis: int)
    returns (oids: seq<Id>)
    requires IsLong(now) && IsLong(expiryMillis)
    ensures Distinct(oids)
    ensures forall o :: o in oids <==>
      && o in docs
      && Eligible(docs[o], MaxTime(now, expiryMillis))
      && !Referenced(store, coll, o)
    ensures Elements(oids) == UnreferencedSet(docs, store, coll, MaxTime(now, expiryMillis))
    ensures |oids| == |UnreferencedSet(docs, store, coll, MaxTime(now, expiryMillis))|
  {
    var maxTime := MaxTime(now, expiryMillis);
    var remaining := set o | o in docs && Eligible(docs[o], maxTime);
    var pending := store.Keys;
    while pending != {}
      invariant pending <= store.Keys
      invariant forall o :: o in remaining <==>
        o in docs && Eligible(docs[o], maxTime) && !ReferencedAmong(store, store.Keys - pending, coll, o)
      decreases pending
    {
      NonEmptyHasMember(pending);
      var c :| c in pending;
      var commit := store[c];
      if coll in commit.objects {
        remaining := EliminateReferences(remaining, commit.objects[coll]);
      }
      pending := pending - {c};
    }
    forall o ensures o in remaining <==> o in UnreferencedSet(docs, store, coll, maxTime) {
      ReferencedAmongAll(store, coll, o);
    }
    assert remaining == UnreferencedSet(docs, store, coll, maxTime);
    oids := SetToSeq(remaining);
  }
}
