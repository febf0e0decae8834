/** The commit graph as the maintenance engine sees it: every stored commit
    names its parent (0 for a root commit), and the parent chain of a commit is
    what `VHistory.getParent` walks. */
module History {
  import opened Ids

  /** A sealed commit: its parent's id (0 = none), an optional creation
      timestamp in milliseconds, and per collection the delta map from object
      uid to the document oid that became current in this commit. */
  datatype Commit = Commit(parent: Id, timestamp: Option<int>, objects: map<string, map<Id, Id>>)

  /** The commits collection, keyed by commit id. */
  type CommitStore = map<Id, Commit>

  /** Commit ids grow with creation time, so a stored commit's parent has a
      smaller, non-negative id. This is what makes every parent chain finite. */
  ghost predicate ParentOrdered(store: CommitStore) {
    forall c :: c in store && c != 0 ==> 0 <= store[c].parent < c
  }

  /** The parent chain from `c` reaches commit 0 through stored commits only,
      so `getParent` is never asked about a commit that is not there. */
  ghost predicate Intact(store: CommitStore, c: Id)
    requires ParentOrdered(store)
    decreases if c < 0 then 0 else c
  {
    c == 0 || (c in store && Intact(store, store[c].parent))
  }

  /** Every branch head has an intact chain. */
  ghost predicate HeadsIntact(store: CommitStore, heads: seq<Id>)
    requires ParentOrdered(store)
  {
    forall i :: 0 <= i < |heads| ==> Intact(store, heads[i])
  }

  /** The ids on the parent chain of `c`, commit 0 excluded: everything a full
      walk from `c` visits. */
  ghost function Chain(store: CommitStore, c: Id): (r: set<Id>)
    requires ParentOrdered(store)
    ensures r <= store.Keys
    ensures 0 !in r
    ensures c in r <==> c != 0 && c in store
    ensures forall x :: x in r ==> 0 < x <= c
    decreases if c < 0 then 0 else c
  {
    if c == 0 || c !in store then {} else {c} + Chain(store, store[c].parent)
  }

  /** The commits reachable from some branch head: the union of the full
      chains of all heads. */
  ghost function Ancestry(store: CommitStore, heads: seq<Id>): (r: set<Id>)
    requires ParentOrdered(store)
    ensures r <= store.Keys
    ensures forall c :: c in r <==> exists i :: 0 <= i < |heads| && c in Chain(store, heads[i])
  {
    if heads == [] then {}
    else Ancestry(store, heads[..|heads| - 1]) + Chain(store, heads[|heads| - 1])
  }

  /** The chain of any commit on a chain is part of that chain. */
  lemma {:induction false} ChainClosed(store: CommitStore, h: Id, x: Id)
    requires ParentOrdered(store)
    requires x in Chain(store, h)
    ensures Chain(store, x) <= Chain(store, h)
    decreases if h < 0 then 0 else h
  {
    if x != h {
      ChainClosed(store, store[h].parent, x);
    }
  }

  /** The reachable commits are closed under taking parents. */
  lemma AncestryClosed(store: CommitStore, heads: seq<Id>, x: Id)
    requires ParentOrdered(store)
    requires x in Ancestry(store, heads)
    ensures Chain(store, x) <= Ancestry(store, heads)
  {
    var i :| 0 <= i < |heads| && x in Chain(store, heads[i]);
    ChainClosed(store, heads[i], x);
  }

  /** Removing commits keeps the ids ordered. */
  lemma RemovalKeepsOrder(store: CommitStore, removed: set<Id>)
    requires ParentOrdered(store)
    ensures ParentOrdered(store - removed)
  {
  }

  /** Removing commits off a chain leaves that chain, and its intactness, as
      it was. */
  lemma {:induction false} RemovalKeepsChain(store: CommitStore, removed: set<Id>, c: Id)
    requires ParentOrdered(store)
    requires Intact(store, c)
    requires Chain(store, c) !! removed
    ensures ParentOrdered(store - removed)
    ensures Intact(store - removed, c)
    ensures Chain(store - removed, c) == Chain(store, c)
    decreases if c < 0 then 0 else c
  {
    RemovalKeepsOrder(store, removed);
    if c != 0 {
      RemovalKeepsChain(store, removed, store[c].parent);
    }
  }

  /** Removing commits that no head reaches leaves every head's chain, and so
      the set of reachable commits, unchanged. */
  lemma RemovalKeepsAncestry(store: CommitStore, heads: seq<Id>, removed: set<Id>)
    requires ParentOrdered(store)
    requires HeadsIntact(store, heads)
    requires Ancestry(store, heads) !! removed
    ensures ParentOrdered(store - removed)
    ensures HeadsIntact(store - removed, heads)
    ensures Ancestry(store - removed, heads) == Ancestry(store, heads)
  {
    RemovalKeepsOrder(store, removed);
    forall i | 0 <= i < |heads|
      ensures Intact(store - removed, heads[i])
      ensures Chain(store - removed, heads[i]) == Chain(store, heads[i])
    {
      RemovalKeepsChain(store, removed, heads[i]);
    }
    var before := Ancestry(store, heads);
    var after := Ancestry(store - removed, heads);
    forall c ensures c in after <==> c in before {
      if c in after {
        var i :| 0 <= i < |heads| && c in Chain(store - removed, heads[i]);
      }
      if c in before {
        var i :| 0 <= i < |heads| && c in Chain(store, heads[i]);
      }
    }
  }
}
