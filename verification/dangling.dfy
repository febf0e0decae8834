/** Dangling-commit detection (`doFindDanglingCommits`): old commits that no
    branch head reaches. */
module Dangling {
  import opened Ids
  import opened JavaInt
  import opened History
  import opened Expiry

  /** The commits the timestamp filter selects. */
  ghost function EligibleCommits(store: CommitStore, maxTime: int): set<Id> {
    set c | c in store && Eligible(store[c].timestamp, maxTime)
  }

  /** The reference answer: eligible commits off every full head chain. */
  ghost function DanglingSet(store: CommitStore, heads: seq<Id>, maxTime: int): (r: set<Id>)
    requires ParentOrdered(store)
    ensures r !! Ancestry(store, heads)
    ensures forall c :: c in r <==>
      && c in store
      && Eligible(store[c].timestamp, maxTime)
      && forall i :: 0 <= i < |heads| ==> c !in Chain(store, heads[i])
  {
    EligibleCommits(store, maxTime) - Ancestry(store, heads)
  }

  /** No commit of `s` has a parent chain leaving `s`. */
  ghost predicate Closed(store: CommitStore, s: set<Id>)
    requires ParentOrdered(store)
  {
    forall x :: x in s ==> Chain(store, x) <= s
  }

  /** The reachable commits are closed under parents. */
  lemma ReachableClosed(store: CommitStore, heads: seq<Id>)
    requires ParentOrdered(store)
    ensures Closed(store, Ancestry(store, heads))
  {
    forall x | x in Ancestry(store, heads) ensures Chain(store, x) <= Ancestry(store, heads) {
      AncestryClosed(store, heads, x);
    }
  }

  /** One branch walk: from `head` towards the root, stopping at commit 0 or
      at a commit already checked, marking each commit checked and dropping it
      from `dangling`. When the checked commits are closed under parents the
      early stop loses nothing: the walk has the effect of a full walk of the
      chain, and it visits each commit of the chain not yet checked once. */
  method WalkChain(store: CommitStore, head: Id, checked: set<Id>, dangling: set<Id>, ghost visits: seq<Id>)
    returns (checked': set<Id>, dangling': set<Id>, ghost visits': seq<Id>)
    requires ParentOrdered(store)
    requires Intact(store, head)
    requires checked <= store.Keys
    requires Closed(store, checked)
    requires dangling !! checked
    requires Distinct(visits) && Elements(visits) == checked
    ensures checked' == checked + Chain(store, head)
    ensures dangling' == dangling - Chain(store, head)
    ensures Distinct(visits') && Elements(visits') == checked'
    ensures |visits'| >= |visits| && visits'[..|visits|] == visits
  {
    checked', dangling', visits' := checked, dangling, visits;
    ghost var walked: set<Id> := {};
    var cid := head;
    while cid != 0
      invariant Intact(store, cid)
      invariant checked' == checked + walked
      invariant walked !! checked
      invariant walked + Chain(store, cid) == Chain(store, head)
      invariant forall x :: x in walked ==> x > cid
      invariant dangling' == dangling - walked
      invariant Distinct(visits')
      invariant Elements(visits') == checked'
      invariant |visits'| >= |visits| && visits'[..|visits|] == visits
      // the unchecked commits shrink: the walk is bounded by the commit collection
      decreases store.Keys - checked'
    {
      if cid in checked' {
        assert cid !in walked;
        assert Chain(store, cid) <= checked;
        break;
      }
      var parent := store[cid].parent;
      assert 0 <= parent < cid;
      assert Chain(store, cid) == {cid} + Chain(store, parent);
      assert Elements(visits' + [cid]) == Elements(visits') + {cid};
      walked := walked + {cid};
      checked' := checked' + {cid};
      dangling' := dangling' - {cid};
      visits' := visits' + [cid];
      cid := parent;
    }
    assert Chain(store, cid) <= checked;
    RemoveAbsorbed(dangling, walked, Chain(store, cid), checked);
  }

  /** Removing ids that were never present changes nothing. */
  lemma RemoveAbsorbed(d: set<Id>, w: set<Id>, r: set<Id>, c: set<Id>)
    requires d !! c && r <= c
    ensures d - (w + r) == d - w
  {
  }

  /** Collects the eligible commits, walks the parent chain of every branch
      head, stopping at commit 0 or at a commit an earlier walk already
      visited, drops every visited commit, and lists what is left.
      `visits` records the walk: no commit is visited twice, and the walks
      together visit exactly the reachable commits, so the early stop loses
      nothing. */
  method FindDanglingCommits(store: CommitStore, heads: seq<Id>, now: int, expiryMillis: int)
    returns (cids: seq<Id>, ghost visits: seq<Id>)
    requires IsLong(now) && IsLong(expiryMillis)
    requires ParentOrdered(store)
    requires HeadsIntact(store, heads)
    ensures Distinct(cids)
    ensures forall c :: c in cids <==> c in DanglingSet(store, heads, MaxTime(now, expiryMillis))
    ensures Elements(cids) == DanglingSet(store, heads, MaxTime(now, expiryMillis))
    ensures |cids| == |DanglingSet(store, heads, MaxTime(now, expiryMillis))|
    ensures Distinct(visits)
    ensures Elements(visits) == Ancestry(store, heads)
  {
    var maxTime := MaxTime(now, expiryMillis);
    var dangling := set c | c in store && Eligible(store[c].timestamp, maxTime);
    var checked: set<Id> := {};
    visits := [];
    for b := 0 to |heads|
      invariant checked == Ancestry(store, heads[..b])
      invariant dangling == EligibleCommits(store, maxTime) - checked
      invariant Distinct(visits)
      invariant Elements(visits) == checked
    {
      assert heads[..b + 1][..b] == heads[..b];
      ReachableClosed(store, heads[..b]);
      checked, dangling, visits := WalkChain(store, heads[b], checked, dangling, visits);
    }
    assert heads[..|heads|] == heads;
    cids := SetToSeq(dangling);
  }

  /** Every walk stops before commit 0, so a stored commit with id 0 is
      protected by no branch: if it is old enough it is reported. */
  lemma StoredRootIsNotProtected(store: CommitStore, heads: seq<Id>, maxTime: int)
    requires ParentOrdered(store)
    requires 0 in store && Eligible(store[0].timestamp, maxTime)
    ensures 0 in DanglingSet(store, heads, maxTime)
  {
  }
}
