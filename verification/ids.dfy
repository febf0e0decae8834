/** Object and commit identifiers, the optional values the store may hold, and
    the conversion of an id set into an array of ids (`IdSet.toArray`). */
module Ids {

  /** A 64-bit object or commit id. Ids are compared for equality and, for
      commits, by size (a parent's id is smaller than its child's); no
      arithmetic is done on them, so their width plays no role in the model. */
  type Id = int

  /** A value that may be absent, like a timestamp field a document lacks. */
  datatype Option<+T> = None | Some(value: T)

  /** No element occurs twice. */
  predicate Distinct<T(==)>(s: seq<T>) {
    forall i, j :: 0 <= i < j < |s| ==> s[i] != s[j]
  }

  /** The elements of a sequence, as a set. */
  function Elements<T>(s: seq<T>): set<T> {
    set x | x in s
  }

  /** A non-empty set has a member to pick. */
  lemma NonEmptyHasMember(s: set<Id>)
    requires s != {}
    ensures exists x :: x in s
  {
    if forall x :: x !in s {
      assert false;
    }
  }

  /** Lists the members of an id set in some order, each exactly once. */
  method SetToSeq(s: set<Id>) returns (r: seq<Id>)
    ensures Distinct(r)
    ensures forall x :: x in r <==> x in s
    ensures Elements(r) == s
    ensures |r| == |s|
  {
    r := [];
    var rest := s;
    while rest != {}
      invariant rest <= s
      invariant forall x :: x in r <==> x in s && x !in rest
      invariant Distinct(r)
      invariant |r| + |rest| == |s|
      decreases |rest|
    {
      NonEmptyHasMember(rest);
      var x :| x in rest;
      r := r + [x];
      rest := rest - {x};
    }
  }
}
