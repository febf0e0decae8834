/** The batched delete shared by `pruneDanglingCommits` and
    `pruneUnreferencedDocuments`: the found ids are sent to the store in
    consecutive slices of at most `SliceCount` ids, one `remove` per slice, so
    that no request exceeds the store's maximum document size. */
module Chunks {
  import opened Ids
  import opened JavaInt

  /** The largest number of ids in one delete request. */
  const SliceCount: int := 1000

  /** The slices laid end to end. */
  function Concat(slices: seq<seq<Id>>): seq<Id> {
    if slices == [] then [] else Concat(slices[..|slices| - 1]) + slices[|slices| - 1]
  }

  /** An id lies in the concatenation exactly when it lies in some slice. */
  lemma {:induction false} ConcatMembers(slices: seq<seq<Id>>, x: Id)
    ensures x in Concat(slices) <==> exists k :: 0 <= k < |slices| && x in slices[k]
  {
    if slices != [] {
      var init := slices[..|slices| - 1];
      ConcatMembers(init, x);
      if exists k :: 0 <= k < |init| && x in init[k] {
        var k :| 0 <= k < |init| && x in init[k];
        assert slices[k] == init[k];
      }
    }
  }

  /** A repetition-free concatenation is made of two repetition-free parts
      that share no id. */
  lemma DistinctAppend(a: seq<Id>, b: seq<Id>)
    requires Distinct(a + b)
    ensures Distinct(a)
    ensures forall x :: x in a ==> x !in b
  {
    forall i, j | 0 <= i < j < |a| ensures a[i] != a[j] {
      assert (a + b)[i] == a[i] && (a + b)[j] == a[j];
    }
    forall p, q | 0 <= p < |a| && 0 <= q < |b| ensures a[p] != b[q] {
      assert (a + b)[p] == a[p] && (a + b)[|a| + q] == b[q];
    }
  }

  /** When the concatenation repeats no id, no id lies in two slices: each
      found id is deleted by exactly one request. */
  lemma {:induction false} DistinctSlicesDisjoint(slices: seq<seq<Id>>)
    requires Distinct(Concat(slices))
    ensures forall j, k, x :: 0 <= j < k < |slices| && x in slices[j] ==> x !in slices[k]
  {
    if slices != [] {
      var init := slices[..|slices| - 1];
      var last := slices[|slices| - 1];
      DistinctAppend(Concat(init), last);
      DistinctSlicesDisjoint(init);
      forall j, k, x | 0 <= j < k < |slices| && x in slices[j]
        ensures x !in slices[k]
      {
        assert slices[j] == init[j];
        if k < |init| {
          assert slices[k] == init[k];
        } else {
          ConcatMembers(init, x);
        }
      }
    }
  }

  /** The length of the slice the loop takes at index `i`. */
  function SliceSize(len: int, i: int): (n: int)
    requires 0 <= i < len
    ensures 1 <= n <= SliceCount
    ensures i + n <= len
    ensures n < SliceCount ==> i + n == len
  {
    Min(SliceCount, len - i)
  }

  /** Deletes `ids` from `table` one slice at a time. The index advances by
      the size of the slice just taken, so it never leaves the array and
      never exceeds Java's `int` range. */
  method DeleteInChunks<V>(table: map<Id, V>, ids: seq<Id>) returns (table': map<Id, V>, slices: seq<seq<Id>>)
    requires |ids| <= IntMax
    ensures forall k :: 0 <= k < |slices| ==> 1 <= |slices[k]| <= SliceCount
    ensures Concat(slices) == ids
    ensures |slices| == (|ids| + SliceCount - 1) / SliceCount
    ensures table'.Keys == table.Keys - Elements(ids)
    ensures forall k :: k in table' ==> table'[k] == table[k]
    ensures forall k :: 0 <= k < |slices| ==>
      k * SliceCount < |ids| && slices[k] == ids[k * SliceCount .. Min((k + 1) * SliceCount, |ids|)]
  {
    table' := table;
    slices := [];
    var i := 0;
    while i < |ids|
      invariant 0 <= i <= |ids| && IsInt(i)
      invariant i == |ids| || i % SliceCount == 0
      invariant Concat(slices) == ids[..i]
      invariant forall k :: 0 <= k < |slices| ==> 1 <= |slices[k]| <= SliceCount
      invariant |slices| == (i + SliceCount - 1) / SliceCount
      invariant table'.Keys == table.Keys - Elements(ids[..i])
      invariant forall k :: k in table' ==> table'[k] == table[k]
      invariant i == |ids| || i == |slices| * SliceCount
      invariant forall k :: 0 <= k < |slices| ==>
        k * SliceCount < i && slices[k] == ids[k * SliceCount .. Min((k + 1) * SliceCount, |ids|)]
    {
      var n := SliceSize(|ids|, i);
      var slice := ids[i..i + n];
      assert ids[..i + n] == ids[..i] + slice;
      assert Elements(ids[..i + n]) == Elements(ids[..i]) + Elements(slice);
      table' := table' - Elements(slice);
      assert (slices + [slice])[..|slices|] == slices;
      slices := slices + [slice];
      i := i + n;
    }
    assert ids[..i] == ids;
  }

  /** The slice length `Math.min(sliceCount, length - i)` of the Java loop in
      `pruneDanglingCommits`, in Java `int` arithmetic. */
  function AsWrittenSliceLength(len: int, i: int): int {
    Min(SliceCount, WrapInt(len - i))
  }

  /** The `i += sliceCount` step of the Java loop, in `int` arithmetic. */
  function AsWrittenNextIndex(i: int): int {
    WrapInt(i + SliceCount)
  }

  /** An array of 2,147,483,001 ids: the last slice starts at 2,147,483,000,
      `i += 1000` then wraps to a negative index that still passes the loop
      test, and the next slice length is negative, so allocating the slice
      throws after every id has been deleted and the count is never
      returned. */
  lemma AsWrittenIndexOverflows()
    ensures var len, i := 2147483001, 2147483000;
      && IsInt(len) && i < len && i % SliceCount == 0
      && AsWrittenSliceLength(len, i) == 1
      && AsWrittenNextIndex(i) < 0
      && AsWrittenNextIndex(i) < len
      && AsWrittenSliceLength(len, AsWrittenNextIndex(i)) < 0
  {
  }

  /** The as-written index wraps, at the start of the last slice, exactly for
      arrays longer than 2,147,483,000 ids. */
  lemma AsWrittenOverflowBound(len: int)
    requires 0 < len <= IntMax
    ensures var last := (len - 1) / SliceCount * SliceCount;
      AsWrittenNextIndex(last) < 0 <==> len > 2147483000
  {
  }

  /** Wherever the `i += sliceCount` step does not overflow, the corrected
      step takes the same slice and continues or stops alike. */
  lemma CorrectedAgreesWithoutOverflow(len: int, i: int)
    requires 0 <= i < len <= IntMax
    requires i + SliceCount <= IntMax
    ensures AsWrittenSliceLength(len, i) == SliceSize(len, i)
    ensures AsWrittenNextIndex(i) < len <==> i + SliceSize(len, i) < len
    ensures i + SliceSize(len, i) < len ==> AsWrittenNextIndex(i) == i + SliceSize(len, i)
  {
  }

  /** Below the overflow bound one as-written step stays in `int` range,
      takes the corrected slice, and moves the deleted prefix to its end. */
  lemma AsWrittenStepInRange(len: int, i: int)
    requires 0 <= i < len <= 2147483000 && i % SliceCount == 0
    ensures AsWrittenSliceLength(len, i) == SliceSize(len, i)
    ensures var next := AsWrittenNextIndex(i);
      && next == i + SliceCount && IsInt(next) && next % SliceCount == 0
      && Min(next, len) == i + SliceSize(len, i)
      && (Min(next, len) + SliceCount - 1) / SliceCount == (i + SliceCount - 1) / SliceCount + 1
  {
  }

  /** The Java slice loop of `pruneDanglingCommits` as written: `i` advances
      by `SliceCount` and each slice has `Math.min(sliceCount, length - i)`
      ids, in Java `int` arithmetic. Below the overflow bound it deletes
      exactly what the corrected loop deletes, in the same slices. */
  method AsWrittenDeleteInChunks<V>(table: map<Id, V>, ids: seq<Id>) returns (table': map<Id, V>, slices: seq<seq<Id>>)
    requires |ids| <= 2147483000
    ensures forall k :: 0 <= k < |slices| ==> 1 <= |slices[k]| <= SliceCount
    ensures Concat(slices) == ids
    ensures |slices| == (|ids| + SliceCount - 1) / SliceCount
    ensures table'.Keys == table.Keys - Elements(ids)
    ensures forall k :: k in table' ==> table'[k] == table[k]
    ensures forall k :: 0 <= k < |slices| ==>
      k * SliceCount < |ids| && slices[k] == ids[k * SliceCount .. Min((k + 1) * SliceCount, |ids|)]
  {
    table' := table;
    slices := [];
    var i := 0;
    ghost var done := 0;
    while i < |ids|
      invariant 0 <= i && IsInt(i) && i % SliceCount == 0
      invariant done == Min(i, |ids|)
      invariant Concat(slices) == ids[..done]
      invariant forall k :: 0 <= k < |slices| ==> 1 <= |slices[k]| <= SliceCount
      invariant |slices| == (done + SliceCount - 1) / SliceCount
      invariant table'.Keys == table.Keys - Elements(ids[..done])
      invariant forall k :: k in table' ==> table'[k] == table[k]
      invariant i == |slices| * SliceCount
      invariant forall k :: 0 <= k < |slices| ==>
        k * SliceCount < done && slices[k] == ids[k * SliceCount .. Min((k + 1) * SliceCount, |ids|)]
    {
      AsWrittenStepInRange(|ids|, i);
      var n := AsWrittenSliceLength(|ids|, i);
      var slice := ids[i..i + n];
      assert ids[..i + n] == ids[..i] + slice;
      assert Elements(ids[..i + n]) == Elements(ids[..i]) + Elements(slice);
      table' := table' - Elements(slice);
      assert (slices + [slice])[..|slices|] == slices;
      slices := slices + [slice];
      done := i + n;
      i := AsWrittenNextIndex(i);
    }
    assert ids[..done] == ids;
  }
}
