/** Order-preserving filters (Python's `[x for x in xs if keep(x)]`) and the index
    sequences that say which elements they keep. */
module Seqs {

  /** The indices grow strictly from left to right. */
  predicate Increasing(idx: seq<nat>) {
    forall a, b :: 0 <= a < b < |idx| ==> idx[a] < idx[b]
  }

  /** `min(a, b)` */
  function Min(a: int, b: int): int {
    if a <= b then a else b
  }

  /** `max(0, x)` */
  function Max0(x: int): nat {
    if x > 0 then x else 0
  }

  /** The elements of xs from index i on that satisfy keep, in order. */
  function FilterFrom<T>(xs: seq<T>, keep: T -> bool, i: nat): (r: seq<T>)
    requires i <= |xs|
    ensures |r| <= |xs| - i
    ensures forall k :: 0 <= k < |r| ==> keep(r[k])
    decreases |xs| - i
  {
    if i == |xs| then []
    else if keep(xs[i]) then [xs[i]] + FilterFrom(xs, keep, i + 1)
    else FilterFrom(xs, keep, i + 1)
  }

  /** `[x for x in xs if keep(x)]` */
  function Filter<T>(xs: seq<T>, keep: T -> bool): (r: seq<T>)
    ensures |r| <= |xs|
    ensures forall k :: 0 <= k < |r| ==> keep(r[k])
  {
    FilterFrom(xs, keep, 0)
  }

  /** The positions, from index i on, of the elements that satisfy keep. */
  function PositionsFrom<T>(xs: seq<T>, keep: T -> bool, i: nat): (r: seq<nat>)
    requires i <= |xs|
    ensures forall k :: 0 <= k < |r| ==> i <= r[k] < |xs|
    decreases |xs| - i
  {
    if i == |xs| then []
    else if keep(xs[i]) then [i] + PositionsFrom(xs, keep, i + 1)
    else PositionsFrom(xs, keep, i + 1)
  }

  lemma {:induction false} FilterFromAt<T>(xs: seq<T>, keep: T -> bool, i: nat)
    requires i <= |xs|
    ensures var idx := PositionsFrom(xs, keep, i);
      var r := FilterFrom(xs, keep, i);
      |idx| == |r| && forall k :: 0 <= k < |r| ==> r[k] == xs[idx[k]]
    decreases |xs| - i
  {
    if i < |xs| {
      FilterFromAt(xs, keep, i + 1);
    }
  }

  lemma {:induction false} PositionsFromIncreasing<T>(xs: seq<T>, keep: T -> bool, i: nat)
    requires i <= |xs|
    ensures Increasing(PositionsFrom(xs, keep, i))
    decreases |xs| - i
  {
    if i < |xs| {
      PositionsFromIncreasing(xs, keep, i + 1);
      var idx := PositionsFrom(xs, keep, i);
      var tail := PositionsFrom(xs, keep, i + 1);
      if keep(xs[i]) {
        forall a, b | 0 <= a < b < |idx|
          ensures idx[a] < idx[b]
        {
          assert idx[b] == tail[b - 1];
          if a > 0 {
            assert idx[a] == tail[a - 1];
          }
        }
      }
    }
  }

  lemma {:induction false} PositionsFromExact<T>(xs: seq<T>, keep: T -> bool, i: nat)
    requires i <= |xs|
    ensures forall j :: i <= j < |xs| ==> (j in PositionsFrom(xs, keep, i) <==> keep(xs[j]))
    decreases |xs| - i
  {
    if i < |xs| {
      PositionsFromExact(xs, keep, i + 1);
      assert i !in PositionsFrom(xs, keep, i + 1);
    }
  }

  /** A filter keeps exactly the elements that satisfy keep, in their original
      order: its result lists xs at the increasing positions where keep holds. */
  lemma FilterPositions<T>(xs: seq<T>, keep: T -> bool)
    ensures var idx := PositionsFrom(xs, keep, 0);
      var r := Filter(xs, keep);
      && |idx| == |r|
      && Increasing(idx)
      && (forall k :: 0 <= k < |r| ==> idx[k] < |xs| && r[k] == xs[idx[k]])
      && (forall j :: 0 <= j < |xs| ==> (j in idx <==> keep(xs[j])))
  {
    FilterFromAt(xs, keep, 0);
    PositionsFromIncreasing(xs, keep, 0);
    PositionsFromExact(xs, keep, 0);
  }

  lemma {:induction false} FilterFromEmpty<T>(xs: seq<T>, keep: T -> bool, i: nat)
    requires i <= |xs|
    ensures FilterFrom(xs, keep, i) == [] <==> forall j :: i <= j < |xs| ==> !keep(xs[j])
    decreases |xs| - i
  {
    if i < |xs| {
      FilterFromEmpty(xs, keep, i + 1);
    }
  }

  /** A filter comes out empty exactly when no element satisfies keep. */
  lemma FilterEmpty<T>(xs: seq<T>, keep: T -> bool)
    ensures Filter(xs, keep) == [] <==> forall j :: 0 <= j < |xs| ==> !keep(xs[j])
  {
    FilterFromEmpty(xs, keep, 0);
  }

  /** The first element a filter keeps is at the first position where keep holds:
      no element before it satisfies keep. */
  lemma FilterFirst<T>(xs: seq<T>, keep: T -> bool)
    requires Filter(xs, keep) != []
    ensures exists i ::
      && 0 <= i < |xs| && xs[i] == Filter(xs, keep)[0]
      && (forall j :: 0 <= j < i ==> !keep(xs[j]))
  {
    FilterPositions(xs, keep);
    var idx := PositionsFrom(xs, keep, 0);
    var i := idx[0];
    assert forall j :: 0 <= j < i ==> j !in idx;
  }
}
