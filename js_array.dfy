/**
 * `Array.prototype.filter` with a side-effect-free callback, as the menu job uses it:
 * the elements for which the callback holds, in their original order.
 */
module JsArray {

  /** `xs.filter(keep)`: defined on the last element, which gives the same list as a front-to-back scan. */
  function Filter<T>(xs: seq<T>, keep: T -> bool): (kept: seq<T>)
    ensures |kept| <= |xs|
  {
    if xs == [] then []
    else
      var n := |xs| - 1;
      Filter(xs[..n], keep) + if keep(xs[n]) then [xs[n]] else []
  }

  lemma SplitLast<T>(s: seq<T>)
    requires s != []
    ensures s[..|s| - 1] + [s[|s| - 1]] == s
  {
  }

  /** The indices of the kept elements, in increasing order. */
  function KeptPositions<T>(xs: seq<T>, keep: T -> bool): (pos: seq<nat>)
    ensures forall k :: 0 <= k < |pos| ==> pos[k] < |xs|
    ensures forall k, l :: 0 <= k < l < |pos| ==> pos[k] < pos[l]
  {
    if xs == [] then []
    else
      var n := |xs| - 1;
      KeptPositions(xs[..n], keep) + if keep(xs[n]) then [n] else []
  }

  /** An index is listed exactly when the callback holds of its element. */
  lemma {:induction false} KeptPositionsExact<T>(xs: seq<T>, keep: T -> bool, j: nat)
    requires j < |xs|
    ensures j in KeptPositions(xs, keep) <==> keep(xs[j])
  {
    var n := |xs| - 1;
    var p := KeptPositions(xs[..n], keep);
    assert KeptPositions(xs, keep) == p + if keep(xs[n]) then [n] else [];
    if j < n {
      KeptPositionsExact(xs[..n], keep, j);
      assert xs[..n][j] == xs[j];
    } else {
      assert n !in p;
    }
  }

  /** The k-th kept element is the element at the k-th kept index. */
  lemma {:induction false} FilterFollowsPositions<T>(xs: seq<T>, keep: T -> bool)
    ensures |KeptPositions(xs, keep)| == |Filter(xs, keep)|
    ensures forall k :: 0 <= k < |KeptPositions(xs, keep)| ==> Filter(xs, keep)[k] == xs[KeptPositions(xs, keep)[k]]
  {
    if xs != [] {
      var n := |xs| - 1;
      FilterFollowsPositions(xs[..n], keep);
      assert forall j :: 0 <= j < n ==> xs[..n][j] == xs[j];
    }
  }

  /**
   * The filter result is the subsequence of `xs` made of exactly the elements the
   * callback accepts, each once, in their original relative order.
   */
  lemma {:induction false} FilterKeepsInOrder<T>(xs: seq<T>, keep: T -> bool)
    ensures |KeptPositions(xs, keep)| == |Filter(xs, keep)|
    ensures forall k :: 0 <= k < |KeptPositions(xs, keep)| ==> Filter(xs, keep)[k] == xs[KeptPositions(xs, keep)[k]]
    ensures forall k, l :: 0 <= k < l < |KeptPositions(xs, keep)| ==> KeptPositions(xs, keep)[k] < KeptPositions(xs, keep)[l]
    ensures forall j :: 0 <= j < |xs| ==> (j in KeptPositions(xs, keep) <==> keep(xs[j]))
  {
    FilterFollowsPositions(xs, keep);
    forall j | 0 <= j < |xs|
      ensures j in KeptPositions(xs, keep) <==> keep(xs[j])
    {
      KeptPositionsExact(xs, keep, j);
    }
  }

  /** An element is in the result exactly when it is in `xs` and the callback accepts it. */
  lemma {:induction false} FilterMembership<T>(xs: seq<T>, keep: T -> bool, x: T)
    ensures x in Filter(xs, keep) <==> x in xs && keep(x)
  {
    if xs != [] {
      var n := |xs| - 1;
      FilterMembership(xs[..n], keep, x);
      SplitLast(xs);
    }
  }

  /** The result is empty exactly when the callback rejects every element. */
  lemma {:induction false} FilterEmptyIff<T>(xs: seq<T>, keep: T -> bool)
    ensures Filter(xs, keep) == [] <==> forall x :: x in xs ==> !keep(x)
  {
    if Filter(xs, keep) == [] {
      forall x | x in xs
        ensures !keep(x)
      {
        FilterMembership(xs, keep, x);
      }
    } else {
      FilterMembership(xs, keep, Filter(xs, keep)[0]);
    }
  }

  /** Filtering a concatenation filters each part. */
  lemma {:induction false} FilterAppend<T>(a: seq<T>, b: seq<T>, keep: T -> bool)
    ensures Filter(a + b, keep) == Filter(a, keep) + Filter(b, keep)
  {
    if b == [] {
      assert a + b == a;
    } else {
      var n := |b| - 1;
      assert (a + b)[..|a + b| - 1] == a + b[..n];
      assert (a + b)[|a + b| - 1] == b[n];
      FilterAppend(a, b[..n], keep);
    }
  }

  /** A list whose elements are all accepted passes the filter unchanged. */
  lemma {:induction false} FilterAllKept<T>(xs: seq<T>, keep: T -> bool)
    requires forall k :: 0 <= k < |xs| ==> keep(xs[k])
    ensures Filter(xs, keep) == xs
  {
    if xs != [] {
      var n := |xs| - 1;
      assert forall k :: 0 <= k < n ==> xs[..n][k] == xs[k];
      FilterAllKept(xs[..n], keep);
      SplitLast(xs);
    }
  }

  /** Filtering the result again changes nothing. */
  lemma {:induction false} FilterIdempotent<T>(xs: seq<T>, keep: T -> bool)
    ensures Filter(Filter(xs, keep), keep) == Filter(xs, keep)
  {
    var kept := Filter(xs, keep);
    forall k | 0 <= k < |kept|
      ensures keep(kept[k])
    {
      FilterMembership(xs, keep, kept[k]);
    }
    FilterAllKept(kept, keep);
  }
}
