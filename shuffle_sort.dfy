/**
 * `Array.prototype.sort` called with a comparator that answers at random. Under
 * section 23.1.3.30 of ECMA-262 (2023 edition) an inconsistent comparator leaves the
 * order implementation-defined; the engine still gathers the elements, reorders them
 * and writes them back. The order the engine happens to produce is the input `perm`.
 */
module ShuffleSort {

  /** `perm` is a bijection on the indices `0 .. n-1`: each index appears exactly once. */
  predicate IsPermutation(perm: seq<nat>, n: nat) {
    && |perm| == n
    && (forall i :: 0 <= i < n ==> perm[i] < n)
    && (forall i, j :: 0 <= i < j < n ==> perm[i] != perm[j])
    && (forall v :: 0 <= v < n ==> v in perm)
  }

  /** The list whose i-th element is the element of `s` at index `perm[i]`. */
  function Permute<T>(s: seq<T>, perm: seq<nat>): (r: seq<T>)
    requires forall i :: 0 <= i < |perm| ==> perm[i] < |s|
    ensures |r| == |perm|
    ensures forall i :: 0 <= i < |perm| ==> r[i] == s[perm[i]]
  {
    seq(|perm|, i requires 0 <= i < |perm| => s[perm[i]])
  }

  lemma PermuteAppend<T>(s: seq<T>, p: seq<nat>, q: seq<nat>)
    requires forall i :: 0 <= i < |p| ==> p[i] < |s|
    requires forall i :: 0 <= i < |q| ==> q[i] < |s|
    ensures Permute(s, p + q) == Permute(s, p) + Permute(s, q)
  {
    assert forall i :: 0 <= i < |p + q| ==> (p + q)[i] < |s|;
  }

  /** Indices that avoid the last position pick the same elements from `s` and from `s` without it. */
  lemma PermuteDropLast<T>(s: seq<T>, p: seq<nat>)
    requires s != []
    requires forall i :: 0 <= i < |p| ==> p[i] < |s| - 1
    ensures Permute(s, p) == Permute(s[..|s| - 1], p)
  {
  }

  /** Taking the last index out of a permutation of `0 .. n` leaves a permutation of `0 .. n-1`. */
  lemma DropLastIndex(perm: seq<nat>, n: nat, q: nat)
    requires IsPermutation(perm, n + 1)
    requires q < |perm| && perm[q] == n
    ensures IsPermutation(perm[..q] + perm[q + 1..], n)
  {
    var rest := perm[..q] + perm[q + 1..];
    forall i | 0 <= i < |rest|
      ensures rest[i] == perm[if i < q then i else i + 1]
    {
    }
    forall v | 0 <= v < n
      ensures v in rest
    {
      assert v in perm;
      var k :| 0 <= k < |perm| && perm[k] == v;
      assert rest[if k < q then k else k - 1] == v;
    }
  }

  /** Reordering by `front + [last] + back` puts the last element between the two reorderings of the rest. */
  lemma PermuteSplice<T>(s: seq<T>, front: seq<nat>, back: seq<nat>)
    requires s != []
    requires forall i :: 0 <= i < |front| ==> front[i] < |s| - 1
    requires forall i :: 0 <= i < |back| ==> back[i] < |s| - 1
    ensures Permute(s, front + [|s| - 1] + back) == Permute(s[..|s| - 1], front) + [s[|s| - 1]] + Permute(s[..|s| - 1], back)
  {
    var n := |s| - 1;
    PermuteAppend(s, front, [n]);
    PermuteAppend(s, front + [n], back);
    PermuteDropLast(s, front);
    PermuteDropLast(s, back);
  }

  lemma MultisetSplice<T>(s: seq<T>, a: seq<T>, b: seq<T>)
    requires s != []
    requires multiset(a + b) == multiset(s[..|s| - 1])
    ensures multiset(a + [s[|s| - 1]] + b) == multiset(s)
  {
    assert s == s[..|s| - 1] + [s[|s| - 1]];
  }

  /** Putting the last element back at position `|front|` of a reordering adds exactly that element. */
  lemma InsertLast<T>(s: seq<T>, front: seq<nat>, back: seq<nat>)
    requires s != []
    requires forall i :: 0 <= i < |front| ==> front[i] < |s| - 1
    requires forall i :: 0 <= i < |back| ==> back[i] < |s| - 1
    requires multiset(Permute(s[..|s| - 1], front + back)) == multiset(s[..|s| - 1])
    ensures multiset(Permute(s, front + [|s| - 1] + back)) == multiset(s)
  {
    var n := |s| - 1;
    PermuteSplice(s, front, back);
    PermuteAppend(s[..n], front, back);
    MultisetSplice(s, Permute(s[..n], front), Permute(s[..n], back));
  }

  /** Reordering by a permutation keeps every element exactly as often as before. */
  lemma {:induction false} PermutePreservesMultiset<T>(s: seq<T>, perm: seq<nat>)
    requires IsPermutation(perm, |s|)
    ensures multiset(Permute(s, perm)) == multiset(s)
  {
    if s != [] {
      var n := |s| - 1;
      assert n in perm;
      var q :| 0 <= q < |perm| && perm[q] == n;
      var front, back := perm[..q], perm[q + 1..];
      DropLastIndex(perm, n, q);
      PermutePreservesMultiset(s[..n], front + back);
      assert perm == front + [n] + back;
      InsertLast(s, front, back);
    }
  }

  /**
   * `menus.sort(() => 0.5 - Math.random())`: the elements are collected, reordered as
   * `perm` dictates and written back into the same array. Afterwards the array holds
   * the same elements, each as often as before.
   */
  method SortInPlace<T>(a: array<T>, perm: seq<nat>)
    requires IsPermutation(perm, a.Length)
    modifies a
    ensures a[..] == Permute(old(a[..]), perm)
    ensures multiset(a[..]) == multiset(old(a[..]))
  {
    var items := a[..];
    var j := 0;
    while j < a.Length
      invariant 0 <= j <= a.Length
      invariant forall k :: 0 <= k < j ==> a[k] == items[perm[k]]
    {
      a[j] := items[perm[j]];
      j := j + 1;
    }
    PermutePreservesMultiset(items, perm);
  }
}
