/**
 * Slot-index permutations: the `alloc_arr` vectors of both allocators are
 * filled with 0 .. n-1 and then shuffled.
 */
module Permutations {

  /** No element of `s` occurs twice. */
  predicate Distinct<T(==)>(s: seq<T>) {
    forall i, j | 0 <= i < j < |s| :: s[i] != s[j]
  }

  /** Every element of `s` is a valid index below `n`. */
  predicate InRange(s: seq<int>, n: int) {
    forall i | 0 <= i < |s| :: 0 <= s[i] < n
  }

  /** `s` holds each of 0 .. n-1 exactly once. */
  predicate IsPermutation(s: seq<int>, n: nat) {
    |s| == n && InRange(s, n) && Distinct(s)
  }

  /** The constructor loop `alloc_arr[i] = i` over a zero-filled vector of size `n`. */
  method Iota(n: nat) returns (s: seq<int>)
    ensures |s| == n
    ensures forall i | 0 <= i < n :: s[i] == i
  {
    s := seq(n, _ => 0);
    var i := 0;
    while i < n
      invariant 0 <= i <= n
      invariant |s| == n
      invariant forall k | 0 <= k < i :: s[k] == k
    {
      s := s[i := i];
      i := i + 1;
    }
  }

  lemma IotaIsPermutation(s: seq<int>)
    requires forall i | 0 <= i < |s| :: s[i] == i
    ensures IsPermutation(s, |s|)
  {
  }

  /** Swapping two positions keeps the elements distinct. */
  lemma SwapKeepsDistinct(s: seq<int>, i: nat, j: nat)
    requires i < |s| && j < |s|
    requires Distinct(s)
    ensures Distinct(s[i := s[j]][j := s[i]])
  {
    var t := s[i := s[j]][j := s[i]];
    forall p, q | 0 <= p < q < |t|
      ensures t[p] != t[q]
    {
      var p' := if p == i then j else if p == j then i else p;
      var q' := if q == i then j else if q == j then i else q;
      assert t[p] == s[p'] && t[q] == s[q'];
      assert p' != q';
    }
  }

  /**
   * `std::ranges::shuffle` as a Fisher-Yates pass. The random engine is not
   * modelled: its draws are the parameter `draws`, step `i` swapping
   * positions `i` and `draws[i] <= i`.
   */
  method Shuffle(a: seq<int>, draws: seq<nat>) returns (b: seq<int>)
    requires |draws| == |a|
    requires forall i | 0 <= i < |a| :: draws[i] <= i
    ensures |b| == |a|
    ensures multiset(b) == multiset(a)
    ensures Distinct(a) ==> Distinct(b)
  {
    b := a;
    var i := 0;
    while i < |b|
      invariant 0 <= i <= |b| == |a|
      invariant multiset(b) == multiset(a)
      invariant Distinct(a) ==> Distinct(b)
    {
      var j := draws[i];
      if Distinct(b) {
        SwapKeepsDistinct(b, i, j);
      }
      b := b[i := b[j]][j := b[i]];
      i := i + 1;
    }
  }

  /** A rearrangement of a permutation of 0 .. n-1 is again one. */
  lemma ShuffledIsPermutation(a: seq<int>, b: seq<int>, n: nat)
    requires IsPermutation(a, n)
    requires multiset(b) == multiset(a) && Distinct(b)
    ensures IsPermutation(b, n)
  {
    assert |b| == |multiset(b)| == |multiset(a)| == |a|;
    forall i | 0 <= i < |b|
      ensures 0 <= b[i] < n
    {
      assert b[i] in multiset(b);
      assert b[i] in a;
    }
  }

  /** The set of elements of `s`. */
  function Elements(s: seq<int>): set<int> {
    set x | x in s
  }

  lemma {:induction false} DistinctCard(s: seq<int>)
    requires Distinct(s)
    ensures |Elements(s)| == |s|
  {
    if s != [] {
      var t := s[..|s| - 1];
      var last := s[|s| - 1];
      assert Distinct(t);
      DistinctCard(t);
      assert Elements(s) == Elements(t) + {last};
      assert last !in Elements(t);
    }
  }

  /** The set 0 .. n-1. */
  function Below(n: nat): (r: set<int>)
    ensures forall x :: x in r <==> 0 <= x < n
  {
    if n == 0 then {} else Below(n - 1) + {n - 1}
  }

  lemma {:induction false} BelowCard(n: nat)
    ensures |Below(n)| == n
  {
    if n > 0 {
      BelowCard(n - 1);
      assert n - 1 !in Below(n - 1);
    }
  }

  lemma SubsetSameCard(a: set<int>, b: set<int>)
    requires a <= b && |a| == |b|
    ensures a == b
  {
    assert b == a + (b - a);
    assert |b| == |a| + |b - a|;
    assert b - a == {};
    assert forall x :: x in b ==> x in a;
  }

  /**
   * Pigeonhole: a permutation of 0 .. n-1 contains every value below `n`,
   * so handing out its entries in order eventually reaches every slot.
   */
  lemma PermutationCovers(s: seq<int>, n: nat, v: int)
    requires IsPermutation(s, n)
    requires 0 <= v < n
    ensures v in s
  {
    DistinctCard(s);
    BelowCard(n);
    assert Elements(s) <= Below(n);
    SubsetSameCard(Elements(s), Below(n));
    assert v in Below(n);
  }
}
