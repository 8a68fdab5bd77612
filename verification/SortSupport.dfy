/** Comparators, rearrangements of part of an array, and swaps. */
module SortSupport {

  /** An order, like a C comparator's: negative, zero or positive. */
  type Order<!T> = (T, T) -> int

  /** What the comparator answers at its `k`-th call. Being user code it may answer the same question differently
      from one call to the next. */
  type Answers<!T> = (nat, T, T) -> int

  /** Every call answers by one order. */
  ghost predicate Steady<T(!new)>(ask: Answers<T>, cmp: Order<T>) {
    forall k: nat, x: T, y: T :: ask(k, x, y) == cmp(x, y)
  }

  /** The case in which the result is sorted. */
  ghost predicate Consistent<T(!new)>(ask: Answers<T>, cmp: Order<T>) {
    Steady(ask, cmp) && Preorder(cmp)
  }

  lemma Answer<T(!new)>(ask: Answers<T>, cmp: Order<T>, k: nat, x: T, y: T)
    requires Consistent(ask, cmp)
    ensures ask(k, x, y) == cmp(x, y) && Preorder(cmp)
  {}

  /** What sorting needs: reflexive, antisymmetric in sign and transitive. */
  ghost predicate Preorder<T(!new)>(cmp: Order<T>) {
    && (forall x: T :: cmp(x, x) == 0)
    && (forall x: T, y: T :: cmp(x, y) > 0 <==> cmp(y, x) < 0)
    && (forall x: T, y: T, z: T :: cmp(x, y) <= 0 && cmp(y, z) <= 0 ==> cmp(x, z) <= 0)
  }

  lemma Reflexive<T(!new)>(cmp: Order<T>, x: T)
    requires Preorder(cmp)
    ensures cmp(x, x) == 0
  {}

  lemma Opposite<T(!new)>(cmp: Order<T>, x: T, y: T)
    requires Preorder(cmp)
    ensures cmp(x, y) > 0 <==> cmp(y, x) < 0
    ensures cmp(x, y) <= 0 || cmp(y, x) <= 0
    ensures cmp(x, y) == 0 <==> cmp(y, x) == 0
  {}

  lemma Transitive<T(!new)>(cmp: Order<T>, x: T, y: T, z: T)
    requires Preorder(cmp) && cmp(x, y) <= 0 && cmp(y, z) <= 0
    ensures cmp(x, z) <= 0
  {}

  /** Ascending between `lo` and `hi`. */
  ghost predicate Sorted<T>(s: seq<T>, lo: nat, hi: nat, cmp: Order<T>) {
    hi <= |s| && forall i, j :: lo <= i < j < hi ==> cmp(s[i], s[j]) <= 0
  }

  // ----- rearrangements -----

  /** `t` is `s` with the elements between `lo` and `hi` permuted. */
  ghost predicate Rearranged<T>(s: seq<T>, t: seq<T>, lo: nat, hi: nat) {
    && lo <= hi <= |s| == |t|
    && s[..lo] == t[..lo] && s[hi..] == t[hi..]
    && multiset(s[lo..hi]) == multiset(t[lo..hi])
  }

  lemma RearrangedSelf<T>(s: seq<T>, lo: nat, hi: nat)
    requires lo <= hi <= |s|
    ensures Rearranged(s, s, lo, hi)
  {}

  lemma RearrangedThen<T>(s: seq<T>, t: seq<T>, u: seq<T>, lo: nat, hi: nat)
    requires Rearranged(s, t, lo, hi) && Rearranged(t, u, lo, hi)
    ensures Rearranged(s, u, lo, hi)
  {}

  /** A rearrangement of a part is one of any larger part. */
  lemma RearrangedWithin<T>(s: seq<T>, t: seq<T>, lo: nat, hi: nat, lo': nat, hi': nat)
    requires Rearranged(s, t, lo, hi) && lo' <= lo && hi <= hi' <= |s|
    ensures Rearranged(s, t, lo', hi')
  {
    assert s[..lo'] == s[..lo][..lo'] && t[..lo'] == t[..lo][..lo'];
    assert s[hi'..] == s[hi..][hi' - hi..] && t[hi'..] == t[hi..][hi' - hi..];
    var a, b := s[..lo][lo'..], s[hi..][..hi' - hi];
    assert s[lo'..hi'] == a + s[lo..hi] + b && t[lo'..hi'] == a + t[lo..hi] + b;
  }

  lemma RearrangedOutside<T>(s: seq<T>, t: seq<T>, lo: nat, hi: nat, i: nat)
    requires Rearranged(s, t, lo, hi) && i < |s| && (i < lo || hi <= i)
    ensures s[i] == t[i]
  {
    if i < lo {
      assert s[i] == s[..lo][i] && t[i] == t[..lo][i];
    } else {
      assert s[i] == s[hi..][i - hi] && t[i] == t[hi..][i - hi];
    }
  }

  /** Every element of the part was somewhere in it before. */
  lemma RearrangedInside<T>(s: seq<T>, t: seq<T>, lo: nat, hi: nat, i: nat) returns (j: nat)
    requires Rearranged(s, t, lo, hi) && lo <= i < hi
    ensures lo <= j < hi && t[i] == s[j]
  {
    assert t[lo..hi][i - lo] in multiset(t[lo..hi]);
    var x := t[i];
    assert x in multiset(s[lo..hi]);
    assert x in s[lo..hi];
    var k :| 0 <= k < |s[lo..hi]| && s[lo..hi][k] == x;
    j := lo + k;
  }

  // ----- swaps -----

  function Swapped<T>(s: seq<T>, i: nat, j: nat): (t: seq<T>)
    requires i < |s| && j < |s|
    ensures |t| == |s|
  {
    s[i := s[j]][j := s[i]]
  }

  lemma SwapRearranges<T>(s: seq<T>, i: nat, j: nat, lo: nat, hi: nat)
    requires lo <= i < hi <= |s| && lo <= j < hi
    ensures Rearranged(s, Swapped(s, i, j), lo, hi)
  {
    var t := Swapped(s, i, j);
    var a, b := s[lo..hi], t[lo..hi];
    assert b == a[i - lo := a[j - lo]][j - lo := a[i - lo]];
    assert s[..lo] == t[..lo] && s[hi..] == t[hi..];
  }

  method Swap<T>(a: array<T>, i: nat, j: nat)
    requires i < a.Length && j < a.Length
    modifies a
    ensures a[..] == Swapped(old(a[..]), i, j)
  {
    a[i], a[j] := a[j], a[i];
  }

  /** A swap inside a part that has been rearranged before. */
  method SwapInside<T>(a: array<T>, i: nat, j: nat, lo: nat, hi: nat, ghost was: seq<T>)
    requires lo <= i < hi <= a.Length && lo <= j < hi && Rearranged(was, a[..], lo, hi)
    modifies a
    ensures a[..] == Swapped(old(a[..]), i, j) && Rearranged(was, a[..], lo, hi)
  {
    hide Rearranged, Swapped;
    ghost var before := a[..];
    SwapRearranges(before, i, j, lo, hi);
    Swap(a, i, j);
    RearrangedThen(was, before, a[..], lo, hi);
  }
}
