/** Intervals in any order, possibly overlapping, are sorted and merged in place. */
module Overlap {
  import opened RegexSyntax
  import opened CharSets
  import opened CharRange
  import SortSupport
  import QuickSort

  type Interval = (nat, nat)

  /** `point_cmp` compares first boundaries. */
  function PointCmp(p: Interval, q: Interval): int {
    (if p.0 > q.0 then 1 else 0) - if p.0 < q.0 then 1 else 0
  }

  lemma PointCmpIsPreorder()
    ensures SortSupport.Preorder(PointCmp)
  {}

  predicate Within(p: Interval, c: nat) {
    p.0 <= c < p.1
  }

  /** One of the first `n` intervals contains `c`. */
  ghost predicate Covered(s: seq<Interval>, n: nat, c: nat) {
    exists m :: 0 <= m < n <= |s| && Within(s[m], c)
  }

  ghost predicate Nonempty(s: seq<Interval>) {
    forall m :: 0 <= m < |s| ==> s[m].0 < s[m].1
  }

  /** Intervals may be empty, but not reversed. */
  ghost predicate Proper(s: seq<Interval>) {
    forall m :: 0 <= m < |s| ==> s[m].0 <= s[m].1
  }

  /** Boundaries in order; strictly so when `strict` holds. */
  ghost predicate InOrder(s: seq<nat>, strict: bool) {
    Ascending(s) && (strict ==> Strict(s))
  }

  ghost predicate Ascends(s: seq<Interval>) {
    forall i, j :: 0 <= i < j < |s| ==> s[i].0 <= s[j].0
  }

  /** The boundaries of the intervals, one after the other. */
  function Flat(s: seq<Interval>): (r: seq<nat>)
    ensures |r| == 2 * |s|
    ensures forall m :: 0 <= m < |s| ==> r[2 * m] == s[m].0 && r[2 * m + 1] == s[m].1
  {
    if s == [] then [] else Flat(s[..|s| - 1]) + [s[|s| - 1].0, s[|s| - 1].1]
  }

  lemma FlatMember(s: seq<Interval>, c: nat)
    ensures Member(Flat(s), c) <==> Covered(s, |s|, c)
  {
    hide Flat;
    if Member(Flat(s), c) {
      var k :| 0 <= k < |Flat(s)| / 2 && InInterval(Flat(s), k, c);
      assert Within(s[k], c);
    }
    if Covered(s, |s|, c) {
      var m :| 0 <= m < |s| && Within(s[m], c);
      assert InInterval(Flat(s), m, c);
    }
  }

  // ----- sorting -----

  lemma SameCover(s: seq<Interval>, t: seq<Interval>, c: nat)
    requires multiset(s) == multiset(t) && Covered(s, |s|, c)
    ensures Covered(t, |t|, c)
  {
    var m :| 0 <= m < |s| && Within(s[m], c);
    assert s[m] in multiset(t);
    var k :| 0 <= k < |t| && t[k] == s[m];
    assert Within(t[k], c);
  }

  lemma SameNonempty(s: seq<Interval>, t: seq<Interval>)
    requires multiset(s) == multiset(t) && Proper(s)
    ensures Proper(t) && (Nonempty(s) ==> Nonempty(t))
  {
    forall m | 0 <= m < |t| ensures t[m].0 <= t[m].1 && (Nonempty(s) ==> t[m].0 < t[m].1) {
      assert t[m] in multiset(s);
      var k :| 0 <= k < |s| && s[k] == t[m];
    }
  }

  /** The intervals stored in a boundary array. */
  function Pairs(p: seq<nat>): (s: seq<Interval>)
    requires |p| % 2 == 0
    ensures Flat(s) == p
    decreases |p|
  {
    if p == [] then []
    else
      var n := |p| - 2;
      var s := Pairs(p[..n]) + [(p[n], p[n + 1])];
      assert p == p[..n] + [p[n], p[n + 1]] && s[..|s| - 1] == Pairs(p[..n]);
      s
  }

  /** `rqsort` on the boundary array read as an array of pairs. */
  method SortPairs(cr: CharRange)
    requires cr.Valid() && cr.len % 2 == 0
    modifies cr.points
    ensures cr.Valid() && multiset(Pairs(cr.Points())) == multiset(Pairs(old(cr.Points())))
    ensures Ascends(Pairs(cr.Points()))
  {
    hide Flat, Pairs, SortSupport.Preorder;
    ghost var was := Pairs(cr.Points());
    var n := cr.len / 2;
    var a := new Interval[n];
    var i: nat := 0;
    while i < n
      invariant i <= n && forall m :: 0 <= m < i ==> a[m] == was[m]
      modifies a
    {
      a[i] := (cr.points[2 * i], cr.points[2 * i + 1]);
      assert Flat(was)[2 * i] == was[i].0 && Flat(was)[2 * i + 1] == was[i].1;
      i := i + 1;
    }
    assert a[..] == was;
    QuickSort.Rqsort(a, (k, p, q) => PointCmp(p, q), PointCmp);
    PointCmpIsPreorder();
    ghost var now := a[..];
    i := 0;
    while i < n
      invariant i <= n && a[..] == now
      invariant forall m :: 0 <= m < i ==> cr.points[2 * m] == now[m].0 && cr.points[2 * m + 1] == now[m].1
      modifies cr.points
    {
      cr.points[2 * i], cr.points[2 * i + 1] := a[i].0, a[i].1;
      i := i + 1;
    }
    FlatIs(cr.Points(), now);
    assert Ascends(now);
  }

  lemma FlatIs(p: seq<nat>, s: seq<Interval>)
    requires |p| == 2 * |s|
    requires forall m :: 0 <= m < |s| ==> p[2 * m] == s[m].0 && p[2 * m + 1] == s[m].1
    ensures Pairs(p) == s
  {
    hide Flat, Pairs;
    var t := Pairs(p);
    forall m | 0 <= m < |s| ensures t[m] == s[m] {
      assert Flat(t)[2 * m] == t[m].0 && Flat(t)[2 * m + 1] == t[m].1;
    }
  }

  // ----- merging -----

  /** `out` covers what the first `i` intervals cover, and ends before the next one begins. */
  ghost predicate Joined(out: seq<nat>, s: seq<Interval>, i: nat) {
    && i <= |s| && |out| % 2 == 0 && |out| <= 2 * i && InOrder(out, Nonempty(s))
    && (out != [] && i < |s| ==> out[|out| - 1] < s[i].0)
    && forall c: nat :: Member(out, c) == Covered(s, i, c)
  }

  /** As above while the interval from `start` to `end` is being extended. */
  ghost predicate Extending(out: seq<nat>, s: seq<Interval>, i: nat, start: nat, end: nat) {
    && i <= |s| && |out| % 2 == 0 && |out| + 2 <= 2 * i && InOrder(out, Nonempty(s)) && start <= end && (Nonempty(s) ==> start < end)
    && (out != [] ==> out[|out| - 1] < start)
    && (i < |s| ==> start <= s[i].0)
    && forall c: nat :: Reached(out, start, end, c) == Covered(s, i, c)
  }

  ghost predicate Reached(out: seq<nat>, start: nat, end: nat, c: nat) {
    Member(out, c) || start <= c < end
  }

  lemma CoveredNext(s: seq<Interval>, i: nat)
    requires i < |s|
    ensures forall c: nat :: Covered(s, i + 1, c) == (Covered(s, i, c) || Within(s[i], c))
  {
    forall c: nat ensures Covered(s, i + 1, c) == (Covered(s, i, c) || Within(s[i], c)) {
      if Within(s[i], c) {
        assert 0 <= i < i + 1;
      }
    }
  }

  lemma StartExtending(out: seq<nat>, s: seq<Interval>, i: nat)
    requires Joined(out, s, i) && i < |s| && Proper(s) && Ascends(s)
    ensures Extending(out, s, i + 1, s[i].0, s[i].1)
  {
    hide Member, Covered;
    assert s[i].0 <= s[i].1 && (i + 1 < |s| ==> s[i].0 <= s[i + 1].0);
    CoveredNext(s, i);
    forall c: nat ensures Reached(out, s[i].0, s[i].1, c) == Covered(s, i + 1, c) {
      assert Member(out, c) == Covered(s, i, c);
    }
  }

  lemma Extend(out: seq<nat>, s: seq<Interval>, i: nat, start: nat, end: nat, end': nat)
    requires Extending(out, s, i, start, end) && i < |s| && Proper(s) && Ascends(s) && s[i].0 <= end
    requires end' == if s[i].1 <= end then end else s[i].1
    ensures Extending(out, s, i + 1, start, end')
  {
    hide Member, Covered;
    assert s[i].0 <= s[i].1 && (i + 1 < |s| ==> s[i].0 <= s[i + 1].0);
    CoveredNext(s, i);
    forall c: nat ensures Reached(out, start, end', c) == Covered(s, i + 1, c) {
      assert Reached(out, start, end, c) == Covered(s, i, c);
    }
  }

  lemma EndExtending(out: seq<nat>, s: seq<Interval>, i: nat, start: nat, end: nat)
    requires Extending(out, s, i, start, end) && (i < |s| ==> end < s[i].0)
    ensures Joined(out + [start, end], s, i)
  {
    hide Member, Covered;
    var t := out + [start, end];
    forall c: nat ensures Member(t, c) == Covered(s, i, c) {
      MemberNext(out, start, end, c);
    }
  }

  lemma MemberNext(out: seq<nat>, start: nat, end: nat, c: nat)
    requires |out| % 2 == 0
    ensures Member(out + [start, end], c) == (Member(out, c) || start <= c < end)
  {
    var t := out + [start, end];
    if Member(out, c) {
      var k :| 0 <= k < |out| / 2 && InInterval(out, k, c);
      assert InInterval(t, k, c);
    }
    if start <= c < end {
      assert InInterval(t, |out| / 2, c);
    }
    if Member(t, c) {
      var k :| 0 <= k < |t| / 2 && InInterval(t, k, c);
      assert k < |out| / 2 ==> InInterval(out, k, c);
    }
  }

  /** `cr_sort_and_remove_overlap` covers the same code points with sorted intervals that do not touch. None of them
      is empty if none was. */
  method SortAndRemoveOverlap(cr: CharRange)
    requires cr.Valid() && cr.len % 2 == 0 && Proper(Pairs(cr.Points()))
    modifies cr`len, cr.points
    ensures cr.Valid() && cr.len % 2 == 0 && InOrder(cr.Points(), Nonempty(Pairs(old(cr.Points()))))
    ensures forall c: nat :: Member(cr.Points(), c) == Member(old(cr.Points()), c)
  {
    hide Joined, Extending, Member, InOrder, Flat, Pairs, Ascends, Nonempty, Proper, Covered;
    ghost var was := cr.Points();
    SortPairs(cr);
    ghost var s := Pairs(cr.Points());
    SameNonempty(Pairs(was), s);
    SameNonempty(s, Pairs(was));
    Merge(cr, s);
    forall c: nat ensures Member(cr.Points(), c) == Member(was, c) {
      AllSame(Pairs(was), s, c);
    }
  }

  /** The outer loop: the sorted intervals are joined from left to right, at the front of the same array. */
  method Merge(cr: CharRange, ghost s: seq<Interval>)
    requires cr.Valid() && cr.len == 2 * |s| && Stored(cr.Points(), s, 0) && Proper(s) && Ascends(s)
    modifies cr`len, cr.points
    ensures cr.Valid() && cr.len % 2 == 0 && InOrder(cr.Points(), Nonempty(s))
    ensures forall c: nat :: Member(cr.Points(), c) == Covered(s, |s|, c)
  {
    hide Joined, Extending, Member, InOrder, Ascends, Nonempty, Proper, Covered;
    var n: nat := cr.len;
    var pt := cr.points;
    var i, j: nat := 0, 0;
    ghost var out: seq<nat> := [];
    StartJoined(s);
    while i < n
      invariant j <= i <= n == 2 * |s| <= pt.Length && i % 2 == 0 && |out| == j
      invariant Stored(pt[..n], s, i / 2)
      invariant (forall m :: 0 <= m < j ==> pt[m] == out[m]) && Joined(out, s, i / 2)
      modifies pt
    {
      assert pt[i] == s[i / 2].0 && pt[i + 1] == s[i / 2].1;
      StartExtending(out, s, i / 2);
      var start := pt[i];
      var end;
      i, end := Absorb(pt, n, i + 2, start, pt[i + 1], out, s);
      EndExtending(out, s, i / 2, start, end);
      pt[j] := start;
      pt[j + 1] := end;
      out := out + [start, end];
      j := j + 2;
    }
    cr.len := j;
    assert pt[..j] == out;
    EndJoined(out, s);
  }

  /** The intervals from `i` on are still in the array. */
  ghost predicate Stored(p: seq<nat>, s: seq<Interval>, i: nat) {
    |p| == 2 * |s| && forall m :: i <= m < |s| ==> p[2 * m] == s[m].0 && p[2 * m + 1] == s[m].1
  }

  /** The inner loop: the interval grows over every one that begins within it. */
  method Absorb(pt: array<nat>, n: nat, i0: nat, start: nat, end0: nat, ghost out: seq<nat>, ghost s: seq<Interval>)
      returns (i: nat, end: nat)
    requires n == 2 * |s| <= pt.Length && i0 <= n && i0 % 2 == 0 && |out| + 2 <= i0
    requires Stored(pt[..n], s, i0 / 2) && Proper(s) && Ascends(s) && Extending(out, s, i0 / 2, start, end0)
    ensures i0 <= i <= n && i % 2 == 0 && Extending(out, s, i / 2, start, end)
    ensures i < n ==> end < s[i / 2].0
  {
    hide Extending, Proper, Ascends;
    i, end := i0, end0;
    while i < n && pt[i] <= end
      invariant i0 <= i <= n && i % 2 == 0 && Extending(out, s, i / 2, start, end)
    {
      assert pt[..n][i] == s[i / 2].0 && pt[..n][i + 1] == s[i / 2].1;
      Extend(out, s, i / 2, start, end, if pt[i + 1] > end then pt[i + 1] else end);
      if pt[i + 1] > end {
        end := pt[i + 1];
      }
      i := i + 2;
    }
    assert i < n ==> pt[..n][i] == s[i / 2].0;
  }

  lemma StartJoined(s: seq<Interval>)
    ensures Joined([], s, 0)
  {}

  lemma EndJoined(out: seq<nat>, s: seq<Interval>)
    requires Joined(out, s, |s|)
    ensures |out| % 2 == 0 && InOrder(out, Nonempty(s)) && forall c: nat :: Member(out, c) == Covered(s, |s|, c)
  {}

  lemma AllSame(s: seq<Interval>, t: seq<Interval>, c: nat)
    requires multiset(s) == multiset(t)
    ensures Covered(t, |t|, c) == Member(Flat(s), c)
  {
    hide Covered, Member, Flat;
    FlatMember(s, c);
    if Covered(s, |s|, c) {
      SameCover(s, t, c);
    }
    if Covered(t, |t|, c) {
      SameCover(t, s, c);
    }
  }
}
