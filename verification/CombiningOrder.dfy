/** Canonical ordering of combining marks (section 3.11 of the Unicode Standard), for any assignment of combining
    classes; class 0 is a starter. */
module CombiningOrder {

  type Classes = int -> nat

  // ----- one run of non-starters -----

  /** `x` goes behind the last element whose class does not exceed its own. */
  function Inserted(s: seq<int>, x: int, cc: Classes): (r: seq<int>)
    ensures |r| == |s| + 1
  {
    if s == [] || cc(s[|s| - 1]) <= cc(x) then s + [x]
    else Inserted(s[..|s| - 1], x, cc) + [s[|s| - 1]]
  }

  /** Insertion sort by combining class. */
  function Ordered(s: seq<int>, cc: Classes): (r: seq<int>)
    ensures |r| == |s|
  {
    if s == [] then [] else Inserted(Ordered(s[..|s| - 1], cc), s[|s| - 1], cc)
  }

  predicate Sorted(s: seq<int>, cc: Classes) {
    forall i, j :: 0 <= i < j < |s| ==> cc(s[i]) <= cc(s[j])
  }

  /** The elements of class `k`, in order. */
  function OfClass(s: seq<int>, k: nat, cc: Classes): seq<int> {
    if s == [] then [] else OfClass(s[..|s| - 1], k, cc) + if cc(s[|s| - 1]) == k then [s[|s| - 1]] else []
  }

  lemma OfClassSnoc(s: seq<int>, x: int, k: nat, cc: Classes)
    ensures OfClass(s + [x], k, cc) == OfClass(s, k, cc) + if cc(x) == k then [x] else []
  {
    assert (s + [x])[..|s|] == s;
  }

  lemma {:induction false} InsertedSorted(s: seq<int>, x: int, cc: Classes)
    requires Sorted(s, cc)
    ensures Sorted(Inserted(s, x, cc), cc) && multiset(Inserted(s, x, cc)) == multiset(s) + multiset{x}
  {
    if s != [] && cc(s[|s| - 1]) > cc(x) {
      var front, last := s[..|s| - 1], s[|s| - 1];
      InsertedSorted(front, x, cc);
      assert s == front + [last];
      LastStays(Inserted(front, x, cc), front, x, last, cc);
    }
  }

  lemma LastStays(r: seq<int>, front: seq<int>, x: int, last: int, cc: Classes)
    requires Sorted(r, cc) && multiset(r) == multiset(front) + multiset{x} && Sorted(front + [last], cc) && cc(x) < cc(last)
    ensures Sorted(r + [last], cc)
  {
    forall i | 0 <= i < |r| ensures cc(r[i]) <= cc(last) {
      assert r[i] in multiset(front) + multiset{x};
      assert r[i] in front || r[i] == x;
      if r[i] in front {
        var k :| 0 <= k < |front| && front[k] == r[i];
        assert (front + [last])[k] == r[i] && (front + [last])[|front|] == last;
      }
    }
  }

  /** Inserting keeps elements of equal class in order. */
  lemma {:induction false} InsertedStable(s: seq<int>, x: int, k: nat, cc: Classes)
    ensures OfClass(Inserted(s, x, cc), k, cc) == OfClass(s + [x], k, cc)
  {
    OfClassSnoc(s, x, k, cc);
    if s != [] && cc(s[|s| - 1]) > cc(x) {
      var front, last := s[..|s| - 1], s[|s| - 1];
      InsertedStable(front, x, k, cc);
      OfClassSnoc(front, x, k, cc);
      OfClassSnoc(Inserted(front, x, cc), last, k, cc);
    }
  }

  /** A run comes out ordered by class, as a permutation, with equal classes in their old order. */
  lemma {:induction false} OrderedIsStableSort(s: seq<int>, cc: Classes)
    ensures Sorted(Ordered(s, cc), cc) && multiset(Ordered(s, cc)) == multiset(s)
    ensures forall k :: OfClass(Ordered(s, cc), k, cc) == OfClass(s, k, cc)
  {
    if s != [] {
      var front, last := s[..|s| - 1], s[|s| - 1];
      OrderedIsStableSort(front, cc);
      InsertedSorted(Ordered(front, cc), last, cc);
      assert s == front + [last];
      forall k ensures OfClass(Ordered(s, cc), k, cc) == OfClass(s, k, cc) {
        InsertedStable(Ordered(front, cc), last, k, cc);
        OfClassSnoc(Ordered(front, cc), last, k, cc);
      }
    }
  }

  /** Elements of different classes can be inserted in either order. */
  lemma {:induction false} InsertCommutes(s: seq<int>, a: int, b: int, cc: Classes)
    requires cc(a) != cc(b)
    ensures Inserted(Inserted(s, a, cc), b, cc) == Inserted(Inserted(s, b, cc), a, cc)
  {
    if cc(a) > cc(b) {
      InsertCommutesBelow(s, a, b, cc);
    } else {
      InsertCommutesBelow(s, b, a, cc);
    }
  }

  lemma {:induction false} InsertCommutesBelow(s: seq<int>, a: int, b: int, cc: Classes)
    requires cc(a) > cc(b)
    ensures Inserted(Inserted(s, a, cc), b, cc) == Inserted(Inserted(s, b, cc), a, cc)
  {
    if s == [] {
      assert Inserted([], a, cc) == [] + [a] && Inserted([], b, cc) == [] + [b];
      InsertLast([], a, b, cc);
      InsertLast([], b, a, cc);
    } else {
      var front, last := s[..|s| - 1], s[|s| - 1];
      if cc(last) <= cc(a) {
        InsertLast(s, a, b, cc);
        if cc(last) <= cc(b) {
          InsertLast(s, b, a, cc);
        } else {
          InsertLast(Inserted(front, b, cc), last, a, cc);
        }
      } else {
        InsertCommutesBelow(front, a, b, cc);
        InsertLast(Inserted(front, a, cc), last, b, cc);
        InsertLast(Inserted(front, b, cc), last, a, cc);
      }
    }
  }

  lemma InsertLast(s: seq<int>, last: int, x: int, cc: Classes)
    ensures Inserted(s + [last], x, cc) == if cc(last) <= cc(x) then s + [last] + [x] else Inserted(s, x, cc) + [last]
  {
    assert (s + [last])[..|s|] == s;
  }

  lemma {:induction false} OrderedAppend(s: seq<int>, a: int, b: int, q: seq<int>, cc: Classes)
    requires cc(a) != cc(b)
    ensures Ordered(s + [a, b] + q, cc) == Ordered(s + [b, a] + q, cc)
    decreases |q|
  {
    if q == [] {
      assert s + [a, b] + q == (s + [a]) + [b] && s + [b, a] + q == (s + [b]) + [a];
      OrderedSnoc(s + [a], b, cc);
      OrderedSnoc(s, a, cc);
      OrderedSnoc(s + [b], a, cc);
      OrderedSnoc(s, b, cc);
      InsertCommutes(Ordered(s, cc), a, b, cc);
    } else {
      var front, last := q[..|q| - 1], q[|q| - 1];
      assert s + [a, b] + q == (s + [a, b] + front) + [last] && s + [b, a] + q == (s + [b, a] + front) + [last];
      OrderedAppend(s, a, b, front, cc);
      OrderedSnoc(s + [a, b] + front, last, cc);
      OrderedSnoc(s + [b, a] + front, last, cc);
    }
  }

  lemma OrderedSnoc(s: seq<int>, x: int, cc: Classes)
    ensures Ordered(s + [x], cc) == Inserted(Ordered(s, cc), x, cc)
  {
    assert (s + [x])[..|s|] == s;
  }

  lemma {:induction false} SortedIsOrdered(s: seq<int>, cc: Classes)
    requires Sorted(s, cc)
    ensures Ordered(s, cc) == s
  {
    if s != [] {
      SortedIsOrdered(s[..|s| - 1], cc);
      assert s == s[..|s| - 1] + [s[|s| - 1]];
    }
  }

  // ----- whole sequences -----

  /** The length of the run of non-starters at the front. */
  function RunLength(s: seq<int>, cc: Classes): (r: nat)
    ensures r <= |s| && (forall i :: 0 <= i < r ==> cc(s[i]) != 0) && (r < |s| ==> cc(s[r]) == 0)
  {
    if s == [] || cc(s[0]) == 0 then 0 else 1 + RunLength(s[1..], cc)
  }

  /** Starters stay, and every run between them is ordered. */
  function CanonicalOrder(s: seq<int>, cc: Classes): (r: seq<int>)
    ensures |r| == |s|
    decreases |s|
  {
    if s == [] then []
    else if cc(s[0]) == 0 then [s[0]] + CanonicalOrder(s[1..], cc)
    else
      var n := RunLength(s, cc);
      Ordered(s[..n], cc) + CanonicalOrder(s[n..], cc)
  }

  lemma RunUnique(s: seq<int>, n: nat, cc: Classes)
    requires n <= |s| && (forall i :: 0 <= i < n ==> cc(s[i]) != 0) && (n < |s| ==> cc(s[n]) == 0)
    ensures RunLength(s, cc) == n
  {
    var r := RunLength(s, cc);
  }

  lemma FirstRun(s: seq<int>, n: nat, cc: Classes)
    requires 0 < n <= |s| && RunLength(s, cc) == n
    ensures CanonicalOrder(s, cc) == Ordered(s[..n], cc) + CanonicalOrder(s[n..], cc)
  {
    hide Ordered;
  }

  /** `t` is a permutation of `s` with the same starters in the same places. */
  predicate SameStarters(s: seq<int>, t: seq<int>, cc: Classes) {
    && |s| == |t| && multiset(s) == multiset(t)
    && forall i :: 0 <= i < |s| && (cc(s[i]) == 0 || cc(t[i]) == 0) ==> t[i] == s[i]
  }

  /** The result is a permutation that leaves every starter in place. */
  lemma {:induction false} StartersStay(s: seq<int>, cc: Classes)
    ensures SameStarters(s, CanonicalOrder(s, cc), cc)
    decreases |s|
  {
    hide Ordered, Sorted, OfClass, SameStarters;
    if s == [] {
      Joined([], [], [], [], cc);
    } else if cc(s[0]) == 0 {
      StartersStay(s[1..], cc);
      Joined([s[0]], [s[0]], s[1..], CanonicalOrder(s[1..], cc), cc);
      assert s == [s[0]] + s[1..];
    } else {
      var n := RunLength(s, cc);
      StartersStay(s[n..], cc);
      RunKeepsStarters(s, n, cc);
    }
  }

  lemma RunKeepsStarters(s: seq<int>, n: nat, cc: Classes)
    requires 0 < n <= |s| && RunLength(s, cc) == n && SameStarters(s[n..], CanonicalOrder(s[n..], cc), cc)
    ensures SameStarters(s, CanonicalOrder(s, cc), cc)
  {
    hide CanonicalOrder, Ordered, Sorted, OfClass, SameStarters, RunLength;
    var run, o, rest := s[..n], Ordered(s[..n], cc), CanonicalOrder(s[n..], cc);
    FirstRun(s, n, cc);
    OrderedIsStableSort(run, cc);
    NoStarters(run, o, cc);
    Joined(run, o, s[n..], rest, cc);
    assert s == run + s[n..];
  }

  lemma Joined(s: seq<int>, t: seq<int>, s': seq<int>, t': seq<int>, cc: Classes)
    requires |s| == |t| && multiset(s) == multiset(t)
    requires (forall i :: 0 <= i < |s| ==> cc(s[i]) != 0 && cc(t[i]) != 0) || s == t
    requires s' == t' == [] || SameStarters(s', t', cc)
    ensures SameStarters(s + s', t + t', cc)
  {}

  lemma NoStarters(s: seq<int>, t: seq<int>, cc: Classes)
    requires multiset(t) == multiset(s) && forall i :: 0 <= i < |s| ==> cc(s[i]) != 0
    ensures forall i :: 0 <= i < |t| ==> cc(t[i]) != 0
  {
    forall i | 0 <= i < |t| ensures cc(t[i]) != 0 {
      assert t[i] in multiset(s);
      assert t[i] in s;
    }
  }

  // ----- the standard's own definition: exchanging reorderable pairs -----

  /** `s[i]` and `s[i + 1]` are a reorderable pair: their classes descend and neither is a starter. */
  predicate Reorderable(s: seq<int>, i: nat, cc: Classes) {
    i + 1 < |s| && cc(s[i]) > cc(s[i + 1]) > 0
  }

  function Exchanged(s: seq<int>, i: nat): (r: seq<int>)
    requires i + 1 < |s|
    ensures |r| == |s|
  {
    s[i := s[i + 1]][i + 1 := s[i]]
  }

  lemma ExchangeInRun(s: seq<int>, i: nat, cc: Classes)
    requires Reorderable(s, i, cc)
    ensures Ordered(Exchanged(s, i), cc) == Ordered(s, cc)
  {
    assert s == s[..i] + [s[i], s[i + 1]] + s[i + 2..];
    assert Exchanged(s, i) == s[..i] + [s[i + 1], s[i]] + s[i + 2..];
    OrderedAppend(s[..i], s[i], s[i + 1], s[i + 2..], cc);
  }

  /** Exchanging a reorderable pair does not change the outcome. */
  lemma {:induction false} ExchangeKeepsOrder(s: seq<int>, i: nat, cc: Classes)
    requires Reorderable(s, i, cc)
    ensures CanonicalOrder(Exchanged(s, i), cc) == CanonicalOrder(s, cc)
    decreases |s|
  {
    hide Ordered;
    var t := Exchanged(s, i);
    if cc(s[0]) == 0 {
      assert t[1..] == Exchanged(s[1..], i - 1);
      ExchangeKeepsOrder(s[1..], i - 1, cc);
    } else {
      var n := RunLength(s, cc);
      RunUnique(t, n, cc);
      if i < n {
        assert i + 1 != n;
        assert t[..n] == Exchanged(s[..n], i) && t[n..] == s[n..];
        ExchangeInRun(s[..n], i, cc);
      } else {
        assert t[..n] == s[..n] && t[n..] == Exchanged(s[n..], i - n);
        ExchangeKeepsOrder(s[n..], i - n, cc);
      }
    }
  }

  /** A sequence without reorderable pairs is its own canonical order. */
  lemma {:induction false} SettledIsOrdered(s: seq<int>, cc: Classes)
    requires forall i :: !Reorderable(s, i, cc)
    ensures CanonicalOrder(s, cc) == s
    decreases |s|
  {
    hide Ordered;
    if s != [] && cc(s[0]) == 0 {
      SettledTail(s, 1, cc);
      SettledIsOrdered(s[1..], cc);
      assert s == [s[0]] + s[1..];
    } else if s != [] {
      var n := RunLength(s, cc);
      SettledTail(s, n, cc);
      SettledIsOrdered(s[n..], cc);
      SettledRun(s, n, cc);
      SortedIsOrdered(s[..n], cc);
      assert s == s[..n] + s[n..];
    }
  }

  lemma SettledTail(s: seq<int>, n: nat, cc: Classes)
    requires n <= |s| && forall i :: !Reorderable(s, i, cc)
    ensures forall i :: !Reorderable(s[n..], i, cc)
  {
    forall i: nat ensures !Reorderable(s[n..], i, cc) {
      assert !Reorderable(s, n + i, cc);
    }
  }

  lemma {:induction false} SettledRun(s: seq<int>, n: nat, cc: Classes)
    requires n <= |s| && (forall i :: 0 <= i < n ==> cc(s[i]) != 0) && forall i :: !Reorderable(s, i, cc)
    ensures Sorted(s[..n], cc)
  {
    if n > 0 {
      SettledRun(s, n - 1, cc);
      var r := s[..n];
      forall i | 0 <= i < n - 1 ensures cc(r[i]) <= cc(r[n - 1]) {
        assert !Reorderable(s, n - 2, cc);
        assert i < n - 2 ==> cc(s[..n - 1][i]) <= cc(s[..n - 1][n - 2]);
      }
      forall i, j | 0 <= i < j < n ensures cc(r[i]) <= cc(r[j]) {
        assert j < n - 1 ==> cc(s[..n - 1][i]) <= cc(s[..n - 1][j]);
      }
    }
  }

  /** `t` arises from `s` by exchanging the reorderable pairs at the given places, one after the other. */
  ghost predicate Exchanges(s: seq<int>, places: seq<nat>, t: seq<int>, cc: Classes)
    decreases |places|
  {
    if places == [] then s == t
    else Reorderable(s, places[0], cc) && Exchanges(Exchanged(s, places[0]), places[1..], t, cc)
  }

  /** Whatever order the exchanges are made in, once none is left the outcome is the canonical order. */
  lemma {:induction false} ExchangesEndOrdered(s: seq<int>, places: seq<nat>, t: seq<int>, cc: Classes)
    requires Exchanges(s, places, t, cc) && forall i :: !Reorderable(t, i, cc)
    ensures t == CanonicalOrder(s, cc)
    decreases |places|
  {
    if places == [] {
      SettledIsOrdered(s, cc);
    } else {
      ExchangesEndOrdered(Exchanged(s, places[0]), places[1..], t, cc);
      ExchangeKeepsOrder(s, places[0], cc);
    }
  }

  // ----- the algorithm in place -----

  /** `sort_cc` puts the first `len` code points into canonical order. */
  method SortCc(buf: array<int>, len: nat, cc: Classes)
    requires len <= buf.Length
    modifies buf
    ensures buf[..len] == CanonicalOrder(old(buf[..len]), cc)
    ensures forall m :: len <= m < buf.Length ==> buf[m] == old(buf[m])
  {
    hide CanonicalOrder, Ordered, RunLength;
    ghost var s := buf[..len];
    ghost var done: seq<int> := [];
    var i: nat := 0;
    StartOrder(s, cc);
    while i < len
      invariant i <= len && |done| == i && buf[..i] == done
      invariant forall m :: i <= m < len ==> buf[m] == s[m]
      invariant forall m :: len <= m < buf.Length ==> buf[m] == old(buf[m])
      invariant CanonicalOrder(s, cc) == done + CanonicalOrder(s[i..], cc)
    {
      if cc(buf[i]) != 0 {
        ghost var i0 := i;
        ghost var before := buf[..];
        i := SortRun(buf, i, len, cc);
        NextRun(s, i0, i, done, cc);
        assert before[i0..i] == s[i0..i];
        assert buf[..i] == buf[..i0] + buf[i0..i] && buf[..i0] == done;
        done := done + Ordered(s[i0..i], cc);
      }
      if i < len {
        NextStarter(s, i, done, cc);
        done := done + [s[i]];
        i := i + 1;
      }
    }
    EndOrder(s, done, cc);
  }

  lemma StartOrder(s: seq<int>, cc: Classes)
    ensures CanonicalOrder(s, cc) == [] + CanonicalOrder(s[0..], cc)
  {
    assert s[0..] == s;
  }

  lemma EndOrder(s: seq<int>, done: seq<int>, cc: Classes)
    requires CanonicalOrder(s, cc) == done + CanonicalOrder(s[|s|..], cc)
    ensures CanonicalOrder(s, cc) == done
  {
    assert s[|s|..] == [];
  }

  lemma Associative(a: seq<int>, b: seq<int>, c: seq<int>)
    ensures a + (b + c) == a + b + c
  {}

  lemma NextRun(s: seq<int>, i: nat, j: nat, done: seq<int>, cc: Classes)
    requires i < j <= |s| && (forall k :: i <= k < j ==> cc(s[k]) != 0) && (j < |s| ==> cc(s[j]) == 0)
    requires CanonicalOrder(s, cc) == done + CanonicalOrder(s[i..], cc)
    ensures CanonicalOrder(s, cc) == done + Ordered(s[i..j], cc) + CanonicalOrder(s[j..], cc)
  {
    hide Ordered, RunLength, CanonicalOrder;
    var t := s[i..];
    RunUnique(t, j - i, cc);
    FirstRun(t, j - i, cc);
    assert t[..j - i] == s[i..j] && t[j - i..] == s[j..];
    Associative(done, Ordered(s[i..j], cc), CanonicalOrder(s[j..], cc));
  }

  lemma NextStarter(s: seq<int>, i: nat, done: seq<int>, cc: Classes)
    requires i < |s| && cc(s[i]) == 0 && CanonicalOrder(s, cc) == done + CanonicalOrder(s[i..], cc)
    ensures CanonicalOrder(s, cc) == done + [s[i]] + CanonicalOrder(s[i + 1..], cc)
  {
    FirstStarter(s[i..], cc);
    hide CanonicalOrder;
    assert s[i..][1..] == s[i + 1..];
    Associative(done, [s[i]], CanonicalOrder(s[i + 1..], cc));
  }

  lemma FirstStarter(s: seq<int>, cc: Classes)
    requires s != [] && cc(s[0]) == 0
    ensures CanonicalOrder(s, cc) == [s[0]] + CanonicalOrder(s[1..], cc)
  {}

  /** The insertion sort of the run beginning at `start`. */
  method SortRun(buf: array<int>, start: nat, len: nat, cc: Classes) returns (j: nat)
    requires start < len <= buf.Length && cc(buf[start]) != 0
    modifies buf
    ensures start < j <= len && (forall k :: start <= k < j ==> cc(old(buf[k])) != 0) && (j < len ==> cc(old(buf[j])) == 0)
    ensures forall m :: 0 <= m < start || j <= m < buf.Length ==> buf[m] == old(buf[m])
    ensures buf[start..j] == Ordered(old(buf[start..j]), cc)
  {
    hide Ordered;
    ghost var was := buf[..];
    j := start + 1;
    OrderedOne(was[start..j], cc);
    while j < len
      invariant start < j <= len
      invariant forall m :: 0 <= m < start || j <= m < buf.Length ==> buf[m] == was[m]
      invariant forall k :: start <= k < j ==> cc(was[k]) != 0
      invariant buf[start..j] == Ordered(was[start..j], cc)
    {
      var ch1 := buf[j];
      if cc(ch1) == 0 {
        break;
      }
      InsertBack(buf, start, j, cc);
      OrderedNext(was, start, j, cc);
      j := j + 1;
    }
    assert old(buf[start..j]) == was[start..j];
  }

  lemma OrderedNext(s: seq<int>, start: nat, j: nat, cc: Classes)
    requires start <= j < |s|
    ensures Ordered(s[start..j + 1], cc) == Inserted(Ordered(s[start..j], cc), s[j], cc)
  {
    assert s[start..j + 1] == s[start..j] + [s[j]];
    OrderedSnoc(s[start..j], s[j], cc);
  }

  lemma OrderedOne(s: seq<int>, cc: Classes)
    requires |s| == 1
    ensures Ordered(s, cc) == s
  {
    assert s == [] + [s[0]];
    OrderedSnoc([], s[0], cc);
  }

  /** The inner loop: `buf[j]` moves back over larger classes. */
  method InsertBack(buf: array<int>, start: nat, j: nat, cc: Classes)
    requires start < j < buf.Length
    modifies buf
    ensures forall m :: 0 <= m < start || j < m < buf.Length ==> buf[m] == old(buf[m])
    ensures buf[start..j + 1] == Inserted(old(buf[start..j]), old(buf[j]), cc)
  {
    hide Inserted;
    ghost var was := buf[..];
    var ch1 := buf[j];
    var k: int := j - 1;
    assert was[k + 1..j] == [];
    while k >= start && cc(buf[k]) > cc(ch1)
      invariant start - 1 <= k < j
      invariant forall m :: 0 <= m <= k || j < m < buf.Length ==> buf[m] == was[m]
      invariant forall m :: k + 2 <= m <= j ==> buf[m] == was[m - 1]
      invariant Inserted(was[start..j], ch1, cc) == Inserted(was[start..k + 1], ch1, cc) + was[k + 1..j]
    {
      InsertStep(was, start, k, j, ch1, cc);
      buf[k + 1] := buf[k];
      k := k - 1;
    }
    InsertStop(was, start, k, ch1, cc);
    buf[k + 1] := ch1;
    Moved(was, buf[..], start, k, j, ch1);
    assert buf[..][start..j + 1] == buf[start..j + 1];
    assert old(buf[start..j]) == was[start..j];
  }

  lemma Moved(s: seq<int>, r: seq<int>, start: nat, k: int, j: nat, x: int)
    requires start - 1 <= k < j < |s| == |r| && r[k + 1] == x
    requires forall m :: 0 <= m <= k ==> r[m] == s[m]
    requires forall m :: k + 2 <= m <= j ==> r[m] == s[m - 1]
    ensures r[start..j + 1] == s[start..k + 1] + [x] + s[k + 1..j]
  {}

  lemma InsertStep(s: seq<int>, start: nat, k: nat, j: nat, x: int, cc: Classes)
    requires start <= k < j <= |s| && cc(s[k]) > cc(x)
    ensures Inserted(s[start..k + 1], x, cc) + s[k + 1..j] == Inserted(s[start..k], x, cc) + s[k..j]
  {
    assert s[start..k + 1] == s[start..k] + [s[k]];
    InsertLast(s[start..k], s[k], x, cc);
    assert [s[k]] + s[k + 1..j] == s[k..j];
  }

  lemma InsertStop(s: seq<int>, start: nat, k: int, x: int, cc: Classes)
    requires start - 1 <= k < |s| && (k >= start ==> cc(s[k]) <= cc(x))
    ensures Inserted(s[start..k + 1], x, cc) == s[start..k + 1] + [x]
  {}
}
