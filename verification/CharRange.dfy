/** `CharRange`: a growable boundary array, combined by merging and compressed in place. */
module CharRange {
  import opened Codegen
  import opened CharSets

  // ----- compressing -----

  lemma CancelAt(s: seq<nat>, i: nat, c: nat)
    requires i + 1 < |s| && s[i] == s[i + 1]
    ensures In(s[..i] + s[i + 2..], c) == In(s, c)
  {
    assert s == s[..i] + [s[i], s[i]] + s[i + 2..];
    CancelPair(s[..i], s[i], s[i + 2..], c);
  }

  /** Dropping the two equal boundaries at the front of what is still to be read. */
  lemma SkipPair(done: seq<nat>, s: seq<nat>, c: nat)
    requires |s| >= 2 && s[0] == s[1]
    ensures In(done + s[2..], c) == In(done + s, c)
  {
    hide In;
    var t := done + s;
    assert t[..|done|] == done && t[|done| + 2..] == s[2..];
    CancelAt(t, |done|, c);
  }

  ghost predicate Same(s: seq<nat>, t: seq<nat>) {
    forall c: nat :: In(s, c) == In(t, c)
  }

  lemma SkipPairs(done: seq<nat>, s: seq<nat>)
    requires |s| >= 2 && s[0] == s[1]
    ensures Same(done + s[2..], done + s)
  {
    hide In;
    forall c: nat ensures In(done + s[2..], c) == In(done + s, c) {
      SkipPair(done, s, c);
    }
  }

  lemma Reflexive(s: seq<nat>)
    ensures Same(s, s)
  {}

  lemma Transitive(s: seq<nat>, t: seq<nat>, u: seq<nat>)
    requires Same(s, t) && Same(t, u)
    ensures Same(s, u)
  {
    forall c: nat ensures In(s, c) == In(u, c) {
      assert In(s, c) == In(t, c);
    }
  }

  /** `done` holds the compressed form of the first `i` boundaries of `s`. */
  ghost predicate Compressed(done: seq<nat>, s: seq<nat>, i: nat) {
    && i <= |s|
    && (forall m :: 0 <= m < |done| ==> done[m] in s)
    && Same(done + s[i..], s)
    && (Ascending(s) ==> Strict(done) && (done != [] && i < |s| ==> done[|done| - 1] < s[i]))
  }

  /** The interval opened at `s[i]` reaches at least to `s[j + 1]`. */
  ghost predicate Joined(done: seq<nat>, s: seq<nat>, i: nat, j: nat) {
    i <= j && j + 1 < |s| && Same(done + [s[i]] + s[j + 1..], s)
  }

  lemma StartCompress(s: seq<nat>)
    ensures Compressed([], s, 0)
  {
    assert [] + s[0..] == s;
  }

  lemma SkipEmpty(done: seq<nat>, s: seq<nat>, i: nat)
    requires i + 1 < |s| && s[i] == s[i + 1] && Compressed(done, s, i)
    ensures Compressed(done, s, i + 2)
  {
    hide Same;
    SkipSame(done, s, i);
  }

  lemma SkipSame(done: seq<nat>, s: seq<nat>, i: nat)
    requires i + 1 < |s| && s[i] == s[i + 1] && Same(done + s[i..], s)
    ensures Same(done + s[i + 2..], s)
  {
    hide Same;
    assert s[i..][2..] == s[i + 2..];
    SkipPairs(done, s[i..]);
    Transitive(done + s[i + 2..], done + s[i..], s);
  }

  lemma StartRun(done: seq<nat>, s: seq<nat>, i: nat)
    requires i + 1 < |s| && Compressed(done, s, i)
    ensures Joined(done, s, i, i)
  {
    hide Same;
    assert done + [s[i]] + s[i + 1..] == done + s[i..];
  }

  lemma SkipTouching(done: seq<nat>, s: seq<nat>, i: nat, j: nat)
    requires j + 3 < |s| && s[j + 1] == s[j + 2] && Joined(done, s, i, j)
    ensures Joined(done, s, i, j + 2)
  {
    hide Same;
    SkipSame(done + [s[i]], s, j + 1);
  }

  lemma EndRun(done: seq<nat>, s: seq<nat>, i: nat, j: nat)
    requires Compressed(done, s, i) && Joined(done, s, i, j) && s[i] != s[i + 1]
    requires j + 2 < |s| ==> s[j + 1] != s[j + 2]
    ensures Compressed(done + [s[i], s[j + 1]], s, j + 2)
  {
    hide Same;
    assert done + [s[i], s[j + 1]] + s[j + 2..] == done + [s[i]] + s[j + 1..];
    if Ascending(s) {
      assert s[i] < s[i + 1] <= s[j + 1];
    }
  }

  lemma EndCompress(done: seq<nat>, s: seq<nat>)
    requires Compressed(done, s, |s|)
    ensures Same(done, s) && (Ascending(s) ==> Strict(done)) && forall m :: 0 <= m < |done| ==> done[m] in s
  {
    assert done + s[|s|..] == done;
  }

  // ----- merging -----

  /** `out` is `a op b` as far as the first `i` boundaries of `a` and `j` of `b` tell, all of which are at
      most `top` while the others are at least `top`. */
  ghost predicate Merged(out: seq<nat>, a: seq<nat>, i: nat, b: seq<nat>, j: nat, op: SetOp, top: nat) {
    && i <= |a| && j <= |b|
    && Ascending(out)
    && (forall k :: 0 <= k < |out| ==> out[k] <= top && out[k] <= UINT32_MAX)
    && (forall k :: 0 <= k < i ==> a[k] <= top)
    && (forall k :: 0 <= k < j ==> b[k] <= top)
    && (forall k :: i <= k < |a| ==> top <= a[k])
    && (forall k :: j <= k < |b| ==> top <= b[k])
    && forall c: nat :: In(out, c) == Apply(op, In(a[..i], c), In(b[..j], c))
  }

  predicate Odd(n: nat) {
    n % 2 == 1
  }

  lemma InAll(s: seq<nat>, c: nat)
    requires forall i :: 0 <= i < |s| ==> s[i] <= c
    ensures In(s, c) == Odd(|s|)
  {
    CountAll(s, c);
  }

  lemma InSnocAbove(s: seq<nat>, v: nat, c: nat)
    requires c < v
    ensures In(s + [v], c) == In(s, c)
  {
    CountSnoc(s, v, c);
  }

  /** One input advances over `v`, or stays. */
  predicate Advances(a: seq<nat>, i: nat, i': nat, v: nat) {
    i <= i' <= |a| && (i' == i || (i' == i + 1 && a[i] == v))
  }

  lemma AdvanceBelow(a: seq<nat>, i: nat, i': nat, v: nat, c: nat)
    requires Advances(a, i, i', v) && c < v
    ensures In(a[..i'], c) == In(a[..i], c)
  {
    if i' != i {
      assert a[..i'] == a[..i] + [v];
      InSnocAbove(a[..i], v, c);
    }
  }

  /** `v` is the least boundary not yet passed, and the indices step over it. */
  predicate Least(a: seq<nat>, i: nat, b: seq<nat>, j: nat, i': nat, j': nat, v: nat) {
    if i < |a| && j < |b| then
      if a[i] < b[j] then v == a[i] && i' == i + 1 && j' == j
      else if a[i] == b[j] then v == a[i] && i' == i + 1 && j' == j + 1
      else v == b[j] && i' == i && j' == j + 1
    else if i < |a| then v == a[i] && i' == i + 1 && j' == j
    else j < |b| && v == b[j] && i' == i && j' == j + 1
  }

  lemma LeastAdvances(a: seq<nat>, i: nat, b: seq<nat>, j: nat, i': nat, j': nat, v: nat, top: nat)
    requires i <= |a| && j <= |b| && Least(a, i, b, j, i', j', v) && Ascending(a) && Ascending(b)
    requires forall k :: i <= k < |a| ==> top <= a[k]
    requires forall k :: j <= k < |b| ==> top <= b[k]
    ensures Advances(a, i, i', v) && Advances(b, j, j', v) && top <= v
    ensures forall k :: i' <= k < |a| ==> v <= a[k]
    ensures forall k :: j' <= k < |b| ==> v <= b[k]
  {}

  /** The inputs of a merge: sorted boundary arrays. */
  ghost predicate Sorted(s: seq<nat>) {
    |s| % 2 == 0 && Ascending(s) && forall k :: 0 <= k < |s| ==> s[k] <= UINT32_MAX
  }

  lemma MergeStep(out: seq<nat>, a: seq<nat>, i: nat, b: seq<nat>, j: nat, op: SetOp, top: nat,
                  i': nat, j': nat, v: nat, out': seq<nat>)
    requires Sorted(a) && Sorted(b) && Merged(out, a, i, b, j, op, top) && Least(a, i, b, j, i', j', v)
    requires out' == if Apply(op, Odd(i'), Odd(j')) != Odd(|out|) then out + [v] else out
    ensures Merged(out', a, i', b, j', op, v)
  {
    hide In, Odd, Apply, Least;
    LeastAdvances(a, i, b, j, i', j', v, top);
    assert v <= UINT32_MAX by { LeastIsBoundary(a, i, b, j, i', j', v); }
    forall c: nat ensures In(out', c) == Apply(op, In(a[..i'], c), In(b[..j'], c)) {
      if c < v {
        AdvanceBelow(a, i, i', v, c);
        AdvanceBelow(b, j, j', v, c);
        InSnocAbove(out, v, c);
      } else {
        InAll(a[..i'], c);
        InAll(b[..j'], c);
        InAll(out', c);
        NextParity(|out|);
      }
    }
  }

  lemma LeastIsBoundary(a: seq<nat>, i: nat, b: seq<nat>, j: nat, i': nat, j': nat, v: nat)
    requires Sorted(a) && Sorted(b) && Least(a, i, b, j, i', j', v)
    ensures v <= UINT32_MAX
  {}

  lemma MergeStarts(a: seq<nat>, b: seq<nat>, op: SetOp)
    ensures Merged([], a, 0, b, 0, op, 0)
  {
    assert a[..0] == b[..0] == [];
  }

  lemma NextParity(n: nat)
    ensures Odd(n + 1) == !Odd(n)
  {}

  /** Whether the result is inside after `i` boundaries of one input and `j` of the other. */
  predicate IsIn(op: SetOp, i: nat, j: nat)
    ensures IsIn(op, i, j) == Apply(op, Odd(i), Odd(j))
  {
    match op
    case Union => i % 2 == 1 || j % 2 == 1
    case Inter => i % 2 == 1 && j % 2 == 1
    case Xor => i % 2 != j % 2
    case Sub => i % 2 == 1 && j % 2 != 1
  }

  lemma MergeEnds(out: seq<nat>, a: seq<nat>, b: seq<nat>, op: SetOp, top: nat)
    requires Sorted(a) && Sorted(b) && Merged(out, a, |a|, b, |b|, op, top)
    ensures |out| % 2 == 0 && Ascending(out) && forall k :: 0 <= k < |out| ==> out[k] <= UINT32_MAX
    ensures forall c: nat :: In(out, c) == Apply(op, In(a, c), In(b, c))
  {
    hide In, Apply;
    assert a[..|a|] == a && b[..|b|] == b;
    InAll(a, top);
    InAll(b, top);
    InAll(out, top);
    Nothing(op);
  }

  lemma MergeResult(r: seq<nat>, out: seq<nat>, a: seq<nat>, b: seq<nat>, op: SetOp)
    requires forall k :: 0 <= k < |out| ==> out[k] <= UINT32_MAX
    requires forall c: nat :: In(out, c) == Apply(op, In(a, c), In(b, c))
    requires |r| % 2 == 0 && Strict(r) && Same(r, out) && forall k :: 0 <= k < |r| ==> r[k] in out
    ensures IsResult(r, a, b, op)
  {
    hide In, Apply;
  }

  lemma Nothing(op: SetOp)
    ensures !Apply(op, false, false)
  {}

  lemma Framed(t: seq<nat>, s: seq<nat>)
    requires Sorted(s) && |t| == |s| + 2 && t[0] == 0 && t[1..|s| + 1] == s && t[|s| + 1] == UINT32_MAX
    ensures |t| % 2 == 0 && t == [0] + s + [UINT32_MAX] && Ascending(t)
  {
    assert t == [t[0]] + t[1..|s| + 1] + [t[|s| + 1]];
    forall i, j | 0 <= i < j < |t| ensures t[i] <= t[j] {
      assert i > 0 ==> t[i] == s[i - 1];
      assert j <= |s| ==> t[j] == s[j - 1];
    }
  }

  lemma InvertIsComplement(s: seq<nat>, r: seq<nat>)
    requires Sorted(s) && |r| % 2 == 0 && Strict(r) && Same(r, [0] + s + [UINT32_MAX])
    requires forall k :: 0 <= k < |r| ==> r[k] in [0] + s + [UINT32_MAX]
    ensures IsComplement(r, s)
  {
    forall c: nat ensures In(r, c) == (c < UINT32_MAX && !In(s, c)) {
      CountSnoc([0] + s, UINT32_MAX, c);
      CountAppend([0], s, c);
      CountSnoc([], 0, c);
      assert [0] == [] + [0];
      if c >= UINT32_MAX {
        CountAll(s, c);
      }
    }
  }

  /** `memmove` of the first `n` entries up by one. */
  method MoveUp(pt: array<nat>, n: nat)
    requires n < pt.Length
    modifies pt
    ensures pt[1..n + 1] == old(pt[..n])
    ensures forall m :: n < m < pt.Length ==> pt[m] == old(pt[m])
  {
    var i: nat := n;
    while i > 0
      invariant i <= n
      invariant forall m :: 0 <= m < i ==> pt[m] == old(pt[m])
      invariant forall m :: i < m <= n ==> pt[m] == old(pt[m - 1])
      invariant forall m :: n < m < pt.Length ==> pt[m] == old(pt[m])
    {
      pt[i] := pt[i - 1];
      i := i - 1;
    }
  }

  /** The last of the intervals from `i` on that touch one another. */
  method LastTouching(pt: array<nat>, i: nat, n: nat, ghost done: seq<nat>, ghost s: seq<nat>) returns (j: nat)
    requires i + 1 < n == |s| <= pt.Length && i % 2 == 0 && Compressed(done, s, i) && s[i] != s[i + 1]
    requires n % 2 == 0 && forall m :: i <= m < n ==> pt[m] == s[m]
    ensures i <= j && j + 1 < n && j % 2 == 0 && Joined(done, s, i, j)
    ensures j + 3 < n ==> s[j + 1] != s[j + 2]
  {
    hide Compressed, Joined;
    j := i;
    StartRun(done, s, i);
    while j + 3 < n && pt[j + 1] == pt[j + 2]
      invariant i <= j && j + 1 < n && j % 2 == 0
      invariant Joined(done, s, i, j)
    {
      SkipTouching(done, s, i, j);
      j := j + 2;
    }
  }

  /** The loops of `cr_compress` on the first `n` boundaries. */
  method CompressPoints(pt: array<nat>, n: nat) returns (k: nat, ghost done: seq<nat>)
    requires n <= pt.Length && n % 2 == 0
    modifies pt
    ensures k <= n && k % 2 == 0 && |done| == k && (forall m :: 0 <= m < k ==> pt[m] == done[m])
    ensures Compressed(done, old(pt[..n]), n)
  {
    hide Compressed, Joined, Same, Ascending, Strict;
    ghost var s := pt[..n];
    var i: nat := 0;
    k, done := 0, [];
    StartCompress(s);
    while i + 1 < n
      invariant k <= i <= n == |s| <= pt.Length && i % 2 == 0 && k % 2 == 0
      invariant |done| == k && forall m :: 0 <= m < k ==> pt[m] == done[m]
      invariant forall m :: i <= m < n ==> pt[m] == s[m]
      invariant Compressed(done, s, i)
    {
      if pt[i] == pt[i + 1] {
        SkipEmpty(done, s, i);
        i := i + 2;
      } else {
        var j := LastTouching(pt, i, n, done, s);
        EndRun(done, s, i, j);
        pt[k] := pt[i];
        pt[k + 1] := pt[j + 1];
        done := done + [s[i], s[j + 1]];
        k := k + 2;
        i := j + 2;
      }
    }
  }

  class CharRange {
    var points: array<nat>
    var len: nat

    ghost predicate Valid()
      reads this
    {
      len <= points.Length
    }

    function Points(): seq<nat>
      requires Valid()
      reads this, points
    {
      points[..len]
    }

    constructor ()
      ensures Valid() && Points() == [] && fresh(points)
    {
      points := new nat[0];
      len := 0;
    }

    method Realloc(size: nat)
      requires Valid()
      modifies `points
      ensures Valid() && Points() == old(Points()) && points.Length >= size
      ensures points == old(points) || fresh(points)
    {
      if size > points.Length {
        var newSize := if size > points.Length * 3 / 2 then size else points.Length * 3 / 2;
        var newBuf := new nat[newSize];
        var i: nat := 0;
        while i < len
          invariant i <= len <= newSize
          invariant newBuf[..i] == points[..i]
          modifies newBuf
        {
          newBuf[i] := points[i];
          i := i + 1;
        }
        points := newBuf;
      }
    }

    method AddPoint(v: nat)
      requires Valid()
      modifies this, points
      ensures Valid() && Points() == old(Points()) + [v]
      ensures points == old(points) || fresh(points)
    {
      if len >= points.Length {
        Realloc(len + 1);
      }
      points[len] := v;
      len := len + 1;
    }

    method AddInterval(c1: nat, c2: nat)
      requires Valid()
      modifies this, points
      ensures Valid() && Points() == old(Points()) + [c1, c2]
      ensures points == old(points) || fresh(points)
    {
      if len + 2 > points.Length {
        Realloc(len + 2);
      }
      points[len] := c1;
      points[len + 1] := c2;
      len := len + 2;
    }

    /** Merges intervals that touch and removes empty ones, in place. */
    method Compress()
      requires Valid() && len % 2 == 0
      modifies `len, points
      ensures Valid() && len % 2 == 0 && Same(Points(), old(Points()))
      ensures Ascending(old(Points())) ==> Strict(Points())
      ensures forall k :: 0 <= k < len ==> Points()[k] in old(Points())
    {
      hide Compressed, Same, Ascending, Strict;
      ghost var s := Points();
      ghost var done;
      len, done := CompressPoints(points, len);
      EndCompress(done, s);
      assert Points() == done;
    }

    /** Fills an empty range with the canonical form of `a op b` by one merge. */
    method Op(a: array<nat>, aLen: nat, b: array<nat>, bLen: nat, op: SetOp)
      requires Valid() && len == 0 && a != points && b != points
      requires aLen <= a.Length && bLen <= b.Length && Sorted(a[..aLen]) && Sorted(b[..bLen])
      modifies this, points
      ensures Valid() && IsResult(Points(), a[..aLen], b[..bLen], op)
      ensures points == old(points) || fresh(points)
    {
      hide Merged, Sorted, IsResult, IsIn, Apply, Odd, Ascending, Strict, Same;
      ghost var sa, sb := a[..aLen], b[..bLen];
      ghost var top: nat := 0;
      var i, j: nat := 0, 0;
      assert Points() == [];
      MergeStarts(sa, sb, op);
      while i < aLen || j < bLen
        invariant Valid() && a != points && b != points && a[..aLen] == sa && b[..bLen] == sb
        invariant i <= aLen && j <= bLen
        invariant points == old(points) || fresh(points)
        invariant Merged(Points(), sa, i, sb, j, op, top)
        decreases aLen + bLen - i - j
      {
        var v: nat;
        ghost var i0, j0 := i, j;
        if i < aLen && (j < bLen ==> a[i] < b[j]) {
          v := a[i];
          i := i + 1;
        } else if i < aLen && a[i] == b[j] {
          v := a[i];
          i, j := i + 1, j + 1;
        } else {
          v := b[j];
          j := j + 1;
        }
        assert Least(sa, i0, sb, j0, i, j, v);
        ghost var out := Points();
        if IsIn(op, i, j) != Odd(len) {
          AddPoint(v);
        }
        MergeStep(out, sa, i0, sb, j0, op, top, i, j, v, Points());
        top := v;
      }
      MergeEnds(Points(), sa, sb, op, top);
      ghost var out := Points();
      Compress();
      MergeResult(Points(), out, sa, sb, op);
    }

    method Op1(b: array<nat>, bLen: nat, op: SetOp)
      requires Valid() && bLen <= b.Length && Sorted(Points()) && Sorted(b[..bLen])
      modifies this
      ensures Valid() && fresh(points) && IsResult(Points(), old(Points()), old(b[..bLen]), op)
    {
      var a, aLen := points, len;
      points := new nat[0];
      len := 0;
      Op(a, aLen, b, bLen, op);
    }

    method UnionInterval(c1: nat, c2: nat)
      requires Valid() && Sorted(Points()) && c1 <= c2 < UINT32_MAX
      modifies this
      ensures Valid() && fresh(points) && Canonical(Points())
      ensures forall c: nat :: In(Points(), c) == (In(old(Points()), c) || c1 <= c <= c2)
    {
      var b := new nat[][c1, c2 + 1];
      assert b[..2] == [c1, c2 + 1];
      ghost var was := Points();
      Op1(b, 2, Union);
      forall c: nat ensures In(Points(), c) == (In(was, c) || c1 <= c <= c2) {
        OneInterval(c1, c2, c);
      }
    }

    method Invert()
      requires Valid() && Sorted(Points())
      modifies this, points
      ensures Valid() && IsComplement(Points(), old(Points()))
      ensures points == old(points) || fresh(points)
    {
      hide Sorted, IsComplement, Same, Strict, Ascending;
      ghost var s := Points();
      var n: nat := len;
      Realloc(n + 2);
      MoveUp(points, n);
      points[0] := 0;
      points[n + 1] := UINT32_MAX;
      len := n + 2;
      Framed(Points(), s);
      Compress();
      InvertIsComplement(s, Points());
    }
  }

  lemma OneInterval(c1: nat, c2: nat, c: nat)
    requires c1 <= c2
    ensures In([c1, c2 + 1], c) == (c1 <= c <= c2)
  {
    assert [c1, c2 + 1] == [c1] + [c2 + 1];
    CountSnoc([c1], c2 + 1, c);
    assert [c1] == [] + [c1];
    CountSnoc([], c1, c);
  }
}
