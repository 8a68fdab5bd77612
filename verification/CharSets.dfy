/** Sets of code points as sequences of boundaries: a code point belongs to the set when an odd number of
    boundaries is at or below it. */
module CharSets {
  import opened RegexSyntax
  import opened Codegen

  /** The boundaries at or below `c`. */
  function Count(s: seq<nat>, c: nat): nat {
    if s == [] then 0 else Count(s[..|s| - 1], c) + if s[|s| - 1] <= c then 1 else 0
  }

  predicate In(s: seq<nat>, c: nat) {
    Count(s, c) % 2 == 1
  }

  ghost predicate Ascending(s: seq<nat>) {
    forall i, j :: 0 <= i < j < |s| ==> s[i] <= s[j]
  }

  lemma CountSnoc(s: seq<nat>, v: nat, c: nat)
    ensures Count(s + [v], c) == Count(s, c) + if v <= c then 1 else 0
  {
    assert (s + [v])[..|s|] == s;
  }

  lemma {:induction false} CountAppend(s: seq<nat>, t: seq<nat>, c: nat)
    ensures Count(s + t, c) == Count(s, c) + Count(t, c)
    decreases |t|
  {
    if t == [] {
      assert s + t == s;
    } else {
      var n := |t| - 1;
      assert (s + t)[..|s + t| - 1] == s + t[..n];
      CountAppend(s, t[..n], c);
    }
  }

  lemma {:induction false} CountAll(s: seq<nat>, c: nat)
    requires forall i :: 0 <= i < |s| ==> s[i] <= c
    ensures Count(s, c) == |s|
    decreases |s|
  {
    if s != [] {
      CountAll(s[..|s| - 1], c);
    }
  }

  lemma {:induction false} CountNone(s: seq<nat>, c: nat)
    requires forall i :: 0 <= i < |s| ==> c < s[i]
    ensures Count(s, c) == 0
    decreases |s|
  {
    if s != [] {
      CountNone(s[..|s| - 1], c);
    }
  }

  /** Two equal neighbours cancel. */
  lemma CancelPair(s: seq<nat>, v: nat, t: seq<nat>, c: nat)
    ensures In(s + [v, v] + t, c) == In(s + t, c)
  {
    hide Count;
    CountAppend(s + [v, v], t, c);
    CountAppend(s, t, c);
    assert s + [v, v] == (s + [v]) + [v];
    CountSnoc(s + [v], v, c);
    CountSnoc(s, v, c);
  }

  /** In ascending order the boundaries at or below `c` come first. */
  lemma {:induction false} CountSplits(s: seq<nat>, c: nat, k: nat)
    requires Ascending(s) && k <= |s| && (k > 0 ==> s[k - 1] <= c) && (k < |s| ==> c < s[k])
    ensures Count(s, c) == k
  {
    hide Count;
    assert s == s[..k] + s[k..];
    CountAppend(s[..k], s[k..], c);
    assert forall i :: 0 <= i < k ==> s[i] <= s[k - 1];
    CountAll(s[..k], c);
    assert forall i :: k <= i < |s| ==> s[k] <= s[i];
    CountNone(s[k..], c);
  }

  /** For ascending boundaries this is membership in one of the intervals. */
  lemma {:induction false} InIsMember(s: seq<nat>, c: nat)
    requires Ascending(s) && |s| % 2 == 0
    ensures In(s, c) <==> Member(s, c)
  {
    hide Count;
    var k := Split(s, c);
    CountSplits(s, c, k);
    if k % 2 == 1 {
      assert InInterval(s, k / 2, c);
    }
    if Member(s, c) {
      var j :| 0 <= j < |s| / 2 && InInterval(s, j, c);
      CountSplits(s, c, 2 * j + 1);
    }
  }

  /** The number of leading boundaries at or below `c`. */
  function Split(s: seq<nat>, c: nat): (k: nat)
    ensures k <= |s| && (k > 0 ==> s[k - 1] <= c) && (k < |s| ==> c < s[k])
    decreases |s|
  {
    if s == [] then 0
    else if s[|s| - 1] <= c then |s|
    else Split(s[..|s| - 1], c)
  }

  /** The canonical form of a set is unique. */
  lemma {:induction false} CanonicalUnique(a: seq<nat>, b: seq<nat>)
    requires Canonical(a) && Canonical(b) && forall c: nat :: In(a, c) == In(b, c)
    ensures a == b
  {
    StrictUnique(a, b);
  }

  ghost predicate Strict(s: seq<nat>) {
    forall i, j :: 0 <= i < j < |s| ==> s[i] < s[j]
  }

  lemma {:induction false} StrictUnique(a: seq<nat>, b: seq<nat>)
    requires Strict(a) && Strict(b) && forall c: nat :: In(a, c) == In(b, c)
    ensures a == b
    decreases |a|
  {
    if a == [] {
      EmptyOnly(b);
    } else if b == [] {
      EmptyOnly(a);
    } else {
      hide In;
      SameFirst(a, b);
      SameFirst(b, a);
      forall c: nat ensures In(a[1..], c) == In(b[1..], c) {
        DropFirst(a, c);
        DropFirst(b, c);
      }
      StrictUnique(a[1..], b[1..]);
      assert a == [a[0]] + a[1..] && b == [b[0]] + b[1..];
    }
  }

  lemma EmptyOnly(s: seq<nat>)
    requires Strict(s) && forall c: nat :: In(s, c) == In([], c)
    ensures s == []
  {
    if s != [] {
      FirstIsIn(s);
    }
  }

  lemma FirstIsIn(s: seq<nat>)
    requires Strict(s) && s != []
    ensures In(s, s[0])
  {
    CountSplits(s, s[0], 1);
  }

  lemma SameFirst(a: seq<nat>, b: seq<nat>)
    requires Strict(a) && Strict(b) && a != [] && b != [] && In(a, a[0]) == In(b, a[0])
    ensures b[0] <= a[0]
  {
    FirstIsIn(a);
    if a[0] < b[0] {
      CountSplits(b, a[0], 0);
    }
  }

  lemma DropFirst(s: seq<nat>, c: nat)
    requires s != []
    ensures In(s, c) == (In(s[1..], c) != (s[0] <= c))
  {
    assert s == [s[0]] + s[1..];
    CountAppend([s[0]], s[1..], c);
    assert [s[0]] == [] + [s[0]];
    CountSnoc([], s[0], c);
  }

  // ----- operations -----

  datatype SetOp = Union | Inter | Xor | Sub

  function Apply(op: SetOp, a: bool, b: bool): bool {
    match op
    case Union => a || b
    case Inter => a && b
    case Xor => a != b
    case Sub => a && !b
  }

  /** `r` is the canonical form of `a op b`. */
  ghost predicate IsResult(r: seq<nat>, a: seq<nat>, b: seq<nat>, op: SetOp) {
    Canonical(r) && forall c: nat :: In(r, c) == Apply(op, In(a, c), In(b, c))
  }

  /** `r` is the canonical form of the complement of `a` below UINT32_MAX. */
  ghost predicate IsComplement(r: seq<nat>, a: seq<nat>) {
    Canonical(r) && forall c: nat :: In(r, c) == (c < UINT32_MAX && !In(a, c))
  }

  lemma NothingAtTop(a: seq<nat>, c: nat)
    requires Canonical(a) && c >= UINT32_MAX
    ensures !In(a, c)
  {
    CountAll(a, c);
  }

  /** The complement of the complement is the set itself, as a sequence of boundaries. */
  lemma ComplementTwice(a: seq<nat>, b: seq<nat>, r: seq<nat>)
    requires Canonical(a) && IsComplement(b, a) && IsComplement(r, b)
    ensures r == a
  {
    forall c: nat ensures In(r, c) == In(a, c) {
      if c >= UINT32_MAX {
        NothingAtTop(a, c);
      }
    }
    CanonicalUnique(r, a);
  }

  /** Difference is intersection with the complement. */
  lemma SubIsInterComplement(a: seq<nat>, b: seq<nat>, b': seq<nat>, r: seq<nat>, r': seq<nat>)
    requires Canonical(a) && Canonical(b) && IsComplement(b', b) && IsResult(r, a, b, Sub) && IsResult(r', a, b', Inter)
    ensures r == r'
  {
    forall c: nat ensures In(r, c) == In(r', c) {
      if c >= UINT32_MAX {
        NothingAtTop(a, c);
      }
    }
    CanonicalUnique(r, r');
  }

  /** The members of the four results. */
  lemma Members(a: seq<nat>, b: seq<nat>, r: seq<nat>, c: nat)
    ensures IsResult(r, a, b, Union) ==> (In(r, c) <==> In(a, c) || In(b, c))
    ensures IsResult(r, a, b, Inter) ==> (In(r, c) <==> In(a, c) && In(b, c))
    ensures IsResult(r, a, b, Sub) ==> (In(r, c) <==> In(a, c) && !In(b, c))
    ensures IsResult(r, a, b, Xor) ==> (In(r, c) <==> In(a, c) != In(b, c))
  {}

  /** The symmetric difference is the union without the intersection. */
  lemma XorIsUnionWithoutInter(a: seq<nat>, b: seq<nat>, u: seq<nat>, i: seq<nat>, r: seq<nat>, r': seq<nat>)
    requires IsResult(u, a, b, Union) && IsResult(i, a, b, Inter) && IsResult(r, a, b, Xor) && IsResult(r', u, i, Sub)
    ensures r == r'
  {
    CanonicalUnique(r, r');
  }

  /** The complement of a union is the intersection of the complements. */
  lemma DeMorgan(a: seq<nat>, b: seq<nat>, a': seq<nat>, b': seq<nat>, u: seq<nat>, r: seq<nat>, r': seq<nat>)
    requires IsComplement(a', a) && IsComplement(b', b) && IsResult(u, a, b, Union)
    requires IsComplement(r, u) && IsResult(r', a', b', Inter)
    ensures r == r'
  {
    CanonicalUnique(r, r');
  }
}
