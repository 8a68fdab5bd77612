/** A set of code points is mapped through regular-expression case folding. */
module CaseFolding {
  import opened Options
  import opened Subject
  import opened RegexSyntax
  import opened Codegen
  import opened CharSets
  import opened CharRange
  import opened CaseTables
  import opened CaseMask
  import opened Overlap

  function Conversion(unicode: bool): nat {
    if unicode then FOLD else UPPER
  }

  function FoldMask(unicode: bool): Mask {
    if unicode then Mask(false, false, true) else Mask(true, false, false)
  }

  /** `d` is the canonical form of a member. */
  ghost predicate InImage(t: Tables, s: seq<nat>, unicode: bool, d: nat)
    requires TablesOk(t)
  {
    exists c: nat :: In(s, c) && Canonicalize(t, c, unicode) == d
  }

  // ----- the mask separates what folding changes -----

  lemma MarkedIsCovered(t: Tables, m: Mask, c: nat)
    requires TablesOk(t) && Marked(t, |t.runs|, m, c)
    ensures RunOf(t, c).Some?
  {
    var i :| 0 <= i < |t.runs| && Marks(t, i, m, c);
    assert Covers(t, i, c);
  }

  /** A code point outside the mask folds to itself. */
  lemma UnmarkedIsFixed(t: Tables, c: nat, unicode: bool)
    requires TablesOk(t) && AsciiAgrees(t, Conversion(unicode)) && !Marked(t, |t.runs|, FoldMask(unicode), c)
    ensures Canonicalize(t, c, unicode) == c
  {
    hide TablesOk, ConvertEntry;
    var r := RunOf(t, c);
    if r.Some? {
      MarkedByRun(t, r.value, FoldMask(unicode), c);
      if ConvertEntry(t, c, Conversion(unicode), r.value) != [c] {
        ChangedIsMarked(t, c, Conversion(unicode), r.value, FoldMask(unicode));
      }
    }
  }

  lemma MarkedByRun(t: Tables, i: nat, m: Mask, c: nat)
    requires i < |t.runs|
    ensures Marks(t, i, m, c) ==> Marked(t, |t.runs|, m, c)
  {
    hide Marks;
  }

  /** A code point inside the mask folds as its run says. */
  lemma MarkedFolds(t: Tables, c: nat, i: nat, unicode: bool)
    requires TablesOk(t) && AsciiAgrees(t, Conversion(unicode)) && Covers(t, i, c)
    ensures FoldEntry(t, c, i, unicode) == Canonicalize(t, c, unicode)
  {
    hide TablesOk, ConvertEntry;
    OnlyRun(t, c, i);
  }

  // ----- collecting the folded code points -----

  function FoldOf(t: Tables, c: nat, unicode: bool): (d: nat)
    requires TablesOk(t)
    ensures RunOf(t, c).Some? ==> d < SMALL
  {
    match RunOf(t, c)
    case Some(i) => FoldEntry(t, c, i, unicode)
    case None => c
  }

  ghost predicate Hit(t: Tables, unicode: bool, seen: set<nat>, d: nat)
    requires TablesOk(t)
  {
    exists x :: x in seen && FoldOf(t, x, unicode) == d
  }

  ghost predicate ProperIntervals(p: seq<nat>) {
    |p| % 2 == 0 && forall m :: 0 <= m < |p| / 2 ==> p[2 * m] < p[2 * m + 1]
  }

  ghost predicate Pending(start: int, end: nat, d: nat) {
    start != -1 && start <= d < end
  }

  /** The finished intervals and the pending one hold the folded forms of `seen`. */
  ghost predicate Folded(t: Tables, unicode: bool, p: seq<nat>, start: int, end: nat, seen: set<nat>)
    requires TablesOk(t)
  {
    && ProperIntervals(p) && (start == -1 ==> p == []) && (start != -1 ==> 0 <= start < end)
    && forall d: nat :: (Member(p, d) || Pending(start, end, d)) == Hit(t, unicode, seen, d)
  }

  lemma HitNext(t: Tables, unicode: bool, seen: set<nat>, c: nat, d: nat)
    requires TablesOk(t)
    ensures Hit(t, unicode, seen + {c}, d) == (Hit(t, unicode, seen, d) || FoldOf(t, c, unicode) == d)
  {
    hide TablesOk, FoldOf;
    if FoldOf(t, c, unicode) == d {
      assert c in seen + {c};
    }
    if Hit(t, unicode, seen, d) {
      var x :| x in seen && FoldOf(t, x, unicode) == d;
      assert x in seen + {c};
    }
  }

  /** One more code point, whose canonical form starts or extends the pending interval. */
  lemma ExtendPending(t: Tables, unicode: bool, p: seq<nat>, start: int, end: nat, seen: set<nat>, c: nat, start': int)
    requires TablesOk(t) && Folded(t, unicode, p, start, end, seen)
    requires var d := FoldOf(t, c, unicode); if start == -1 then start' == d else start' == start && end == d
    ensures Folded(t, unicode, p, start', FoldOf(t, c, unicode) + 1, seen + {c})
  {
    hide TablesOk, FoldOf, Member, Hit;
    var end' := FoldOf(t, c, unicode) + 1;
    forall d: nat ensures (Member(p, d) || Pending(start', end', d)) == Hit(t, unicode, seen + {c}, d) {
      HitNext(t, unicode, seen, c, d);
    }
  }

  lemma NewPending(t: Tables, unicode: bool, p: seq<nat>, start: nat, end: nat, seen: set<nat>, c: nat)
    requires TablesOk(t) && Folded(t, unicode, p, start, end, seen)
    ensures var d := FoldOf(t, c, unicode); Folded(t, unicode, p + [start, end], d, d + 1, seen + {c})
  {
    hide TablesOk, FoldOf, Member, Hit;
    var d0 := FoldOf(t, c, unicode);
    var q := p + [start, end];
    assert |q| / 2 == |p| / 2 + 1;
    forall d: nat ensures (Member(q, d) || Pending(d0, d0 + 1, d)) == Hit(t, unicode, seen + {c}, d) {
      HitNext(t, unicode, seen, c, d);
      MemberNext(p, start, end, d);
      assert (Member(p, d) || Pending(start, end, d)) == Hit(t, unicode, seen, d);
    }
  }

  lemma LastPending(t: Tables, unicode: bool, p: seq<nat>, start: int, end: nat, seen: set<nat>, q: seq<nat>)
    requires TablesOk(t) && Folded(t, unicode, p, start, end, seen)
    requires if start == -1 then q == p else q == p + [start as nat, end]
    ensures ProperIntervals(q) && forall d: nat :: Member(q, d) == Hit(t, unicode, seen, d)
  {
    hide TablesOk, FoldOf, Member, Hit;
    assert |q| / 2 == |p| / 2 + if start == -1 then 0 else 1;
    forall d: nat ensures Member(q, d) == Hit(t, unicode, seen, d) {
      assert (Member(p, d) || Pending(start, end, d)) == Hit(t, unicode, seen, d);
      if start != -1 {
        MemberNext(p, start, end, d);
      }
    }
  }

  lemma NothingFolded(t: Tables, unicode: bool)
    requires TablesOk(t)
    ensures Folded(t, unicode, [], -1, 0, {})
  {
    hide TablesOk, FoldOf;
  }

  lemma EndsAscend(t: Tables, i: nat, j: nat)
    requires TablesOk(t) && i <= j < |t.runs|
    ensures End(t, i) <= End(t, j)
  {
    assert i < j ==> End(t, i) <= Start(t, j);
  }

  /** The cursor can move on when it does not cover `c`. */
  lemma MoveOn(t: Tables, idx: nat, c: nat)
    requires TablesOk(t) && idx < |t.runs| && RunOf(t, c).Some? && (idx > 0 ==> End(t, idx - 1) <= c) && !Covers(t, idx, c)
    ensures idx + 1 < |t.runs| && End(t, idx) <= c
  {
    hide RunOk, CodeOf, Length;
    var r := RunOf(t, c).value;
    assert Covers(t, r, c);
    if r < idx {
      EndsAscend(t, r, idx - 1);
    }
    assert End(t, idx) <= Start(t, r);
  }

  /** One step of the loop over the code points: move the cursor to the run of `c`, fold `c`, and merge the result
      with the pending interval. */
  method FoldOne(t: Tables, result: CharRange, unicode: bool, c: nat, idx: nat, dStart: int, dEnd: nat, ghost seen: set<nat>)
    returns (idx': nat, dStart': int, dEnd': nat)
    requires TablesOk(t) && result.Valid() && RunOf(t, c).Some?
    requires idx < |t.runs| && (idx > 0 ==> End(t, idx - 1) <= c)
    requires Folded(t, unicode, result.Points(), dStart, dEnd, seen)
    modifies result, result.points
    ensures result.Valid() && (result.points == old(result.points) || fresh(result.points))
    ensures idx' < |t.runs| && (idx' > 0 ==> End(t, idx' - 1) <= c)
    ensures Folded(t, unicode, result.Points(), dStart', dEnd', seen + {c})
  {
    hide TablesOk, Folded, FoldOf, FoldEntry, RunOf, Covers;
    idx' := idx;
    while !Covers(t, idx', c)
      invariant idx' < |t.runs| && (idx' > 0 ==> End(t, idx' - 1) <= c)
      invariant result.Valid() && Folded(t, unicode, result.Points(), dStart, dEnd, seen)
      decreases |t.runs| - idx'
      modifies {}
    {
      MoveOn(t, idx', c);
      idx' := idx' + 1;
    }
    FoldIs(t, c, idx', unicode);
    var d := FoldEntry(t, c, idx', unicode);
    if dStart == -1 {
      ExtendPending(t, unicode, result.Points(), dStart, dEnd, seen, c, d);
      dStart' := d;
    } else if dEnd == d {
      ExtendPending(t, unicode, result.Points(), dStart, dEnd, seen, c, dStart);
      dStart' := dStart;
    } else {
      PendingIsNat(t, unicode, result.Points(), dStart, dEnd, seen);
      NewPending(t, unicode, result.Points(), dStart, dEnd, seen, c);
      result.AddInterval(dStart, dEnd);
      dStart' := d;
    }
    dEnd' := d + 1;
  }

  lemma FoldIs(t: Tables, c: nat, i: nat, unicode: bool)
    requires TablesOk(t) && Covers(t, i, c)
    ensures FoldOf(t, c, unicode) == FoldEntry(t, c, i, unicode)
  {
    hide TablesOk, FoldEntry;
    OnlyRun(t, c, i);
  }

  lemma PendingIsNat(t: Tables, unicode: bool, p: seq<nat>, start: int, end: nat, seen: set<nat>)
    requires TablesOk(t) && Folded(t, unicode, p, start, end, seen) && start != -1
    ensures start >= 0
  {}

  /** Seen so far: the code points of the first `i` boundaries and those from `start` to `c`. */
  ghost predicate SeenTo(s: seq<nat>, i: nat, start: nat, c: nat, seen: set<nat>) {
    i <= |s| && forall x: nat :: x in seen <==> Member(s[..i], x) || start <= x < c
  }

  lemma SeenInterval(s: seq<nat>, i: nat, seen: set<nat>)
    requires i % 2 == 0 && i + 1 < |s| && SeenTo(s, i, s[i], s[i + 1], seen)
    ensures SeenTo(s, i + 2, 0, 0, seen)
  {
    hide Member;
    assert s[..i + 2] == s[..i] + [s[i], s[i + 1]];
    forall x: nat ensures x in seen <==> Member(s[..i + 2], x) {
      MemberNext(s[..i], s[i], s[i + 1], x);
    }
  }

  lemma InsideIsMember(s: seq<nat>, i: nat, c: nat)
    requires i % 2 == 0 && i + 1 < |s| && s[i] <= c < s[i + 1]
    ensures Member(s, c)
  {
    assert InInterval(s, i / 2, c);
  }

  /** The loop of `cr_regexp_canonicalize` over the affected code points. */
  method FoldAll(t: Tables, inter: CharRange, result: CharRange, unicode: bool) returns (ghost seen: set<nat>)
    requires TablesOk(t) && inter.Valid() && result.Valid() && result.len == 0
    requires inter != result && inter.points != result.points && Canonical(inter.Points())
    requires forall c: nat :: Member(inter.Points(), c) ==> RunOf(t, c).Some?
    modifies result, result.points
    ensures result.Valid() && (result.points == old(result.points) || fresh(result.points))
    ensures ProperIntervals(result.Points())
    ensures forall c: nat :: c in seen <==> Member(inter.Points(), c)
    ensures forall d: nat :: Member(result.Points(), d) == Hit(t, unicode, seen, d)
  {
    hide TablesOk, Folded, Hit, RunOf, Member, SeenTo;
    ghost var s := inter.Points();
    seen := {};
    var dStart: int, dEnd: nat, idx: nat, i: nat := -1, 0, 0, 0;
    NothingFolded(t, unicode);
    NothingSeen(t, s);
    assert result.Points() == [];
    while i < inter.len
      invariant result.Valid() && (result.points == old(result.points) || fresh(result.points))
      invariant inter.Valid() && inter.Points() == s
      invariant i % 2 == 0 && i <= |s| && SeenTo(s, i, 0, 0, seen)
      invariant idx < |t.runs| && (idx > 0 && i < |s| ==> End(t, idx - 1) <= s[i])
      invariant Folded(t, unicode, result.Points(), dStart, dEnd, seen)
    {
      assert inter.points[i] == s[i] && inter.points[i + 1] == s[i + 1];
      var start, end := inter.points[i], inter.points[i + 1];
      var c: nat := start;
      StartSeeing(s, i, start, seen);
      while c < end
        invariant result.Valid() && (result.points == old(result.points) || fresh(result.points))
        invariant inter.Valid() && inter.Points() == s
        invariant start <= c <= end && SeenTo(s, i, start, c, seen)
        invariant idx < |t.runs| && (idx > 0 ==> End(t, idx - 1) <= c)
        invariant Folded(t, unicode, result.Points(), dStart, dEnd, seen)
      {
        InsideIsMember(s, i, c);
        idx, dStart, dEnd := FoldOne(t, result, unicode, c, idx, dStart, dEnd, seen);
        SeeOne(s, i, start, c, seen);
        seen := seen + {c};
        c := c + 1;
      }
      SeenInterval(s, i, seen);
      i := i + 2;
    }
    AllSeen(s, seen);
    ghost var p := result.Points();
    if dStart != -1 {
      PendingIsNat(t, unicode, p, dStart, dEnd, seen);
      result.AddInterval(dStart, dEnd);
    }
    LastPending(t, unicode, p, dStart, dEnd, seen, result.Points());
  }

  lemma NothingSeen(t: Tables, s: seq<nat>)
    requires TablesOk(t)
    ensures SeenTo(s, 0, 0, 0, {}) && 0 < |t.runs|
  {}

  lemma StartSeeing(s: seq<nat>, i: nat, start: nat, seen: set<nat>)
    requires SeenTo(s, i, 0, 0, seen)
    ensures SeenTo(s, i, start, start, seen)
  {
    hide Member;
  }

  lemma SeeOne(s: seq<nat>, i: nat, start: nat, c: nat, seen: set<nat>)
    requires SeenTo(s, i, start, c, seen) && start <= c
    ensures SeenTo(s, i, start, c + 1, seen + {c})
  {
    hide Member;
  }

  lemma AllSeen(s: seq<nat>, seen: set<nat>)
    requires SeenTo(s, |s|, 0, 0, seen)
    ensures forall c: nat :: c in seen <==> Member(s, c)
  {
    hide Member;
    assert s[..|s|] == s;
  }

  // ----- the whole transformation -----

  /** Sorted intervals of folded code points form a sorted boundary array. */
  lemma FoldedAreBounded(t: Tables, unicode: bool, p: seq<nat>, seen: set<nat>)
    requires TablesOk(t) && |p| % 2 == 0 && Strict(p)
    requires forall c :: c in seen ==> RunOf(t, c).Some?
    requires forall d: nat :: Member(p, d) ==> Hit(t, unicode, seen, d)
    ensures Sorted(p)
  {
    hide TablesOk, RunOf, FoldOf, Member;
    forall i | 0 <= i < |p| ensures p[i] <= UINT32_MAX {
      var k := i / 2;
      assert p[2 * k] <= p[2 * k + 1] - 1 < p[2 * k + 1];
      InsideIsMember(p, 2 * k, p[2 * k + 1] - 1);
      var x :| x in seen && FoldOf(t, x, unicode) == p[2 * k + 1] - 1;
      assert i == 2 * k || i == 2 * k + 1;
    }
  }

  /** The folded affected members and the unaffected members make up the image. */
  lemma ImageSplits(t: Tables, unicode: bool, s: seq<nat>, mask: seq<nat>, others: seq<nat>,
                    inter: seq<nat>, folded: seq<nat>, sub: seq<nat>, r: seq<nat>, seen: set<nat>, d: nat)
    requires TablesOk(t) && AsciiAgrees(t, Conversion(unicode)) && Sorted(s)
    requires forall c: nat :: In(mask, c) == Marked(t, |t.runs|, FoldMask(unicode), c)
    requires IsComplement(others, mask) && IsResult(inter, mask, s, Inter) && IsResult(sub, others, s, Inter)
    requires forall c: nat :: c in seen <==> Member(inter, c)
    requires Sorted(folded) && forall c: nat :: Member(folded, c) == Hit(t, unicode, seen, c)
    requires IsResult(r, folded, sub, Union)
    ensures In(r, d) <==> InImage(t, s, unicode, d)
  {
    hide TablesOk, AsciiAgrees, Canonical, In, Member, Marked, FoldOf, Canonicalize;
    IsMember(inter);
    IsMember(folded);
    assert In(r, d) == (In(folded, d) || In(sub, d));
    if In(folded, d) {
      var c :| c in seen && FoldOf(t, c, unicode) == d;
      assert In(inter, c) == (In(mask, c) && In(s, c));
      AffectedFolds(t, c, unicode);
    } else if In(sub, d) {
      assert In(sub, d) == (In(others, d) && In(s, d));
      UnmarkedIsFixed(t, d, unicode);
    }
    if InImage(t, s, unicode, d) {
      var c :| In(s, c) && Canonicalize(t, c, unicode) == d;
      if In(mask, c) {
        assert In(inter, c);
        AffectedFolds(t, c, unicode);
      } else {
        Bounded(s, c);
        assert In(others, c) && In(sub, c);
        UnmarkedIsFixed(t, c, unicode);
      }
    }
  }

  lemma AffectedFolds(t: Tables, c: nat, unicode: bool)
    requires TablesOk(t) && AsciiAgrees(t, Conversion(unicode)) && Marked(t, |t.runs|, FoldMask(unicode), c)
    ensures FoldOf(t, c, unicode) == Canonicalize(t, c, unicode)
  {
    hide TablesOk, AsciiAgrees, FoldEntry, Canonicalize, Marked;
    MarkedIsCovered(t, FoldMask(unicode), c);
    MarkedFolds(t, c, RunOf(t, c).value, unicode);
  }

  lemma IsMember(s: seq<nat>)
    requires Sorted(s) || Canonical(s)
    ensures forall c: nat :: In(s, c) == Member(s, c)
  {
    forall c: nat ensures In(s, c) == Member(s, c) {
      InIsMember(s, c);
    }
  }

  lemma Bounded(s: seq<nat>, c: nat)
    requires Sorted(s) && In(s, c)
    ensures c < UINT32_MAX
  {
    if c >= UINT32_MAX {
      InAll(s, c);
    }
  }

  /** The affected members `inter` and the unaffected ones `sub`, by way of the mask. */
  method Separate(t: Tables, cr: CharRange, unicode: bool)
    returns (inter: CharRange, sub: CharRange, ghost mask: seq<nat>, ghost others: seq<nat>)
    requires TablesOk(t) && cr.Valid() && Sorted(cr.Points())
    ensures fresh(inter) && fresh(inter.points) && inter.Valid() && IsResult(inter.Points(), mask, cr.Points(), Inter)
    ensures fresh(sub) && fresh(sub.points) && sub.Valid() && IsResult(sub.Points(), others, cr.Points(), Inter)
    ensures inter != sub && IsComplement(others, mask)
    ensures forall c: nat :: In(mask, c) == Marked(t, |t.runs|, FoldMask(unicode), c)
  {
    hide TablesOk, Sorted, IsComplement, IsResult, In, Marked;
    var masked := new CharRange();
    UnicodeCase1(t, masked, FoldMask(unicode));
    mask := masked.Points();
    inter := new CharRange();
    inter.Op(masked.points, masked.len, cr.points, cr.len, Inter);
    masked.Invert();
    others := masked.Points();
    CanonicalIsSorted(others, mask);
    sub := new CharRange();
    sub.Op(masked.points, masked.len, cr.points, cr.len, Inter);
  }

  /** The folded forms of the affected members, sorted. */
  method FoldAndSort(t: Tables, inter: CharRange, unicode: bool) returns (result: CharRange, ghost seen: set<nat>)
    requires TablesOk(t) && inter.Valid() && Canonical(inter.Points())
    requires forall c: nat :: Member(inter.Points(), c) ==> RunOf(t, c).Some?
    ensures fresh(result) && fresh(result.points) && result.Valid() && Sorted(result.Points())
    ensures forall c: nat :: c in seen <==> Member(inter.Points(), c)
    ensures forall d: nat :: Member(result.Points(), d) == Hit(t, unicode, seen, d)
  {
    hide TablesOk, Sorted, Hit, ProperIntervals, Member, RunOf;
    result := new CharRange();
    seen := FoldAll(t, inter, result, unicode);
    ProperPairs(result.Points());
    SortAndRemoveOverlap(result);
    FoldedAreBounded(t, unicode, result.Points(), seen);
  }

  /** `cr_regexp_canonicalize` turns a set into exactly its image under case folding. */
  method RegexpCanonicalize(t: Tables, cr: CharRange, unicode: bool)
    requires TablesOk(t) && AsciiAgrees(t, Conversion(unicode)) && cr.Valid() && Sorted(cr.Points())
    modifies cr, cr.points
    ensures cr.Valid() && (cr.points == old(cr.points) || fresh(cr.points)) && Canonical(cr.Points())
    ensures forall d: nat :: In(cr.Points(), d) <==> InImage(t, old(cr.Points()), unicode, d)
  {
    hide TablesOk, AsciiAgrees, Sorted, IsComplement, IsResult, In, Marked, Hit, Member, RunOf, InImage;
    ghost var s := cr.Points();
    var inter, sub, mask, others := Separate(t, cr, unicode);
    AffectedIsCovered(t, unicode, mask, s, inter.Points());
    var result, seen := FoldAndSort(t, inter, unicode);
    ghost var affected, kept, folded := inter.Points(), sub.Points(), result.Points();
    ResultIsSorted(kept, others, s);
    cr.len := 0;
    cr.Op(result.points, result.len, sub.points, sub.len, Union);
    forall d: nat ensures In(cr.Points(), d) <==> InImage(t, s, unicode, d) {
      ImageSplits(t, unicode, s, mask, others, affected, folded, kept, cr.Points(), seen, d);
    }
    FoldedIsCanonical(cr.Points(), folded, kept);
  }

  lemma CanonicalIsSorted(r: seq<nat>, s: seq<nat>)
    requires IsComplement(r, s)
    ensures Sorted(r)
  {}

  lemma ResultIsSorted(r: seq<nat>, a: seq<nat>, b: seq<nat>)
    requires IsResult(r, a, b, Inter)
    ensures Sorted(r)
  {}

  lemma FoldedIsCanonical(r: seq<nat>, a: seq<nat>, b: seq<nat>)
    requires IsResult(r, a, b, Union)
    ensures Canonical(r)
  {}

  lemma AffectedIsCovered(t: Tables, unicode: bool, mask: seq<nat>, s: seq<nat>, inter: seq<nat>)
    requires TablesOk(t) && IsResult(inter, mask, s, Inter)
    requires forall c: nat :: In(mask, c) == Marked(t, |t.runs|, FoldMask(unicode), c)
    ensures Canonical(inter) && forall c: nat :: Member(inter, c) ==> RunOf(t, c).Some?
  {
    hide TablesOk, RunOf, In, Member, Marked;
    forall c: nat | Member(inter, c) ensures RunOf(t, c).Some? {
      InIsMember(inter, c);
      assert In(mask, c);
      MarkedIsCovered(t, FoldMask(unicode), c);
    }
  }

  lemma ProperPairs(p: seq<nat>)
    requires ProperIntervals(p)
    ensures |p| % 2 == 0 && Nonempty(Pairs(p)) && Proper(Pairs(p))
  {
    hide Pairs, Flat;
    var s := Pairs(p);
    assert Flat(s) == p;
    forall m | 0 <= m < |s| ensures s[m].0 < s[m].1 {
      assert p[2 * m] == s[m].0 && p[2 * m + 1] == s[m].1;
    }
  }

  // ----- classes that ignore case -----

  /** A folded class accepts a character exactly when the original set holds a member with the same canonical form,
      as section 22.2.2.7.1 of ECMA-262 asks. */
  lemma FoldedClassAccepts(t: Tables, e: Input, s: seq<nat>, folded: seq<nat>, unicode: bool, ch: CodePoint)
    requires TablesOk(t) && Canonical(folded) && e.canon(ch) == Canonicalize(t, ch, unicode)
    requires forall d: nat :: In(folded, d) <==> InImage(t, s, unicode, d)
    ensures Accepts(e, Class(folded, true), ch) <==>
      exists c: nat :: In(s, c) && Canonicalize(t, c, unicode) == Canonicalize(t, ch, unicode)
  {
    hide TablesOk, In, Canonicalize;
    InIsMember(folded, e.canon(ch));
  }
}
