/** The set of code points a case conversion changes, generated from the run table. */
module CaseMask {
  import opened Codegen
  import opened CharSets
  import opened CharRange
  import opened CaseTables

  /** CASE_U, CASE_L and CASE_F. */
  datatype Mask = Mask(upper: bool, lower: bool, fold: bool)

  /** `tab_run_mask`: the kinds of runs a conversion can change. */
  predicate KindChanges(conv: nat, kind: nat) {
    if conv == UPPER then
      kind in {RUN_U, RUN_UF, RUN_UL, RUN_LSU, RUN_U2L_399_EXT2, RUN_UF_D20, RUN_UF_D1_EXT, RUN_U_EXT, RUN_UF_EXT2,
               RUN_UF_EXT3}
    else if conv == LOWER then
      kind in {RUN_L, RUN_LF, RUN_UL, RUN_LSU, RUN_U2L_399_EXT2, RUN_LF_EXT, RUN_LF_EXT2}
    else
      kind in {RUN_UF, RUN_LF, RUN_UL, RUN_LSU, RUN_U2L_399_EXT2, RUN_LF_EXT, RUN_LF_EXT2, RUN_UF_D20, RUN_UF_D1_EXT,
               RUN_UF_EXT2, RUN_UF_EXT3}
  }

  predicate Selects(m: Mask, kind: nat) {
    (m.upper && KindChanges(UPPER, kind)) || (m.lower && KindChanges(LOWER, kind)) || (m.fold && KindChanges(FOLD, kind))
  }

  /** Both directions are asked for, so alternating runs are taken whole. */
  predicate Whole(m: Mask) {
    m.upper && (m.lower || m.fold)
  }

  predicate InMask(m: Mask, conv: nat) {
    if conv == UPPER then m.upper else if conv == LOWER then m.lower else m.fold
  }

  /** Run `i` puts `c` into the set. */
  predicate Marks(t: Tables, i: nat, m: Mask, c: nat) {
    && Covers(t, i, c)
    && var kind, a := Kind(t.runs[i]), c - Start(t, i);
    && Selects(m, kind)
    && (kind == RUN_UL && !Whole(m) ==> a % 2 == if m.upper then 1 else 0)
    && (kind == RUN_LSU && !Whole(m) ==> a == 1 || a == if m.upper then 2 else 0)
  }

  ghost predicate Marked(t: Tables, n: nat, m: Mask, c: nat) {
    exists i :: 0 <= i < n && Marks(t, i, m, c)
  }

  /** Every code point that a conversion of the mask changes is in the set. */
  lemma ChangedIsMarked(t: Tables, c: nat, conv: nat, i: nat, m: Mask)
    requires TablesOk(t) && Covers(t, i, c) && conv <= FOLD && InMask(m, conv)
    requires ConvertEntry(t, c, conv, i) != [c]
    ensures Marks(t, i, m, c)
  {
    hide ConvertEntry, Start, Argument, KindChanges;
    if !KindChanges(conv, Kind(t.runs[i])) {
      FixedKinds(t, c, conv, i);
    }
    if Kind(t.runs[i]) == RUN_UL || Kind(t.runs[i]) == RUN_LSU {
      FixedInside(t, c, conv, i);
    }
  }

  /** Alternating runs leave the code points already in the wanted case alone. */
  lemma FixedInside(t: Tables, c: nat, conv: nat, i: nat)
    requires TablesOk(t) && Covers(t, i, c) && conv <= FOLD && ConvertEntry(t, c, conv, i) != [c]
    ensures var kind, a, upper := Kind(t.runs[i]), c - Start(t, i), conv == UPPER;
      && (kind == RUN_UL ==> a % 2 == if upper then 1 else 0)
      && (kind == RUN_LSU ==> a == 1 || a == if upper then 2 else 0)
  {
    hide Answer, Argument, Start;
  }

  lemma FixedKinds(t: Tables, c: nat, conv: nat, i: nat)
    requires TablesOk(t) && Covers(t, i, c) && conv <= FOLD && !KindChanges(conv, Kind(t.runs[i]))
    ensures ConvertEntry(t, c, conv, i) == [c]
  {
    hide Answer, Start, Argument;
    assert RunOk(t, i);
  }

  /** No letter of run `i` is listed as its own other case. */
  predicate Moves(t: Tables, i: nat)
    requires TablesOk(t) && i < |t.runs|
  {
    RunIsSmall(t, i);
    var k, d := Kind(t.runs[i]), Argument(t, i);
    if k <= RUN_LF then Start(t, d) != Start(t, i)
    else if k == RUN_UF_D20 then !Covers(t, i, d) && !Covers(t, i, d + 0x20)
    else if k == RUN_UF_D1_EXT then !Covers(t, i, t.ext[d]) && !Covers(t, i, t.ext[d] + 1)
    else if k == RUN_U_EXT || k == RUN_LF_EXT then !Covers(t, i, t.ext[d])
    else if k == RUN_U2L_399_EXT2 then t.ext[d % 0x40] != Start(t, i)
    else true
  }

  /** Conversely every code point in the set is changed by a conversion of the mask. */
  lemma MarkedIsChanged(t: Tables, c: nat, i: nat, m: Mask)
    requires TablesOk(t) && Marks(t, i, m, c) && Moves(t, i)
    ensures exists conv: nat :: conv <= FOLD && InMask(m, conv) && ConvertEntry(t, c, conv, i) != [c]
  {
    hide ConvertEntry, Start, Argument, KindChanges, Moves, TablesOk;
    var kind := Kind(t.runs[i]);
    if kind == RUN_UL || kind == RUN_LSU {
      ChangedInside(t, c, i);
      assert m.upper ==> InMask(m, UPPER);
      assert m.lower ==> InMask(m, LOWER);
      assert m.fold ==> InMask(m, FOLD);
    } else {
      var conv: nat := if m.upper && KindChanges(UPPER, kind) then UPPER else if m.lower && KindChanges(LOWER, kind) then LOWER else FOLD;
      ChangedKinds(t, c, conv, i);
      assert InMask(m, conv);
    }
  }

  lemma ChangedInside(t: Tables, c: nat, i: nat)
    requires TablesOk(t) && Covers(t, i, c) && (Kind(t.runs[i]) == RUN_UL || Kind(t.runs[i]) == RUN_LSU)
    ensures var kind, a := Kind(t.runs[i]), c - Start(t, i);
      && ((if kind == RUN_UL then a % 2 == 1 else a != 0) ==> ConvertEntry(t, c, UPPER, i) != [c])
      && ((if kind == RUN_UL then a % 2 == 0 else a != 2) ==> ConvertEntry(t, c, LOWER, i) != [c] && ConvertEntry(t, c, FOLD, i) != [c])
  {
    hide Answer, Argument;
    RunIsSmall(t, i);
    hide TablesOk;
  }

  lemma ChangedKinds(t: Tables, c: nat, conv: nat, i: nat)
    requires TablesOk(t) && Covers(t, i, c) && conv <= FOLD && Moves(t, i) && KindChanges(conv, Kind(t.runs[i]))
    requires Kind(t.runs[i]) != RUN_UL && Kind(t.runs[i]) != RUN_LSU
    ensures ConvertEntry(t, c, conv, i) != [c]
  {
    hide Answer, Argument;
    RunIsSmall(t, i);
    hide TablesOk;
  }

  // ----- generating the set -----

  /** Sorted intervals up to `hi`. */
  ghost predicate UpTo(s: seq<nat>, hi: nat) {
    |s| % 2 == 0 && Ascending(s) && forall i :: 0 <= i < |s| ==> s[i] <= hi
  }

  lemma AppendInterval(s: seq<nat>, hi: nat, x: nat, y: nat)
    requires UpTo(s, hi) && hi <= x <= y
    ensures UpTo(s + [x, y], y)
    ensures forall c: nat :: In(s + [x, y], c) == (In(s, c) || x <= c < y)
  {
    hide In;
    forall c: nat ensures In(s + [x, y], c) == (In(s, c) || x <= c < y) {
      assert s + [x, y] == (s + [x]) + [y];
      if c < x {
        InSnocAbove(s, x, c);
        InSnocAbove(s + [x], y, c);
      } else if c < y {
        InSnocAbove(s + [x], y, c);
        InAll(s, c);
        InAll(s + [x], c);
        NextParity(|s|);
        assert !Odd(|s|);
      } else {
        InAll(s, c);
        InAll(s + [x, y], c);
      }
    }
  }

  method Add(cr: CharRange, ghost hi: nat, x: nat, y: nat)
    requires cr.Valid() && UpTo(cr.Points(), hi) && hi <= x <= y
    modifies cr, cr.points
    ensures cr.Valid() && (cr.points == old(cr.points) || fresh(cr.points))
    ensures UpTo(cr.Points(), y) && forall c: nat :: In(cr.Points(), c) == (In(old(cr.Points()), c) || x <= c < y)
  {
    AppendInterval(cr.Points(), hi, x, y);
    cr.AddInterval(x, y);
  }

  /** Every second code point of a run. */
  method AddAlternate(cr: CharRange, ghost hi: nat, code: nat, len: nat)
    requires cr.Valid() && UpTo(cr.Points(), hi) && hi <= code && len % 2 == 0 && 0 < len
    modifies cr, cr.points
    ensures cr.Valid() && (cr.points == old(cr.points) || fresh(cr.points))
    ensures UpTo(cr.Points(), code + len - 1)
    ensures forall c: nat :: In(cr.Points(), c) == (In(old(cr.Points()), c) || (code <= c < code + len && (c - code) % 2 == 0))
  {
    hide In, UpTo;
    ghost var was := cr.Points();
    ghost var top: nat := hi;
    var i: nat := 0;
    while i < len
      invariant cr.Valid() && (cr.points == old(cr.points) || fresh(cr.points))
      invariant i <= len && i % 2 == 0 && UpTo(cr.Points(), top) && top <= code + i
      invariant i > 0 ==> top == code + i - 1
      invariant forall c: nat :: In(cr.Points(), c) == (In(was, c) || (code <= c < code + i && (c - code) % 2 == 0))
    {
      Add(cr, top, code + i, code + i + 1);
      top := code + i + 1;
      i := i + 2;
    }
  }

  method AddRun(t: Tables, cr: CharRange, ghost hi: nat, i: nat, m: Mask)
    requires TablesOk(t) && i < |t.runs| && cr.Valid() && UpTo(cr.Points(), hi) && hi <= Start(t, i)
    modifies cr, cr.points
    ensures cr.Valid() && (cr.points == old(cr.points) || fresh(cr.points))
    ensures UpTo(cr.Points(), End(t, i))
    ensures forall c: nat :: In(cr.Points(), c) == (In(old(cr.Points()), c) || Marks(t, i, m, c))
  {
    hide In, UpTo, Selects;
    assert RunOk(t, i);
    ghost var was := cr.Points();
    var v := t.runs[i];
    var kind, code, len := Kind(v), CodeOf(v), Length(v);
    if Selects(m, kind) {
      if kind == RUN_UL && !Whole(m) {
        AddAlternate(cr, hi, code + if m.upper then 1 else 0, len);
        Weaken(cr.Points(), code + len - 1 + if m.upper then 1 else 0, End(t, i));
        forall c: nat ensures In(cr.Points(), c) == (In(was, c) || Marks(t, i, m, c)) {
          Alternates(t, i, m, c);
        }
      } else if kind == RUN_LSU && !Whole(m) {
        ghost var top: nat := hi;
        if !m.upper {
          Add(cr, hi, code, code + 1);
          top := code + 1;
        }
        Add(cr, top, code + 1, code + 2);
        top := code + 2;
        if m.upper {
          Add(cr, top, code + 2, code + 3);
          top := code + 3;
        }
        Weaken(cr.Points(), top, End(t, i));
      } else {
        Add(cr, hi, code, code + len);
      }
    } else {
      Weaken(was, hi, End(t, i));
    }
  }

  lemma Weaken(s: seq<nat>, hi: nat, hi': nat)
    requires UpTo(s, hi) && hi <= hi'
    ensures UpTo(s, hi')
  {}

  lemma Alternates(t: Tables, i: nat, m: Mask, c: nat)
    requires TablesOk(t) && i < |t.runs| && Kind(t.runs[i]) == RUN_UL && Selects(m, RUN_UL) && !Whole(m)
    ensures var code := Start(t, i) + if m.upper then 1 else 0;
      Marks(t, i, m, c) <==> code <= c < code + Length(t.runs[i]) && (c - code) % 2 == 0
  {
    assert RunOk(t, i);
  }

  /** `unicode_case1`: fills an empty range with the code points that the conversions of the mask may change. */
  method UnicodeCase1(t: Tables, cr: CharRange, m: Mask)
    requires TablesOk(t) && cr.Valid() && cr.len == 0
    modifies cr, cr.points
    ensures cr.Valid() && (cr.points == old(cr.points) || fresh(cr.points)) && Sorted(cr.Points())
    ensures forall c: nat :: In(cr.Points(), c) == Marked(t, |t.runs|, m, c)
  {
    hide In, UpTo, Marks, RunOk, Start, End;
    EmptyMask(t, m);
    assert cr.Points() == [];
    if m == Mask(false, false, false) {
      forall c: nat ensures !Marked(t, |t.runs|, m, c) {
        NothingSelected(t, |t.runs|, c);
      }
      return;
    }
    ghost var hi: nat := 0;
    var idx: nat := 0;
    while idx < |t.runs|
      invariant cr.Valid() && (cr.points == old(cr.points) || fresh(cr.points))
      invariant idx <= |t.runs| && UpTo(cr.Points(), hi) && hi < 0x3_0000
      invariant forall j :: idx <= j < |t.runs| ==> hi <= Start(t, j)
      invariant forall c: nat :: In(cr.Points(), c) == Marked(t, idx, m, c)
    {
      AddRun(t, cr, hi, idx, m);
      EndIsSmall(t, idx);
      hi := End(t, idx);
      forall c: nat ensures In(cr.Points(), c) == Marked(t, idx + 1, m, c) {
        OneMoreRun(t, idx, m, c);
      }
      idx := idx + 1;
    }
    UpToSorted(cr.Points(), hi);
  }

  lemma OneMoreRun(t: Tables, n: nat, m: Mask, c: nat)
    ensures Marked(t, n + 1, m, c) == (Marked(t, n, m, c) || Marks(t, n, m, c))
  {
    hide Marks;
    if Marks(t, n, m, c) {
      assert 0 <= n < n + 1;
    }
  }

  lemma EndIsSmall(t: Tables, i: nat)
    requires TablesOk(t) && i < |t.runs|
    ensures End(t, i) < 0x3_0000
  {
    RunIsSmall(t, i);
  }

  lemma NothingSelected(t: Tables, n: nat, c: nat)
    ensures !Marked(t, n, Mask(false, false, false), c)
  {}

  lemma EmptyMask(t: Tables, m: Mask)
    ensures UpTo([], 0) && forall c: nat :: In([], c) == Marked(t, 0, m, c)
  {}

  lemma UpToSorted(s: seq<nat>, hi: nat)
    requires UpTo(s, hi) && hi <= UINT32_MAX
    ensures Sorted(s)
  {}
}
