/** The run table of the case conversions, read as the engine packs it: `runs[i]` holds 17 bits of first code
    point, 7 of length, 4 of kind and the top 4 of the argument, whose low byte is `low[i]`. The contents are
    generated data; they are a parameter here. */
module CaseTables {
  import opened Options

  datatype Tables = Tables(runs: seq<nat>, low: seq<nat>, ext: seq<nat>)

  const RUN_U := 0
  const RUN_L := 1
  const RUN_UF := 2
  const RUN_LF := 3
  const RUN_UL := 4
  const RUN_LSU := 5
  const RUN_U2L_399_EXT2 := 6
  const RUN_UF_D20 := 7
  const RUN_UF_D1_EXT := 8
  const RUN_U_EXT := 9
  const RUN_LF_EXT := 10
  const RUN_UF_EXT2 := 11
  const RUN_LF_EXT2 := 12
  const RUN_UF_EXT3 := 13

  /** The conversions: to upper case, to lower case, case folding. */
  const UPPER: nat := 0
  const LOWER: nat := 1
  const FOLD: nat := 2

  function CodeOf(v: nat): nat { v / 0x8000 }

  function Length(v: nat): nat { v / 0x100 % 0x80 }

  function Kind(v: nat): nat { v / 0x10 % 0x10 }

  function Argument(t: Tables, i: nat): nat
    requires i < |t.runs| && i < |t.low|
  {
    t.runs[i] % 0x10 * 0x100 + t.low[i]
  }

  function Start(t: Tables, i: nat): nat
    requires i < |t.runs|
  {
    CodeOf(t.runs[i])
  }

  function End(t: Tables, i: nat): nat
    requires i < |t.runs|
  {
    CodeOf(t.runs[i]) + Length(t.runs[i])
  }

  predicate Covers(t: Tables, i: nat, c: nat) {
    i < |t.runs| && Start(t, i) <= c < End(t, i)
  }

  /** The argument of run `i` is meaningful for its kind. */
  predicate RunOk(t: Tables, i: nat)
    requires i < |t.runs| && i < |t.low|
  {
    var v, d, n := t.runs[i], Argument(t, i), |t.ext|;
    var k := Kind(v);
    && v < 0x1_0000_0000 && t.low[i] < 0x100 && 0 < Length(v) && k <= RUN_UF_EXT3
    && (k <= RUN_LF ==> d < |t.runs|)
    && (k == RUN_UL ==> Length(v) % 2 == 0)
    && (k == RUN_LSU ==> Length(v) == 3)
    && (k == RUN_U2L_399_EXT2 || k == RUN_UF_EXT2 || k == RUN_LF_EXT2 ==> d / 0x40 < n && d % 0x40 < n)
    && (k == RUN_UF_D1_EXT || k == RUN_U_EXT || k == RUN_LF_EXT ==> d < n)
    && (k == RUN_UF_EXT3 ==> d / 0x100 < n && 0x10 <= n)
  }

  /** What the generated tables satisfy: nonempty runs in ascending order, none overlapping. */
  ghost predicate TablesOk(t: Tables) {
    && 0 < |t.runs| <= |t.low|
    && (forall i :: 0 <= i < |t.runs| ==> RunOk(t, i))
    && (forall i, j :: 0 <= i < j < |t.runs| ==> End(t, i) <= Start(t, j))
    && forall i :: 0 <= i < |t.ext| ==> t.ext[i] < 0x1_0000
  }

  // ----- the run of a code point -----

  /** The first run at or after `k` that covers `c`. */
  function RunFrom(t: Tables, c: nat, k: nat): (r: Option<nat>)
    ensures r.Some? ==> k <= r.value && Covers(t, r.value, c)
    ensures r.None? ==> forall i :: k <= i < |t.runs| ==> !Covers(t, i, c)
    decreases |t.runs| - k
  {
    if k >= |t.runs| then None
    else if Covers(t, k, c) then Some(k)
    else RunFrom(t, c, k + 1)
  }

  function RunOf(t: Tables, c: nat): Option<nat> {
    RunFrom(t, c, 0)
  }

  lemma OnlyRun(t: Tables, c: nat, i: nat)
    requires TablesOk(t) && Covers(t, i, c)
    ensures RunOf(t, c) == Some(i)
  {
    hide RunOk, Start, End;
    var r := RunOf(t, c);
    assert Covers(t, r.value, c);
  }

  /** The binary search of `lre_case_conv` and `lre_canonicalize`. */
  method FindRun(t: Tables, c: nat) returns (r: Option<nat>)
    requires TablesOk(t)
    ensures r == RunOf(t, c)
  {
    hide RunOk, CodeOf, Length;
    var min: nat, max: int := 0, |t.runs| - 1;
    while min <= max
      invariant max < |t.runs|
      invariant forall i :: 0 <= i < |t.runs| && Covers(t, i, c) ==> min <= i <= max
      decreases max - min
    {
      var idx := (max + min) / 2;
      if c < Start(t, idx) {
        NotAfter(t, idx, c);
        max := idx - 1;
      } else if c >= End(t, idx) {
        NotBefore(t, idx, c);
        min := idx + 1;
      } else {
        OnlyRun(t, c, idx);
        return Some(idx);
      }
    }
    assert RunOf(t, c).Some? ==> Covers(t, RunOf(t, c).value, c);
    return None;
  }

  lemma NotAfter(t: Tables, idx: nat, c: nat)
    requires TablesOk(t) && idx < |t.runs| && c < Start(t, idx)
    ensures forall i :: 0 <= i < |t.runs| && Covers(t, i, c) ==> i < idx
  {
    hide RunOk, CodeOf, Length;
    forall i | idx < i < |t.runs| ensures !Covers(t, i, c) {
      assert Start(t, idx) <= End(t, idx) <= Start(t, i);
    }
  }

  lemma NotBefore(t: Tables, idx: nat, c: nat)
    requires TablesOk(t) && idx < |t.runs| && c >= End(t, idx)
    ensures forall i :: 0 <= i < |t.runs| && Covers(t, i, c) ==> idx < i
  {
    hide RunOk, CodeOf, Length;
    forall i | 0 <= i < idx ensures !Covers(t, i, c) {
      assert End(t, i) <= Start(t, idx) <= End(t, idx);
    }
  }

  // ----- conversions -----

  /** A bound no converted code point reaches. */
  const SMALL: nat := 0x10_0000

  predicate Answer(res: seq<nat>) {
    1 <= |res| <= 3 && forall i :: 0 <= i < |res| ==> res[i] < SMALL
  }

  function Ascii(c: nat, conv: nat): nat {
    if conv != UPPER then
      if 'A' as nat <= c <= 'Z' as nat then c - 'A' as nat + 'a' as nat else c
    else
      if 'a' as nat <= c <= 'z' as nat then c - 'a' as nat + 'A' as nat else c
  }

  /** `lre_case_conv_entry`: the conversion of a code point by the run that covers it. */
  function ConvertEntry(t: Tables, c: nat, conv: nat, i: nat): (res: seq<nat>)
    requires TablesOk(t) && Covers(t, i, c) && conv <= FOLD
    ensures Answer(res)
    decreases conv, 0
  {
    RunIsSmall(t, i);
    var lower := if conv != UPPER then 1 else 0;
    var kind, d, a := Kind(t.runs[i]), Argument(t, i), c - Start(t, i);
    if kind <= RUN_LF then
      if conv == kind % 2 || (kind >= RUN_UF && conv == FOLD) then RunIsSmall(t, d); [a + Start(t, d)] else [c]
    else if kind == RUN_UL then
      if a % 2 != 1 - lower then [c] else [Start(t, i) + if a % 2 == 0 then a + 1 else a - 1]
    else if kind == RUN_LSU then
      if a == 1 then [c + 2 * lower - 1]
      else if a == (1 - lower) * 2 then [c + (2 * lower - 1) * 2]
      else [c]
    else if kind == RUN_U2L_399_EXT2 then
      if lower == 0 then [a + t.ext[d / 0x40], 0x399] else [a + t.ext[d % 0x40]]
    else if kind == RUN_UF_D20 then
      if conv == LOWER then [c] else [d + if conv == FOLD then 0x20 else 0]
    else if kind == RUN_UF_D1_EXT then
      if conv == LOWER then [c] else [t.ext[d] + if conv == FOLD then 1 else 0]
    else if kind == RUN_U_EXT || kind == RUN_LF_EXT then
      if lower != kind - RUN_U_EXT then [c] else [t.ext[d]]
    else if kind == RUN_LF_EXT2 then
      if lower == 0 then [c] else [a + t.ext[d / 0x40], t.ext[d % 0x40]]
    else if kind == RUN_UF_EXT2 then
      if conv == LOWER then [c]
      else
        var x, y := a + t.ext[d / 0x40], t.ext[d % 0x40];
        if conv == FOLD then [Convert(t, x, LOWER)[0], Convert(t, y, LOWER)[0]] else [x, y]
    else
      if conv == LOWER then [c]
      else
        var x, y, z := t.ext[d / 0x100], t.ext[d / 0x10 % 0x10], t.ext[d % 0x10];
        if conv == FOLD then [Convert(t, x, LOWER)[0], Convert(t, y, LOWER)[0], Convert(t, z, LOWER)[0]]
        else [x, y, z]
  }

  /** What `lre_case_conv` computes. */
  function Convert(t: Tables, c: nat, conv: nat): (res: seq<nat>)
    requires TablesOk(t) && conv <= FOLD
    ensures 1 <= |res| && (c < SMALL ==> Answer(res))
    decreases conv, 1
  {
    if c < 128 then [Ascii(c, conv)]
    else
      match RunOf(t, c)
      case Some(i) => ConvertEntry(t, c, conv, i)
      case None => [c]
  }

  lemma RunIsSmall(t: Tables, i: nat)
    requires TablesOk(t) && i < |t.runs|
    ensures RunOk(t, i) && Start(t, i) < 0x2_0000 && Length(t.runs[i]) < 0x80 && Argument(t, i) < 0x1000
  {
    assert RunOk(t, i);
    assert t.runs[i] % 0x10 <= 15;
  }

  method LreCaseConv(t: Tables, c: nat, conv: nat) returns (res: seq<nat>)
    requires TablesOk(t) && conv <= FOLD
    ensures res == Convert(t, c, conv)
  {
    if c < 128 {
      return [Ascii(c, conv)];
    }
    var r := FindRun(t, c);
    match r
    case Some(i) => res := ConvertEntry(t, c, conv, i);
    case None => res := [c];
  }

  // ----- folding for regular expressions -----

  /** `lre_case_folding_entry`. */
  function FoldEntry(t: Tables, c: nat, i: nat, unicode: bool): (d: nat)
    requires TablesOk(t) && Covers(t, i, c)
    ensures d < SMALL
  {
    RunIsSmall(t, i);
    if unicode then
      var res := ConvertEntry(t, c, FOLD, i);
      if |res| == 1 then res[0]
      else if c == 0xfb06 then 0xfb05
      else if c == 0x1fd3 then 0x390
      else if c == 0x1fe3 then 0x3b0
      else c
    else if c < 128 then Ascii(c, UPPER)
    else
      var res := ConvertEntry(t, c, UPPER, i);
      if |res| == 1 && res[0] >= 128 then res[0] else c
  }

  /** What `lre_canonicalize` computes. */
  function Canonicalize(t: Tables, c: nat, unicode: bool): nat
    requires TablesOk(t)
  {
    if c < 128 then Ascii(c, if unicode then FOLD else UPPER)
    else
      match RunOf(t, c)
      case Some(i) => FoldEntry(t, c, i, unicode)
      case None => c
  }

  method LreCanonicalize(t: Tables, c: nat, unicode: bool) returns (d: nat)
    requires TablesOk(t)
    ensures d == Canonicalize(t, c, unicode)
  {
    if c < 128 {
      return Ascii(c, if unicode then FOLD else UPPER);
    }
    var r := FindRun(t, c);
    match r
    case Some(i) => d := FoldEntry(t, c, i, unicode);
    case None => d := c;
  }

  /** ECMA-262, section 22.2.2.7.3, for a non-Unicode expression: the upper case of the character, unless it has
      several characters or would turn a character outside ASCII into one inside. */
  function EcmaCanonicalize(c: nat, upper: seq<nat>): nat {
    if |upper| != 1 then c else if c >= 128 && upper[0] < 128 then c else upper[0]
  }

  /** For a Unicode expression: simple case folding. A folding to several characters is the full one; its simple
      form is another character in three cases only. */
  function SimpleFolding(c: nat, folding: seq<nat>): nat {
    if |folding| == 1 then folding[0]
    else if c == 0xfb06 then 0xfb05 else if c == 0x1fd3 then 0x390 else if c == 0x1fe3 then 0x3b0
    else c
  }

  /** The one search of `lre_canonicalize` does what the standard says in terms of the case conversions. */
  lemma CanonicalizeIsEcma(t: Tables, c: nat)
    requires TablesOk(t)
    ensures Canonicalize(t, c, false) == EcmaCanonicalize(c, Convert(t, c, UPPER))
    ensures Canonicalize(t, c, true) == SimpleFolding(c, Convert(t, c, FOLD))
  {
    hide ConvertEntry, TablesOk;
    if c >= 128 && RunOf(t, c).Some? {
      assert ConvertEntry(t, c, UPPER, RunOf(t, c).value) == Convert(t, c, UPPER);
      assert ConvertEntry(t, c, FOLD, RunOf(t, c).value) == Convert(t, c, FOLD);
    }
  }

  /** The table agrees with the shortcut for ASCII. */
  ghost predicate AsciiAgrees(t: Tables, conv: nat)
    requires TablesOk(t) && conv <= FOLD
  {
    forall c: nat :: c < 128 ==>
      match RunOf(t, c)
      case Some(i) => ConvertEntry(t, c, conv, i) == [Ascii(c, conv)]
      case None => Ascii(c, conv) == c
  }
}
