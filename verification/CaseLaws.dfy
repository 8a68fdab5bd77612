/** What the case conversions do, kind by kind, said without the way they compute it. */
module CaseLaws {
  import opened Options
  import opened CaseTables

  /** Run `i` covers the code point, which lies beyond the shortcut for ASCII, as the whole run does. */
  predicate In(t: Tables, c: nat, i: nat) {
    Covers(t, i, c) && 128 <= Start(t, i)
  }

  lemma Covered(t: Tables, c: nat, i: nat)
    requires TablesOk(t) && In(t, c, i)
    ensures RunOk(t, i) && forall conv: nat :: conv <= FOLD ==> Convert(t, c, conv) == ConvertEntry(t, c, conv, i)
  {
    hide RunOk, ConvertEntry;
    OnlyRun(t, c, i);
    assert RunOk(t, i);
  }

  lemma AsciiConverts(t: Tables, c: nat, conv: nat)
    requires TablesOk(t) && conv <= FOLD && c < 128
    ensures Convert(t, c, conv) == [Ascii(c, conv)]
  {}

  /** The 26 letters, and nothing else below 128, have the case that ASCII gives them; folding is lower case. */
  lemma AsciiLetters(t: Tables, c: nat, k: nat)
    requires TablesOk(t) && c < 128 && k < 26
    ensures Convert(t, 'A' as nat + k, UPPER) == Convert(t, 'a' as nat + k, UPPER) == ['A' as nat + k]
    ensures Convert(t, 'A' as nat + k, LOWER) == Convert(t, 'a' as nat + k, LOWER) == ['a' as nat + k]
    ensures Convert(t, c, FOLD) == Convert(t, c, LOWER)
    ensures !('A' as nat <= c <= 'Z' as nat) && !('a' as nat <= c <= 'z' as nat) ==> Convert(t, c, UPPER) == Convert(t, c, LOWER) == [c]
  {
    hide TablesOk, ConvertEntry;
  }

  /** A code point that no run covers has no case. */
  lemma Caseless(t: Tables, c: nat, conv: nat)
    requires TablesOk(t) && conv <= FOLD && c >= 128 && forall i :: !Covers(t, i, c)
    ensures Convert(t, c, conv) == [c]
  {
    hide ConvertEntry, Covers;
  }

  // ----- letters in alternation -----

  /** Upper- and lower-case letters alternate: the two of a pair have each other as their other case. */
  lemma Alternating(t: Tables, u: nat, i: nat)
    requires TablesOk(t) && In(t, u, i) && Kind(t.runs[i]) == RUN_UL && (u - Start(t, i)) % 2 == 0
    ensures In(t, u + 1, i)
    ensures Convert(t, u, UPPER) == Convert(t, u + 1, UPPER) == [u]
    ensures Convert(t, u, LOWER) == Convert(t, u + 1, LOWER) == [u + 1]
    ensures Convert(t, u, FOLD) == Convert(t, u + 1, FOLD) == [u + 1]
  {
    hide TablesOk, Convert, ConvertEntry;
    UpperLetter(t, u, i);
    LowerLetter(t, u + 1, i);
  }

  /** Every letter of such a run belongs to a pair. */
  lemma AllInPairs(t: Tables, c: nat, i: nat)
    requires TablesOk(t) && In(t, c, i) && Kind(t.runs[i]) == RUN_UL && (c - Start(t, i)) % 2 == 1
    ensures c >= 1 && In(t, c - 1, i) && (c - 1 - Start(t, i)) % 2 == 0
  {
    hide TablesOk;
  }

  lemma UpperLetter(t: Tables, u: nat, i: nat)
    requires TablesOk(t) && In(t, u, i) && Kind(t.runs[i]) == RUN_UL && (u - Start(t, i)) % 2 == 0
    ensures In(t, u + 1, i)
    ensures Convert(t, u, UPPER) == [u] && Convert(t, u, LOWER) == Convert(t, u, FOLD) == [u + 1]
  {
    hide TablesOk, Convert;
    Covered(t, u, i);
  }

  lemma LowerLetter(t: Tables, l: nat, i: nat)
    requires TablesOk(t) && In(t, l, i) && Kind(t.runs[i]) == RUN_UL && (l - Start(t, i)) % 2 == 1
    ensures Convert(t, l, UPPER) == [l - 1] && Convert(t, l, LOWER) == Convert(t, l, FOLD) == [l]
  {
    hide TablesOk, Convert;
    Covered(t, l, i);
  }

  /** A digraph in its three forms: upper case, title case, lower case. */
  lemma Digraph(t: Tables, c: nat, i: nat)
    requires TablesOk(t) && In(t, c, i) && Kind(t.runs[i]) == RUN_LSU
    ensures End(t, i) == Start(t, i) + 3
    ensures Convert(t, c, UPPER) == [Start(t, i)]
    ensures Convert(t, c, LOWER) == Convert(t, c, FOLD) == [End(t, i) - 1]
  {
    hide TablesOk, Convert;
    Covered(t, c, i);
  }

  // ----- runs in pairs -----

  predicate IsUpperRun(k: nat) {
    k == RUN_L || k == RUN_LF
  }

  predicate IsLowerRun(k: nat) {
    k == RUN_U || k == RUN_UF
  }

  /** Runs `i` of lower-case and `j` of upper-case letters refer to each other. */
  predicate Paired(t: Tables, i: nat, j: nat) {
    && i < |t.runs| && j < |t.runs| && i < |t.low| && j < |t.low|
    && IsLowerRun(Kind(t.runs[i])) && IsUpperRun(Kind(t.runs[j]))
    && Argument(t, i) == j && Argument(t, j) == i && Length(t.runs[i]) == Length(t.runs[j])
    && 128 <= Start(t, i) && 128 <= Start(t, j)
  }

  /** Letter by letter, upper and lower case are inverse to each other. */
  lemma PairsInvert(t: Tables, i: nat, j: nat, k: nat)
    requires TablesOk(t) && Paired(t, i, j) && k < Length(t.runs[i])
    ensures var l, u := Start(t, i) + k, Start(t, j) + k;
      && In(t, l, i) && In(t, u, j)
      && Convert(t, l, UPPER) == Convert(t, u, UPPER) == [u]
      && Convert(t, l, LOWER) == Convert(t, u, LOWER) == [l]
  {
    hide TablesOk, Convert;
    Covered(t, Start(t, i) + k, i);
    Covered(t, Start(t, j) + k, j);
  }

  /** Where the kinds agree which of the two folds, the letters of a pair fold to the same one of them. */
  lemma PairsFold(t: Tables, i: nat, j: nat, k: nat)
    requires TablesOk(t) && Paired(t, i, j) && k < Length(t.runs[i])
    requires (Kind(t.runs[i]) == RUN_UF) != (Kind(t.runs[j]) == RUN_LF)
    ensures var l, u := Start(t, i) + k, Start(t, j) + k;
      Convert(t, l, FOLD) == Convert(t, u, FOLD) == [if Kind(t.runs[i]) == RUN_UF then u else l]
  {
    hide TablesOk, Convert;
    Covered(t, Start(t, i) + k, i);
    Covered(t, Start(t, j) + k, j);
  }

  /** Single letters whose other case is listed: if the list leads back, the conversions do too. */
  lemma ListedInvert(t: Tables, i: nat, j: nat)
    requires TablesOk(t) && i < |t.runs| && j < |t.runs| && Kind(t.runs[i]) == RUN_U_EXT && Kind(t.runs[j]) == RUN_LF_EXT
    requires In(t, Start(t, i), i) && In(t, Start(t, j), j)
    requires Argument(t, i) < |t.ext| && t.ext[Argument(t, i)] == Start(t, j)
    requires Argument(t, j) < |t.ext| && t.ext[Argument(t, j)] == Start(t, i)
    ensures var l, u := Start(t, i), Start(t, j);
      && Convert(t, l, UPPER) == Convert(t, u, UPPER) == [u]
      && Convert(t, l, LOWER) == Convert(t, u, LOWER) == Convert(t, u, FOLD) == [l]
  {
    hide TablesOk, Convert;
    Covered(t, Start(t, i), i);
    Covered(t, Start(t, j), j);
  }

  // ----- folding by way of the upper case -----

  predicate FoldsByUpper(k: nat) {
    k == RUN_UF_D20 || k == RUN_UF_D1_EXT
  }

  /** A variant of a letter is its own lower case and folds with the letter: to the lower case of its upper case,
      where the run of that upper case puts the lower case 0x20 or 1 behind it. */
  lemma VariantFolds(t: Tables, c: nat, i: nat)
    requires TablesOk(t) && In(t, c, i) && FoldsByUpper(Kind(t.runs[i]))
    ensures Convert(t, c, LOWER) == [c] && |Convert(t, c, UPPER)| == |Convert(t, c, FOLD)| == 1
    ensures var u := Convert(t, c, UPPER)[0]; var d := if Kind(t.runs[i]) == RUN_UF_D20 then 0x20 else 1;
      && Convert(t, c, FOLD) == [u + d]
      && (Convert(t, u, LOWER) == [u + d] ==> Convert(t, c, FOLD) == Convert(t, u, LOWER))
  {
    hide TablesOk, Convert;
    Covered(t, c, i);
  }

  /** The first letters of the lower cases. */
  function LowerEach(t: Tables, cs: seq<nat>): seq<nat>
    requires TablesOk(t)
  {
    seq(|cs|, k requires 0 <= k < |cs| => Convert(t, cs[k], LOWER)[0])
  }

  /** A code point with several upper-case letters is its own lower case, and folding is lower case applied to each. */
  lemma SeveralFold(t: Tables, c: nat, i: nat)
    requires TablesOk(t) && In(t, c, i) && (Kind(t.runs[i]) == RUN_UF_EXT2 || Kind(t.runs[i]) == RUN_UF_EXT3)
    ensures |Convert(t, c, UPPER)| == if Kind(t.runs[i]) == RUN_UF_EXT2 then 2 else 3
    ensures Convert(t, c, FOLD) == LowerEach(t, Convert(t, c, UPPER)) && Convert(t, c, LOWER) == [c]
  {
    hide TablesOk, Convert;
    Covered(t, c, i);
  }

  /** Greek letters with a subscript iota: it is written behind in upper case, and the lower case is a single letter at
      the same distance along the run. */
  lemma SubscriptIota(t: Tables, c: nat, i: nat)
    requires TablesOk(t) && In(t, c, i) && Kind(t.runs[i]) == RUN_U2L_399_EXT2
    ensures var u, l := Convert(t, Start(t, i), UPPER), Convert(t, Start(t, i), LOWER);
      && |u| == 2 && u[1] == 0x399 && |l| == 1
      && Convert(t, c, UPPER) == [u[0] + c - Start(t, i), 0x399]
      && Convert(t, c, LOWER) == Convert(t, c, FOLD) == [l[0] + c - Start(t, i)]
  {
    hide TablesOk, Convert;
    Covered(t, c, i);
    Covered(t, Start(t, i), i);
  }

  // ----- folding in regular expressions -----

  /** The two letters of an alternating pair match each other when case is ignored. */
  lemma AlternatingMatch(t: Tables, u: nat, i: nat, unicode: bool)
    requires TablesOk(t) && In(t, u, i) && Kind(t.runs[i]) == RUN_UL && (u - Start(t, i)) % 2 == 0
    ensures Canonicalize(t, u, unicode) == Canonicalize(t, u + 1, unicode) == if unicode then u + 1 else u
  {
    hide Canonicalize, Convert, ConvertEntry, TablesOk;
    Alternating(t, u, i);
    CanonicalizeIsEcma(t, u);
    CanonicalizeIsEcma(t, u + 1);
  }

  /** And so do those of paired runs. */
  lemma PairsMatch(t: Tables, i: nat, j: nat, k: nat)
    requires TablesOk(t) && Paired(t, i, j) && k < Length(t.runs[i])
    ensures var l, u := Start(t, i) + k, Start(t, j) + k;
      Canonicalize(t, l, false) == Canonicalize(t, u, false) == u
  {
    hide Canonicalize, Convert, ConvertEntry, TablesOk;
    PairsInvert(t, i, j, k);
    CanonicalizeIsEcma(t, Start(t, i) + k);
    CanonicalizeIsEcma(t, Start(t, j) + k);
  }
}
