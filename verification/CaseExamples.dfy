/** One run of each kind as the generated table has it, and what the Unicode Character Database says about its letters. */
module CaseExamples {
  import opened Options
  import opened CaseTables
  import opened CaseLaws

  /** Entry `i` of the table. */
  predicate HasRun(t: Tables, i: nat, run: nat, low: nat) {
    i < |t.runs| && i < |t.low| && t.runs[i] == run && t.low[i] == low
  }

  /** Entry `i` of the list of letters. */
  predicate Lists(t: Tables, i: nat, c: nat) {
    i < |t.ext| && t.ext[i] == c
  }

  /** U+00E9 and U+00C9: e and E with acute. */
  lemma EAcute(t: Tables)
    requires TablesOk(t) && HasRun(t, 6, 0x701700, 0x3) && HasRun(t, 3, 0x601730, 0x6)
    ensures Convert(t, 0xe9, UPPER) == [0xc9] && Convert(t, 0xe9, LOWER) == [0xe9] && Convert(t, 0xe9, FOLD) == [0xe9]
    ensures Convert(t, 0xc9, UPPER) == [0xc9] && Convert(t, 0xc9, LOWER) == [0xe9] && Convert(t, 0xc9, FOLD) == [0xe9]
  {
    hide TablesOk, Convert;
    Covered(t, 0xe9, 6);
    Covered(t, 0xc9, 3);
  }

  /** U+AB70 and U+13A0: small and capital Cherokee A. Folding goes to the capital letter. */
  lemma Cherokee(t: Tables)
    requires TablesOk(t) && HasRun(t, 339, 0x55b85020, 0xaa) && HasRun(t, 170, 0x9d05011, 0x53)
    ensures Convert(t, 0xab70, UPPER) == [0x13a0] && Convert(t, 0xab70, LOWER) == [0xab70] && Convert(t, 0xab70, FOLD) == [0x13a0]
    ensures Convert(t, 0x13a0, UPPER) == [0x13a0] && Convert(t, 0x13a0, LOWER) == [0xab70] && Convert(t, 0x13a0, FOLD) == [0x13a0]
  {
    hide TablesOk, Convert;
    Covered(t, 0xab70, 339);
    Covered(t, 0x13a0, 170);
  }

  /** U+0101 and U+0100: a and A with macron. */
  lemma AMacron(t: Tables)
    requires TablesOk(t) && HasRun(t, 9, 0x803040, 0x0)
    ensures Convert(t, 0x101, UPPER) == [0x100] && Convert(t, 0x101, LOWER) == [0x101] && Convert(t, 0x101, FOLD) == [0x101]
    ensures Convert(t, 0x100, UPPER) == [0x100] && Convert(t, 0x100, LOWER) == [0x101] && Convert(t, 0x100, FOLD) == [0x101]
  {
    hide TablesOk, Convert;
    Covered(t, 0x101, 9);
    Covered(t, 0x100, 9);
  }

  /** U+01C5: the title-case digraph Dz with caron. */
  lemma DzCaron(t: Tables)
    requires TablesOk(t) && HasRun(t, 55, 0xe20350, 0x0)
    ensures Convert(t, 0x1c5, UPPER) == [0x1c4] && Convert(t, 0x1c5, LOWER) == [0x1c6] && Convert(t, 0x1c5, FOLD) == [0x1c6]
  {
    hide TablesOk, Convert;
    Covered(t, 0x1c5, 55);
  }

  /** U+1F8A: capital alpha with psili, varia and iota subscript. */
  lemma IotaSubscript(t: Tables)
    requires TablesOk(t) && HasRun(t, 229, 0xfc40867, 0x9f) && Lists(t, 30, 0x1f08) && Lists(t, 31, 0x1f80)
    ensures Convert(t, 0x1f8a, UPPER) == [0x1f0a, 0x399] && Convert(t, 0x1f8a, LOWER) == [0x1f82]
  {
    hide TablesOk, Convert;
    Covered(t, 0x1f8a, 229);
  }

  /** U+017F: long s. */
  lemma LongS(t: Tables)
    requires TablesOk(t) && HasRun(t, 18, 0xbf8170, 0x53)
    ensures Convert(t, 0x17f, UPPER) == [0x53] && Convert(t, 0x17f, LOWER) == [0x17f] && Convert(t, 0x17f, FOLD) == [0x73]
  {
    hide TablesOk, Convert;
    Covered(t, 0x17f, 18);
  }

  /** U+1E9B: long s with dot above. */
  lemma LongSDot(t: Tables)
    requires TablesOk(t) && HasRun(t, 195, 0xf4d8180, 0x36) && Lists(t, 54, 0x1e60)
    ensures Convert(t, 0x1e9b, UPPER) == [0x1e60] && Convert(t, 0x1e9b, LOWER) == [0x1e9b] && Convert(t, 0x1e9b, FOLD) == [0x1e61]
  {
    hide TablesOk, Convert;
    Covered(t, 0x1e9b, 195);
  }

  /** U+0131: dotless i. */
  lemma DotlessI(t: Tables)
    requires TablesOk(t) && HasRun(t, 11, 0x988190, 0xb) && Lists(t, 11, 0x49)
    ensures Convert(t, 0x131, UPPER) == [0x49] && Convert(t, 0x131, LOWER) == [0x131] && Convert(t, 0x131, FOLD) == [0x131]
  {
    hide TablesOk, Convert;
    Covered(t, 0x131, 11);
  }

  /** U+212A: the Kelvin sign. */
  lemma KelvinSign(t: Tables)
    requires TablesOk(t) && HasRun(t, 277, 0x109501a0, 0x38) && Lists(t, 56, 0x6b)
    ensures Convert(t, 0x212a, UPPER) == [0x212a] && Convert(t, 0x212a, LOWER) == [0x6b] && Convert(t, 0x212a, FOLD) == [0x6b]
  {
    hide TablesOk, Convert;
    Covered(t, 0x212a, 277);
  }

  /** U+00DF: sharp s. */
  lemma SharpS(t: Tables)
    requires TablesOk(t) && HasRun(t, 5, 0x6f81b3, 0x4d) && Lists(t, 13, 0x53)
    ensures Convert(t, 0xdf, UPPER) == [0x53, 0x53] && Convert(t, 0xdf, LOWER) == [0xdf] && Convert(t, 0xdf, FOLD) == [0x73, 0x73]
  {
    hide TablesOk, Convert;
    Covered(t, 0xdf, 5);
    AsciiConverts(t, 0x53, LOWER);
  }

  /** U+0130: capital I with dot above. */
  lemma IDot(t: Tables)
    requires TablesOk(t) && HasRun(t, 10, 0x9801c3, 0x8f) && Lists(t, 14, 0x69) && Lists(t, 15, 0x307)
    ensures Convert(t, 0x130, UPPER) == [0x130] && Convert(t, 0x130, LOWER) == [0x69, 0x307] && Convert(t, 0x130, FOLD) == [0x69, 0x307]
  {
    hide TablesOk, Convert;
    Covered(t, 0x130, 10);
  }

  /** U+0390: iota with dialytika and tonos. */
  lemma IotaTonos(t: Tables)
    requires TablesOk(t) && HasRun(t, 124, 0x1c801d0, 0x12) && Lists(t, 0, 0x399) && Lists(t, 1, 0x308) && Lists(t, 2, 0x301)
    ensures Convert(t, 0x390, UPPER) == [0x399, 0x308, 0x301] && Convert(t, 0x390, LOWER) == [0x390]
  {
    hide TablesOk, Convert;
    Covered(t, 0x390, 124);
  }
}
