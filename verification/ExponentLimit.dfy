/** The exponent sum of `js_atod` is 32-bit. Numerals on either side for which it overflows: the result is at the
    opposite end of the range. */
module ExponentLimit {
  import opened Options
  import opened Powers
  import opened Doubles
  import opened FloatRounding
  import opened DecimalText
  import opened Atod

  const LIMIT_DIGITS: seq<Digit> := [2, 1, 4, 7, 4, 8, 3, 6, 3, 9]

  lemma DecNext(ds: seq<Digit>, d: Digit)
    ensures Dec(ds + [d]) == Dec(ds) * 10 + d
  {
    assert (ds + [d])[..|ds|] == ds;
  }

  lemma LimitValue()
    ensures Dec(LIMIT_DIGITS) == 2147483639
  {
    hide Dec;
    var a: seq<Digit>, v: nat, i: nat := [], 0, 0;
    NoDigits(a);
    assert a[..0] == a;
    while i < 10
      invariant 0 <= i <= 10 && a == LIMIT_DIGITS[..i] && Dec(a) == v
      invariant v == [0, 2, 21, 214, 2147, 21474, 214748, 2147483, 21474836, 214748363, 2147483639][i]
    {
      DecNext(a, LIMIT_DIGITS[i]);
      v, a, i := v * 10 + LIMIT_DIGITS[i], a + [LIMIT_DIGITS[i]], i + 1;
    }
    assert a == LIMIT_DIGITS;
  }

  lemma LimitText()
    ensures Chars(LIMIT_DIGITS) == "2147483639"
  {}

  const LARGE_TEXT := "123456789e2147483639"
  const LARGE_NUMERAL := Numeral(false, [1, 2, 3, 4, 5, 6, 7, 8, 9], [], 2147483639)

  /** This numeral should read as infinity, and the sum is 2^31, so it reads as 0. */
  lemma LargeNumeralOverflows()
    ensures !IsInfinity(LARGE_TEXT, SignLength(LARGE_TEXT, 0)) && ReadNumeral(LARGE_TEXT) == Some(LARGE_NUMERAL)
    ensures KeptExponent(LARGE_NUMERAL) + |Kept(LARGE_NUMERAL)| == 0x8000_0000 && !ExponentFits(LARGE_NUMERAL)
    ensures forall r :: Reads(LARGE_NUMERAL, r) ==> r.bits == INFINITY_BITS
  {
    hide Dec, IsRounded, Nearest, ValueNum, ValueDen, Pow, ReadNumeral, Significant;
    var n := LARGE_NUMERAL;
    LargeNumeralReads();
    assert n.whole + n.fraction == n.whole;
    FirstKept(n);
    AllSignificant(n.whole);
    DecBound(Kept(n));
    TooLargeDecimal(Dec(Kept(n)), |Kept(n)|, KeptExponent(n));
    forall r | Reads(n, r) ensures r.bits == INFINITY_BITS {
      LargeIsInfinite(r.bits, ValueNum(Dec(Kept(n)), 10, KeptExponent(n)), ValueDen(10, KeptExponent(n)));
    }
  }

  lemma AllSignificant(ds: seq<Digit>)
    requires ds != [] && ds[0] != 0
    ensures Significant(ds) == ds
  {}

  lemma LargeNumeralReads()
    ensures !IsInfinity(LARGE_TEXT, SignLength(LARGE_TEXT, 0)) && ReadNumeral(LARGE_TEXT) == Some(LARGE_NUMERAL)
  {
    hide Dec, DigitsFrom, Chars;
    var s, n := LARGE_TEXT, LARGE_NUMERAL;
    LimitValue();
    LimitText();
    LargeText();
    assert s == [] + Chars(n.whole) + "e2147483639" && s == "123456789e" + Chars(LIMIT_DIGITS) + "";
    DigitsOfChars([], n.whole, "e2147483639");
    DigitsOfChars("123456789e", LIMIT_DIGITS, "");
    assert Whole(s, 0) == n.whole && Fraction(s, 0) == [];
  }

  lemma LargeText()
    ensures Chars([1, 2, 3, 4, 5, 6, 7, 8, 9]) == "123456789"
  {}

  lemma LargeIsInfinite(bits: nat, num: nat, den: nat)
    requires den > 0 && IsRounded(bits, num, den) && Nearest(num, den) >= Pow(2, 2098)
    ensures bits == INFINITY_BITS
  {}

  lemma SmallIsZero(bits: nat, num: nat, den: nat)
    requires den > 0 && IsRounded(bits, num, den) && Nearest(num, den) == 0 < Pow(2, 2098)
    ensures bits == 0
  {
    var field, fraction := bits / TWO52, bits % TWO52;
    if field != 0 {
      MulMono(1, Pow(2, field - 1), TWO52 + fraction);
    }
  }

  const SMALL_TEXT := "0.00000000001e-2147483639"
  const SMALL_NUMERAL := Numeral(false, [0], [0, 0, 0, 0, 0, 0, 0, 0, 0, 0, 1], -2147483639)

  /** This numeral should read as 0, and the sum is below -2^31, so it reads as infinity. */
  lemma SmallNumeralOverflows()
    ensures !IsInfinity(SMALL_TEXT, SignLength(SMALL_TEXT, 0)) && ReadNumeral(SMALL_TEXT) == Some(SMALL_NUMERAL)
    ensures KeptExponent(SMALL_NUMERAL) + |Kept(SMALL_NUMERAL)| == -0x8000_0001 && !ExponentFits(SMALL_NUMERAL)
    ensures forall r :: Reads(SMALL_NUMERAL, r) ==> r.bits == 0
  {
    hide Dec, IsRounded, Nearest, ValueNum, ValueDen, Pow, ReadNumeral, Significant;
    var n := SMALL_NUMERAL;
    SmallNumeralReads();
    SmallKept();
    DecBound(Kept(n));
    TooSmallDecimal(Dec(Kept(n)), |Kept(n)|, KeptExponent(n));
    forall r | Reads(n, r) ensures r.bits == 0 {
      SmallIsZero(r.bits, ValueNum(Dec(Kept(n)), 10, KeptExponent(n)), ValueDen(10, KeptExponent(n)));
    }
  }

  lemma SmallWhole()
    ensures Whole(SMALL_TEXT, 0) == SMALL_NUMERAL.whole
  {
    hide DigitsFrom, Chars;
    SmallText();
    assert SMALL_TEXT == [] + Chars([0]) + ".00000000001e-2147483639";
    DigitsOfChars([], [0], ".00000000001e-2147483639");
  }

  lemma SmallFraction()
    ensures Fraction(SMALL_TEXT, 0) == SMALL_NUMERAL.fraction && MantissaEnd(SMALL_TEXT, 0) == 13
  {
    hide DigitsFrom, Chars, Whole;
    SmallWhole();
    SmallText();
    assert SMALL_TEXT == "0." + Chars(SMALL_NUMERAL.fraction) + "e-2147483639";
    DigitsOfChars("0.", SMALL_NUMERAL.fraction, "e-2147483639");
  }

  lemma SmallExponent()
    ensures ReadExponent(SMALL_TEXT, 13) == Some(-2147483639)
  {
    hide DigitsFrom, Chars, Dec;
    LimitValue();
    LimitText();
    assert SMALL_TEXT == "0.00000000001e-" + Chars(LIMIT_DIGITS) + "";
    DigitsOfChars("0.00000000001e-", LIMIT_DIGITS, "");
    assert DigitsFrom(SMALL_TEXT, 15) == LIMIT_DIGITS;
  }

  lemma SmallNumeralReads()
    ensures !IsInfinity(SMALL_TEXT, SignLength(SMALL_TEXT, 0)) && ReadNumeral(SMALL_TEXT) == Some(SMALL_NUMERAL)
  {
    hide Whole, Fraction, MantissaEnd, ReadExponent;
    SmallWhole();
    SmallFraction();
    SmallExponent();
  }

  lemma SmallText()
    ensures Chars([0]) == "0" && Chars(SMALL_NUMERAL.fraction) == "00000000001"
  {}

  lemma SmallKept()
    ensures Kept(SMALL_NUMERAL) == [1] && |Significant(SMALL_NUMERAL.whole + SMALL_NUMERAL.fraction)| == 1
  {
    hide Significant;
    var all := SMALL_NUMERAL.whole + SMALL_NUMERAL.fraction;
    assert all == [0, 0, 0, 0, 0, 0, 0, 0, 0, 0, 0, 1];
    var r := Significant(all);
    assert all[11] == 1;
    assert |r| > 0 && r[0] == all[12 - |r|];
  }

  method ReadLarge() returns (r: Parsed)
    ensures r == Float(false, 0)
  {
    LargeNumeralOverflows();
    r := JsAtod(LARGE_TEXT);
  }

  method ReadSmall() returns (r: Parsed)
    ensures r == Float(false, INFINITY_BITS)
  {
    SmallNumeralOverflows();
    r := JsAtod(SMALL_TEXT);
  }
}
