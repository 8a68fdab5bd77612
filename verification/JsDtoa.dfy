/** `js_dtoa`, radix 10 and free format, and its round trip through `js_atod`. */
module JsDtoa {
  import opened Options
  import opened Powers
  import opened Rounding
  import opened Limbs
  import opened BigNumber
  import opened PowerTables
  import opened Scaling
  import opened Doubles
  import opened ToDouble
  import opened FloatRounding
  import opened Shortest
  import opened Dtoa
  import opened DecimalText
  import opened NumericLiteral
  import opened NumberText
  import opened Atod

  const SIGN_BIT := 0x8000_0000_0000_0000

  // ----- digits -----

  /** `u32toa_len`: exactly `len` digits. */
  method U32ToALen(n0: nat, len: nat) returns (s: string, ghost ds: seq<Digit>)
    requires n0 < Pow(10, len)
    ensures s == Chars(ds) && |ds| == len && Dec(ds) == n0
  {
    hide Pow, Dec;
    var n: nat := n0;
    s, ds := "", [];
    EmptyDigits();
    PowOne(10);
    for i := 0 to len
      invariant |ds| == i && s == Chars(ds) && n * Pow(10, i) + Dec(ds) == n0
    {
      var digit := n % 10;
      FrontDigit(n, digit, ds);
      s := [DigitChar(digit)] + s;
      ds := [digit] + ds;
      n := n / 10;
    }
    NoQuotientLeft(n, Pow(10, len), Dec(ds));
  }

  lemma NoQuotientLeft(n: nat, p: nat, low: nat)
    ensures n * p + low < p ==> n == 0
  {
    if n > 0 {
      MulMono(1, n, p);
    }
  }

  /** A digit in front of those already written. */
  lemma FrontDigit(n: nat, digit: Digit, ds: seq<Digit>)
    requires digit == n % 10
    ensures n / 10 * Pow(10, |ds| + 1) + Dec([digit] + ds) == n * Pow(10, |ds|) + Dec(ds)
    ensures Chars([digit] + ds) == [DigitChar(digit)] + Chars(ds)
  {
    hide Pow, Dec, Chars;
    OneDigit(digit);
    PowOne(10);
    FrontDigits(n, n / 10, 1, [digit], ds);
  }

  /** `u32toa`: as many digits as needed, at least one. */
  method U32ToA(n0: nat) returns (s: string)
    ensures s == Chars(Decimal(n0))
  {
    hide Decimal, Chars;
    s := "";
    ghost var ds: seq<Digit> := [];
    var n: nat := n0;
    EmptyDigits();
    while true
      invariant s == Chars(ds) && if ds == [] then n == n0 else n > 0 && Decimal(n0) == Decimal(n) + ds
      decreases n
    {
      var digit := n % 10;
      DecimalStep(n, ds);
      OneDigit(digit);
      TwoTexts([digit], ds);
      s := [DigitChar(digit)] + s;
      ds := [digit] + ds;
      n := n / 10;
      if n == 0 {
        break;
      }
    }
  }

  lemma DecimalStep(n: nat, ds: seq<Digit>)
    ensures Decimal(n) + ds == if n < 10 then [n] + ds else Decimal(n / 10) + ([n % 10] + ds)
    ensures Decimal(n) + [] == Decimal(n)
  {}

  lemma TwoTexts(a: seq<Digit>, b: seq<Digit>)
    ensures Chars(a + b) == Chars(a) + Chars(b)
  {}

  /** The digits with the point behind the first `dot` of them, unless that is behind all. */
  function Pointed(ds: seq<Digit>, dot: nat): string
    requires dot <= |ds|
  {
    if dot == |ds| then Chars(ds) else Chars(ds[..dot]) + "." + Chars(ds[dot..])
  }

  /** `output_digits` */
  method OutputDigits(a: Mpb, prec: nat, dot: nat) returns (s: string, ghost ds: seq<Digit>)
    requires a.Normal() && a.V() < Pow(10, prec) && dot <= prec
    modifies a`len, a.tab
    ensures |ds| == prec && Dec(ds) == old(a.V()) && s == Pointed(ds, dot)
  {
    hide Pow, Value, Dec, Chars;
    s, ds := DivideDigits(a, prec);
    if dot != prec {
      CharsParts(ds, dot);
      s := s[..dot] + "." + s[dot..];
    }
  }

  /** The limbs are divided down nine digits at a time. */
  method DivideDigits(a: Mpb, prec: nat) returns (s: string, ghost ds: seq<Digit>)
    requires a.Normal() && a.V() < Pow(10, prec)
    modifies a`len, a.tab
    ensures s == Chars(ds) && |ds| == prec && Dec(ds) == old(a.V())
  {
    hide Pow, Value, Dec;
    ghost var v := a.V();
    var left := prec;
    s, ds := "", [];
    EmptyDigits();
    PowOne(10);
    while left != 0
      invariant 0 <= left <= prec && a.Normal() && |ds| == prec - left && s == Chars(ds)
      invariant a.V() * Pow(10, |ds|) + Dec(ds) == v && a.V() < Pow(10, left)
    {
      var n := if left < 9 then left else 9;
      left := left - n;
      ghost var w := a.V();
      TenPowersFit(9);
      var r := Limbs.Div1(a.tab, a.len, RADIX_BASE_10, 0);
      a.Renorm();
      NineDigits(w, a.V(), r, left, n);
      var piece;
      ghost var more;
      piece, more := U32ToALen(r, n);
      FrontDigits(w, a.V(), n, more, ds);
      s := piece + s;
      ds := more + ds;
    }
  }

  lemma NineDigits(w: nat, q: nat, r: nat, left: nat, n: nat)
    requires w == q * RADIX_BASE_10 + r && r < RADIX_BASE_10 && w < Pow(10, left + n) && n <= 9 && (left > 0 ==> n == 9)
    ensures r < Pow(10, n) && q < Pow(10, left) && w == q * Pow(10, n) + r
  {
    hide Pow;
    TenPowersFit(n);
    PowOne(10);
    PowAdd(10, left, n);
    if n == 9 {
      CancelLessStrict(q, Pow(10, left), RADIX_BASE_10);
    }
  }

  lemma FrontDigits(w: nat, q: nat, n: nat, more: seq<Digit>, ds: seq<Digit>)
    requires |more| == n && w == q * Pow(10, n) + Dec(more)
    ensures q * Pow(10, |more + ds|) + Dec(more + ds) == w * Pow(10, |ds|) + Dec(ds)
    ensures Chars(more + ds) == Chars(more) + Chars(ds)
  {
    hide Pow, Dec;
    DecAppend(more, ds);
    PowAdd(10, n, |ds|);
    Assoc(q, Pow(10, n), Pow(10, |ds|));
    Distribute(Pow(10, |ds|), q * Pow(10, n), Dec(more));
  }

  // ----- taking a float64 apart -----

  /** The normalised significand and exponent of a finite non-zero pattern. */
  method TakeApart(magnitude: nat) returns (m: nat, e: int)
    requires 0 < magnitude < INFINITY_BITS
    ensures IsFloat(m, e, UnitsOf(magnitude))
  {
    hide Pow, BitLength;
    var field, fraction := magnitude / TWO52, magnitude % TWO52;
    Power52();
    PowOne(2);
    if field == 0 {
      var l := 53 - BitLength(fraction);
      Subnormal(fraction);
      e := -(l - 1) - 1022;
      m := fraction * Pow(2, l);
    } else {
      e := field - 1022;
      m := TWO52 + fraction;
      MulPos(m, Pow(2, field - 1));
    }
  }

  lemma Subnormal(fraction: nat)
    requires 0 < fraction < TWO52
    ensures var l := 53 - BitLength(fraction); 1 <= l <= 52 && Pow(2, 52) <= fraction * Pow(2, l) < Pow(2, 53)
  {
    hide Pow, BitLength;
    var b := BitLength(fraction);
    Power52();
    if b > 52 {
      PowMono(2, 52, b - 1);
    }
    var l := 53 - b;
    PowAdd(2, b - 1, l);
    PowAdd(2, b, l);
    MulMono(Pow(2, b - 1), fraction, Pow(2, l));
    MulMonoStrict(fraction, Pow(2, b), Pow(2, l));
  }

  /** Patterns are ordered as their values are, so different patterns have different values. */
  lemma UnitsOfOnce(a: nat, b: nat)
    requires a < INFINITY_BITS && b < INFINITY_BITS
    ensures a <= b <==> UnitsOf(a) <= UnitsOf(b)
  {
    hide Pow, UnitsOf;
    if a / TWO52 < b / TWO52 {
      BinadesApart(a, b);
    } else if b / TWO52 < a / TWO52 {
      BinadesApart(b, a);
    } else {
      InBinade(a, b);
    }
  }

  lemma InBinade(a: nat, b: nat)
    requires a / TWO52 == b / TWO52
    ensures a <= b <==> UnitsOf(a) <= UnitsOf(b)
  {
    hide Pow;
    if a / TWO52 != 0 {
      var x, y, p := TWO52 + a % TWO52, TWO52 + b % TWO52, Pow(2, a / TWO52 - 1);
      if x <= y {
        MulMono(x, y, p);
      } else {
        MulMonoStrict(y, x, p);
      }
    }
  }

  lemma BinadesApart(a: nat, b: nat)
    requires a / TWO52 < b / TWO52
    ensures UnitsOf(a) < UnitsOf(b)
  {
    hide Pow;
    var f, g := a / TWO52, b / TWO52;
    PowOne(2);
    MulMono(TWO52, TWO52 + b % TWO52, Pow(2, g - 1));
    if f == 0 {
      MulMono(1, Pow(2, g - 1), TWO52);
    } else {
      MulMonoStrict(TWO52 + a % TWO52, 2 * TWO52, Pow(2, f - 1));
      PowAdd(2, 1, f - 1);
      PowMono(2, f, g - 1);
      MulMono(Pow(2, f), Pow(2, g - 1), TWO52);
    }
  }

  // ----- integers -----

  /** `u64toa` */
  method U64ToA(n0: nat) returns (s: string)
    requires n0 < B * B
    ensures s == Chars(Decimal(n0))
  {
    hide Pow, Dec, Chars, Decimal;
    TenPowersFit(9);
    if n0 < B {
      s := U32ToA(n0);
      return;
    }
    var n1, n := n0 / RADIX_BASE_10, n0 % RADIX_BASE_10;
    var low;
    ghost var lowDigits;
    low, lowDigits := U32ToALen(n, 9);
    if n1 >= B {
      var n2 := n1 / RADIX_BASE_10;
      var middle;
      ghost var middleDigits;
      middle, middleDigits := U32ToALen(n1 % RADIX_BASE_10, 9);
      s := TwoDigits(n2);
      Together(n2, middleDigits);
      s := s + middle;
    } else {
      s := U32ToA(n1);
    }
    Together(n1, lowDigits);
    s := s + low;
  }

  /** More digits behind those of a number. */
  lemma Together(n: nat, ds: seq<Digit>)
    requires n > 0
    ensures Decimal(n * Pow(10, |ds|) + Dec(ds)) == Decimal(n) + ds
    ensures Chars(Decimal(n) + ds) == Chars(Decimal(n)) + Chars(ds)
  {
    hide Dec, Pow, Decimal;
    DecDecimal(n);
    DecAppend(Decimal(n), ds);
    DecimalUnique(Decimal(n) + ds);
  }

  /** At most two digits. */
  method TwoDigits(n: nat) returns (s: string)
    requires n < 100
    ensures s == Chars(Decimal(n))
  {
    var n2: nat := n;
    s := "";
    if n2 >= 10 {
      s := [DigitChar(n2 / 10)];
      n2 := n2 % 10;
    }
    s := s + [DigitChar(n2)];
  }

  // ----- what is printed -----

  /** The text is that of the shortest digits that the search finds. */
  ghost predicate PrintsAs(s: string, negative: bool, units: nat, mant: nat, prec: nat, exp10: int) {
    IsShortest(units, mant, prec, exp10) && -323 <= exp10 <= 309 && s == Minus(negative) + Layout(mant, exp10)
  }

  ghost predicate IsPrinted(s: string, negative: bool, units: nat) {
    exists mant, prec, exp10 :: PrintsAs(s, negative, units, mant, prec, exp10)
  }

  /** The text is a numeral of at most 38 digits that is read back as the float64. */
  ghost predicate Prints(s: string, n: Numeral, negative: bool, units: nat) {
    && |s| < 0x4000_0000 && !IsInfinity(s, SignLength(s, 0)) && ReadNumeral(s) == Some(n) && n.negative == negative
    && |n.whole + n.fraction| <= MAX_DIGITS && -1000 <= n.exponent <= 1000
    && ReadsBack(Dec(n.whole + n.fraction), n.exponent - |n.fraction|, units)
  }

  lemma PrintedReads(s: string, negative: bool, units: nat) returns (n: Numeral)
    requires IsPrinted(s, negative, units)
    ensures Prints(s, n, negative, units)
  {
    hide Pow, Dec, Decimal, ReadsBack, ReadNumeral, IsInfinity, SignLength, RoundedAt, AllReadBack, NoneReadsBack, IsShortest, Layout, LayoutNumeral;
    var mant, prec, exp10 :| PrintsAs(s, negative, units, mant, prec, exp10);
    ShortestIsStripped(units, mant, prec, exp10);
    ShortestSize(units, mant, prec, exp10);
    var k := |Decimal(mant)|;
    n := LayoutNumeral(negative, mant, exp10);
    LayoutReads(negative, mant, exp10);
    LayoutValue(negative, mant, exp10);
    if k <= exp10 <= 21 {
      AppendZeros(mant, exp10 - k, exp10 - k, units);
    } else {
      PowOne(10);
    }
  }

  /** There is one text for a float64. */
  lemma PrintedOnce(m: nat, e: int, units: nat, negative: bool, s: string, s': string)
    requires IsFloat(m, e, units) && IsPrinted(s, negative, units) && IsPrinted(s', negative, units)
    ensures s == s'
  {
    hide IsShortest, Layout, CanRound, IsFloat;
    var mant, prec, exp10 :| PrintsAs(s, negative, units, mant, prec, exp10);
    var mant', prec', exp10' :| PrintsAs(s', negative, units, mant', prec', exp10');
    forall p: nat | 1 <= p <= P_MAX ensures CanRound(units, p) {
      FloatsRound(m, e, units, p);
    }
    ShortestOnce(units, mant, prec, exp10, mant', prec', exp10');
  }

  lemma ShortestSize(units: nat, mant: nat, prec: nat, exp10: int)
    requires IsShortest(units, mant, prec, exp10)
    ensures 1 <= prec <= P_MAX && |Decimal(mant)| == prec
  {
    hide Pow, Decimal, RoundedAt, AllReadBack, NoneReadsBack;
    DecimalLength(mant, prec);
  }

  /** The digits with their point, zeros and exponent. */
  method PlaceDigits(a: Mpb, prec: nat, exp10: int, negative: bool) returns (s: string)
    requires a.Normal() && IsDecimal(a.V(), prec)
    modifies a`len, a.tab
    ensures s == Minus(negative) + Layout(old(a.V()), exp10)
  {
    hide Pow, Value, Dec, Chars, Decimal, ExponentText;
    ghost var mant := a.V();
    DecimalLength(mant, prec);
    var text;
    ghost var ds;
    if exp10 <= -6 || exp10 > 21 {
      text, ds := OutputDigits(a, prec, 1);
      DigitsAre(mant, prec, ds);
      s := Scientific(text, exp10, negative, mant);
    } else if exp10 <= 0 {
      text, ds := OutputDigits(a, prec, prec);
      DigitsAre(mant, prec, ds);
      s := Minus(negative) + "0." + seq(-exp10, _ => '0') + text;
      assert s == Minus(negative) + ("0." + seq(-exp10, _ => '0') + text);
    } else {
      text, ds := OutputDigits(a, prec, if prec <= exp10 then prec else exp10);
      DigitsAre(mant, prec, ds);
      s := Minus(negative) + text + seq(if exp10 > prec then exp10 - prec else 0, _ => '0');
      assert s == Minus(negative) + (text + seq(if exp10 > prec then exp10 - prec else 0, _ => '0'));
    }
  }

  lemma DigitsAre(mant: nat, prec: nat, ds: seq<Digit>)
    requires IsDecimal(mant, prec) && |ds| == prec && Dec(ds) == mant
    ensures ds == Decimal(mant)
  {
    hide Pow, Dec, Decimal;
    if ds[0] == 0 {
      assert ds == [0] + ds[1..];
      DecZeros([0], ds[1..]);
      DecBound(ds[1..]);
    }
    DecimalUnique(ds);
  }

  /** One digit, the rest behind the point, and an exponent. */
  method Scientific(text: string, exp10: int, negative: bool, ghost mant: nat) returns (s: string)
    requires text == Pointed(Decimal(mant), 1) && (exp10 <= -6 || exp10 > 21)
    ensures s == Minus(negative) + Layout(mant, exp10)
  {
    hide Dec, Chars, Decimal;
    var x := exp10 - 1;
    var xs := U32ToA(if x < 0 then -x else x);
    var tail := (if x < 0 then "e-" else "e+") + xs;
    s := Minus(negative) + text + tail;
    assert s == Minus(negative) + (text + tail);
  }

  // ----- integers below 2^53 -----

  /** The fast path for integers prints what the search would find. */
  method PrintInteger(m: nat, e: int, negative: bool, ghost units: nat) returns (s: string)
    requires IsFloat(m, e, units) && 1 <= e <= 53 && m % Pow(2, 53 - e) == 0
    ensures IsPrinted(s, negative, units)
  {
    hide Pow, Dec, Decimal, Chars, IsFloat, IsShortest, Layout;
    IntegerUnits(m, e, units);
    ghost var n := m / Pow(2, 53 - e);
    var text := U64ToA(m / Pow(2, 53 - e));
    s := Minus(negative) + text;
    ghost var mant, z, prec := IntegerShortest(m, e, units, n);
    IntegerLayout(n, mant, z, prec);
    assert PrintsAs(s, negative, units, mant, prec, prec + z);
  }

  lemma IntegerUnits(m: nat, e: int, units: nat)
    requires IsFloat(m, e, units) && 1 <= e <= 53 && m % Pow(2, 53 - e) == 0
    ensures var n := m / Pow(2, 53 - e); units == n * Pow(2, 1074) && 0 < n < Pow(2, 53) && Pow(2, 53) < B * B
  {
    hide Pow;
    var p := Pow(2, 53 - e);
    var n := m / p;
    DivMod(m, p);
    PowOne(2);
    PowAdd(2, 53 - e, e + 1021);
    Assoc(n, p, Pow(2, e + 1021));
    Power52();
    MulMono(1, p, n);
  }

  /** An integer that ends in zeros has the layout of its digits without them. */
  lemma IntegerLayout(n: nat, mant: nat, z: nat, prec: nat)
    requires n == mant * Pow(10, z) && IsDecimal(mant, prec) && n < Pow(2, 53)
    ensures Layout(mant, prec + z) == Chars(Decimal(n)) && prec + z <= 16
  {
    hide Pow, Dec, Decimal;
    DecimalLength(mant, prec);
    BinaryLimits();
    PowAdd(10, prec - 1, z);
    MulMono(Pow(10, prec - 1), mant, Pow(10, z));
    if prec + z > 16 {
      PowMono(10, 16, prec - 1 + z);
    }
    PowOne(10);
    MulMono(1, Pow(10, prec - 1), mant);
    ZeroText(Zeros(z), Decimal(mant));
    AllZeros(Zeros(z));
    MulPos(Pow(10, prec - 1), 1);
    Together(mant, Zeros(z));
  }

  // ----- the whole conversion -----

  /** `js_dtoa(buf, d, 10, 0, JS_DTOA_FORMAT_FREE)` on the bits of `d`. */
  method JsDtoa(bits: nat) returns (s: string)
    requires bits < B * B
    ensures var magnitude, negative := bits % SIGN_BIT, bits >= SIGN_BIT;
      if magnitude > INFINITY_BITS then s == "NaN"
      else if magnitude == INFINITY_BITS then s == Minus(negative) + "Infinity"
      else if magnitude == 0 then s == "0"
      else IsPrinted(s, negative, UnitsOf(magnitude))
  {
    hide Pow, Dec, ReadsBack, Layout, UnitsOf, IsFloat, IsShortest, RoundedAt;
    var magnitude, negative := bits % SIGN_BIT, bits >= SIGN_BIT;
    if magnitude > INFINITY_BITS {
      return "NaN";
    }
    if magnitude == INFINITY_BITS {
      return Minus(negative) + "Infinity";
    }
    if magnitude == 0 {
      return "0";
    }
    ghost var units := UnitsOf(magnitude);
    var m, e := TakeApart(magnitude);
    if 1 <= e <= 53 && m % Pow(2, 53 - e) == 0 {
      s := PrintInteger(m, e, negative, units);
      return;
    }
    var a := new Mpb(52);
    var mant, prec, exp10 := FreeDigits(a, m, e, units);
    ShortestDecimal(units, mant, prec, exp10);
    TenPowers(prec);
    a.SetU64(mant);
    s := PlaceDigits(a, prec, exp10, negative);
    assert PrintsAs(s, negative, units, mant, prec, exp10);
  }

  lemma ShortestDecimal(units: nat, mant: nat, prec: nat, exp10: int)
    requires IsShortest(units, mant, prec, exp10)
    ensures 1 <= prec <= P_MAX && IsDecimal(mant, prec)
  {
    hide RoundedAt, AllReadBack, NoneReadsBack, Pow;
  }

  /** Printing a finite non-zero float64 and parsing the text gives the same float64. */
  method PrintThenParse(bits: nat) returns (r: Parsed)
    requires bits < B * B && 0 < bits % SIGN_BIT < INFINITY_BITS
    ensures r == Float(bits >= SIGN_BIT, bits % SIGN_BIT)
  {
    hide IsPrinted, ReadNumeral, IsInfinity, SignLength, ReadsBack, UnitsOf, Dec, Pow, Reads, ExponentFits;
    var s := JsDtoa(bits);
    ghost var n := PrintedReads(s, bits >= SIGN_BIT, UnitsOf(bits % SIGN_BIT));
    r := JsAtod(s);
    PrintedFits(n);
    ReadBackBits(n, r, bits % SIGN_BIT);
  }

  /** The exponents that are printed are far from the 32-bit limits. */
  lemma PrintedFits(n: Numeral)
    requires |n.whole + n.fraction| <= MAX_DIGITS && -1000 <= n.exponent <= 1000
    ensures ExponentFits(n)
  {
    hide Dec;
    KeptIsExact(n);
  }

  lemma ReadBackBits(n: Numeral, r: Parsed, magnitude: nat)
    requires 0 < magnitude < INFINITY_BITS && Reads(n, r) && |n.whole + n.fraction| <= MAX_DIGITS
    requires ReadsBack(Dec(n.whole + n.fraction), n.exponent - |n.fraction|, UnitsOf(magnitude))
    ensures r.bits == magnitude
  {
    hide Pow, Dec, UnitsOf, Nearest, ValueNum, ValueDen, Kept, KeptExponent, IsRounded;
    var f := n.exponent - |n.fraction|;
    KeptIsExact(n);
    if Kept(n) == [] {
      EmptyDigits();
      FiniteUnits(magnitude);
      ZeroReadsZero(f);
    } else {
      RoundedBits(r.bits, magnitude, ValueNum(Dec(Kept(n)), 10, f), ValueDen(10, f));
    }
  }

  lemma RoundedBits(bits: nat, magnitude: nat, num: nat, den: nat)
    requires den > 0 && 0 < magnitude < INFINITY_BITS && IsRounded(bits, num, den) && Nearest(num, den) == UnitsOf(magnitude)
    ensures bits == magnitude
  {
    hide UnitsOf, Nearest, Pow;
    FiniteUnits(magnitude);
    UnitsOfOnce(bits, magnitude);
    UnitsOfOnce(magnitude, bits);
  }

  lemma FiniteUnits(magnitude: nat)
    requires 0 < magnitude < INFINITY_BITS
    ensures 0 < UnitsOf(magnitude) < Pow(2, 2098)
  {
    hide Pow;
    var field, fraction := magnitude / TWO52, magnitude % TWO52;
    Power52();
    if field == 0 {
      PowMonoStrict(2, 52, 2098);
    } else {
      PowMono(2, field - 1, 2045);
      PowAdd(2, 53, 2045);
      MulPos(TWO52 + fraction, Pow(2, field - 1));
      MulMonoStrict(TWO52 + fraction, 2 * TWO52, Pow(2, field - 1));
      MulMono(Pow(2, field - 1), Pow(2, 2045), 2 * TWO52);
    }
  }

  lemma ZeroReadsZero(f: int)
    ensures Nearest(ValueNum(0, 10, f), ValueDen(10, f)) == 0
  {
    hide Pow, Nearest;
    NearestOfTiny(0, ValueDen(10, f));
  }
}
