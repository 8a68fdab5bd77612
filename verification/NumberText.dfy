/** How digits and an exponent are laid out as text, and what reading that text gives. */
module NumberText {
  import opened Options
  import opened Powers
  import opened DecimalText
  import opened NumericLiteral

  lemma OneDigit(digit: Digit)
    ensures Dec([digit]) == digit && Chars([digit]) == [DigitChar(digit)]
  {
    assert [digit][..0] == [];
  }

  lemma CharsParts(ds: seq<Digit>, k: nat)
    requires k <= |ds|
    ensures Chars(ds)[..k] == Chars(ds[..k]) && Chars(ds)[k..] == Chars(ds[k..])
  {}

  // ----- numerals -----

  function Minus(negative: bool): string {
    if negative then "-" else ""
  }

  function PointPart(fraction: seq<Digit>): string {
    if fraction == [] then "" else "." + Chars(fraction)
  }

  /** The exponent is written with its sign. */
  function ExponentPart(exponent: Option<int>, ds: seq<Digit>): string {
    if exponent.None? then "" else (if exponent.value < 0 then "e-" else "e+") + Chars(ds)
  }

  function NumeralText(negative: bool, whole: seq<Digit>, fraction: seq<Digit>, exponent: Option<int>, ds: seq<Digit>): string {
    Minus(negative) + Chars(whole) + PointPart(fraction) + ExponentPart(exponent, ds)
  }

  /** The text is read as the numeral it was written from. */
  lemma PrintedNumeral(negative: bool, whole: seq<Digit>, fraction: seq<Digit>, exponent: Option<int>, ds: seq<Digit>)
    requires whole != []
    requires exponent.Some? ==> ds != [] && exponent.value == if exponent.value < 0 then -(Dec(ds) as int) else Dec(ds)
    ensures var s := NumeralText(negative, whole, fraction, exponent, ds);
      && ReadNumeral(s) == Some(Numeral(negative, whole, fraction, if exponent.Some? then exponent.value else 0))
      && !IsInfinity(s, SignLength(s, 0))
  {
    hide Dec, Chars, ReadNumeral, IsInfinity, SignLength, Text, NumeralText;
    var mark := if exponent.None? then "" else if exponent.value < 0 then "e-" else "e+";
    var l := Literal(Minus(negative), whole, fraction != [], fraction, mark, if exponent.None? then [] else ds, "");
    EmptyDigits();
    PrintedParts(l, negative, exponent, ds);
    LiteralReads(l);
  }

  lemma PrintedParts(l: Literal, negative: bool, exponent: Option<int>, ds: seq<Digit>)
    requires l.sign == Minus(negative) && (l.point <==> l.fraction != []) && l.tail == ""
    requires l.mark == if exponent.None? then "" else if exponent.value < 0 then "e-" else "e+"
    requires l.exponent == if exponent.None? then [] else ds
    ensures Text(l) == NumeralText(negative, l.whole, l.fraction, exponent, ds)
  {
    hide Chars, Minus;
    EmptyDigits();
    assert ExponentPart(exponent, ds) == l.mark + Chars(l.exponent) + l.tail;
    Regroup(l.sign + Chars(l.whole), PointText(l), l.mark, Chars(l.exponent), l.tail);
  }

  // ----- the format -----

  function Zeros(k: nat): seq<Digit> {
    seq(k, _ => 0)
  }

  lemma ZeroText(zeros: seq<Digit>, ds: seq<Digit>)
    requires forall i :: 0 <= i < |zeros| ==> zeros[i] == 0
    ensures Chars(zeros + ds) == seq(|zeros|, _ => '0') + Chars(ds)
    ensures Chars(ds + zeros) == Chars(ds) + seq(|zeros|, _ => '0')
  {}

  lemma LeadingZeros(zeros: seq<Digit>, ds: seq<Digit>)
    requires forall i :: 0 <= i < |zeros| ==> zeros[i] == 0
    ensures Dec([0] + (zeros + ds)) == Dec(ds)
  {
    hide Dec;
    DecZeros([0] + zeros, ds);
    assert [0] + (zeros + ds) == ([0] + zeros) + ds;
  }

  /** The exponent part of a number whose first digit has the weight `10^x`. */
  function ExponentText(x: int): string {
    (if x < 0 then "e-" else "e+") + Chars(Decimal(if x < 0 then -x else x))
  }

  /** ECMA-262, section 6.1.6.1.20, from the second step on: the number 0.d1d2... * 10^n, where d1d2... are the
      digits of `mant`. */
  function Layout(mant: nat, n: int): string {
    var ds := Decimal(mant);
    var k := |ds|;
    if k <= n <= 21 then Chars(ds) + seq(n - k, _ => '0')
    else if 0 < n <= 21 then Chars(ds[..n]) + "." + Chars(ds[n..])
    else if -6 < n <= 0 then "0." + seq(-n, _ => '0') + Chars(ds)
    else if k == 1 then Chars(ds) + ExponentText(n - 1)
    else Chars(ds[..1]) + "." + Chars(ds[1..]) + ExponentText(n - 1)
  }

  /** The numeral with that text. */
  function LayoutNumeral(negative: bool, mant: nat, n: int): Numeral {
    var ds := Decimal(mant);
    var k := |ds|;
    if k <= n <= 21 then Numeral(negative, ds + Zeros(n - k), [], 0)
    else if 0 < n <= 21 then Numeral(negative, ds[..n], ds[n..], 0)
    else if -6 < n <= 0 then Numeral(negative, [0], Zeros(-n) + ds, 0)
    else Numeral(negative, ds[..1], ds[1..], n - 1)
  }

  /** The layout is read as its numeral. */
  lemma LayoutReads(negative: bool, mant: nat, n: int)
    ensures var s := Minus(negative) + Layout(mant, n);
      ReadNumeral(s) == Some(LayoutNumeral(negative, mant, n)) && !IsInfinity(s, SignLength(s, 0))
    ensures -400 <= n <= 400 ==> |Layout(mant, n)| <= 10 + 2 * |Decimal(mant)| + 21
  {
    hide Decimal, Dec, ReadNumeral, IsInfinity, SignLength, Chars;
    var v := LayoutNumeral(negative, mant, n);
    var xs := Decimal(if n - 1 < 0 then -(n - 1) else n - 1);
    var plain := -6 < n <= 21;
    DecDecimal(if n - 1 < 0 then -(n - 1) else n - 1);
    LayoutText(negative, mant, n);
    PrintedNumeral(negative, v.whole, v.fraction, if plain then None else Some(n - 1), if plain then [] else xs);
    if -400 <= n <= 400 {
      ShortExponent(n - 1);
    }
  }

  lemma ShortExponent(x: int)
    requires -401 <= x <= 399
    ensures |ExponentText(x)| <= 5
  {
    hide Decimal, Chars;
    ThreeDigits(if x < 0 then -x else x);
  }

  lemma ThreeDigits(n: nat)
    requires n < 1000
    ensures |Decimal(n)| <= 3
  {
    var k := n / 10;
    assert n >= 10 ==> Decimal(n) == Decimal(k) + [n % 10];
    assert k >= 10 ==> Decimal(k) == Decimal(k / 10) + [k % 10];
    assert Decimal(k / 10) == [k / 10];
  }

  /** The layout spelled out. */
  lemma LayoutText(negative: bool, mant: nat, n: int)
    ensures var v, plain := LayoutNumeral(negative, mant, n), -6 < n <= 21;
      var xs := Decimal(if n - 1 < 0 then -(n - 1) else n - 1);
      Minus(negative) + Layout(mant, n)
        == NumeralText(negative, v.whole, v.fraction, if plain then None else Some(n - 1), if plain then [] else xs)
  {
    hide Decimal, Chars, ExponentText, NumeralText, Zeros;
    var ds := Decimal(mant);
    var k := |ds|;
    if k <= n <= 21 {
      PlainLayout(negative, ds, n - k);
    } else if 0 < n <= 21 {
      PointLayout(negative, ds[..n], ds[n..]);
    } else if -6 < n <= 0 {
      LeadingLayout(negative, ds, -n);
    } else {
      ExponentLayout(negative, ds, n - 1);
    }
  }

  lemma PlainLayout(negative: bool, ds: seq<Digit>, z: nat)
    ensures Minus(negative) + (Chars(ds) + seq(z, _ => '0')) == NumeralText(negative, ds + Zeros(z), [], None, [])
  {
    hide Chars, Minus;
    ZeroText(Zeros(z), ds);
    NoPoint(Minus(negative), Chars(ds), seq(z, _ => '0'));
  }

  lemma PointLayout(negative: bool, whole: seq<Digit>, fraction: seq<Digit>)
    requires fraction != []
    ensures Minus(negative) + (Chars(whole) + "." + Chars(fraction)) == NumeralText(negative, whole, fraction, None, [])
  {
    hide Chars, Minus;
    WithPoint(Minus(negative), Chars(whole), Chars(fraction));
  }

  lemma LeadingLayout(negative: bool, ds: seq<Digit>, z: nat)
    requires ds != []
    ensures Minus(negative) + ("0." + seq(z, _ => '0') + Chars(ds)) == NumeralText(negative, [0], Zeros(z) + ds, None, [])
  {
    hide Chars, Minus;
    OneDigit(0);
    ZeroText(Zeros(z), ds);
    LeadingPoint(Minus(negative), seq(z, _ => '0'), Chars(ds));
  }

  lemma NoPoint(sign: string, a: string, z: string)
    ensures sign + (a + z) == sign + (a + z) + "" + ""
  {}

  lemma WithPoint(sign: string, a: string, b: string)
    ensures sign + (a + "." + b) == sign + a + ("." + b) + ""
  {}

  lemma LeadingPoint(sign: string, z: string, a: string)
    ensures sign + ("0." + z + a) == sign + "0" + ("." + (z + a)) + ""
  {}

  lemma ExponentLayout(negative: bool, ds: seq<Digit>, x: int)
    requires ds != []
    ensures Minus(negative) + (if |ds| == 1 then Chars(ds) + ExponentText(x) else Chars(ds[..1]) + "." + Chars(ds[1..]) + ExponentText(x))
      == NumeralText(negative, ds[..1], ds[1..], Some(x), Decimal(if x < 0 then -x else x))
  {
    hide Chars, Decimal;
    var tail := ExponentText(x);
    if |ds| == 1 {
      assert ds[..1] == ds;
      NoPointBefore(Minus(negative), Chars(ds), tail);
    } else {
      PointBefore(Minus(negative), Chars(ds[..1]), Chars(ds[1..]), tail);
    }
  }

  lemma NoPointBefore(sign: string, a: string, tail: string)
    ensures sign + (a + tail) == sign + a + "" + tail
  {}

  lemma PointBefore(sign: string, a: string, b: string, tail: string)
    ensures sign + (a + "." + b + tail) == sign + a + ("." + b) + tail
  {}

  /** The value is not changed: zeros are appended to the digits or put in front of them. */
  lemma LayoutValue(negative: bool, mant: nat, n: int)
    ensures var v, k := LayoutNumeral(negative, mant, n), |Decimal(mant)|;
      var z := if k <= n <= 21 then n - k else 0;
      && Dec(v.whole + v.fraction) == mant * Pow(10, z) && v.exponent - |v.fraction| == n - k - z
      && v.negative == negative && |v.whole + v.fraction| <= k + 21 && (-400 <= n <= 400 ==> -401 <= v.exponent <= 399)
  {
    hide Decimal, Dec, Pow;
    var ds := Decimal(mant);
    var k := |ds|;
    DecDecimal(mant);
    PowOne(10);
    if k <= n <= 21 {
      AllZeros(Zeros(n - k));
      DecAppend(ds, Zeros(n - k));
      assert ds + Zeros(n - k) + [] == ds + Zeros(n - k);
    } else if 0 < n <= 21 {
      assert ds[..n] + ds[n..] == ds;
    } else if -6 < n <= 0 {
      LeadingZeros(Zeros(-n), ds);
    } else {
      assert ds[..1] + ds[1..] == ds;
    }
  }

  /** There is an exponent part exactly outside these bounds. */
  lemma LayoutHasExponent(mant: nat, n: int)
    ensures 'e' in Layout(mant, n) <==> n <= -6 || n > 21
  {
    hide Decimal;
    var ds := Decimal(mant);
    if n <= -6 || n > 21 {
      var x := ExponentText(n - 1);
      assert x[0] == 'e';
      assert Layout(mant, n)[|Layout(mant, n)| - |x|] == 'e';
    } else {
      forall i | 0 <= i < |Layout(mant, n)| ensures Layout(mant, n)[i] != 'e' {}
    }
  }
}
