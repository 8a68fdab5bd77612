/** `js_atod` for radix 10: from any string to the bits of a float64. */
module Atod {
  import opened Options
  import opened Powers
  import opened Limbs
  import opened BigNumber
  import opened PowerTables
  import opened Scaling
  import opened Doubles
  import opened FloatRounding
  import opened DecimalText

  const MAX_DIGITS := 38
  const DIGITS_PER_LIMB_10 := 9
  const RADIX_BASE_10: Limb := 0x3b9a_ca00

  datatype Parsed = NotANumber | Float(negative: bool, bits: nat)

  /** The digits that take part in rounding: at most 38 from the first one that is not zero. */
  function Kept(n: Numeral): seq<Digit> {
    var sig := Significant(n.whole + n.fraction);
    if |sig| <= MAX_DIGITS then sig else sig[..MAX_DIGITS]
  }

  /** The decimal exponent that goes with the kept digits. */
  function KeptExponent(n: Numeral): int {
    var all := n.whole + n.fraction;
    n.exponent + |n.whole| - (|all| - |Significant(all)|) - |Kept(n)|
  }

  /** What a numeral is read as: the float64 nearest to its kept digits. */
  ghost predicate Reads(n: Numeral, r: Parsed) {
    && r.Float? && r.negative == n.negative
    && if Kept(n) == [] then r.bits == 0
       else IsRounded(r.bits, ValueNum(Dec(Kept(n)), 10, KeptExponent(n)), ValueDen(10, KeptExponent(n)))
  }

  /** An exponent whose digits reach 2147483640 is only remembered as large. */
  const LARGE_EXPONENT := 2147483640

  predicate IsLarge(exponent: int) {
    exponent <= -LARGE_EXPONENT || exponent >= LARGE_EXPONENT
  }

  /** The 32-bit sum of exponent and digit positions does not overflow. */
  predicate ExponentFits(n: Numeral) {
    Kept(n) == [] || IsLarge(n.exponent) || IsInt32(KeptExponent(n) + |Kept(n)|)
  }

  /** With at most 38 significant digits nothing is dropped. */
  lemma KeptIsExact(n: Numeral)
    requires |Significant(n.whole + n.fraction)| <= MAX_DIGITS
    ensures Dec(Kept(n)) == Dec(n.whole + n.fraction) && KeptExponent(n) == n.exponent - |n.fraction|
  {
    DecSignificant(n.whole + n.fraction);
  }

  // ----- digits into the big number -----

  /** `mpb_mul1_base`; a base of 0 stands for 2^32. */
  method Mul1Base(r: Mpb, base: Limb, a: Limb)
    requires r.Normal() && r.len < r.tab.Length && (base == 0 ==> r.len + 1 < r.tab.Length)
    modifies r`len, r.tab
    ensures r.Normal() && r.V() == old(r.V()) * (if base == 0 then B else base) + a
  {
    hide Pow, Value;
    if r.tab[0] == 0 && r.len == 1 {
      OneLimb(r.tab[..1]);
      r.tab[0] := a;
      OneLimb(r.tab[..1]);
    } else if base == 0 {
      Mul1Word(r, a);
    } else {
      var carry := Limbs.Mul1(r.tab, r.len, base, a);
      ghost var low := r.tab[..r.len];
      r.tab[r.len] := carry;
      assert r.tab[..r.len] == low;
      ValueSnoc(r.tab[..], r.len);
      assert r.tab[..][..r.len + 1] == r.tab[..r.len + 1] && r.tab[..][..r.len] == r.tab[..r.len];
      r.len := r.len + 1;
      r.Renorm();
    }
  }

  /** Multiplication by 2^32 moves the limbs up by one. */
  method Mul1Word(r: Mpb, a: Limb)
    requires r.Normal() && r.len + 1 < r.tab.Length && (r.tab[0] != 0 || r.len != 1)
    modifies r`len, r.tab
    ensures r.Normal() && r.V() == old(r.V()) * B + a
  {
    hide Pow, Value;
    ghost var was := r.tab[..r.len];
    var i: int := r.len;
    while i >= 0
      invariant -1 <= i <= r.len && forall k :: 0 <= k <= i && k < r.len ==> r.tab[k] == was[k]
      invariant forall k :: i < k < r.len ==> r.tab[k + 1] == was[k]
      modifies r.tab
    {
      r.tab[i + 1] := r.tab[i];
      i := i - 1;
    }
    r.tab[0] := a;
    r.len := r.len + 1;
    assert r.tab[..r.len] == [a] + was;
    Prepended(a, was);
  }

  lemma Prepended(a: Limb, s: seq<Limb>)
    ensures Value([a] + s) == a + B * Value(s)
  {
    assert ([a] + s)[1..] == s;
  }

  lemma OneLimb(s: seq<Limb>)
    requires |s| == 1
    ensures Value(s) == s[0]
  {
    assert s == [s[0]];
    ValueOne(s[0]);
  }

  lemma TenPowersFit(k: nat)
    requires k <= 9
    ensures 0 < Pow(10, k) <= RADIX_BASE_10 && Pow(10, 9) == RADIX_BASE_10 && Pow(10, k) < B * B
  {
    PowMono(10, k, 9);
    assert Pow(10, 9) == 1_000_000_000;
  }

  /** The digits read so far: whole limbs in `a`, the rest in `limb`. */
  ghost predicate Holds(v: nat, limb: nat, count: nat, ds: seq<Digit>) {
    && count <= |ds| && count <= DIGITS_PER_LIMB_10
    && v == Dec(ds[..|ds| - count]) && limb == Dec(ds[|ds| - count..])
  }

  lemma HoldsNone()
    ensures Holds(0, 0, 0, [])
  {}

  lemma HoldsBound(v: nat, limb: nat, count: nat, ds: seq<Digit>)
    requires Holds(v, limb, count, ds) && |ds| <= MAX_DIGITS
    ensures v < Pow(10, |ds|) && limb < Pow(10, count) && Pow(10, |ds|) < Pow(2, 128)
  {
    hide Pow, Dec;
    var k: nat := |ds| - count;
    DecBound(ds[..k]);
    DecBound(ds[k..]);
    PowMono(10, k, |ds|);
    PowMono(10, |ds|, 38);
    DecimalLimits();
  }

  lemma HoldsMore(v: nat, limb: nat, count: nat, ds: seq<Digit>, d: Digit)
    requires Holds(v, limb, count, ds) && count < DIGITS_PER_LIMB_10
    ensures Holds(v, limb * 10 + d, count + 1, ds + [d])
  {
    var more := ds + [d];
    assert more[..|more| - (count + 1)] == ds[..|ds| - count];
    var tail := more[|more| - (count + 1)..];
    assert tail == ds[|ds| - count..] + [d];
    assert tail[..|tail| - 1] == ds[|ds| - count..];
  }

  lemma HoldsFlushed(v: nat, limb: nat, count: nat, ds: seq<Digit>)
    requires Holds(v, limb, count, ds)
    ensures Holds(v * Pow(10, count) + limb, 0, 0, ds)
  {
    assert ds == ds[..|ds| - count] + ds[|ds| - count..];
    DecAppend(ds[..|ds| - count], ds[|ds| - count..]);
    assert ds[..|ds| - 0] == ds && ds[|ds| - 0..] == [];
  }

  /** One more digit of the mantissa. */
  method AddDigit(a: Mpb, limb: nat, count: nat, d: Digit, ghost ds: seq<Digit>) returns (limb': nat, count': nat)
    requires a.Normal() && a.tab.Length >= 52 && Holds(a.V(), limb, count, ds) && count < DIGITS_PER_LIMB_10
    requires |ds| < MAX_DIGITS
    modifies a`len, a.tab
    ensures a.Normal() && Holds(a.V(), limb', count', ds + [d]) && count' < DIGITS_PER_LIMB_10
  {
    hide Pow, Value, Holds;
    HoldsBound(a.V(), limb, count, ds);
    HoldsMore(a.V(), limb, count, ds, d);
    limb', count' := limb * 10 + d, count + 1;
    if count' == DIGITS_PER_LIMB_10 {
      HoldsFlushed(a.V(), limb', count', ds + [d]);
      HoldsBound(a.V(), limb', count', ds + [d]);
      TenPowersFit(9);
      FewLimbs(a, |ds|);
      Mul1Base(a, RADIX_BASE_10, limb');
      limb', count' := 0, 0;
    }
  }

  /** The digits left over at the end. */
  method Flush(a: Mpb, limb: nat, count: nat, ghost ds: seq<Digit>)
    requires a.Normal() && a.tab.Length >= 52 && Holds(a.V(), limb, count, ds) && count < DIGITS_PER_LIMB_10
    requires |ds| <= MAX_DIGITS
    modifies a`len, a.tab
    ensures a.Normal() && a.V() == Dec(ds)
  {
    hide Pow, Value, Holds;
    HoldsFlushed(a.V(), limb, count, ds);
    HoldsBound(a.V(), limb, count, ds);
    if count != 0 {
      TenPowersFit(count);
      FewLimbs(a, |ds|);
      var base := PowUi(10, count);
      Mul1Base(a, base, limb);
    } else {
      PowOne(10);
    }
    HoldsAll(a.V(), 0, ds);
  }

  lemma HoldsAll(v: nat, limb: nat, ds: seq<Digit>)
    requires Holds(v, limb, 0, ds)
    ensures v == Dec(ds)
  {
    assert ds[..|ds| - 0] == ds;
  }

  // ----- scanning -----

  /** Where the scan of the mantissa stands: `pos` digits have been passed, and the point if `dot >= 0`. */
  ghost predicate Scanning(s: string, start: nat, p: nat, pos: nat, dot: int) {
    var whole, fraction := Whole(s, start), Fraction(s, start);
    && pos <= |whole| + |fraction| && p == start + pos + (if dot >= 0 then 1 else 0)
    && (dot == -1 || (dot == |whole| && PointAt(s, start, start + |whole|)))
    && if dot == -1 then pos <= |whole| else pos >= |whole|
  }

  function Mantissa(s: string, start: nat): seq<Digit> {
    Whole(s, start) + Fraction(s, start)
  }

  /** The characters ahead: the point exactly when it is due, then a digit exactly while digits are left. */
  lemma Ahead(s: string, start: nat, p: nat, pos: nat, dot: int)
    requires Scanning(s, start, p, pos, dot)
    ensures dot == -1 ==> (PointAt(s, start, p) <==> pos == |Whole(s, start)| && PointAt(s, start, start + |Whole(s, start)|))
    ensures dot >= 0 && At(s, p) == '.' ==> pos == |Mantissa(s, start)|
    ensures dot == -1 && PointAt(s, start, p) ==> Scanning(s, start, p + 1, pos, pos)
    ensures dot >= 0 || !PointAt(s, start, p) ==>
      (IsDigit(At(s, p)) <==> pos < |Mantissa(s, start)|)
      && (pos < |Mantissa(s, start)| ==> ToDigit(At(s, p)) == Mantissa(s, start)[pos] && Scanning(s, start, p + 1, pos + 1, dot))
      && (pos == |Mantissa(s, start)| ==> p == MantissaEnd(s, start))
  {
    hide DigitsFrom, ToDigit;
    var w := |Whole(s, start)|;
    var i := start + w;
    DigitsFromAt(s, start, w);
    if pos < w {
      DigitsFromAt(s, start, pos);
    }
    if PointAt(s, start, i) {
      if pos >= w {
        DigitsFromAt(s, i + 1, pos - w);
      }
    }
  }

  /** The head of both loops: passes the point when it is due. */
  method PassPoint(s: string, start: nat, p: nat, pos: nat, dotPos: int) returns (p': nat, dotPos': int, stop: bool)
    requires Scanning(s, start, p, pos, dotPos)
    ensures Scanning(s, start, p', pos, dotPos')
    ensures stop ==> pos == |Mantissa(s, start)| && p' == MantissaEnd(s, start)
    ensures !stop ==> CanRead(s, start, p', pos, dotPos')
  {
    hide Whole, Fraction, MantissaEnd;
    p', dotPos', stop := p, dotPos, false;
    Ahead(s, start, p, pos, dotPos);
    if PointAt(s, start, p) {
      if dotPos >= 0 {
        ScanningBounds(s, start, p, pos, dotPos);
        stop := true;
      } else {
        dotPos' := pos;
        p' := p + 1;
        Ahead(s, start, p', pos, dotPos');
      }
    }
  }

  /** The next character is a digit exactly while digits are left. */
  ghost predicate CanRead(s: string, start: nat, p: nat, pos: nat, dot: int) {
    var all := Mantissa(s, start);
    && pos <= |all|
    && (ToDigit(At(s, p)) < 10 <==> pos < |all|)
    && (pos < |all| ==> ToDigit(At(s, p)) == all[pos] && Scanning(s, start, p + 1, pos + 1, dot))
    && (pos == |all| ==> p == MantissaEnd(s, start))
  }

  /** The scan reaches the end of the digits with the significant ones in `a`. */
  method ReadMantissa(a: Mpb, s: string, start: nat) returns (p: nat, digitCount: nat, expnOffset: int)
    requires a.Normal() && a.V() == 0 && a.tab.Length >= 52
    modifies a`len, a.tab
    ensures a.Normal() && p == MantissaEnd(s, start)
    ensures var all := Mantissa(s, start); var sig := Significant(all);
      && digitCount == (if |sig| <= MAX_DIGITS then |sig| else MAX_DIGITS) && a.V() == Dec(sig[..digitCount])
      && (sig != [] ==> expnOffset == |all| - |sig| + digitCount - |Whole(s, start)|)
  {
    hide Pow, Value, Scanning, Significant, Holds, Mantissa, Whole, MantissaEnd;
    var pos, dotPos := 0, -1;
    p, pos, dotPos := SkipZeros(s, start);
    var sigPos := pos;
    ghost var all := Mantissa(s, start);
    ghost var sig := Significant(all);
    HoldsNone();
    var limb: nat, count: nat := 0, 0;
    digitCount := 0;
    assert sig[..0] == [];
    while true
      invariant Scanning(s, start, p, pos, dotPos) && sigPos == |all| - |sig| <= pos <= |all|
      invariant a.Normal() && digitCount == (if pos - sigPos <= MAX_DIGITS then pos - sigPos else MAX_DIGITS)
      invariant Holds(a.V(), limb, count, sig[..digitCount]) && count < DIGITS_PER_LIMB_10
      decreases |all| - pos
    {
      var stop;
      p, dotPos, stop := PassPoint(s, start, p, pos, dotPos);
      if stop {
        break;
      }
      var c := ToDigit(At(s, p));
      if c >= 10 {
        break;
      }
      p := p + 1;
      pos := pos + 1;
      if digitCount < MAX_DIGITS {
        ghost var ds := sig[..digitCount];
        limb, count := AddDigit(a, limb, count, c, ds);
        digitCount := digitCount + 1;
        assert sig[..digitCount] == ds + [c];
      }
    }
    Flush(a, limb, count, sig[..digitCount]);
    ScanningBounds(s, start, p, pos, dotPos);
    if digitCount == 0 {
      expnOffset := 0;
    } else {
      if dotPos < 0 {
        dotPos := pos;
      }
      expnOffset := sigPos + digitCount - dotPos;
    }
  }

  lemma ScanningBounds(s: string, start: nat, p: nat, pos: nat, dot: int)
    requires Scanning(s, start, p, pos, dot)
    ensures pos <= |Mantissa(s, start)| && (dot == -1 || dot == |Whole(s, start)|)
    ensures dot == -1 && pos == |Mantissa(s, start)| ==> pos == |Whole(s, start)|
    ensures dot >= 0 && pos == |Mantissa(s, start)| ==> p == MantissaEnd(s, start)
  {}

  /** Leading zeros, on either side of the point. */
  method SkipZeros(s: string, start: nat) returns (p: nat, pos: nat, dotPos: int)
    ensures Scanning(s, start, p, pos, dotPos)
    ensures pos == |Mantissa(s, start)| - |Significant(Mantissa(s, start))|
  {
    hide Scanning, Significant, Mantissa, MantissaEnd;
    p, pos, dotPos := start, 0, -1;
    ScanStart(s, start);
    ghost var all := Mantissa(s, start);
    while true
      invariant Scanning(s, start, p, pos, dotPos) && pos <= |all|
      invariant forall i :: 0 <= i < pos ==> all[i] == 0
      decreases |all| - pos
    {
      var stop;
      p, dotPos, stop := PassPoint(s, start, p, pos, dotPos);
      if stop || At(s, p) != '0' {
        break;
      }
      p := p + 1;
      pos := pos + 1;
    }
    FirstSignificant(all, pos);
  }

  lemma ScanStart(s: string, start: nat)
    ensures Scanning(s, start, start, 0, -1)
  {}

  lemma FirstSignificant(ds: seq<Digit>, k: nat)
    requires k <= |ds| && (forall i :: 0 <= i < k ==> ds[i] == 0) && (k == |ds| || ds[k] != 0)
    ensures |ds| - |Significant(ds)| == k
  {
    var r := Significant(ds);
    if r != [] {
      assert r[0] == ds[|ds| - |r|];
    }
  }

  // ----- the exponent -----

  const EXPONENT_LIMIT := 214748363

  /** The digits of the exponent at `p`; beyond the limit only that it is large is remembered. */
  method ReadDigits(s: string, p: nat) returns (expn: nat, overflow: bool)
    requires DigitsFrom(s, p) != []
    ensures if overflow then Dec(DigitsFrom(s, p)) >= LARGE_EXPONENT else expn == Dec(DigitsFrom(s, p)) < LARGE_EXPONENT
  {
    hide DigitsFrom, Dec;
    ghost var ds := DigitsFrom(s, p);
    DigitsFromAt(s, p, 0);
    expn := ToDigit(At(s, p));
    overflow := false;
    var i := 1;
    DecSnoc(ds, 0);
    NoDigits(ds);
    while true
      invariant 1 <= i <= |ds|
      invariant if overflow then Dec(ds[..i]) >= LARGE_EXPONENT else expn == Dec(ds[..i]) < LARGE_EXPONENT
      decreases |ds| - i
    {
      DigitsFromAt(s, p, i);
      var c := ToDigit(At(s, p + i));
      if c >= 10 {
        break;
      }
      DecSnoc(ds, i);
      if !overflow {
        if expn > EXPONENT_LIMIT {
          overflow := true;
        } else {
          expn := expn * 10 + c;
        }
      }
      i := i + 1;
    }
    assert ds[..i] == ds;
  }

  lemma NoDigits(ds: seq<Digit>)
    ensures Dec(ds[..0]) == 0
  {
    assert ds[..0] == [];
  }

  // ----- the whole string -----

  /** `js_atod` with radix 10 and no flags, on any string shorter than 2^30 characters: correctly rounded exactly when
      the 32-bit exponent sum does not overflow; otherwise the largest numbers read as 0 and the smallest as infinity. */
  method JsAtod(s: string) returns (r: Parsed)
    requires |s| < 0x4000_0000
    ensures var start := SignLength(s, 0);
      if IsInfinity(s, start) then r == Float(At(s, 0) == '-', INFINITY_BITS)
      else match ReadNumeral(s)
        case None => r == NotANumber
        case Some(n) =>
          && r.Float? && r.negative == n.negative && (Reads(n, r) <==> ExponentFits(n))
          && (!ExponentFits(n) ==> r.bits == if KeptExponent(n) > 0 then 0 else INFINITY_BITS)
  {
    hide Pow, Value, Dec, Significant, IsRounded, DigitsFrom, Whole, Fraction, MantissaEnd, ReadExponent, ValueNum, ValueDen;
    var negative := At(s, 0) == '-';
    var start := SignLength(s, 0);
    if IsInfinity(s, start) {
      return Float(negative, INFINITY_BITS);
    }
    var a := new Mpb(52);
    var p, digitCount, expnOffset := ReadMantissa(a, s, start);
    if p == start {
      return NotANumber;
    }
    var ok, expn, overflow, expNegative := ReadExponentPart(s, p);
    if !ok {
      return NotANumber;
    }
    ghost var n := ReadNumeral(s).value;
    KeptPrefix(n);
    LengthBound(s, start);
    var bits := FinishNumeral(a, digitCount, expn, expnOffset, overflow, expNegative, n);
    r := Float(negative, bits);
  }

  lemma KeptPrefix(n: Numeral)
    ensures Kept(n) == Significant(n.whole + n.fraction)[..|Kept(n)|]
  {}

  /** The exponent part after the digits; a marker without digits is an error. */
  method ReadExponentPart(s: string, p: nat) returns (ok: bool, expn: int, overflow: bool, expNegative: bool)
    ensures ok == ReadExponent(s, p).Some?
    ensures ok ==> var x := ReadExponent(s, p).value;
      if overflow then (if expNegative then x <= -LARGE_EXPONENT else x >= LARGE_EXPONENT) else expn == x && !IsLarge(x)
  {
    hide Dec, DigitsFrom;
    ok, expn, overflow, expNegative := true, 0, false, false;
    if At(s, p) == 'e' || At(s, p) == 'E' {
      expNegative := At(s, p + 1) == '-';
      var q := p + 1 + SignLength(s, p + 1);
      DigitsFromAt(s, q, 0);
      if ToDigit(At(s, q)) >= 10 {
        ok := false;
        return;
      }
      var x;
      x, overflow := ReadDigits(s, q);
      expn := if expNegative then -(x as int) else x;
    }
  }

  lemma LengthBound(s: string, start: nat)
    requires start <= |s| || Whole(s, start) == []
    ensures |Whole(s, start)| <= |s| && |Fraction(s, start)| <= |s|
  {
    hide DigitsFrom;
  }

  /** The digits are read; the exponent is applied and the result rounded. */
  method FinishNumeral(a: Mpb, digitCount: nat, expn: int, expnOffset: int, overflow: bool, expNegative: bool, ghost n: Numeral)
      returns (bits: nat)
    requires a.Normal() && a.tab.Length >= 52 && digitCount == |Kept(n)| && a.V() == Dec(Kept(n))
    requires |n.whole| < 0x4000_0000 && |n.fraction| < 0x4000_0000
    requires digitCount != 0 ==>
      expnOffset == |n.whole + n.fraction| - |Significant(n.whole + n.fraction)| + digitCount - |n.whole|
    requires if overflow then (if expNegative then n.exponent <= -LARGE_EXPONENT else n.exponent >= LARGE_EXPONENT)
      else expn == n.exponent && !IsLarge(n.exponent)
    modifies a`len, a.tab
    ensures Reads(n, Float(n.negative, bits)) <==> ExponentFits(n)
    ensures !ExponentFits(n) ==> bits == if KeptExponent(n) > 0 then 0 else INFINITY_BITS
  {
    hide Pow, Value, Dec, Significant, ValueNum, ValueDen, Nearest, UnitsOf;
    if digitCount == 0 {
      return 0;
    }
    ghost var kept := Kept(n);
    FirstKept(n);
    DecBound(kept);
    if overflow {
      if expNegative {
        TooSmallDecimal(Dec(kept), digitCount, KeptExponent(n));
        bits := 0;
      } else {
        TooLargeDecimal(Dec(kept), digitCount, KeptExponent(n));
        bits := INFINITY_BITS;
      }
    } else {
      bits := RoundDecimal(a, digitCount, expn, expnOffset);
    }
  }

  lemma FirstKept(n: Numeral)
    ensures Kept(n) != [] ==> Kept(n)[0] != 0
    ensures |Kept(n)| <= MAX_DIGITS
  {
    hide Significant;
  }
}
