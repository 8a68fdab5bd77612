/** The numeric half of `js_atod` for radix 10: an integer times a power of ten to the bits of a float64. */
module FloatRounding {
  import opened Powers
  import opened Rounding
  import opened Limbs
  import opened BigNumber
  import opened PowerTables
  import opened Scaling
  import opened Doubles
  import opened ToDouble
  import opened Logarithm

  // ----- scaling and rounding to a float64 -----

  /** `v * radix^f` in units of 2^-1074. */
  function ValueNum(v: nat, radix: nat, f: int): nat {
    ScaledNum(v, 1074, radix, f)
  }

  function ValueDen(radix: nat, f: int): (d: nat)
    requires radix > 0
    ensures d > 0
  {
    ScaledDen(1074, radix, f)
  }

  /** `mul_pow_round_to_d`: the float64 nearest to `a * radix^f`, for values that are not absurdly small. */
  method MulPowRoundToD(a: Mpb, radix1: nat, radixShift: nat, f: int) returns (m: nat, e: int)
    requires a.Normal() && a.V() > 0 && (radix1 == 1 || OddRadix(radix1))
    requires a.len + Room(radix1, radixShift, f, false, 55) + 2 <= a.tab.Length
    requires var radix := Radix(radix1, radixShift); ValueDen(radix, f) <= ValueNum(a.V(), radix, f) * 2048
    modifies a`len, a.tab
    ensures a.Normal()
    ensures var radix := Radix(radix1, radixShift);
      Represents(m, e, Nearest(ValueNum(old(a.V()), radix, f), ValueDen(radix, f)))
  {
    hide Pow, BitLength, Value, Scaled, Nearest, ValueNum, ValueDen, Radix, Room, Represents, UnitsNum, UnitsDen, Approximates;
    ghost var v := a.V();
    var offset;
    ghost var bits;
    offset, bits := MulPow(a, radix1, radixShift, f, false, 55);
    ghost var num, den := v * Pow(radix1, Pos(f)) * Pow(2, bits), Pow(radix1, Pos(-f));
    SameUnits(v, radix1, radixShift, f, bits, a.V());
    NotTooSmall(v, radix1, radixShift, f, bits, a.V());
    m, e := RoundToD(a, offset, num, den);
    NearestScaled(UnitsNum(num, offset), UnitsDen(den, offset), ValueNum(v, Radix(radix1, radixShift), f), ValueDen(Radix(radix1, radixShift), f));
  }

  lemma SameUnits(v: nat, radix1: nat, radixShift: nat, f: int, bits: nat, result: nat)
    requires radix1 > 0 && Scaled(v, radix1, f, bits, result) && result > 0
    requires f >= 0 || radix1 == 1 || result >= Pow(2, 55)
    ensures var radix := Radix(radix1, radixShift); var offset := -f * radixShift + bits;
      var num, den := v * Pow(radix1, Pos(f)) * Pow(2, bits), Pow(radix1, Pos(-f));
      && Approximates(result, num, den)
      && UnitsNum(num, offset) * ValueDen(radix, f) == ValueNum(v, radix, f) * UnitsDen(den, offset)
  {
    hide Pow, Radix;
    var offset := -f * radixShift + bits;
    var u, q := v * Pow(radix1, Pos(f)), Pow(radix1, Pos(-f));
    FractionFactors(v, radix1, radixShift, 1074, f);
    PowOne(radix1);
    if f < 0 {
      if radix1 == 1 {
        PowOfOne(-f);
      }
    }
    Exponents(1074, f, radixShift, bits);
    var i, j := Pos(1074 - offset), Pos(offset - 1074);
    var a, b := 1074 + radixShift * Pos(f), radixShift * Pos(-f);
    PowAdd(2, bits, i);
    Assoc(u, Pow(2, bits), Pow(2, i));
    Cross(u, q, bits + i, b, a, j);
  }

  lemma NotTooSmall(v: nat, radix1: nat, radixShift: nat, f: int, bits: nat, result: nat)
    requires radix1 > 0
    requires var offset := -f * radixShift + bits; var radix := Radix(radix1, radixShift);
      var num, den := v * Pow(radix1, Pos(f)) * Pow(2, bits), Pow(radix1, Pos(-f));
      && Approximates(result, num, den)
      && UnitsNum(num, offset) * ValueDen(radix, f) == ValueNum(v, radix, f) * UnitsDen(den, offset)
      && ValueDen(radix, f) <= ValueNum(v, radix, f) * 2048
    ensures BitLength(result) - (-f * radixShift + bits) >= -1084
  {
    hide Pow, BitLength, Radix, ValueNum, ValueDen, Approximates, UnitsNum, UnitsDen;
    var offset := -f * radixShift + bits;
    var num, den := v * Pow(radix1, Pos(f)) * Pow(2, bits), Pow(radix1, Pos(-f));
    ApproximationPositive(result, num, den);
    if BitLength(result) - offset < -1084 {
      TinyUnits(result, num, den, offset);
      CrossLess(UnitsNum(num, offset), UnitsDen(den, offset), ValueNum(v, Radix(radix1, radixShift), f), ValueDen(Radix(radix1, radixShift), f));
    }
  }

  lemma TinyUnits(v: nat, num: nat, den: nat, offset: int)
    requires Approximates(v, num, den) && BitLength(v) - offset < -1084
    ensures den > 0 && UnitsNum(num, offset) * 2048 < UnitsDen(den, offset)
  {
    hide Pow, BitLength, Approximates;
    ApproximationPositive(v, num, den);
    Binade(v, num, den);
    var l, j := BitLength(v), offset - 1074;
    PowOne(2);
    PowAdd(2, 11, l);
    EleventhPower();
    PowMono(2, 11 + l, j);
    MulMono(Pow(2, 11 + l), Pow(2, j), den);
    Assoc(2048, Pow(2, l), den);
  }

  lemma EleventhPower()
    ensures Pow(2, 11) == 2048
  {}

  lemma CrossLess(n: nat, d: nat, n': nat, d': nat)
    requires n * d' == n' * d && n * 2048 < d && d' > 0
    ensures n' * 2048 < d'
  {
    if n' * 2048 >= d' {
      MulMono(d', n' * 2048, d);
      MulMonoStrict(n * 2048, d, d');
      Assoc(n', 2048, d);
      Assoc(n', d, 2048);
      Assoc(n, 2048, d');
      Assoc(n, d', 2048);
    }
  }

  // ----- the bits of a float64 -----

  const INFINITY_BITS := 0x7ff0_0000_0000_0000
  const TWO52 := 0x10_0000_0000_0000

  /** The finite value of a bit pattern without sign, in units of 2^-1074. */
  function UnitsOf(bits: nat): nat {
    var field, fraction := bits / TWO52, bits % TWO52;
    if field == 0 then fraction
    else
      MulPos(TWO52 + fraction, Pow(2, field - 1));
      (TWO52 + fraction) * Pow(2, field - 1)
  }

  /** The bits of the float64 nearest to the fraction, infinity from 2^1024 on. */
  ghost predicate IsRounded(bits: nat, num: nat, den: nat)
    requires den > 0
  {
    if Nearest(num, den) >= Pow(2, 2098) then bits == INFINITY_BITS
    else bits < INFINITY_BITS && UnitsOf(bits) == Nearest(num, den)
  }

  /** The end of `js_atod`: the fields of the result. */
  method Pack(m: nat, e: int, ghost units: nat) returns (bits: nat)
    requires Represents(m, e, units)
    ensures if units >= Pow(2, 2098) then bits == INFINITY_BITS else bits < INFINITY_BITS && UnitsOf(bits) == units
  {
    hide Pow;
    Power52();
    FieldRange(m, e, units);
    bits := 0;
    if m == 0 {
    } else if e > 1024 {
      bits := INFINITY_BITS;
    } else if e < -1073 {
      // the source returns zero here, but a non-zero result never has so small an exponent
      assert false;
    } else if e < -1021 {
      bits := m / Pow(2, -e - 1021);
    } else {
      bits := (e + 1022) * TWO52 + m % TWO52;
    }
  }

  lemma Power52()
    ensures Pow(2, 52) == TWO52 && Pow(2, 53) == 2 * TWO52
  {
    PowAdd(2, 26, 26);
    PowAdd(2, 13, 13);
    assert Pow(2, 13) == 8192;
    PowAdd(2, 52, 1);
    PowOne(2);
  }

  lemma FieldRange(m: nat, e: int, units: nat)
    requires Represents(m, e, units)
    ensures m == 0 ==> units == 0 < Pow(2, 2098) && UnitsOf(0) == 0
    ensures m != 0 && e > 1024 ==> units >= Pow(2, 2098)
    ensures m != 0 && -1021 <= e <= 1024 ==>
      units < Pow(2, 2098) && var bits := (e + 1022) * TWO52 + m % TWO52; bits < INFINITY_BITS && UnitsOf(bits) == units
    ensures m != 0 && e < -1021 ==>
      units < Pow(2, 2098) && var bits := m / Pow(2, -e - 1021); bits < INFINITY_BITS && UnitsOf(bits) == units
  {
    hide Pow;
    Power52();
    PowOne(2);
    if m == 0 {
    } else if e >= -1021 {
      PowAdd(2, 52, 2046);
      PowAdd(2, 53, 2045);
      if e > 1024 {
        PowMono(2, 2046, e + 1021);
        MulMono(TWO52, m, Pow(2, e + 1021));
        MulMono(Pow(2, 2046), Pow(2, e + 1021), TWO52);
      } else {
        PowMono(2, e + 1021, 2045);
        MulMonoStrict(m, 2 * TWO52, Pow(2, e + 1021));
        MulMono(Pow(2, e + 1021), Pow(2, 2045), 2 * TWO52);
        DivUnique((e + 1022) * TWO52 + m % TWO52, TWO52, e + 1022, m % TWO52);
        assert m == TWO52 + m % TWO52;
      }
    } else {
      var k := -e - 1021;
      PowMono(2, 1, k);
      MulMono(2, Pow(2, k), units);
      DivUnique(m, Pow(2, k), units, 0);
      PowMonoStrict(2, 52, 2098);
      DivUnique(units, TWO52, 0, units);
    }
  }

  // ----- decimal limits -----

  lemma TenIsRadix()
    ensures Radix(5, 1) == 10
  {
    PowOne(2);
  }

  lemma DecimalLimits()
    ensures Pow(2, 1024) <= Pow(10, 309) && Pow(2, 1075) <= Pow(10, 324) <= Pow(2, 1085) && Pow(10, 38) < Pow(2, 128)
  {
    hide Pow;
    TwosBelow(1024, 309);
    TwosBelow(1075, 324);
    TensBelow(324, 1085);
    TensBelow(38, 128);
  }

  /** 32-bit signed arithmetic, wrapping around. */
  function Wrap32(x: int): int {
    (x + 0x8000_0000) % 0x1_0000_0000 - 0x8000_0000
  }

  predicate IsInt32(x: int) {
    -0x8000_0000 <= x < 0x8000_0000
  }

  /** How far outside the range the sums below can get. */
  predicate IsNear(x: int) {
    -0xd000_0000 <= x <= 0xd000_0000
  }

  lemma Wraps(x: int)
    requires IsNear(x)
    ensures Wrap32(x) == if x < -0x8000_0000 then x + 0x1_0000_0000 else if x < 0x8000_0000 then x else x - 0x1_0000_0000
  {}

  /** Wrapping twice is wrapping once. */
  lemma WrapsOnce(x: int, d: nat)
    requires IsNear(x) && IsNear(x + d) && d <= 38
    ensures Wrap32(Wrap32(x) + d) == Wrap32(x + d)
  {
    Wraps(x);
    Wraps(x + d);
    if IsNear(Wrap32(x) + d) {
      Wraps(Wrap32(x) + d);
    }
  }

  /** `js_atod` once the digits are read: `digitCount` significant digits in `a`, the exponent that was written and
      the correction for the position of the point. The sums are 32-bit: the result is the correctly rounded one
      exactly when their mathematical value is a 32-bit integer. */
  method RoundDecimal(a: Mpb, digitCount: nat, written: int, expnOffset: int) returns (bits: nat)
    requires a.Normal() && a.tab.Length >= 52 && 1 <= digitCount <= 38
    requires Pow(10, digitCount - 1) <= a.V() < Pow(10, digitCount)
    requires IsNear(written - expnOffset) && IsNear(written - expnOffset + digitCount)
    modifies a`len, a.tab
    ensures var expn := written - expnOffset;
      && (IsRounded(bits, ValueNum(old(a.V()), 10, expn), ValueDen(10, expn)) <==> IsInt32(expn + digitCount))
      && (!IsInt32(expn + digitCount) ==> bits == if expn > 0 then 0 else INFINITY_BITS)
  {
    hide Pow, Value, Nearest, ValueNum, ValueDen, Radix, Room, Represents, UnitsOf, Wrap32;
    ghost var v, exact := a.V(), written - expnOffset;
    Wraps(exact);
    WrapsOnce(exact, digitCount);
    Wraps(exact + digitCount);
    if exact + digitCount >= 310 {
      TooLargeDecimal(v, digitCount, exact);
    } else if exact + digitCount <= -324 {
      TooSmallDecimal(v, digitCount, exact);
    }
    var expn := Wrap32(written - expnOffset);
    var expn1 := Wrap32(expn + digitCount);
    if expn1 >= 309 + 1 {
      bits := INFINITY_BITS;
    } else if expn1 <= -324 {
      bits := 0;
    } else {
      TenIsRadix();
      DecimalInRange(v, digitCount, expn);
      FewLimbs(a, digitCount);
      RoomForDecimal(expn);
      var m, e := MulPowRoundToD(a, 5, 1, expn);
      bits := Pack(m, e, Nearest(ValueNum(v, 10, expn), ValueDen(10, expn)));
    }
  }

  lemma FewLimbs(a: Mpb, digitCount: nat)
    requires a.Normal() && a.V() < Pow(10, digitCount) && digitCount <= 38
    ensures a.len <= 4
  {
    hide Pow, Value;
    NormalSize(a.tab[..a.len]);
    PowMono(10, digitCount, 38);
    DecimalLimits();
    PowBase(4);
    if a.len > 4 {
      PowMono(B, 4, a.len - 1);
    }
  }

  lemma RoomForDecimal(expn: int)
    requires -362 <= expn <= 308
    ensures Room(5, 1, expn, false, 55) <= 31
  {
    assert DigitsPerLimb(5) == 13;
    if expn >= 0 {
      assert (expn + 12) / 13 <= 24;
    } else {
      assert (-expn + 12) / 13 <= 28;
    }
  }

  /** A fraction at least as large as a float64 rounds to one at least as large. */
  lemma NearestAtLeast(num: nat, den: nat, z: nat)
    requires den > 0 && IsDouble(z) && z * den <= num
    ensures Nearest(num, den) >= z
  {
    hide Nearest, IsDouble;
    NearestIsClosest(num, den, z);
    var r := Nearest(num, den);
    if r < z {
      Multiple(r, z, den);
    }
  }

  lemma TooLargeDecimal(v: nat, digitCount: nat, expn: int)
    requires 1 <= digitCount <= 38 && Pow(10, digitCount - 1) <= v && expn + digitCount >= 310
    ensures Nearest(ValueNum(v, 10, expn), ValueDen(10, expn)) >= Pow(2, 2098)
  {
    hide Pow, Nearest, IsDouble, ValueNum, ValueDen;
    DecimalLimits();
    PowMono(10, 309, digitCount - 1 + expn);
    PowAdd(10, digitCount - 1, expn);
    PowAdd(2, 1024, 1074);
    LargeProduct(v, Pow(10, digitCount - 1), Pow(10, expn), Pow(2, 1074), Pow(2, 1024));
    ValueOfLarge(v, expn);
    LimitIsDouble();
    NearestAtLeast(ValueNum(v, 10, expn), ValueDen(10, expn), Pow(2, 2098));
  }

  lemma LargeProduct(v: nat, a: nat, x: nat, unit: nat, top: nat)
    requires a <= v && top <= a * x
    ensures top * unit <= v * unit * x
  {
    MulPos(v, x);
    MulMono(a, v, x);
    MulMono(top, v * x, unit);
    SwapLast(v, x, unit);
  }

  lemma ValueOfLarge(v: nat, expn: nat)
    ensures ValueNum(v, 10, expn) == v * Pow(2, 1074) * Pow(10, expn) && ValueDen(10, expn) == 1
  {
    hide Pow;
    PowOne(10);
    PowOne(2);
  }

  lemma LimitIsDouble()
    ensures IsDouble(Pow(2, 2098))
  {
    hide Pow;
    PowMonoStrict(2, 0, 53);
    PowOne(2);
    assert HasForm(Pow(2, 2098), 1, 2098);
  }

  lemma TooSmallDecimal(v: nat, digitCount: nat, expn: int)
    requires v < Pow(10, digitCount) && expn + digitCount <= -324
    ensures Nearest(ValueNum(v, 10, expn), ValueDen(10, expn)) == 0 && UnitsOf(0) == 0 < Pow(2, 2098)
  {
    hide Pow, Nearest;
    DecimalLimits();
    PowOne(10);
    PowOne(2);
    PowAdd(2, 1, 1074);
    MulMonoStrict(v, Pow(10, digitCount), Pow(2, 1075));
    MulMono(Pow(2, 1075), Pow(10, 324), Pow(10, digitCount));
    PowAdd(10, digitCount, 324);
    PowMono(10, digitCount + 324, -expn);
    Assoc(v, 2, Pow(2, 1074));
    assert v * 2 * Pow(2, 1074) == 2 * (v * Pow(2, 1074)) by { Assoc(2, v, Pow(2, 1074)); }
    NearestOfTiny(ValueNum(v, 10, expn), ValueDen(10, expn));
  }

  lemma DecimalInRange(v: nat, digitCount: nat, expn: int)
    requires digitCount >= 1 && Pow(10, digitCount - 1) <= v && expn + digitCount >= -323
    ensures v > 0 && ValueDen(10, expn) <= ValueNum(v, 10, expn) * 2048
  {
    hide Pow;
    DecimalLimits();
    PowOne(10);
    PowOne(2);
    if expn >= 0 {
      MulPos(v, Pow(2, 1074));
      MulPos(v * Pow(2, 1074), Pow(10, expn));
    } else {
      PowAdd(10, digitCount - 1, 324);
      PowMono(10, -expn, digitCount - 1 + 324);
      MulMono(Pow(10, 324), Pow(2, 1085), Pow(10, digitCount - 1));
      MulMono(Pow(10, digitCount - 1), v, Pow(2, 1085));
      PowAdd(2, 1074, 11);
      EleventhPower();
      Assoc(v, Pow(2, 1074), 2048);
    }
  }
}
