/** Rounding a float64 to a number of significant digits, and how few of them suffice to read it back. */
module Shortest {
  import opened Powers
  import opened Rounding
  import opened BigNumber
  import opened Scaling
  import opened Doubles
  import opened ToDouble
  import opened FloatRounding

  const P_MAX := 17

  predicate IsDecimal(mant: nat, prec: int) {
    prec >= 1 && Pow(10, prec - 1) <= mant < Pow(10, prec)
  }

  /** `mant * 10^f` is read back as the float64 `units`. */
  ghost predicate ReadsBack(mant: nat, f: int, units: nat) {
    Nearest(ValueNum(mant, 10, f), ValueDen(10, f)) == units
  }

  /** The normalised significand and exponent of a float64, as `js_dtoa` takes it apart. */
  predicate IsNormalised(m: nat, e: int) {
    Pow(2, 52) <= m < Pow(2, 53) && -1073 <= e <= 1024
  }

  /** `units` is a non-zero float64. */
  ghost predicate IsFloat(m: nat, e: int, units: nat) {
    IsNormalised(m, e) && Represents(m, e, units)
  }

  // ----- the value times a power of ten -----

  /** The value of `units` times `10^f` is `units * Tens(f)` over `Parts(f)`. */
  function Tens(f: int): (h: nat)
    ensures h > 0
  {
    Pow(10, Pos(f))
  }

  function Parts(f: int): (d: nat)
    ensures d > 0
  {
    MulPos(Pow(2, 1074), Pow(10, Pos(-f)));
    Pow(2, 1074) * Pow(10, Pos(-f))
  }

  function Times(units: nat, f: int): nat {
    MulPos(units, Tens(f));
    units * Tens(f)
  }

  /** The integer nearest to the value times `10^f`, ties going to the even one. */
  function RoundedAt(units: nat, f: int): nat {
    Round(Times(units, f), Parts(f), ToNearestEven)
  }

  lemma ValueParts(mant: nat, f: int)
    ensures ValueNum(mant, 10, -f) == mant * Parts(f) && ValueDen(10, -f) == Tens(f)
  {
    hide Pow;
    PowOne(2);
    Assoc(mant, Pow(2, 1074), Pow(10, Pos(-f)));
  }

  lemma ReadsBackAt(mant: nat, f: int, units: nat)
    ensures mant * Parts(f) >= 0
    ensures ReadsBack(mant, -f, units) <==> Nearest(mant * Parts(f), Tens(f)) == units
  {
    hide Nearest, Tens, Parts;
    MulPos(mant, Parts(f));
    ValueParts(mant, f);
  }

  /** One more power of ten. */
  lemma TenShift(f: int)
    ensures Tens(f + 1) * Parts(f) == 10 * Tens(f) * Parts(f + 1)
  {
    hide Pow;
    PowOne(10);
    if f >= 0 {
      PowAdd(10, 1, f);
    } else {
      PowAdd(10, 1, -f - 1);
      Assoc(10, Pow(10, -f - 1), Pow(2, 1074));
      assert Pow(2, 1074) * Pow(10, -f) == 10 * (Pow(2, 1074) * Pow(10, -f - 1)) by {
        Assoc(Pow(2, 1074), 10, Pow(10, -f - 1));
        Assoc(10, Pow(2, 1074), Pow(10, -f - 1));
      }
    }
  }

  lemma TimesTen(units: nat, f: int)
    ensures RoundedAt(units, f + 1) == Round(10 * Times(units, f), Parts(f), ToNearestEven)
  {
    hide Tens, Parts, Round;
    TenShift(f);
    var h, h', d, d' := Tens(f), Tens(f + 1), Parts(f), Parts(f + 1);
    Assoc(units, h', d);
    Assoc(units, 10 * h, d');
    Assoc(units, 10, h);
    assert units * 10 == 10 * units;
    Assoc(10, units, h);
    SameFraction(Times(units, f + 1), d', 10 * Times(units, f), d, ToNearestEven);
  }

  // ----- rounding -----

  lemma RoundUnique(num: nat, den: nat, k: nat)
    requires den > 0 && 2 * Abs(num - k * den) < den
    ensures Round(num, den, ToNearestEven) == k
  {
    hide Round;
    var r := Round(num, den, ToNearestEven);
    RoundIsNearest(num, den, k);
    if r < k {
      Multiple(r, k, den);
    } else if k < r {
      Multiple(k, r, den);
    }
  }

  /** Bounds on a rounded quotient. */
  lemma RoundBetween(v: nat, u: nat, low: nat, high: nat)
    requires u > 0
    ensures low * u <= v ==> low <= Round(v, u, ToNearestEven)
    ensures v <= high * u ==> Round(v, u, ToNearestEven) <= high
  {
    hide Round;
    var r := Round(v, u, ToNearestEven);
    RoundIsNearest(v, u, low);
    RoundIsNearest(v, u, high);
    if r < low {
      Multiple(r, low, u);
    }
    if r > high {
      Multiple(high, r, u);
    }
  }

  /** A number that rounds below `top`, even, is below it by more than half. */
  lemma RoundsBelow(v: nat, u: nat, top: nat)
    requires u > 0 && top % 2 == 0 && Round(v, u, ToNearestEven) < top
    ensures 2 * v < (2 * top - 1) * u
  {
    hide Round;
    var r := Round(v, u, ToNearestEven);
    RoundIsNearest(v, u, top);
    Multiple(r, top - 1, u);
    Distribute(u, top, 1);
    Distribute(u, 2 * top, 1);
    Assoc(2, top, u);
  }

  lemma RoundMono(num: nat, num': nat, den: nat)
    requires den > 0 && num <= num'
    ensures Round(num, den, ToNearestEven) <= Round(num', den, ToNearestEven)
  {
    var q: nat, r: nat, q': nat, r': nat := num / den, num % den, num' / den, num' % den;
    DivMod(num, den);
    DivMod(num', den);
    if q' < q {
      Multiple(q' + 1, q, den);
      Distribute(den, q', 1);
    }
  }

  lemma RoundedNext(units: nat, f: int)
    ensures RoundedAt(units, f) <= RoundedAt(units, f + 1)
    ensures 10 * RoundedAt(units, f) - 5 <= RoundedAt(units, f + 1) <= 10 * RoundedAt(units, f) + 5
  {
    hide Times, Parts, Round;
    var v, d := Times(units, f), Parts(f);
    var r := RoundedAt(units, f);
    TimesTen(units, f);
    RoundMono(v, 10 * v, d);
    RoundIsNearest(v, d, r);
    RoundIsNearest(10 * v, d, 0);
    NearTenfold(v, d, r, RoundedAt(units, f + 1));
  }

  lemma NearTenfold(v: nat, d: nat, r: nat, s: nat)
    requires d > 0 && 2 * Abs(v - r * d) <= d && 2 * Abs(10 * v - s * d) <= d
    ensures 10 * r - 5 <= s <= 10 * r + 5
  {
    Assoc(10, r, d);
    if s < 10 * r - 5 {
      Multiple(s, 10 * r - 6, d);
      Distribute(d, 10 * r, 6);
    } else if s > 10 * r + 5 {
      Multiple(10 * r + 6, s, d);
      Distribute(d, 10 * r, 6);
    }
  }

  lemma {:induction false} RoundedMono(units: nat, f: int, f': int)
    requires f <= f'
    ensures RoundedAt(units, f) <= RoundedAt(units, f')
    decreases f' - f
  {
    hide RoundedAt;
    if f < f' {
      RoundedMono(units, f, f' - 1);
      RoundedNext(units, f' - 1);
    }
  }

  /** Rounding again at a digit that is zero changes nothing. */
  lemma ZeroDropped(units: nat, f: int)
    requires RoundedAt(units, f) % 10 == 0
    ensures RoundedAt(units, f - 1) == RoundedAt(units, f) / 10
  {
    hide Times, Parts, Round;
    var v, d := Times(units, f - 1), Parts(f - 1);
    var k := RoundedAt(units, f) / 10;
    TimesTen(units, f - 1);
    RoundIsNearest(10 * v, d, 0);
    Assoc(10, k, d);
    RoundUnique(v, d, k);
  }

  // ----- significant digits -----

  /** Rounded to `p` significant digits the value is `mant * 10^-f`. When two exponents give that many digits, as
      just below a power of ten, the finer one counts. */
  ghost predicate RoundsTo(units: nat, p: int, mant: nat, f: int) {
    IsDecimal(mant, p) && mant == RoundedAt(units, f) && RoundedAt(units, f + 1) >= Pow(10, p)
  }

  lemma RoundsToOnce(units: nat, p: int, mant: nat, f: int, mant': nat, f': int)
    requires RoundsTo(units, p, mant, f) && RoundsTo(units, p, mant', f')
    ensures mant == mant' && f == f'
  {
    hide RoundedAt, Pow;
    if f < f' {
      RoundedMono(units, f + 1, f');
    } else if f' < f {
      RoundedMono(units, f' + 1, f);
    }
  }

  /** A trailing zero can go. */
  lemma RoundsToFewer(units: nat, p: int, mant: nat, f: int)
    requires RoundsTo(units, p, mant, f) && mant % 10 == 0
    ensures p >= 2 && RoundsTo(units, p - 1, mant / 10, f - 1) && mant / 10 < mant
  {
    hide RoundedAt;
    PowOne(10);
    ZeroDropped(units, f);
  }

  /** A trailing zero digit belongs to the exponent. */
  lemma DropZero(mant: nat, f: int, units: nat)
    requires mant % 10 == 0
    ensures ReadsBack(mant, f, units) == ReadsBack(mant / 10, f + 1, units)
  {
    hide Nearest, Tens, Parts, ReadsBack;
    var g: int, k: nat := -f, mant / 10;
    ReadsBackAt(mant, g, units);
    ReadsBackAt(k, g - 1, units);
    TenShift(g - 1);
    CrossZero(mant, k, Parts(g), Parts(g - 1), Tens(g), Tens(g - 1));
    NearestScaled(mant * Parts(g), Tens(g), k * Parts(g - 1), Tens(g - 1));
  }

  /** The same for any number of zeros. */
  lemma {:induction false} AppendZeros(mant: nat, f: int, k: nat, units: nat)
    ensures ReadsBack(mant * Pow(10, k), f - k, units) == ReadsBack(mant, f, units)
    decreases k
  {
    hide ReadsBack;
    if k == 0 {
      PowOne(10);
    } else {
      DropZero(mant * 10, f - 1, units);
      Assoc(mant, 10, Pow(10, k - 1));
      AppendZeros(mant * 10, f - 1, k - 1, units);
    }
  }

  lemma CrossZero(mant: nat, k: nat, d: nat, d': nat, h: nat, h': nat)
    requires mant == k * 10 && h * d' == 10 * h' * d
    ensures mant * d * h' == k * d' * h
  {
    Assoc(mant, d, h');
    Assoc(k, 10, d * h');
    Assoc(10, h', d);
    Assoc(k, d', h);
    assert h' * d == d * h' && h * d' == d' * h;
  }

  // ----- reading back -----

  lemma FloatIsDouble(m: nat, e: int, units: nat)
    requires IsFloat(m, e, units)
    ensures IsDouble(units) && units > 0
    ensures e >= -1021 ==> units == m * Pow(2, e + 1021)
    ensures e < -1021 ==> units < Pow(2, 52)
  {
    hide Pow;
    PowOne(2);
    if e >= -1021 {
      assert HasForm(units, m, e + 1021);
      MulPos(m, Pow(2, e + 1021));
    } else {
      PowMono(2, 1, -e - 1021);
      PowAdd(2, 52, 1);
      MulMono(2, Pow(2, -e - 1021), units);
      PowMonoStrict(2, 52, 53);
      assert HasForm(units, units, 0);
    }
  }

  lemma RoundedClose(units: nat, f: int)
    ensures 2 * Abs(Times(units, f) - RoundedAt(units, f) * Parts(f)) <= Parts(f)
  {
    hide Times, Parts, Round;
    RoundIsNearest(Times(units, f), Parts(f), 0);
  }

  /** Any number of digits that amounts to more than 2^53 reads back. */
  lemma ManyDigitsReadBack(m: nat, e: int, units: nat, f: int)
    requires IsFloat(m, e, units) && RoundedAt(units, f) > Pow(2, 53)
    ensures ReadsBack(RoundedAt(units, f), -f, units)
  {
    hide Pow, Nearest, Tens, Parts, IsDouble, IsFloat, RoundedAt;
    var mant, d := RoundedAt(units, f), Parts(f);
    FloatIsDouble(m, e, units);
    ReadsBackAt(mant, f, units);
    RoundedClose(units, f);
    Multiple(Pow(2, 53) + 1, mant, d);
    Distribute(d, Pow(2, 53), 1);
    NearestIfClose(mant * d, Tens(f), units, d);
  }

  /** The shortest of the roundings that read back, as far as all longer ones do too. */
  ghost predicate IsShortest(units: nat, mant: nat, prec: nat, exp10: int) {
    && 1 <= prec <= P_MAX && RoundsTo(units, prec, mant, prec - exp10)
    && AllReadBack(units, prec)
    && (prec == 1 || NoneReadsBack(units, prec - 1))
  }

  ghost predicate AllReadBack(units: nat, prec: nat) {
    forall p, c, f :: prec <= p <= P_MAX && RoundsTo(units, p, c, f) ==> ReadsBack(c, -f, units)
  }

  ghost predicate NoneReadsBack(units: nat, p: nat) {
    forall c, f :: RoundsTo(units, p, c, f) ==> !ReadsBack(c, -f, units)
  }

  ghost predicate CanRound(units: nat, p: nat) {
    exists c, f :: RoundsTo(units, p, c, f)
  }

  /** There is no choice. */
  lemma ShortestOnce(units: nat, mant: nat, prec: nat, exp10: int, mant': nat, prec': nat, exp10': int)
    requires IsShortest(units, mant, prec, exp10) && IsShortest(units, mant', prec', exp10')
    requires forall p: nat :: 1 <= p <= P_MAX ==> CanRound(units, p)
    ensures mant == mant' && prec == prec' && exp10 == exp10'
  {
    hide RoundsTo, AllReadBack, NoneReadsBack, CanRound;
    if prec' > 1 {
      NotShorter(units, prec, prec' - 1);
    }
    if prec > 1 {
      NotShorter(units, prec', prec - 1);
    }
    RoundsToOnce(units, prec, mant, prec - exp10, mant', prec' - exp10');
  }

  lemma NotShorter(units: nat, p: nat, q: nat)
    requires q <= P_MAX && AllReadBack(units, p) && NoneReadsBack(units, q) && CanRound(units, q)
    ensures q < p
  {
    hide RoundsTo, ReadsBack;
    var c, f :| RoundsTo(units, q, c, f);
    assert !ReadsBack(c, -f, units);
  }

  /** The last digit is not zero. */
  lemma ShortestIsStripped(units: nat, mant: nat, prec: nat, exp10: int)
    requires IsShortest(units, mant, prec, exp10)
    ensures mant % 10 != 0 && ReadsBack(mant, exp10 - prec, units)
  {
    hide RoundsTo, ReadsBack;
    assert ReadsBack(mant, exp10 - prec, units) by {
      assert RoundsTo(units, prec, mant, prec - exp10);
    }
    if mant % 10 == 0 {
      RoundsToFewer(units, prec, mant, prec - exp10);
      DropZero(mant, exp10 - prec, units);
    }
  }

  // ----- with one digit less -----

  /** Where the value times `10^f` rounds to `p` digits, `f` is the exponent of the rounding to `p` digits, or the
      one below it: then it rounds up to a power of ten. */
  lemma TwoExponents(units: nat, p: nat, f: int)
    requires IsDecimal(RoundedAt(units, f), p)
    ensures RoundsTo(units, p, RoundedAt(units, f), f)
      || (RoundsTo(units, p, RoundedAt(units, f + 1), f + 1) && RoundedAt(units, f) == Pow(10, p - 1))
  {
    hide RoundedAt, Pow;
    RoundedNext(units, f);
    RoundedNext(units, f + 1);
    PowAdd(10, 1, p - 1);
    PowAdd(10, 1, p);
    PowOne(10);
    if RoundedAt(units, f + 1) < Pow(10, p) {
      TopOfDecade(units, p, f);
      PowMono(10, 1, p);
    }
  }

  lemma TopOfDecade(units: nat, p: nat, f: int)
    requires p >= 1 && RoundedAt(units, f + 1) < Pow(10, p)
    ensures RoundedAt(units, f) <= Pow(10, p - 1)
  {
    hide Times, Parts, Round, Pow;
    var v, d := Times(units, f), Parts(f);
    TimesTen(units, f);
    PowAdd(10, 1, p - 1);
    PowOne(10);
    EvenPower(p);
    RoundsBelow(10 * v, d, Pow(10, p));
    Assoc(10, Pow(10, p - 1), d);
    Distribute(d, 2 * Pow(10, p), 1);
    Assoc(2, Pow(10, p), d);
    RoundBetween(v, d, 0, Pow(10, p - 1));
  }

  lemma EvenPower(p: nat)
    requires p >= 1
    ensures Pow(10, p) % 2 == 0
  {
    PowOne(10);
  }

  /** If the power of ten just above the value reads back, so does the rounding to `p` digits just below it. */
  lemma BelowPowerOfTen(m: nat, e: int, units: nat, p: nat, g: int)
    requires IsFloat(m, e, units) && p >= 1 && RoundsTo(units, p, RoundedAt(units, g), g)
    requires ReadsBack(Pow(10, p), -g, units)
    ensures ReadsBack(RoundedAt(units, g), -g, units)
  {
    hide Pow, Nearest, Tens, Parts, IsDouble, Represents, Times, Round;
    var c, low, d, h := Pow(10, p), RoundedAt(units, g), Parts(g), Tens(g);
    FloatIsDouble(m, e, units);
    EvenPower(p);
    RoundsBelow(Times(units, g), d, c);
    RoundedClose(units, g);
    ReadsBackAt(c, g, units);
    ReadsBackAt(low, g, units);
    TimesIs(units, g);
    if e >= -1021 {
      NextFloat(m, e, units);
      var step := Pow(2, e + 1021);
      NearestIsClosest(c * d, h, units + step);
      Distribute(h, units, step);
      MulPos(step, h);
      UpperHalf(c, d, units * h, step * h);
      MulMono(Pow(2, 52), m, step);
      MulMono(Pow(2, 52) * step, units, h);
      Assoc(Pow(2, 52), step, h);
      ManyIfClose(p, low, d, units * h, step * h);
      ManyDigitsReadBack(m, e, units, g);
    } else {
      SmallIsDouble(units + 1);
      NearestIsClosest(c * d, h, units + 1);
      Distribute(h, units, 1);
      UpperHalf(c, d, units * h, h);
      var r := Nearest(low * d, h);
      NearestIsClosest(low * d, h, units);
      Closest(low * d, r, units, h);
    }
  }

  lemma TimesIs(units: nat, f: int)
    ensures Times(units, f) == units * Tens(f)
  {}

  lemma NextFloat(m: nat, e: int, units: nat)
    requires IsFloat(m, e, units) && e >= -1021
    ensures units == m * Pow(2, e + 1021) && IsDouble(units + Pow(2, e + 1021))
  {
    hide Pow;
    PowOne(2);
    var step := Pow(2, e + 1021);
    Distribute(step, m, 1);
    if m + 1 < Pow(2, 53) {
      assert HasForm(units + step, m + 1, e + 1021);
    } else {
      PowAdd(2, 52, 1);
      PowAdd(2, 1, e + 1021);
      Assoc(Pow(2, 52), 2, step);
      PowMonoStrict(2, 52, 53);
      assert HasForm(units + step, Pow(2, 52), e + 1022);
    }
  }

  lemma SmallIsDouble(k: nat)
    requires k <= Pow(2, 52)
    ensures IsDouble(k)
  {
    hide Pow;
    PowOne(2);
    PowMonoStrict(2, 52, 53);
    assert HasForm(k, k, 0);
  }

  /** Between a value and the next one above it, closer to the lower one. */
  lemma UpperHalf(c: nat, d: nat, v: nat, gap: nat)
    requires 2 * v < (2 * c - 1) * d && d > 0 && gap > 0 && Abs(c * d - v) <= Abs(c * d - (v + gap))
    ensures d < 2 * (c * d - v) <= gap
  {
    Distribute(d, 2 * c, 1);
    Assoc(2, c, d);
  }

  lemma Closest(num: nat, r: nat, k: nat, h: nat)
    requires h > 0 && Abs(num - r * h) <= Abs(num - k * h) && 2 * Abs(num - k * h) < h
    ensures r == k
  {
    if r < k {
      Multiple(r, k, h);
    } else if k < r {
      Multiple(k, r, h);
    }
  }

  /** A power of ten that close above a float64 has so many digits that 2^53 is exceeded. */
  lemma ManyIfClose(p: nat, low: nat, d: nat, v: nat, gap: nat)
    requires d > 0 && d < 2 * (Pow(10, p) * d - v) <= gap && Pow(2, 52) * gap <= v && 2 * Abs(v - low * d) <= d
    ensures low > Pow(2, 53)
  {
    hide Pow;
    var c, k := Pow(10, p), 4503599627370496;
    BinaryLimits();
    // k * d < v < c * d, so c exceeds 10^15 and is at least 10^16
    Distribute(d, c, k);
    if c <= k {
      MulMono(c, k, d);
    }
    if p <= 15 {
      PowMono(10, p, 15);
    }
    PowMono(10, 16, p);
    if low <= 2 * k {
      MulMono(low, 2 * k, d);
      MulMono(10_000_000_000_000_000, c, d);
    }
  }

  lemma BinaryLimits()
    ensures Pow(2, 52) == 4503599627370496 && Pow(2, 53) == 9007199254740992
    ensures Pow(10, 15) == 1_000_000_000_000_000 && Pow(10, 16) == 10_000_000_000_000_000
  {
    hide Pow;
    Power52();
    assert Pow(10, 7) == 10_000_000 && Pow(10, 8) == 100_000_000 by { SmallTens(); }
    PowAdd(10, 8, 8);
    PowAdd(10, 8, 7);
  }

  lemma SmallTens()
    ensures Pow(10, 7) == 10_000_000 && Pow(10, 8) == 100_000_000
  {}

  /** With one digit less nothing reads back, whichever exponent is tried. */
  lemma NoShorter(m: nat, e: int, units: nat, mant: nat, prec: nat, exp10: int, f: int)
    requires IsFloat(m, e, units) && IsShortest(units, mant, prec, exp10) && prec > 1
    requires IsDecimal(RoundedAt(units, f), prec - 1)
    ensures !ReadsBack(RoundedAt(units, f), -f, units)
  {
    hide Pow, RoundedAt, ReadsBack, IsFloat;
    var p := prec - 1;
    TwoExponents(units, p, f);
    if !RoundsTo(units, p, RoundedAt(units, f), f) && ReadsBack(Pow(10, p - 1), -f, units) {
      PowAdd(10, 1, p - 1);
      PowOne(10);
      DropZero(Pow(10, p), -(f + 1), units);
      BelowPowerOfTen(m, e, units, p, f + 1);
    }
  }

  // ----- integers -----

  /** The value times `10^f` is the integer `c`. */
  ghost predicate ExactAt(units: nat, c: nat, f: int) {
    Times(units, f) == c * Parts(f)
  }

  lemma ExactRounds(units: nat, c: nat, f: int)
    requires ExactAt(units, c, f)
    ensures RoundedAt(units, f) == c
  {
    hide Times, Parts, Round;
    RoundUnique(Times(units, f), Parts(f), c);
  }

  lemma ExactNext(units: nat, c: nat, f: int)
    requires ExactAt(units, c, f)
    ensures ExactAt(units, 10 * c, f + 1)
  {
    hide Tens, Parts;
    TenShift(f);
    ExactShift(units, c, Tens(f), Tens(f + 1), Parts(f), Parts(f + 1));
  }

  lemma ExactShift(units: nat, c: nat, h: nat, h': nat, d: nat, d': nat)
    requires units * h == c * d && h' * d == 10 * h * d' && d > 0
    ensures units * h' == 10 * c * d'
  {
    // both sides times d
    Assoc(units, h', d);
    Assoc(10, h, d');
    Assoc(units, 10, h * d');
    Assoc(units, h, d');
    Assoc(c, d, d');
    Assoc(10, c, d');
    Assoc(10, c * d', d);
    Assoc(c, d', d);
    assert d' * d == d * d';
    assert units * 10 == 10 * units;
    Assoc(10, units, h * d');
    SameFactor(units * h', 10 * c * d', d);
  }

  lemma SameFactor(x: nat, y: nat, d: nat)
    requires x * d == y * d && d > 0
    ensures x == y
  {
    if x < y {
      MulMonoStrict(x, y, d);
    } else if y < x {
      MulMonoStrict(y, x, d);
    }
  }

  /** With at least as many digits as it has, an exact decimal reads back. */
  lemma {:induction false} ExactReadsBack(units: nat, prec: nat, mant: nat, f: int, p: nat)
    requires IsDouble(units) && prec <= p && IsDecimal(mant, prec) && ExactAt(units, mant, f)
    ensures CanRound(units, p)
    ensures forall c, g :: RoundsTo(units, p, c, g) ==> ReadsBack(c, -g, units)
    decreases p - prec
  {
    hide RoundedAt, ReadsBack, ExactAt, Pow;
    PowOne(10);
    ExactNext(units, mant, f);
    ExactRounds(units, mant, f);
    ExactRounds(units, 10 * mant, f + 1);
    PowAdd(10, 1, prec - 1);
    PowAdd(10, 1, prec);
    if prec < p {
      ExactReadsBack(units, prec + 1, 10 * mant, f + 1, p);
    } else {
      assert RoundsTo(units, p, mant, f);
      ExactReads(units, mant, f);
      forall c, g | RoundsTo(units, p, c, g) ensures ReadsBack(c, -g, units) {
        RoundsToOnce(units, p, c, g, mant, f);
      }
    }
  }

  lemma ExactReads(units: nat, c: nat, f: int)
    requires IsDouble(units) && ExactAt(units, c, f)
    ensures ReadsBack(c, -f, units)
  {
    hide Nearest, Tens, Parts, IsDouble;
    ReadsBackAt(c, f, units);
    NearestOfDouble(units, Tens(f));
  }

  lemma {:induction false} StripZeros(n: nat) returns (mant: nat, z: nat)
    requires n > 0
    ensures n == mant * Pow(10, z) && mant % 10 != 0
  {
    if n % 10 == 0 {
      mant, z := StripZeros(n / 10);
      Assoc(mant, Pow(10, z), 10);
      z := z + 1;
      Assoc(10, mant, Pow(10, z - 1));
      Assoc(mant, 10, Pow(10, z - 1));
    } else {
      mant, z := n, 0;
    }
  }

  lemma {:induction false} HasDecimals(n: nat) returns (p: nat)
    requires n > 0
    ensures IsDecimal(n, p)
  {
    PowOne(10);
    if n < 10 {
      p := 1;
    } else {
      p := HasDecimals(n / 10);
      p := p + 1;
    }
  }

  /** What the search finds for an integer below 2^53 are its digits up to the last that is not zero. */
  lemma IntegerShortest(m: nat, e: int, units: nat, n: nat) returns (mant: nat, z: nat, prec: nat)
    requires IsFloat(m, e, units) && units == n * Pow(2, 1074) && 0 < n < Pow(2, 53)
    ensures n == mant * Pow(10, z) && IsDecimal(mant, prec) && IsShortest(units, mant, prec, prec + z)
  {
    hide Pow, RoundedAt, ReadsBack, Tens, Parts, IsFloat, IsDouble;
    FloatIsDouble(m, e, units);
    mant, z := StripZeros(n);
    prec := HasDecimals(mant);
    IntegerExact(units, n, mant, z);
    FewDigits(n, mant, z, prec);
    IntegerRounds(units, mant, z, prec);
    forall p, c, f | prec <= p <= P_MAX && RoundsTo(units, p, c, f) ensures ReadsBack(c, -f, units) {
      ExactReadsBack(units, prec, mant, -(z as int), p);
    }
    if prec > 1 {
      var p: nat := prec - 1;
      forall c, f | RoundsTo(units, p, c, f) ensures !ReadsBack(c, -f, units) {
        FewerDoNotRead(units, n, mant, z, prec, c, f);
      }
    }
  }

  lemma IntegerExact(units: nat, n: nat, mant: nat, z: nat)
    requires units == n * Pow(2, 1074) && n == mant * Pow(10, z)
    ensures ExactAt(units, mant, -(z as int))
  {
    hide Pow;
    PowOne(10);
    Assoc(mant, Pow(10, z), Pow(2, 1074));
    assert Pow(10, z) * Pow(2, 1074) == Pow(2, 1074) * Pow(10, z);
  }

  lemma FewDigits(n: nat, mant: nat, z: nat, prec: nat)
    requires n == mant * Pow(10, z) && n < Pow(2, 53) && IsDecimal(mant, prec)
    ensures prec <= 16
  {
    hide Pow;
    BinaryLimits();
    MulMono(1, Pow(10, z), mant);
    if prec > 16 {
      PowMono(10, 16, prec - 1);
    }
  }

  lemma IntegerRounds(units: nat, mant: nat, z: nat, prec: nat)
    requires ExactAt(units, mant, -(z as int)) && IsDecimal(mant, prec)
    ensures RoundsTo(units, prec, mant, -(z as int)) && RoundedAt(units, -(z as int)) == mant
  {
    hide Pow, RoundedAt, ExactAt;
    ExactNext(units, mant, -(z as int));
    ExactRounds(units, mant, -(z as int));
    ExactRounds(units, 10 * mant, 1 - (z as int));
    PowAdd(10, 1, prec - 1);
    PowOne(10);
  }

  /** With fewer digits another integer comes out, which is a float64 itself. */
  lemma FewerDoNotRead(units: nat, n: nat, mant: nat, z: nat, prec: nat, c: nat, f: int)
    requires units == n * Pow(2, 1074) && n < Pow(2, 53) && n == mant * Pow(10, z) && mant % 10 != 0
    requires prec > 1 && IsDecimal(mant, prec) && RoundedAt(units, -(z as int)) == mant && RoundsTo(units, prec - 1, c, f)
    ensures !ReadsBack(c, -f, units)
  {
    hide Pow, RoundedAt, Nearest, Tens, Parts, IsDouble;
    if f >= -(z as int) {
      RoundedMono(units, -(z as int), f);
    }
    var k: nat := -f;
    var v := c * Pow(10, k);
    WholeParts(units, c, k);
    RoundedClose(units, f);
    PowMono(10, 0, prec - 2);
    PowOne(10);
    NotMuchMore(n, c, k, Pow(2, 1074));
    EvenPower(k);
    EvenProduct(c, Pow(10, k));
    EvenIsDouble(v);
    ReadsBackAt(c, f, units);
    NearestOfDouble(v * Pow(2, 1074), 1);
    DifferentMultiple(mant, z, c, k);
    NotEqual(v, n, Pow(2, 1074));
  }

  lemma WholeParts(units: nat, c: nat, k: nat)
    ensures Tens(-(k as int)) == 1 && Parts(-(k as int)) == Pow(2, 1074) * Pow(10, k) && Times(units, -(k as int)) == units
    ensures c * Parts(-(k as int)) == c * Pow(10, k) * Pow(2, 1074)
  {
    hide Pow;
    PowOne(10);
    Assoc(c, Pow(10, k), Pow(2, 1074));
    assert Pow(10, k) * Pow(2, 1074) == Pow(2, 1074) * Pow(10, k);
  }

  lemma NotMuchMore(n: nat, c: nat, k: nat, u: nat)
    requires u > 0 && c > 0 && 2 * Abs(n * u - c * Pow(10, k) * u) <= u * Pow(10, k) && n < Pow(2, 53)
    ensures c * Pow(10, k) < 2 * Pow(2, 53)
  {
    hide Pow;
    var v := c * Pow(10, k);
    MulMono(1, c, Pow(10, k));
    Distribute(u, n, v);
    AbsProduct(n - v, u);
    Assoc(2, Abs(n - v), u);
    assert u * Pow(10, k) == Pow(10, k) * u;
    if 2 * Abs(n - v) > Pow(10, k) {
      MulMonoStrict(Pow(10, k), 2 * Abs(n - v), u);
    }
  }

  lemma EvenProduct(c: nat, x: nat)
    requires x % 2 == 0
    ensures c * x % 2 == 0
  {
    var h := x / 2;
    Assoc(c, h, 2);
    DivUnique(c * x, 2, c * h, 0);
  }

  lemma EvenIsDouble(v: nat)
    requires v % 2 == 0 && v < 2 * Pow(2, 53)
    ensures IsDouble(v * Pow(2, 1074))
  {
    hide Pow;
    PowAdd(2, 1, 1074);
    PowOne(2);
    Assoc(v / 2, 2, Pow(2, 1074));
    assert HasForm(v * Pow(2, 1074), v / 2, 1075);
  }

  lemma DifferentMultiple(mant: nat, z: nat, c: nat, k: nat)
    requires mant % 10 != 0 && k > z
    ensures c * Pow(10, k) != mant * Pow(10, z)
  {
    hide Pow;
    if c * Pow(10, k) == mant * Pow(10, z) {
      PowAdd(10, 1, k - z - 1);
      PowAdd(10, k - z, z);
      PowOne(10);
      Assoc(c, Pow(10, k - z), Pow(10, z));
      SameFactor(c * Pow(10, k - z), mant, Pow(10, z));
      TenDivides(c, Pow(10, k - z - 1));
    }
  }

  lemma TenDivides(c: nat, x: nat)
    ensures c * (10 * x) % 10 == 0
  {
    Assoc(c, x, 10);
    assert 10 * x == x * 10;
    MulPos(c, x);
    DivUnique(c * x * 10, 10, c * x, 0);
  }

  lemma NotEqual(v: nat, n: nat, u: nat)
    requires v != n && u > 0
    ensures v * u != n * u
  {
    if v * u == n * u {
      SameFactor(v, n, u);
    }
  }
}
