/** The digit search of `js_dtoa`, radix 10, free format. */
module Dtoa {
  import opened Powers
  import opened Rounding
  import opened Limbs
  import opened BigNumber
  import opened PowerTables
  import opened Scaling
  import opened Doubles
  import opened ToDouble
  import opened Logarithm
  import opened FloatRounding
  import opened Shortest

  /** The estimate of the decimal exponent. */
  function Estimate(e: int): int {
    1 + MulLog2Ten(e - 1)
  }

  /** The integer nearest to `m * 2^(e - 53) * 10^f`. */
  function Digits(m: nat, e: int, f: int): nat {
    Round(ScaledNum(m, e - 53, 10, f), ScaledDen(e - 53, 10, f), ToNearestEven)
  }

  /** The float64 to `prec` significant digits; the estimate is corrected at most once. */
  method RoundToDigits(a: Mpb, m: nat, e: int, prec: nat) returns (mant: nat, exp10: int)
    requires a.Valid() && a.tab.Length >= 52 && IsNormalised(m, e) && 1 <= prec <= P_MAX
    modifies a`len, a.tab
    ensures a.Valid() && (exp10 == Estimate(e) || exp10 == Estimate(e) + 1)
    ensures mant == Digits(m, e, prec - exp10) && IsDecimal(mant, prec)
    ensures Digits(m, e, prec - exp10 + 1) >= Pow(10, prec)
  {
    hide Pow, Digits, Radix;
    var mantMax := PowUiTen(prec);
    exp10 := Estimate(e);
    EstimateRange(e);
    FirstDigits(m, e, prec);
    TenPowers(prec);
    RoomForDigits(e, prec, 0);
    mant := ScaleDigits(a, m, e, prec - exp10);
    if mant >= mantMax {
      exp10 := exp10 + 1;
      SecondDigits(m, e, prec);
      RoomForDigits(e, prec, 1);
      mant := ScaleDigits(a, m, e, prec - exp10);
    }
  }

  method PowUiTen(prec: nat) returns (r: nat)
    requires prec <= 17
    ensures r == Pow(10, prec)
  {
    hide Pow;
    TenPowers(prec);
    r := PowUi(10, prec);
  }

  lemma TenPowers(prec: nat)
    requires prec <= 17
    ensures 2 * Pow(10, prec) <= 200_000_000_000_000_000 < B * B && Pow(10, 16) == 10_000_000_000_000_000
  {
    PowMono(10, prec, 17);
    assert Pow(10, 8) == 100_000_000 && Pow(10, 9) == 1_000_000_000;
    PowAdd(10, 8, 9);
    PowAdd(10, 8, 8);
  }

  method ScaleDigits(a: Mpb, m: nat, e: int, f: int) returns (mant: nat)
    requires a.Valid() && IsNormalised(m, e) && 2 + RoundRoom(5, 1, f, e - 53) <= a.tab.Length
    requires Digits(m, e, f) < B * B
    modifies a`len, a.tab
    ensures a.Valid() && mant == Digits(m, e, f)
  {
    hide Pow, Radix;
    TenIsRadix();
    Power52();
    MulPowRound(a, m, e - 53, 5, 1, f, ToNearestEven);
    mant := a.GetU64();
  }

  lemma EstimateRange(e: int)
    requires -1073 <= e <= 1024
    ensures -323 <= Estimate(e) <= 308
  {}

  lemma RoomForDigits(e: int, prec: nat, up: nat)
    requires -1073 <= e <= 1024 && 1 <= prec <= 17 && up <= 1
    ensures 2 + RoundRoom(5, 1, prec - Estimate(e) - up, e - 53) <= 52
  {
    var f := prec - Estimate(e) - up;
    assert DigitsPerLimb(5) == 13;
    assert -309 <= f <= 340;
    if f >= 0 {
      assert e <= 60;
      assert (f + 12) / 13 <= 27;
    } else {
      var l := (-f + 12) / 13;
      assert 13 * l >= -f && l <= 24;
      assert 2 + (e - 53) - (-f + 32 * l) <= 31;
    }
  }

  // ----- one denominator for everything -----

  /** `2^1200 * 10^400`, a denominator for every value that occurs. */
  function Unit(): (u: nat)
    ensures u > 0
  {
    MulPos(Pow(2, 1200), Pow(10, 400));
    Pow(2, 1200) * Pow(10, 400)
  }

  /** `m * 2^(e - 53) * 10^f` times the unit. */
  function Scale(m: nat, e: int, f: int): nat
    requires e >= -1073 && f >= -400
  {
    MulPos(m, Pow(2, e - 53 + 1200));
    MulPos(m * Pow(2, e - 53 + 1200), Pow(10, f + 400));
    m * Pow(2, e - 53 + 1200) * Pow(10, f + 400)
  }

  lemma OffsetPower(b: nat, x: int, n: nat)
    requires x + n >= 0
    ensures Pow(b, Pos(x)) * Pow(b, n) == Pow(b, x + n) * Pow(b, Pos(-x))
  {
    hide Pow;
    PowAdd(b, Pos(x), n);
    PowAdd(b, x + n, Pos(-x));
  }

  /** A scaled number over a denominator that suits both powers. */
  lemma OffsetFraction(v: nat, e: int, f: int, n: nat, k: nat)
    requires e + n >= 0 && f + k >= 0
    ensures ScaledNum(v, e, 10, f) * (Pow(2, n) * Pow(10, k)) == (v * Pow(2, e + n) * Pow(10, f + k)) * ScaledDen(e, 10, f)
  {
    hide Pow;
    OffsetPower(2, e, n);
    OffsetPower(10, f, k);
    var p, q := Pow(2, Pos(e)), Pow(10, Pos(f));
    var p', q' := Pow(2, Pos(-e)), Pow(10, Pos(-f));
    var x, y := Pow(2, n), Pow(10, k);
    var z, w := Pow(2, e + n), Pow(10, f + k);
    Shuffle(v * p, q, x, y);
    Shuffle(v * z, w, p', q');
    Assoc(v, p, x);
    Assoc(v, z, p');
  }

  lemma DigitsOverUnit(m: nat, e: int, f: int)
    requires e >= -1073 && f >= -400
    ensures Digits(m, e, f) == Round(Scale(m, e, f), Unit(), ToNearestEven)
  {
    hide Pow, Round, ScaledNum, ScaledDen;
    OffsetFraction(m, e - 53, f, 1200, 400);
    SameFraction(ScaledNum(m, e - 53, 10, f), ScaledDen(e - 53, 10, f), Scale(m, e, f), Unit(), ToNearestEven);
  }

  lemma TenTimes(m: nat, e: int, f: int)
    requires e >= -1073 && f >= -399
    ensures Scale(m, e, f) == 10 * Scale(m, e, f - 1)
  {
    hide Pow;
    var c, p := m * Pow(2, e - 53 + 1200), Pow(10, f - 1 + 400);
    PowAdd(10, 1, f - 1 + 400);
    PowOne(10);
    Assoc(c, 10, p);
    Assoc(10, c, p);
    assert c * 10 == 10 * c;
  }

  // ----- the number of digits -----

  /** The estimate over the common denominator: `10^(estimate - 1) <= 2^(e - 1) < 10^estimate`. */
  lemma EstimateExact(e: int)
    requires -1073 <= e <= 1024
    ensures Estimate(e) - 1 + 400 >= 0
    ensures Pow(10, Estimate(e) - 1 + 400) * Pow(2, 1200) <= Pow(2, e - 1 + 1200) * Pow(10, 400)
    ensures Pow(2, e - 1 + 1200) * Pow(10, 400) < Pow(10, Estimate(e) + 400) * Pow(2, 1200)
  {
    hide Pow;
    EstimateRange(e);
    var a, k := e - 1, Estimate(e) - 1;
    Exact(a);
    PowOne(10);
    PowOne(2);
    OffsetPower(10, k, 400);
    OffsetPower(10, k + 1, 400);
    OffsetPower(2, a, 1200);
    if a >= 0 {
      PowAdd(2, a, 1200);
      PowAdd(10, k, 400);
      PowAdd(10, k + 1, 400);
      ScaledLess(Pow(10, k), Pow(2, a), Pow(10, 400), Pow(2, 1200));
      ScaledLess(Pow(2, a), Pow(10, k + 1), Pow(10, 400), Pow(2, 1200));
    } else {
      NegativeLess(-k, -a);
      if k + 1 < 0 {
        NegativeMore(-a, -k - 1);
      } else {
        PowMonoStrict(2, a + 1200, 1200);
        MulMonoStrict(Pow(2, a + 1200), Pow(2, 1200), Pow(10, 400));
      }
    }
  }

  lemma ScaledLess(x: nat, y: nat, c: nat, d: nat)
    requires c > 0 && d > 0
    ensures x <= y ==> (x * c) * d <= (y * d) * c
    ensures x < y ==> (x * d) * c < (y * c) * d
  {
    Assoc(x, c, d);
    Assoc(y, d, c);
    Assoc(x, d, c);
    Assoc(y, c, d);
    assert c * d == d * c;
    MulPos(c, d);
    if x <= y {
      MulMono(x, y, c * d);
    }
    if x < y {
      MulMonoStrict(x, y, c * d);
    }
  }

  lemma NegativeLess(k: nat, a: nat)
    requires 1 <= k <= 400 && a <= 1200 && Pow(2, a) <= Pow(10, k)
    ensures Pow(10, 400 - k) * Pow(2, 1200) <= Pow(2, 1200 - a) * Pow(10, 400)
  {
    hide Pow;
    PowAdd(10, 400 - k, k);
    PowAdd(2, 1200 - a, a);
    var x, y := Pow(10, 400 - k), Pow(2, 1200 - a);
    MulMono(Pow(2, a), Pow(10, k), x * y);
    Assoc(x, y, Pow(2, a));
    Assoc(y, x, Pow(10, k));
    assert x * y == y * x;
  }

  lemma NegativeMore(a: nat, k: nat)
    requires 1 <= k <= 400 && a <= 1200 && Pow(10, k) < Pow(2, a)
    ensures Pow(2, 1200 - a) * Pow(10, 400) < Pow(10, 400 - k) * Pow(2, 1200)
  {
    hide Pow;
    PowAdd(10, 400 - k, k);
    PowAdd(2, 1200 - a, a);
    var x, y := Pow(10, 400 - k), Pow(2, 1200 - a);
    MulPos(x, y);
    MulMonoStrict(Pow(10, k), Pow(2, a), x * y);
    Assoc(x, y, Pow(2, a));
    Assoc(y, x, Pow(10, k));
    assert x * y == y * x;
  }

  /** With the estimated exponent the number has `prec` digits, give or take one. */
  lemma EstimatedSize(m: nat, e: int, prec: nat)
    requires IsNormalised(m, e) && 1 <= prec <= P_MAX
    ensures -400 <= prec - Estimate(e)
    ensures Pow(10, prec - 1) * Unit() <= Scale(m, e, prec - Estimate(e)) < 2 * Pow(10, prec) * Unit()
  {
    hide Pow;
    EstimateRange(e);
    EstimateExact(e);
    var k := Estimate(e);
    var t, h := Pow(2, e - 1 + 1200), Pow(10, 400);
    var w := Pow(10, prec - k + 400);
    // m * 2^(e - 53) lies between 2^(e - 1) and twice that
    PowAdd(2, 52, e - 53 + 1200);
    PowAdd(2, 53, e - 53 + 1200);
    PowAdd(2, 1, e - 1 + 1200);
    PowOne(2);
    MulMono(Pow(2, 52), m, Pow(2, e - 53 + 1200));
    MulMonoStrict(m, Pow(2, 53), Pow(2, e - 53 + 1200));
    var c := m * Pow(2, e - 53 + 1200);
    MulMono(t, c, w);
    MulMonoStrict(c, 2 * t, w);
    Assoc(2, t, w);
    // the estimate, moved to the requested number of digits
    PowAdd(10, k - 1 + 400, prec - k + 400);
    PowAdd(10, prec - 1, 800);
    PowAdd(10, k + 400, prec - k + 400);
    PowAdd(10, prec, 800);
    PowAdd(10, 400, 400);
    Moved(Pow(10, k - 1 + 400), Pow(2, 1200), t, h, w, Pow(10, prec - 1));
    MovedStrict(t, h, Pow(10, k + 400), Pow(2, 1200), w, Pow(10, prec));
    Assoc(2, Pow(10, prec), Unit());
  }

  /** Cancels a common factor after moving the exponent. */
  lemma Moved(x: nat, y: nat, t: nat, h: nat, w: nat, p: nat)
    requires x * y <= t * h && h > 0 && x * w == p * (h * h)
    ensures p * (y * h) <= t * w
  {
    MulMono(x * y, t * h, w);
    SwapLast(x, y, w);
    SwapLast(t, h, w);
    Assoc(p, h * h, y);
    Assoc(h, h, y);
    Assoc(h, y, h);
    Assoc(p, y * h, h);
    assert h * y == y * h;
    assert (p * (y * h)) * h <= (t * w) * h;
    CancelLess(p * (y * h), t * w, h);
  }

  lemma MovedStrict(t: nat, h: nat, x: nat, y: nat, w: nat, p: nat)
    requires t * h < x * y && h > 0 && w > 0 && x * w == p * (h * h)
    ensures t * w < p * (y * h)
  {
    MulMonoStrict(t * h, x * y, w);
    SwapLast(x, y, w);
    SwapLast(t, h, w);
    Assoc(p, h * h, y);
    Assoc(h, h, y);
    Assoc(h, y, h);
    Assoc(p, y * h, h);
    assert h * y == y * h;
    assert (t * w) * h < (p * (y * h)) * h;
    CancelLessStrict(t * w, p * (y * h), h);
  }

  lemma CancelLess(a: nat, b: nat, h: nat)
    requires a * h <= b * h && h > 0
    ensures a <= b
  {
    if b < a {
      MulMonoStrict(b, a, h);
    }
  }

  lemma CancelLessStrict(a: nat, b: nat, h: nat)
    requires a * h < b * h
    ensures a < b
  {
    if b <= a {
      MulMono(b, a, h);
    }
  }

  lemma FirstDigits(m: nat, e: int, prec: nat)
    requires IsNormalised(m, e) && 1 <= prec <= P_MAX
    ensures Pow(10, prec - 1) <= Digits(m, e, prec - Estimate(e)) <= 2 * Pow(10, prec)
    ensures Digits(m, e, prec - Estimate(e) + 1) >= Pow(10, prec)
  {
    hide Pow, Digits, Scale, Unit, Round;
    EstimateRange(e);
    EstimatedSize(m, e, prec);
    var f := prec - Estimate(e);
    DigitsOverUnit(m, e, f);
    DigitsOverUnit(m, e, f + 1);
    TenTimes(m, e, f + 1);
    PowAdd(10, 1, prec - 1);
    PowOne(10);
    Assoc(10, Pow(10, prec - 1), Unit());
    RoundBetween(Scale(m, e, f), Unit(), Pow(10, prec - 1), 2 * Pow(10, prec));
    RoundBetween(Scale(m, e, f + 1), Unit(), Pow(10, prec), 0);
  }

  /** One digit too many: with the next exponent there are exactly `prec`. */
  lemma SecondDigits(m: nat, e: int, prec: nat)
    requires IsNormalised(m, e) && 1 <= prec <= P_MAX && Digits(m, e, prec - Estimate(e)) >= Pow(10, prec)
    ensures IsDecimal(Digits(m, e, prec - Estimate(e) - 1), prec)
  {
    hide Pow, Digits, Scale, Unit, Round;
    EstimateRange(e);
    EstimatedSize(m, e, prec);
    var f := prec - Estimate(e);
    DigitsOverUnit(m, e, f);
    DigitsOverUnit(m, e, f - 1);
    TenTimes(m, e, f);
    PowAdd(10, 1, prec - 1);
    PowOne(10);
    OneDigitLess(Scale(m, e, f - 1), Unit(), Pow(10, prec - 1));
  }

  lemma OneDigitLess(v: nat, u: nat, p: nat)
    requires u > 0 && p > 0 && 10 * v < 2 * (10 * p) * u && Round(10 * v, u, ToNearestEven) >= 10 * p
    ensures p <= Round(v, u, ToNearestEven) < 10 * p
  {
    hide Round;
    var r, s := Round(10 * v, u, ToNearestEven), Round(v, u, ToNearestEven);
    Assoc(2, 10 * p, u);
    Assoc(10, p, u);
    Assoc(2, p, u);
    RoundBetween(v, u, 0, 2 * p);
    RoundIsNearest(10 * v, u, r);
    RoundIsNearest(v, u, s);
    MulMono(10 * p, r, u);
    // 20 * v >= (20 * p - 1) * u, so s * u >= p * u - u / 20 - u / 2
    if s < p {
      Multiple(s, p, u);
    }
  }

  // ----- reading back -----

  /** The value of a float64 over the common denominator. */
  lemma UnitsOverUnit(m: nat, e: int, units: nat)
    requires Represents(m, e, units) && m != 0
    ensures m * Pow(2, e + 2221) == units * Pow(2, 1200)
  {
    hide Pow;
    OffsetPower(2, e + 1021, 1200);
    var p, q := Pow(2, Pos(e + 1021)), Pow(2, Pos(-e - 1021));
    var x, z := Pow(2, 1200), Pow(2, e + 2221);
    // m * p == units * q and p * x == z * q
    Assoc(m, p, x);
    SwapLast(units, q, x);
    Assoc(m, z, q);
    CancelEqual(m * z, units * x, q);
  }

  lemma CancelEqual(a: nat, b: nat, h: nat)
    requires a * h == b * h && h > 0
    ensures a == b
  {
    if a < b {
      MulMonoStrict(a, b, h);
    } else if b < a {
      MulMonoStrict(b, a, h);
    }
  }

  /** What `js_dtoa` rounds is the value of the float64. */
  lemma DigitsAreRounded(m: nat, e: int, units: nat, f: int)
    requires IsFloat(m, e, units)
    ensures Digits(m, e, f) == RoundedAt(units, f)
  {
    hide Pow, Round;
    MulPos(m, Pow(2, Pos(e - 53)));
    UnitsOverUnit(m, e, units);
    OffsetPower(2, e - 53, 2274);
    PowAdd(2, 1074, 1200);
    var h, k := Pow(10, Pos(f)), Pow(10, Pos(-f));
    SameValue(m, units, Pow(2, Pos(e - 53)), Pow(2, Pos(53 - e)), Pow(2, 1074), Pow(2, 1200), Pow(2, e + 2221));
    Shuffle(m * Pow(2, Pos(e - 53)), h, Pow(2, 1074), k);
    Shuffle(units, h, Pow(2, Pos(53 - e)), k);
    SameFraction(ScaledNum(m, e - 53, 10, f), ScaledDen(e - 53, 10, f), Times(units, f), Parts(f), ToNearestEven);
  }

  lemma SameValue(m: nat, units: nat, up: nat, down: nat, s: nat, t: nat, w: nat)
    requires up * (s * t) == w * down && m * w == units * t && t > 0
    ensures (m * up) * s == units * down
  {
    Assoc(m, w, down);
    Assoc(units, t, down);
    Assoc(units, down, t);
    assert t * down == down * t;
    Assoc(m, up, s * t);
    Assoc(m * up, s, t);
    CancelEqual(m * up * s, units * down, t);
  }

  /** Every non-zero float64 can be rounded to any number of digits up to seventeen. */
  lemma FloatsRound(m: nat, e: int, units: nat, p: nat)
    requires IsFloat(m, e, units) && 1 <= p <= P_MAX
    ensures CanRound(units, p)
  {
    hide Pow, Digits, RoundedAt, Represents;
    var f := p - Estimate(e);
    EstimateRange(e);
    FirstDigits(m, e, p);
    DigitsAreRounded(m, e, units, f + 1);
    DigitsAreRounded(m, e, units, f);
    DigitsAreRounded(m, e, units, f - 1);
    if Digits(m, e, f) < Pow(10, p) {
      assert RoundsTo(units, p, Digits(m, e, f), f);
    } else {
      SecondDigits(m, e, p);
      assert RoundsTo(units, p, Digits(m, e, f - 1), f - 1);
    }
  }

  /** A float64 has one normal form. */
  lemma NormalisedOnce(m: nat, e: int, m': nat, e': int, units: nat)
    requires IsFloat(m, e, units) && Represents(m', e', units)
    ensures m == m' && e == e'
  {
    hide Pow;
    FloatIsDouble(m, e, units);
    UnitsOverUnit(m, e, units);
    UnitsOverUnit(m', e', units);
    if e < e' {
      SmallerExponent(m, e, m', e');
    } else if e' < e {
      SmallerExponent(m', e', m, e);
    } else {
      CancelEqual(m, m', Pow(2, e + 2221));
    }
  }

  lemma SmallerExponent(m: nat, e: int, m': nat, e': int)
    requires m < Pow(2, 53) && Pow(2, 52) <= m' && -1073 <= e < e'
    ensures m * Pow(2, e + 2221) < m' * Pow(2, e' + 2221)
  {
    hide Pow;
    PowMono(2, e + 2222, e' + 2221);
    PowAdd(2, 53, e + 2221);
    PowAdd(2, 52, e + 2222);
    MulMonoStrict(m, Pow(2, 53), Pow(2, e + 2221));
    MulMono(Pow(2, 52), m', Pow(2, e' + 2221));
    MulMono(Pow(2, e + 2222), Pow(2, e' + 2221), Pow(2, 52));
  }

  // ----- the search -----

  /** What is known of the roundings between `low` and `high` digits: each reads back exactly if `ok`. */
  ghost predicate AllAlike(units: nat, low: nat, high: nat, ok: bool) {
    forall p, c, f :: low <= p <= high && RoundsTo(units, p, c, f) ==> ReadsBack(c, -f, units) == ok
  }

  lemma OneAlike(units: nat, p: nat, c: nat, f: int)
    requires RoundsTo(units, p, c, f)
    ensures AllAlike(units, p, p, ReadsBack(c, -f, units))
  {
    hide RoundsTo, ReadsBack;
    forall c', f' | RoundsTo(units, p, c', f') ensures ReadsBack(c', -f', units) == ReadsBack(c, -f, units) {
      RoundsToOnce(units, p, c, f, c', f');
    }
  }

  lemma AlikeBelow(units: nat, low: nat, high: nat, ok: bool)
    requires 1 <= low <= high && AllAlike(units, low, high, ok) && AllAlike(units, low - 1, low - 1, ok)
    ensures AllAlike(units, low - 1, high, ok)
  {
    hide RoundsTo, ReadsBack;
  }

  /** Drops trailing zero digits. */
  method DropZeros(mant0: nat, prec0: nat, exp10: int, ghost units: nat) returns (mant: nat, prec: nat)
    requires RoundsTo(units, prec0, mant0, prec0 - exp10)
    ensures 1 <= prec <= prec0 && RoundsTo(units, prec, mant, prec - exp10) && mant % 10 != 0
    ensures AllAlike(units, prec, prec0, ReadsBack(mant, exp10 - prec, units))
  {
    hide Pow, ReadsBack, RoundedAt, AllAlike;
    mant, prec := mant0, prec0;
    OneAlike(units, prec, mant, prec - exp10);
    while mant % 10 == 0
      invariant 1 <= prec <= prec0 && RoundsTo(units, prec, mant, prec - exp10)
      invariant AllAlike(units, prec, prec0, ReadsBack(mant, exp10 - prec, units))
      decreases mant
    {
      DropZero(mant, exp10 - prec, units);
      RoundsToFewer(units, prec, mant, prec - exp10);
      OneAlike(units, prec - 1, mant / 10, prec - 1 - exp10);
      AlikeBelow(units, prec, prec0, ReadsBack(mant, exp10 - prec, units));
      mant := mant / 10;
      prec := prec - 1;
    }
  }

  /** The free-format digits: the first try is not checked, the later ones are kept while they read back. */
  method FreeDigits(a: Mpb, m: nat, e: int, ghost units: nat) returns (mant: nat, prec: nat, exp10: int)
    requires a.Valid() && a.tab.Length >= 52 && IsFloat(m, e, units)
    modifies a`len, a.tab
    ensures a.Valid() && IsShortest(units, mant, prec, exp10)
    ensures -323 <= exp10 <= 309
  {
    hide Pow, Digits, Radix, ReadsBack, IsDouble, Represents, Nearest, ValueNum, ValueDen, RoundsTo, AllAlike, AllReadBack, NoneReadsBack;
    EstimateRange(e);
    mant, exp10 := FirstTry(a, m, e, units, P_MAX);
    SeventeenReadBack(m, e, units, mant, P_MAX - exp10);
    mant, prec := DropZeros(mant, P_MAX, exp10, units);
    SeventeenAlike(m, e, units, prec, ReadsBack(mant, exp10 - prec, units));
    var p := prec;
    while p != 1
      invariant a.Valid() && 1 <= p == prec <= P_MAX && RoundsTo(units, prec, mant, prec - exp10)
      invariant AllReadBack(units, prec) && -323 <= exp10 <= 309
      decreases p
    {
      p := p - 1;
      var mant', exp' := FirstTry(a, m, e, units, p);
      mant', p := DropZeros(mant', p, exp', units);
      RoundsToDecimal(units, p, mant', p - exp');
      var ok := Check(a, mant', p, exp', m, e, units);
      if !ok {
        NoneAlike(units, p, prec - 1);
        break;
      }
      MoreReadBack(units, p, prec);
      mant, prec, exp10 := mant', p, exp';
    }
  }

  lemma RoundsToDecimal(units: nat, p: int, mant: nat, f: int)
    requires RoundsTo(units, p, mant, f)
    ensures IsDecimal(mant, p)
  {}

  /** The digits before zeros are dropped. */
  method FirstTry(a: Mpb, m: nat, e: int, ghost units: nat, prec: nat) returns (mant: nat, exp10: int)
    requires a.Valid() && a.tab.Length >= 52 && IsFloat(m, e, units) && 1 <= prec <= P_MAX
    modifies a`len, a.tab
    ensures a.Valid() && (exp10 == Estimate(e) || exp10 == Estimate(e) + 1) && RoundsTo(units, prec, mant, prec - exp10)
  {
    hide Pow, Digits, RoundedAt, Represents;
    mant, exp10 := RoundToDigits(a, m, e, prec);
    DigitsAreRounded(m, e, units, prec - exp10);
    DigitsAreRounded(m, e, units, prec - exp10 + 1);
  }

  /** Seventeen digits always read back: 10^16 exceeds 2^53. */
  lemma SeventeenReadBack(m: nat, e: int, units: nat, mant: nat, f: int)
    requires IsFloat(m, e, units) && RoundsTo(units, P_MAX, mant, f)
    ensures ReadsBack(mant, -f, units)
  {
    hide Pow, RoundedAt, IsFloat;
    BinaryLimits();
    ManyDigitsReadBack(m, e, units, f);
  }

  lemma SeventeenAlike(m: nat, e: int, units: nat, prec: nat, ok: bool)
    requires IsFloat(m, e, units) && 1 <= prec <= P_MAX && AllAlike(units, prec, P_MAX, ok)
    ensures AllReadBack(units, prec)
  {
    hide RoundsTo, ReadsBack;
    FloatsRound(m, e, units, P_MAX);
    var c, f :| RoundsTo(units, P_MAX, c, f);
    SeventeenReadBack(m, e, units, c, f);
  }

  lemma NoneAlike(units: nat, p: nat, q: nat)
    requires p <= q && AllAlike(units, p, q, false)
    ensures NoneReadsBack(units, q)
  {
    hide RoundsTo, ReadsBack;
  }

  lemma MoreReadBack(units: nat, p: nat, prec: nat)
    requires p < prec && AllReadBack(units, prec) && AllAlike(units, p, prec - 1, true)
    ensures AllReadBack(units, p)
  {
    hide RoundsTo, ReadsBack;
  }

  /** Whether the shared rounding code reads the digits back. */
  method Check(a: Mpb, mant: nat, prec: nat, exp10: int, m: nat, e: int, ghost units: nat) returns (ok: bool)
    requires a.Valid() && a.tab.Length >= 52 && IsDecimal(mant, prec) && prec <= P_MAX && -323 <= exp10 <= 309
    requires IsFloat(m, e, units)
    modifies a`len, a.tab
    ensures a.Valid() && ok == ReadsBack(mant, exp10 - prec, units)
  {
    hide Pow, Radix, Represents, Nearest, ValueNum, ValueDen, Room;
    TenIsRadix();
    TenPowers(prec);
    a.SetU64(mant);
    TwoLimbsAtMost(a);
    DecimalInRange(mant, prec, exp10 - prec);
    RoomForDecimal(exp10 - prec);
    var m1, e1 := MulPowRoundToD(a, 5, 1, exp10 - prec);
    ok := m1 == m && e1 == e;
    ghost var read := Nearest(ValueNum(mant, 10, exp10 - prec), ValueDen(10, exp10 - prec));
    if ok {
      RepresentsOnce(m, e, units, read);
    } else if read == units {
      NormalisedOnce(m, e, m1, e1, units);
    }
  }

  lemma RepresentsOnce(m: nat, e: int, units: nat, units': nat)
    requires IsFloat(m, e, units) && Represents(m, e, units')
    ensures units == units'
  {
    CancelEqual(units, units', Pow(2, Pos(-e - 1021)));
  }
}
