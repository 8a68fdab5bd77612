/** ECMA-262 asks for as few digits as possible. The search rounds to nearest at each length, which finds them except
    for some powers of two: their lower neighbour is only half as far away as the upper one, so that a decimal a little
    farther above can be read back when the nearest one, below, is not. */
module MinimalDigits {
  import opened Powers
  import opened Rounding
  import opened BigNumber
  import opened Doubles
  import opened ToDouble
  import opened FloatRounding
  import opened Shortest
  import opened Dtoa

  // ----- neighbours -----

  /** The neighbours on both sides are equally far away. */
  predicate Symmetric(m: nat, e: int) {
    m != Pow(2, 52) || e <= -1021
  }

  /** The distance of the next float64 above. */
  function Gap(e: int): (g: nat)
    ensures g > 0
  {
    Pow(2, Pos(e + 1021))
  }

  /** The distance of the next one below. */
  function LowerGap(m: nat, e: int): (g: nat)
    ensures 0 < g <= Gap(e) && (Symmetric(m, e) ==> g == Gap(e))
  {
    if Symmetric(m, e) then Gap(e) else LowerHalf(e)
  }

  function LowerHalf(e: int): (g: nat)
    requires e > -1021
    ensures g > 0 && Gap(e) == 2 * g
  {
    PowAdd(2, 1, e + 1020);
    PowOne(2);
    Pow(2, e + 1020)
  }

  lemma GapBelow(m: nat, e: int, units: nat, r: nat)
    requires IsFloat(m, e, units) && IsDouble(r) && r < units
    ensures r + LowerGap(m, e) <= units
  {
    hide Pow;
    FloatIsDouble(m, e, units);
    PowOne(2);
    if e > -1021 {
      var s := e + 1021;
      var t: nat, j: nat :| HasForm(r, t, j);
      if j >= s {
        SameStep(m, t, j, s);
      } else {
        BelowByHalf(r, t, j, s);
        if m > Pow(2, 52) {
          Multiple(Pow(2, 52) + 1, m, Pow(2, s));
          Distribute(Pow(2, s), Pow(2, 52), 1);
        }
      }
    }
  }

  lemma GapAbove(m: nat, e: int, units: nat, r: nat)
    requires IsFloat(m, e, units) && IsDouble(r) && units < r
    ensures units + Gap(e) <= r
  {
    hide Pow;
    FloatIsDouble(m, e, units);
    PowOne(2);
    if e > -1021 {
      var s := e + 1021;
      var t: nat, j: nat :| HasForm(r, t, j);
      if j >= s {
        SameStep(m, t, j, s);
      } else {
        BelowByHalf(r, t, j, s);
        Multiple(Pow(2, 52), m, Pow(2, s));
      }
    }
  }

  lemma SameStep(m: nat, t: nat, j: nat, s: nat)
    requires j >= s
    ensures var q := Pow(2, s); t * Pow(2, j) < m * q ==> t * Pow(2, j) + q <= m * q
    ensures var q := Pow(2, s); m * q < t * Pow(2, j) ==> m * q + q <= t * Pow(2, j)
  {
    hide Pow;
    PowAdd(2, j - s, s);
    var q, v := Pow(2, s), t * Pow(2, j - s);
    Assoc(t, Pow(2, j - s), q);
    if v < m {
      Multiple(v, m, q);
    } else if m < v {
      Multiple(m, v, q);
    }
  }

  lemma SignificandOf(k: nat, m: nat, s: nat)
    requires k == m * Pow(2, s) && m < Pow(2, 53) && (m >= Pow(2, 52) || s == 0)
    ensures Significand(k) == m
  {
    hide Pow, BitLength;
    PowOne(2);
    var b := BitLength(k);
    PowAdd(2, 53, s);
    PowAdd(2, 52, s);
    MulMonoStrict(m, Pow(2, 53), Pow(2, s));
    if m >= Pow(2, 52) {
      MulMono(Pow(2, 52), m, Pow(2, s));
      BitLengthUnique(k, 53 + s);
    } else if b > 53 {
      PowMono(2, 53, b - 1);
    }
    DivUnique(k, Pow(2, Excess(b)), m, 0);
  }

  /** The neighbours are float64 values, and when the significand is even theirs is odd. */
  lemma Neighbours(m: nat, e: int, units: nat)
    requires IsFloat(m, e, units)
    ensures var g, l := Gap(e), LowerGap(m, e);
      && units >= l && IsDouble(units + g) && IsDouble(units - l)
      && (Significand(units) % 2 == 0 ==> Significand(units + g) % 2 == 1 && Significand(units - l) % 2 == 1)
  {
    hide Pow, Significand, IsDouble;
    FloatIsDouble(m, e, units);
    PowOne(2);
    if !Symmetric(m, e) {
      NextFloat(m, e, units);
      PowerNeighbours(e + 1021, units);
    } else if e >= -1021 {
      NextFloat(m, e, units);
      NormalNeighbours(m, e + 1021, units, Pow(2, e + 1021));
    } else {
      SmallNeighbours(units);
    }
  }

  lemma NormalNeighbours(m: nat, s: nat, units: nat, q: nat)
    requires q == Pow(2, s) && units == m * q && Pow(2, 52) <= m < Pow(2, 53) && (m != Pow(2, 52) || s == 0)
    ensures units >= q && IsDouble(units - q)
    ensures Significand(units) % 2 == 0 ==> Significand(units + q) % 2 == 1 && Significand(units - q) % 2 == 1
  {
    hide Pow, Significand;
    BinaryLimits();
    Distribute(q, m, 1);
    MulMono(1, m, q);
    assert HasForm(units - q, m - 1, s);
    SignificandOf(units, m, s);
    SignificandOf(units - q, m - 1, s);
    if m + 1 < Pow(2, 53) {
      SignificandOf(units + q, m + 1, s);
    }
  }

  lemma PowerNeighbours(s: nat, units: nat)
    requires s >= 1 && units == Pow(2, 52) * Pow(2, s)
    ensures var g, l := Pow(2, s), Pow(2, s - 1);
      && units >= l && IsDouble(units - l)
      && Significand(units + g) % 2 == 1 && Significand(units - l) % 2 == 1
  {
    hide Pow, Significand;
    BinaryLimits();
    PowOne(2);
    PowAdd(2, 1, s - 1);
    var g, l := Pow(2, s), Pow(2, s - 1);
    assert HasForm(units - l, 9007199254740991, s - 1);
    SignificandOf(units - l, 9007199254740991, s - 1);
    SignificandOf(units + g, 4503599627370497, s);
  }

  lemma SmallNeighbours(units: nat)
    requires 0 < units < Pow(2, 52)
    ensures IsDouble(units + 1) && IsDouble(units - 1)
    ensures Significand(units) % 2 == 0 ==> Significand(units + 1) % 2 == 1 && Significand(units - 1) % 2 == 1
  {
    hide Pow, Significand, IsDouble;
    BinaryLimits();
    PowOne(2);
    SmallIsDouble(units + 1);
    SmallIsDouble(units - 1);
    SignificandOf(units, units, 0);
    SignificandOf(units - 1, units - 1, 0);
    SignificandOf(units + 1, units + 1, 0);
  }

  /** What is at least as close as something that reads back does so too, unless it lies on the side where the
      neighbour is closer. */
  lemma CloserReadsBack(m: nat, e: int, units: nat, num: nat, num': nat, h: nat)
    requires IsFloat(m, e, units) && h > 0 && Nearest(num, h) == units
    requires Symmetric(m, e) || num <= units * h || num' >= units * h
    requires Abs(num' - units * h) <= Abs(num - units * h)
    ensures Nearest(num', h) == units
  {
    hide Pow, Nearest, IsFloat, Significand, Gap, LowerGap, IsDouble, Symmetric;
    var g, l, r := Gap(e), LowerGap(m, e), Nearest(num', h);
    FloatIsDouble(m, e, units);
    Neighbours(m, e, units);
    NearestIsDouble(num', h);
    NearestIsClosest(num', h, units);
    NearestIsClosest(num, h, units + g);
    NearestIsClosest(num, h, units - l);
    MulPos(l, h);
    MulMono(l, g, h);
    Distribute(h, units, g);
    Distribute(h, units, l);
    if r != units {
      Apart(m, e, units, r, h);
      TieOnly(units * h, g * h, l * h, r * h, num, num');
      if r * h == units * h + g * h {
        SameFactor(r, units + g, h);
      } else {
        SameFactor(r, units - l, h);
      }
    }
  }

  lemma Apart(m: nat, e: int, units: nat, r: nat, h: nat)
    requires IsFloat(m, e, units) && IsDouble(r) && r != units && h > 0
    ensures r * h >= units * h + Gap(e) * h || r * h + LowerGap(m, e) * h <= units * h
    ensures r * h >= 0
  {
    hide Pow, IsFloat, Gap, LowerGap, IsDouble;
    var g, l := Gap(e), LowerGap(m, e);
    MulPos(r, h);
    if r < units {
      GapBelow(m, e, units, r);
      MulMono(r + l, units, h);
      Distribute(h, r, l);
    } else {
      GapAbove(m, e, units, r);
      MulMono(units + g, r, h);
      Distribute(h, units, g);
    }
  }

  /** A value and its neighbours, the upper one at least as far away: what is closer to the value than a number that
      is not closer to either neighbour, and no closer to it than to one of them, must lie half-way, and so must that
      number. */
  lemma TieOnly(v: nat, g: nat, l: nat, r: nat, num: nat, num': nat)
    requires 0 < l <= g && (r >= v + g || r + l <= v)
    requires l == g || num <= v || num' >= v
    requires Abs(num - v) <= Abs(num - (v + g)) && Abs(num - v) <= Abs(num - (v - l))
    requires Abs(num' - v) <= Abs(num - v) && Abs(num' - r) <= Abs(num' - v)
    ensures (r == v + g || r == v - l) && Abs(num' - r) == Abs(num' - v)
    ensures Abs(num - (v + g)) == Abs(num - v) || Abs(num - (v - l)) == Abs(num - v)
  {}

  // ----- fewer digits -----

  lemma TenShifts(f: int, k: nat)
    ensures Tens(f + k) * Parts(f) == Pow(10, k) * Tens(f) * Parts(f + k)
  {
    hide Pow;
    OffsetPower(10, f, Pos(-f));
    OffsetPower(10, f + k, Pos(-f - k));
    PowOne(10);
    var u := Pow(2, 1074);
    SwapLast(Tens(f + k), u, Pow(10, Pos(-f)));
    SwapLast(Pow(10, k) * Tens(f), u, Pow(10, Pos(-f - k)));
    Assoc(Tens(f + k), u, Pow(10, Pos(-f)));
    Assoc(Pow(10, k) * Tens(f), u, Pow(10, Pos(-f - k)));
    TensParts(f, k);
  }

  lemma TensParts(f: int, k: nat)
    ensures Pow(10, Pos(f + k)) * Pow(10, Pos(-f)) == Pow(10, k) * Pow(10, Pos(f)) * Pow(10, Pos(-f - k))
  {
    hide Pow;
    PowAdd(10, Pos(f + k), Pos(-f));
    PowAdd(10, k, Pos(f));
    PowAdd(10, k + Pos(f), Pos(-f - k));
  }

  /** Against a decimal that is no finer than the rounding. */
  lemma CloserThanCoarse(units: nat, c: nat, k: nat, g: int)
    ensures Abs(RoundedAt(units, g) * Parts(g) - units * Tens(g)) <= Abs(c * Pow(10, k) * Parts(g) - units * Tens(g))
  {
    hide Pow, Round, Tens, Parts;
    MulPos(c, Pow(10, k));
    RoundIsNearest(Times(units, g), Parts(g), c * Pow(10, k));
  }

  /** Against a finer decimal with as few digits: the power of ten between it and the value is closer. */
  lemma PowerIsCloser(units: nat, c: nat, q: nat, g: int, k: nat)
    requires q >= 1 && c < Pow(10, q) && RoundedAt(units, g + 1) >= Pow(10, q)
    ensures var f := g + 1 + k; var top := Pow(10, q - 1) * Pow(10, k + 1);
      && Abs(top * Parts(f) - units * Tens(f)) <= Abs(c * Parts(f) - units * Tens(f))
      && c * Parts(f) <= units * Tens(f)
  {
    hide Pow, RoundedAt, Tens, Parts;
    var f, x := g + 1 + k, Pow(10, k);
    PowAdd(10, 1, k);
    PowAdd(10, 1, q - 1);
    PowOne(10);
    Assoc(Pow(10, q - 1), 10, x);
    assert Pow(10, q - 1) * 10 == 10 * Pow(10, q - 1);
    AtLeast(units, g + 1, Pow(10, q));
    TenShifts(g + 1, k);
    Lifted(units, Tens(g + 1), Tens(f), Parts(g + 1), Parts(f), Pow(10, q), x);
    TopIsCloser(c, Pow(10, q), x, Parts(f), units * Tens(f));
  }

  lemma AtLeast(units: nat, g: int, top: nat)
    requires RoundedAt(units, g) >= top
    ensures (2 * top - 1) * Parts(g) <= 2 * (units * Tens(g))
  {
    hide Round, Tens, Parts;
    var d := Parts(g);
    RoundedClose(units, g);
    Multiple(top, RoundedAt(units, g), d);
    Distribute(d, 2 * top, 1);
    Assoc(2, top, d);
  }

  /** The lower bound at one scale, seen at another. */
  lemma Lifted(units: nat, h: nat, h': nat, d: nat, d': nat, top: nat, x: nat)
    requires h' * d == x * h * d' && d > 0 && top > 0 && (2 * top - 1) * d <= 2 * (units * h)
    ensures (2 * top - 1) * x * d' <= 2 * (units * h')
  {
    var w := (2 * top - 1);
    MulMono(w * d, 2 * (units * h), x * d');
    // w * d * (x * d') == (w * x * d') * d, and 2 * (units * h) * (x * d') == 2 * (units * h') * d
    Assoc(w, d, x * d');
    assert d * (x * d') == x * d' * d;
    Assoc(w, x, d');
    Assoc(w, x * d', d);
    Assoc(2, units * h, x * d');
    Assoc(units, h, x * d');
    Assoc(x, h, d');
    assert h * (x * d') == x * (h * d') by { Assoc(h, x, d'); Assoc(x, h, d'); assert h * x == x * h; }
    Assoc(units, h', d);
    Assoc(2, units * h', d);
    CancelLess(w * x * d', 2 * (units * h'), d);
  }

  lemma TopIsCloser(c: nat, top: nat, x: nat, d: nat, v: nat)
    requires c < top && x > 0 && (2 * top - 1) * x * d <= 2 * v
    ensures Abs(top * x * d - v) <= Abs(c * d - v) && c * d <= v
  {
    // (top - 1) * (x - 1) >= 0, so top * x - c >= x
    MulPos(top - 1, x - 1);
    Distribute(top, x, 1);
    Distribute(x, 2 * top, 1);
    Assoc(2, top, x);
    Distribute(d, 2 * (top * x), x);
    Assoc(2, top * x, d);
    assert (top - 1) * (x - 1) == top * x - x - top + 1;
    Multiple(c + x, top * x, d);
    Distribute(d, c, x);
  }

  /** A decimal with fewer than `prec` digits is read back. */
  ghost predicate FewerReadBack(units: nat, prec: int) {
    exists c: nat, p: int, x: int :: p < prec && IsDecimal(c, p) && ReadsBack(c, x, units)
  }

  /** So is the one just above the rounding to `q` digits. */
  ghost predicate NextReadsBack(units: nat, q: int) {
    exists r: nat, g: int :: RoundsTo(units, q, r, g) && ReadsBack(r + 1, -g, units)
  }

  /** The digits found are the fewest unless the decimal just above the last one tried is read back, which it can be
      only for a power of two. */
  lemma FewestDigits(m: nat, e: int, units: nat, mant: nat, prec: nat, exp10: int)
    requires IsFloat(m, e, units) && IsShortest(units, mant, prec, exp10)
    ensures FewerReadBack(units, prec) <==> prec > 1 && NextReadsBack(units, prec - 1)
    ensures Symmetric(m, e) ==> !FewerReadBack(units, prec)
  {
    hide Pow, RoundsTo, ReadsBack, IsDecimal, Symmetric, IsFloat;
    if FewerReadBack(units, prec) {
      var c: nat, p: int, x: int :| p < prec && IsDecimal(c, p) && ReadsBack(c, x, units);
      FewerReads(m, e, units, mant, prec, exp10, c, p, -x);
    } else if prec > 1 && NextReadsBack(units, prec - 1) {
      var r: nat, g: int :| RoundsTo(units, prec - 1, r, g) && ReadsBack(r + 1, -g, units);
      NextIsDecimal(units, prec - 1, r, g);
    }
  }

  lemma FewerReads(m: nat, e: int, units: nat, mant: nat, prec: nat, exp10: int, c: nat, p: int, f: int)
    requires IsFloat(m, e, units) && IsShortest(units, mant, prec, exp10)
    requires p < prec && IsDecimal(c, p) && ReadsBack(c, -f, units)
    ensures prec > 1 && NextReadsBack(units, prec - 1) && !Symmetric(m, e)
  {
    hide Pow, RoundedAt, ReadsBack, AllReadBack, Symmetric, IsFloat, Tens, Parts;
    var q: nat := prec - 1;
    FloatsRound(m, e, units, q);
    var r, g :| RoundsTo(units, q, r, g);
    PowMono(10, p, q);
    CoarserReads(m, e, units, c, f, q, g);
  }

  /** It has as many digits, or is a power of ten. */
  lemma NextIsDecimal(units: nat, q: int, r: nat, g: int)
    requires RoundsTo(units, q, r, g) && ReadsBack(r + 1, -g, units)
    ensures FewerReadBack(units, q + 1)
  {
    hide Pow, RoundedAt, ReadsBack;
    if r + 1 == Pow(10, q) {
      PowAdd(10, 1, q - 1);
      PowOne(10);
      DropZero(r + 1, -g, units);
      assert IsDecimal(Pow(10, q - 1), q) && ReadsBack(Pow(10, q - 1), -(g - 1), units);
    } else {
      assert IsDecimal(r + 1, q);
    }
  }

  lemma CoarserReads(m: nat, e: int, units: nat, c: nat, f: int, q: nat, g: int)
    requires IsFloat(m, e, units) && q >= 1 && c < Pow(10, q)
    requires RoundedAt(units, g + 1) >= Pow(10, q) && ReadsBack(c, -f, units)
    ensures ReadsBack(RoundedAt(units, g), -g, units) || (!Symmetric(m, e) && ReadsBack(RoundedAt(units, g) + 1, -g, units))
  {
    hide Pow, RoundedAt, ReadsBack, Symmetric, IsFloat, Tens, Parts, Nearest;
    if f <= g {
      AppendZeros(c, -f, g - f, units);
      MulPos(c, Pow(10, g - f));
      RoundingReads(m, e, units, c, g - f, g);
    } else {
      var k: nat := f - g - 1;
      var top := Pow(10, q - 1);
      PowerIsCloser(units, c, q, g, k);
      MulPos(top, Pow(10, k + 1));
      ReadsBackAt(c, f, units);
      ReadsBackAt(top * Pow(10, k + 1), f, units);
      CloserReadsBack(m, e, units, c * Parts(f), top * Pow(10, k + 1) * Parts(f), Tens(f));
      AppendZeros(top, -g, k + 1, units);
      PowOne(10);
      RoundingReads(m, e, units, top, 0, g);
    }
  }

  lemma RoundingReads(m: nat, e: int, units: nat, c: nat, k: nat, g: int)
    requires IsFloat(m, e, units) && c * Pow(10, k) >= 0 && ReadsBack(c * Pow(10, k), -g, units)
    ensures ReadsBack(RoundedAt(units, g), -g, units) || (!Symmetric(m, e) && ReadsBack(RoundedAt(units, g) + 1, -g, units))
  {
    hide Pow, RoundedAt, ReadsBack, Symmetric, IsFloat, Tens, Parts, Nearest;
    var w, r, d, h := c * Pow(10, k), RoundedAt(units, g), Parts(g), Tens(g);
    var v := units * h;
    ReadsBackAt(w, g, units);
    if Symmetric(m, e) || w * d <= v || r * d >= v {
      CloserThanCoarse(units, c, k, g);
      ReadsBackAt(r, g, units);
      CloserReadsBack(m, e, units, w * d, r * d, h);
    } else {
      RoundedClose(units, g);
      TimesIs(units, g);
      ReadsBackAt(r + 1, g, units);
      JustAbove(r, w, d, v);
      CloserReadsBack(m, e, units, w * d, (r + 1) * d, h);
    }
  }

  lemma JustAbove(r: nat, w: nat, d: nat, v: nat)
    requires r * d < v < w * d && 2 * Abs(v - r * d) <= d
    ensures v <= (r + 1) * d <= w * d
  {
    Distribute(d, r, 1);
    if w <= r {
      MulMono(w, r, d);
    }
    MulMono(r + 1, w, d);
  }

  // ----- a power of two for which a digit too many is printed -----

  /** The bits of 2^-44. */
  const WITNESS := 0x3d30_0000_0000_0000

  lemma WitnessPowers()
    ensures UnitsOf(WITNESS) == 9007199254740992 * Pow(2, 977)
    ensures Pow(2, 1074) == 158456325028528675187087900672 * Pow(2, 977)
    ensures IsFloat(Pow(2, 52), -43, UnitsOf(WITNESS)) && IsDouble(UnitsOf(WITNESS))
  {
    hide Pow;
    BinaryLimits();
    EleventhPower();
    PowOne(2);
    PowAdd(2, 11, 11);
    PowAdd(2, 22, 22);
    PowAdd(2, 44, 53);
    PowAdd(2, 97, 977);
    PowAdd(2, 53, 977);
    PowAdd(2, 52, 978);
    assert WITNESS / TWO52 == 979 && WITNESS % TWO52 == 0;
    FloatIsDouble(Pow(2, 52), -43, UnitsOf(WITNESS));
  }

  lemma WitnessTens()
    ensures Tens(29) == 100_000_000_000_000_000_000_000_000_000
    ensures Tens(30) == 1_000_000_000_000_000_000_000_000_000_000
    ensures Tens(31) == 10_000_000_000_000_000_000_000_000_000_000
  {
    hide Pow;
    BinaryLimits();
    PowOne(10);
    PowAdd(10, 15, 15);
    PowAdd(10, 1, 29);
    PowAdd(10, 1, 30);
  }

  lemma NoParts(f: nat)
    ensures Parts(f) == Pow(2, 1074)
  {
    hide Pow;
    PowOne(10);
  }

  /** To 17, 16 and the digits in between. */
  lemma WitnessRounds()
    ensures RoundsTo(UnitsOf(WITNESS), 17, 56843418860808015, 30)
    ensures RoundsTo(UnitsOf(WITNESS), 16, 5684341886080801, 29)
  {
    hide Pow, Round, Tens, Parts, UnitsOf;
    WitnessPowers();
    WitnessTens();
    BinaryLimits();
    PowOne(10);
    PowAdd(10, 1, 16);
    NoParts(29);
    NoParts(30);
    NoParts(31);
    var w, d := Pow(2, 977), Pow(2, 1074);
    RoundUnique(9007199254740992 * w * 100_000_000_000_000_000_000_000_000_000, d, 5684341886080801);
    RoundUnique(9007199254740992 * w * 1_000_000_000_000_000_000_000_000_000_000, d, 56843418860808015);
    RoundBetween(9007199254740992 * w * 10_000_000_000_000_000_000_000_000_000_000, d, 100_000_000_000_000_000, 0);
  }

  /** The nearest decimal with 16 digits lies below, and is read as the lower neighbour. */
  lemma LowerDecimalFails()
    ensures !ReadsBack(5684341886080801, -29, UnitsOf(WITNESS))
  {
    hide Pow, Nearest, Tens, Parts, UnitsOf;
    WitnessPowers();
    WitnessTens();
    BinaryLimits();
    NoParts(29);
    ReadsBackAt(5684341886080801, 29, UnitsOf(WITNESS));
    var w := Pow(2, 977);
    assert HasForm(9007199254740991 * w, 9007199254740991, 977);
    NearestIsClosest(5684341886080801 * Pow(2, 1074), Tens(29), 9007199254740991 * w);
  }

  /** The one above is not as near, and is read back. */
  lemma UpperDecimalReads()
    ensures ReadsBack(5684341886080802, -29, UnitsOf(WITNESS))
  {
    hide Pow, Nearest, Tens, Parts, UnitsOf, IsDouble, IsFloat;
    WitnessPowers();
    WitnessTens();
    NoParts(29);
    var units, h := UnitsOf(WITNESS), Tens(29);
    ReadsBackAt(5684341886080802, 29, units);
    var num := 5684341886080802 * Pow(2, 1074);
    var r := Nearest(num, h);
    NearestIsDouble(num, h);
    NearestIsClosest(num, h, units);
    if r > units {
      GapAbove(Pow(2, 52), -43, units, r);
      WitnessGap();
    }
  }

  lemma WitnessGap()
    ensures Gap(-43) == 2 * Pow(2, 977)
  {
    PowAdd(2, 1, 977);
  }

  /** For 2^-44 seventeen digits are printed, while sixteen others would be read back. */
  lemma OneDigitTooMany()
    ensures IsShortest(UnitsOf(WITNESS), 56843418860808015, 17, -13)
    ensures RoundsTo(UnitsOf(WITNESS), 16, 5684341886080801, 29) && ReadsBack(5684341886080802, -29, UnitsOf(WITNESS))
  {
    hide Pow, RoundedAt, ReadsBack, UnitsOf, IsFloat;
    var units := UnitsOf(WITNESS);
    WitnessPowers();
    WitnessRounds();
    LowerDecimalFails();
    UpperDecimalReads();
    BinaryLimits();
    forall p, c, f | 17 <= p <= P_MAX && RoundsTo(units, p, c, f) ensures ReadsBack(c, -f, units) {
      SeventeenReadBack(Pow(2, 52), -43, units, c, f);
    }
    forall c, f | RoundsTo(units, 16, c, f) ensures !ReadsBack(c, -f, units) {
      RoundsToOnce(units, 16, c, f, 5684341886080801, 29);
    }
  }
}
