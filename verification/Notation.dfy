/** Which float64 values are printed with an exponent. */
module Notation {
  import opened Powers
  import opened Rounding
  import opened BigNumber
  import opened Doubles
  import opened FloatRounding
  import opened Shortest
  import opened Dtoa
  import opened DecimalText
  import opened NumberText
  import opened JsDtoa

  /** The bits of the float64 nearest to 10^-6, and those of 10^21. */
  const PLAIN_FROM := 0x3eb0_c6f7_a0b5_ed8d
  const PLAIN_TO := 0x444b_1ae4_d6e2_ef50

  lemma RoundedUnitsMono(units: nat, units': nat, f: int)
    requires units <= units'
    ensures RoundedAt(units, f) <= RoundedAt(units', f)
  {
    hide Tens, Parts, Round;
    MulMono(units, units', Tens(f));
    RoundMono(Times(units, f), Times(units', f), Parts(f));
  }

  /** A value that rounds up to a power of ten rounds to that power with one digit less, too. */
  lemma RoundsUpTo(units: nat, mant: nat, prec: nat, exp10: int, h: int)
    requires IsShortest(units, mant, prec, exp10) && RoundedAt(units, h) == Pow(10, prec)
    ensures mant == Pow(10, prec - 1) && exp10 == prec - h + 1 && ReadsBack(mant, 1 - h, units)
  {
    hide RoundedAt, ReadsBack, Pow, AllReadBack, NoneReadsBack;
    PowAdd(10, 1, prec - 1);
    PowOne(10);
    PowMonoStrict(10, prec - 1, prec);
    ZeroDropped(units, h);
    RoundsToOnce(units, prec, mant, prec - exp10, Pow(10, prec - 1), h - 1);
    ShortestIsStripped(units, mant, prec, exp10);
  }

  // ----- 10^21 -----

  lemma UpperLimit()
    ensures UnitsOf(PLAIN_TO) == Pow(10, 21) * Pow(2, 1074) && IsDouble(UnitsOf(PLAIN_TO))
  {
    hide Pow;
    BinaryLimits();
    assert Pow(10, 5) == 100_000 && Pow(2, 10) == 1024 by { TinyPowers(); }
    PowAdd(10, 16, 5);
    PowAdd(2, 10, 7);
    PowAdd(2, 17, 1074);
    assert Pow(2, 7) == 128 by { TinyPowers(); }
    assert PLAIN_TO / TWO52 == 1092 && TWO52 + PLAIN_TO % TWO52 == 7629394531250000;
    Assoc(7629394531250000, Pow(2, 17), Pow(2, 1074));
    assert HasForm(UnitsOf(PLAIN_TO), 7629394531250000, 1091);
  }

  lemma TinyPowers()
    ensures Pow(10, 5) == 100_000 && Pow(10, 6) == 1_000_000 && Pow(2, 10) == 1024 && Pow(2, 7) == 128
  {}

  lemma LargePowerExact(units: nat, f: int)
    requires units == Pow(10, 21) * Pow(2, 1074) && f >= -21
    ensures ExactAt(units, Pow(10, 21 + f), f) && RoundedAt(units, f) == Pow(10, 21 + f)
  {
    hide Pow, RoundedAt;
    OffsetPower(10, f, 21);
    SwapLast(Pow(10, 21), Pow(2, 1074), Pow(10, Pos(f)));
    assert Pow(10, 21) * Pow(10, Pos(f)) == Pow(10, 21 + f) * Pow(10, Pos(-f));
    SwapLast(Pow(10, 21 + f), Pow(10, Pos(-f)), Pow(2, 1074));
    Assoc(Pow(10, 21 + f), Pow(2, 1074), Pow(10, Pos(-f)));
    ExactRounds(units, Pow(10, 21 + f), f);
  }

  lemma BelowUpperLimit(units: nat, mant: nat, prec: nat, exp10: int)
    requires IsShortest(units, mant, prec, exp10)
    ensures exp10 <= 21 <==> units < UnitsOf(PLAIN_TO)
  {
    hide Pow, RoundedAt, ReadsBack, AllReadBack, NoneReadsBack, UnitsOf, ExactAt, IsDouble;
    UpperLimit();
    var top, f, h := UnitsOf(PLAIN_TO), prec - exp10, prec - 21;
    if units >= top && exp10 <= 21 {
      LargePowerExact(top, f);
      RoundedUnitsMono(top, units, f);
      PowMono(10, prec, 21 + f);
    }
    if units < top && exp10 > 21 {
      RoundedMono(units, f + 1, h);
      LargePowerExact(top, h);
      LargePowerExact(top, h - 1);
      RoundedUnitsMono(units, top, h);
      RoundsUpTo(units, mant, prec, exp10, h);
      ExactReads(top, mant, h - 1);
      ReadsOnce(mant, 1 - h, units, top);
    }
  }

  lemma ReadsOnce(mant: nat, f: int, units: nat, units': nat)
    requires ReadsBack(mant, f, units) && ReadsBack(mant, f, units')
    ensures units == units'
  {}

  // ----- 10^-6 -----

  const MILLIONTH := 4722366482869645

  lemma LowerLimit()
    ensures UnitsOf(PLAIN_FROM) == MILLIONTH * Pow(2, 1002) && Pow(2, 1074) == 4722366482869645213696 * Pow(2, 1002)
    ensures Pow(10, 6) == 1_000_000
  {
    hide Pow;
    BinaryLimits();
    TinyPowers();
    PowAdd(2, 10, 10);
    PowAdd(2, 52, 20);
    PowAdd(2, 72, 1002);
    assert PLAIN_FROM / TWO52 == 1003 && TWO52 + PLAIN_FROM % TWO52 == MILLIONTH;
  }

  /** It is the float64 nearest to 10^-6. */
  lemma MillionthReads(p: nat)
    requires p >= 1
    ensures ReadsBack(Pow(10, p - 1), -(p + 5), UnitsOf(PLAIN_FROM))
  {
    hide Pow, Nearest, ReadsBack, UnitsOf;
    LowerLimit();
    var w := Pow(2, 1002);
    PowOne(10);
    BinaryLimits();
    assert HasForm(UnitsOf(PLAIN_FROM), MILLIONTH, 1002);
    MillionthIsClose(w, Pow(2, 53));
    NearestIfClose(Pow(2, 1074), 1_000_000, UnitsOf(PLAIN_FROM), 427392 * w);
    UnitReads(UnitsOf(PLAIN_FROM));
    AppendZeros(1, -6, p - 1, UnitsOf(PLAIN_FROM));
  }

  lemma UnitReads(units: nat)
    requires Nearest(Pow(2, 1074), Pow(10, 6)) == units
    ensures ReadsBack(1, -6, units)
  {
    hide Pow, Nearest;
    PowOne(10);
    ReadsBackAt(1, 6, units);
  }

  lemma MillionthIsClose(w: nat, t: nat)
    requires w > 0 && t <= 9007199254740992
    ensures 2 * Abs(4722366482869645213696 * w - MILLIONTH * w * 1_000_000) <= 427392 * w
    ensures t * (427392 * w) < MILLIONTH * w * 1_000_000
  {
    MulMono(t, 9007199254740992, 427392 * w);
  }

  /** To 16 digits and fewer it rounds up to a power of ten. */
  lemma MillionthRounds(q: nat)
    ensures RoundedAt(UnitsOf(PLAIN_FROM), q + 6) <= Pow(10, q)
    ensures q <= 16 ==> RoundedAt(UnitsOf(PLAIN_FROM), q + 6) == Pow(10, q)
  {
    hide Pow, Round, UnitsOf;
    LowerLimit();
    BinaryLimits();
    PowAdd(10, 6, q);
    PowOne(10);
    var w, c := Pow(2, 1002), Pow(10, q);
    MulPos(w, c);
    Scaled(w, c);
    RoundBetween(MILLIONTH * 1_000_000 * (w * c), 4722366482869645213696 * w, 0, c);
    if q <= 16 {
      PowMono(10, q, 16);
      MulMono(c, 10_000_000_000_000_000, w);
      RoundUnique(MILLIONTH * 1_000_000 * (w * c), 4722366482869645213696 * w, c);
    }
  }

  lemma Scaled(w: nat, c: nat)
    ensures MILLIONTH * w * (1_000_000 * c) == MILLIONTH * 1_000_000 * (w * c)
    ensures c * (4722366482869645213696 * w) == 4722366482869645213696 * (w * c)
  {
    Shuffle(MILLIONTH, w, 1_000_000, c);
    Assoc(4722366482869645213696, w, c);
    assert c * (4722366482869645213696 * w) == (4722366482869645213696 * w) * c;
  }

  /** No other float64 lies between it and 10^-6. */
  lemma MillionthIsLast(units: nat)
    requires IsDouble(units) && UnitsOf(PLAIN_FROM) <= units && RoundedAt(units, 23) < Pow(10, 17)
    ensures units == UnitsOf(PLAIN_FROM)
  {
    hide Pow, Nearest, Round, UnitsOf, IsDouble;
    PowOne(10);
    var c, d, h := Pow(10, 17), Parts(23), Tens(23);
    EvenPower(17);
    RoundsBelow(Times(units, 23), d, c);
    MillionthReads(18);
    ReadsBackAt(c, 23, UnitsOf(PLAIN_FROM));
    NearestIsClosest(c * d, h, units);
    StrictlyCloser(c, d, h, units, UnitsOf(PLAIN_FROM));
  }

  lemma StrictlyCloser(c: nat, d: nat, h: nat, k: nat, r: nat)
    requires h > 0 && d > 0 && r <= k && 2 * (k * h) < (2 * c - 1) * d && Abs(c * d - r * h) <= Abs(c * d - k * h)
    ensures r == k
  {
    Distribute(d, 2 * c, 1);
    Assoc(2, c, d);
    Multiple(r, k, h);
  }

  /** Sixteen digits are enough for it. */
  lemma MillionthToSixteen()
    ensures RoundsTo(UnitsOf(PLAIN_FROM), 16, Pow(10, 15), 21) && ReadsBack(Pow(10, 15), -21, UnitsOf(PLAIN_FROM))
  {
    hide Pow, RoundedAt, ReadsBack, UnitsOf;
    BinaryLimits();
    MillionthRounds(16);
    MillionthReads(16);
    ZeroDropped(UnitsOf(PLAIN_FROM), 22);
  }

  lemma FromLowerLimit(units: nat, mant: nat, prec: nat, exp10: int)
    requires IsDouble(units) && IsShortest(units, mant, prec, exp10)
    ensures exp10 > -6 <==> units >= UnitsOf(PLAIN_FROM)
  {
    hide Pow, RoundedAt, ReadsBack, AllReadBack, UnitsOf, IsDouble;
    var low, f, h := UnitsOf(PLAIN_FROM), prec - exp10, prec + 6;
    if units < low && exp10 > -6 {
      RoundedMono(units, f + 1, h);
      MillionthRounds(prec);
      RoundedUnitsMono(units, low, h);
      RoundsUpTo(units, mant, prec, exp10, h);
      MillionthReads(prec);
      ReadsOnce(mant, 1 - h, units, low);
    }
    if units >= low && exp10 <= -6 {
      RoundedMono(units, h, f);
      RoundedUnitsMono(low, units, h);
      MillionthRounds(prec);
      if prec == 17 {
        MillionthIsLast(units);
        MillionthToSixteen();
      }
    }
  }

  lemma PatternIsDouble(magnitude: nat)
    ensures IsDouble(UnitsOf(magnitude))
  {
    hide Pow;
    var field, fraction := magnitude / TWO52, magnitude % TWO52;
    Power52();
    PowOne(2);
    if field == 0 {
      assert HasForm(UnitsOf(magnitude), fraction, 0);
    } else {
      assert HasForm(UnitsOf(magnitude), TWO52 + fraction, field - 1);
    }
  }

  /** The text of a finite non-zero float64 has an exponent part exactly from 10^21 on and below 10^-6. */
  lemma PrintsExponent(s: string, negative: bool, magnitude: nat)
    requires 0 < magnitude < INFINITY_BITS && IsPrinted(s, negative, UnitsOf(magnitude))
    ensures 'e' in s <==> !(PLAIN_FROM <= magnitude < PLAIN_TO)
  {
    hide Pow, RoundedAt, UnitsOf, Layout, IsShortest, IsDouble;
    var mant, prec, exp10 :| PrintsAs(s, negative, UnitsOf(magnitude), mant, prec, exp10);
    PatternIsDouble(magnitude);
    FromLowerLimit(UnitsOf(magnitude), mant, prec, exp10);
    BelowUpperLimit(UnitsOf(magnitude), mant, prec, exp10);
    UnitsOfOnce(PLAIN_FROM, magnitude);
    UnitsOfOnce(PLAIN_TO, magnitude);
    LayoutHasExponent(mant, exp10);
    SignHasNone(negative, Layout(mant, exp10));
  }

  lemma SignHasNone(negative: bool, text: string)
    ensures 'e' in Minus(negative) + text <==> 'e' in text
  {
    var s := Minus(negative) + text;
    if 'e' in text {
      var i :| 0 <= i < |text| && text[i] == 'e';
      assert s[|Minus(negative)| + i] == 'e';
    }
  }
}
