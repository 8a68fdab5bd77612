/** The finite float64 values in units of 2^-1074, and the nearest one to a fraction. */
module Doubles {
  import opened Powers
  import opened Rounding

  /** At most 53 significant bits. Values from 2^1024 on are not float64 values but decide overflow. */
  ghost predicate IsDouble(k: nat) {
    exists m: nat, j: nat :: HasForm(k, m, j)
  }

  predicate HasForm(k: nat, m: nat, j: nat) {
    m < Pow(2, 53) && k == m * Pow(2, j)
  }

  function Excess(bits: nat): nat {
    if bits > 53 then bits - 53 else 0
  }

  /** The significand of a value, its low bits included down to the unit for small ones. */
  function Significand(k: nat): nat {
    k / Pow(2, Excess(BitLength(k)))
  }

  /** The fraction in steps of the float64 values around it, rounded to the nearest integer. */
  function NearestSteps(num: nat, den: nat): nat
    requires den > 0
  {
    var q := Pow(2, Excess(BitLength(num / den)));
    MulPos(den, q);
    Round(num, den * q, ToNearestEven)
  }

  /** The float64 nearest to `num / den`, ties going to the even significand. */
  function Nearest(num: nat, den: nat): nat
    requires den > 0
  {
    var q := Pow(2, Excess(BitLength(num / den)));
    MulPos(NearestSteps(num, den), q);
    NearestSteps(num, den) * q
  }

  /** The step between values around the fraction and its rounded multiple. */
  lemma NearestParts(num: nat, den: nat)
    requires den > 0
    ensures var t := num / den; var s := Excess(BitLength(t)); var q := Pow(2, s); var r := NearestSteps(num, den);
      && q > 0 && den * q > 0 && r == Round(num, den * q, ToNearestEven) && Nearest(num, den) == r * q && r <= Pow(2, 53) && t < Pow(2, 53) * q
      && (s > 0 ==> Pow(2, 52) * q <= t && Pow(2, 52) <= r)
  {
    hide Pow, BitLength, Round;
    var t: nat, b := num / den, BitLength(num / den);
    var s := Excess(b);
    var q := Pow(2, s);
    MulPos(den, q);
    PowAdd(2, 53, s);
    PowMono(2, b, 53 + s);
    RoundedTwice(num, den, q);
    QuotientBounds(t, q, Pow(2, 52), Pow(2, 53));
    if s > 0 {
      PowAdd(2, 52, s);
    }
  }

  lemma RoundedTwice(num: nat, den: nat, q: nat)
    requires den > 0 && q > 0 && den * q > 0
    ensures var top := num / den / q;
      top <= Round(num, den * q, ToNearestEven) <= top + 1
  {
    hide RoundsUp;
    DivDiv(num, den, q);
  }

  lemma QuotientBounds(t: nat, q: nat, low: nat, high: nat)
    requires q > 0
    ensures t < high * q ==> t / q < high
    ensures low * q <= t ==> low <= t / q
  {
    DivMod(t, q);
    var top: nat, rest: nat := t / q, t % q;
    if top >= high {
      MulMono(high, top, q);
    }
    if top < low {
      MulMono(top + 1, low, q);
      Distribute(q, top, 1);
    }
  }

  lemma NearestIsDouble(num: nat, den: nat)
    requires den > 0
    ensures IsDouble(Nearest(num, den))
  {
    hide Pow, BitLength, Nearest, NearestSteps;
    var s := Excess(BitLength(num / den));
    NearestParts(num, den);
    var r := NearestSteps(num, den);
    if r < Pow(2, 53) {
      assert HasForm(Nearest(num, den), r, s);
    } else {
      PowAdd(2, 52, 1);
      PowOne(2);
      PowAdd(2, 1, s);
      Assoc(Pow(2, 52), 2, Pow(2, s));
      PowMonoStrict(2, 52, 53);
      assert HasForm(Nearest(num, den), Pow(2, 52), 1 + s);
    }
  }

  /** No float64 is closer, and one that is equally close loses to an even significand. */
  lemma NearestIsClosest(num: nat, den: nat, z: nat)
    requires den > 0 && IsDouble(z)
    ensures var r := Nearest(num, den);
      && Abs(num - r * den) <= Abs(num - z * den)
      && (z != r && Abs(num - z * den) == Abs(num - r * den) ==> Significand(r) % 2 == 0)
  {
    hide Pow, BitLength, Nearest, NearestSteps, Round, Significand;
    var s := Excess(BitLength(num / den));
    NearestParts(num, den);
    var m: nat, j: nat :| HasForm(z, m, j);
    if j >= s {
      PowAdd(2, j - s, s);
      Assoc(m, Pow(2, j - s), Pow(2, s));
      CloserThanMultiple(num, den, m * Pow(2, j - s));
    } else {
      CloserThanSmall(num, den, m, j, z);
    }
  }

  /** Against a multiple of the step. */
  lemma CloserThanMultiple(num: nat, den: nat, w: nat)
    requires den > 0
    ensures var r := Nearest(num, den); var z := w * Pow(2, Excess(BitLength(num / den)));
      && Abs(num - r * den) <= Abs(num - z * den)
      && (z != r && Abs(num - z * den) == Abs(num - r * den) ==> Significand(r) % 2 == 0)
  {
    hide Pow, BitLength, Nearest, NearestSteps, Round, Significand;
    var q := Pow(2, Excess(BitLength(num / den)));
    NearestParts(num, den);
    var n := NearestSteps(num, den);
    Commute(n, q, den);
    Commute(w, q, den);
    SignificandIs(num, den);
    RoundIsNearest(num, den * q, w);
  }

  lemma Commute(x: int, y: int, z: int)
    ensures (x * y) * z == x * (z * y)
  {
    Assoc(x, y, z);
    assert y * z == z * y;
  }

  /** Against a value with a smaller step, which lies below the binade of the fraction: the lower end of the
      binade is a multiple of the step and strictly closer. */
  lemma CloserThanSmall(num: nat, den: nat, m: nat, j: nat, z: nat)
    requires den > 0 && HasForm(z, m, j) && j < Excess(BitLength(num / den))
    ensures Abs(num - Nearest(num, den) * den) < Abs(num - z * den)
  {
    hide Pow, BitLength, Nearest, NearestSteps, Round, Significand;
    var s := Excess(BitLength(num / den));
    var q, low := Pow(2, s), Pow(2, 52);
    NearestParts(num, den);
    BelowBinade(z, m, j, s);
    DivMod(num, den);
    MulMono(low * q, num / den, den);
    CloserThanMultiple(num, den, low);
    Multiple(z, low * q, den);
  }

  lemma BelowBinade(z: nat, m: nat, j: nat, s: nat)
    requires HasForm(z, m, j) && j < s
    ensures z < Pow(2, 52) * Pow(2, s)
  {
    hide Pow;
    PowMono(2, j, s - 1);
    PowAdd(2, 53, s - 1);
    PowAdd(2, 52, s);
    MulMono(Pow(2, j), Pow(2, s - 1), m);
    MulMonoStrict(m, Pow(2, 53), Pow(2, s - 1));
  }

  lemma SignificandIs(num: nat, den: nat)
    requires den > 0
    ensures NearestSteps(num, den) % 2 == 0 ==> Significand(Nearest(num, den)) % 2 == 0
  {
    hide Pow, BitLength, Nearest, NearestSteps, Round;
    var s := Excess(BitLength(num / den));
    var q := Pow(2, s);
    NearestParts(num, den);
    var n := NearestSteps(num, den);
    var r := n * q;
    PowAdd(2, 53, s);
    PowAdd(2, 52, s);
    if n < Pow(2, 53) {
      MulMonoStrict(n, Pow(2, 53), q);
      if s > 0 {
        MulMono(Pow(2, 52), n, q);
        BitLengthUnique(r, 53 + s);
      } else {
        PowOne(2);
        if BitLength(r) > 53 {
          PowMono(2, 53, BitLength(r) - 1);
        }
      }
      DivUnique(r, q, n, 0);
    } else {
      PowAdd(2, 53, s + 1);
      PowMonoStrict(2, 53 + s, 54 + s);
      BitLengthUnique(r, 54 + s);
      PowAdd(2, 52, s + 1);
      DivUnique(r, Pow(2, s + 1), Pow(2, 52), 0);
      TopIsEven();
    }
  }

  lemma TopIsEven()
    ensures Pow(2, 52) % 2 == 0
  {
    hide Pow;
    PowAdd(2, 1, 51);
    PowOne(2);
    EvenPart(Pow(2, 52), Pow(2, 51), 0);
  }

  /** A float64 is the nearest one to itself. */
  lemma NearestOfDouble(z: nat, den: nat)
    requires den > 0 && IsDouble(z)
    ensures Nearest(z * den, den) == z
  {
    hide Pow, BitLength, Nearest, NearestSteps, Round, IsDouble;
    NearestIsClosest(z * den, den, z);
    var r := Nearest(z * den, den);
    Distribute(den, z, r);
    if r != z {
      MulMono(1, Abs(z - r), den);
      Assoc(z - r, den, 1);
      NonZero(z - r, den);
    }
  }

  lemma NonZero(x: int, d: nat)
    requires x != 0 && d > 0
    ensures x * d != 0
  {
    if x > 0 {
      MulMono(1, x, d);
    } else {
      MulMono(1, -x, d);
    }
  }

  /** Only the value of the fraction matters. */
  lemma NearestScaled(num: nat, den: nat, num': nat, den': nat)
    requires den > 0 && den' > 0 && num * den' == num' * den
    ensures Nearest(num, den) == Nearest(num', den')
  {
    hide Pow, BitLength, Round;
    SameQuotient(num, den, num', den');
    var q := Pow(2, Excess(BitLength(num / den)));
    MulPos(den, q);
    MulPos(den', q);
    Assoc(num, den', q);
    Assoc(num', den, q);
    SameFraction(num, den * q, num', den' * q, ToNearestEven);
  }

  lemma SameQuotient(num: nat, den: nat, num': nat, den': nat)
    requires den > 0 && den' > 0 && num * den' == num' * den
    ensures num / den == num' / den'
  {
    SameFraction(num, den, num', den', TowardZero);
  }

  // ----- spacing -----

  /** A float64 is a multiple of its step. */
  lemma MultipleOfStep(k: nat)
    requires IsDouble(k)
    ensures var q := Pow(2, Excess(BitLength(k))); q > 0 && k % q == 0
    ensures k < Pow(2, 53) * Pow(2, Excess(BitLength(k)))
    ensures Excess(BitLength(k)) > 0 ==> Pow(2, 52) * Pow(2, Excess(BitLength(k))) <= k
  {
    hide Pow, BitLength;
    var b := BitLength(k);
    var a := Excess(b);
    var m: nat, j: nat :| HasForm(k, m, j);
    PowAdd(2, 53, a);
    PowAdd(2, 52, a);
    PowMono(2, b, 53 + a);
    if j < a {
      BelowBinade(k, m, j, a);
    } else {
      PowAdd(2, j - a, a);
      Assoc(m, Pow(2, j - a), Pow(2, a));
      DivUnique(k, Pow(2, a), m * Pow(2, j - a), 0);
    }
  }

  /** Two float64 values differ by at least 2^-53 of either. */
  lemma Spacing(k: nat, r: nat)
    requires IsDouble(k) && IsDouble(r) && k != r
    ensures k <= Abs(k - r) * Pow(2, 53)
  {
    hide Pow, BitLength;
    var a := Excess(BitLength(k));
    MultipleOfStep(k);
    DivMod(k, Pow(2, a));
    var m: nat, j: nat :| HasForm(r, m, j);
    if j >= a {
      PowAdd(2, j - a, a);
      Assoc(m, Pow(2, j - a), Pow(2, a));
      SpacingOfMultiples(k / Pow(2, a), m * Pow(2, j - a), Pow(2, a), Pow(2, 53));
    } else {
      BelowByHalf(r, m, j, a);
      StepIsTwice(a);
      if k / Pow(2, a) < Pow(2, 52) {
        Multiple(k / Pow(2, a), Pow(2, 52), Pow(2, a));
      }
      if k / Pow(2, a) >= Pow(2, 53) {
        Multiple(Pow(2, 53), k / Pow(2, a), Pow(2, a));
      }
      SpacingBelow(k / Pow(2, a), Pow(2, 52), Pow(2, a - 1), r);
    }
  }

  lemma StepIsTwice(a: nat)
    requires a > 0
    ensures Pow(2, a) == 2 * Pow(2, a - 1) && Pow(2, 53) == 2 * Pow(2, 52)
  {}

  lemma SpacingOfMultiples(w: nat, v: nat, q: nat, t: nat)
    requires w * q != v * q && w * q < t * q
    ensures w * q <= Abs(w * q - v * q) * t
  {
    DistinctMultiples(w, v, q);
    MulMono(q, Abs(w * q - v * q), t);
    assert q * t == t * q;
  }

  /** Just below a power of two the step is only half as large. */
  lemma SpacingBelow(w: nat, t: nat, half: nat, r: nat)
    requires half > 0 && t <= w < 2 * t && r + half <= t * (2 * half)
    ensures var k := w * (2 * half); r <= k && k <= (k - r) * (2 * t)
  {
    var q := 2 * half;
    var k := w * q;
    Multiple(t, w, q);
    Multiple(w, 2 * t, q);
    if w == t {
      MulMono(half, k - r, 2 * t);
      Assoc(t, 2, half);
      Assoc(half, 2, t);
      assert half * 2 * t == t * (2 * half) by { Assoc(t, half, 2); }
    } else {
      MulMono(q, k - r, 2 * t);
    }
  }

  lemma DistinctMultiples(a: nat, b: nat, q: nat)
    requires a * q != b * q
    ensures q <= Abs(a * q - b * q)
  {
    if a < b {
      Multiple(a, b, q);
    } else if b < a {
      Multiple(b, a, q);
    }
  }

  lemma BelowByHalf(r: nat, m: nat, j: nat, a: nat)
    requires HasForm(r, m, j) && j < a
    ensures r + Pow(2, a - 1) <= Pow(2, 52) * Pow(2, a)
  {
    hide Pow;
    PowMono(2, j, a - 1);
    MulMono(Pow(2, j), Pow(2, a - 1), m);
    Multiple(m, Pow(2, 53), Pow(2, a - 1));
    PowAdd(2, 53, a - 1);
    PowAdd(2, 52, a);
  }

  /** A fraction closer to a float64 than half of a small enough part of it rounds to that float64: here `u` is
      an upper bound on twice the distance and less than 2^-53 of the value. */
  lemma NearestIfClose(num: nat, den: nat, k: nat, u: nat)
    requires den > 0 && IsDouble(k) && 2 * Abs(num - k * den) <= u && Pow(2, 53) * u < k * den
    ensures Nearest(num, den) == k
  {
    hide Pow, Nearest, IsDouble;
    NearestIsDouble(num, den);
    NearestIsClosest(num, den, k);
    var r := Nearest(num, den);
    if r != k {
      Spacing(k, r);
      Distribute(den, k, r);
      AbsProduct(k - r, den);
      MulMono(k, Abs(k - r) * Pow(2, 53), den);
      SwapLast(Abs(k - r), Pow(2, 53), den);
      MulMono(Abs(k - r) * den, u, Pow(2, 53));
    }
  }

  lemma AbsProduct(x: int, d: nat)
    ensures Abs(x * d) == Abs(x) * d
  {
    if x >= 0 {
      MulPos(x, d);
    } else {
      MulPos(-x, d);
      assert x * d == -(-x * d);
    }
  }

  lemma NearestOfTiny(num: nat, den: nat)
    requires den > 0 && 2 * num < den
    ensures Nearest(num, den) == 0
  {
    hide Nearest;
    assert HasForm(0, 0, 0);
    NearestIsClosest(num, den, 0);
    var r := Nearest(num, den);
    if r != 0 {
      MulMono(1, r, den);
    }
  }
}
