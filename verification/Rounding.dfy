/** Rounding a quotient of natural numbers to an integer. */
module Rounding {
  import opened Powers

  datatype Mode = ToNearestEven | ToNearestAway | TowardZero

  /** Whether the quotient with floor `q` and remainder `r` is rounded up. */
  predicate RoundsUp(q: nat, r: nat, den: nat, mode: Mode) {
    match mode
    case ToNearestEven => 2 * r > den || (2 * r == den && q % 2 == 1)
    case ToNearestAway => 2 * r >= den
    case TowardZero => false
  }

  function Round(num: nat, den: nat, mode: Mode): nat
    requires den > 0
  {
    num / den + if RoundsUp(num / den, num % den, den, mode) then 1 else 0
  }

  /** Divided by a power of two that may be negative: exactly to the left, rounded to the right. */
  function ShiftRound(v: nat, shift: int, mode: Mode): nat {
    if shift <= 0 then MulPos(v, Pow(2, -shift)); v * Pow(2, -shift) else Round(v, Pow(2, shift), mode)
  }

  /** Rounding depends on the value of the fraction only. */
  lemma RoundScaled(num: nat, den: nat, k: nat, mode: Mode)
    requires den > 0 && k > 0
    ensures den * k > 0 && Round(num * k, den * k, mode) == Round(num, den, mode)
  {
    MulPos(den, k);
    var q, r := num / den, num % den;
    DivMod(num, den);
    Distribute(k, q * den, r);
    Assoc(q, den, k);
    MulMonoStrict(r, den, k);
    DivUnique(num * k, den * k, q, r * k);
    Assoc(2, r, k);
    if 2 * r < den {
      MulMonoStrict(2 * r, den, k);
    } else if den < 2 * r {
      MulMonoStrict(den, 2 * r, k);
    }
  }

  lemma SameFraction(n: nat, d: nat, n': nat, d': nat, mode: Mode)
    requires d > 0 && d' > 0 && n * d' == n' * d
    ensures Round(n, d, mode) == Round(n', d', mode)
  {
    hide Round;
    RoundScaled(n, d, d', mode);
    RoundScaled(n', d', d, mode);
  }

  lemma RoundExact(num: nat, mode: Mode)
    ensures Round(num, 1, mode) == num
  {}

  /** No integer is closer than the rounded one; at a tie, to even, the other candidate is odd. */
  lemma RoundIsNearest(num: nat, den: nat, z: int)
    requires den > 0
    ensures var r := Round(num, den, ToNearestEven);
      && Abs(num - r * den) <= Abs(num - z * den) && 2 * Abs(num - r * den) <= den
      && (z != r && Abs(num - z * den) == Abs(num - r * den) ==> r % 2 == 0)
  {
    var q, s := num / den, num % den;
    DivMod(num, den);
    var r := Round(num, den, ToNearestEven);
    Distribute(den, q, 1);
    assert num - r * den == if r == q then s else s - den;
    if z <= q {
      Multiple(z, q, den);
    } else {
      Multiple(q + 1, z, den);
    }
  }

  /** Away from zero the rounded integer is as close, and at a tie it is the upper candidate. */
  lemma RoundAwayIsNearest(num: nat, den: nat, z: int)
    requires den > 0
    ensures var r := Round(num, den, ToNearestAway);
      && Abs(num - r * den) <= Abs(num - z * den) && 2 * Abs(num - r * den) <= den
      && (2 * Abs(num - r * den) == den ==> r * den > num)
  {
    var q, s := num / den, num % den;
    DivMod(num, den);
    var r := Round(num, den, ToNearestAway);
    Distribute(den, q, 1);
    assert num - r * den == if r == q then s else s - den;
    if z <= q {
      Multiple(z, q, den);
    } else {
      Multiple(q + 1, z, den);
    }
  }

  /** Toward zero it is the largest integer not above the quotient. */
  lemma RoundDownIsFloor(num: nat, den: nat)
    requires den > 0
    ensures var r := Round(num, den, TowardZero); r * den <= num < (r + 1) * den
  {
    var q := num / den;
    DivMod(num, den);
    Distribute(den, q, 1);
  }

  function Abs(x: int): nat {
    if x < 0 then -x else x
  }

  // ----- the sticky bit -----

  /** The low bit set when `any` holds. */
  function Sticky(a: nat, any: bool): nat {
    if any && a % 2 == 0 then a + 1 else a
  }

  /** A truncated quotient whose low bit records whether anything was lost rounds, at two or more bits
      further down, like the exact one. */
  lemma StickyRounds(num: nat, den: nat, k: nat, mode: Mode)
    requires den > 0 && k >= 2
    ensures Pow(2, k) > 0 && den * Pow(2, k) > 0
    ensures Round(Sticky(num / den, num % den != 0), Pow(2, k), mode) == Round(num, den * Pow(2, k), mode)
  {
    hide Round;
    var h := Pow(2, k - 2);
    assert Pow(2, k) == 4 * h;
    StickyRoundsAt(num, den, h, mode);
  }

  lemma StickyRoundsAt(num: nat, den: nat, h: nat, mode: Mode)
    requires den > 0 && h > 0
    ensures den * (4 * h) > 0
    ensures Round(Sticky(num / den, num % den != 0), 4 * h, mode) == Round(num, den * (4 * h), mode)
  {
    hide Round, Sticky;
    MulPos(den, 4 * h);
    var a, rem := Quotient(num, den);
    var q, t := Quotient(a, 4 * h);
    StickyParameters(num, den, 4 * h, 2 * h, mode, a, rem, q, t);
  }

  lemma Quotient(n: nat, d: nat) returns (q: nat, r: nat)
    requires d > 0
    ensures q == n / d && r == n % d
    ensures n == q * d + r && r < d
  {
    q, r := n / d, n % d;
    DivMod(n, d);
  }

  /** Rounding by the parts of the quotient. */
  lemma RoundParts(n: nat, d: nat, q: nat, r: nat, mode: Mode)
    requires d > 0 && n == q * d + r && r < d
    ensures Round(n, d, mode) == q + if RoundsUp(q, r, d, mode) then 1 else 0
  {
    hide RoundsUp;
    DivUnique(n, d, q, r);
  }

  /** The quotient `a` of `num` by `den`, divided again by `p`. */
  lemma StickyParameters(num: nat, den: nat, p: nat, half: nat, mode: Mode, a: nat, rem: nat, q: nat, t: nat)
    requires half > 0 && half % 2 == 0 && p == 2 * half && den * p > 0
    requires num == a * den + rem && rem < den && a == q * p + t && t < p
    ensures Round(Sticky(a, rem != 0), p, mode) == Round(num, den * p, mode)
  {
    hide Round, Sticky, RoundsUp;
    var r := if rem != 0 && t % 2 == 0 then t + 1 else t;
    StickyParts(a, rem != 0, q, half, t);
    RoundParts(Sticky(a, rem != 0), p, q, r, mode);
    MulPos(t, den);
    TwiceDivided(num, den, p, a, rem, q, t);
    RoundParts(num, den * p, q, t * den + rem, mode);
    SameDecision(t, rem, den, half, p, q, r, mode);
  }

  lemma TwiceDivided(num: nat, den: nat, p: nat, a: nat, rem: nat, q: nat, t: nat)
    requires num == a * den + rem && rem < den && a == q * p + t && t < p
    ensures num == q * (den * p) + (t * den + rem) && t * den + rem < den * p
  {
    Distribute(den, q * p, t);
    Assoc(q, p, den);
    MulMono(t + 1, p, den);
    Distribute(den, t, 1);
  }

  /** The sticky bit decides like the exact remainder. */
  lemma SameDecision(t: nat, rem: nat, den: nat, half: nat, p: nat, q: nat, r: nat, mode: Mode)
    requires rem < den && p == 2 * half && half % 2 == 0 && t * den + rem >= 0 && den * p >= 0
    requires r == if rem != 0 && t % 2 == 0 then t + 1 else t
    ensures RoundsUp(q, r, p, mode) == RoundsUp(q, t * den + rem, den * p, mode)
  {
    CompareHalf(t, rem, den, half);
    DecideBy(t, rem, half, p, q, r, t * den + rem, den * p, mode);
  }

  lemma DecideBy(t: nat, rem: nat, half: nat, p: nat, q: nat, r: nat, whole: nat, all: nat, mode: Mode)
    requires p == 2 * half && half % 2 == 0 && r == if rem != 0 && t % 2 == 0 then t + 1 else t
    requires t < half ==> 2 * whole < all
    requires t == half ==> 2 * whole == all + 2 * rem
    requires t > half ==> 2 * whole > all
    ensures RoundsUp(q, r, p, mode) == RoundsUp(q, whole, all, mode)
  {}

  /** Comparing the whole remainder with half the divisor is comparing its leading part, unless that is
      exactly half. */
  lemma CompareHalf(t: nat, rem: nat, den: nat, half: nat)
    requires rem < den
    ensures t < half ==> 2 * (t * den + rem) < den * (2 * half)
    ensures t == half ==> 2 * (t * den + rem) == den * (2 * half) + 2 * rem
    ensures t > half ==> 2 * (t * den + rem) > den * (2 * half)
  {
    assert den * (2 * half) == 2 * (half * den) by { Assoc(den, 2, half); Assoc(2, half, den); }
    if t < half {
      Multiple(t, half, den);
    } else if t > half {
      Multiple(half, t, den);
    }
  }

  lemma StickyParts(a: nat, any: bool, q: nat, half: nat, t: nat)
    requires a == q * (2 * half) + t && t < 2 * half
    ensures var r := if any && t % 2 == 0 then t + 1 else t; Sticky(a, any) == q * (2 * half) + r && r < 2 * half
  {
    Assoc(q, 2, half);
    EvenPart(a, q * half, t);
    if t % 2 == 0 {
      NextEven(t, half);
    }
  }

  lemma NextEven(t: nat, half: nat)
    requires t < 2 * half && t % 2 == 0
    ensures t + 1 < 2 * half
  {}

  lemma EvenPart(a: nat, m: nat, t: nat)
    requires a == 2 * m + t
    ensures a % 2 == t % 2
  {}
}
