/** `round_to_d` and `mul_pow_round_to_d`: a scaled number to the nearest float64. */
module ToDouble {
  import opened Powers
  import opened Rounding
  import opened Limbs
  import opened BigNumber
  import opened PowerTables
  import opened Scaling
  import opened Doubles

  /** `m * 2^(e - 53)` is the value of `units` times 2^-1074, with a full significand unless it is zero. */
  ghost predicate Represents(m: nat, e: int, units: nat) {
    if m == 0 then units == 0
    else
      && Pow(2, 52) <= m < Pow(2, 53) && e >= -1073
      && m * Pow(2, Pos(e + 1021)) == units * Pow(2, Pos(-e - 1021))
  }

  /** The number is the truncated quotient `num / den` with a sticky bit, with enough bits when inexact. */
  ghost predicate Approximates(v: nat, num: nat, den: nat) {
    && den > 0 && v > 0 && v == Sticky(num / den, num % den != 0)
    && (den == 1 || v >= Pow(2, 55))
  }

  /** `num / den / 2^offset` in units of 2^-1074. */
  function UnitsNum(num: nat, offset: int): nat {
    MulPos(num, Pow(2, Pos(1074 - offset)));
    num * Pow(2, Pos(1074 - offset))
  }

  function UnitsDen(den: nat, offset: int): (d: nat)
    requires den > 0
    ensures d > 0
  {
    MulPos(den, Pow(2, Pos(offset - 1074)));
    den * Pow(2, Pos(offset - 1074))
  }

  /** `round_to_d`: nearest float64, subnormal or not. The exponent is unbounded above, so that overflow shows as an
      exponent above 1024. Below 2^-1085 the source would shift a 64-bit word by 64 bits or more. */
  method RoundToD(a: Mpb, offset: int, ghost num: nat, ghost den: nat) returns (m: nat, e: int)
    requires a.Normal() && a.len + 2 <= a.tab.Length && den > 0
    requires if a.V() == 0 then num == 0 else Approximates(a.V(), num, den) && BitLength(a.V()) - offset >= -1084
    modifies a`len, a.tab
    ensures a.Normal()
    ensures Represents(m, e, Nearest(UnitsNum(num, offset), UnitsDen(den, offset)))
  {
    a.ZeroForm();
    if a.tab[0] == 0 && a.len == 1 {
      ZeroRounds(offset, den);
      return 0, 0;
    }
    m, e := RoundNonZero(a, offset, num, den);
  }

  lemma ZeroRounds(offset: int, den: nat)
    requires den > 0
    ensures Nearest(UnitsNum(0, offset), UnitsDen(den, offset)) == 0
  {
    hide Nearest, Pow;
    NearestOfTiny(UnitsNum(0, offset), UnitsDen(den, offset));
  }

  method RoundNonZero(a: Mpb, offset: int, ghost num: nat, ghost den: nat) returns (m: nat, e: int)
    requires a.Normal() && Approximates(a.V(), num, den) && a.len + 2 <= a.tab.Length
    requires BitLength(a.V()) - offset >= -1084
    modifies a`len, a.tab
    ensures a.Normal()
    ensures Represents(m, e, Nearest(UnitsNum(num, offset), UnitsDen(den, offset)))
  {
    hide Pow, BitLength, Value, Round, Nearest, NearestSteps, UnitsNum, UnitsDen, Approximates, Represents, Sticky, ShiftRound;
    ghost var v := a.V();
    ApproximationPositive(v, num, den);
    var log := a.FloorLog2();
    BitLengthUnique(v, log + 1);
    e := log + 1 - offset;
    var prec := if e < -1021 then 53 - (-1021 - e) else 53;
    LeftShiftFits(v, num, den, log + 1 - prec);
    a.ShrRound(e + offset - prec, ToNearestEven);
    ghost var r := a.V();
    RoundedQuotient(v, num, den, offset, prec, r);
    RoundedSize(v, num, den, offset, prec, r);
    m := FullWidth(a, prec);
    Assembled(v, num, den, offset, prec, r, m);
    if m >= Pow(2, 53) {
      m := m / 2;
      e := e + 1;
    }
  }

  /** The significand moved to the top of 53 bits. */
  method FullWidth(a: Mpb, prec: int) returns (m: nat)
    requires a.Normal() && prec <= 53 && (prec < 0 ==> a.V() == 0) && (prec >= 0 ==> a.V() <= Pow(2, prec))
    ensures m == a.V() * Pow(2, 53 - prec)
  {
    hide Pow, Value;
    WordFits(a.V(), prec);
    m := a.GetU64();
    m := m * Pow(2, 53 - prec) % (B * B);
  }

  function Prec(v: nat, offset: int): int {
    if BitLength(v) - offset < -1021 then BitLength(v) - offset + 1074 else 53
  }

  lemma LeftShiftFits(v: nat, num: nat, den: nat, shift: int)
    requires Approximates(v, num, den) && BitLength(v) - 53 <= shift
    ensures shift < 0 ==> -shift / 32 + 1 <= 2
  {}

  lemma ApproximationPositive(v: nat, num: nat, den: nat)
    requires Approximates(v, num, den)
    ensures v > 0 && den > 0 && v == Sticky(num / den, num % den != 0)
  {}

  /** The binade of the approximated quotient. */
  lemma Binade(v: nat, num: nat, den: nat)
    requires Approximates(v, num, den)
    ensures var l := BitLength(v); l >= 1 && Pow(2, l - 1) * den <= num < Pow(2, l) * den
    ensures den == 1 ==> v == num
    ensures den != 1 ==> BitLength(v) >= 56
  {
    hide BitLength, Pow;
    var l := BitLength(v);
    var a := num / den;
    DivMod(num, den);
    if den != 1 {
      BinadeOfSticky(v, a, num % den != 0);
    }
    BinadeBounds(num, den, a, l);
  }

  /** The sticky bit does not move a number of at least 56 bits into another binade. */
  lemma BinadeOfSticky(v: nat, a: nat, any: bool)
    requires v == Sticky(a, any) && v >= Pow(2, 55)
    ensures BitLength(v) >= 56 && Pow(2, BitLength(v) - 1) <= a < Pow(2, BitLength(v))
  {
    hide Pow;
    var l := BitLength(v);
    if l < 56 {
      PowMono(2, l, 55);
    }
    PowAdd(2, l - 2, 1);
    PowOne(2);
  }

  lemma BinadeBounds(num: nat, den: nat, a: nat, l: nat)
    requires l >= 1 && den > 0 && Pow(2, l - 1) <= a < Pow(2, l) && a * den <= num < a * den + den
    ensures Pow(2, l - 1) * den <= num < Pow(2, l) * den
  {
    hide Pow;
    MulMono(Pow(2, l - 1), a, den);
    MulMono(a + 1, Pow(2, l), den);
    Distribute(den, a, 1);
  }

  lemma QuotientBits(n: nat, d: nat, k: nat)
    requires d > 0 && n < Pow(2, k) * d && (k > 0 ==> Pow(2, k - 1) * d <= n)
    ensures n / d >= 0 && BitLength(n / d) == k
  {
    hide Pow, BitLength;
    var q: nat := n / d;
    DivMod(n, d);
    QuotientBelow(n, d, q, Pow(2, k));
    if k > 0 {
      QuotientAbove(n, d, q, Pow(2, k - 1));
    }
    BitLengthUnique(q, k);
  }

  lemma QuotientBelow(n: nat, d: nat, q: nat, p: nat)
    requires q * d <= n < p * d
    ensures q < p
  {
    if q >= p {
      MulMono(p, q, d);
    }
  }

  lemma QuotientAbove(n: nat, d: nat, q: nat, p: nat)
    requires p * d <= n < q * d + d
    ensures p <= q
  {
    if q < p {
      MulMono(q + 1, p, d);
      Distribute(d, q, 1);
    }
  }

  /** The bits of the quotient counted in units. */
  lemma UnitsBits(v: nat, num: nat, den: nat, offset: int)
    requires Approximates(v, num, den)
    ensures den > 0 && UnitsNum(num, offset) / UnitsDen(den, offset) >= 0
    ensures BitLength(UnitsNum(num, offset) / UnitsDen(den, offset)) == Pos(BitLength(v) + 1074 - offset)
  {
    hide Pow, BitLength, Approximates;
    ApproximationPositive(v, num, den);
    Binade(v, num, den);
    PowOne(2);
    if offset <= 1074 {
      UnitsBitsUp(num, den, BitLength(v), 1074 - offset);
    } else {
      UnitsBitsDown(num, den, BitLength(v), offset - 1074, UnitsDen(den, offset));
    }
  }

  lemma UnitsBitsUp(num: nat, den: nat, l: nat, i: nat)
    requires den > 0 && l >= 1 && Pow(2, l - 1) * den <= num < Pow(2, l) * den
    ensures num * Pow(2, i) >= 0 && num * Pow(2, i) / den >= 0 && BitLength(num * Pow(2, i) / den) == l + i
  {
    hide Pow, BitLength;
    MulPos(num, Pow(2, i));
    ShiftedBound(Pow(2, l - 1), den, num, Pow(2, i));
    ShiftedBound(Pow(2, l), den, num, Pow(2, i));
    PowAdd(2, l - 1, i);
    PowAdd(2, l, i);
    QuotientBits(num * Pow(2, i), den, l + i);
  }

  lemma UnitsBitsDown(num: nat, den: nat, l: nat, j: nat, d: nat)
    requires den > 0 && l >= 1 && Pow(2, l - 1) * den <= num < Pow(2, l) * den && d == den * Pow(2, j)
    ensures d > 0 && num / d >= 0 && BitLength(num / d) == if l >= j then l - j else 0
  {
    hide Pow, BitLength;
    MulPos(den, Pow(2, j));
    if l >= j {
      SplitBound(l, j, den);
      if l > j {
        SplitBound(l - 1, j, den);
      }
      QuotientBits(num, d, l - j);
    } else {
      DenominatorAbove(num, den, l, j, d);
      PowOne(2);
      QuotientBits(num, d, 0);
    }
  }

  lemma DenominatorAbove(num: nat, den: nat, l: nat, j: nat, d: nat)
    requires num < Pow(2, l) * den && l <= j && d == den * Pow(2, j)
    ensures num < d
  {
    hide Pow;
    PowMono(2, l, j);
    MulMono(Pow(2, l), Pow(2, j), den);
  }

  lemma ShiftedBound(p: nat, den: nat, num: nat, w: nat)
    requires w > 0
    ensures p * den <= num ==> (p * w) * den <= num * w
    ensures num < p * den ==> num * w < (p * w) * den
  {
    assert (p * w) * den == (p * den) * w by {
      Assoc(p, w, den);
      Assoc(p, den, w);
      assert w * den == den * w;
    }
    if p * den <= num {
      MulMono(p * den, num, w);
    } else {
      MulMonoStrict(num, p * den, w);
    }
  }

  lemma SplitBound(l: nat, j: nat, den: nat)
    requires l >= j
    ensures Pow(2, l) * den == Pow(2, l - j) * (den * Pow(2, j))
  {
    hide Pow;
    PowAdd(2, l - j, j);
    Assoc(Pow(2, l - j), Pow(2, j), den);
    assert Pow(2, j) * den == den * Pow(2, j);
  }

  /** The integer that `round_to_d` computes is the significand of the nearest float64. */
  lemma RoundedQuotient(v: nat, num: nat, den: nat, offset: int, prec: int, r: nat)
    requires Approximates(v, num, den) && prec == Prec(v, offset)
    requires r == ShiftRound(v, BitLength(v) - prec, ToNearestEven)
    ensures r == NearestSteps(UnitsNum(num, offset), UnitsDen(den, offset))
  {
    hide Pow, BitLength, Approximates, Round;
    ApproximationPositive(v, num, den);
    hide Sticky;
    UnitsBits(v, num, den, offset);
    Binade(v, num, den);
    var i, j := Pos(1074 - offset), Pos(offset - 1074);
    var s, shift := Excess(Pos(BitLength(v) + 1074 - offset)), BitLength(v) - prec;
    var n, d := UnitsNum(num, offset), UnitsDen(den, offset);
    MulPos(d, Pow(2, s));
    PowAdd(2, j, s);
    Assoc(den, Pow(2, j), Pow(2, s));
    PowOne(2);
    if shift <= 0 {
      Cross(num, 1, i, 0, -shift, j + s);
      RoundExact(num * Pow(2, -shift), ToNearestEven);
      SameFraction(n, d * Pow(2, s), num * Pow(2, -shift), 1, ToNearestEven);
    } else {
      Cross(num, den, 0, j + s, i, shift);
      MulPos(den, Pow(2, shift));
      SameFraction(num, den * Pow(2, shift), n, d * Pow(2, s), ToNearestEven);
      if den != 1 {
        StickyRounds(num, den, shift, ToNearestEven);
      }
    }
  }

  /** It has `prec` bits, or is the next power of two. */
  lemma RoundedSize(v: nat, num: nat, den: nat, offset: int, prec: int, r: nat)
    requires Approximates(v, num, den) && prec == Prec(v, offset)
    requires r == NearestSteps(UnitsNum(num, offset), UnitsDen(den, offset))
    ensures prec < 0 ==> r == 0
    ensures prec >= 0 ==> r <= Pow(2, prec)
    ensures prec >= 1 ==> Pow(2, prec - 1) <= r
  {
    hide Pow, BitLength, Approximates, UnitsNum, UnitsDen, NearestSteps;
    UnitsBits(v, num, den, offset);
    ApproximationPositive(v, num, den);
    var n, d := UnitsNum(num, offset), UnitsDen(den, offset);
    NearestParts(n, d);
    PowOne(2);
    if prec < 53 || BitLength(n / d) == 53 {
      assert r == Round(n, d, ToNearestEven);
      if prec < 0 {
        TooSmall(v, num, den, offset);
      }
    }
  }

  /** Below half a unit everything rounds to zero. */
  lemma TooSmall(v: nat, num: nat, den: nat, offset: int)
    requires Approximates(v, num, den) && BitLength(v) - offset + 1074 < 0
    ensures 2 * UnitsNum(num, offset) < UnitsDen(den, offset)
  {
    hide Pow, BitLength, Approximates;
    ApproximationPositive(v, num, den);
    Binade(v, num, den);
    var l, j := BitLength(v), offset - 1074;
    PowOne(2);
    PowMono(2, l + 1, j);
    PowAdd(2, 1, l);
    MulMono(Pow(2, l + 1), Pow(2, j), den);
    Assoc(2, Pow(2, l), den);
  }

  lemma WordFits(r: nat, prec: int)
    requires prec <= 53 && (prec < 0 ==> r == 0) && (prec >= 0 ==> r <= Pow(2, prec))
    ensures r < B * B && r * Pow(2, 53 - prec) <= Pow(2, 53) < B * B
  {
    hide Pow;
    PowAdd(2, 32, 21);
    Pow32();
    assert Pow(2, 21) == 0x20_0000 by { Pow21(); }
    if prec >= 0 {
      PowMono(2, prec, 53);
      MulMono(r, Pow(2, prec), Pow(2, 53 - prec));
      PowAdd(2, prec, 53 - prec);
    }
  }

  lemma Pow21()
    ensures Pow(2, 21) == 0x20_0000
  {
    PowAdd(2, 10, 11);
    assert Pow(2, 10) == 1024 && Pow(2, 11) == 2048;
  }

  /** The significand shifted to full width, with the carry into the next binade. */
  lemma Assembled(v: nat, num: nat, den: nat, offset: int, prec: int, r: nat, m: nat)
    requires Approximates(v, num, den) && prec == Prec(v, offset) && prec <= 53
    requires r == NearestSteps(UnitsNum(num, offset), UnitsDen(den, offset))
    requires prec < 0 ==> r == 0
    requires prec >= 0 ==> r <= Pow(2, prec)
    requires prec >= 1 ==> Pow(2, prec - 1) <= r
    requires m == r * Pow(2, 53 - prec)
    ensures var units := Nearest(UnitsNum(num, offset), UnitsDen(den, offset)); var e := BitLength(v) - offset;
      if m >= Pow(2, 53) then Represents(m / 2, e + 1, units) else Represents(m, e, units)
  {
    hide Pow, BitLength, Approximates, Round, UnitsNum, UnitsDen, Nearest, NearestSteps;
    ApproximationPositive(v, num, den);
    UnitsBits(v, num, den, offset);
    var n, d := UnitsNum(num, offset), UnitsDen(den, offset);
    NearestParts(n, d);
    var e := BitLength(v) - offset;
    var s := Excess(Pos(e + 1074));
    var units := r * Pow(2, s);
    PowOne(2);
    if r == 0 {
      PowMonoStrict(2, 0, 53);
    } else {
      PowAdd(2, prec, 53 - prec);
      Significant(r, prec);
      PowAdd(2, 53 - prec, Pos(e + 1021));
      Assoc(r, Pow(2, 53 - prec), Pow(2, Pos(e + 1021)));
      PowAdd(2, s, Pos(-e - 1021));
      Assoc(r, Pow(2, s), Pow(2, Pos(-e - 1021)));
      if r == Pow(2, prec) {
        PowAdd(2, 52, 1);
        PowAdd(2, 52, Pos(e + 1 + 1021));
        PowAdd(2, prec, s);
        PowAdd(2, prec + s, Pos(-e - 1 - 1021));
      } else {
        MulMonoStrict(r, Pow(2, prec), Pow(2, 53 - prec));
      }
    }
  }

  lemma Significant(r: nat, prec: int)
    requires 0 <= prec <= 53 && 0 < r <= Pow(2, prec) && (prec >= 1 ==> Pow(2, prec - 1) <= r)
    ensures r == Pow(2, prec) || (prec >= 1 && Pow(2, 52) <= r * Pow(2, 53 - prec))
  {
    hide Pow;
    PowOne(2);
    if prec >= 1 {
      MulMono(Pow(2, prec - 1), r, Pow(2, 53 - prec));
      PowAdd(2, prec - 1, 53 - prec);
    }
  }
}
