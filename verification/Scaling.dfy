/** `mul_pow` and `mul_pow_round`: a number times a power of the radix, rounded once. */
module Scaling {
  import opened Powers
  import opened Rounding
  import opened Limbs
  import opened BigNumber
  import opened PowerTables

  /** The number of limb-sized factors of the `f`-th power. */
  function Steps(f: nat, d: nat): nat
    requires d > 0
  {
    (f + d - 1) / d
  }

  lemma OneStep(f: nat, d: nat)
    requires d > 0 && f > 0
    ensures var n := Min(f, d); n > 0 && Steps(f - n, d) == Steps(f, d) - 1
  {
    if f >= d {
      AddMultiple(f - 1, 1, d);
      assert f - d + d - 1 == f - 1;
    } else {
      DivUnique(d - 1, d, 0, d - 1);
      DivUnique(f + d - 1, d, 1, f - 1);
    }
  }

  lemma StepsCover(f: nat, d: nat)
    requires d > 0
    ensures f <= Steps(f, d) * d
  {
    DivMod(f + d - 1, d);
  }

  // ----- one factor -----

  /** Times a limb, in place. */
  method MulLimb(a: Mpb, b: Limb)
    requires a.Normal() && a.V() > 0 && b > 0 && a.len < a.tab.Length
    modifies a`len, a.tab
    ensures a.Normal() && a.V() == old(a.V()) * b && a.len <= old(a.len) + 1
  {
    hide Pow, Value;
    ghost var v := a.V();
    NormalSize(a.tab[..a.len]);
    var h := Mul1(a.tab, a.len, b, 0);
    MulMono(1, b, v);
    if h != 0 {
      ghost var low := a.tab[..a.len];
      a.tab[a.len] := h;
      assert a.tab[..a.len] == low;
      ValueSnoc(a.tab[..], a.len);
      assert a.tab[..][..a.len + 1] == a.tab[..a.len + 1] && a.tab[..][..a.len] == a.tab[..a.len];
      a.len := a.len + 1;
    } else {
      NormalSize(a.tab[..a.len]);
    }
  }

  /** `b` is `d` shifted up to the top of a limb, `inv` its inverse. */
  ghost predicate Divides(b: Limb, inv: Limb, shift: nat, d: nat) {
    && shift < 32 && b >= B / 2 && inv == Inverse(b) && b % Pow(2, shift) == 0
    && d == b / Pow(2, shift) && d > 0
  }

  predicate IsQuotient(n: nat, d: nat, q: nat, r: nat) {
    d > 0 && q == n / d && r == n % d
  }

  /** Divided by a number that fits a limb, given normalised. */
  method DivLimb(a: Mpb, b: Limb, inv: Limb, shift: nat, ghost d: nat) returns (r: Limb)
    requires a.Normal() && Divides(b, inv, shift, d)
    modifies a`len, a.tab
    ensures a.Normal() && a.len <= old(a.len) && IsQuotient(old(a.V()), d, a.V(), r)
  {
    hide Pow, Value, Inverse;
    ghost var v := a.V();
    r := Div1Norm(a.tab, a.len, b, 0, inv, shift);
    DivUnique(v, d, Value(a.tab[..a.len]), r);
    a.Renorm();
  }

  /** Times `radix1` to the power `f`. */
  method MulUp(a: Mpb, radix1: nat, f: nat)
    requires a.Normal() && a.V() > 0 && OddRadix(radix1) && a.len + Steps(f, DigitsPerLimb(radix1)) <= a.tab.Length
    modifies a`len, a.tab
    ensures a.Normal() && a.V() == old(a.V()) * Pow(radix1, f) && a.V() > 0
    ensures a.len <= old(a.len) + Steps(f, DigitsPerLimb(radix1))
  {
    hide Pow, Value, Steps, DigitsPerLimb;
    var d := DigitsPerLimb(radix1);
    var b: Limb, n0: nat, left: nat := 0, 0, f;
    ghost var v, size := a.V(), a.len;
    PowOne(radix1);
    NoSteps(d);
    while left != 0
      invariant left <= f && a.Normal() && a.V() == v * Pow(radix1, f - left) && a.V() > 0
      invariant n0 != 0 ==> b == Pow(radix1, n0)
      invariant a.len + Steps(left, d) <= size + Steps(f, d)
    {
      var n: nat := Min(left, d);
      OneStep(left, d);
      DigitsFit(radix1, n);
      if n != n0 {
        Squares(radix1, n);
        b := PowUi(radix1, n);
        n0 := n;
      }
      PowAdd(radix1, f - left, n);
      Assoc(v, Pow(radix1, f - left), Pow(radix1, n));
      MulPos(a.V(), b);
      MulLimb(a, b);
      left := left - n;
    }
  }

  lemma NoSteps(d: nat)
    requires d > 0
    ensures Steps(0, d) == 0
  {
    DivUnique(d - 1, d, 0, d - 1);
  }

  method Divisor(radix1: nat, n: nat) returns (b: Limb, inv: Limb, shift: nat)
    requires OddRadix(radix1) && n <= DigitsPerLimb(radix1)
    ensures Divides(b, inv, shift, Pow(radix1, n))
  {
    hide Pow, Inverse;
    b, inv, shift := PowUiInv(radix1, n);
  }

  /** Divided by `radix1` to the power `f`; also whether anything was lost. */
  method DivDown(a: Mpb, radix1: nat, f: nat) returns (any: bool)
    requires a.Normal() && OddRadix(radix1)
    modifies a`len, a.tab
    ensures a.Normal() && a.len <= old(a.len) && a.V() == old(a.V()) / Pow(radix1, f)
    ensures any == (old(a.V()) % Pow(radix1, f) != 0)
  {
    hide Pow, Value, DigitsPerLimb, Divides;
    var d := DigitsPerLimb(radix1);
    var b: Limb, inv: Limb, shift: nat, n0: nat, left: nat := 0, 0, 0, 0, f;
    ghost var v := a.V();
    any := false;
    PowOne(radix1);
    NoQuotient(v);
    while left != 0
      invariant left <= f && a.Normal() && a.len <= old(a.len) && a.V() == v / Pow(radix1, f - left)
      invariant any == (v % Pow(radix1, f - left) != 0)
      invariant n0 != 0 ==> Divides(b, inv, shift, Pow(radix1, n0))
    {
      var n: nat := Min(left, d);
      if n != n0 {
        b, inv, shift := Divisor(radix1, n);
        n0 := n;
      }
      PowAdd(radix1, f - left, n);
      DivDiv(v, Pow(radix1, f - left), Pow(radix1, n));
      var r := DivLimb(a, b, inv, shift, Pow(radix1, n));
      any := any || r != 0;
      left := left - n;
    }
  }

  // ----- a power of the radix -----

  /** Limbs that `mul_pow` may need besides those of the number. */
  function Room(radix1: nat, radixShift: nat, f: int, isInt: bool, e: int): nat
    requires radix1 == 1 || OddRadix(radix1)
  {
    if radix1 == 1 then 0
    else if f >= 0 then Steps(f, DigitsPerLimb(radix1))
    else
      var l := Steps(-f, DigitsPerLimb(radix1));
      (32 * l + Pos(if isInt then 2 + e - (-f * radixShift + 32 * l) else e)) / 32 + 1
  }

  /** `v` times a power of the odd factor of the radix and of two, truncated to an integer with a sticky bit. */
  ghost predicate Scaled(v: nat, radix1: nat, f: int, bits: nat, result: nat) {
    var num, den := v * Pow(radix1, Pos(f)) * Pow(2, bits), Pow(radix1, Pos(-f));
    den > 0 && result == Sticky(num / den, num % den != 0)
  }

  /** `mul_pow`: the number becomes `a * radix1^f * 2^bits`, exactly for `f >= 0`; the offset accounts for the
      bits and the even factor of the radix. With `isInt` at least two bits more than an integer times 2^e
      needs are kept, otherwise at least `e` bits. */
  method MulPow(a: Mpb, radix1: nat, radixShift: nat, f: int, isInt: bool, e: int) returns (offset: int, ghost bits: nat)
    requires a.Normal() && a.V() > 0 && (radix1 == 1 || OddRadix(radix1))
    requires a.len + Room(radix1, radixShift, f, isInt, e) <= a.tab.Length
    modifies a`len, a.tab
    ensures a.Normal() && a.V() > 0 && a.len <= old(a.len) + Room(radix1, radixShift, f, isInt, e)
    ensures Scaled(old(a.V()), radix1, f, bits, a.V()) && offset == -f * radixShift + bits
    ensures f >= 0 || radix1 == 1 ==> bits == 0
    ensures f < 0 && radix1 != 1 ==> if isInt then offset >= e + 2 else e >= 0 ==> a.V() >= Pow(2, e)
  {
    hide Pow, Value, Scaled, DigitsPerLimb, Steps;
    ghost var v := a.V();
    offset := -f * radixShift;
    bits := 0;
    if radix1 == 1 {
      ScaledByOne(v, f);
    } else if f >= 0 {
      MulUp(a, radix1, f);
      ScaledUp(v, radix1, f);
    } else {
      var l := Steps(-f, DigitsPerLimb(radix1));
      offset := offset + l * 32;
      var extra: nat;
      ghost var log := 0;
      if isInt {
        extra := Pos(2 + e - offset);
      } else {
        var k := a.FloorLog2();
        extra := Pos(e - k);
        log := k;
      }
      offset := offset + extra;
      bits := l * 32 + extra;
      StepsPositive(-f, DigitsPerLimb(radix1));
      a.ShrRound(-(l * 32 + extra), TowardZero);
      ghost var n := a.V();
      var any := DivDown(a, radix1, -f);
      KeepsBits(v, radix1, -f, l, extra, log, e);
      SetSticky(a, any);
      ScaledDown(v, radix1, f, bits, a.V());
    }
  }

  /** `tab[0] |= any` */
  method SetSticky(a: Mpb, any: bool)
    requires a.Normal()
    modifies a.tab
    ensures a.Normal() && a.V() == Sticky(old(a.V()), any)
  {
    hide Pow, Value;
    ghost var was := a.tab[..a.len];
    HeadIsLow(was);
    if any && a.tab[0] % 2 == 0 {
      a.tab[0] := a.tab[0] + 1;
      assert a.tab[..a.len] == was[0 := was[0] + 1];
      HeadIsLow(a.tab[..a.len]);
    }
  }

  lemma HeadIsLow(s: seq<Limb>)
    requires s != []
    ensures Value(s) == s[0] + B * Value(s[1..]) && Value(s) % 2 == s[0] % 2
    ensures s[0] < B - 1 ==> Value(s[0 := s[0] + 1]) == Value(s) + 1
  {
    var h := Value(s[1..]);
    EvenPart(Value(s), B / 2 * h, s[0]);
    if s[0] < B - 1 {
      assert s[0 := s[0] + 1][1..] == s[1..];
    }
  }

  lemma StepsPositive(f: nat, d: nat)
    requires f > 0 && d > 0
    ensures Steps(f, d) >= 1
  {
    StepsCover(f, d);
  }

  lemma ScaledByOne(v: nat, f: int)
    ensures Scaled(v, 1, f, 0, v)
  {
    PowOfOne(Pos(f));
    PowOfOne(Pos(-f));
    PowOne(2);
    NoQuotient(v);
  }

  lemma ScaledUp(v: nat, radix1: nat, f: nat)
    ensures Scaled(v, radix1, f, 0, v * Pow(radix1, f))
  {
    PowOne(radix1);
    PowOne(2);
    NoQuotient(v * Pow(radix1, f));
  }

  lemma ScaledDown(v: nat, radix1: nat, f: int, bits: nat, result: nat)
    requires f < 0 && radix1 > 0
    requires var n := v * Pow(2, bits); result == Sticky(n / Pow(radix1, -f), n % Pow(radix1, -f) != 0)
    ensures Scaled(v, radix1, f, bits, result)
  {
    PowOne(radix1);
  }

  /** The limbs that are shifted in outweigh the divisor. */
  lemma KeepsBits(v: nat, radix1: nat, f: nat, l: nat, extra: nat, log: nat, e: int)
    requires OddRadix(radix1) && f > 0 && l == Steps(f, DigitsPerLimb(radix1)) && v > 0
    ensures var q := v * Pow(2, l * 32 + extra) / Pow(radix1, f);
      q > 0 && (Pow(2, log) <= v && 0 <= e <= log + extra ==> q >= Pow(2, e))
  {
    hide Pow, DigitsPerLimb, Steps;
    var d, p := DigitsPerLimb(radix1), Pow(radix1, f);
    StepsCover(f, d);
    PowMono(radix1, f, l * d);
    PowOfPow(radix1, d, l);
    assert d * l == l * d;
    DigitsFit(radix1, d);
    PowBaseMono(Pow(radix1, d), B, l);
    PowBase(l);
    PowAdd(2, l * 32, extra);
    var w := v * Pow(2, extra);
    assert v * Pow(2, l * 32 + extra) == w * Pow(2, l * 32) by {
      Assoc(v, Pow(2, extra), Pow(2, l * 32));
    }
    AtLeastQuotient(w, Pow(2, l * 32), p);
    MulPos(v, Pow(2, extra));
    if Pow(2, log) <= v && 0 <= e <= log + extra {
      MulMono(Pow(2, log), v, Pow(2, extra));
      PowAdd(2, log, extra);
      PowMono(2, e, log + extra);
    }
  }

  lemma AtLeastQuotient(w: nat, big: nat, p: nat)
    requires 0 < p <= big
    ensures w * big / p >= w
  {
    MulMono(p, big, w);
    DivMod(w * big, p);
    if w * big / p < w {
      MulMono(w * big / p + 1, w, p);
      Distribute(p, w * big / p, 1);
    }
  }

  // ----- rounding the scaled number -----

  /** `m * 2^e * radix^f` as a fraction. */
  function ScaledNum(m: nat, e: int, radix: nat, f: int): nat {
    MulPos(m, Pow(2, Pos(e)));
    MulPos(m * Pow(2, Pos(e)), Pow(radix, Pos(f)));
    m * Pow(2, Pos(e)) * Pow(radix, Pos(f))
  }

  function ScaledDen(e: int, radix: nat, f: int): (d: nat)
    requires radix > 0
    ensures d > 0
  {
    MulPos(Pow(2, Pos(-e)), Pow(radix, Pos(-f)));
    Pow(2, Pos(-e)) * Pow(radix, Pos(-f))
  }

  /** The radix from its odd factor and the power of two in it. */
  function Radix(radix1: nat, radixShift: nat): (r: nat)
    requires radix1 > 0
    ensures r > 0
  {
    MulPos(radix1, Pow(2, radixShift));
    radix1 * Pow(2, radixShift)
  }

  /** Limbs that `mul_pow_round` may need besides the two of its operand. */
  function RoundRoom(radix1: nat, radixShift: nat, f: int, e: int): nat
    requires radix1 == 1 || OddRadix(radix1)
  {
    Room(radix1, radixShift, f, true, e) + if f >= 0 || radix1 == 1 then Pos(e + f * radixShift) / 32 + 1 else 0
  }

  /** `mul_pow_round`: exactly `m * 2^e * radix^f`, rounded once. */
  method MulPowRound(a: Mpb, m: nat, e: int, radix1: nat, radixShift: nat, f: int, mode: Mode)
    requires a.Valid() && 0 < m < B * B && (radix1 == 1 || OddRadix(radix1))
    requires 2 + RoundRoom(radix1, radixShift, f, e) <= a.tab.Length
    modifies a`len, a.tab
    ensures a.Normal()
    ensures var radix := Radix(radix1, radixShift);
      a.V() == Round(ScaledNum(m, e, radix, f), ScaledDen(e, radix, f), mode)
  {
    hide Pow, Value, Scaled, Round, ScaledNum, ScaledDen, Radix, Room;
    a.SetU64(m);
    var offset;
    ghost var bits;
    TwoLimbsAtMost(a);
    offset, bits := MulPow(a, radix1, radixShift, f, true, e);
    ghost var result := a.V();
    ShiftRoom(e, f, radixShift, offset, bits);
    a.ShrRound(-e + offset, mode);
    ScaledRounds(m, radix1, radixShift, f, bits, e, result, mode);
  }

  lemma TwoLimbsAtMost(a: Mpb)
    requires a.Normal() && a.V() < B * B
    ensures a.len <= 2
  {
    hide Pow, Value;
    NormalSize(a.tab[..a.len]);
    if a.len > 2 {
      PowMono(B, 2, a.len - 1);
      SquareOfBase();
    }
  }

  lemma ShiftRoom(e: int, f: int, radixShift: nat, offset: int, bits: nat)
    requires offset == -f * radixShift + bits
    ensures -e + offset < 0 ==> -(-e + offset) / 32 <= Pos(e + f * radixShift) / 32
  {
    assert -f * radixShift == -(f * radixShift);
  }

  /** Both parts of the fraction, with the powers of two collected. */
  lemma FractionFactors(m: nat, radix1: nat, radixShift: nat, e: int, f: int)
    requires radix1 > 0
    ensures var radix := Radix(radix1, radixShift);
      && ScaledNum(m, e, radix, f) == m * Pow(radix1, Pos(f)) * Pow(2, Pos(e) + radixShift * Pos(f))
      && ScaledDen(e, radix, f) == Pow(radix1, Pos(-f)) * Pow(2, Pos(-e) + radixShift * Pos(-f))
  {
    hide Pow;
    var up, down := Pos(f), Pos(-f);
    RadixPower(radix1, radixShift, up);
    RadixPower(radix1, radixShift, down);
    PowAdd(2, Pos(e), radixShift * up);
    PowAdd(2, Pos(-e), radixShift * down);
    Shuffle(m, Pow(2, Pos(e)), Pow(radix1, up), Pow(2, radixShift * up));
    Shuffle(1, Pow(2, Pos(-e)), Pow(radix1, down), Pow(2, radixShift * down));
  }

  lemma RadixPower(radix1: nat, radixShift: nat, n: nat)
    requires radix1 > 0
    ensures Pow(Radix(radix1, radixShift), n) == Pow(radix1, n) * Pow(2, radixShift * n)
  {
    hide Pow;
    PowProduct(radix1, Pow(2, radixShift), n);
    PowOfPow(2, radixShift, n);
  }

  /** Products of powers of two with the same total exponent. */
  lemma Cross(u: nat, q: nat, i: nat, j: nat, k: nat, l: nat)
    requires i + j == k + l
    ensures (u * Pow(2, i)) * (q * Pow(2, j)) == (u * Pow(2, k)) * (q * Pow(2, l))
  {
    hide Pow;
    Shuffle(u, Pow(2, i), q, Pow(2, j));
    Shuffle(u, Pow(2, k), q, Pow(2, l));
    PowAdd(2, i, j);
    PowAdd(2, k, l);
  }

  /** Rounding the truncated number with its sticky bit is rounding the exact fraction. */
  lemma ScaledRounds(m: nat, radix1: nat, radixShift: nat, f: int, bits: nat, e: int, result: nat, mode: Mode)
    requires radix1 > 0 && Scaled(m, radix1, f, bits, result)
    requires if f >= 0 || radix1 == 1 then bits == 0 else -e + (-f * radixShift + bits) >= 2
    ensures var shift := -e + (-f * radixShift + bits); var radix := Radix(radix1, radixShift);
      ShiftRound(result, shift, mode) == Round(ScaledNum(m, e, radix, f), ScaledDen(e, radix, f), mode)
  {
    hide Pow, Round, ScaledNum, ScaledDen, Radix, Sticky;
    var shift := -e + (-f * radixShift + bits);
    var radix := Radix(radix1, radixShift);
    var u, q := m * Pow(radix1, Pos(f)), Pow(radix1, Pos(-f));
    var num, den := ScaledNum(m, e, radix, f), ScaledDen(e, radix, f);
    FractionFactors(m, radix1, radixShift, e, f);
    Exponents(e, f, radixShift, bits);
    var a, b := Pos(e) + radixShift * Pos(f), Pos(-e) + radixShift * Pos(-f);
    if shift < 2 {
      ScaledExactly(m, radix1, f, result);
    }
    if shift <= 0 {
      Cross(u, 1, a, 0, -shift, b);
      PowOne(2);
      RoundExact(result * Pow(2, -shift), mode);
      SameFraction(num, den, result * Pow(2, -shift), 1, mode);
    } else {
      var n := u * Pow(2, bits);
      MulPos(q, Pow(2, shift));
      Cross(u, q, bits, b, a, shift);
      SameFraction(n, q * Pow(2, shift), num, den, mode);
      if shift >= 2 {
        StickyRounds(n, q, shift, mode);
      }
    }
  }

  lemma Exponents(e: int, f: int, radixShift: nat, bits: nat)
    ensures var shift := -e + (-f * radixShift + bits);
      bits + (Pos(-e) + radixShift * Pos(-f)) == (Pos(e) + radixShift * Pos(f)) + shift
  {
    assert radixShift * f == radixShift * Pos(f) - radixShift * Pos(-f);
    assert -f * radixShift == -(radixShift * f);
  }

  lemma ScaledExactly(m: nat, radix1: nat, f: int, result: nat)
    requires Scaled(m, radix1, f, 0, result) && (f >= 0 || radix1 == 1)
    ensures Pow(radix1, Pos(-f)) == 1 && result == m * Pow(radix1, Pos(f)) == m * Pow(radix1, Pos(f)) * Pow(2, 0)
  {
    PowOfOne(Pos(-f));
    PowOne(2);
    PowOne(radix1);
    NoQuotient(m * Pow(radix1, Pos(f)));
  }
}
