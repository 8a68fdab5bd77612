/** `mul_log2_radix` for radix 10: the floor of a / log2(10), exactly, by one multiplication and a shift. */
module Logarithm {
  import opened Powers

  const MULTIPLIER := 0x4d104d

  /** The arithmetic shift rounds down. */
  function MulLog2Ten(a: int): int {
    a * MULTIPLIER / 0x100_0000
  }

  /** `10^k <= 2^a` for exponents of either sign. */
  ghost predicate TenBelowTwo(k: int, a: int) {
    if a >= 0 then k < 0 || Pow(10, k) <= Pow(2, a)
    else k < 0 && Pow(2, -a) <= Pow(10, -k)
  }

  /** `2^a < 10^k` for exponents of either sign. */
  ghost predicate TwoBelowTen(a: int, k: int) {
    if a >= 0 then k >= 0 && Pow(2, a) < Pow(10, k)
    else k >= 0 || Pow(10, -k) < Pow(2, -a)
  }

  /** Over the documented range the result is the largest `k` with `10^k <= 2^a`. */
  lemma Exact(a: int)
    requires -2048 <= a <= 2047
    ensures var k := MulLog2Ten(a); TenBelowTwo(k, a) && TwoBelowTen(a, k + 1)
  {
    hide Pow;
    var k := MulLog2Ten(a);
    PowOne(2);
    PowOne(10);
    if a > 0 {
      TensBelow(k, a);
      TwosBelow(a, k + 1);
    } else if a < 0 {
      TwosBelow(-a, -k);
      if k + 1 < 0 {
        TensBelow(-k - 1, -a);
      }
    }
  }

  /** 643 / 2136 is below log10(2). */
  lemma TensBelow(k: nat, a: nat)
    requires 2136 * k <= 643 * a && a > 0
    ensures Pow(10, k) < Pow(2, a)
  {
    hide Pow;
    LowerFraction();
    PowOfPow(10, k, 2136);
    PowOfPow(10, 643, a);
    PowMono(10, k * 2136, 643 * a);
    PowBaseMonoStrict(Pow(10, 643), Pow(2, 2136), a);
    PowOfPow(2, 2136, a);
    PowOfPow(2, a, 2136);
    assert 2136 * a == a * 2136;
    RootMonoStrict(Pow(10, k), Pow(2, a), 2136);
  }

  /** 146 / 485 is above log10(2). */
  lemma TwosBelow(a: nat, k: nat)
    requires 146 * a <= 485 * k && a > 0
    ensures Pow(2, a) < Pow(10, k)
  {
    hide Pow;
    UpperFraction();
    PowOfPow(2, a, 485);
    PowOfPow(2, 485, a);
    assert 485 * a == a * 485;
    PowBaseMonoStrict(Pow(2, 485), Pow(10, 146), a);
    PowOfPow(10, 146, a);
    PowMono(10, 146 * a, k * 485);
    PowOfPow(10, k, 485);
    RootMonoStrict(Pow(2, a), Pow(10, k), 485);
  }

  lemma RootMonoStrict(a: nat, b: nat, n: nat)
    requires Pow(a, n) < Pow(b, n)
    ensures a < b
  {
    if b <= a {
      PowBaseMono(b, a, n);
    }
  }

  // ----- the two fractions -----

  lemma LowerFraction()
    ensures Pow(10, 643) < Pow(2, 2136)
  {
    hide Pow;
    Fives20();
    PowOne(2);
    SquareUp(20, 95367431640625, 0, 0, 258493941422822, 45, 0x2000_0000_0000);
    SquareUp(40, 258493941422822, 45, 0, 237389193643997, 48, 0x1_0000_0000_0000);
    SquareUp(80, 237389193643997, 138, 0, 200208309518314, 48, 0x1_0000_0000_0000);
    SquareUp(160, 200208309518314, 324, 1, 178005908680584, 50, 0x4_0000_0000_0000);
    SquareUp(321, 178005908680584, 698, 1, 281429133554671, 49, 0x2_0000_0000_0000);
    PowerOfTwo48();
    MulMonoStrict(281429133554671, Pow(2, 48), Pow(2, 1445));
    PowAdd(2, 48, 1445);
    PowProduct(5, 2, 643);
    PowAdd(2, 1493, 643);
    MulMonoStrict(Pow(5, 643), Pow(2, 1493), Pow(2, 643));
  }

  lemma UpperFraction()
    ensures Pow(2, 485) < Pow(10, 146)
  {
    hide Pow;
    Fives20();
    PowOne(2);
    SquareDown(18, 3814697265625, 0, 0, 211758236813575, 36, 0x10_0000_0000);
    SquareDown(36, 211758236813575, 36, 1, 199136488891556, 50, 0x4_0000_0000_0000);
    SquareDown(73, 199136488891556, 122, 0, 140884073147364, 48, 0x1_0000_0000_0000);
    PowerOfTwo48();
    MulMonoStrict(Pow(2, 47), 140884073147364, Pow(2, 292));
    PowAdd(2, 47, 292);
    PowProduct(5, 2, 146);
    PowAdd(2, 339, 146);
    MulMonoStrict(Pow(2, 339), Pow(5, 146), Pow(2, 146));
  }

  lemma Fives20()
    ensures Pow(5, 20) == 95367431640625 && Pow(5, 18) == 3814697265625
  {
    assert Pow(5, 10) == 9765625 && Pow(5, 8) == 390625;
    PowAdd(5, 10, 10);
    PowAdd(5, 10, 8);
  }

  lemma PowerOfTwo48()
    ensures Pow(2, 36) == 0x10_0000_0000 && Pow(2, 45) == 0x2000_0000_0000 && Pow(2, 47) == 0x8000_0000_0000
    ensures Pow(2, 48) == 0x1_0000_0000_0000 && Pow(2, 49) == 0x2_0000_0000_0000 && Pow(2, 50) == 0x4_0000_0000_0000
  {
    assert Pow(2, 12) == 0x1000 && Pow(2, 2) == 4;
    PowAdd(2, 12, 12);
    PowAdd(2, 24, 12);
    PowAdd(2, 36, 12);
    assert Pow(2, 9) == 0x200 && Pow(2, 11) == 0x800;
    PowAdd(2, 36, 9);
    PowAdd(2, 36, 11);
    PowAdd(2, 48, 1);
    PowAdd(2, 48, 2);
    PowOne(2);
  }

  /** From `5^n <= c * 2^k` to the doubled exponent, the factor rounded up. */
  lemma SquareUp(n: nat, c: nat, k: nat, odd: nat, c': nat, t: nat, w: nat)
    requires Pow(5, n) <= c * Pow(2, k) && odd <= 1
    requires c * c * (if odd == 1 then 5 else 1) <= c' * w
    requires t in {36, 45, 48, 49, 50} && w == if t == 36 then 0x10_0000_0000 else if t == 45 then 0x2000_0000_0000
      else if t == 48 then 0x1_0000_0000_0000 else if t == 49 then 0x2_0000_0000_0000 else 0x4_0000_0000_0000
    ensures Pow(5, 2 * n + odd) <= c' * Pow(2, 2 * k + t)
  {
    hide Pow;
    PowerOfTwo48();
    var x, p := Pow(5, n), Pow(2, k);
    var f := if odd == 1 then 5 else 1;
    PowAdd(5, n, n);
    PowAdd(5, 2 * n, odd);
    PowOne(5);
    PowAdd(2, k, k);
    PowAdd(2, 2 * k, t);
    MulMono(x, c * p, x);
    MulMono(x, c * p, c * p);
    Shuffle(c, p, c, p);
    MulMono(x * x, (c * c) * (p * p), f);
    SwapLast(c * c, p * p, f);
    MulMono(c * c * f, c' * w, p * p);
    Assoc(c', w, p * p);
    assert w * (p * p) == (p * p) * w;
  }

  /** From `c * 2^k <= 5^n` to the doubled exponent, the factor rounded down. */
  lemma SquareDown(n: nat, c: nat, k: nat, odd: nat, c': nat, t: nat, w: nat)
    requires c * Pow(2, k) <= Pow(5, n) && odd <= 1
    requires c' * w <= c * c * (if odd == 1 then 5 else 1)
    requires t in {36, 45, 48, 49, 50} && w == if t == 36 then 0x10_0000_0000 else if t == 45 then 0x2000_0000_0000
      else if t == 48 then 0x1_0000_0000_0000 else if t == 49 then 0x2_0000_0000_0000 else 0x4_0000_0000_0000
    ensures c' * Pow(2, 2 * k + t) <= Pow(5, 2 * n + odd)
  {
    hide Pow;
    PowerOfTwo48();
    var x, p := Pow(5, n), Pow(2, k);
    var f := if odd == 1 then 5 else 1;
    PowAdd(5, n, n);
    PowAdd(5, 2 * n, odd);
    PowOne(5);
    PowAdd(2, k, k);
    PowAdd(2, 2 * k, t);
    MulMono(c * p, x, c * p);
    MulMono(c * p, x, x);
    Shuffle(c, p, c, p);
    MulMono((c * c) * (p * p), x * x, f);
    SwapLast(c * c, p * p, f);
    MulMono(c' * w, c * c * f, p * p);
    Assoc(c', w, p * p);
    assert w * (p * p) == (p * p) * w;
  }
}
