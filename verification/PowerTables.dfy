/** Small powers: the tables for 5 and 10, repeated squaring, and normalised divisors with their inverses. */
module PowerTables {
  import opened Powers
  import opened Limbs
  import opened Rounding
  import opened BigNumber

  const DIGITS_PER_LIMB: seq<nat> := [
    32, 20, 16, 13, 12, 11, 10, 10, 9, 9, 8, 8, 8, 8, 8, 7, 7, 7, 7, 7, 7, 7, 6, 6, 6, 6, 6, 6, 6, 6, 6, 6, 6, 6, 6]

  const POW5: seq<Limb> := [
    0x00000005, 0x00000019, 0x0000007d, 0x00000271, 0x00000c35, 0x00003d09, 0x0001312d, 0x0005f5e1, 0x001dcd65,
    0x009502f9, 0x02e90edd, 0x0e8d4a51, 0x48c27395, 0x6bcc41e9, 0x1afd498d, 0x86f26fc1, 0xa2bc2ec5]

  const POW5_HIGH: seq<Limb> := [0x01, 0x07, 0x23, 0xb1]

  const POW5_INVERSE: seq<Limb> := [
    0x99999999, 0x47ae147a, 0x0624dd2f, 0xa36e2eb1, 0x4f8b588e, 0x0c6f7a0b, 0xad7f29ab, 0x5798ee23, 0x12e0be82,
    0xb7cdfd9d, 0x5fd7fe17, 0x19799812, 0xc25c2684]

  /** The number of base-`r` digits that are sure to fit a limb, for the odd factors `r` of a radix. */
  function DigitsPerLimb(r: nat): (d: nat)
    requires 2 <= r <= 36
    ensures d >= 6
  {
    DIGITS_PER_LIMB[r - 2]
  }

  predicate OddRadix(r: nat) {
    3 <= r <= 35 && r % 2 == 1
  }

  lemma DigitsFit(r: nat, n: nat)
    requires OddRadix(r) && n <= DigitsPerLimb(r)
    ensures Pow(r, n) < B
  {
    var d := DigitsPerLimb(r);
    PowMono(r, n, d);
    DigitCounts(r);
    PowBaseMono(r, LargestRadix(d), d);
    LargestPowers();
  }

  /** The largest odd radix up to 36 of which `d` digits are sure to fit. */
  function LargestRadix(d: nat): nat {
    if d >= 20 then 3 else if d >= 13 then 5 else if d >= 11 then 7 else if d >= 10 then 9
    else if d >= 9 then 11 else if d >= 8 then 15 else if d >= 7 then 23 else 35
  }

  lemma DigitCounts(r: nat)
    requires OddRadix(r)
    ensures DigitsPerLimb(r) in {20, 13, 11, 10, 9, 8, 7, 6} && r <= LargestRadix(DigitsPerLimb(r))
  {
    if r == 3 || r == 5 || r == 7 || r == 9 || r == 11 {
    } else if r == 13 || r == 15 || r == 17 || r == 19 {
    } else if r == 21 || r == 23 || r == 25 || r == 27 {
    } else {
      assert r == 29 || r == 31 || r == 33 || r == 35;
    }
  }

  lemma LargestPowers()
    ensures Pow(3, 20) < B && Pow(5, 13) < B && Pow(7, 11) < B && Pow(9, 10) < B
    ensures Pow(11, 9) < B && Pow(15, 8) < B && Pow(23, 7) < B && Pow(35, 6) < B
  {
    assert Pow(3, 10) == 59049 && Pow(5, 6) == 15625 && Pow(5, 7) == 78125 && Pow(7, 5) == 16807 && Pow(7, 6) == 117649;
    assert Pow(9, 5) == 59049 && Pow(11, 4) == 14641 && Pow(11, 5) == 161051 && Pow(15, 4) == 50625;
    assert Pow(23, 3) == 12167 && Pow(23, 4) == 279841 && Pow(35, 3) == 42875;
    PowAdd(3, 10, 10);
    PowAdd(5, 6, 7);
    PowAdd(7, 5, 6);
    PowAdd(9, 5, 5);
    PowAdd(11, 4, 5);
    PowAdd(15, 4, 4);
    PowAdd(23, 3, 4);
    PowAdd(35, 3, 3);
  }

  /** The table entry for 5^b. */
  function Pow5Entry(b: nat): nat
    requires 1 <= b <= 17
  {
    POW5[b - 1] + if b >= 14 then POW5_HIGH[b - 14] * B else 0
  }

  lemma Pow5Entries(b: nat)
    requires 1 <= b <= 17
    ensures Pow5Entry(b) == Pow(5, b)
  {
    assert Pow(5, 1) == 0x5 && Pow(5, 2) == 0x19 && Pow(5, 3) == 0x7d && Pow(5, 4) == 0x271 && Pow(5, 5) == 0xc35;
    assert Pow(5, 6) == 0x3d09 && Pow(5, 7) == 0x1312d && Pow(5, 8) == 0x5f5e1 && Pow(5, 9) == 0x1dcd65;
    assert Pow(5, 10) == 0x9502f9 && Pow(5, 11) == 0x2e90edd && Pow(5, 12) == 0xe8d4a51 && Pow(5, 13) == 0x48c27395;
    assert Pow(5, 14) == 0x16bcc41e9 && Pow(5, 15) == 0x71afd498d && Pow(5, 16) == 0x2386f26fc1 && Pow(5, 17) == 0xb1a2bc2ec5;
  }

  /** `pow_ui` on 64-bit numbers. */
  method PowUi(a: nat, b: nat) returns (r: nat)
    requires 2 <= a < B && Pow(a, b) < B * B
    ensures r == Pow(a, b)
  {
    hide Pow;
    PowOne(a);
    if b == 0 {
      return 1;
    }
    if b == 1 {
      return a;
    }
    if (a == 5 || a == 10) && b <= 17 {
      Pow5Entries(b);
      r := Pow5Entry(b);
      if a == 10 {
        PowProduct(5, 2, b);
        r := r * Pow(2, b) % (B * B);
      }
      return;
    }
    r := PowLoop(a, b);
  }

  /** Repeated squaring from the highest bit of the exponent down. */
  method PowLoop(a: nat, b: nat) returns (r: nat)
    requires a >= 2 && Pow(a, b) < B * B && b > 0
    ensures r == Pow(a, b)
  {
    hide Pow, Leading, BitLength, Wrapped;
    PowOne(a);
    r := a;
    BitLengthTop(b);
    var i: nat := BitLength(b) - 1;
    while i > 0
      invariant r == Pow(a, Leading(b, i))
    {
      i := i - 1;
      SquareStep(a, b, i, r);
      r := Wrapped(r * r);
      if Leading(b, i) % 2 == 1 {
        r := Wrapped(r * a);
      }
    }
    AllBits(b);
  }

  /** 64-bit unsigned arithmetic. */
  function Wrapped(x: nat): nat {
    x % (B * B)
  }

  lemma SquareStep(a: nat, b: nat, i: nat, r: nat)
    requires a >= 2 && Pow(a, b) < B * B && r == Pow(a, Leading(b, i + 1))
    ensures var k, s := Leading(b, i), Wrapped(r * r);
      if k % 2 == 1 then Wrapped(s * a) == Pow(a, k) else s == Pow(a, k)
  {
    hide Pow, Leading;
    NextBit(a, b, i);
    var h, k := Leading(b, i + 1), Leading(b, i);
    Unwrapped(Pow(a, 2 * h));
    Unwrapped(Pow(a, k));
  }

  lemma Unwrapped(x: nat)
    requires x < B * B
    ensures x % (B * B) == x
  {}

  /** The exponent without its low `i` bits. */
  function Leading(b: nat, i: nat): nat {
    b / Pow(2, i)
  }

  lemma AllBits(b: nat)
    ensures Leading(b, 0) == b
  {
    PowOne(2);
  }

  lemma BitLengthTop(b: nat)
    requires b > 0
    ensures var i := BitLength(b) - 1; i >= 0 && Leading(b, i) == 1
  {
    var i := BitLength(b) - 1;
    DivUnique(b, Pow(2, i), 1, b - Pow(2, i));
  }

  /** One more bit of the exponent: squared, and multiplied by the base when it is set. */
  lemma NextBit(a: nat, b: nat, i: nat)
    requires a >= 2 && Pow(a, b) < B * B
    ensures var h, k := Leading(b, i + 1), Leading(b, i);
      && k == 2 * h + k % 2 && k <= b
      && Pow(a, h) * Pow(a, h) == Pow(a, 2 * h) < B * B
      && Pow(a, k) < B * B
      && (k % 2 == 1 ==> Pow(a, 2 * h) * a == Pow(a, k))
  {
    hide Pow;
    var h, k := b / Pow(2, i + 1), b / Pow(2, i);
    PowAdd(2, i, 1);
    PowOne(2);
    DivDiv(b, Pow(2, i), 2);
    DivMod(b, Pow(2, i));
    MulMono(1, Pow(2, i), k);
    PowAdd(a, h, h);
    PowMono(a, 2 * h, b);
    PowMono(a, k, b);
    PowAdd(a, 2 * h, 1);
    PowOne(a);
  }

  /** `pow_ui_inv`: the power shifted up to a normalised divisor, and its inverse. */
  method PowUiInv(a: nat, n: nat) returns (r: Limb, inv: Limb, shift: nat)
    requires OddRadix(a) && n <= DigitsPerLimb(a)
    ensures shift < 32 && r >= B / 2 && inv == Inverse(r) && r % Pow(2, shift) == 0 && r / Pow(2, shift) == Pow(a, n)
  {
    hide Pow, Inverse, Clz32;
    DigitsFit(a, n);
    if a == 5 && 1 <= n <= 13 {
      r := POW5[n - 1];
      Pow5Entries(n);
      shift := Clz32(r);
      Cancel(r, Pow(2, shift));
      Pow5Inverses(n);
      r := r * Pow(2, shift);
      inv := POW5_INVERSE[n - 1];
    } else {
      Squares(a, n);
      r := PowUi(a, n);
      shift := Clz32(r);
      Cancel(r, Pow(2, shift));
      r := r * Pow(2, shift);
      inv := Udiv1NormInit(r);
    }
  }

  lemma Squares(a: nat, n: nat)
    requires Pow(a, n) < B
    ensures Pow(a, n) < B * B
  {}

  lemma Cancel(x: nat, s: nat)
    requires s > 0
    ensures x * s % s == 0 && x * s / s == x
  {
    DivUnique(x * s, s, x, 0);
  }

  lemma Pow5Inverses(n: nat)
    requires 1 <= n <= 13
    ensures var r := POW5[n - 1]; r > 0 && Inverse(r * Pow(2, Clz32(r))) == POW5_INVERSE[n - 1]
  {
    var r := POW5[n - 1];
    var k := POW5_SHIFT[n - 1];
    ShiftedFives(n);
    ClzUnique(r, k);
    InverseValues(n);
  }

  /** The leading zeros of the powers of 5. */
  const POW5_SHIFT: seq<nat> := [29, 27, 25, 22, 20, 18, 15, 13, 11, 8, 6, 4, 1]

  lemma PowersOfTwo()
    ensures Pow(2, 29) == 0x2000_0000 && Pow(2, 27) == 0x800_0000 && Pow(2, 25) == 0x200_0000 && Pow(2, 22) == 0x40_0000
    ensures Pow(2, 20) == 0x10_0000 && Pow(2, 18) == 0x4_0000 && Pow(2, 15) == 0x8000 && Pow(2, 13) == 0x2000
    ensures Pow(2, 11) == 0x800 && Pow(2, 8) == 0x100 && Pow(2, 6) == 0x40 && Pow(2, 4) == 0x10 && Pow(2, 1) == 2
  {}

  lemma ShiftedFives(n: nat)
    requires 1 <= n <= 13
    ensures B / 2 <= POW5[n - 1] * Pow(2, POW5_SHIFT[n - 1]) < B
  {
    hide Pow;
    PowersOfTwo();
  }

  lemma ClzUnique(x: Limb, k: nat)
    requires x > 0 && B / 2 <= x * Pow(2, k) < B
    ensures Clz32(x) == k
  {
    hide Pow;
    var c := Clz32(x);
    if c < k {
      PowAdd(2, c, k - c);
      Assoc(x, Pow(2, c), Pow(2, k - c));
      PowMono(2, 1, k - c);
      PowOne(2);
      MulMono(2, Pow(2, k - c), x * Pow(2, c));
    } else if k < c {
      PowAdd(2, k, c - k);
      Assoc(x, Pow(2, k), Pow(2, c - k));
      PowMono(2, 1, c - k);
      PowOne(2);
      MulMono(2, Pow(2, c - k), x * Pow(2, k));
    }
  }

  lemma InverseValues(n: nat)
    requires 1 <= n <= 13 && B / 2 <= POW5[n - 1] * Pow(2, POW5_SHIFT[n - 1]) < B
    ensures Inverse(POW5[n - 1] * Pow(2, POW5_SHIFT[n - 1])) == POW5_INVERSE[n - 1]
  {
    hide Pow;
    PowersOfTwo();
  }
}
