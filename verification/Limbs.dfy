/** Arithmetic on arrays of 32-bit limbs, least significant first, updated in place. */
module Limbs {
  import opened Powers

  const B := 0x1_0000_0000

  type Limb = x: nat | x < 0x1_0000_0000

  /** The number a sequence of limbs stands for. */
  function Value(s: seq<Limb>): nat {
    if s == [] then 0 else MulPos(B, Value(s[1..])); s[0] + B * Value(s[1..])
  }

  lemma {:induction false} ValueSplit(s: seq<Limb>, k: nat)
    requires k <= |s|
    ensures Value(s) == Value(s[..k]) + Pow(B, k) * Value(s[k..])
    decreases k
  {
    if k == 0 {
      assert s[k..] == s;
    } else {
      ValueSplit(s[1..], k - 1);
      assert s[1..][..k - 1] == s[..k][1..] && s[1..][k - 1..] == s[k..];
      Distribute(B, Value(s[1..][..k - 1]), Pow(B, k - 1) * Value(s[k..]));
      Assoc(B, Pow(B, k - 1), Value(s[k..]));
    }
  }

  lemma ValueOne(x: Limb)
    ensures Value([x]) == x
  {
    assert [x][1..] == [];
  }

  lemma ValueSnoc(s: seq<Limb>, i: nat)
    requires i < |s|
    ensures Value(s[..i + 1]) == Value(s[..i]) + Pow(B, i) * s[i] && Pow(B, i + 1) == B * Pow(B, i)
  {
    var t := s[..i + 1];
    ValueSplit(t, i);
    assert t[..i] == s[..i] && t[i..] == [s[i]];
    ValueOne(s[i]);
  }

  lemma ValueCons(s: seq<Limb>, i: nat, n: nat)
    requires i < n <= |s|
    ensures Value(s[i..n]) == s[i] + B * Value(s[i + 1..n])
  {
    assert s[i..n][1..] == s[i + 1..n];
  }

  lemma ValueStart(s: seq<Limb>)
    ensures Value(s[..0]) == 0 && Value([]) == 0 && Pow(B, 0) == 1
  {
    assert s[..0] == [];
  }

  lemma {:induction false} ValueBound(s: seq<Limb>)
    ensures Value(s) < Pow(B, |s|)
  {
    if s != [] {
      ValueBound(s[1..]);
      MulMono(Value(s[1..]) + 1, Pow(B, |s| - 1), B);
      Distribute(B, Value(s[1..]), 1);
    }
  }

  lemma {:induction false} ValueZeros(s: seq<Limb>)
    requires forall i :: 0 <= i < |s| ==> s[i] == 0
    ensures Value(s) == 0
  {
    if s != [] {
      ValueZeros(s[1..]);
    }
  }

  // ----- addition and multiplication -----

  /** `mp_add_ui` */
  method AddUi(tab: array<Limb>, b: Limb, n: nat) returns (k: Limb)
    requires n <= tab.Length
    modifies tab
    ensures Value(tab[..n]) + Pow(B, n) * k == old(Value(tab[..n])) + b && tab[n..] == old(tab[n..])
  {
    hide Pow, Value;
    ValueStart(tab[..]);
    k := b;
    ghost var was := tab[..];
    var i := 0;
    while i < n && k != 0
      invariant 0 <= i <= n && tab[i..] == was[i..]
      invariant Value(tab[..i]) + Pow(B, i) * k == Value(was[..i]) + b
    {
      ghost var before := tab[..];
      assert tab[i..][0] == was[i..][0];
      AddCarry(tab[i], k);
      ghost var low := k;
      var a: Limb := (tab[i] + k) % B;
      k := if a < k then 1 else 0;
      tab[i] := a;
      ValueSnoc(tab[..], i);
      ValueSnoc(was, i);
      assert tab[..][..i] == before[..i];
      CarryStep(Value(before[..i]), Value(was[..i]), Pow(B, i), was[i], 1, low, b, a, k);
      assert tab[i + 1..] == before[i..][1..] == was[i..][1..] == was[i + 1..];
      i := i + 1;
    }
    TailKept(was, tab[..], i, n);
  }

  /** A 32-bit sum is below an operand exactly when it wrapped. */
  lemma AddCarry(x: Limb, k: Limb)
    ensures var a := (x + k) % B; x * 1 + k == a + B * if a < k then 1 else 0
  {}

  /** Limbs that did not change account for the same part of the value. */
  lemma TailKept(was: seq<Limb>, now: seq<Limb>, i: nat, n: nat)
    requires i <= n <= |was| == |now| && was[i..] == now[i..]
    ensures was[n..] == now[n..]
    ensures Value(now[..n]) - Value(now[..i]) == Value(was[..n]) - Value(was[..i])
  {
    hide Pow, Value;
    assert was[n..] == was[i..][n - i..] && now[n..] == now[i..][n - i..];
    assert was[..n][i..] == was[i..][..n - i] && now[..n][i..] == now[i..][..n - i];
    assert was[..n][..i] == was[..i] && now[..n][..i] == now[..i];
    ValueSplit(was[..n], i);
    ValueSplit(now[..n], i);
  }

  /** One digit of a computation from the low end: `x * m + l` is split into a digit and a carry. */
  lemma CarryStep(v: int, w: int, p: int, x: int, m: int, l: int, l0: int, digit: int, carry: int)
    requires v + p * l == w * m + l0 && x * m + l == digit + B * carry
    ensures (v + p * digit) + (B * p) * carry == (w + p * x) * m + l0
  {
    Distribute(p, digit, B * carry);
    Distribute(p, x * m, l);
    Distribute(m, w, p * x);
    Assoc(p, x, m);
    Assoc(p, B, carry);
  }

  /** `mp_mul1` */
  method Mul1(tab: array<Limb>, n: nat, b: Limb, l: Limb) returns (carry: Limb)
    requires n <= tab.Length
    modifies tab
    ensures Value(tab[..n]) + Pow(B, n) * carry == old(Value(tab[..n])) * b + l && tab[n..] == old(tab[n..])
  {
    hide Pow, Value;
    ValueStart(tab[..]);
    carry := l;
    ghost var was := tab[..];
    for i := 0 to n
      invariant tab[i..] == was[i..]
      invariant Value(tab[..i]) + Pow(B, i) * carry == Value(was[..i]) * b + l
    {
      ghost var before := tab[..];
      assert tab[i..][0] == was[i..][0];
      ProductFits(tab[i], b, carry);
      var t := tab[i] * b + carry;
      ghost var low := carry;
      tab[i] := t % B;
      carry := t / B;
      ValueSnoc(tab[..], i);
      ValueSnoc(was, i);
      assert tab[..][..i] == before[..i];
      CarryStep(Value(before[..i]), Value(was[..i]), Pow(B, i), was[i], b, low, l, tab[i], carry);
      assert tab[i + 1..] == before[i..][1..] == was[i..][1..] == was[i + 1..];
    }
  }

  lemma ProductFits(x: Limb, y: Limb, l: Limb)
    ensures (x * y + l) / B < B
  {
    MulMono(x, B - 1, y);
    MulMono(y, B - 1, B - 1);
  }

  // ----- shifts -----

  /** `mp_shl`; the bits shifted in are below those of the limb, so that the or of the two is their sum. */
  method Shl(tab: array<Limb>, n: nat, shift: nat, low: Limb) returns (carry: Limb)
    requires n <= tab.Length && 1 <= shift < 32 && low < Pow(2, shift)
    modifies tab
    ensures Value(tab[..n]) + Pow(B, n) * carry == old(Value(tab[..n])) * Pow(2, shift) + low && tab[n..] == old(tab[n..])
    ensures carry < Pow(2, shift)
  {
    hide Pow, Value;
    ValueStart(tab[..]);
    ghost var was := tab[..];
    var s, t := Pow(2, shift), Pow(2, 32 - shift);
    Halves(shift);
    carry := low;
    for i := 0 to n
      invariant tab[i..] == was[i..] && carry < s
      invariant Value(tab[..i]) + Pow(B, i) * carry == Value(was[..i]) * s + low
    {
      ghost var before := tab[..];
      assert tab[i..][0] == was[i..][0];
      var a := tab[i];
      ShlDigit(a, s, t, carry);
      ghost var l := carry;
      tab[i] := a * s % B + carry;
      carry := a / t;
      ValueSnoc(tab[..], i);
      ValueSnoc(was, i);
      assert tab[..][..i] == before[..i];
      CarryStep(Value(before[..i]), Value(was[..i]), Pow(B, i), a, s, l, low, tab[i], carry);
      assert tab[i + 1..] == before[i..][1..] == was[i..][1..] == was[i + 1..];
    }
  }

  lemma Halves(shift: nat)
    requires 1 <= shift < 32
    ensures Pow(2, shift) * Pow(2, 32 - shift) == B && 1 <= Pow(2, shift) < B && 1 <= Pow(2, 32 - shift) < B
  {
    PowAdd(2, shift, 32 - shift);
    assert Pow(2, 32) == B by { Pow32(); }
    PowMonoStrict(2, shift, 32);
    PowMonoStrict(2, 32 - shift, 32);
  }

  lemma Pow32()
    ensures Pow(2, 32) == B
  {
    PowAdd(2, 16, 16);
    PowAdd(2, 8, 8);
    assert Pow(2, 8) == 256;
  }

  lemma ShlDigit(a: Limb, s: nat, t: nat, l: nat)
    requires s * t == B && l < s && t > 0
    ensures a * s % B + l < B && a / t < s && a * s + l == (a * s % B + l) + B * (a / t)
  {
    var q, r := a / t, a % t;
    DivMod(a, t);
    Distribute(s, q * t, r);
    Assoc(q, t, s);
    MulMono(r + 1, t, s);
    Distribute(s, r, 1);
    DivUnique(a * s, B, q, r * s);
    if q >= s {
      MulMono(s, q, t);
    }
  }

  /** `mp_shr`; the low bits of `high` are shifted in. */
  method Shr(tab: array<Limb>, n: nat, shift: nat, high: Limb) returns (rem: Limb)
    requires n <= tab.Length && 1 <= shift < 32
    modifies tab
    ensures old(Value(tab[..n])) + Pow(B, n) * (high % Pow(2, shift)) == Value(tab[..n]) * Pow(2, shift) + rem
    ensures rem < Pow(2, shift)
    ensures tab[n..] == old(tab[n..])
  {
    hide Pow, Value;
    ValueStart(tab[..]);
    ghost var was := tab[..];
    var s, t := Pow(2, shift), Pow(2, 32 - shift);
    Halves(shift);
    var l: Limb := high;
    ghost var h := high % s;
    var i := n;
    assert tab[n..n] == [] && was[n..n] == [];
    EmptyAbove(h);
    while i > 0
      invariant 0 <= i <= n && tab[..i] == was[..i] && tab[n..] == was[n..]
      invariant Value(was[i..n]) + Pow(B, n - i) * h == Value(tab[i..n]) * s + l % s
    {
      i := i - 1;
      ghost var before := tab[..];
      assert tab[..i + 1][i] == was[..i + 1][i];
      var a := tab[i];
      ShrDigit(a, s, t, l);
      ghost var c := l % s;
      tab[i] := a / s + l * t % B;
      l := a;
      ValueCons(tab[..], i, n);
      ValueCons(was, i, n);
      assert tab[..][i + 1..n] == before[i + 1..n];
      BorrowStep(Value(was[i + 1..n]) + Pow(B, n - i - 1) * h, Value(before[i + 1..n]), s, c, a, tab[i], a % s);
      OneMoreLimb(Value(was[i + 1..n]), n - i - 1, h);
      assert tab[..i] == before[..i + 1][..i] == was[..i + 1][..i];
    }
    assert tab[0..n] == tab[..n] && was[0..n] == was[..n];
    rem := l % s;
  }

  lemma EmptyAbove(h: nat)
    ensures Value([]) + Pow(B, 0) * h == h
  {}

  lemma ShrDigit(a: Limb, s: nat, t: nat, l: Limb)
    requires s * t == B && s > 0 && t > 0
    ensures a / s + l * t % B < B
    ensures (l % s) * B + a == (a / s + l * t % B) * s + a % s
  {
    var q, c := l / s, l % s;
    DivMod(l, s);
    Distribute(t, q * s, c);
    Assoc(q, s, t);
    Multiple(c, s, t);
    DivUnique(l * t, B, q, c * t);
    DivMod(a, s);
    if a / s >= t {
      MulMono(t, a / s, s);
    }
    Distribute(s, a / s, c * t);
    Assoc(c, t, s);
  }

  /** One digit of a division from the high end. */
  lemma BorrowStep(w: int, v: int, d: int, r: int, a: int, q: int, r': int)
    requires w == v * d + r && r * B + a == q * d + r'
    ensures a + B * w == (q + B * v) * d + r'
  {
    Distribute(B, v * d, r);
    Distribute(d, q, B * v);
    Assoc(B, v, d);
  }

  // ----- division -----

  /** `mp_div1` */
  method Div1(tab: array<Limb>, n: nat, b: Limb, high: Limb) returns (r: Limb)
    requires n <= tab.Length && high < b
    modifies tab
    ensures old(Value(tab[..n])) + Pow(B, n) * high == Value(tab[..n]) * b + r && r < b && tab[n..] == old(tab[n..])
  {
    hide Pow, Value;
    ValueStart(tab[..]);
    ghost var was := tab[..];
    r := high;
    var i := n;
    assert tab[n..n] == [] && was[n..n] == [];
    EmptyAbove(high);
    while i > 0
      invariant 0 <= i <= n && tab[..i] == was[..i] && tab[n..] == was[n..]
      invariant r < b && Value(was[i..n]) + Pow(B, n - i) * high == Value(tab[i..n]) * b + r
    {
      i := i - 1;
      ghost var before := tab[..];
      assert tab[..i + 1][i] == was[..i + 1][i];
      var a1 := r * B + tab[i];
      QuotientFits(r, tab[i], b);
      ghost var c, a := r, tab[i];
      tab[i] := a1 / b;
      r := a1 % b;
      ValueCons(tab[..], i, n);
      ValueCons(was, i, n);
      assert tab[..][i + 1..n] == before[i + 1..n];
      BorrowStep(Value(was[i + 1..n]) + Pow(B, n - i - 1) * high, Value(before[i + 1..n]), b, c, a, tab[i], r);
      OneMoreLimb(Value(was[i + 1..n]), n - i - 1, high);
      assert tab[..i] == before[..i + 1][..i] == was[..i + 1][..i];
    }
    assert tab[0..n] == tab[..n] && was[0..n] == was[..n];
  }

  lemma QuotientFits(r: nat, a: Limb, b: nat)
    requires r < b
    ensures (r * B + a) / b < B && r * B + a == ((r * B + a) / b) * b + (r * B + a) % b
  {
    var n := r * B + a;
    DivMod(n, b);
    MulMono(r + 1, b, B);
    if n / b >= B {
      MulMono(B, n / b, b);
    }
  }

  /** `udiv1norm_init`: the inverse of a normalised divisor. */
  method Udiv1NormInit(d: Limb) returns (v: Limb)
    requires d >= B / 2
    ensures v == Inverse(d)
  {
    var a1, a0: Limb := B - d - 1, B - 1;
    InverseOf(d);
    v := (a1 * B + a0) / d;
  }

  function Inverse(d: Limb): Limb
    requires d >= B / 2
  {
    InverseOf(d);
    (B * B - 1) / d - B
  }

  /** Up to `e <= d` the divisor times its inverse is 2^64. */
  lemma InverseOf(d: Limb)
    requires d >= B / 2
    ensures var v := (B * B - 1) / d;
      && B <= v < 2 * B && ((B - d - 1) * B + (B - 1)) / d == v - B
      && 1 <= B * B - v * d <= d
  {
    var n := B * B - 1;
    var v := n / d;
    DivMod(n, d);
    if v < B {
      MulMono(v + 1, B, d);
      Distribute(d, v, 1);
    }
    if v >= 2 * B {
      MulMono(2 * B, v, d);
    }
    Distribute(d, v - B, B);
    DivUnique(n - B * d, d, v - B, n % d);
  }

  /** `udiv1norm`: quotient and remainder of `a1 * 2^32 + a0`, the products in 64-bit and everything else in
      32-bit arithmetic. */
  method Udiv1Norm(a1: Limb, a0: Limb, d: Limb, dInv: Limb) returns (q: Limb, r: Limb)
    requires d >= B / 2 && a1 < d && dInv == Inverse(d)
    ensures a1 * B + a0 == q * d + r && r < d
  {
    var q0 := EstimateQuotient(a1, a0, d, dInv);
    q, r := CorrectQuotient(a1, a0, d, q0);
  }

  /** The first steps of `udiv1norm`: an estimate that is the quotient or one less. */
  method EstimateQuotient(a1: Limb, a0: Limb, d: Limb, dInv: Limb) returns (q0: Limb)
    requires d >= B / 2 && a1 < d && dInv == Inverse(d)
    ensures Close(a1, a0, d, q0)
  {
    hide Inverse, Low, High, Close;
    var n1m: Limb := if a0 >= B / 2 then B - 1 else 0;
    var nAdj := Low(a0 + if n1m != 0 then d else 0);
    var high := Low(a1 - n1m);
    WrappedOperands(a1, a0, d);
    var sum: nat := High(dInv, high, nAdj) + a1;
    EstimateIsClose(a1, a0, d, dInv, if a0 >= B / 2 then 1 else 0, high, nAdj, sum);
    q0 := Low(sum);
    LowOfLimb(sum);
  }

  /** The quotient of `a1 * 2^32 + a0` by `d` is `q0` or one more. */
  predicate Close(a1: Limb, a0: Limb, d: Limb, q0: nat) {
    -(d as int) <= a1 * B + a0 - q0 * d - d < d && a1 * B + a0 < d * B
  }

  /** The high half of a 64-bit product and sum. */
  function High(x: Limb, y: Limb, l: Limb): Limb {
    ProductFits(x, y, l);
    (x * y + l) / B
  }

  /** The low 32 bits. */
  function Low(x: int): Limb {
    x % B
  }

  lemma LowOfLimb(x: int)
    requires 0 <= x < B
    ensures Low(x) == x
  {}

  lemma WrappedOperands(a1: Limb, a0: Limb, d: Limb)
    requires d >= B / 2 && a1 < d
    ensures if a0 >= B / 2 then Low(a1 - (B - 1)) == a1 + 1 && Low(a0 + d) == a0 + d - B
      else Low(a1 - 0) == a1 && Low(a0 + 0) == a0
  {}

  /** The last steps of `udiv1norm`. */
  method CorrectQuotient(a1: Limb, a0: Limb, d: Limb, q0: Limb) returns (q: Limb, r: Limb)
    requires Close(a1, a0, d, q0)
    ensures a1 * B + a0 == q * d + r && r < d
  {
    var diff := a1 * B + a0 - q0 * d - d;
    var a := diff % (B * B);
    WrapsOnce(diff, d);
    var ah: Limb := a / B;
    q := (q0 + 1 + ah) % B;
    r := (a % B + if ah != 0 then d else 0) % B;
    CorrectedQuotient(a1 * B + a0, q0, d, diff, q, r);
  }

  /** The estimate or its successor is the quotient, depending on the sign of the difference. */
  lemma CorrectedQuotient(n: nat, q0: Limb, d: Limb, diff: int, q: Limb, r: Limb)
    requires diff == n - q0 * d - d && -(d as int) <= diff < d && n < d * B
    requires if diff < 0 then q == q0 && r == diff + d else q == (q0 + 1) % B && r == diff
    ensures n == q * d + r && r < d
  {
    Distribute(d, q0, 1);
    if diff >= 0 && q0 == B - 1 {
      assert false;
    }
  }

  /** A difference between -d and d - 1 in 64-bit arithmetic: the high word tells its sign. */
  lemma WrapsOnce(diff: int, d: Limb)
    requires -(d as int) <= diff < d
    ensures var a' := diff % (B * B);
      if diff < 0 then a' / B == B - 1 && a' % B == diff + B else a' / B == 0 && a' % B == diff
  {
    if diff < 0 {
      assert diff % (B * B) == diff + B * B;
      DivUnique(diff + B * B, B, B - 1, diff + B);
    }
  }

  /** The estimate from the inverse is the quotient or one less. */
  lemma EstimateIsClose(a1: Limb, a0: Limb, d: Limb, dInv: Limb, b: nat, high: Limb, adj: Limb, q0: nat)
    requires d >= B / 2 && a1 < d && dInv == Inverse(d)
    requires b == (if a0 >= B / 2 then 1 else 0) && adj == if b == 1 then a0 + d - B else a0
    requires high == a1 + b && q0 == High(dInv, high, adj) + a1
    ensures q0 < B && Close(a1, a0, d, q0)
  {
    var v := (B * B - 1) / d;
    InverseOf(d);
    var e := B * B - v * d;
    var s := (dInv * high + adj) % B;
    ScaledEstimate(dInv, v, a1, b, high, adj, q0, s);
    EstimateError(a1, a0, d, v, e, b, q0, s);
    Multiple(a1, d, B);
    if q0 >= B {
      MulMono(B, q0, d);
    }
  }

  lemma ScaledEstimate(dInv: nat, v: nat, a1: nat, b: nat, high: nat, adj: nat, q0: nat, s: nat)
    requires v == dInv + B && high == a1 + b && s == (dInv * high + adj) % B && q0 == (dInv * high + adj) / B + a1
    ensures B * q0 + s == v * a1 + b * (v - B) + adj
  {
    DivMod(dInv * high + adj, B);
    Distribute(dInv, a1, b);
    Distribute(a1, dInv, B);
  }

  lemma EstimateError(a1: Limb, a0: Limb, d: Limb, v: nat, e: nat, b: nat, q0: nat, s: nat)
    requires d >= B / 2 && a1 < d && e == B * B - v * d && 1 <= e <= d && s < B
    requires b == if a0 >= B / 2 then 1 else 0
    requires B * q0 + s == v * a1 + b * (v - B) + if b == 1 then a0 + d - B else a0
    ensures 0 <= a1 * B + a0 - q0 * d < 2 * d
  {
    ErrorIdentity(a1, a0, d, v, e, b, q0, s);
    var small := (a1 + b) * e;
    var gap := if b == 1 then (B - d) * (a0 + d - B) else a0 * (B - d);
    if b == 1 {
      LargeLowHalf(a1, a0, d, e);
    } else {
      SmallLowHalf(a1, a0, d, e);
    }
    MulPos(d, s);
    Multiple(s, B, d);
    Bracket(a1 * B + a0 - q0 * d, small + gap, d * s, d);
  }

  lemma Bracket(x: int, y: nat, z: nat, d: nat)
    requires B * x == y + z && y < B * d + d && z <= B * d - d
    ensures 0 <= x < 2 * d
  {}

  lemma SmallLowHalf(a1: nat, a0: nat, d: nat, e: nat)
    requires B / 2 <= d < B && a1 < d && e <= d && a0 < B / 2
    ensures 0 <= a1 * e + a0 * (B - d) < B * d + d
  {
    MulPos(a1, e);
    MulPos(a0, B - d);
    assert a1 * e <= d * d - d by {
      MulMono(e, d, a1);
      MulMono(a1, d - 1, d);
      Distribute(d, d, 1);
    }
    MulMono(a0, B / 2 - 1, B - d);
    SquareBound(d);
  }

  lemma SquareBound(d: nat)
    requires B / 2 <= d < B
    ensures d * d <= B * d + B / 2 * d - B * B / 2
  {
    MulPos(d - B / 2, B - d);
    Distribute(d - B / 2, B, d);
    Distribute(d, d, B / 2);
  }

  lemma LargeLowHalf(a1: nat, a0: nat, d: nat, e: nat)
    requires B / 2 <= d < B && a1 < d && e <= d && B / 2 <= a0 < B
    ensures 0 <= (a1 + 1) * e + (B - d) * (a0 + d - B) < B * d + d
  {
    MulPos(a1 + 1, e);
    MulPos(B - d, a0 + d - B);
    MulMono(e, d, a1 + 1);
    MulMono(a1 + 1, d, d);
    MulMono(a0 + d - B, d - 1, B - d);
  }

  lemma ErrorIdentity(a1: int, a0: int, d: int, v: int, e: int, b: int, q0: int, s: int)
    requires e == B * B - v * d && (b == 0 || b == 1)
    requires B * q0 + s == v * a1 + b * (v - B) + if b == 1 then a0 + d - B else a0
    ensures B * (a1 * B + a0 - q0 * d) == (a1 + b) * e + (if b == 1 then (B - d) * (a0 + d - B) else a0 * (B - d)) + d * s
  {
  }

  /** `mp_div1norm` in place: divides by `b / 2^shift`, where `b` is normalised; `high` is the remainder of the
      limbs above. */
  method Div1Norm(tab: array<Limb>, n: nat, b: Limb, high: Limb, bInv: Limb, shift: nat) returns (r: Limb)
    requires n <= tab.Length && shift < 32 && b >= B / 2 && bInv == Inverse(b) && b % Pow(2, shift) == 0
    requires high < b / Pow(2, shift)
    modifies tab
    ensures var d := b / Pow(2, shift);
      old(Value(tab[..n])) + Pow(B, n) * high == Value(tab[..n]) * d + r && r < d
    ensures tab[n..] == old(tab[n..])
  {
    hide Pow, Value, Inverse;
    ghost var v0, s := Value(tab[..n]), Pow(2, shift);
    r := ShiftIn(tab, n, b, high, shift);
    ghost var v := v0 + Pow(B, n) * high;
    MulPos(Pow(B, n), high);
    ghost var shifted := Value(tab[..n]) + Pow(B, n) * r;
    assert shifted == v * s;
    r := DivideDown(tab, n, b, bInv, r);
    Unshift(v, Value(tab[..n]), b, r, s);
    UnshiftSize(r, s);
    r := r / Pow(2, shift);
  }

  /** The number and the remainder above it, shifted left. */
  method ShiftIn(tab: array<Limb>, n: nat, b: Limb, high: Limb, shift: nat) returns (r: Limb)
    requires n <= tab.Length && shift < 32 && b % Pow(2, shift) == 0 && high < b / Pow(2, shift)
    modifies tab
    ensures Value(tab[..n]) + Pow(B, n) * r == (old(Value(tab[..n])) + Pow(B, n) * high) * Pow(2, shift)
    ensures r < b && tab[n..] == old(tab[n..])
  {
    hide Pow, Value;
    ghost var v0, s := Value(tab[..n]), Pow(2, shift);
    MulPos(Pow(B, n), high);
    if shift == 0 {
      PowOne(2);
      r := high;
    } else {
      var carry := Shl(tab, n, shift, 0);
      ShiftedHigh(b, s, high, carry);
      r := high * Pow(2, shift) + carry;
      ScaledTogether(v0, Value(tab[..n]), Pow(B, n), high, carry, s);
    }
  }

  /** The shifted remainder and the bits shifted out stay below the normalised divisor. */
  lemma ShiftedHigh(b: Limb, s: nat, high: nat, low: nat)
    requires s > 0 && b % s == 0 && high < b / s && low < s
    ensures 0 <= high * s + low < b
  {
    DivMod(b, s);
    MulMono(high + 1, b / s, s);
    Distribute(s, high, 1);
  }

  lemma ScaledTogether(v: nat, shifted: nat, p: nat, high: nat, carry: nat, s: nat)
    requires v * s == shifted + p * carry && p * high >= 0 && s >= 0
    ensures (v + p * high) * s == shifted + p * (high * s + carry)
  {
    Distribute(s, v, p * high);
    Distribute(p, high * s, carry);
    Assoc(p, high, s);
  }

  lemma UnshiftSize(r: Limb, s: nat)
    requires s > 0
    ensures r / s < B
  {
    DivMod(r, s);
    MulMono(1, s, r / s);
  }

  /** The limbs from the highest down, each divided together with the remainder above it. */
  method DivideDown(tab: array<Limb>, n: nat, b: Limb, bInv: Limb, high: Limb) returns (r: Limb)
    requires n <= tab.Length && b >= B / 2 && bInv == Inverse(b) && high < b
    modifies tab
    ensures old(Value(tab[..n])) + Pow(B, n) * high == Value(tab[..n]) * b + r && r < b && tab[n..] == old(tab[n..])
  {
    hide Pow, Value, Inverse;
    ValueStart(tab[..]);
    ghost var was := tab[..];
    r := high;
    var i := n;
    assert was[n..n] == [] && tab[n..n] == [];
    while i > 0
      invariant 0 <= i <= n && tab[..i] == was[..i] && tab[n..] == was[n..]
      invariant r < b && Value(was[i..n]) + Pow(B, n - i) * high == Value(tab[i..n]) * b + r
    {
      i := i - 1;
      ghost var before := tab[..];
      assert tab[..i + 1][i] == was[..i + 1][i];
      ghost var c, a := r, tab[i];
      var q;
      q, r := Udiv1Norm(r, tab[i], b, bInv);
      tab[i] := q;
      ValueCons(tab[..], i, n);
      ValueCons(was, i, n);
      assert tab[..][i + 1..n] == before[i + 1..n];
      BorrowStep(Value(was[i + 1..n]) + Pow(B, n - i - 1) * high, Value(before[i + 1..n]), b, c, a, q, r);
      OneMoreLimb(Value(was[i + 1..n]), n - i - 1, high);
      assert tab[..i] == before[..i + 1][..i] == was[..i + 1][..i];
    }
    assert tab[0..n] == tab[..n] && was[0..n] == was[..n];
  }

  lemma OneMoreLimb(v: nat, k: nat, high: nat)
    ensures B * (v + Pow(B, k) * high) == B * v + Pow(B, k + 1) * high
  {
    Distribute(B, v, Pow(B, k) * high);
    Assoc(B, Pow(B, k), high);
  }

  /** Quotient and remainder of the shifted division, with the shift taken out of the remainder again. */
  lemma Unshift(v: nat, q: nat, b: nat, r: nat, s: nat)
    requires s > 0 && b % s == 0 && v * s == q * b + r && r < b
    ensures v == q * (b / s) + r / s && r / s < b / s
  {
    var d := b / s;
    DivMod(b, s);
    Assoc(q, d, s);
    Distribute(s, v, q * d);
    assert r == (v - q * d) * s;
    if v < q * d {
      MulMono(1, q * d - v, s);
    }
    DivUnique(r, s, v - q * d, 0);
    if v - q * d >= d {
      MulMono(d, v - q * d, s);
    }
  }
}
