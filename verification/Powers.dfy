/** Powers of natural numbers. */
module Powers {

  function Pow(b: nat, n: nat): (r: nat)
    ensures b > 0 ==> r > 0
  {
    if n == 0 then 1 else MulPos(b, Pow(b, n - 1)); b * Pow(b, n - 1)
  }

  lemma MulPos(x: nat, y: nat)
    ensures x * y >= 0
    ensures x > 0 && y > 0 ==> x * y > 0
  {}

  lemma Assoc(x: int, y: int, z: int)
    ensures x * y * z == x * (y * z)
  {}

  lemma Distribute(x: int, y: int, z: int)
    ensures x * (y + z) == x * y + x * z && x * (y - z) == x * y - x * z
    ensures (y + z) * x == y * x + z * x && (y - z) * x == y * x - z * x
  {}

  lemma MulMono(x: nat, y: nat, z: nat)
    requires x <= y
    ensures x * z <= y * z && z * x <= z * y
  {}

  lemma MulMonoStrict(x: nat, y: nat, z: nat)
    requires x < y && 0 < z
    ensures x * z < y * z && z * x < z * y
  {}

  lemma {:induction false} PowAdd(b: nat, m: nat, n: nat)
    ensures Pow(b, m + n) == Pow(b, m) * Pow(b, n)
    decreases m
  {
    if m != 0 {
      PowAdd(b, m - 1, n);
      Assoc(b, Pow(b, m - 1), Pow(b, n));
    }
  }

  lemma PowOne(b: nat)
    ensures Pow(b, 1) == b && Pow(b, 0) == 1
  {
    assert Pow(b, 0) == 1;
  }

  lemma {:induction false} PowOfOne(n: nat)
    ensures Pow(1, n) == 1
  {
    if n != 0 {
      PowOfOne(n - 1);
    }
  }

  lemma {:induction false} PowMono(b: nat, m: nat, n: nat)
    requires b >= 1 && m <= n
    ensures Pow(b, m) <= Pow(b, n)
  {
    PowAdd(b, m, n - m);
    MulMono(1, Pow(b, n - m), Pow(b, m));
  }

  lemma {:induction false} PowMonoStrict(b: nat, m: nat, n: nat)
    requires b >= 2 && m < n
    ensures Pow(b, m) < Pow(b, n)
  {
    PowMono(b, m, n - 1);
    MulMonoStrict(1, b, Pow(b, n - 1));
  }

  lemma {:induction false} PowOfPow(b: nat, m: nat, n: nat)
    ensures Pow(Pow(b, m), n) == Pow(b, m * n)
    decreases n
  {
    if n != 0 {
      PowOfPow(b, m, n - 1);
      Distribute(m, n, 1);
      PowAdd(b, m, m * (n - 1));
    }
  }

  lemma {:induction false} PowProduct(a: nat, b: nat, n: nat)
    ensures Pow(a * b, n) == Pow(a, n) * Pow(b, n)
    decreases n
  {
    if n != 0 {
      PowProduct(a, b, n - 1);
      Shuffle(a, b, Pow(a, n - 1), Pow(b, n - 1));
    }
  }

  lemma Shuffle(a: int, b: int, c: int, d: int)
    ensures (a * b) * (c * d) == (a * c) * (b * d)
  {
    Assoc(a, b, c * d);
    Assoc(b, c, d);
    Assoc(a, c, b * d);
    Assoc(c, b, d);
  }

  lemma SwapLast(a: int, b: int, c: int)
    ensures a * b * c == (a * c) * b
  {
    Assoc(a, b, c);
    Assoc(a, c, b);
    assert b * c == c * b;
  }

  /** Distinct multiples are a whole divisor apart. */
  lemma Multiple(a: int, b: int, d: nat)
    requires a <= b
    ensures a * d <= b * d && (a < b ==> a * d + d <= b * d)
  {
    Distribute(d, b, a);
    MulPos(b - a, d);
    if a < b {
      Distribute(d, b - a, 1);
      MulPos(b - a - 1, d);
    }
  }

  lemma {:induction false} PowBaseMono(a: nat, b: nat, n: nat)
    requires a <= b
    ensures Pow(a, n) <= Pow(b, n)
  {
    if n != 0 {
      PowBaseMono(a, b, n - 1);
      MulMono(a, b, Pow(a, n - 1));
      MulMono(Pow(a, n - 1), Pow(b, n - 1), b);
    }
  }

  lemma {:induction false} PowBaseMonoStrict(a: nat, b: nat, n: nat)
    requires a < b && n > 0
    ensures Pow(a, n) < Pow(b, n)
  {
    PowBaseMono(a, b, n - 1);
    MulMono(Pow(a, n - 1), Pow(b, n - 1), a);
    MulMonoStrict(a, b, Pow(b, n - 1));
  }

  // ----- quotients -----

  /** A quotient and remainder are unique. */
  lemma DivUnique(n: nat, d: nat, q: nat, r: nat)
    requires d > 0 && n == q * d + r && r < d
    ensures n / d == q && n % d == r
  {
    var q', r' := n / d, n % d;
    assert n == d * q' + r' by { DivMod(n, d); }
    if q' < q {
      MulMono(q' + 1, q, d);
      Distribute(d, q', 1);
    } else if q < q' {
      MulMono(q + 1, q', d);
      Distribute(d, q, 1);
    }
  }

  lemma DivMod(n: nat, d: nat)
    requires d > 0
    ensures n == (n / d) * d + n % d == d * (n / d) + n % d && n % d < d
  {}

  /** Dividing twice is dividing by the product, and leaves a remainder exactly when one of the steps does. */
  lemma DivDiv(n: nat, a: nat, b: nat)
    requires a > 0 && b > 0
    ensures a * b > 0 && n / a / b == n / (a * b)
    ensures n % (a * b) == (n / a % b) * a + n % a
    ensures n % (a * b) == 0 <==> n % a == 0 && n / a % b == 0
  {
    MulPos(a, b);
    var q: nat, r: nat := n / a, n % a;
    var s: nat, t: nat := q / b, q % b;
    DivMod(n, a);
    DivMod(q, b);
    TwoSteps(n, a, b, q, r, s, t);
    DivUnique(n, a * b, s, t * a + r);
  }

  /** Two divisions with remainder make one. */
  lemma TwoSteps(n: nat, a: nat, b: nat, q: nat, r: nat, s: nat, t: nat)
    requires n == q * a + r && r < a && q == s * b + t && t < b
    ensures n == s * (a * b) + (t * a + r) && 0 <= t * a + r < a * b
    ensures t * a + r == 0 <==> r == 0 && t == 0
  {
    Distribute(a, s * b, t);
    Assoc(s, b, a);
    MulMono(t + 1, b, a);
    Distribute(a, t, 1);
    MulPos(t, a);
    if t > 0 {
      MulMono(1, t, a);
    }
  }

  // ----- bits -----

  /** The number of bits up to the highest one. */
  function BitLength(x: nat): (n: nat)
    ensures x < Pow(2, n) && if x > 0 then n > 0 && Pow(2, n - 1) <= x else n == 0
  {
    if x == 0 then 0
    else
      var n := BitLength(x / 2) + 1;
      if x / 2 == 0 then PowOne(2); n else n
  }

  lemma BitLengthUnique(x: nat, n: nat)
    requires x < Pow(2, n) && (n > 0 ==> Pow(2, n - 1) <= x)
    ensures BitLength(x) == n
  {
    var b := BitLength(x);
    if b < n {
      PowMono(2, b, n - 1);
    } else if n < b {
      PowMono(2, n, b - 1);
    }
  }
}
