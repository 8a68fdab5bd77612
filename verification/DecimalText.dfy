/** Decimal numerals as text: digits, their value, and the numeral at the start of any string. */
module DecimalText {
  import opened Powers
  import opened Options

  type Digit = d: nat | d < 10

  /** The number a sequence of digits stands for. */
  function Dec(ds: seq<Digit>): nat {
    if ds == [] then 0 else Dec(ds[..|ds| - 1]) * 10 + ds[|ds| - 1]
  }

  lemma {:induction false} DecAppend(a: seq<Digit>, b: seq<Digit>)
    ensures Dec(a + b) == Dec(a) * Pow(10, |b|) + Dec(b)
    decreases |b|
  {
    if b == [] {
      assert a + b == a;
      PowOne(10);
    } else {
      var n := |b| - 1;
      assert (a + b)[..|a + b| - 1] == a + b[..n];
      DecAppend(a, b[..n]);
      Distribute(10, Dec(a) * Pow(10, n), Dec(b[..n]));
      Assoc(Dec(a), Pow(10, n), 10);
    }
  }

  lemma DecSnoc(ds: seq<Digit>, k: nat)
    requires k < |ds|
    ensures Dec(ds[..k + 1]) == Dec(ds[..k]) * 10 + ds[k]
  {
    assert ds[..k + 1][..k] == ds[..k];
  }

  lemma {:induction false} DecBound(ds: seq<Digit>)
    ensures Dec(ds) < Pow(10, |ds|)
    ensures ds != [] && ds[0] != 0 ==> Pow(10, |ds| - 1) <= Dec(ds)
    decreases |ds|
  {
    if |ds| == 1 {
      assert ds[..0] == [];
      PowOne(10);
    } else if |ds| > 1 {
      DecBound(ds[..|ds| - 1]);
    }
  }

  lemma {:induction false} DecZeros(zeros: seq<Digit>, ds: seq<Digit>)
    requires forall i :: 0 <= i < |zeros| ==> zeros[i] == 0
    ensures Dec(zeros + ds) == Dec(ds)
  {
    AllZeros(zeros);
    DecAppend(zeros, ds);
  }

  lemma {:induction false} AllZeros(zeros: seq<Digit>)
    requires forall i :: 0 <= i < |zeros| ==> zeros[i] == 0
    ensures Dec(zeros) == 0
    decreases |zeros|
  {
    if zeros != [] {
      AllZeros(zeros[..|zeros| - 1]);
    }
  }

  /** The digits from the first one that is not zero. */
  function Significant(ds: seq<Digit>): (r: seq<Digit>)
    ensures |r| <= |ds| && (r != [] ==> r[0] != 0) && r == ds[|ds| - |r|..]
    ensures forall i :: 0 <= i < |ds| - |r| ==> ds[i] == 0
  {
    if ds != [] && ds[0] == 0 then Significant(ds[1..]) else ds
  }

  lemma DecSignificant(ds: seq<Digit>)
    ensures Dec(Significant(ds)) == Dec(ds)
  {
    var r := Significant(ds);
    var z := |ds| - |r|;
    assert ds == ds[..z] + r;
    DecZeros(ds[..z], r);
  }

  /** The decimal digits of a number. */
  function Decimal(n: nat): (ds: seq<Digit>)
    ensures ds != []
  {
    if n < 10 then [n] else Decimal(n / 10) + [n % 10]
  }

  lemma {:induction false} DecDecimal(n: nat)
    ensures Dec(Decimal(n)) == n && (n > 0 ==> Decimal(n)[0] != 0)
  {
    if n < 10 {
      assert Decimal(n)[..0] == [];
    } else {
      DecDecimal(n / 10);
      assert Decimal(n)[..|Decimal(n)| - 1] == Decimal(n / 10);
    }
  }

  /** No other digits without a leading zero stand for it. */
  lemma {:induction false} DecimalUnique(ds: seq<Digit>)
    requires ds != [] && ds[0] != 0
    ensures Decimal(Dec(ds)) == ds
    decreases |ds|
  {
    var front, last := ds[..|ds| - 1], ds[|ds| - 1];
    assert ds == front + [last];
    if front == [] {
      assert Dec(front) == 0;
    } else {
      DecBound(front);
      DecimalUnique(front);
    }
  }

  lemma DecimalLength(n: nat, k: nat)
    requires k >= 1 && Pow(10, k - 1) <= n < Pow(10, k)
    ensures |Decimal(n)| == k && Decimal(n)[0] != 0
  {
    hide Pow, Dec, Decimal;
    DecDecimal(n);
    DecBound(Decimal(n));
    var j := |Decimal(n)|;
    if j < k {
      PowMono(10, j, k - 1);
    } else if k < j {
      PowMono(10, k, j - 1);
    }
  }

  // ----- characters -----

  predicate IsDigit(c: char) {
    '0' <= c <= '9'
  }

  /** `to_digit`: 36 for anything that is no digit in any radix. */
  function ToDigit(c: char): nat {
    if '0' <= c <= '9' then c as nat - '0' as nat
    else if 'A' <= c <= 'Z' then c as nat - 'A' as nat + 10
    else if 'a' <= c <= 'z' then c as nat - 'a' as nat + 10
    else 36
  }

  function DigitChar(d: Digit): (c: char)
    ensures IsDigit(c) && ToDigit(c) == d
  {
    ('0' as nat + d) as char
  }

  /** A zero-terminated string. */
  function At(s: string, i: nat): char {
    if i < |s| then s[i] else '\0'
  }

  function Chars(ds: seq<Digit>): (s: string)
    ensures |s| == |ds|
  {
    seq(|ds|, i requires 0 <= i < |ds| => DigitChar(ds[i]))
  }

  /** The longest run of digits from `i` on. */
  function DigitsFrom(s: string, i: nat): (ds: seq<Digit>)
    ensures i + |ds| <= |s| || ds == []
    decreases |s| - i
  {
    if i < |s| && IsDigit(s[i]) then [ToDigit(s[i])] + DigitsFrom(s, i + 1) else []
  }

  lemma {:induction false} DigitsFromAt(s: string, i: nat, k: nat)
    requires k <= |DigitsFrom(s, i)|
    ensures k < |DigitsFrom(s, i)| ==> IsDigit(At(s, i + k)) && ToDigit(At(s, i + k)) == DigitsFrom(s, i)[k]
    ensures k == |DigitsFrom(s, i)| ==> !IsDigit(At(s, i + k))
    decreases k
  {
    if k > 0 {
      DigitsFromAt(s, i + 1, k - 1);
    }
  }

  lemma {:induction false} DigitsOfChars(before: string, ds: seq<Digit>, after: string)
    requires !IsDigit(At(after, 0))
    ensures DigitsFrom(before + Chars(ds) + after, |before|) == ds
    decreases |ds|
  {
    var s := before + Chars(ds) + after;
    if ds == [] {
      assert |s| == |before| || s[|before|] == At(after, 0);
    } else {
      var before' := before + [DigitChar(ds[0])];
      assert s == before' + Chars(ds[1..]) + after;
      DigitsOfChars(before', ds[1..], after);
      assert s[|before|] == DigitChar(ds[0]);
    }
  }

  // ----- numerals -----

  /** Sign, digits before and after the point, and the decimal exponent. */
  datatype Numeral = Numeral(negative: bool, whole: seq<Digit>, fraction: seq<Digit>, exponent: int)

  function SignLength(s: string, i: nat): nat {
    if At(s, i) == '+' || At(s, i) == '-' then 1 else 0
  }

  /** A point counts after a digit or before one. */
  predicate PointAt(s: string, start: nat, i: nat)
    requires start <= i
  {
    At(s, i) == '.' && (i > start || IsDigit(At(s, i + 1)))
  }

  function Whole(s: string, start: nat): seq<Digit> {
    DigitsFrom(s, start)
  }

  function Fraction(s: string, start: nat): seq<Digit> {
    var i := start + |Whole(s, start)|;
    if PointAt(s, start, i) then DigitsFrom(s, i + 1) else []
  }

  /** Where the digits end. */
  function MantissaEnd(s: string, start: nat): nat {
    var i := start + |Whole(s, start)|;
    if PointAt(s, start, i) then i + 1 + |Fraction(s, start)| else i
  }

  /** The exponent part at `i`; None when it has no digits. */
  function ReadExponent(s: string, i: nat): Option<int> {
    if At(s, i) == 'e' || At(s, i) == 'E' then
      var ds := DigitsFrom(s, i + 1 + SignLength(s, i + 1));
      if ds == [] then None else Some(if At(s, i + 1) == '-' then -(Dec(ds) as int) else Dec(ds))
    else Some(0)
  }

  /** The numeral at the start of a string; None when there is none. */
  function ReadNumeral(s: string): Option<Numeral> {
    var start := SignLength(s, 0);
    var end := MantissaEnd(s, start);
    if end == start then None
    else
      var x := ReadExponent(s, end);
      if x.None? then None
      else Some(Numeral(At(s, 0) == '-', Whole(s, start), Fraction(s, start), x.value))
  }

  predicate IsInfinity(s: string, i: nat) {
    i + 8 <= |s| && s[i..i + 8] == "Infinity"
  }
}
