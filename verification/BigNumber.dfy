/** Multi-limb numbers with their length, and scaling them by powers with exact rounding. */
module BigNumber {
  import opened Powers
  import opened Rounding
  import opened Limbs

  function Min(a: int, b: int): int {
    if a < b then a else b
  }

  function Pos(x: int): nat {
    if x > 0 then x else 0
  }

  /** Leading zeros of a non-zero limb. */
  function Clz32(x: Limb): (k: nat)
    requires x > 0
    ensures k < 32 && B / 2 <= x * Pow(2, k) < B
    decreases B - x
  {
    if x >= B / 2 then PowOne(2); 0
    else
      var k := Clz32(2 * x);
      ClzStep(x, k);
      k + 1
  }

  lemma ClzStep(x: Limb, k: nat)
    requires 0 < x < B / 2 && k < 32 && B / 2 <= (2 * x) * Pow(2, k) < B
    ensures k + 1 < 32 && x * Pow(2, k + 1) == (2 * x) * Pow(2, k)
  {
    Assoc(x, 2, Pow(2, k));
    if k == 31 {
      Halves(31);
      MulMono(2, 2 * x, Pow(2, 31));
      Pow32();
    }
  }

  class Mpb {
    const tab: array<Limb>
    var len: nat

    ghost predicate Valid()
      reads this
    {
      1 <= len <= tab.Length
    }

    /** No leading zero limb. */
    ghost predicate Normal()
      reads this, tab
    {
      Valid() && (len == 1 || tab[len - 1] != 0)
    }

    ghost function V(): nat
      requires Valid()
      reads this, tab
    {
      Value(tab[..len])
    }

    constructor (capacity: nat)
      requires capacity >= 1
      ensures fresh(tab) && tab.Length == capacity && Normal() && V() == 0
    {
      tab := new Limb[capacity](_ => 0);
      len := 1;
      new;
      ValueZeros(tab[..1]);
    }

    /** `mpb_renorm` */
    method Renorm()
      requires Valid()
      modifies this`len
      ensures Normal() && V() == old(V()) && len <= old(len)
    {
      hide Pow, Value;
      while len > 1 && tab[len - 1] == 0
        invariant 1 <= len <= old(len) && V() == old(V())
        decreases len
      {
        ValueSnoc(tab[..], len - 1);
        assert tab[..][..len] == tab[..len] && tab[..][..len - 1] == tab[..len - 1];
        len := len - 1;
      }
    }

    /** `mpb_get_bit` */
    method GetBit(k: nat) returns (bit: nat)
      requires Valid()
      ensures bit == V() / Pow(2, k) % 2
    {
      hide Pow, Value;
      var l, j := k / 32, k % 32;
      if l >= len {
        BeyondTop(tab[..len], k);
        bit := 0;
      } else {
        BitOfLimb(tab[..len], k);
        bit := tab[l] / Pow(2, j) % 2;
      }
    }

    method SetU64(m: nat)
      requires Valid() && tab.Length >= 2 && m < B * B
      modifies this`len, tab
      ensures Normal() && V() == m
    {
      tab[0], tab[1] := m % B, m / B;
      len := if tab[1] == 0 then 1 else 2;
      TwoLimbs(tab[..2]);
      assert tab[..2][..1] == tab[..1];
    }

    method GetU64() returns (m: nat)
      requires Normal() && V() < B * B
      ensures m == V()
    {
      hide Pow, Value;
      NormalSize(tab[..len]);
      if len > 2 {
        PowMono(B, 2, len - 1);
        SquareOfBase();
      }
      if len == 1 {
        ValueOne(tab[0]);
        assert tab[..1] == [tab[0]];
        m := tab[0];
      } else {
        TwoLimbs(tab[..2]);
        m := tab[0] + tab[1] * B;
      }
    }

    /** `mpb_floor_log2` of a non-zero number. */
    method FloorLog2() returns (e: nat)
      requires Normal() && V() > 0
      ensures Pow(2, e) <= V() < Pow(2, e + 1)
      ensures e < 32 * len
    {
      hide Pow, Value, Clz32;
      ghost var top := tab[len - 1];
      if len == 1 {
        ValueOne(tab[0]);
        assert tab[..1] == [tab[0]];
      }
      var v := tab[len - 1];
      e := len * 32 - 1 - Clz32(v);
      TopBit(tab[..len], Clz32(v));
    }

    // ----- shifts -----

    /** Zero is a single limb. */
    lemma ZeroForm()
      requires Normal()
      ensures V() == 0 <==> tab[0] == 0 && len == 1
    {
      hide Pow, Value;
      NormalSize(tab[..len]);
      if len == 1 {
        assert tab[..len] == [tab[0]];
        ValueOne(tab[0]);
      }
    }

    /** Moves the limbs `l` places up and clears those below. */
    method MoveUp(l: nat)
      requires Valid() && len + l <= tab.Length && l > 0
      modifies this`len, tab
      ensures Valid() && len == old(len) + l && V() == Pow(B, l) * old(V())
      ensures old(Normal() && V() > 0) ==> Normal()
    {
      hide Pow, Value;
      ghost var was := tab[..len];
      CopyUp(l);
      for i := 0 to l
        invariant tab[l..len + l] == was && forall j :: 0 <= j < i ==> tab[j] == 0
        modifies tab
      {
        ghost var before := tab[l..len + l];
        tab[i] := 0;
        assert tab[l..len + l] == before;
      }
      len := len + l;
      MovedUp(was, tab[..len], l);
    }

    method CopyUp(l: nat)
      requires Valid() && len + l <= tab.Length
      modifies tab
      ensures tab[l..len + l] == old(tab[..len])
    {
      ghost var was := tab[..len];
      var i := len;
      while i > 0
        invariant 0 <= i <= len && tab[..i] == was[..i] && tab[i + l..len + l] == was[i..]
      {
        i := i - 1;
        assert tab[..i + 1][i] == was[i];
        ghost var before := tab[..];
        tab[i + l] := tab[i];
        assert tab[i + l..len + l] == [was[i]] + before[i + 1 + l..len + l];
        assert tab[..i] == before[..i + 1][..i];
      }
    }

    /** The left half of `mpb_shr_round`. */
    method ShiftLeft(bits: nat)
      requires Normal() && (bits >= 32 ==> V() > 0) && len + bits / 32 + 1 <= tab.Length
      modifies this`len, tab
      ensures Normal() && V() == old(V()) * Pow(2, bits) && len <= old(len) + bits / 32 + 1
    {
      hide Pow, Value;
      ghost var v := V();
      var l, shift := bits / 32, bits % 32;
      LeftParts(v, bits);
      if shift != 0 {
        ShiftBits(shift);
      } else {
        PowOne(2);
      }
      if l > 0 {
        MoveUp(l);
      } else {
        PowOne(B);
      }
    }

    /** Left by less than a limb. */
    method ShiftBits(shift: nat)
      requires Normal() && 1 <= shift < 32 && len + 1 <= tab.Length
      modifies this`len, tab
      ensures Normal() && V() == old(V()) * Pow(2, shift) && len <= old(len) + 1
    {
      hide Pow, Value;
      var carry := Shl(tab, len, shift, 0);
      ghost var low := tab[..len];
      tab[len] := carry;
      assert tab[..len] == low;
      ValueSnoc(tab[..], len);
      assert tab[..][..len + 1] == tab[..len + 1] && tab[..][..len] == tab[..len];
      len := len + 1;
      Renorm();
    }

    /** Moves the limbs `l` places down. */
    method MoveDown(l: nat)
      requires Normal() && l < len
      modifies this`len, tab
      ensures Normal() && len == old(len) - l && V() == old(V()) / Pow(B, l)
    {
      hide Pow, Value;
      ghost var was := tab[..len];
      len := len - l;
      for i := 0 to len
        invariant tab[..i] == was[l..l + i] && tab[i + l..len + l] == was[i + l..]
        modifies tab
      {
        ghost var before := tab[..];
        assert tab[i + l] == tab[i + l..len + l][0] == was[i + l];
        tab[i] := tab[i + l];
        assert tab[..i + 1] == before[..i] + [was[l + i]];
        assert tab[i + 1 + l..len + l] == before[i + l..len + l][1..];
      }
      assert tab[..len] == was[l..];
      LowLimbs(was, l);
      assert tab[len - 1] == tab[..len][len - 1];
    }

    /** Whether any of the low `k` bits is set. */
    method AnyBelow(k: nat) returns (any: bool)
      requires Valid()
      ensures any == (V() % Pow(2, k) != 0)
    {
      hide Pow, Value;
      var l, j := k / 32, k % 32;
      any := false;
      var n := if l < len then l else len;
      for i := 0 to n
        invariant any == (exists m :: 0 <= m < i && tab[m] != 0)
      {
        if tab[i] != 0 {
          any := true;
        }
      }
      LowLimbsZero(tab[..len], n);
      if l < len {
        LowBits(tab[..len], k);
        if tab[l] % Pow(2, j) != 0 {
          any := true;
        }
      } else {
        assert tab[..len][..n] == tab[..len];
        BeyondTop(tab[..len], k);
        DivMod(V(), Pow(2, k));
      }
    }

    /** Whether `mpb_shr_round` rounds up: the bit below the cut, then the bits under it or the bit above. */
    method RoundBit(shift: nat, mode: Mode) returns (addOne: bool)
      requires Valid() && shift > 0
      ensures addOne == RoundsUp(V() / Pow(2, shift), V() % Pow(2, shift), Pow(2, shift), mode)
    {
      hide Pow, Value;
      HalfBit(V(), shift);
      if mode == TowardZero {
        return false;
      }
      var bit1 := GetBit(shift - 1);
      if bit1 == 0 {
        return false;
      }
      if mode == ToNearestAway {
        return true;
      }
      var bit2 := AnyBelow(shift - 1);
      if bit2 {
        return true;
      }
      var bit := GetBit(shift);
      addOne := bit == 1;
    }

    /** The right half of `mpb_shr_round`. */
    method ShiftRight(bits: nat, mode: Mode)
      requires Normal() && bits > 0
      modifies this`len, tab
      ensures Normal() && V() == Round(old(V()), Pow(2, bits), mode) && len <= old(len)
    {
      hide Pow, Value, Round, RoundsUp;
      ghost var v := V();
      var addOne := RoundBit(bits, mode);
      RoundIs(v, Pow(2, bits), mode, addOne);
      if bits / 32 >= len {
        BeyondTop(tab[..len], bits);
        len := 1;
        tab[0] := if addOne then 1 else 0;
        assert tab[..1] == [tab[0]];
        ValueOne(tab[0]);
      } else {
        DropBits(bits);
        if addOne {
          AddOne();
        }
      }
    }

    /** Right by fewer bits than there are, without rounding. */
    method DropBits(bits: nat)
      requires Normal() && 0 < bits && bits / 32 < len
      modifies this`len, tab
      ensures Normal() && V() == old(V()) / Pow(2, bits) && len <= old(len) && (len < old(len) || V() + 1 < Pow(B, len))
    {
      hide Pow, Value;
      ghost var v, size := V(), len;
      var l, shift := bits / 32, bits % 32;
      PowSplit(bits);
      DivDiv(v, Pow(B, l), Pow(2, shift));
      ValueBound(tab[..len]);
      if l > 0 {
        MoveDown(l);
      } else {
        PowOne(B);
        NoQuotient(v);
      }
      if shift != 0 {
        ghost var before := V();
        var rem := Shr(tab, len, shift, 0);
        DivUnique(before, Pow(2, shift), V(), rem);
        Renorm();
      } else {
        PowOne(2);
        NoQuotient(V());
      }
      ValueBound(tab[..len]);
      if len == size {
        RoomForCarry(V(), v, bits, size);
      }
    }

    method AddOne()
      requires Normal() && (len < tab.Length || V() + 1 < Pow(B, len))
      modifies this`len, tab
      ensures Normal() && V() == old(V()) + 1 && (old(V()) + 1 < Pow(B, old(len)) ==> len == old(len)) && len <= old(len) + 1
    {
      hide Pow, Value;
      NormalSize(tab[..len]);
      var a := AddUi(tab, 1, len);
      NormalSize(tab[..len]);
      if a != 0 {
        MulMono(1, a, Pow(B, len));
        ghost var low := tab[..len];
        tab[len] := a;
        assert tab[..len] == low;
        ValueSnoc(tab[..], len);
        assert tab[..][..len + 1] == tab[..len + 1] && tab[..][..len] == tab[..len];
        len := len + 1;
      }
    }

    /** `mpb_shr_round`: the shift may go either way. */
    method ShrRound(shift: int, mode: Mode)
      requires Normal() && (shift <= -32 ==> V() > 0) && (shift < 0 ==> len + -shift / 32 + 1 <= tab.Length)
      modifies this`len, tab
      ensures Normal() && V() == ShiftRound(old(V()), shift, mode)
      ensures len <= old(len) + if shift < 0 then -shift / 32 + 1 else 0
    {
      PowOne(2);
      if shift < 0 {
        ShiftLeft(-shift);
      } else if shift > 0 {
        ShiftRight(shift, mode);
      }
    }
  }

  lemma SquareOfBase()
    ensures Pow(B, 2) == B * B
  {
    PowOne(B);
    PowAdd(B, 1, 1);
  }

  lemma PowBase(k: nat)
    ensures Pow(B, k) == Pow(2, 32 * k)
  {
    Pow32();
    PowOfPow(2, 32, k);
  }

  lemma TwoLimbs(s: seq<Limb>)
    requires |s| == 2
    ensures Value(s) == s[0] + B * s[1] && Value(s[..1]) == s[0]
  {
    ValueOne(s[1]);
    ValueOne(s[0]);
    assert s[1..] == [s[1]] && s[..1] == [s[0]];
  }

  /** A number whose top limb is not zero has the full length. */
  lemma NormalSize(s: seq<Limb>)
    requires |s| >= 1
    ensures |s| == 1 || s[|s| - 1] != 0 ==> |s| == 1 || Value(s) >= Pow(B, |s| - 1)
    ensures |s| > 1 && s[|s| - 1] == 0 ==> Value(s) < Pow(B, |s| - 1)
  {
    hide Pow, Value;
    var n := |s| - 1;
    ValueSnoc(s, n);
    assert s[..n + 1] == s;
    ValueBound(s[..n]);
    if s[n] != 0 {
      MulMono(1, s[n], Pow(B, n));
    }
  }

  lemma BeyondTop(s: seq<Limb>, k: nat)
    requires k / 32 >= |s|
    ensures Value(s) < Pow(2, k) && Value(s) / Pow(2, k) == 0
  {
    hide Pow, Value;
    ValueBound(s);
    PowBase(|s|);
    PowMono(2, 32 * |s|, k);
    DivUnique(Value(s), Pow(2, k), 0, Value(s));
  }

  /** Splitting off the limbs below `l`. */
  lemma LowLimbs(s: seq<Limb>, l: nat)
    requires l <= |s|
    ensures Value(s) / Pow(B, l) == Value(s[l..]) && Value(s) % Pow(B, l) == Value(s[..l])
  {
    hide Pow, Value;
    ValueSplit(s, l);
    ValueBound(s[..l]);
    DivUnique(Value(s), Pow(B, l), Value(s[l..]), Value(s[..l]));
  }

  lemma PowSplit(k: nat)
    ensures Pow(2, k) == Pow(B, k / 32) * Pow(2, k % 32)
  {
    PowBase(k / 32);
    PowAdd(2, 32 * (k / 32), k % 32);
  }

  lemma BitOfLimb(s: seq<Limb>, k: nat)
    requires k / 32 < |s|
    ensures Value(s) / Pow(2, k) % 2 == s[k / 32] / Pow(2, k % 32) % 2
  {
    hide Pow, Value;
    var l, j := k / 32, k % 32;
    LowLimbs(s, l);
    PowSplit(k);
    DivDiv(Value(s), Pow(B, l), Pow(2, j));
    HeadLimb(s[l..], j);
  }

  lemma HeadLimb(s: seq<Limb>, j: nat)
    requires s != [] && j < 32
    ensures Value(s) / Pow(2, j) % 2 == s[0] / Pow(2, j) % 2
  {
    hide Pow;
    var p, t, h := Pow(2, j), Pow(2, 31 - j), Value(s[1..]);
    BaseFactors(j);
    Regroup(p, t, h);
    MulPos(t, h);
    assert Value(s) == s[0] + 2 * (t * h) * p;
    AddMultiple(s[0], 2 * (t * h), p);
    EvenPart(s[0] / p + 2 * (t * h), t * h, s[0] / p);
  }

  lemma BaseFactors(j: nat)
    requires j < 32
    ensures Pow(2, j) * Pow(2, 31 - j) * 2 == B
  {
    hide Pow;
    PowAdd(2, j, 31 - j);
    PowAdd(2, 31, 1);
    PowOne(2);
    Pow32();
  }

  lemma Regroup(p: nat, t: nat, h: nat)
    ensures (p * t * 2) * h == (2 * (t * h)) * p
  {
    Assoc(p * t, 2, h);
    Assoc(p, t, 2 * h);
    Assoc(t, 2, h);
    Assoc(2, t, h);
  }

  lemma AddMultiple(x: nat, m: nat, p: nat)
    requires p > 0
    ensures (x + m * p) / p == x / p + m && (x + m * p) % p == x % p
  {
    DivMod(x, p);
    Distribute(p, x / p, m);
    MulPos(x / p + m, p);
    DivUnique(x + m * p, p, x / p + m, x % p);
  }

  lemma TopBit(s: seq<Limb>, k: nat)
    requires s != [] && s[|s| - 1] > 0 && k < 32 && B / 2 <= s[|s| - 1] * Pow(2, k) < B
    ensures var e := 32 * |s| - 1 - k; Pow(2, e) <= Value(s) < Pow(2, e + 1)
  {
    hide Pow, Value;
    var n, x := |s| - 1, s[|s| - 1];
    var p := Pow(2, k);
    ValueSnoc(s, n);
    assert s[..n + 1] == s;
    ValueBound(s[..n]);
    PowBase(n);
    var j := 31 - k;
    PowAdd(2, k, j);
    PowAdd(2, k, j + 1);
    PowAdd(2, 31, 1);
    PowOne(2);
    Pow32();
    // Pow(2, j) <= x < Pow(2, j + 1)
    if x < Pow(2, j) {
      MulMonoStrict(x, Pow(2, j), p);
    }
    if x >= Pow(2, j + 1) {
      MulMono(Pow(2, j + 1), x, p);
    }
    var w := Pow(B, n);
    PowAdd(2, 32 * n, j);
    PowAdd(2, 32 * n, j + 1);
    MulMono(Pow(2, j), x, w);
    MulMono(x + 1, Pow(2, j + 1), w);
    Distribute(w, x, 1);
  }

  // ----- shifts -----

  lemma MovedUp(was: seq<Limb>, now: seq<Limb>, l: nat)
    requires was != [] && l > 0 && |now| == |was| + l && now[l..] == was && forall i :: 0 <= i < l ==> now[i] == 0
    ensures Value(now) == Pow(B, l) * Value(was)
    ensures Value(was) > 0 && (|was| == 1 || was[|was| - 1] != 0) ==> now[|now| - 1] != 0
  {
    hide Pow, Value;
    ValueSplit(now, l);
    ValueZeros(now[..l]);
    assert now[|now| - 1] == now[l..][|was| - 1];
    if |was| == 1 {
      assert was == [was[0]];
      ValueOne(was[0]);
    }
  }

  lemma LeftParts(v: nat, bits: nat)
    ensures Pow(B, bits / 32) * (v * Pow(2, bits % 32)) == v * Pow(2, bits)
  {
    PowSplit(bits);
    Assoc(v, Pow(2, bits % 32), Pow(B, bits / 32));
  }

  lemma NoQuotient(v: nat)
    ensures v / 1 == v
  {}

  lemma LowLimbsZero(s: seq<Limb>, n: nat)
    requires n <= |s|
    ensures Value(s[..n]) == 0 <==> !exists m :: 0 <= m < n && s[m] != 0
    decreases n
  {
    hide Pow, Value;
    if n == 0 {
      ValueStart(s);
    } else {
      LowLimbsZero(s, n - 1);
      ValueSnoc(s, n - 1);
      MulPos(Pow(B, n - 1), s[n - 1]);
    }
  }

  /** The low bits of a number: whole limbs, then part of one. */
  lemma LowBits(s: seq<Limb>, k: nat)
    requires k / 32 < |s|
    ensures Value(s) % Pow(2, k) == 0 <==> Value(s[..k / 32]) == 0 && s[k / 32] % Pow(2, k % 32) == 0
  {
    hide Pow, Value;
    var l, j := k / 32, k % 32;
    LowLimbs(s, l);
    PowSplit(k);
    DivDiv(Value(s), Pow(B, l), Pow(2, j));
    HeadBits(s[l..], j);
  }

  lemma HeadBits(s: seq<Limb>, j: nat)
    requires s != [] && j < 32
    ensures Value(s) % Pow(2, j) == s[0] % Pow(2, j)
  {
    hide Pow;
    var p, t, h := Pow(2, j), Pow(2, 32 - j), Value(s[1..]);
    PowAdd(2, j, 32 - j);
    Pow32();
    assert p * t == B;
    Assoc(p, t, h);
    MulPos(t, h);
    AddMultiple(s[0], t * h, p);
  }

  /** The bit below the cut tells whether the remainder reaches one half, the bits under it by how much. */
  lemma HalfBit(v: nat, shift: nat)
    requires shift > 0
    ensures var p, half := Pow(2, shift), Pow(2, shift - 1); var bit, low := v / half % 2, v % half;
      && p == 2 * half && v % p == bit * half + low && low < half && (bit == 0 || bit == 1)
  {
    var half := Pow(2, shift - 1);
    Assoc(half, 2, 1);
    DivDiv(v, half, 2);
    DivMod(v, half);
  }

  lemma RoundIs(v: nat, p: nat, mode: Mode, up: bool)
    requires p > 0 && up == RoundsUp(v / p, v % p, p, mode)
    ensures Round(v, p, mode) == v / p + if up then 1 else 0
  {}

  /** After a shift that leaves the length alone there is room for a carry. */
  lemma RoomForCarry(q: nat, v: nat, bits: nat, size: nat)
    requires size >= 1 && bits > 0 && q == v / Pow(2, bits) && v < Pow(B, size)
    ensures q + 1 < Pow(B, size)
  {
    hide Pow;
    PowMono(2, 1, bits);
    PowOne(2);
    DivMod(v, Pow(2, bits));
    MulMono(2, Pow(2, bits), q);
    PowMono(B, 1, size);
    PowOne(B);
  }
}
