/** Sets stored as run-length tables: decoded from the start, or looked up through an index of checkpoints. */
module RunTables {
  import opened Options
  import opened CharSets
  import opened CharRange

  type Byte = b: nat | b < 256

  // ----- the encoding -----

  /** The bytes of the chunk that begins with `b`. */
  function Width(b: Byte): nat {
    if b < 0x40 || 0x80 <= b then 1 else if b < 0x60 then 2 else 3
  }

  predicate FitsAt(t: seq<Byte>, p: nat) {
    p < |t| && p + Width(t[p]) <= |t|
  }

  /** The run lengths in the chunk at `p`: two for a packed byte, one otherwise. */
  function Runs(t: seq<Byte>, p: nat): (r: seq<nat>)
    requires FitsAt(t, p)
    ensures 1 <= |r| <= 2 && forall i :: 0 <= i < |r| ==> r[i] > 0
  {
    var b: nat := t[p];
    var x: nat, y: nat := if p + 1 < |t| then t[p + 1] else 0, if p + 2 < |t| then t[p + 2] else 0;
    if b < 0x40 then [b / 8 + 1, b % 8 + 1]
    else if b >= 0x80 then [b - 0x80 + 1]
    else if b < 0x60 then [(b - 0x40) * 0x100 + x + 1]
    else [(b - 0x60) * 0x1_0000 + x * 0x100 + y + 1]
  }

  /** The chunk at `p`, byte by byte. */
  lemma ChunkBytes(t: seq<Byte>, p: nat)
    requires FitsAt(t, p)
    ensures var b: nat, n := t[p], Runs(t, p);
      if b < 0x40 then n == [b / 8 + 1, b % 8 + 1]
      else if b >= 0x80 then n == [b - 0x80 + 1]
      else var x: nat := t[p + 1];
        if b < 0x60 then n == [(b - 0x40) * 0x100 + x + 1]
        else var y: nat := t[p + 2]; n == [(b - 0x60) * 0x1_0000 + x * 0x100 + y + 1]
  {}

  /** The table consists of whole chunks from `p` on. */
  predicate Whole(t: seq<Byte>, p: nat)
    decreases |t| - p
  {
    p == |t| || (FitsAt(t, p) && Whole(t, p + Width(t[p])))
  }

  /** The code points at which runs end when the run at `p` begins at `c`. */
  function Ends(t: seq<Byte>, p: nat, c: nat): (r: seq<nat>)
    requires Whole(t, p)
    decreases |t| - p
  {
    if p == |t| then []
    else
      var n, q := Runs(t, p), p + Width(t[p]);
      if |n| == 2 then [c + n[0], c + n[0] + n[1]] + Ends(t, q, c + n[0] + n[1]) else [c + n[0]] + Ends(t, q, c + n[0])
  }

  function After(t: seq<Byte>, p: nat, c: nat): nat
    requires FitsAt(t, p)
  {
    var n := Runs(t, p);
    if |n| == 2 then c + n[0] + n[1] else c + n[0]
  }

  lemma {:induction false} EndsAreAbove(t: seq<Byte>, p: nat, c: nat)
    requires Whole(t, p)
    ensures forall i :: 0 <= i < |Ends(t, p, c)| ==> c < Ends(t, p, c)[i]
    ensures Strict(Ends(t, p, c))
    decreases |t| - p
  {
    hide Runs;
    if p < |t| {
      EndsAreAbove(t, p + Width(t[p]), After(t, p, c));
    }
  }

  /** Runs alternate, starting outside the set, so the set's boundaries are the ends of the runs; an odd last one
      only ends the text of the table. */
  function Decoded(t: seq<Byte>): (r: seq<nat>)
    requires Whole(t, 0)
    ensures |r| % 2 == 0
  {
    Even(Ends(t, 0, 0))
  }

  function Even(s: seq<nat>): (r: seq<nat>)
    ensures |r| % 2 == 0
  {
    if |s| % 2 == 0 then s else s[..|s| - 1]
  }

  // ----- linear decoding -----

  /** Decoding is at `p`, the current run begins at `c`, and the ends found so far are `done`. */
  ghost predicate Decoding(t: seq<Byte>, p: nat, c: nat, done: seq<nat>) {
    Whole(t, 0) && Whole(t, p) && Ends(t, 0, 0) == done + Ends(t, p, c) && (|done| % 2 == 1 ==> done[|done| - 1] == c)
  }

  lemma DecodeChunk(t: seq<Byte>, p: nat, c: nat, done: seq<nat>)
    requires Decoding(t, p, c, done) && p < |t|
    ensures FitsAt(t, p)
    ensures var n, q := Runs(t, p), p + Width(t[p]);
      if |n| == 2 then Decoding(t, q, c + n[0] + n[1], done + [c + n[0]] + [c + n[0] + n[1]])
      else Decoding(t, q, c + n[0], done + [c + n[0]])
  {
    hide Runs, Ends, Whole, Width;
    EndsUnfold(t, p, c);
    var n, q := Runs(t, p), p + Width(t[p]);
    if |n| == 2 {
      DecodeTwo(t, p, c, done, q, c + n[0], c + n[0] + n[1]);
    } else {
      DecodeOne(t, p, c, done, q, c + n[0]);
    }
  }

  lemma DecodeOne(t: seq<Byte>, p: nat, c: nat, done: seq<nat>, q: nat, d: nat)
    requires Decoding(t, p, c, done) && Whole(t, q) && Ends(t, p, c) == [d] + Ends(t, q, d)
    ensures Decoding(t, q, d, done + [d])
  {
    hide Ends, Whole;
    Regroup(done, [d], [], Ends(t, q, d));
  }

  lemma DecodeTwo(t: seq<Byte>, p: nat, c: nat, done: seq<nat>, q: nat, d: nat, e: nat)
    requires Decoding(t, p, c, done) && Whole(t, q) && Ends(t, p, c) == [d] + [e] + Ends(t, q, e)
    ensures Decoding(t, q, e, done + [d] + [e])
  {
    hide Ends, Whole;
    Regroup(done, [d], [e], Ends(t, q, e));
  }

  lemma Regroup(a: seq<nat>, b: seq<nat>, d: seq<nat>, e: seq<nat>)
    ensures a + (b + d + e) == (a + b + d) + e && (d == [] ==> a + (b + e) == (a + b) + e)
  {}

  lemma EndsUnfold(t: seq<Byte>, p: nat, c: nat)
    requires Whole(t, p) && p < |t|
    ensures FitsAt(t, p) && Whole(t, p + Width(t[p]))
    ensures var n, q := Runs(t, p), p + Width(t[p]);
      if |n| == 2 then Ends(t, p, c) == [c + n[0]] + [c + n[0] + n[1]] + Ends(t, q, c + n[0] + n[1])
      else Ends(t, p, c) == [c + n[0]] + Ends(t, q, c + n[0])
  {
    hide Runs;
  }

  /** `unicode_prop1` fills an empty range with the decoded set. */
  method UnicodeProp1(t: seq<Byte>, cr: CharRange)
    requires Whole(t, 0) && cr.Valid() && cr.len == 0
    modifies cr, cr.points
    ensures cr.Valid() && cr.Points() == Decoded(t)
  {
    hide Decoding, Ends, Whole, Even, Runs;
    ghost var done: seq<nat> := [];
    var p: nat, c: nat, bit := 0, 0, false;
    StartDecoding(t);
    assert cr.Points() == [];
    while p < |t|
      invariant cr.Valid() && (cr.points == old(cr.points) || fresh(cr.points))
      invariant p <= |t| && Decoding(t, p, c, done)
      invariant bit == (|done| % 2 == 1) && cr.Points() == Even(done)
      decreases |t| - p
    {
      DecodeChunk(t, p, c, done);
      LastEnd(t, p, c, done);
      ChunkBytes(t, p);
      var c0: nat, b: nat := c, t[p];
      p := p + 1;
      if b < 0x40 {
        c := c + b / 8 + 1;
        AddEnd(done, c0, c);
        done := done + [c];
        if bit {
          cr.AddInterval(c0, c);
        }
        bit := !bit;
        c0 := c;
        c := c + b % 8 + 1;
      } else if b >= 0x80 {
        c := c + (b - 0x80) + 1;
      } else {
        var x: nat := t[p];
        p := p + 1;
        if b < 0x60 {
          c := c + ((b - 0x40) * 0x100 + x) + 1;
        } else {
          var y: nat := t[p];
          p := p + 1;
          c := c + ((b - 0x60) * 0x1_0000 + x * 0x100 + y) + 1;
        }
      }
      AddEnd(done, c0, c);
      done := done + [c];
      if bit {
        cr.AddInterval(c0, c);
      }
      bit := !bit;
    }
    DecodingEnds(t, p, c, done);
  }

  lemma LastEnd(t: seq<Byte>, p: nat, c: nat, done: seq<nat>)
    requires Decoding(t, p, c, done)
    ensures |done| % 2 == 1 ==> done[|done| - 1] == c
  {}

  lemma AddEnd(done: seq<nat>, c0: nat, c: nat)
    requires |done| % 2 == 1 ==> done[|done| - 1] == c0
    ensures Even(done + [c]) == if |done| % 2 == 1 then Even(done) + [c0, c] else Even(done)
  {
    if |done| % 2 == 1 {
      assert done == done[..|done| - 1] + [c0];
    } else {
      assert (done + [c])[..|done|] == done;
    }
  }

  lemma StartDecoding(t: seq<Byte>)
    requires Whole(t, 0)
    ensures Decoding(t, 0, 0, []) && Even([]) == []
  {}

  lemma DecodingEnds(t: seq<Byte>, p: nat, c: nat, done: seq<nat>)
    requires Decoding(t, p, c, done) && p >= |t|
    ensures Whole(t, 0) && done == Ends(t, 0, 0)
  {}

  // ----- the index -----

  function Le24(x: seq<Byte>, k: nat): nat
    requires 3 * k + 2 < |x|
  {
    x[3 * k] as nat + x[3 * k + 1] as nat * 0x100 + x[3 * k + 2] as nat * 0x1_0000
  }

  const BLOCK: nat := 32

  /** The code point of an entry, and the position it points to. */
  function EntryCode(x: seq<Byte>, k: nat): nat
    requires 3 * k + 2 < |x|
  {
    Le24(x, k) % 0x20_0000
  }

  function EntryPos(x: seq<Byte>, k: nat): nat
    requires 3 * k + 2 < |x|
  {
    (k + 1) * BLOCK + Le24(x, k) / 0x20_0000
  }

  /** Linear decoding passes through `p` with a run outside the set beginning at `c`. */
  ghost predicate Checkpoint(t: seq<Byte>, p: nat, c: nat) {
    Whole(t, 0) && Whole(t, p) && exists done: seq<nat> :: |done| % 2 == 0 && Below(done, c) && Ends(t, 0, 0) == done + Ends(t, p, c)
  }

  ghost predicate Below(s: seq<nat>, c: nat) {
    forall i :: 0 <= i < |s| ==> s[i] <= c
  }

  /** A correct index: its last entry is the end of the set, the others are checkpoints in ascending order. */
  ghost predicate IndexOk(t: seq<Byte>, x: seq<Byte>, n: nat) {
    && n > 0 && |x| == 3 * n && Whole(t, 0)
    && (forall k :: 0 <= k < n - 1 ==> Checkpoint(t, EntryPos(x, k), EntryCode(x, k)))
    && (forall j, k :: 0 <= j < k < n ==> EntryCode(x, j) <= EntryCode(x, k))
    && Le24(x, n - 1) < 0x20_0000
    && IsEnd(t, Le24(x, n - 1))
  }

  /** The members lie below `c`, and the table reaches at least to `c`. */
  ghost predicate IsEnd(t: seq<Byte>, c: nat)
    requires Whole(t, 0)
  {
    var s := Ends(t, 0, 0);
    s != [] && c <= s[|s| - 1] && Below(Decoded(t), c)
  }

  /** `get_index_pos`: the checkpoint to start from. */
  method GetIndexPos(t: seq<Byte>, c: nat, x: seq<Byte>, n: nat) returns (r: Option<(nat, nat)>)
    requires IndexOk(t, x, n)
    ensures r.None? <==> c >= Le24(x, n - 1)
    ensures r.Some? ==> Checkpoint(t, r.value.0, r.value.1) && r.value.1 <= c
  {
    hide Le24, Checkpoint, IsEnd, EntryPos, Whole;
    TableStart(t, x, n);
    LastCode(t, x, n);
    var code := EntryCode(x, 0);
    if c < code {
      return Some((0, 0));
    }
    var max: nat := n - 1;
    if c >= Le24(x, max) {
      return None;
    }
    var min: nat := 0;
    while max - min > 1
      invariant min <= max < n && (min == max ==> max == n - 1 == 0)
      invariant EntryCode(x, min) <= c < EntryCode(x, max)
      decreases max - min
    {
      var idx := (max + min) / 2;
      if c < EntryCode(x, idx) {
        max := idx;
      } else {
        min := idx;
      }
    }
    return Some((EntryPos(x, min), EntryCode(x, min)));
  }

  lemma TableStart(t: seq<Byte>, x: seq<Byte>, n: nat)
    requires IndexOk(t, x, n)
    ensures Checkpoint(t, 0, 0) && EntryCode(x, 0) <= EntryCode(x, n - 1)
  {
    hide Ends, EntryPos, EntryCode, Le24, IsEnd;
    assert [] + Ends(t, 0, 0) == Ends(t, 0, 0);
  }

  lemma LastCode(t: seq<Byte>, x: seq<Byte>, n: nat)
    requires IndexOk(t, x, n)
    ensures EntryCode(x, n - 1) == Le24(x, n - 1)
  {}

  // ----- looking a code point up -----

  /** The lookup stands at `p`, in a run beginning at `code` that is inside the set if `bit`. */
  ghost predicate Looking(t: seq<Byte>, c: nat, p: nat, code: nat, bit: bool) {
    && Whole(t, 0) && Whole(t, p) && code <= c
    && In(Ends(t, 0, 0), c) == (bit != In(Ends(t, p, code), c))
    && var s := Ends(t, p, code); s != [] && c < s[|s| - 1]
  }

  lemma StartLooking(t: seq<Byte>, c: nat, p: nat, code: nat)
    requires Checkpoint(t, p, code) && code <= c && Ends(t, 0, 0) != []
    requires var s := Ends(t, 0, 0); c < s[|s| - 1]
    ensures Looking(t, c, p, code, false)
  {
    hide Ends, Whole, In;
    var done :| |done| % 2 == 0 && Below(done, code) && Ends(t, 0, 0) == done + Ends(t, p, code);
    var s := Ends(t, p, code);
    assert done + [] == done;
    InAppend(done, s, c);
    InAll(done, c);
  }

  lemma InAppend(s: seq<nat>, u: seq<nat>, c: nat)
    ensures In(s + u, c) == (In(s, c) != In(u, c))
  {
    CountAppend(s, u, c);
  }

  lemma InOne(e: nat, c: nat)
    ensures In([e], c) == (e <= c)
  {
    assert [e] == [] + [e];
    CountSnoc([], e, c);
  }

  lemma NoneBelow(t: seq<Byte>, p: nat, code: nat, c: nat)
    requires Whole(t, p) && c <= code
    ensures !In(Ends(t, p, code), c)
  {
    hide Ends, Whole;
    EndsAreAbove(t, p, code);
    CountNone(Ends(t, p, code), c);
  }

  /** One chunk: either the answer is found in it or the lookup goes on behind it. */
  lemma LookChunk(t: seq<Byte>, c: nat, p: nat, code: nat, bit: bool)
    requires Looking(t, c, p, code, bit)
    ensures FitsAt(t, p)
    ensures var n, q := Runs(t, p), p + Width(t[p]);
      if c < code + n[0] then In(Ends(t, 0, 0), c) == bit
      else if |n| == 1 then Looking(t, c, q, code + n[0], !bit)
      else if c < code + n[0] + n[1] then In(Ends(t, 0, 0), c) == !bit
      else Looking(t, c, q, code + n[0] + n[1], bit)
  {
    hide Runs, In;
    var n, q := Runs(t, p), p + Width(t[p]);
    var e := After(t, p, code);
    var rest := Ends(t, q, e);
    if |n| == 2 {
      assert Ends(t, p, code) == ([code + n[0]] + [e]) + rest;
      InAppend([code + n[0]] + [e], rest, c);
      InAppend([code + n[0]], [e], c);
      InOne(code + n[0], c);
    } else {
      assert Ends(t, p, code) == [e] + rest;
      InAppend([e], rest, c);
    }
    InOne(e, c);
    if c < e {
      NoneBelow(t, q, e, c);
    }
  }

  /** `lre_is_in_table`: the lookup through a correct index agrees with decoding the whole table. */
  method LreIsInTable(c: nat, t: seq<Byte>, x: seq<Byte>, n: nat) returns (r: bool)
    requires IndexOk(t, x, n)
    ensures r == In(Decoded(t), c)
  {
    hide IndexOk, Checkpoint, Looking, Whole, Ends, In, Even, Runs, Decoded;
    var pos := GetIndexPos(t, c, x, n);
    OutsideTable(t, c, x, n);
    if pos.None? {
      return false;
    }
    var p: nat, code: nat, bit := pos.value.0, pos.value.1, false;
    StartLooking(t, c, p, code);
    while true
      invariant Looking(t, c, p, code, bit)
      invariant In(Ends(t, 0, 0), c) == In(Decoded(t), c)
      decreases |t| - p
    {
      LookChunk(t, c, p, code, bit);
      ChunkBytes(t, p);
      var b: nat := t[p];
      p := p + 1;
      if b < 0x40 {
        code := code + b / 8 + 1;
        if c < code {
          return bit;
        }
        bit := !bit;
        code := code + b % 8 + 1;
      } else if b >= 0x80 {
        code := code + (b - 0x80) + 1;
      } else {
        var y: nat := t[p];
        p := p + 1;
        if b < 0x60 {
          code := code + ((b - 0x40) * 0x100 + y) + 1;
        } else {
          var z: nat := t[p];
          p := p + 1;
          code := code + ((b - 0x60) * 0x1_0000 + y * 0x100 + z) + 1;
        }
      }
      if c < code {
        return bit;
      }
      bit := !bit;
    }
  }

  /** Above the last entry nothing is in the set, and below it the odd last end does not count. */
  lemma OutsideTable(t: seq<Byte>, c: nat, x: seq<Byte>, n: nat)
    requires IndexOk(t, x, n)
    ensures Whole(t, 0) && Ends(t, 0, 0) != []
    ensures var s := Ends(t, 0, 0);
      if c >= Le24(x, n - 1) then !In(Decoded(t), c) else c < s[|s| - 1] && In(Decoded(t), c) == In(s, c)
  {
    hide Ends, Whole, Checkpoint, Le24, EntryPos, EntryCode, In;
    var s := Ends(t, 0, 0);
    if c >= Le24(x, n - 1) {
      InAll(Decoded(t), c);
    } else if |s| % 2 == 1 {
      assert s == Decoded(t) + [s[|s| - 1]];
      InSnocAbove(Decoded(t), s[|s| - 1], c);
    }
  }
}
