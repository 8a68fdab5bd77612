/** The inverse of the table decoder: run lengths packed into bytes, and checkpoints packed into three bytes each. */
module RunEncoding {
  import opened RunTables

  /** One run in as few bytes as hold it: seven bits, or five bits and one or two bytes more. */
  function PackRun(n: nat): (s: seq<Byte>)
    requires 1 <= n <= 0x20_0000
    ensures s != []
  {
    var m := n - 1;
    if m < 0x80 then [0x80 + m]
    else if m < 0x2000 then [0x40 + m / 0x100, m % 0x100]
    else [0x60 + m / 0x1_0000, m / 0x100 % 0x100, m % 0x100]
  }

  /** Two short runs share a byte, three bits each. */
  function PackTwo(a: nat, b: nat): Byte
    requires 1 <= a <= 8 && 1 <= b <= 8
  {
    (a - 1) * 8 + (b - 1)
  }

  predicate Packable(ns: seq<nat>) {
    forall i :: 0 <= i < |ns| ==> 1 <= ns[i] <= 0x20_0000
  }

  function Pack(ns: seq<nat>): seq<Byte>
    requires Packable(ns)
  {
    if ns == [] then []
    else if |ns| >= 2 && ns[0] <= 8 && ns[1] <= 8 then [PackTwo(ns[0], ns[1])] + Pack(ns[2..])
    else PackRun(ns[0]) + Pack(ns[1..])
  }

  /** Where runs of these lengths end, the first one beginning at `c`. */
  function Sums(ns: seq<nat>, c: nat): seq<nat> {
    if ns == [] then [] else [c + ns[0]] + Sums(ns[1..], c + ns[0])
  }

  lemma ChunkOfRun(before: seq<Byte>, n: nat, after: seq<Byte>)
    requires 1 <= n <= 0x20_0000
    ensures var t, p := before + PackRun(n) + after, |before|;
      FitsAt(t, p) && Width(t[p]) == |PackRun(n)| && Runs(t, p) == [n]
  {
    var s := PackRun(n);
    var t, p := before + s + after, |before|;
    assert forall k :: 0 <= k < |s| ==> t[p + k] == s[k];
  }

  lemma ChunkOfTwo(before: seq<Byte>, a: nat, b: nat, after: seq<Byte>)
    requires 1 <= a <= 8 && 1 <= b <= 8
    ensures var t, p := before + [PackTwo(a, b)] + after, |before|;
      FitsAt(t, p) && Width(t[p]) == 1 && Runs(t, p) == [a, b]
  {
    var t, p := before + [PackTwo(a, b)] + after, |before|;
    assert t[p] == PackTwo(a, b);
  }

  /** Decoding packed runs gives back where they end. */
  lemma {:induction false} PackedEnds(before: seq<Byte>, ns: seq<nat>, c: nat)
    requires Packable(ns)
    ensures Whole(before + Pack(ns), |before|) && Ends(before + Pack(ns), |before|, c) == Sums(ns, c)
    decreases |ns|
  {
    if ns == [] {
      assert before + [] == before;
    } else {
      hide *;
      var two := PackUnfold(ns);
      var k: nat := if two then 2 else 1;
      var s := if two then [PackTwo(ns[0], ns[1])] else PackRun(ns[0]);
      var rest := Pack(ns[k..]);
      Regrouped(before, s, rest);
      PackedEnds(before + s, ns[k..], if two then c + ns[0] + ns[1] else c + ns[0]);
      if two {
        PackedTwo(before, ns, c, rest);
      } else {
        PackedOne(before, ns, c, rest);
      }
    }
  }

  lemma PackUnfold(ns: seq<nat>) returns (two: bool)
    requires Packable(ns) && ns != []
    ensures 1 <= ns[0] <= 0x20_0000 && (two ==> |ns| >= 2 && 1 <= ns[0] <= 8 && 1 <= ns[1] <= 8)
    ensures Packable(ns[if two then 2 else 1..])
    ensures Pack(ns) == (if two then [PackTwo(ns[0], ns[1])] else PackRun(ns[0])) + Pack(ns[if two then 2 else 1..])
  {
    hide PackRun, PackTwo;
    two := |ns| >= 2 && ns[0] <= 8 && ns[1] <= 8;
  }

  lemma PackedTwo(before: seq<Byte>, ns: seq<nat>, c: nat, rest: seq<Byte>)
    requires |ns| >= 2 && 1 <= ns[0] <= 8 && 1 <= ns[1] <= 8
    requires var t := before + [PackTwo(ns[0], ns[1])] + rest; var e := c + ns[0] + ns[1];
      Whole(t, |before| + 1) && Ends(t, |before| + 1, e) == Sums(ns[2..], e)
    ensures var t := before + [PackTwo(ns[0], ns[1])] + rest;
      Whole(t, |before|) && Ends(t, |before|, c) == Sums(ns, c)
  {
    hide Runs, Width, PackTwo, Ends, Whole, Sums, FitsAt;
    ChunkOfTwo(before, ns[0], ns[1], rest);
    ChunkBefore(before + [PackTwo(ns[0], ns[1])] + rest, |before|, c);
    TwoSums(ns, c);
  }

  lemma PackedOne(before: seq<Byte>, ns: seq<nat>, c: nat, rest: seq<Byte>)
    requires ns != [] && 1 <= ns[0] <= 0x20_0000
    requires var t, s := before + PackRun(ns[0]) + rest, PackRun(ns[0]);
      Whole(t, |before| + |s|) && Ends(t, |before| + |s|, c + ns[0]) == Sums(ns[1..], c + ns[0])
    ensures var t := before + PackRun(ns[0]) + rest;
      Whole(t, |before|) && Ends(t, |before|, c) == Sums(ns, c)
  {
    hide Runs, Width, PackRun, Ends, Whole, FitsAt;
    ChunkOfRun(before, ns[0], rest);
    ChunkBefore(before + PackRun(ns[0]) + rest, |before|, c);
  }

  lemma Regrouped(a: seq<Byte>, s: seq<Byte>, r: seq<Byte>)
    ensures a + (s + r) == a + s + r && |a + s| == |a| + |s|
  {}

  lemma TwoSums(ns: seq<nat>, c: nat)
    requires |ns| >= 2
    ensures Sums(ns, c) == [c + ns[0]] + [c + ns[0] + ns[1]] + Sums(ns[2..], c + ns[0] + ns[1])
  {
    assert ns[1..][1..] == ns[2..];
  }

  lemma ChunkBefore(t: seq<Byte>, p: nat, c: nat)
    requires FitsAt(t, p) && Whole(t, p + Width(t[p]))
    ensures Whole(t, p)
    ensures var n, q := Runs(t, p), p + Width(t[p]);
      if |n| == 2 then Ends(t, p, c) == [c + n[0]] + [c + n[0] + n[1]] + Ends(t, q, c + n[0] + n[1])
      else Ends(t, p, c) == [c + n[0]] + Ends(t, q, c + n[0])
  {
    hide Runs;
    EndsUnfold(t, p, c);
  }

  /** The set stored in a packed table has the ends of its runs as boundaries. */
  lemma PackedDecodes(ns: seq<nat>)
    requires Packable(ns) && |ns| % 2 == 0
    ensures Whole(Pack(ns), 0) && Decoded(Pack(ns)) == Sums(ns, 0)
  {
    hide Runs, Width, Pack, Packable;
    assert [] + Pack(ns) == Pack(ns);
    PackedEnds([], ns, 0);
    SumsLength(ns, 0);
  }

  lemma {:induction false} SumsLength(ns: seq<nat>, c: nat)
    ensures |Sums(ns, c)| == |ns|
    decreases |ns|
  {
    if ns != [] {
      SumsLength(ns[1..], c + ns[0]);
    }
  }

  // ----- the index -----

  /** A checkpoint: 21 bits of code point and 3 bits of offset from the start of the next block of 32 bytes. */
  function PackEntry(code: nat, offset: nat): (s: seq<Byte>)
    requires code < 0x20_0000 && offset < 8
    ensures |s| == 3
  {
    [code % 0x100, code / 0x100 % 0x100, offset * 0x20 + code / 0x1_0000]
  }

  /** An entry is read as it was packed: entry `k` points into the block from byte 32 * (k + 1) on. */
  lemma PackedEntry(x: seq<Byte>, k: nat, code: nat, offset: nat)
    requires code < 0x20_0000 && offset < 8 && 3 * k + 3 <= |x| && x[3 * k..3 * k + 3] == PackEntry(code, offset)
    ensures EntryCode(x, k) == code && EntryPos(x, k) == 32 * (k + 1) + offset
    ensures offset == 0 ==> Le24(x, k) == code
  {
    hide Le24;
    EntryBytes(x, k, PackEntry(code, offset));
    ByteParts(code);
    EntryParts(code, offset);
  }

  lemma EntryBytes(x: seq<Byte>, k: nat, s: seq<Byte>)
    requires 3 * k + 3 <= |x| && |s| == 3 && x[3 * k..3 * k + 3] == s
    ensures Le24(x, k) == s[0] as nat + s[1] as nat * 0x100 + s[2] as nat * 0x1_0000
  {
    assert x[3 * k] == s[0] && x[3 * k + 1] == s[1] && x[3 * k + 2] == s[2];
  }

  lemma ByteParts(code: nat)
    ensures code == code % 0x100 + code / 0x100 % 0x100 * 0x100 + code / 0x1_0000 * 0x1_0000
  {}

  lemma EntryParts(code: nat, offset: nat)
    requires code < 0x20_0000
    ensures (code + offset * 0x20_0000) % 0x20_0000 == code && (code + offset * 0x20_0000) / 0x20_0000 == offset
  {}
}
