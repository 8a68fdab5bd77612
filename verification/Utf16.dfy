/** UTF-16: how characters are encoded in units, and that decoding inverts it. */
module Utf16 {
  import opened Subject

  /** UTF-16: a code point above 0xffff becomes two units of ten bits each. */
  function Encode(cs: seq<CodePoint>): seq<Unit> {
    if cs == [] then [] else Units(cs[0]) + Encode(cs[1..])
  }

  function Units(c: CodePoint): seq<Unit> {
    if c < 0x10000 then [c as Unit] else [0xD800 + (c - 0x10000) / 0x400, 0xDC00 + (c - 0x10000) % 0x400]
  }

  /** UTF-16 encodes a code point above 0xffff in two units, ten bits in each, and the pair gives it back. */
  lemma SurrogatesEncode(hi: nat, lo: nat)
    requires IsHiSurrogate(hi) && IsLoSurrogate(lo)
    ensures var c := FromSurrogate(hi, lo);
      0x10000 <= c && hi == 0xD800 + (c - 0x10000) / 0x400 && lo == 0xDC00 + (c - 0x10000) % 0x400
  {}

  /** Encoding the decoded characters gives the units back, whatever they are. */
  lemma {:induction false} EncodeDecode(us: seq<Unit>)
    ensures Encode(Decode(us, true)) == us
  {
    if us != [] {
      var cs := Decode(us, true);
      if |us| >= 2 && IsHiSurrogate(us[0]) && IsLoSurrogate(us[1]) {
        EncodeDecode(us[2..]);
        SurrogatesEncode(us[0], us[1]);
        assert cs[1..] == Decode(us[2..], true);
        assert us == [us[0], us[1]] + us[2..];
      } else {
        EncodeDecode(us[1..]);
        assert cs[1..] == Decode(us[1..], true);
        assert us == [us[0]] + us[1..];
      }
    }
  }

  /** No two neighbours look like the halves of one pair. */
  predicate NoSplitPair(cs: seq<CodePoint>) {
    forall i :: 0 <= i && i + 1 < |cs| ==> !(IsHiSurrogate(cs[i]) && IsLoSurrogate(cs[i + 1]))
  }

  /** Decoding gives the characters back exactly when no two neighbours among them look like a pair. */
  lemma {:induction false} DecodeEncode(cs: seq<CodePoint>)
    ensures Decode(Encode(cs), true) == cs <==> NoSplitPair(cs)
  {
    if NoSplitPair(cs) {
      Decoded(cs);
    } else {
      NoPairDecoded(Encode(cs));
    }
  }

  lemma {:induction false} Decoded(cs: seq<CodePoint>)
    requires NoSplitPair(cs)
    ensures Decode(Encode(cs), true) == cs
  {
    if cs != [] {
      var us, rest := Encode(cs), Encode(cs[1..]);
      Decoded(cs[1..]);
      if cs[0] < 0x10000 {
        assert us[1..] == rest;
        EncodedFirst(cs[1..]);
      } else {
        assert us[2..] == rest;
      }
    }
  }

  /** Only a lone half is encoded by a unit in the range of the second halves. */
  lemma EncodedFirst(cs: seq<CodePoint>)
    ensures cs == [] <==> Encode(cs) == []
    ensures cs != [] && IsLoSurrogate(Encode(cs)[0]) ==> Encode(cs)[0] == cs[0]
  {}

  lemma {:induction false} NoPairDecoded(us: seq<Unit>)
    ensures NoSplitPair(Decode(us, true))
  {
    if us != [] {
      if |us| >= 2 && IsHiSurrogate(us[0]) && IsLoSurrogate(us[1]) {
        NoPairDecoded(us[2..]);
      } else {
        NoPairDecoded(us[1..]);
        DecodedFirst(us[1..]);
      }
    }
  }

  lemma DecodedFirst(us: seq<Unit>)
    ensures us == [] <==> Decode(us, true) == []
    ensures us != [] && IsLoSurrogate(Decode(us, true)[0]) ==> Decode(us, true)[0] == us[0]
  {}
}
