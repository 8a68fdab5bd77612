/** The subject string of a match: 8-bit or 16-bit units, or UTF-16 in Unicode mode, and the
    character steps of the matcher's macros. */
module Subject {

  /** `canon` is the case folding and `isSpace` the white-space class of the Unicode tables;
      both come from generated data and stay uninterpreted. */
  datatype Input = Input(units: seq<Unit>, utf16: bool, canon: CodePoint -> CodePoint, isSpace: CodePoint -> bool)

  type Unit = u: nat | u < 0x1_0000

  type CodePoint = c: nat | c < 0x11_0000

  predicate IsHiSurrogate(c: nat) {
    c / 1024 == 0xD800 / 1024
  }

  predicate IsLoSurrogate(c: nat) {
    c / 1024 == 0xDC00 / 1024
  }

  function FromSurrogate(hi: nat, lo: nat): CodePoint
    requires IsHiSurrogate(hi) && IsLoSurrogate(lo)
  {
    0x10000 + 0x400 * (hi - 0xD800) + (lo - 0xDC00)
  }

  function Len(e: Input): nat {
    |e.units|
  }

  /** Units `p` and `p + 1` form one code point of UTF-16 text. */
  predicate PairAt(e: Input, p: int) {
    e.utf16 && 0 <= p && p + 1 < Len(e) && IsHiSurrogate(e.units[p]) && IsLoSurrogate(e.units[p + 1])
  }

  /** `p` does not split a surrogate pair. */
  predicate Boundary(e: Input, p: int) {
    0 <= p <= Len(e) && !PairAt(e, p - 1)
  }

  /** The value read by GET_CHAR at `p` when the readable text stops at `end`. */
  function CharAt(e: Input, p: nat, end: nat): CodePoint
    requires p < end <= Len(e)
  {
    if PairAt(e, p) && p + 1 < end then FromSurrogate(e.units[p], e.units[p + 1]) else e.units[p]
  }

  /** The position GET_CHAR leaves behind. */
  function Next(e: Input, p: nat, end: nat): nat
    requires p < end <= Len(e)
  {
    if PairAt(e, p) && p + 1 < end then p + 2 else p + 1
  }

  /** The position PREV_CHAR leaves behind when the readable text starts at `start`. */
  function Prev(e: Input, p: nat, start: nat): nat
    requires start < p <= Len(e)
  {
    if PairAt(e, p - 2) && start <= p - 2 then p - 2 else p - 1
  }

  /** The value read by GET_PREV_CHAR and PEEK_PREV_CHAR. */
  function CharBefore(e: Input, p: nat, start: nat): CodePoint
    requires start < p <= Len(e)
  {
    if PairAt(e, p - 2) && start <= p - 2 then FromSurrogate(e.units[p - 2], e.units[p - 1]) else e.units[p - 1]
  }

  /** On boundaries the forward step stays on boundaries and the backward step undoes it; the
      limit of the readable text does not matter when it is itself a boundary. */
  lemma ForwardStep(e: Input, p: nat, end: nat)
    requires p < end <= Len(e) && Boundary(e, p) && Boundary(e, end)
    ensures p < Next(e, p, end) <= end && Boundary(e, Next(e, p, end))
    ensures Next(e, p, end) == Next(e, p, Len(e)) && CharAt(e, p, end) == CharAt(e, p, Len(e))
    ensures Prev(e, Next(e, p, end), 0) == p
    ensures CharBefore(e, Next(e, p, end), 0) == CharAt(e, p, end)
  {
    if PairAt(e, p) {
      assert p + 1 != end;
    }
  }

  /** The converse: the forward step undoes the backward step. */
  lemma BackwardStep(e: Input, p: nat, start: nat)
    requires start < p <= Len(e) && Boundary(e, p) && Boundary(e, start)
    ensures start <= Prev(e, p, start) < p && Boundary(e, Prev(e, p, start))
    ensures Prev(e, p, start) == Prev(e, p, 0) && CharBefore(e, p, start) == CharBefore(e, p, 0)
    ensures Next(e, Prev(e, p, start), Len(e)) == p
    ensures CharAt(e, Prev(e, p, start), Len(e)) == CharBefore(e, p, start)
  {
    if PairAt(e, p - 2) {
      assert start != p - 1;
    }
  }

  // ----- text -----

  /** The characters that the units stand for, from left to right. */
  function Decode(us: seq<Unit>, utf16: bool): seq<CodePoint> {
    if us == [] then []
    else if utf16 && |us| >= 2 && IsHiSurrogate(us[0]) && IsLoSurrogate(us[1])
    then [FromSurrogate(us[0], us[1])] + Decode(us[2..], utf16)
    else [us[0] as CodePoint] + Decode(us[1..], utf16)
  }

  function Text(e: Input, s: nat, t: nat): seq<CodePoint>
    requires s <= t <= Len(e)
  {
    Decode(e.units[s..t], e.utf16)
  }

  /** Reading forward takes the first character of the text. */
  lemma TextFirst(e: Input, s: nat, t: nat)
    requires s < t <= Len(e) && Boundary(e, s) && Boundary(e, t)
    ensures s < Next(e, s, t) <= t
    ensures Text(e, s, t) == [CharAt(e, s, t)] + Text(e, Next(e, s, t), t)
  {
    ForwardStep(e, s, t);
    var us := e.units[s..t];
    if PairAt(e, s) {
      assert us[2..] == e.units[s + 2..t];
    } else {
      assert us[1..] == e.units[s + 1..t];
    }
  }

  /** Reading backward takes the last one. */
  lemma {:induction false} TextLast(e: Input, s: nat, t: nat)
    requires s < t <= Len(e) && Boundary(e, s) && Boundary(e, t)
    ensures s <= Prev(e, t, s) < t
    ensures Text(e, s, t) == Text(e, s, Prev(e, t, s)) + [CharBefore(e, t, s)]
    decreases t - s
  {
    hide Decode;
    BackwardStep(e, t, s);
    ForwardStep(e, s, t);
    TextFirst(e, s, t);
    var n, p := Next(e, s, t), Prev(e, t, s);
    if n == t {
      NoText(e, s);
      NoText(e, t);
    } else {
      TextLast(e, n, t);
      BackwardStep(e, t, n);
      ForwardStep(e, s, p);
      TextFirst(e, s, p);
    }
  }

  lemma NoText(e: Input, s: nat)
    requires s <= Len(e)
    ensures Text(e, s, s) == []
  {}

  predicate IsLineTerminator(c: nat) {
    c == 10 || c == 13 || c == 0x2028 || c == 0x2029
  }

  /** `lre_is_word_byte` below 256; the two folding variants when case is ignored. */
  predicate IsWordChar(c: nat, icase: bool) {
    || 0x30 <= c <= 0x39 || 0x41 <= c <= 0x5A || c == 0x5F || 0x61 <= c <= 0x7A
    || (icase && (c == 0x017f || c == 0x212a))
  }

  predicate WordBefore(e: Input, p: nat, icase: bool)
    requires p <= Len(e)
  {
    p != 0 && IsWordChar(CharBefore(e, p, 0), icase)
  }

  predicate WordAfter(e: Input, p: nat, icase: bool)
    requires p <= Len(e)
  {
    p < Len(e) && IsWordChar(CharAt(e, p, Len(e)), icase)
  }

  /** The start position `lre_exec` actually uses for index `i`. */
  function StartPosition(e: Input, i: nat): (p: nat)
    requires i <= Len(e)
    ensures Boundary(e, p) && i - 1 <= p <= i
    ensures Boundary(e, i) ==> p == i
  {
    if 0 < i < Len(e) && PairAt(e, i - 1) then i - 1 else i
  }
}
