/** Compiling a pattern and running it: what callers of the library see. */
module LreExec {
  import opened Subject
  import opened Options
  import opened Powers
  import opened RegexSyntax
  import opened EcmaMatcher
  import opened Bytecode
  import opened Codegen
  import opened Machine
  import opened CaptureElision
  import opened Search
  import opened Compiler
  import Exec

  function CaptureCount(bytes: seq<Byte>): nat
    requires |bytes| >= HEADER_LEN
  {
    bytes[2]
  }

  function AllocCount(bytes: seq<Byte>): nat
    requires |bytes| >= HEADER_LEN
  {
    bytes[2] as nat * 2 + bytes[3] as nat
  }

  function Flags(bytes: seq<Byte>): nat
    requires |bytes| >= HEADER_LEN
  {
    GetU16(bytes, 0)
  }

  /** The expression is sticky by bit 5 of the flags, and Unicode by bit 4 (`u`) or bit 8 (`v`). */
  lemma FlagBits(low: nat, u: bool, y: bool, middle: nat, v: bool, high: nat)
    requires low < 16 && middle < 4
    ensures var flags := low + 16 * Bit(u) + 32 * Bit(y) + 64 * middle + 256 * Bit(v) + 512 * high;
      Sticky(flags) == y && Unicode(flags) == (u || v)
  {
    var top := 2 * high + Bit(v);
    BitAt(16, 2 * (top * 4 + middle) + Bit(y), u, low);
    BitAt(32, top * 4 + middle, y, low + 16 * Bit(u));
    BitAt(256, high, v, low + 16 * Bit(u) + 32 * Bit(y) + 64 * middle);
  }

  lemma BitAt(d: nat, q: nat, b: bool, r: nat)
    requires r < d
    ensures ((2 * q + Bit(b)) * d + r) / d % 2 == Bit(b)
  {
    DivUnique((2 * q + Bit(b)) * d + r, d, 2 * q + Bit(b), r);
  }

  /** The answer to a search from `index`: the first outcome of the code, which is the standard's first match where
      no iteration count overflows. */
  ghost predicate FindsFirst(e: Input, n: Pattern, sticky: bool, index: nat, matched: bool, caps: seq<int>)
    requires index <= Len(e) && |caps| % 2 == 0
  {
    var r := FirstCode(e, n, sticky, StartPosition(e, index));
    && matched == r.Some?
    && (matched ==> Settled(caps) == r.value.caps)
    && (CountsFit(n, false, Len(e)) ==> r == FirstMatch(e, n, sticky, StartPosition(e, index)))
  }

  /** `lre_exec`: `capture` has room for the captures and the registers; its contents do not matter. The
      answer is the leftmost match the standard finds from `index` on, moved back when it splits a pair. */
  method LreExec(capture: array<int>, bytes: seq<Byte>, units: seq<Unit>, index: nat, wide: bool,
                 canon: CodePoint -> CodePoint, isSpace: CodePoint -> bool, ghost n: Pattern, ghost flags: nat)
      returns (matched: bool)
    requires IsProgram(bytes, n, flags) && index <= |units|
    requires capture.Length == AllocCount(bytes)
    modifies capture
    ensures FindsFirst(Input(units, wide && Unicode(flags), canon, isSpace), n, Sticky(flags), index, matched,
                       capture[..2 * CaptureCount(bytes)])
  {
    hide FirstCode, FirstMatch, CountsFit, Settled, Run, IsProgram, ProgramCode, Boundary, FindsFirst, Flags;
    HeaderRead(bytes, n, flags);
    var e := Input(units, wide && Unicode(Flags(bytes)), canon, isSpace);
    var count := CaptureCount(bytes);
    Clear(capture, 2 * count);
    var m := Context(Decoded(bytes[HEADER_LEN..]), e, count, bytes[3]);
    var p := StartPosition(e, index);
    ghost var k, end := ProgramRuns(bytes, n, flags, m, index, capture[..]);
    var matcher := new Exec.Matcher(m, capture, p);
    matched := matcher.Execute(k);
    RunFinds(m, n, Sticky(flags), index, matched, end, capture[..]);
  }

  method Clear(capture: array<int>, n: nat)
    requires n <= capture.Length
    modifies capture
    ensures capture[..n] == Blank(n)
  {
    for i := 0 to n
      invariant forall k :: 0 <= k < i ==> capture[k] == -1
    {
      capture[i] := -1;
    }
  }

  /** How a run of the program that has ended in `end` answers. */
  ghost predicate Ends(m: Context, n: Pattern, sticky: bool, index: nat, end: Machine)
    requires index <= Len(m.e)
  {
    match FirstCode(m.e, n, sticky, StartPosition(m.e, index))
    case None => end == Failed
    case Some(y) => end.Matched? && |end.captures| >= 2 * m.count && Settled(end.captures[..2 * m.count]) == y.caps
  }

  /** The number of steps to the end of the run, and where it ends. */
  lemma ProgramRuns(bytes: seq<Byte>, n: Pattern, flags: nat, m: Context, index: nat, cap: seq<int>)
      returns (k: nat, end: Machine)
    requires IsProgram(bytes, n, flags) && |bytes| >= HEADER_LEN && index <= Len(m.e) && Fresh(m, cap)
    requires m.prog == Decoded(bytes[HEADER_LEN..]) && m.count == 1 + Groups(n) && m.registers == RegistersOf(n, false)
    ensures end == Run(m, Running(0, StartPosition(m.e, index), cap, []), k) && (end.Matched? || end.Failed?)
    ensures Ends(m, n, Sticky(flags), index, end)
  {
    hide FirstCode, Settled, Run, IsProgram, Loaded, Boundary;
    var p := StartPosition(m.e, index);
    ProgramLoaded(bytes, n, flags, m);
    ProgramHalts(m, n, Sticky(flags), p, cap);
    var s, r := Running(0, p, cap, []), FirstCode(m.e, n, Sticky(flags), p);
    if r.None? {
      k :| Run(m, s, k) == Failed;
    } else {
      var cap' :| AnswersWith(m, s, r.value, cap');
      k :| Run(m, s, k) == Matched(r.value.pos, cap');
    }
    end := Run(m, s, k);
  }

  lemma RunFinds(m: Context, n: Pattern, sticky: bool, index: nat, matched: bool, end: Machine, cap: seq<int>)
    requires index <= Len(m.e) && Ends(m, n, sticky, index, end) && |cap| >= 2 * m.count
    requires if matched then end.Matched? && end.captures == cap else end == Failed
    ensures FindsFirst(m.e, n, sticky, index, matched, cap[..2 * m.count])
  {
    hide FirstCode, FirstMatch, CountsFit, Settled, Boundary;
    if CountsFit(n, false, Len(m.e)) {
      FirstCodeIsFirstMatch(m.e, n, sticky, StartPosition(m.e, index));
    }
  }

  /** What the matcher reads from the header is what the compiler wrote there. */
  lemma HeaderRead(bytes: seq<Byte>, n: Regex, flags: nat)
    requires IsProgram(bytes, n, flags)
    ensures |bytes| >= HEADER_LEN && Flags(bytes) == flags
    ensures CaptureCount(bytes) == 1 + Groups(n) && bytes[3] == RegistersOf(n, false)
    ensures GetU32(bytes, 4) == |bytes| - HEADER_LEN
  {
    hide ProgramCode, Assemble, AllEncodable, U32, GetU32, CodeSize;
    var c := ProgramCode(n, Sticky(flags), From(0));
    var h := Header(flags, 1 + Groups(n), RegistersOf(n, false), CodeSize(c));
    assert bytes == h + Assemble(c);
    assert bytes[4..8] == h[4..8] == U32(CodeSize(c));
    GetsU32(bytes, 4, CodeSize(c));
  }

  /** The code behind the header decodes to the program of the pattern. */
  lemma ProgramLoaded(bytes: seq<Byte>, n: Pattern, flags: nat, m: Context)
    requires IsProgram(bytes, n, flags) && |bytes| >= HEADER_LEN
    requires m.prog == Decoded(bytes[HEADER_LEN..]) && m.count == 1 + Groups(n) && m.registers == RegistersOf(n, false)
    ensures Loaded(m, n, Sticky(flags))
  {
    hide ProgramCode, Assemble, AllEncodable, HasCode, Decodes;
    var c := ProgramCode(n, Sticky(flags), From(0));
    var code := bytes[HEADER_LEN..];
    assert code == Assemble(c);
    assert code[0..CodeSize(c)] == code;
    DecodedDecodes(code);
    AssembledHasCode(m.prog, code, 0, c);
  }
}
