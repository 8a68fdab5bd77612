/** The compiler's linear scans over emitted bytes see the instructions those bytes encode. */
module CodeScan {
  import opened Options
  import opened RegexSyntax
  import opened Bytecode
  import opened Codegen
  import opened Allocation

  // ----- walking over the bytes -----

  /** The table of fixed opcode sizes. */
  function OpcodeSize(op: Byte): nat {
    if op == 1 || op == 2 then 3
    else if op == 3 || op == 4 then 5
    else if 13 <= op <= 15 || op == 40 || op == 41 then 5
    else if op == 19 || op == 20 then 2
    else if op == 21 then 3
    else if op == 22 then 6
    else if 23 <= op <= 26 then 10
    else if op == 27 then 6
    else if 32 <= op <= 35 then 2
    else if 36 <= op <= 39 then 3
    else if op == 42 || op == 43 then 2
    else 1
  }

  /** The size of the instruction at `pos`, with its list of operands. */
  function LengthAt(code: seq<Byte>, pos: nat): nat
    requires pos + 3 <= |code| || (pos < |code| && !(32 <= code[pos] <= 39)) || (pos + 2 <= |code| && code[pos] <= 35)
  {
    var op := code[pos];
    OpcodeSize(op) +
      if 32 <= op <= 35 then code[pos + 1]
      else if 36 <= op <= 37 then 4 * GetU16(code, pos + 1)
      else if 38 <= op <= 39 then 8 * GetU16(code, pos + 1)
      else 0
  }

  ghost predicate At(code: seq<Byte>, pos: nat, i: Instr) {
    Encodable(i) && pos + Size(i) <= |code| && code[pos..pos + Size(i)] == Bytes(i)
  }

  lemma LengthIsSize(code: seq<Byte>, pos: nat, i: Instr)
    requires At(code, pos, i)
    ensures code[pos] == Opcode(i) && (Size(i) >= 3 || (Size(i) >= 2 && code[pos] <= 35) || !(32 <= code[pos] <= 39))
    ensures LengthAt(code, pos) == Size(i)
  {
    hide Opcode, OpcodeSize, Encodable, At, Bytes;
    FirstByte(code, pos, i);
    OpcodeIsSize(i);
    if i.BackRef? {
      CountByte(code, pos, i);
    } else if i.Range16? || i.Range32? {
      RangeLength(code, pos, i, |i.bounds|);
    }
  }

  /** The table of fixed sizes agrees with the instructions, and the opcodes from 32 to 39 are those with a list. */
  lemma OpcodeIsSize(i: Instr)
    ensures OpcodeSize(Opcode(i)) == if i.BackRef? then 2 else if i.Range16? || i.Range32? then 3 else Size(i)
    ensures i.BackRef? <==> 32 <= Opcode(i) <= 35
    ensures i.Range16? <==> 36 <= Opcode(i) <= 37
    ensures i.Range32? <==> 38 <= Opcode(i) <= 39
  {}

  lemma FirstByte(code: seq<Byte>, pos: nat, i: Instr)
    requires At(code, pos, i)
    ensures pos + Size(i) <= |code| && code[pos] == Opcode(i)
  {
    hide Opcode, Operands, Encodable, Size;
    assert code[pos] == code[pos..pos + Size(i)][0];
  }

  lemma CountByte(code: seq<Byte>, pos: nat, i: Instr)
    requires At(code, pos, i) && i.BackRef?
    ensures pos + 2 <= |code| && code[pos + 1] == |i.groups|
  {
    assert code[pos + 1] == code[pos..pos + Size(i)][1];
  }

  lemma RangeLength(code: seq<Byte>, pos: nat, i: Instr, n: nat)
    requires At(code, pos, i) && ((i.Range16? && n == |i.bounds|) || (i.Range32? && n == |i.bounds|))
    ensures n % 2 == 0 && pos + 3 <= |code| && GetU16(code, pos + 1) == n / 2
  {
    var t := code[pos..pos + Size(i)];
    assert code[pos + 1] == t[1] && code[pos + 2] == t[2];
    assert t[1] == U16(n / 2)[0] && t[2] == U16(n / 2)[1];
  }

  /** The first instruction of a block and what follows it. */
  lemma FirstAt(code: seq<Byte>, pos: nat, rest: seq<Instr>)
    requires pos <= |code| && AllEncodable(rest) && code[pos..] == Assemble(rest) && rest != []
    ensures At(code, pos, rest[0]) && AllEncodable(rest[1..]) && code[pos + Size(rest[0])..] == Assemble(rest[1..])
  {
    hide Bytes, Encodable;
    var i := rest[0];
    assert Assemble(rest) == Bytes(i) + Assemble(rest[1..]);
    assert code[pos..pos + Size(i)] == code[pos..][..Size(i)];
    assert code[pos + Size(i)..] == code[pos..][Size(i)..];
  }

  lemma NothingLeft(code: seq<Byte>, pos: nat, rest: seq<Instr>)
    requires pos <= |code| && AllEncodable(rest) && code[pos..] == Assemble(rest)
    ensures pos == |code| <==> rest == []
  {
    hide Bytes, Encodable;
  }

  // ----- does the atom advance, does it leave captures alone -----

  predicate ConsumingOp(op: Byte) {
    1 <= op <= 8 || 36 <= op <= 39
  }

  predicate NeutralOp(op: Byte) {
    9 <= op <= 12 || 19 <= op <= 21 || 27 <= op <= 31 || op == 42 || op == 44
  }

  predicate ReferenceOp(op: Byte) {
    32 <= op <= 35
  }

  function ScanStep(op: Byte): Scan {
    if ConsumingOp(op) then Scan(true, false, false)
    else if NeutralOp(op) then NOTHING
    else if ReferenceOp(op) then Scan(false, false, true)
    else UNPREDICTABLE
  }

  function ScanCode(code: seq<Instr>): Scan {
    if code == [] then NOTHING else AndThen(ScanStep(Opcode(code[0])), ScanCode(code[1..]))
  }

  lemma {:induction false} ScanAppend(a: seq<Instr>, b: seq<Instr>)
    ensures ScanCode(a + b) == AndThen(ScanCode(a), ScanCode(b))
    decreases a
  {
    if a == [] {
      assert a + b == b;
    } else {
      hide Opcode, ScanStep;
      assert (a + b)[1..] == a[1..] + b;
      ScanAppend(a[1..], b);
    }
  }

  lemma ScanFirst(code: seq<Instr>)
    requires code != []
    ensures ScanCode(code) == AndThen(ScanStep(Opcode(code[0])), ScanCode(code[1..]))
  {}

  lemma ScanOne(i: Instr)
    ensures ScanCode([i]) == ScanStep(Opcode(i))
  {
    hide Opcode, ScanStep;
    assert [i][1..] == [];
  }

  /** A block that begins with an unpredictable opcode. */
  lemma ScanStops(i: Instr, rest: seq<Instr>)
    requires i.Split? || i.LookOp?
    ensures ScanCode([i] + rest) == UNPREDICTABLE
  {}

  lemma ScanReset(needed: bool, a: Regex, g: nat, rest: seq<Instr>)
    ensures ScanCode(ResetCode(needed, a, g) + rest) == ScanCode(rest)
  {
    hide ScanCode;
    var reset := ResetCode(needed, a, g);
    ScanAppend(reset, rest);
    if reset == [] {
      assert reset + rest == rest;
    } else {
      ScanOne(reset[0]);
    }
  }

  /** What the scan of the emitted bytes finds is what ScanOf says about the pattern. */
  lemma {:induction false} ScanOfCode(n: Regex, backward: bool, rs: Registers, g: nat)
    ensures ScanCode(Code(n, backward, rs, g)) == ScanOf(n, backward)
    decreases n, 1
  {
    hide ScanCode, Opcode, CodeSize, Branches;
    match n
    case Empty => ScanNone();
    case Char(_, _) => ScanCharacter(n, backward);
    case Dot(_) => ScanCharacter(n, backward);
    case Space(_) => ScanCharacter(n, backward);
    case Class(_, _) => ScanCharacter(n, backward);
    case LineStart(_) => ScanTest(n, backward);
    case LineEnd(_) => ScanTest(n, backward);
    case WordBoundary(_, _) => ScanTest(n, backward);
    case BackReference(_, _) => ScanTest(n, backward);
    case Group(_) => ScanGroup(n, backward, rs, g);
    case Look(_, _, _) => ScanLook(n, backward, rs, g);
    case Cat(_, _) => ScanCat(n, backward, rs, g);
    case Alt(l, r) => ScanBranches(Code(l, backward, rs, g), Code(r, backward, rs, g + Groups(l)));
    case Quant(_, _, _, _) => ScanQuant(n, backward, rs, g);
  }

  lemma ScanTest(n: Regex, backward: bool)
    requires IsAssertion(n) || n.BackReference?
    ensures ScanCode([TestCode(n, backward)]) == ScanOf(n, backward)
  {
    ScanOne(TestCode(n, backward));
  }

  lemma {:induction false} ScanGroup(n: Regex, backward: bool, rs: Registers, g: nat)
    requires n.Group?
    ensures ScanCode(Code(n, backward, rs, g)) == ScanOf(n, backward)
    decreases n, 0
  {
    hide ScanCode, CodeSize;
    var open, close, c := SaveOpen(backward, g), SaveClose(backward, g), Code(n.body, backward, rs, g + 1);
    ScanOfCode(n.body, backward, rs, g + 1);
    ScanAppend([open] + c, [close]);
    ScanAppend([open], c);
    ScanOne(open);
    ScanOne(close);
  }

  lemma ScanLook(n: Regex, backward: bool, rs: Registers, g: nat)
    requires n.Look?
    ensures ScanCode(Code(n, backward, rs, g)) == ScanOf(n, backward)
  {
    hide ScanCode, CodeSize;
    var c := Code(n.body, n.behind, rs, g);
    var open := LookOp(n.negated, CodeSize(c) + 1);
    assert Code(n, backward, rs, g) == [open] + (c + [LookAccept(n.negated)]);
    ScanStops(open, c + [LookAccept(n.negated)]);
  }

  lemma {:induction false} ScanCat(n: Regex, backward: bool, rs: Registers, g: nat)
    requires n.Cat?
    ensures ScanCode(Code(n, backward, rs, g)) == ScanOf(n, backward)
    decreases n, 0
  {
    hide ScanCode, CodeSize, Groups;
    var k := g + Groups(n.left);
    ScanOfCode(n.left, backward, rs, g);
    ScanOfCode(n.right, backward, rs, k);
    if backward {
      ScanAppend(Code(n.right, backward, rs, k), Code(n.left, backward, rs, g));
    } else {
      ScanAppend(Code(n.left, backward, rs, g), Code(n.right, backward, rs, k));
    }
  }

  lemma ScanBranches(a: seq<Instr>, b: seq<Instr>)
    ensures ScanCode(Branches(a, b)) == UNPREDICTABLE
  {
    hide ScanCode;
    var split := Split(true, CodeSize(a) + 5);
    var rest := a + [Goto(CodeSize(b))] + b;
    assert Branches(a, b) == [split] + rest;
    ScanStops(split, rest);
  }

  lemma ScanCharacter(n: Regex, backward: bool)
    requires IsCharacter(n)
    ensures ScanCode(CharacterSteps(n, backward)) == Scan(true, false, false)
  {
    hide ScanCode;
    var i := CharacterCode(n);
    ScanOne(i);
    if backward {
      assert CharacterSteps(n, backward) == [PrevChar] + [i] + [PrevChar];
      ScanOne(PrevChar);
      ScanAppend([PrevChar] + [i], [PrevChar]);
      ScanAppend([PrevChar], [i]);
    }
  }

  lemma {:induction false} ScanBody(a: Regex, backward: bool, rs: Registers, g: nat)
    ensures ScanCode(LoopBody(a, backward, rs, g)) == ScanOf(a, backward)
    decreases a, 2
  {
    hide ScanCode, ScanOf;
    ScanOfCode(a, backward, rs, g);
    ScanReset(ResetsInside(a, backward), a, g, Code(a, backward, rs, g));
  }

  lemma {:induction false} ScanQuant(n: Regex, backward: bool, rs: Registers, g: nat)
    requires n.Quant?
    ensures ScanCode(Code(n, backward, rs, g)) == ScanOf(n, backward)
    decreases n, 0
  {
    hide ScanCode, CodeSize, LoopBody, Opcode, ResetCode, OptionalShape, CountedShape, ResetsBefore, Checked;
    var Quant(a, min, max, greedy) := n;
    if min == 0 {
      ScanZero(n, backward, rs, g);
    } else if min == 1 && max == INFINITE && !Checked(a, backward) {
      var c := LoopBody(a, backward, rs, g);
      ScanBody(a, backward, rs, g);
      ScanLoopEnd(c, Split(!greedy, -(CodeSize(c) + 5)));
    } else if min >= max {
      var c := LoopBody(a, backward, rs.Skip(1), g);
      ScanBody(a, backward, rs.Skip(1), g);
      ScanSet([SetI32(rs.At(0), max)], c, Loop(rs.At(0), -(CodeSize(c) + 6)));
    } else {
      var checked := Checked(a, backward);
      var c := LoopBody(a, backward, rs.Skip(1 + Count(checked)), g);
      ScanBody(a, backward, rs.Skip(1 + Count(checked)), g);
      ScanCounted(c, checked, rs.At(0), rs.At(1), max, max - min, greedy);
    }
  }

  lemma ScanCounted(c: seq<Instr>, checked: bool, r: nat, r': nat, max: nat, limit: nat, greedy: bool)
    ensures ScanCode(CountedShape(c, checked, r, r', max, limit, greedy)) == AndThen(ScanCode(c), UNPREDICTABLE)
  {
    hide ScanCode, CodeSize;
    ScanSet([SetI32(r, max)] + SetPosCode(checked, r'), c,
            LoopSplit(checked, !greedy, r, limit, -(CodeSize(c) + 10 + Bytes2(checked))));
  }

  lemma ScanOptional(c: seq<Instr>, checked: bool, r: nat, repeat: bool, greedy: bool)
    ensures ScanCode(OptionalShape(c, checked, r, repeat, greedy)) == UNPREDICTABLE
  {
    hide ScanCode, CodeSize;
    var all := OptionalShape(c, checked, r, repeat, greedy);
    assert all == [all[0]] + all[1..];
    ScanStops(all[0], all[1..]);
  }

  lemma ScanZero(n: Regex, backward: bool, rs: Registers, g: nat)
    requires n.Quant? && n.min == 0
    ensures ScanCode(Code(n, backward, rs, g)) == ScanOf(n, backward)
  {
    hide ScanCode, CodeSize, LoopBody, Opcode, ResetCode, OptionalShape, CountedShape, ResetsBefore, Checked;
    var Quant(a, _, max, greedy) := n;
    var needed := ResetsBefore(a, backward);
    var checked := Checked(a, backward);
    if max == 0 {
      ScanReset(needed, a, g, []);
      assert ResetCode(needed, a, g) + [] == ResetCode(needed, a, g);
      ScanNone();
    } else if max == 1 || max == INFINITE {
      ScanReset(needed, a, g, OptionalCode(a, backward, rs, g, max == INFINITE, greedy));
      ScanOptional(LoopBody(a, backward, rs.Skip(Count(checked)), g), checked, rs.At(0), max == INFINITE, greedy);
    } else {
      var loop := CountedCode(a, backward, rs, g, checked, max, max, greedy);
      ScanReset(needed, a, g, OptionalCountedCode(a, backward, rs, g, max, greedy));
      ScanStops(Split(greedy, CodeSize(loop)), loop);
    }
  }

  lemma ScanNone()
    ensures ScanCode([]) == NOTHING
  {}

  lemma ScanLoopEnd(c: seq<Instr>, i: Instr)
    requires i.Split? || i.Loop? || i.LoopSplit?
    ensures ScanCode(c + [i]) == AndThen(ScanCode(c), UNPREDICTABLE)
  {
    hide ScanCode;
    ScanAppend(c, [i]);
    ScanOne(i);
  }

  /** A loop with its initialisation in front. */
  lemma ScanSet(init: seq<Instr>, c: seq<Instr>, i: Instr)
    requires i.Loop? || i.LoopSplit?
    requires 1 <= |init| <= 2 && init[0].SetI32? && (|init| == 2 ==> init[1].SetCharPos?)
    ensures ScanCode(init + c + [i]) == AndThen(ScanCode(c), UNPREDICTABLE)
  {
    hide ScanCode;
    ScanAppend(init, c);
    ScanLoopEnd(init + c, i);
    ScanOne(init[0]);
    if |init| == 2 {
      assert init == [init[0]] + [init[1]];
      ScanOne(init[1]);
      ScanAppend([init[0]], [init[1]]);
    } else {
      assert init == [init[0]];
    }
  }
}
