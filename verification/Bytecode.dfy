/** The instruction set of the matcher and its byte encoding. */
module Bytecode {
  import opened Options
  import opened RegexSyntax

  type Byte = b: nat | b < 256

  /** Jump distances are signed and count from the end of the instruction. `nextFirst` tells which
      branch of a split runs first: the next instruction or the jump target. */
  datatype Instr =
    | Char16(c: nat, icase: bool)
    | Char32(c: nat, icase: bool)
    | DotChar
    | AnyChar
    | SpaceChar(negated: bool)
    | AssertStart(multiline: bool)
    | AssertEnd(multiline: bool)
    | Goto(rel: int)
    | Split(nextFirst: bool, rel: int)
    | Accept
    | LookAccept(negated: bool)
    | SaveStart(g: nat)
    | SaveEnd(g: nat)
    | SaveReset(first: nat, last: nat)
    | Loop(r: nat, rel: int)
    | LoopSplit(checked: bool, nextFirst: bool, r: nat, limit: nat, rel: int)
    | SetI32(r: nat, v: nat)
    | AssertWord(negated: bool, icase: bool)
    | BackRef(backward: bool, icase: bool, groups: seq<nat>)
    | Range16(icase: bool, bounds: seq<nat>)
    | Range32(icase: bool, bounds: seq<nat>)
    | LookOp(negated: bool, rel: int)
    | SetCharPos(r: nat)
    | CheckAdvance(r: nat)
    | PrevChar

  function Size(i: Instr): (s: nat)
    ensures s >= 1
  {
    match i
    case Char16(_, _) => 3
    case Char32(_, _) => 5
    case Goto(_) => 5
    case Split(_, _) => 5
    case SaveStart(_) => 2
    case SaveEnd(_) => 2
    case SaveReset(_, _) => 3
    case Loop(_, _) => 6
    case LoopSplit(_, _, _, _, _) => 10
    case SetI32(_, _) => 6
    case BackRef(_, _, groups) => 2 + |groups|
    case Range16(_, bounds) => 3 + 2 * |bounds|
    case Range32(_, bounds) => 3 + 4 * |bounds|
    case LookOp(_, _) => 5
    case SetCharPos(_) => 2
    case CheckAdvance(_) => 2
    case _ => 1
  }

  function CodeSize(code: seq<Instr>): nat {
    if code == [] then 0 else Size(code[0]) + CodeSize(code[1..])
  }

  lemma CodeSizeAppend(a: seq<Instr>, b: seq<Instr>)
    ensures CodeSize(a + b) == CodeSize(a) + CodeSize(b)
  {
    if a == [] {
      assert a + b == b;
    } else {
      assert (a + b)[1..] == a[1..] + b;
      CodeSizeAppend(a[1..], b);
    }
  }

  // ----- little-endian operands -----

  function U16(v: nat): (s: seq<Byte>)
    requires v < 0x1_0000
    ensures |s| == 2
  {
    [v % 256, v / 256]
  }

  function U32(v: nat): (s: seq<Byte>)
    requires v < 0x1_0000_0000
    ensures |s| == 4
  {
    var high := v / 0x1_0000;
    [v % 0x1_0000 % 256, v % 0x1_0000 / 256, high % 256, high / 256]
  }

  predicate IsInt32(v: int) {
    -0x8000_0000 <= v < 0x8000_0000
  }

  function I32(v: int): (s: seq<Byte>)
    requires IsInt32(v)
    ensures |s| == 4
  {
    U32(if v < 0 then v + 0x1_0000_0000 else v)
  }

  function GetU16(code: seq<Byte>, p: nat): nat
    requires p + 2 <= |code|
  {
    code[p] as nat + 256 * code[p + 1] as nat
  }

  function GetU32(code: seq<Byte>, p: nat): (v: nat)
    requires p + 4 <= |code|
    ensures v < 0x1_0000_0000
  {
    code[p] as nat + 256 * code[p + 1] as nat + 0x1_0000 * code[p + 2] as nat + 0x100_0000 * code[p + 3] as nat
  }

  function GetI32(code: seq<Byte>, p: nat): int
    requires p + 4 <= |code|
  {
    var v := GetU32(code, p);
    if v < 0x8000_0000 then v else v - 0x1_0000_0000
  }

  function U16s(vs: seq<nat>): (s: seq<Byte>)
    requires forall k :: 0 <= k < |vs| ==> vs[k] < 0x1_0000
    ensures |s| == 2 * |vs|
  {
    if vs == [] then [] else U16(vs[0]) + U16s(vs[1..])
  }

  function U32s(vs: seq<nat>): (s: seq<Byte>)
    requires forall k :: 0 <= k < |vs| ==> vs[k] < 0x1_0000_0000
    ensures |s| == 4 * |vs|
  {
    if vs == [] then [] else U32(vs[0]) + U32s(vs[1..])
  }

  function GetU16s(code: seq<Byte>, p: nat, n: nat): (vs: seq<nat>)
    requires p + 2 * n <= |code|
    ensures |vs| == n
    decreases n
  {
    if n == 0 then [] else [GetU16(code, p)] + GetU16s(code, p + 2, n - 1)
  }

  function GetU32s(code: seq<Byte>, p: nat, n: nat): (vs: seq<nat>)
    requires p + 4 * n <= |code|
    ensures |vs| == n
    decreases n
  {
    if n == 0 then [] else [GetU32(code, p)] + GetU32s(code, p + 4, n - 1)
  }

  // ----- encoding -----

  /** Every operand fits the field the encoding gives it. */
  predicate Encodable(i: Instr) {
    match i
    case Char16(c, _) => c < 0x1_0000
    case Char32(c, _) => c < 0x1_0000_0000
    case Goto(rel) => IsInt32(rel)
    case Split(_, rel) => IsInt32(rel)
    case SaveStart(g) => g < 256
    case SaveEnd(g) => g < 256
    case SaveReset(first, last) => first < 256 && last < 256
    case Loop(r, rel) => r < 256 && IsInt32(rel)
    case LoopSplit(_, _, r, limit, rel) => r < 256 && limit < 0x8000_0000 && IsInt32(rel)
    case SetI32(r, v) => r < 256 && v < 0x8000_0000
    case BackRef(_, _, groups) => |groups| < 256 && forall k :: 0 <= k < |groups| ==> groups[k] < 256
    case Range16(_, bounds) => |bounds| % 2 == 0 && |bounds| / 2 < 0x1_0000 && forall k :: 0 <= k < |bounds| ==> bounds[k] < 0x1_0000
    case Range32(_, bounds) => |bounds| % 2 == 0 && |bounds| / 2 < 0x1_0000 && forall k :: 0 <= k < |bounds| ==> bounds[k] < 0x1_0000_0000
    case LookOp(_, rel) => IsInt32(rel)
    case SetCharPos(r) => r < 256
    case CheckAdvance(r) => r < 256
    case _ => true
  }

  function Bit(b: bool): nat {
    if b then 1 else 0
  }

  function Opcode(i: Instr): Byte {
    match i
    case Char16(_, icase) => 1 + Bit(icase)
    case Char32(_, icase) => 3 + Bit(icase)
    case DotChar => 5
    case AnyChar => 6
    case SpaceChar(negated) => 7 + Bit(negated)
    case AssertStart(multiline) => 9 + Bit(multiline)
    case AssertEnd(multiline) => 11 + Bit(multiline)
    case Goto(_) => 13
    case Split(nextFirst, _) => 14 + Bit(nextFirst)
    case Accept => 16
    case LookAccept(negated) => 17 + Bit(negated)
    case SaveStart(_) => 19
    case SaveEnd(_) => 20
    case SaveReset(_, _) => 21
    case Loop(_, _) => 22
    case LoopSplit(checked, nextFirst, _, _, _) => 23 + 2 * Bit(checked) + Bit(nextFirst)
    case SetI32(_, _) => 27
    case AssertWord(negated, icase) => 28 + 2 * Bit(negated) + Bit(icase)
    case BackRef(backward, icase, _) => 32 + 2 * Bit(backward) + Bit(icase)
    case Range16(icase, _) => 36 + Bit(icase)
    case Range32(icase, _) => 38 + Bit(icase)
    case LookOp(negated, _) => 40 + Bit(negated)
    case SetCharPos(_) => 42
    case CheckAdvance(_) => 43
    case PrevChar => 44
  }

  function Operands(i: Instr): (s: seq<Byte>)
    requires Encodable(i)
    ensures |s| == Size(i) - 1
  {
    match i
    case Char16(c, _) => U16(c)
    case Char32(c, _) => U32(c)
    case Goto(rel) => I32(rel)
    case Split(_, rel) => I32(rel)
    case SaveStart(g) => [g]
    case SaveEnd(g) => [g]
    case SaveReset(first, last) => [first, last]
    case Loop(r, rel) => [r] + I32(rel)
    case LoopSplit(_, _, r, limit, rel) => [r] + U32(limit) + I32(rel)
    case SetI32(r, v) => [r] + U32(v)
    case BackRef(_, _, groups) => [|groups|] + groups
    case Range16(_, bounds) => U16(|bounds| / 2) + U16s(bounds)
    case Range32(_, bounds) => U16(|bounds| / 2) + U32s(bounds)
    case LookOp(_, rel) => I32(rel)
    case SetCharPos(r) => [r]
    case CheckAdvance(r) => [r]
    case _ => []
  }

  function Bytes(i: Instr): (s: seq<Byte>)
    requires Encodable(i)
    ensures |s| == Size(i)
  {
    [Opcode(i)] + Operands(i)
  }

  ghost predicate AllEncodable(code: seq<Instr>) {
    forall k :: 0 <= k < |code| ==> Encodable(code[k])
  }

  function Assemble(code: seq<Instr>): (s: seq<Byte>)
    requires AllEncodable(code)
    ensures |s| == CodeSize(code)
  {
    if code == [] then [] else
      Bytes(code[0]) + Assemble(code[1..])
  }

  lemma AssembleAppend(a: seq<Instr>, b: seq<Instr>)
    requires AllEncodable(a) && AllEncodable(b)
    ensures AllEncodable(a + b) && Assemble(a + b) == Assemble(a) + Assemble(b)
  {
    hide Bytes, Encodable;
    if a == [] {
      assert a + b == b;
    } else {
      assert (a + b)[1..] == a[1..] + b;
      AssembleAppend(a[1..], b);
    }
  }

  lemma AssembleOne(i: Instr)
    requires Encodable(i)
    ensures AllEncodable([i]) && Assemble([i]) == Bytes(i)
  {
    hide Bytes;
    assert [i][1..] == [];
  }

  // ----- decoding -----

  /** The instruction at `pc`; None where the matcher would abort or read past the program. */
  function Fetch(code: seq<Byte>, pc: int): Option<Instr> {
    if 0 <= pc < |code| then Decode(code[pc], code[pc + 1..]) else None
  }

  /** The instruction with opcode `op` whose operands start `s`. */
  function Decode(op: Byte, s: seq<Byte>): Option<Instr> {
    if (op == 1 || op == 2) then if |s| < 2 then None else Some(Char16(GetU16(s, 0), op == 2))
    else if (op == 3 || op == 4) then if |s| < 4 then None else Some(Char32(GetU32(s, 0), op == 4))
    else if (op == 13 || op == 14 || op == 15 || op == 40 || op == 41) then if |s| < 4 then None else Some(DecodeJump(op, GetI32(s, 0)))
    else if (op == 19 || op == 20 || op == 42 || op == 43) then if |s| < 1 then None else Some(DecodeByte(op, s[0]))
    else if op == 21 then if |s| < 2 then None else Some(SaveReset(s[0], s[1]))
    else if op == 22 then if |s| < 5 then None else Some(Loop(s[0], GetI32(s, 1)))
    else if 23 <= op <= 26 then
      if |s| < 9 then None
      else Some(LoopSplit(op >= 25, op % 2 == 0, s[0], GetU32(s, 1), GetI32(s, 5)))
    else if op == 27 then if |s| < 5 then None else Some(SetI32(s[0], GetU32(s, 1)))
    else if 32 <= op <= 39 then DecodeList(op, s)
    else DecodePlain(op)
  }

  function DecodePlain(op: Byte): Option<Instr> {
    if op == 5 then Some(DotChar)
    else if op == 6 then Some(AnyChar)
    else if (op == 7 || op == 8) then Some(SpaceChar(op == 8))
    else if (op == 9 || op == 10) then Some(AssertStart(op == 10))
    else if (op == 11 || op == 12) then Some(AssertEnd(op == 12))
    else if op == 16 then Some(Accept)
    else if (op == 17 || op == 18) then Some(LookAccept(op == 18))
    else if 28 <= op <= 31 then Some(AssertWord(op >= 30, op % 2 == 1))
    else if op == 44 then Some(PrevChar)
    else None
  }

  function DecodeJump(op: Byte, rel: int): Instr
    requires (op == 13 || op == 14 || op == 15 || op == 40 || op == 41)
  {
    if op == 13 then Goto(rel) else if op <= 15 then Split(op == 15, rel) else LookOp(op == 41, rel)
  }

  function DecodeByte(op: Byte, b: Byte): Instr
    requires (op == 19 || op == 20 || op == 42 || op == 43)
  {
    if op == 19 then SaveStart(b) else if op == 20 then SaveEnd(b)
    else if op == 42 then SetCharPos(b) else CheckAdvance(b)
  }

  function DecodeList(op: Byte, s: seq<Byte>): Option<Instr>
    requires 32 <= op <= 39
  {
    if op <= 35 then
      if |s| < 1 || |s| - 1 < s[0] then None
      else Some(BackRef(op >= 34, op % 2 == 1, s[1..1 + s[0]]))
    else if |s| < 2 then None
    else
      var n := GetU16(s, 0);
      if op <= 37 then
        if |s| < 2 + 4 * n then None else Some(Range16(op == 37, GetU16s(s, 2, 2 * n)))
      else
        if |s| < 2 + 8 * n then None else Some(Range32(op == 39, GetU32s(s, 2, 2 * n)))
  }

  lemma GetsU32(s: seq<Byte>, p: nat, v: nat)
    requires v < 0x1_0000_0000 && p + 4 <= |s| && s[p..p + 4] == U32(v)
    ensures GetU32(s, p) == v
  {
    var t := s[p..p + 4];
    assert s[p] == t[0] && s[p + 1] == t[1] && s[p + 2] == t[2] && s[p + 3] == t[3];
    assert v == v % 0x1_0000 + 0x1_0000 * (v / 0x1_0000);
  }

  lemma GetsI32(s: seq<Byte>, p: nat, v: int)
    requires IsInt32(v) && p + 4 <= |s| && s[p..p + 4] == I32(v)
    ensures GetI32(s, p) == v
  {
    GetsU32(s, p, if v < 0 then v + 0x1_0000_0000 else v);
  }

  lemma GetsU16s(s: seq<Byte>, p: nat, vs: seq<nat>)
    requires forall k :: 0 <= k < |vs| ==> vs[k] < 0x1_0000
    requires p + 2 * |vs| <= |s| && s[p..p + 2 * |vs|] == U16s(vs)
    ensures GetU16s(s, p, |vs|) == vs
    decreases |vs|
  {
    if vs != [] {
      var t := s[p..p + 2 * |vs|];
      assert s[p] == t[0] && s[p + 1] == t[1];
      assert s[p + 2..p + 2 + 2 * |vs[1..]|] == t[2..] == U16s(vs[1..]);
      GetsU16s(s, p + 2, vs[1..]);
    }
  }

  lemma GetsU32s(s: seq<Byte>, p: nat, vs: seq<nat>)
    requires forall k :: 0 <= k < |vs| ==> vs[k] < 0x1_0000_0000
    requires p + 4 * |vs| <= |s| && s[p..p + 4 * |vs|] == U32s(vs)
    ensures GetU32s(s, p, |vs|) == vs
    decreases |vs|
  {
    if vs != [] {
      var t := s[p..p + 4 * |vs|];
      assert s[p..p + 4] == t[..4] == U32(vs[0]);
      assert s[p + 4..p + 4 + 4 * |vs[1..]|] == t[4..] == U32s(vs[1..]);
      GetsU32(s, p, vs[0]);
      GetsU32s(s, p + 4, vs[1..]);
    }
  }

  /** Decoding undoes encoding, whatever follows the instruction. */
  lemma DecodeOperands(i: Instr, tail: seq<Byte>)
    requires Encodable(i)
    ensures Decode(Opcode(i), Operands(i) + tail) == Some(i)
  {
    if i.Range16? {
      DecodeRange16(i, tail);
    } else if i.Range32? {
      DecodeRange32(i, tail);
    } else if i.BackRef? {
      DecodeBackRef(i, tail);
    } else if i.Goto? || i.Split? || i.LookOp? {
      DecodeJumps(i, tail);
    } else if i.Loop? || i.LoopSplit? || i.SetI32? || i.Char32? || i.Char16? {
      DecodeWide(i, tail);
    }
  }

  lemma DecodeJumps(i: Instr, tail: seq<Byte>)
    requires (i.Goto? || i.Split? || i.LookOp?) && Encodable(i)
    ensures Decode(Opcode(i), Operands(i) + tail) == Some(i)
  {
    var s := Operands(i) + tail;
    assert s[0..4] == Operands(i) == I32(i.rel);
    GetsI32(s, 0, i.rel);
  }

  lemma DecodeWide(i: Instr, tail: seq<Byte>)
    requires (i.Loop? || i.LoopSplit? || i.SetI32? || i.Char32? || i.Char16?) && Encodable(i)
    ensures Decode(Opcode(i), Operands(i) + tail) == Some(i)
  {
    var s := Operands(i) + tail;
    match i
    case Char16(c, _) => assert s[0] == c % 256 && s[1] == c / 256;
    case Char32(c, _) => assert s[0..4] == U32(c); GetsU32(s, 0, c);
    case Loop(_, rel) => assert s[1..5] == I32(rel); GetsI32(s, 1, rel);
    case SetI32(_, v) => assert s[1..5] == U32(v); GetsU32(s, 1, v);
    case LoopSplit(_, _, _, limit, rel) =>
      assert s[1..5] == U32(limit) && s[5..9] == I32(rel);
      GetsU32(s, 1, limit);
      GetsI32(s, 5, rel);
  }

  lemma DecodeBackRef(i: Instr, tail: seq<Byte>)
    requires i.BackRef? && Encodable(i)
    ensures Decode(Opcode(i), Operands(i) + tail) == Some(i)
  {
    var s := Operands(i) + tail;
    assert s[0] == |i.groups| && s[1..1 + |i.groups|] == i.groups;
  }

  lemma DecodeRange16(i: Instr, tail: seq<Byte>)
    requires i.Range16? && Encodable(i)
    ensures Decode(Opcode(i), Operands(i) + tail) == Some(i)
  {
    var s := Operands(i) + tail;
    assert GetU16(s, 0) == |i.bounds| / 2;
    assert GetU16s(s, 2, |i.bounds|) == i.bounds by {
      assert s[2..2 + 2 * |i.bounds|] == U16s(i.bounds);
      GetsU16s(s, 2, i.bounds);
    }
  }

  lemma DecodeRange32(i: Instr, tail: seq<Byte>)
    requires i.Range32? && Encodable(i)
    ensures Decode(Opcode(i), Operands(i) + tail) == Some(i)
  {
    var s := Operands(i) + tail;
    assert GetU16(s, 0) == |i.bounds| / 2;
    assert GetU32s(s, 2, |i.bounds|) == i.bounds by {
      hide Decode;
      assert s[2..2 + 4 * |i.bounds|] == U32s(i.bounds);
      GetsU32s(s, 2, i.bounds);
    }
    hide U32s, GetU32s, U32, GetU32;
  }

  lemma FetchBytes(code: seq<Byte>, pc: nat, i: Instr)
    requires Encodable(i) && pc + Size(i) <= |code| && code[pc..pc + Size(i)] == Bytes(i)
    ensures Fetch(code, pc) == Some(i)
  {
    var t := code[pc..pc + Size(i)];
    assert code[pc] == t[0];
    assert code[pc + 1..] == t[1..] + code[pc + Size(i)..];
    assert t[1..] == Operands(i);
    DecodeOperands(i, code[pc + Size(i)..]);
  }

  /** A program as the matcher sees it: the instruction at each byte offset. */
  type Program = int -> Option<Instr>

  function Decoded(bytes: seq<Byte>): Program {
    pc => Fetch(bytes, pc)
  }

  /** The instructions of `code` are found one after the other in `prog` from `pc` on. */
  ghost predicate HasCode(prog: Program, pc: int, code: seq<Instr>)
    decreases code
  {
    code != [] ==> prog(pc) == Some(code[0]) && HasCode(prog, pc + Size(code[0]), code[1..])
  }

  lemma HasCodeAppend(prog: Program, pc: int, a: seq<Instr>, b: seq<Instr>)
    ensures HasCode(prog, pc, a + b) <==> HasCode(prog, pc, a) && HasCode(prog, pc + CodeSize(a), b)
    decreases a
  {
    if a == [] {
      assert a + b == b;
    } else {
      assert (a + b)[1..] == a[1..] + b;
      HasCodeAppend(prog, pc + Size(a[0]), a[1..], b);
    }
  }

  /** `prog` decodes every instruction that `bytes` holds in encoded form. */
  ghost predicate Decodes(prog: Program, bytes: seq<Byte>) {
    forall pc: nat, i: Instr ::
      Encodable(i) && pc + Size(i) <= |bytes| && bytes[pc..pc + Size(i)] == Bytes(i) ==> prog(pc) == Some(i)
  }

  lemma DecodedDecodes(bytes: seq<Byte>)
    ensures Decodes(Decoded(bytes), bytes)
  {
    forall pc: nat, i: Instr | Encodable(i) && pc + Size(i) <= |bytes| && bytes[pc..pc + Size(i)] == Bytes(i)
      ensures Decoded(bytes)(pc) == Some(i)
    {
      FetchBytes(bytes, pc, i);
    }
  }

  lemma SplitSlice(bytes: seq<Byte>, pc: nat, a: seq<Byte>, b: seq<Byte>)
    requires pc + |a| + |b| <= |bytes| && bytes[pc..pc + |a| + |b|] == a + b
    ensures bytes[pc..pc + |a|] == a && bytes[pc + |a|..pc + |a| + |b|] == b
  {
    var all := bytes[pc..pc + |a| + |b|];
    assert bytes[pc..pc + |a|] == all[..|a|];
    assert bytes[pc + |a|..pc + |a| + |b|] == all[|a|..];
  }

  /** Assembled code is found again by the decoder at the offset where it was placed. */
  lemma {:induction false} AssembledHasCode(prog: Program, bytes: seq<Byte>, pc: nat, code: seq<Instr>)
    requires AllEncodable(code) && Decodes(prog, bytes)
    requires pc + CodeSize(code) <= |bytes| && bytes[pc..pc + CodeSize(code)] == Assemble(code)
    ensures HasCode(prog, pc, code)
    decreases code
  {
    hide Bytes, Opcode, Operands, Encodable, Size;
    if code != [] {
      SplitSlice(bytes, pc, Bytes(code[0]), Assemble(code[1..]));
      AssembledHasCode(prog, bytes, pc + Size(code[0]), code[1..]);
    }
  }
}
