/** The compiler: it appends to, inserts into and patches one growable byte buffer. */
module Compiler {
  import opened Options
  import opened RegexSyntax
  import opened Bytecode
  import opened Codegen
  import opened Allocation
  import opened CodeScan

  const CAPTURE_COUNT_MAX := 255
  const REGISTER_COUNT_MAX := 255

  /** `INT32_MAX / 2`: no larger buffer is ever allocated. */
  const SIZE_MAX := 0x3fff_ffff

  const HEADER_LEN := 8

  datatype Error = TooManyCaptures | TooManyRanges | TooManyRegisters | OutOfMemory

  /** No class of the pattern has too many ranges for the 16-bit count of its opcode. */
  predicate ClassesFit(n: Regex) {
    match n
    case Class(points, _) => |points| / 2 < 65535
    case Group(body) => ClassesFit(body)
    case Look(_, _, body) => ClassesFit(body)
    case Cat(l, r) => ClassesFit(l) && ClassesFit(r)
    case Alt(l, r) => ClassesFit(l) && ClassesFit(r)
    case Quant(a, _, _, _) => ClassesFit(a)
    case _ => true
  }

  /** `code` is `before` followed by the encoding of `c`. */
  ghost predicate Wrote(code: seq<Byte>, before: seq<Byte>, c: seq<Instr>) {
    AllEncodable(c) && code == before + Assemble(c)
  }

  /** An upper bound on the buffer space that emitting `n` ever asks for, moved terms included. */
  function Bulk(n: Regex, backward: bool): nat {
    match n
    case Empty => 0
    case Char(_, _) => Size(CharacterCode(n)) + Bytes2(backward)
    case Dot(_) => Size(CharacterCode(n)) + Bytes2(backward)
    case Space(_) => Size(CharacterCode(n)) + Bytes2(backward)
    case Class(_, _) => Size(CharacterCode(n)) + Bytes2(backward)
    case LineStart(_) => Size(TestCode(n, backward))
    case LineEnd(_) => Size(TestCode(n, backward))
    case WordBoundary(_, _) => Size(TestCode(n, backward))
    case BackReference(_, _) => Size(TestCode(n, backward))
    case Group(body) => Bulk(body, backward) + 4
    case Look(_, behind, body) => Bulk(body, behind) + 6
    case Cat(l, r) => Bulk(l, backward) + Bulk(r, backward) + if backward then Bulk(r, backward) else 0
    case Alt(l, r) => Bulk(l, backward) + Bulk(r, backward) + 10
    case Quant(a, _, _, _) => Bulk(a, backward) + 29
  }

  /** Growing by half each time, the buffer may be refused from two thirds of the limit on. */
  predicate TooLarge(size: nat) {
    3 * size > 2 * SIZE_MAX
  }

  class Emitter {
    var code: seq<Byte>
    var space: nat
    var captureCount: nat

    ghost predicate Valid()
      reads this
    {
      |code| <= space <= SIZE_MAX && captureCount <= CAPTURE_COUNT_MAX
    }

    /** What emitting the code of `n` does, or why it stops. */
    ghost predicate Emits(before: seq<Byte>, captures: nat, n: Regex, backward: bool, error: Option<Error>)
      reads this
    {
      && Valid()
      && (error.None? ==> Wrote(code, before, Code(n, backward, Unallocated, captures))
                          && |code| <= |before| + Bulk(n, backward)
                          && captureCount == captures + Groups(n) && ClassesFit(n))
      && (error == Some(TooManyCaptures) ==> captures + Groups(n) > CAPTURE_COUNT_MAX)
      && (error == Some(TooManyRanges) ==> !ClassesFit(n))
      && (error == Some(OutOfMemory) ==> TooLarge(|before| + Bulk(n, backward)))
      && error != Some(TooManyRegisters)
    }

    constructor ()
      ensures Valid() && code == [] && captureCount == 1
    {
      code, space, captureCount := [], 0, 1;
    }

    // ----- the buffer -----

    /** `dbuf_claim` */
    method Claim(len: nat) returns (ok: bool)
      requires Valid()
      modifies this`space
      ensures Valid() && (ok ==> |code| + len <= space)
      ensures !ok ==> TooLarge(|code| + len)
    {
      var size := |code| + len;
      if size > space {
        if size < space + space / 2 {
          size := space + space / 2;
        }
        if size > SIZE_MAX {
          return false;
        }
        space := size;
      }
      ok := true;
    }

    method Put(bytes: seq<Byte>) returns (ok: bool)
      requires Valid()
      modifies this`space, this`code
      ensures Valid() && if ok then code == old(code) + bytes else TooLarge(|old(code)| + |bytes|)
    {
      ok := Claim(|bytes|);
      if ok {
        code := code + bytes;
      }
    }

    method Emit(i: Instr, ghost before: seq<Byte>, ghost c: seq<Instr>) returns (ok: bool)
      requires Valid() && Wrote(code, before, c) && Encodable(i)
      modifies this`space, this`code
      ensures Valid() && if ok then Wrote(code, before, c + [i]) && |code| == |old(code)| + Size(i) else TooLarge(|old(code)| + Size(i))
    {
      hide Bytes, Encodable, Assemble;
      AssembleOne(i);
      AssembleAppend(c, [i]);
      ok := Put(Bytes(i));
    }

    /** `dbuf_insert`: the moved bytes leave a gap whose contents do not matter. */
    method Insert(pos: nat, len: nat) returns (ok: bool)
      requires Valid() && pos <= |code|
      modifies this`space, this`code
      ensures Valid() && (!ok ==> TooLarge(|old(code)| + len))
      ensures ok ==> |code| == |old(code)| + len && code[..pos] == old(code)[..pos] && code[pos + len..] == old(code)[pos..]
    {
      ok := Claim(len);
      if ok {
        var gap: seq<Byte> := seq(len, _ => 0);
        code := code[..pos] + gap + code[pos..];
      }
    }

    method Store(pos: nat, bytes: seq<Byte>)
      requires Valid() && pos + |bytes| <= |code|
      modifies this`code
      ensures Valid() && |code| == |old(code)| && code[..pos] == old(code)[..pos]
      ensures code[pos..pos + |bytes|] == bytes && code[pos + |bytes|..] == old(code)[pos + |bytes|..]
    {
      code := code[..pos] + bytes + code[pos + |bytes|..];
    }

    /** Opens a gap at `pos` and fills it with instructions. */
    method Prepend(pos: nat, block: seq<Instr>, ghost before: seq<Byte>, ghost c: seq<Instr>) returns (ok: bool)
      requires Valid() && Wrote(code, before, c) && pos == |before| && AllEncodable(block)
      modifies this`space, this`code
      ensures Valid() && if ok then Wrote(code, before, block + c) && |code| == |old(code)| + CodeSize(block)
        else TooLarge(|old(code)| + CodeSize(block))
    {
      hide Bytes, Encodable, CodeSize, Assemble;
      ghost var moved := Assemble(c);
      ok := Insert(pos, CodeSize(block));
      if !ok {
        return;
      }
      assert code[..pos] == before;
      var k, at := 0, pos;
      AssembleNothing();
      assert block[..0] == [];
      while k < |block|
        invariant 0 <= k <= |block| && pos <= at <= |code| == pos + CodeSize(block) + |moved|
        invariant AllEncodable(block[..k]) && code[..at] == before + Assemble(block[..k])
        invariant at == pos + CodeSize(block[..k])
        invariant code[pos + CodeSize(block)..] == moved
        invariant Valid()
      {
        StepSizes(block, k);
        var bytes := Bytes(block[k]);
        ghost var was := code;
        Store(at, bytes);
        Filled(was, code, at, |bytes|, pos + CodeSize(block));
        at, k := at + |bytes|, k + 1;
      }
      assert block[..k] == block;
      assert code == code[..at] + code[at..];
      AssembleAppend(block, c);
    }

    /** Overwrites the operand of the jump emitted after `a` once the code behind it is known. */
    method Patch(pos: nat, rel: int, ghost jump: Instr, ghost before: seq<Byte>, ghost a: seq<Instr>, ghost b: seq<Instr>)
      requires Valid() && Encodable(jump) && (jump.Goto? || jump.LookOp?) && IsInt32(rel)
      requires Wrote(code, before, a + [jump] + b) && AllEncodable(a) && AllEncodable(b) && pos == |before| + CodeSize(a) + 1
      modifies this`code
      ensures Valid() && Wrote(code, before, a + [WithRel(jump, rel)] + b) && |code| == |old(code)|
    {
      hide Bytes, Encodable, CodeSize, Assemble, I32, WithRel, AllEncodable;
      JumpBytes(jump, rel);
      PieceAt(a, jump, b);
      PieceAt(a, WithRel(jump, rel), b);
      ghost var start := before + Assemble(a);
      ghost var was := code;
      assert was == start + Bytes(jump) + Assemble(b);
      Store(pos, I32(rel));
      Patched(was, code, start, Bytes(jump), Assemble(b), I32(rel));
    }

    // ----- classes -----

    /** `re_emit_range` */
    method EmitRange(points: seq<nat>, icase: bool, ghost before: seq<Byte>, ghost c: seq<Instr>) returns (error: Option<Error>)
      requires Valid() && Wrote(code, before, c) && Canonical(points)
      modifies this`space, this`code
      ensures Valid() && error in {None, Some(TooManyRanges), Some(OutOfMemory)}
      ensures error.None? ==> Wrote(code, before, c + [ClassCode(points, icase)]) && |code| == |old(code)| + Size(ClassCode(points, icase))
      ensures error == Some(OutOfMemory) ==> TooLarge(|old(code)| + Size(ClassCode(points, icase)))
      ensures if |points| / 2 >= 65535 then error == Some(TooManyRanges) else error != Some(TooManyRanges)
    {
      hide Wrote;
      var len := |points| / 2;
      if len >= 65535 {
        return Some(TooManyRanges);
      }
      var ok;
      if len == 0 {
        ok := Emit(Char32(UINT32_MAX, false), before, c);
      } else {
        var high := points[|points| - 1];
        if high == UINT32_MAX {
          high := points[|points| - 2];
        }
        ok := EmitBounds(points, icase, high > 0xffff, before, c);
      }
      error := if ok then None else Some(OutOfMemory);
    }

    /** The opcode, the number of ranges and the inclusive bounds of each. */
    method EmitBounds(points: seq<nat>, icase: bool, wide: bool, ghost before: seq<Byte>, ghost c: seq<Instr>) returns (ok: bool)
      requires Valid() && Wrote(code, before, c) && Canonical(points) && 2 <= |points| && |points| / 2 < 65535 && |points| % 2 == 0
      requires wide == (TopBoundary(points) > 0xffff)
      modifies this`space, this`code
      ensures Valid() && if ok then Wrote(code, before, c + [ClassCode(points, icase)]) && |code| == |old(code)| + Size(ClassCode(points, icase))
        else TooLarge(|old(code)| + Size(ClassCode(points, icase)))
    {
      hide Opcode, Assemble, Canonical, Encodable, AllEncodable, ClassCode, ClassBounds, BoundBytes, Bytes, Operands, U16, U32, TopBoundary;
      ghost var i, bounds := ClassCode(points, icase), ClassBounds(points, wide);
      BoundsFit(points, wide);
      ClassBytes(points, icase, wide);
      AssembleOne(i);
      AssembleAppend(c, [i]);
      ghost var start := before + Assemble(c);
      ok := Put([if wide then 38 + Bit(icase) else 36 + Bit(icase)] + U16(|points| / 2));
      if !ok {
        return;
      }
      ghost var head := code;
      NoBounds(bounds, wide);
      var k := 0;
      while k < |points|
        invariant Valid() && 0 <= k <= |points| && k % 2 == 0
        invariant code == head + BoundBytes(bounds[..k], wide)
      {
        var low, high := points[k], points[k + 1] - 1;
        if !wide && high == UINT32_MAX - 1 {
          high := 0xffff;
        }
        BoundAt(points, wide, k);
        BoundBytesAppend(bounds, k, wide);
        ok := Put(if wide then U32(low) + U32(high) else U16(low) + U16(high));
        if !ok {
          return;
        }
        k := k + 2;
      }
      assert bounds[..k] == bounds;
    }

    // ----- scanning an atom -----

    /** `re_need_check_adv_and_capture_init`, on the bytes from `start` on. */
    method NeedCheckAdvAndCaptureInit(start: nat, ghost before: seq<Byte>, ghost c: seq<Instr>)
        returns (needCheckAdv: bool, needCaptureInit: bool)
      requires Wrote(code, before, c) && start == |before|
      ensures needCheckAdv == !ScanCode(c).consumes
      ensures needCaptureInit == (ScanCode(c).stops || ScanCode(c).references)
    {
      hide AllEncodable, Assemble, Encodable, Bytes, ScanCode, Opcode;
      needCheckAdv, needCaptureInit := true, false;
      var pos := start;
      ghost var rest := c;
      NothingLeft(code, pos, rest);
      ScanNone();
      while pos < |code|
        invariant start <= pos <= |code| && AllEncodable(rest) && code[pos..] == Assemble(rest)
        invariant ScanCode(c) == AndThen(Scan(!needCheckAdv, false, needCaptureInit), ScanCode(rest))
        invariant pos == |code| ==> ScanCode(rest) == NOTHING
        decreases |code| - pos
      {
        NothingLeft(code, pos, rest);
        FirstAt(code, pos, rest);
        LengthIsSize(code, pos, rest[0]);
        ScanFirst(rest);
        var opcode := code[pos];
        if ConsumingOp(opcode) {
          needCheckAdv := false;
        } else if ReferenceOp(opcode) {
          needCaptureInit := true;
        } else if !NeutralOp(opcode) {
          needCaptureInit := true;
          return;
        }
        pos := pos + LengthAt(code, pos);
        rest := rest[1..];
        NothingLeft(code, pos, rest);
      }
    }

    // ----- patterns -----

    method EmitPattern(n: Pattern, backward: bool) returns (error: Option<Error>)
      requires Valid()
      modifies this
      ensures Emits(old(code), old(captureCount), n, backward, error)
      decreases n, 1
    {
      hide Wrote, Code, Bytes, Encodable, Assemble, Groups, ClassesFit, Bulk;
      match n {
        case Empty => EmptyCode(code, backward, captureCount); error := None;
        case Char(_, _) => error := EmitCharacter(n, backward);
        case Dot(_) => error := EmitCharacter(n, backward);
        case Space(_) => error := EmitCharacter(n, backward);
        case Class(_, _) => error := EmitCharacter(n, backward);
        case LineStart(_) => error := EmitTest(n, backward);
        case LineEnd(_) => error := EmitTest(n, backward);
        case WordBoundary(_, _) => error := EmitTest(n, backward);
        case BackReference(_, _) => error := EmitTest(n, backward);
        case Group(_) => error := EmitGroup(n, backward);
        case Look(_, _, _) => error := EmitLook(n, backward);
        case Cat(_, _) => error := EmitTerms(n, backward);
        case Alt(_, _) => error := EmitAlternatives(n, backward);
        case Quant(_, _, _, _) => error := EmitQuantified(n, backward);
      }
    }

    method EmitCharacter(n: Pattern, backward: bool) returns (error: Option<Error>)
      requires Valid() && IsCharacter(n)
      modifies this
      ensures Emits(old(code), old(captureCount), n, backward, error)
      decreases n, 0
    {
      hide Wrote, CharacterCode, CharacterSteps, Code, Groups, ClassesFit, Bulk, IsCharacter, Size, Valid;
      CharacterParts(n, backward, captureCount);
      SizeOfOne(PrevChar);
      ghost var before := code;
      ghost var c: seq<Instr> := [];
      NothingWritten();
      if backward {
        var ok := EmitPrevious(before, c);
        if !ok {
          return Some(OutOfMemory);
        }
        c := c + [PrevChar];
      }
      error := EmitCharacterCode(n, before, c);
      c := c + [CharacterCode(n)];
      if error.None? && backward {
        var ok := EmitPrevious(before, c);
        error := if ok then None else Some(OutOfMemory);
        c := c + [PrevChar];
      }
      StepsOf(n, backward);
    }

    method EmitPrevious(ghost before: seq<Byte>, ghost c: seq<Instr>) returns (ok: bool)
      requires Valid() && Wrote(code, before, c)
      modifies this`space, this`code
      ensures Valid() && if ok then Wrote(code, before, c + [PrevChar]) && |code| == |old(code)| + 1 else TooLarge(|old(code)| + 1)
    {
      hide Wrote;
      ok := Emit(PrevChar, before, c);
    }

    /** The opcode that tests the character itself. */
    method EmitCharacterCode(n: Pattern, ghost before: seq<Byte>, ghost c: seq<Instr>) returns (error: Option<Error>)
      requires Valid() && IsCharacter(n) && Wrote(code, before, c)
      modifies this`space, this`code
      ensures Valid() && error in {None, Some(TooManyRanges), Some(OutOfMemory)}
      ensures error.None? ==> Wrote(code, before, c + [CharacterCode(n)]) && |code| == |old(code)| + Size(CharacterCode(n))
      ensures error == Some(OutOfMemory) ==> TooLarge(|old(code)| + Size(CharacterCode(n)))
      ensures error == Some(TooManyRanges) <==> n.Class? && |n.points| / 2 >= 65535
    {
      hide Wrote, ClassCode;
      var ok;
      match n {
        case Char(v, icase) => ok := Emit(if v <= 0xffff then Char16(v, icase) else Char32(v, icase), before, c);
        case Dot(dotAll) => ok := Emit(if dotAll then AnyChar else DotChar, before, c);
        case Space(negated) => ok := Emit(SpaceChar(negated), before, c);
        case Class(points, icase) =>
          error := EmitRange(points, icase, before, c);
          return;
      }
      error := if ok then None else Some(OutOfMemory);
    }

    method EmitTest(n: Pattern, backward: bool) returns (error: Option<Error>)
      requires Valid() && (IsAssertion(n) || n.BackReference?)
      modifies this
      ensures Emits(old(code), old(captureCount), n, backward, error)
      decreases n, 0
    {
      hide Wrote, Code, TestCode, Size, Encodable;
      NothingWritten();
      TestParts(n, backward, captureCount);
      var ok := Emit(TestCode(n, backward), code, []);
      assert [] + [TestCode(n, backward)] == [TestCode(n, backward)];
      error := if ok then None else Some(OutOfMemory);
    }

    method EmitGroup(n: Pattern, backward: bool) returns (error: Option<Error>)
      requires Valid() && n.Group?
      modifies this
      ensures Emits(old(code), old(captureCount), n, backward, error)
      decreases n, 0
    {
      hide Wrote, AllEncodable, Assemble, Code, Groups, ClassesFit, Bulk;
      GroupParts(n, backward, captureCount);
      ghost var before := code;
      if captureCount >= CAPTURE_COUNT_MAX {
        return Some(TooManyCaptures);
      }
      var index := captureCount;
      captureCount := captureCount + 1;
      NothingWritten();
      var ok := Emit(SaveOpen(backward, index), before, []);
      if !ok {
        return Some(OutOfMemory);
      }
      ghost var open := [SaveOpen(backward, index)];
      assert [] + open == open;
      ghost var middle := code;
      error := EmitPattern(n.body, backward);
      if error.Some? {
        return;
      }
      ghost var c := Code(n.body, backward, Unallocated, index + 1);
      Joined(code, before, open, middle, c);
      ok := Emit(SaveClose(backward, index), before, open + c);
      error := if ok then None else Some(OutOfMemory);
    }

    method EmitLook(n: Pattern, backward: bool) returns (error: Option<Error>)
      requires Valid() && n.Look?
      modifies this
      ensures Emits(old(code), old(captureCount), n, backward, error)
      decreases n, 0
    {
      hide Wrote, AllEncodable, Assemble, CodeSize, Code, Groups, ClassesFit, Bulk;
      LookParts(n, backward, captureCount);
      ghost var before := code;
      ghost var jump := LookOp(n.negated, 0);
      NothingWritten();
      var ok := Emit(LookOp(n.negated, 0), before, []);
      if !ok {
        return Some(OutOfMemory);
      }
      assert [] + [jump] == [jump];
      WrittenSize(code, before, [jump]);
      SizeOfOne(jump);
      var pos := |code| - 4;
      ghost var middle := code;
      error := EmitPattern(n.body, n.behind);
      if error.Some? {
        return;
      }
      ghost var c := Code(n.body, n.behind, Unallocated, old(captureCount));
      WrittenSize(code, middle, c);
      Joined(code, before, [jump], middle, c);
      ok := Emit(LookAccept(n.negated), before, [jump] + c);
      if !ok {
        return Some(OutOfMemory);
      }
      ghost var end := [LookAccept(n.negated)];
      assert [jump] + c + end == [] + [jump] + (c + end);
      WrittenParts(code, before, [], jump, c + end);
      SizeOfOne(end[0]);
      CodeSizeAppend(c, end);
      WrittenSize(code, before, [] + [jump] + (c + end));
      CodeSizeAppend([jump], c + end);
      Patch(pos, |code| - (pos + 4), jump, before, [], c + end);
      assert [] + [LookOp(n.negated, CodeSize(c) + 1)] + (c + end) == [LookOp(n.negated, CodeSize(c) + 1)] + (c + end);
    }

    /** One more term of an alternative; backward, it is moved in front of the terms already emitted. */
    method EmitTerms(n: Pattern, backward: bool) returns (error: Option<Error>)
      requires Valid() && n.Cat?
      modifies this
      ensures Emits(old(code), old(captureCount), n, backward, error)
      decreases n, 0
    {
      hide Wrote, AllEncodable, Assemble, Code, Groups, ClassesFit, Bulk;
      CatParts(n, backward, captureCount);
      ghost var before := code;
      var start := |code|;
      error := EmitPattern(n.left, backward);
      if error.Some? {
        return;
      }
      var termStart := |code|;
      ghost var middle, k := code, captureCount;
      error := EmitPattern(n.right, backward);
      if error.Some? {
        return;
      }
      ghost var a, b := Code(n.left, backward, Unallocated, old(captureCount)), Code(n.right, backward, Unallocated, k);
      Joined(code, before, a, middle, b);
      LongerThan(middle, before, a);
      LongerThan(code, middle, b);
      if backward {
        ghost var was := code;
        var ok := MoveTerm(start, termStart);
        if !ok {
          return Some(OutOfMemory);
        }
        TermMoved(before, middle, was, code, a, b);
      }
    }

    /** Exchanges the bytes from `termStart` on with those between `start` and `termStart`. */
    method MoveTerm(start: nat, termStart: nat) returns (ok: bool)
      requires Valid() && start <= termStart <= |code|
      modifies this`space, this`code
      ensures Valid() && if ok then code == old(code)[..start] + old(code)[termStart..] + old(code)[start..termStart]
        else TooLarge(2 * |old(code)| - termStart)
    {
      var end := |code|;
      var termSize := end - termStart;
      ok := Claim(termSize);
      if !ok {
        assert |code| + termSize == 2 * |code| - termStart;
      } else {
        var moved := code[..start + termSize] + code[start..];
        MovedTerm(code, moved, start, termStart);
        code := moved[..start] + moved[end..end + termSize] + moved[start + termSize..end];
      }
    }

    method EmitAlternatives(n: Pattern, backward: bool) returns (error: Option<Error>)
      requires Valid() && n.Alt?
      modifies this
      ensures Emits(old(code), old(captureCount), n, backward, error)
      decreases n, 0
    {
      hide Wrote, AllEncodable, Assemble, CodeSize, Code, Groups, ClassesFit, Bulk;
      AltParts(n, backward, captureCount);
      ghost var before := code;
      var start := |code|;
      error := EmitPattern(n.left, backward);
      if error.Some? {
        return;
      }
      ghost var a := Code(n.left, backward, Unallocated, old(captureCount));
      WrittenSize(code, before, a);
      var len := |code| - start;
      var split := Split(true, len + 5);
      EncodableOne(split);
      SizeOfOne(split);
      var ok := Prepend(start, [split], before, a);
      if !ok {
        return Some(OutOfMemory);
      }
      ghost var jump := Goto(0);
      ok := Emit(Goto(0), before, [split] + a);
      if !ok {
        return Some(OutOfMemory);
      }
      ghost var head := [split] + a;
      WrittenSize(code, before, head + [jump]);
      SizeOfOne(jump);
      CodeSizeAppend(head, [jump]);
      var pos := |code| - 4;
      ghost var middle := code;
      ghost var k := captureCount;
      error := EmitPattern(n.right, backward);
      if error.Some? {
        return;
      }
      ghost var b := Code(n.right, backward, Unallocated, k);
      WrittenSize(code, middle, b);
      Joined(code, before, head + [jump], middle, b);
      WrittenParts(code, before, head, jump, b);
      Patch(pos, |code| - (pos + 4), jump, before, head, b);
    }

    /** An atom and its quantifier. */
    method EmitQuantified(n: Pattern, backward: bool) returns (error: Option<Error>)
      requires Valid() && n.Quant?
      modifies this
      ensures Emits(old(code), old(captureCount), n, backward, error)
      decreases n, 0
    {
      hide Wrote, AllEncodable, Assemble, CodeSize, ScanOf, ScanCode, OptionalShape, CountedShape, Code, Groups, ClassesFit, ZeroCode, Bulk;
      ghost var before := code;
      var Quant(a, min, max, greedy) := n;
      QuantParts(n, backward);
      var start, last := |code|, captureCount;
      error := EmitPattern(a, backward);
      if error.Some? {
        return;
      }
      var ok, checked, needCaptureInit := EmitBody(a, backward, start, last, before);
      if !ok {
        return Some(OutOfMemory);
      }
      ghost var body := LoopBody(a, backward, Unallocated, last);
      QuantCode(n, backward, last);
      if min == 0 {
        ok := EmitZeroOrMore(n, backward, start, last, checked, needCaptureInit, before, body);
      } else if min == 1 && max == INFINITE && !checked {
        WrittenSize(code, before, body);
        ok := Emit(Split(!greedy, start - (|code| + 5)), before, body);
      } else {
        ok := EmitCounted(start, checked && min != max, min, max, greedy, before, body);
      }
      error := if ok then None else Some(OutOfMemory);
    }

    /** An emitted atom becomes the body of a loop: it is scanned, and captures are reset where it needs that. */
    method EmitBody(a: Pattern, backward: bool, start: nat, last: nat, ghost before: seq<Byte>)
        returns (ok: bool, checked: bool, needCaptureInit: bool)
      requires Valid() && Wrote(code, before, Code(a, backward, Unallocated, last)) && start == |before|
      requires captureCount == last + Groups(a)
      modifies this`space, this`code
      ensures Valid() && checked == Checked(a, backward) && needCaptureInit == NeedsCaptureInit(a, backward)
      ensures if ok then Wrote(code, before, LoopBody(a, backward, Unallocated, last)) && |code| <= |old(code)| + 3
        else TooLarge(|old(code)| + 3)
    {
      hide Wrote, AllEncodable, Assemble, CodeSize, ScanOf, ScanCode, Code, Groups;
      ghost var c := Code(a, backward, Unallocated, last);
      ScanOfCode(a, backward, Unallocated, last);
      checked, needCaptureInit := NeedCheckAdvAndCaptureInit(start, before, c);
      ok := true;
      if needCaptureInit && last != captureCount {
        ok := EmitReset(start, last, captureCount - 1, before, c);
      } else {
        assert [] + c == c;
      }
    }

    /** The capture reset in front of an atom. */
    method EmitReset(start: nat, first: nat, last: nat, ghost before: seq<Byte>, ghost c: seq<Instr>) returns (ok: bool)
      requires Valid() && Wrote(code, before, c) && start == |before| && first < 256 && last < 256
      modifies this`space, this`code
      ensures Valid() && if ok then Wrote(code, before, [SaveReset(first, last)] + c) && |code| == |old(code)| + 3
        else TooLarge(|old(code)| + 3)
    {
      hide Wrote, AllEncodable, CodeSize;
      EncodableOne(SaveReset(first, last));
      SizeOfOne(SaveReset(first, last));
      ok := Prepend(start, [SaveReset(first, last)], before, c);
    }

    /** The quantifiers whose minimum is 0: the captures are reset once in case the atom never runs. */
    method EmitZeroOrMore(n: Pattern, backward: bool, start: nat, last: nat, checked: bool, needCaptureInit: bool,
                          ghost before: seq<Byte>, ghost body: seq<Instr>) returns (ok: bool)
      requires Valid() && n.Quant? && n.min == 0 && start == |before| && Wrote(code, before, body)
      requires captureCount == last + Groups(n.atom) && body == LoopBody(n.atom, backward, Unallocated, last)
      requires checked == Checked(n.atom, backward) && needCaptureInit == NeedsCaptureInit(n.atom, backward)
      modifies this`space, this`code
      ensures Valid() && if ok then Wrote(code, before, Code(n, backward, Unallocated, last)) && |code| <= |old(code)| + 26
        else TooLarge(|old(code)| + 26)
    {
      hide Wrote, AllEncodable, Assemble, CodeSize, OptionalShape, CountedShape, LoopBody, NeedsCaptureInit, Groups, Checked, Code;
      var a, max, greedy := n.atom, n.max, n.greedy;
      QuantCode(n, backward, last);
      WrittenSize(code, before, body);
      var from, len := start, |code| - start;
      ghost var reset := ResetCode(ResetsBefore(a, backward), a, last);
      if !needCaptureInit && last != captureCount {
        SizeOfOne(SaveReset(last, captureCount - 1));
        ok := EmitReset(start, last, captureCount - 1, before, body);
        if !ok {
          return;
        }
        from := start + 3;
      } else {
        NothingWritten();
        assert reset + body == body;
      }
      WrittenTwo(code, before, reset, body);
      ghost var front := Shift(code, before, reset, body);
      assert |front| == from;
      if max == 0 {
        WrittenSize(code, front, body);
        assert reset + [] == reset;
        code := code[..from];
        ok := true;
      } else {
        if max == 1 || max == INFINITE {
          ok := EmitOptional(from, len, checked, max == INFINITE, greedy, front, body);
        } else {
          ok := EmitOptionalCounted(from, len, checked, max, greedy, front, body);
        }
        if ok {
          Joined(code, before, reset, front, ZeroCode(body, checked, max, greedy));
        }
      }
    }

    /** `split` around the atom, with the zero-advance check and the jump back where they are needed. */
    method EmitOptional(start: nat, len: nat, checked: bool, repeat: bool, greedy: bool,
                        ghost before: seq<Byte>, ghost body: seq<Instr>) returns (ok: bool)
      requires Valid() && start == |before| && Wrote(code, before, body) && len == CodeSize(body)
      modifies this`space, this`code
      ensures Valid() && if ok then Wrote(code, before, OptionalShape(body, checked, 0, repeat, greedy)) && |code| <= |old(code)| + 14
        else TooLarge(|old(code)| + 14)
    {
      hide Wrote, Assemble, CodeSize, OptionalShape, SetPosCode, CheckCode, Encodable;
      WrittenSize(code, before, body);
      var rel := len + 5 * Count(repeat) + 2 * 2 * Count(checked);
      ok := OpenOptional(start, checked, greedy, rel, before, body);
      ghost var c := [Split(greedy, rel)] + SetPosCode(checked, 0) + body;
      if ok && checked {
        ok := EmitCheck(before, c);
      }
      CheckAppended(c, checked);
      c := c + CheckCode(checked, 0);
      if ok && repeat {
        ok := EmitBack(start, before, c);
      }
      OptionalPieces(c, body, len, checked, repeat, greedy);
    }

    /** The `split` in front of an optional atom, and the saved position for the zero-advance check. */
    method OpenOptional(start: nat, checked: bool, greedy: bool, rel: nat, ghost before: seq<Byte>, ghost body: seq<Instr>)
        returns (ok: bool)
      requires Valid() && start == |before| && Wrote(code, before, body) && IsInt32(rel)
      modifies this`space, this`code
      ensures Valid() && if ok then Wrote(code, before, [Split(greedy, rel)] + SetPosCode(checked, 0) + body)
                                    && |code| == |old(code)| + 5 + Bytes2(checked)
        else TooLarge(|old(code)| + 5 + Bytes2(checked))
    {
      hide Wrote, Assemble, CodeSize;
      var block := [Split(greedy, rel)];
      if checked {
        block := block + [SetCharPos(0)];
      }
      BlockSizes(block[0], SetCharPos(0), SetCharPos(0));
      ok := Prepend(start, block, before, body);
      assert block == [Split(greedy, rel)] + SetPosCode(checked, 0);
    }

    /** The jump back to the `split`. */
    method EmitBack(start: nat, ghost before: seq<Byte>, ghost c: seq<Instr>) returns (ok: bool)
      requires Valid() && start == |before| && Wrote(code, before, c)
      modifies this`space, this`code
      ensures Valid() && if ok then Wrote(code, before, c + [Goto(-(CodeSize(c) + 5))]) && |code| == |old(code)| + 5
        else TooLarge(|old(code)| + 5)
    {
      hide Wrote, Assemble, CodeSize;
      WrittenSize(code, before, c);
      ok := Emit(Goto(start - (|code| + 5)), before, c);
    }

    method EmitCheck(ghost before: seq<Byte>, ghost c: seq<Instr>) returns (ok: bool)
      requires Valid() && Wrote(code, before, c)
      modifies this`space, this`code
      ensures Valid() && if ok then Wrote(code, before, c + CheckCode(true, 0)) && |code| == |old(code)| + 2
        else TooLarge(|old(code)| + 2)
    {
      hide Wrote, Assemble;
      ok := Emit(CheckAdvance(0), before, c);
    }

    /** `split`, then a counted loop of optional iterations. */
    method EmitOptionalCounted(start: nat, len: nat, checked: bool, max: nat, greedy: bool,
                               ghost before: seq<Byte>, ghost body: seq<Instr>) returns (ok: bool)
      requires Valid() && start == |before| && Wrote(code, before, body) && len == CodeSize(body) && max <= INFINITE
      modifies this`space, this`code
      ensures var loop := CountedShape(body, checked, 0, 0, max, max, greedy);
        Valid() && if ok then Wrote(code, before, [Split(greedy, CodeSize(loop))] + loop) && |code| <= |old(code)| + 23
        else TooLarge(|old(code)| + 23)
    {
      hide Wrote, Assemble, CodeSize;
      WrittenSize(code, before, body);
      var block := [Split(greedy, 6 + 2 * Count(checked) + len + 10), SetI32(0, max)];
      if checked {
        block := block + [SetCharPos(0)];
      }
      BlockSizes(block[0], block[1], SetCharPos(0));
      ok := Prepend(start, block, before, body);
      if ok {
        ghost var c := block + body;
        CountedSizes(block, body, checked, max, max, greedy);
        WrittenSize(code, before, c);
        ok := Emit(LoopSplit(checked, !greedy, 0, max, start + 11 - (|code| + 10)), before, c);
      }
    }

    /** The counted loops with a positive minimum. */
    method EmitCounted(start: nat, checked: bool, min: nat, max: nat, greedy: bool,
                       ghost before: seq<Byte>, ghost body: seq<Instr>) returns (ok: bool)
      requires Valid() && start == |before| && Wrote(code, before, body) && min <= max <= INFINITE
      requires min == max ==> !checked
      modifies this`space, this`code
      ensures Valid() && if ok then |code| <= |old(code)| + 18 else TooLarge(|old(code)| + 18)
      ensures ok ==> Wrote(code, before,
        if min == max then [SetI32(0, max)] + body + [Loop(0, -(CodeSize(body) + 6))]
        else CountedShape(body, checked, 0, 0, max, max - min, greedy))
    {
      hide Wrote, Assemble, CodeSize;
      WrittenSize(code, before, body);
      var block := [SetI32(0, max)];
      if checked {
        block := block + [SetCharPos(0)];
      }
      BlockSizes(block[0], if |block| > 1 then block[1] else SetCharPos(0), SetCharPos(0));
      ok := Prepend(start, block, before, body);
      if ok {
        ghost var c := block + body;
        LoopSizes(block, body, checked, max);
        WrittenSize(code, before, c);
        if min == max {
          ok := Emit(Loop(0, start + 6 - (|code| + 6)), before, c);
          assert c == [SetI32(0, max)] + body;
        } else {
          ok := Emit(LoopSplit(checked, !greedy, 0, max - min, start + 6 - (|code| + 10)), before, c);
          assert c == [SetI32(0, max)] + SetPosCode(checked, 0) + body;
        }
      }
    }

    // ----- registers -----

    /** `compute_register_count`: numbers the register operands behind the header in place. */
    method ComputeRegisterCount(ghost before: seq<Byte>, ghost c: seq<Instr>) returns (count: Option<nat>)
      requires Valid() && Wrote(code, before, c) && |before| == HEADER_LEN && StaysAbove(c, 0, 0)
      modifies this`code
      ensures Valid()
      ensures if MaxDepth(c, 0) > REGISTER_COUNT_MAX then count == None
        else count == Some(MaxDepth(c, 0)) && Wrote(code, before, AllocatedCode(c, 0))
    {
      hide AllEncodable, Assemble, Encodable, Bytes, Opcode, AllocatedCode, FinalDepth, MaxDepth, StaysAbove, Allocated, DepthAfter, Pushes,
           Pops, Size, LengthAt, At;
      var stackSize: nat, stackSizeMax: nat, pos: nat := 0, 0, HEADER_LEN;
      ghost var done: seq<Instr>, rest := [], c;
      NothingAllocated();
      AssembleNothing();
      assert done + rest == c;
      NothingLeft(code, pos, rest);
      while pos < |code|
        invariant Valid() && HEADER_LEN <= pos <= |code| && done + rest == c
        invariant AllEncodable(AllocatedCode(done, 0)) && code[..pos] == before + Assemble(AllocatedCode(done, 0))
        invariant AllEncodable(rest) && code[pos..] == Assemble(rest) && (pos == |code| ==> rest == [])
        invariant stackSize == FinalDepth(done, 0) <= stackSizeMax == MaxDepth(done, 0) <= REGISTER_COUNT_MAX
        invariant StaysAbove(rest, stackSize, 0)
        decreases |code| - pos
      {
        NothingLeft(code, pos, rest);
        FirstAt(code, pos, rest);
        ghost var i := rest[0];
        LengthIsSize(code, pos, i);
        RegisterOps(i);
        AllocateNext(done, rest, stackSize);
        var opcode := code[pos];
        var len := LengthAt(code, pos);
        var depth := NumberOperand(pos, stackSize, i, before, AllocatedCode(done, 0));
        if (opcode == 27 || opcode == 42) && depth > stackSizeMax {
          if depth > REGISTER_COUNT_MAX {
            return None;
          }
          stackSizeMax := depth;
        }
        stackSize := depth;
        done, rest := done + [i], rest[1..];
        pos := pos + len;
        NothingLeft(code, pos, rest);
      }
      assert done == c;
      assert code[..pos] == code;
      count := Some(stackSizeMax);
    }

    /** The register stack after the instruction at `pos`, whose register number is written. */
    method NumberOperand(pos: nat, stackSize: nat, ghost i: Instr, ghost before: seq<Byte>, ghost a: seq<Instr>) returns (depth: nat)
      requires Valid() && At(code, pos, i) && Pops(i) <= stackSize <= REGISTER_COUNT_MAX
      requires AllEncodable(a) && code[..pos] == before + Assemble(a)
      modifies this`code
      ensures Valid() && depth == (if Pushes(i) then stackSize + 1 else stackSize - Pops(i)) && |code| == |old(code)|
      ensures code[pos + Size(i)..] == old(code)[pos + Size(i)..] && AllEncodable(a + [Allocated(i, stackSize)])
      ensures code[..pos + Size(i)] == before + Assemble(a + [Allocated(i, stackSize)])
    {
      hide AllEncodable, Assemble, Encodable, Bytes, Opcode, Allocated, Pushes, Pops, Size, At;
      ghost var was := code;
      FirstByte(code, pos, i);
      RegisterOps(i);
      OperandInside(code, pos, i);
      var opcode := code[pos];
      depth := stackSize;
      if opcode == 27 || opcode == 42 {
        code := code[pos + 1 := depth];
        depth := depth + 1;
      } else if opcode == 43 || 22 <= opcode <= 24 {
        assert depth > 0;
        depth := depth - 1;
        code := code[pos + 1 := depth];
      } else if opcode == 25 || opcode == 26 {
        assert depth >= 2;
        depth := depth - 2;
        code := code[pos + 1 := depth];
      }
      RegisterWritten(was, code, pos, i, stackSize, before, a);
    }

    // ----- whole programs -----

    /** The loop that tries every start position. */
    method EmitPrefix(ghost header: seq<Byte>) returns (ok: bool)
      requires Valid() && code == header
      modifies this`space, this`code
      ensures Valid() && if ok then Wrote(code, header, SEARCH_PREFIX) && |code| == |old(code)| + 11 else TooLarge(|old(code)| + 11)
    {
      hide Wrote;
      NothingWritten();
      ok := Emit(Split(false, 1 + 5), header, []);
      assert [] + [Split(false, 6)] == [Split(false, 6)];
      if ok {
        ok := Emit(AnyChar, header, [Split(false, 6)]);
      }
      if ok {
        ok := Emit(Goto(-(5 + 1 + 5)), header, [Split(false, 6)] + [AnyChar]);
        assert [Split(false, 6)] + [AnyChar] + [Goto(-11)] == SEARCH_PREFIX;
      }
    }

    /** Everything behind the header, registers still to be numbered. */
    method EmitProgram(n: Pattern, sticky: bool, ghost header: seq<Byte>) returns (error: Option<Error>)
      requires Valid() && code == header && captureCount == 1
      modifies this
      ensures Valid()
      ensures error.None? ==> Wrote(code, header, ProgramCode(n, sticky, Unallocated)) && captureCount == 1 + Groups(n) && ClassesFit(n)
      ensures error == Some(TooManyCaptures) ==> 1 + Groups(n) > CAPTURE_COUNT_MAX
      ensures error == Some(TooManyRanges) ==> !ClassesFit(n)
      ensures error == Some(OutOfMemory) ==> TooLarge(|header| + 16 + Bulk(n, false))
      ensures error != Some(TooManyRegisters)
    {
      hide Wrote, Code, Groups, ClassesFit, ProgramCode, Bulk, Opening;
      var ok := EmitOpening(sticky, header);
      if !ok {
        return Some(OutOfMemory);
      }
      ghost var middle, c := code, Code(n, false, Unallocated, 1);
      error := EmitPattern(n, false);
      if error.Some? {
        return;
      }
      Joined(code, header, Opening(sticky), middle, c);
      ok := EmitClosing(header, Opening(sticky) + c);
      ProgramParts(n, sticky, Opening(sticky) + c);
      error := if ok then None else Some(OutOfMemory);
    }

    /** The search prefix and the start of group 0. */
    method EmitOpening(sticky: bool, ghost header: seq<Byte>) returns (ok: bool)
      requires Valid() && code == header
      modifies this`space, this`code
      ensures Valid() && if ok then Wrote(code, header, Opening(sticky)) && |code| <= |header| + 13 else TooLarge(|header| + 13)
    {
      hide Wrote;
      NothingWritten();
      ok := true;
      if !sticky {
        ok := EmitPrefix(header);
      }
      if ok {
        ok := Emit(SaveStart(0), header, if sticky then [] else SEARCH_PREFIX);
      }
    }

    /** The end of group 0 and the match. */
    method EmitClosing(ghost header: seq<Byte>, ghost c: seq<Instr>) returns (ok: bool)
      requires Valid() && Wrote(code, header, c)
      modifies this`space, this`code
      ensures Valid() && if ok then Wrote(code, header, c + [SaveEnd(0)] + [Accept]) && |code| == |old(code)| + 3
        else TooLarge(|old(code)| + 3)
    {
      hide Wrote;
      ok := Emit(SaveEnd(0), header, c);
      if ok {
        ok := Emit(Accept, header, c + [SaveEnd(0)]);
      }
    }

    /** Completes the header once everything is known. */
    method FillHeader(flags: nat, count: nat, ghost c: seq<Instr>)
      requires Valid() && flags < 0x1_0000 && count <= REGISTER_COUNT_MAX && AllEncodable(c)
      requires Wrote(code, U16(flags) + [0, 0] + U32(0), c) && |code| == HEADER_LEN + CodeSize(c)
      modifies this`code
      ensures Valid() && code == Header(flags, captureCount, count, CodeSize(c)) + Assemble(c) && CodeSize(c) <= SIZE_MAX
    {
      hide Assemble, AllEncodable, CodeSize, U16, U32;
      ghost var tail := Assemble(c);
      code := code[2 := captureCount][3 := count];
      var size := |code| - HEADER_LEN;
      assert code == U16(flags) + [captureCount, count] + U32(0) + tail;
      Store(4, U32(size));
      assert code == U16(flags) + [captureCount, count] + U32(size) + tail;
    }
  }

  // ----- what has been written -----

  lemma NothingWritten()
    ensures forall code: seq<Byte> :: Wrote(code, code, [])
    ensures CodeSize([]) == 0
  {
    AssembleNothing();
    forall code: seq<Byte> ensures Wrote(code, code, []) {
      assert code + [] == code;
    }
  }

  lemma CharacterParts(n: Regex, backward: bool, g: nat)
    requires IsCharacter(n)
    ensures Groups(n) == 0 && ClassesFit(n) == (n.Class? ==> |n.points| / 2 < 65535)
    ensures Bulk(n, backward) == Size(CharacterCode(n)) + Bytes2(backward)
    ensures Code(n, backward, Unallocated, g) == CharacterSteps(n, backward)
  {}

  lemma StepsOf(n: Regex, backward: bool)
    requires IsCharacter(n)
    ensures CharacterSteps(n, backward)
      == if backward then [] + [PrevChar] + [CharacterCode(n)] + [PrevChar] else [] + [CharacterCode(n)]
  {
    hide CharacterCode;
  }

  lemma TestParts(n: Pattern, backward: bool, g: nat)
    requires IsAssertion(n) || n.BackReference?
    ensures Encodable(TestCode(n, backward))
    ensures Groups(n) == 0 && ClassesFit(n) && Bulk(n, backward) == Size(TestCode(n, backward))
    ensures Code(n, backward, Unallocated, g) == [TestCode(n, backward)]
  {}

  /** The three pieces copied by way of the space behind the code. */
  lemma MovedTerm(code: seq<Byte>, moved: seq<Byte>, start: nat, termStart: nat)
    requires start <= termStart <= |code| && moved == code[..start + |code| - termStart] + code[start..]
    ensures var end, size := |code|, |code| - termStart;
      |moved| == end + size && moved[..start] == code[..start] && moved[end..end + size] == code[termStart..]
      && moved[start + size..end] == code[start..termStart]
  {}

  lemma Patched(was: seq<Byte>, code: seq<Byte>, start: seq<Byte>, jump: seq<Byte>, rest: seq<Byte>, operand: seq<Byte>)
    requires |jump| == 5 && |operand| == 4 && was == start + jump + rest && |code| == |was|
    requires var pos := |start| + 1;
      code[..pos] == was[..pos] && code[pos..pos + 4] == operand && code[pos + 4..] == was[pos + 4..]
    ensures code == start + (jump[..1] + operand) + rest
  {
    var pos := |start| + 1;
    assert was[..pos] == start + jump[..1];
    assert was[pos + 4..] == rest;
    assert code == code[..pos] + code[pos..pos + 4] + code[pos + 4..];
  }

  lemma GroupParts(n: Regex, backward: bool, g: nat)
    requires n.Group?
    ensures Groups(n) == 1 + Groups(n.body) && ClassesFit(n) == ClassesFit(n.body) && Bulk(n, backward) == Bulk(n.body, backward) + 4
    ensures Code(n, backward, Unallocated, g)
      == [SaveOpen(backward, g)] + Code(n.body, backward, Unallocated, g + 1) + [SaveClose(backward, g)]
  {
    hide Code;
    GroupCode(n, backward, Unallocated, g);
  }

  lemma LookParts(n: Regex, backward: bool, g: nat)
    requires n.Look?
    ensures Groups(n) == Groups(n.body) && ClassesFit(n) == ClassesFit(n.body) && Bulk(n, backward) == Bulk(n.body, n.behind) + 6
    ensures var c := Code(n.body, n.behind, Unallocated, g);
      Code(n, backward, Unallocated, g) == [LookOp(n.negated, CodeSize(c) + 1)] + (c + [LookAccept(n.negated)])
  {
    hide CodeSize, Code;
    LookCode(n, backward, Unallocated, g);
  }

  lemma CatParts(n: Regex, backward: bool, g: nat)
    requires n.Cat?
    ensures Groups(n) == Groups(n.left) + Groups(n.right) && ClassesFit(n) == (ClassesFit(n.left) && ClassesFit(n.right))
    ensures Bulk(n, backward) == Bulk(n.left, backward) + Bulk(n.right, backward) + if backward then Bulk(n.right, backward) else 0
    ensures var a, b := Code(n.left, backward, Unallocated, g), Code(n.right, backward, Unallocated, g + Groups(n.left));
      Code(n, backward, Unallocated, g) == if backward then b + a else a + b
  {
    hide Code;
    CatCode(n, backward, Unallocated, g);
  }

  lemma AltParts(n: Regex, backward: bool, g: nat)
    requires n.Alt?
    ensures Groups(n) == Groups(n.left) + Groups(n.right) && ClassesFit(n) == (ClassesFit(n.left) && ClassesFit(n.right))
    ensures Bulk(n, backward) == Bulk(n.left, backward) + Bulk(n.right, backward) + 10
    ensures var a, b := Code(n.left, backward, Unallocated, g), Code(n.right, backward, Unallocated, g + Groups(n.left));
      Code(n, backward, Unallocated, g) == [Split(true, CodeSize(a) + 5)] + a + [Goto(CodeSize(b))] + b
  {
    hide Code, CodeSize;
    AltCode(n, backward, Unallocated, g);
  }

  lemma QuantParts(n: Regex, backward: bool)
    requires n.Quant?
    ensures Groups(n) == Groups(n.atom) && ClassesFit(n) == ClassesFit(n.atom) && Bulk(n, backward) == Bulk(n.atom, backward) + 29
  {}

  lemma EmptyCode(code: seq<Byte>, backward: bool, g: nat)
    ensures Wrote(code, code, Code(Empty, backward, Unallocated, g)) && Groups(Empty) == 0 && ClassesFit(Empty) && Bulk(Empty, backward) == 0
  {
    NothingWritten();
  }

  lemma WrittenSize(code: seq<Byte>, before: seq<Byte>, c: seq<Instr>)
    requires Wrote(code, before, c)
    ensures |code| == |before| + CodeSize(c) && AllEncodable(c)
  {}

  lemma EncodableOne(i: Instr)
    requires Encodable(i)
    ensures AllEncodable([i])
  {}

  lemma SizeOfOne(i: Instr)
    ensures CodeSize([i]) == Size(i)
  {
    assert [i][1..] == [];
  }

  lemma Joined(code: seq<Byte>, before: seq<Byte>, a: seq<Instr>, middle: seq<Byte>, b: seq<Instr>)
    requires Wrote(middle, before, a) && Wrote(code, middle, b)
    ensures Wrote(code, before, a + b)
  {
    hide AllEncodable, Assemble;
    AssembleAppend(a, b);
  }

  /** After `len` bytes have been stored at `at`: the front is extended, and nothing changes from `end` on. */
  lemma Filled(was: seq<Byte>, code: seq<Byte>, at: nat, len: nat, end: nat)
    requires at + len <= end <= |code| == |was| && code[at + len..] == was[at + len..]
    ensures code[..at + len] == code[..at] + code[at..at + len] && code[end..] == was[end..]
  {
    assert code[at + len..][end - at - len..] == code[end..];
    assert was[at + len..][end - at - len..] == was[end..];
  }

  lemma LongerThan(code: seq<Byte>, before: seq<Byte>, c: seq<Instr>)
    requires Wrote(code, before, c)
    ensures |code| >= |before|
  {
    hide AllEncodable, Assemble;
  }

  /** Two blocks of code whose bytes have changed places. */
  lemma TermMoved(before: seq<Byte>, middle: seq<Byte>, was: seq<Byte>, code: seq<Byte>, a: seq<Instr>, b: seq<Instr>)
    requires Wrote(middle, before, a) && Wrote(was, middle, b)
    requires code == was[..|before|] + was[|middle|..] + was[|before|..|middle|]
    ensures Wrote(code, before, b + a)
  {
    hide AllEncodable, Assemble;
    assert was[..|before|] == before && was[|middle|..] == Assemble(b) && was[|before|..|middle|] == Assemble(a);
    AssembleAppend(b, a);
  }

  /** The first part of what was written, counted as already there. */
  ghost function Shift(code: seq<Byte>, before: seq<Byte>, a: seq<Instr>, b: seq<Instr>): (front: seq<Byte>)
    requires Wrote(code, before, a + b) && AllEncodable(a)
    ensures Wrote(front, before, a) && Wrote(code, front, b) && |front| == |before| + CodeSize(a)
    ensures code[..|front|] == front
  {
    ShiftedParts(code, before, a, b);
    before + Assemble(a)
  }

  lemma ShiftedParts(code: seq<Byte>, before: seq<Byte>, a: seq<Instr>, b: seq<Instr>)
    requires Wrote(code, before, a + b) && AllEncodable(a)
    ensures var front := before + Assemble(a);
      && Wrote(front, before, a) && Wrote(code, front, b) && |front| == |before| + CodeSize(a) && code[..|front|] == front
  {
    hide AllEncodable, Assemble, CodeSize;
    ShiftParts(a, b);
    AssembleAppend(a, b);
  }

  lemma ShiftParts(a: seq<Instr>, b: seq<Instr>)
    requires AllEncodable(a + b)
    ensures AllEncodable(a) && AllEncodable(b)
  {
    hide Encodable;
    forall k | 0 <= k < |a| ensures Encodable(a[k]) {
      assert a[k] == (a + b)[k];
    }
    forall k | 0 <= k < |b| ensures Encodable(b[k]) {
      assert b[k] == (a + b)[|a| + k];
    }
  }

  lemma WrittenTwo(code: seq<Byte>, before: seq<Byte>, a: seq<Instr>, b: seq<Instr>)
    requires Wrote(code, before, a + b)
    ensures AllEncodable(a) && AllEncodable(b)
  {
    ShiftParts(a, b);
  }

  lemma WrittenParts(code: seq<Byte>, before: seq<Byte>, a: seq<Instr>, i: Instr, b: seq<Instr>)
    requires Wrote(code, before, a + [i] + b)
    ensures AllEncodable(a) && Encodable(i) && AllEncodable(b)
  {
    ShiftParts(a + [i], b);
    ShiftParts(a, [i]);
    assert [i][0] == i;
  }

  /** What is emitted behind the capture reset of a quantifier whose minimum is 0. */
  function ZeroCode(body: seq<Instr>, checked: bool, max: nat, greedy: bool): seq<Instr> {
    if max == 0 then []
    else if max == 1 || max == INFINITE then OptionalShape(body, checked, 0, max == INFINITE, greedy)
    else
      var loop := CountedShape(body, checked, 0, 0, max, max, greedy);
      [Split(greedy, CodeSize(loop))] + loop
  }

  lemma QuantCode(n: Regex, backward: bool, g: nat)
    requires n.Quant?
    ensures var body, checked := LoopBody(n.atom, backward, Unallocated, g), Checked(n.atom, backward);
      Code(n, backward, Unallocated, g) ==
        if n.min == 0 then ResetCode(ResetsBefore(n.atom, backward), n.atom, g) + ZeroCode(body, checked, n.max, n.greedy)
        else if n.min == 1 && n.max == INFINITE && !checked then body + [Split(!n.greedy, -(CodeSize(body) + 5))]
        else if n.min >= n.max then [SetI32(0, n.max)] + body + [Loop(0, -(CodeSize(body) + 6))]
        else CountedShape(body, checked, 0, 0, n.max, n.max - n.min, n.greedy)
  {
    hide LoopBody, ScanOf, OptionalShape, CountedShape, CodeSize, ResetCode;
    var reset := ResetCode(ResetsBefore(n.atom, backward), n.atom, g);
    assert reset + [] == reset;
    var Quant(a, min, max, greedy) := n;
    var body, checked := LoopBody(a, backward, Unallocated, g), Checked(a, backward);
    if min == 0 && (max == 1 || max == INFINITE) {
      assert OptionalCode(a, backward, Unallocated, g, max == INFINITE, greedy) == ZeroCode(body, checked, max, greedy);
    } else if min == 0 && max != 0 {
      assert OptionalCountedCode(a, backward, Unallocated, g, max, greedy) == ZeroCode(body, checked, max, greedy);
    }
  }

  lemma BlockSizes(i: Instr, j: Instr, k: Instr)
    ensures CodeSize([i]) == Size(i) && CodeSize([i, j]) == CodeSize([i] + [j]) == Size(i) + Size(j)
    ensures CodeSize([i, j] + [k]) == Size(i) + Size(j) + Size(k)
  {
    hide Size;
    SizeOfOne(i);
    SizeOfOne(j);
    SizeOfOne(k);
    CodeSizeAppend([i], [j]);
    CodeSizeAppend([i] + [j], [k]);
    assert [i] + [j] == [i, j];
  }

  lemma CheckAppended(c: seq<Instr>, checked: bool)
    ensures !checked ==> c + CheckCode(checked, 0) == c
  {}

  /** What has been emitted for an optional atom, with or without the jump back, is its code. */
  lemma OptionalPieces(c: seq<Instr>, body: seq<Instr>, len: nat, checked: bool, repeat: bool, greedy: bool)
    requires len == CodeSize(body)
    requires c == [Split(greedy, len + 5 * Count(repeat) + 2 * 2 * Count(checked))] + SetPosCode(checked, 0) + body + CheckCode(checked, 0)
    ensures (if repeat then c + [Goto(-(CodeSize(c) + 5))] else c) == OptionalShape(body, checked, 0, repeat, greedy)
  {
    hide CodeSize;
    OptionalSizes(c[0], checked, body);
  }

  lemma OptionalSizes(split: Instr, checked: bool, body: seq<Instr>)
    requires split.Split?
    ensures CodeSize([split] + SetPosCode(checked, 0) + body + CheckCode(checked, 0)) == CodeSize(body) + 5 + 2 * Bytes2(checked)
  {
    hide CodeSize;
    var init, check := SetPosCode(checked, 0), CheckCode(checked, 0);
    SizeOfOne(split);
    SizeOfOne(SetCharPos(0));
    SizeOfOne(CheckAdvance(0));
    if !checked {
      AssembleNothing();
    }
    CodeSizeAppend([split] + init + body, check);
    CodeSizeAppend([split] + init, body);
    CodeSizeAppend([split], init);
  }

  /** The initialisation of a counted loop and its body. */
  lemma LoopSizes(block: seq<Instr>, body: seq<Instr>, checked: bool, max: nat)
    requires block == if checked then [SetI32(0, max)] + [SetCharPos(0)] else [SetI32(0, max)]
    ensures CodeSize(block + body) == 6 + Bytes2(checked) + CodeSize(body)
  {
    hide CodeSize;
    SizeOfOne(SetI32(0, max));
    SizeOfOne(SetCharPos(0));
    CodeSizeAppend(block, body);
    CodeSizeAppend([SetI32(0, max)], [SetCharPos(0)]);
  }

  /** The loop of an optional atom behind its `split`. */
  lemma CountedSizes(block: seq<Instr>, body: seq<Instr>, checked: bool, max: nat, limit: nat, greedy: bool)
    requires var init := [Split(greedy, 6 + 2 * Count(checked) + CodeSize(body) + 10), SetI32(0, max)];
      block == if checked then init + [SetCharPos(0)] else init
    ensures CodeSize(block + body) == 11 + Bytes2(checked) + CodeSize(body)
    ensures var loop := CountedShape(body, checked, 0, 0, max, limit, greedy);
      && CodeSize(loop) == 16 + Bytes2(checked) + CodeSize(body)
      && block + body + [LoopSplit(checked, !greedy, 0, limit, -(CodeSize(body) + 10 + Bytes2(checked)))]
         == [Split(greedy, CodeSize(loop))] + loop
  {
    hide CodeSize;
    var split := block[0];
    var pop := LoopSplit(checked, !greedy, 0, limit, -(CodeSize(body) + 10 + Bytes2(checked)));
    assert block == [split] + block[1..];
    assert block[1..] == if checked then [SetI32(0, max)] + [SetCharPos(0)] else [SetI32(0, max)];
    LoopSizes(block[1..], body, checked, max);
    SizeOfOne(split);
    SizeOfOne(pop);
    CodeSizeAppend([split], block[1..] + body);
    CodeSizeAppend(block[1..] + body, [pop]);
    assert [split] + (block[1..] + body) == block + body;
    assert block[1..] + body + [pop] == CountedShape(body, checked, 0, 0, max, limit, greedy);
  }

  // ----- numbering registers -----

  lemma NothingAllocated()
    ensures AllocatedCode([], 0) == [] && FinalDepth([], 0) == 0 && MaxDepth([], 0) == 0
  {}

  /** The opcodes the register pass tells apart. */
  lemma RegisterOps(i: Instr)
    ensures Pushes(i) <==> Opcode(i) == 27 || Opcode(i) == 42
    ensures Pops(i) == 1 <==> Opcode(i) == 43 || 22 <= Opcode(i) <= 24
    ensures Pops(i) == 2 <==> Opcode(i) == 25 || Opcode(i) == 26
    ensures Pops(i) <= 2
  {}

  lemma OperandInside(code: seq<Byte>, pos: nat, i: Instr)
    requires At(code, pos, i)
    ensures pos + Size(i) <= |code| && (Pushes(i) || Pops(i) != 0 ==> pos + 1 < |code|)
  {
    hide Bytes, Encodable;
  }

  /** One more instruction of the pass. */
  lemma AllocateNext(done: seq<Instr>, rest: seq<Instr>, depth: nat)
    requires rest != [] && depth == FinalDepth(done, 0) && StaysAbove(rest, depth, 0)
    ensures var i := rest[0]; var after := DepthAfter(i, depth); var more := done + [i];
      && 0 <= after && after == (if Pushes(i) then depth + 1 else depth - Pops(i))
      && StaysAbove(rest[1..], after, 0)
      && AllocatedCode(more, 0) == AllocatedCode(done, 0) + [Allocated(i, depth)]
      && FinalDepth(more, 0) == after
      && MaxDepth(more, 0) == Max(MaxDepth(done, 0), Max(depth, after))
      && after <= MaxDepth(done + rest, 0)
      && more + rest[1..] == done + rest
  {
    var i := rest[0];
    var more := done + [i];
    assert more + rest[1..] == done + rest;
    AllocateAppend(done, [i], 0, 0);
    AllocatesOne(i, depth);
    AllocateAppend(more, rest[1..], 0, 0);
    DepthBounds(rest[1..], DepthAfter(i, depth), 0);
  }

  /** Writing the register number into the byte behind the opcode encodes the allocated instruction. */
  lemma RegisterByte(was: seq<Byte>, code: seq<Byte>, pos: nat, i: Instr, depth: nat)
    requires At(was, pos, i) && Pops(i) <= depth <= 255
    requires (Pushes(i) || Pops(i) != 0) ==> code == was[pos + 1 := if Pushes(i) then depth else depth - Pops(i)]
    requires !(Pushes(i) || Pops(i) != 0) ==> code == was
    ensures Encodable(Allocated(i, depth)) && Size(Allocated(i, depth)) == Size(i) && |code| == |was|
    ensures code[pos..pos + Size(i)] == Bytes(Allocated(i, depth))
    ensures code[..pos] == was[..pos] && code[pos + Size(i)..] == was[pos + Size(i)..]
  {
    if Pushes(i) || Pops(i) != 0 {
      RegisterOperand(i, depth);
      var r := if Pushes(i) then depth else depth - Pops(i);
      assert code[pos..pos + Size(i)] == was[pos..pos + Size(i)][1 := r];
    }
  }

  lemma RegisterWritten(was: seq<Byte>, code: seq<Byte>, pos: nat, i: Instr, depth: nat, before: seq<Byte>, a: seq<Instr>)
    requires At(was, pos, i) && Pops(i) <= depth <= 255
    requires (Pushes(i) || Pops(i) != 0) ==> code == was[pos + 1 := if Pushes(i) then depth else depth - Pops(i)]
    requires !(Pushes(i) || Pops(i) != 0) ==> code == was
    requires AllEncodable(a) && was[..pos] == before + Assemble(a)
    ensures |code| == |was| && code[pos + Size(i)..] == was[pos + Size(i)..] && AllEncodable(a + [Allocated(i, depth)])
    ensures code[..pos + Size(i)] == before + Assemble(a + [Allocated(i, depth)])
  {
    hide Assemble, AllEncodable, Encodable, Bytes, Allocated, Pushes, Pops, Size;
    RegisterByte(was, code, pos, i, depth);
    var j := Allocated(i, depth);
    AssembleOne(j);
    AssembleAppend(a, [j]);
    assert code[..pos + Size(i)] == code[..pos] + code[pos..pos + Size(i)];
  }

  lemma RegisterOperand(i: Instr, depth: nat)
    requires Encodable(i) && (Pushes(i) || Pops(i) != 0) && Pops(i) <= depth <= 255
    ensures var r := if Pushes(i) then depth else depth - Pops(i);
      Encodable(Allocated(i, depth)) && Size(Allocated(i, depth)) == Size(i) >= 2 && Bytes(Allocated(i, depth)) == Bytes(i)[1 := r]
  {
    hide U32, I32;
  }

  function WithRel(i: Instr, rel: int): Instr
    requires i.Goto? || i.LookOp?
  {
    match i
    case Goto(_) => Goto(rel)
    case LookOp(negated, _) => LookOp(negated, rel)
  }

  lemma JumpBytes(i: Instr, rel: int)
    requires (i.Goto? || i.LookOp?) && Encodable(i) && IsInt32(rel)
    ensures Encodable(WithRel(i, rel)) && |Bytes(i)| == 5 && Bytes(WithRel(i, rel)) == Bytes(i)[..1] + I32(rel)
  {
    hide I32;
  }

  lemma ClassBytes(points: seq<nat>, icase: bool, wide: bool)
    requires Canonical(points) && 2 <= |points| && |points| / 2 < 65535 && wide == (TopBoundary(points) > 0xffff)
    ensures var i, bounds := ClassCode(points, icase), ClassBounds(points, wide);
      && Encodable(i) && Size(i) == 3 + (if wide then 4 else 2) * |points|
      && (forall k :: 0 <= k < |bounds| ==> bounds[k] < if wide then 0x1_0000_0000 else 0x1_0000)
      && Bytes(i) == [if wide then 38 + Bit(icase) else 36 + Bit(icase)] + U16(|points| / 2) + BoundBytes(bounds, wide)
  {
    hide Canonical, ClassBounds, U16s, U32s;
    BoundsFit(points, wide);
  }

  lemma BoundAt(points: seq<nat>, wide: bool, k: nat)
    requires Canonical(points) && 2 <= |points| && |points| / 2 < 65535 && wide == (TopBoundary(points) > 0xffff)
    requires k + 1 < |points| && k % 2 == 0
    ensures points[k + 1] != 0 && ClassBounds(points, wide)[k] == points[k]
    ensures var high := points[k + 1] - 1;
      ClassBounds(points, wide)[k + 1] == if !wide && high == UINT32_MAX - 1 then 0xffff else high
  {
    hide TopBoundary;
    assert points[k] < points[k + 1];
  }

  lemma NoBounds(bounds: seq<nat>, wide: bool)
    requires forall k :: 0 <= k < |bounds| ==> bounds[k] < if wide then 0x1_0000_0000 else 0x1_0000
    ensures BoundBytes(bounds[..0], wide) == []
  {
    assert bounds[..0] == [];
  }

  /** The inclusive bounds fit the width that was chosen. */
  lemma BoundsFit(points: seq<nat>, wide: bool)
    requires Canonical(points) && 2 <= |points| && |points| / 2 < 65535 && wide == (TopBoundary(points) > 0xffff)
    ensures forall k :: 0 <= k < |points| ==> ClassBounds(points, wide)[k] < if wide then 0x1_0000_0000 else 0x1_0000
    ensures forall k :: 0 <= k < |points| && k % 2 == 1 ==> points[k] != 0
    ensures Encodable(ClassCode(points, false)) && Encodable(ClassCode(points, true))
  {
    forall k | 0 <= k < |points| ensures ClassBounds(points, wide)[k] < if wide then 0x1_0000_0000 else 0x1_0000 {
      assert k < |points| - 1 ==> points[k] < points[|points| - 1];
      assert k < |points| - 2 ==> points[k] < points[|points| - 2];
      assert k % 2 == 1 ==> points[k - 1] < points[k];
    }
    forall k | 0 <= k < |points| && k % 2 == 1 ensures points[k] != 0 {
      assert points[k - 1] < points[k];
    }
  }

  function BoundBytes(bounds: seq<nat>, wide: bool): seq<Byte>
    requires forall k :: 0 <= k < |bounds| ==> bounds[k] < if wide then 0x1_0000_0000 else 0x1_0000
  {
    if wide then U32s(bounds) else U16s(bounds)
  }

  lemma U16sAppend(a: seq<nat>, b: seq<nat>)
    requires forall k :: 0 <= k < |a| ==> a[k] < 0x1_0000
    requires forall k :: 0 <= k < |b| ==> b[k] < 0x1_0000
    ensures U16s(a + b) == U16s(a) + U16s(b)
  {
    hide U16;
    if a == [] {
      assert a + b == b;
    } else {
      assert (a + b)[1..] == a[1..] + b;
      U16sAppend(a[1..], b);
    }
  }

  lemma U32sAppend(a: seq<nat>, b: seq<nat>)
    requires forall k :: 0 <= k < |a| ==> a[k] < 0x1_0000_0000
    requires forall k :: 0 <= k < |b| ==> b[k] < 0x1_0000_0000
    ensures U32s(a + b) == U32s(a) + U32s(b)
  {
    hide U32;
    if a == [] {
      assert a + b == b;
    } else {
      assert (a + b)[1..] == a[1..] + b;
      U32sAppend(a[1..], b);
    }
  }

  lemma BoundBytesAppend(bounds: seq<nat>, k: nat, wide: bool)
    requires forall k :: 0 <= k < |bounds| ==> bounds[k] < if wide then 0x1_0000_0000 else 0x1_0000
    requires k + 2 <= |bounds|
    ensures |BoundBytes(bounds[..k], wide)| == if wide then 4 * k else 2 * k
    ensures BoundBytes(bounds[..k + 2], wide) == BoundBytes(bounds[..k], wide)
      + if wide then U32(bounds[k]) + U32(bounds[k + 1]) else U16(bounds[k]) + U16(bounds[k + 1])
  {
    var pair := [bounds[k], bounds[k + 1]];
    assert bounds[..k + 2] == bounds[..k] + pair;
    assert pair[1..] == [bounds[k + 1]] && pair[1..][1..] == [];
    if wide {
      hide U32;
      U32sAppend(bounds[..k], pair);
      assert U32s(pair) == U32(bounds[k]) + U32s(pair[1..]) && U32s(pair[1..]) == U32(bounds[k + 1]) + U32s([]);
    } else {
      U16sAppend(bounds[..k], pair);
      assert U16s(pair) == U16(bounds[k]) + U16s(pair[1..]) && U16s(pair[1..]) == U16(bounds[k + 1]) + U16s([]);
    }
  }

  lemma AssembleNothing()
    ensures AllEncodable([]) && Assemble([]) == [] && CodeSize([]) == 0
  {}

  /** One more instruction of a block. */
  lemma StepSizes(block: seq<Instr>, k: nat)
    requires k < |block| && AllEncodable(block)
    ensures AllEncodable(block[..k]) && AllEncodable(block[..k + 1])
    ensures Assemble(block[..k + 1]) == Assemble(block[..k]) + Bytes(block[k])
    ensures CodeSize(block[..k + 1]) == CodeSize(block[..k]) + Size(block[k]) <= CodeSize(block)
  {
    hide Bytes, Encodable, CodeSize, Size, Assemble;
    var a, b, c := block[..k], [block[k]], block[k + 1..];
    assert block[..k + 1] == a + b;
    assert a + b + c == block;
    AssembleOne(block[k]);
    AssembleAppend(a, b);
    CodeSizeAppend(a, b);
    CodeSizeAppend(a + b, c);
  }

  lemma PieceAt(a: seq<Instr>, i: Instr, b: seq<Instr>)
    requires AllEncodable(a) && Encodable(i) && AllEncodable(b)
    ensures AllEncodable(a + [i] + b) && Assemble(a + [i] + b) == Assemble(a) + Bytes(i) + Assemble(b)
  {
    hide Bytes, Encodable, CodeSize, Assemble;
    AssembleOne(i);
    AssembleAppend(a, [i]);
    AssembleAppend(a + [i], b);
  }

  // ----- whole programs -----

  datatype Result = Ok(bytes: seq<Byte>) | Err(error: Error)

  predicate Sticky(flags: nat) {
    flags / 32 % 2 == 1
  }

  predicate Unicode(flags: nat) {
    flags / 16 % 2 == 1 || flags / 256 % 2 == 1
  }

  /** The flags, the number of captures and of registers, and the length of the code. */
  function Header(flags: nat, captures: nat, registers: nat, length: nat): (h: seq<Byte>)
    requires flags < 0x1_0000 && captures < 256 && registers < 256 && length < 0x1_0000_0000
    ensures |h| == HEADER_LEN
  {
    U16(flags) + [captures, registers] + U32(length)
  }

  /** `bytes` is the compiled form of `n`. */
  ghost predicate IsProgram(bytes: seq<Byte>, n: Regex, flags: nat) {
    var c := ProgramCode(n, Sticky(flags), From(0));
    && flags < 0x1_0000 && 1 + Groups(n) <= CAPTURE_COUNT_MAX && RegistersOf(n, false) <= REGISTER_COUNT_MAX
    && AllEncodable(c) && CodeSize(c) <= SIZE_MAX
    && bytes == Header(flags, 1 + Groups(n), RegistersOf(n, false), CodeSize(c)) + Assemble(c)
  }

  /** The second half of `lre_compile`: registers and header. */
  method Finish(s: Emitter, n: Pattern, flags: nat) returns (r: Result)
    requires s.Valid() && flags < 0x1_0000 && s.captureCount == 1 + Groups(n)
    requires Wrote(s.code, U16(flags) + [0, 0] + U32(0), ProgramCode(n, Sticky(flags), Unallocated))
    modifies s
    ensures if r.Ok? then IsProgram(r.bytes, n, flags)
      else r == Err(TooManyRegisters) && RegistersOf(n, false) > REGISTER_COUNT_MAX
  {
    hide AllEncodable, Assemble, CodeSize, ProgramCode, Groups, RegistersOf, U16, U32, Header, Sticky, Wrote,
         Encodable, AllocatedCode, StaysAbove;
    ghost var header := U16(flags) + [0, 0] + U32(0);
    AllocatesProgram(n, Sticky(flags));
    var count := s.ComputeRegisterCount(header, ProgramCode(n, Sticky(flags), Unallocated));
    if count.None? {
      return Err(TooManyRegisters);
    }
    ghost var c := ProgramCode(n, Sticky(flags), From(0));
    WrittenSize(s.code, header, c);
    s.FillHeader(flags, count.value, c);
    r := Ok(s.code);
  }

  /** `lre_compile` on a parsed pattern. */
  method Compile(n: Pattern, flags: nat) returns (r: Result)
    requires flags < 0x1_0000
    ensures r.Ok? ==> IsProgram(r.bytes, n, flags) && ClassesFit(n)
    ensures r == Err(TooManyCaptures) ==> 1 + Groups(n) > CAPTURE_COUNT_MAX
    ensures r == Err(TooManyRanges) ==> !ClassesFit(n)
    ensures r == Err(TooManyRegisters) ==> RegistersOf(n, false) > REGISTER_COUNT_MAX
    ensures r == Err(OutOfMemory) ==> TooLarge(24 + Bulk(n, false))
  {
    hide AllEncodable, Assemble, CodeSize, Bulk, ProgramCode, Groups, ClassesFit, RegistersOf, U16, U32, Sticky, Wrote, IsProgram;
    var s := new Emitter();
    var header := U16(flags) + [0, 0] + U32(0);
    var ok := s.Put(header);
    if !ok {
      return Err(OutOfMemory);
    }
    assert s.code == header;
    var error := s.EmitProgram(n, Sticky(flags), header);
    if error.Some? {
      return Err(error.value);
    }
    r := Finish(s, n, flags);
  }

  /** What precedes the code of the pattern. */
  function Opening(sticky: bool): seq<Instr> {
    (if sticky then [] else SEARCH_PREFIX) + [SaveStart(0)]
  }

  lemma ProgramParts(n: Regex, sticky: bool, c: seq<Instr>)
    requires c == Opening(sticky) + Code(n, false, Unallocated, 1)
    ensures c + [SaveEnd(0)] + [Accept] == ProgramCode(n, sticky, Unallocated)
  {
    hide Code;
  }
}
