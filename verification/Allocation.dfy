/** Register allocation: one linear pass that treats the registers as a stack. */
module Allocation {
  import opened Options
  import opened RegexSyntax
  import opened Bytecode
  import opened Codegen

  predicate Pushes(i: Instr) {
    i.SetI32? || i.SetCharPos?
  }

  /** How many registers a loop or check opcode frees. */
  function Pops(i: Instr): nat {
    if i.CheckAdvance? || i.Loop? then 1 else if i.LoopSplit? then if i.checked then 2 else 1 else 0
  }

  function DepthAfter(i: Instr, depth: int): int {
    if Pushes(i) then depth + 1 else depth - Pops(i)
  }

  /** The instruction with its register: the next free one for a push, the lowest freed one for a pop. */
  function Allocated(i: Instr, depth: int): Instr {
    if Pushes(i) || Pops(i) != 0 then
      var r := if Pushes(i) then depth else depth - Pops(i);
      if r < 0 then i else i.(r := r)
    else i
  }

  function AllocatedCode(code: seq<Instr>, depth: int): (r: seq<Instr>)
    ensures |r| == |code|
  {
    if code == [] then [] else [Allocated(code[0], depth)] + AllocatedCode(code[1..], DepthAfter(code[0], depth))
  }

  function FinalDepth(code: seq<Instr>, depth: int): int {
    if code == [] then depth else FinalDepth(code[1..], DepthAfter(code[0], depth))
  }

  function MaxDepth(code: seq<Instr>, depth: int): int {
    if code == [] then depth
    else
      var rest := MaxDepth(code[1..], DepthAfter(code[0], depth));
      if depth < rest then rest else depth
  }

  /** The depth never drops below `floor`: no opcode pops a register of an enclosing loop. */
  predicate StaysAbove(code: seq<Instr>, depth: int, floor: int) {
    floor <= depth && (code != [] ==> StaysAbove(code[1..], DepthAfter(code[0], depth), floor))
  }

  lemma {:induction false} AllocateAppend(a: seq<Instr>, b: seq<Instr>, depth: int, floor: int)
    ensures AllocatedCode(a + b, depth) == AllocatedCode(a, depth) + AllocatedCode(b, FinalDepth(a, depth))
    ensures FinalDepth(a + b, depth) == FinalDepth(b, FinalDepth(a, depth))
    ensures MaxDepth(a + b, depth) ==
      var x, y := MaxDepth(a, depth), MaxDepth(b, FinalDepth(a, depth)); if x < y then y else x
    ensures StaysAbove(a + b, depth, floor) == (StaysAbove(a, depth, floor) && StaysAbove(b, FinalDepth(a, depth), floor))
    decreases a
  {
    if a == [] {
      assert a + b == b;
      DepthBounds(b, depth, floor);
    } else {
      assert (a + b)[1..] == a[1..] + b;
      hide Allocated, DepthAfter;
      AllocateAppend(a[1..], b, DepthAfter(a[0], depth), floor);
    }
  }

  lemma {:induction false} DepthBounds(code: seq<Instr>, depth: int, floor: int)
    ensures depth <= MaxDepth(code, depth)
    ensures StaysAbove(code, depth, floor) ==> floor <= depth
  {
    if code != [] {
    }
  }

  /** The effect of the pass on a block: it turns `code` into `result`, ends at depth `final`, needs `used`
      registers and never touches those below `floor`. */
  ghost predicate Allocates(code: seq<Instr>, depth: nat, floor: nat, result: seq<Instr>, final: int, used: nat) {
    && StaysAbove(code, depth, floor)
    && AllocatedCode(code, depth) == result
    && FinalDepth(code, depth) == final
    && MaxDepth(code, depth) == depth + used
    && CodeSize(result) == CodeSize(code)
  }

  lemma AllocatesOne(i: Instr, depth: nat)
    ensures AllocatedCode([i], depth) == [Allocated(i, depth)] && FinalDepth([i], depth) == DepthAfter(i, depth)
    ensures MaxDepth([i], depth) == if DepthAfter(i, depth) > depth then DepthAfter(i, depth) else depth
    ensures CodeSize([i]) == Size(i) && Size(Allocated(i, depth)) == Size(i)
    ensures forall floor :: floor <= depth && floor <= DepthAfter(i, depth) ==> StaysAbove([i], depth, floor)
  {
    assert [i][1..] == [];
  }

  lemma {:induction false} LowerFloor(code: seq<Instr>, depth: int, floor: int, floor': int)
    requires StaysAbove(code, depth, floor) && floor' <= floor
    ensures StaysAbove(code, depth, floor')
    decreases code
  {
    if code != [] {
      LowerFloor(code[1..], DepthAfter(code[0], depth), floor, floor');
    }
  }

  lemma AllocatesThen(a: seq<Instr>, b: seq<Instr>, depth: nat, floor: nat, a': seq<Instr>, b': seq<Instr>, middle: nat, final: int, u: nat, v: nat)
    requires Allocates(a, depth, floor, a', middle, u) && Allocates(b, middle, floor, b', final, v)
    ensures Allocates(a + b, depth, floor, a' + b', final, if depth + u < middle + v then middle + v - depth else u)
  {
    AllocateAppend(a, b, depth, floor);
    CodeSizeAppend(a, b);
    CodeSizeAppend(a', b');
  }

  // ----- the code of a pattern -----

  /** A block that leaves the depth as it found it and needs `used` registers from there. */
  ghost predicate Balanced(code: seq<Instr>, depth: nat, result: seq<Instr>, used: nat) {
    Allocates(code, depth, depth, result, depth, used)
  }

  lemma BalancedBoth(a: seq<Instr>, b: seq<Instr>, depth: nat, a': seq<Instr>, b': seq<Instr>, u: nat, v: nat)
    requires Balanced(a, depth, a', u) && Balanced(b, depth, b', v)
    ensures Balanced(a + b, depth, a' + b', Max(u, v))
  {
    AllocatesThen(a, b, depth, depth, a', b', depth, depth, u, v);
  }

  predicate Plain(i: Instr) {
    !Pushes(i) && Pops(i) == 0
  }

  lemma BalancedOne(i: Instr, depth: nat)
    requires Plain(i)
    ensures Balanced([i], depth, [i], 0)
  {
    AllocatesOne(i, depth);
    AllocatesOne(Allocated(i, depth), depth);
  }

  lemma BalancedNone(depth: nat)
    ensures Balanced([], depth, [], 0)
  {}

  lemma BalancedBracket(i: Instr, c: seq<Instr>, j: Instr, depth: nat, c': seq<Instr>, u: nat)
    requires Plain(i) && Plain(j) && Balanced(c, depth, c', u)
    ensures Balanced([i] + c + [j], depth, [i] + c' + [j], u)
  {
    hide Balanced;
    BalancedOne(i, depth);
    BalancedOne(j, depth);
    BalancedBoth([i], c, depth, [i], c', 0, u);
    BalancedBoth([i] + c, [j], depth, [i] + c', [j], u, 0);
  }

  /** A push, a block above it and the pops that free it again. */
  lemma BalancedLoop(push: Instr, c: seq<Instr>, pop: Instr, depth: nat, c': seq<Instr>, u: nat)
    requires Pushes(push) && Pops(pop) == 1 && !Pushes(pop) && Balanced(c, depth + 1, c', u)
    ensures Balanced([push] + c + [pop], depth, [Allocated(push, depth)] + c' + [Allocated(pop, depth + 1)], 1 + u)
  {
    hide AllocatedCode, FinalDepth, MaxDepth, CodeSize, Size, StaysAbove;
    AllocatesOne(push, depth);
    AllocatesOne(pop, depth + 1);
    AllocatesOne(Allocated(push, depth), depth);
    AllocatesOne(Allocated(pop, depth + 1), depth);
    LowerFloor(c, depth + 1, depth + 1, depth);
    AllocatesThen([push], c, depth, depth, [Allocated(push, depth)], c', depth + 1, depth + 1, 1, u);
    AllocatesThen([push] + c, [pop], depth, depth, [Allocated(push, depth)] + c', [Allocated(pop, depth + 1)],
                  depth + 1, depth, 1 + u, 0);
  }

  /** Two pushes freed by one opcode. */
  lemma BalancedPair(push: Instr, push': Instr, c: seq<Instr>, pop: Instr, depth: nat, c': seq<Instr>, u: nat)
    requires Pushes(push) && Pushes(push') && Pops(pop) == 2 && !Pushes(pop) && Balanced(c, depth + 2, c', u)
    ensures Balanced([push] + [push'] + c + [pop], depth,
                     [Allocated(push, depth)] + [Allocated(push', depth + 1)] + c' + [Allocated(pop, depth + 2)], 2 + u)
  {
    hide AllocatedCode, FinalDepth, MaxDepth, CodeSize, Size, StaysAbove;
    var p, q, r := Allocated(push, depth), Allocated(push', depth + 1), Allocated(pop, depth + 2);
    AllocatesOne(push, depth);
    AllocatesOne(push', depth + 1);
    AllocatesOne(pop, depth + 2);
    AllocatesOne(p, depth);
    AllocatesOne(q, depth);
    AllocatesOne(r, depth);
    LowerFloor(c, depth + 2, depth + 2, depth);
    AllocatesThen([push], [push'], depth, depth, [p], [q], depth + 1, depth + 2, 1, 1);
    AllocatesThen([push] + [push'], c, depth, depth, [p] + [q], c', depth + 2, depth + 2, 2, u);
    AllocatesThen([push] + [push'] + c, [pop], depth, depth, [p] + [q] + c', [r], depth + 2, depth, 2 + u, 0);
  }

  /** The pass turns the code emitted for `n` into the code that uses the registers from `r` on, leaves
      none allocated and never needs more than RegistersOf(n). */
  lemma {:induction false} AllocatesPattern(n: Pattern, backward: bool, g: nat, r: nat)
    ensures Balanced(Code(n, backward, Unallocated, g), r, Code(n, backward, From(r), g), RegistersOf(n, backward))
    decreases n, 1
  {
    hide Balanced, CodeSize, ScanOf;
    match n
    case Empty => BalancedNone(r);
    case Char(_, _) => AllocatesCharacter(n, backward, r);
    case Dot(_) => AllocatesCharacter(n, backward, r);
    case Space(_) => AllocatesCharacter(n, backward, r);
    case Class(_, _) => AllocatesCharacter(n, backward, r);
    case LineStart(_) => BalancedOne(TestCode(n, backward), r);
    case LineEnd(_) => BalancedOne(TestCode(n, backward), r);
    case WordBoundary(_, _) => BalancedOne(TestCode(n, backward), r);
    case BackReference(_, _) => BalancedOne(TestCode(n, backward), r);
    case Group(_) => AllocatesGroup(n, backward, g, r);
    case Look(_, _, _) => AllocatesLook(n, backward, g, r);
    case Cat(_, _) => AllocatesCat(n, backward, g, r);
    case Alt(_, _) => AllocatesAlt(n, backward, g, r);
    case Quant(_, _, _, _) => AllocatesQuant(n, backward, g, r);
  }

  lemma AllocatesCharacter(n: Pattern, backward: bool, r: nat)
    requires IsCharacter(n)
    ensures Balanced(CharacterSteps(n, backward), r, CharacterSteps(n, backward), 0)
  {
    hide Balanced;
    var i := CharacterCode(n);
    BalancedOne(i, r);
    if backward {
      assert CharacterSteps(n, backward) == [PrevChar] + [i] + [PrevChar];
      BalancedBracket(PrevChar, [i], PrevChar, r, [i], 0);
    }
  }

  lemma {:induction false} AllocatesGroup(n: Pattern, backward: bool, g: nat, r: nat)
    requires n.Group?
    ensures Balanced(Code(n, backward, Unallocated, g), r, Code(n, backward, From(r), g), RegistersOf(n, backward))
    decreases n, 0
  {
    hide Balanced, CodeSize;
    AllocatesPattern(n.body, backward, g + 1, r);
    BalancedBracket(SaveOpen(backward, g), Code(n.body, backward, Unallocated, g + 1), SaveClose(backward, g),
                    r, Code(n.body, backward, From(r), g + 1), RegistersOf(n.body, backward));
  }

  lemma BalancedSize(c: seq<Instr>, depth: nat, c': seq<Instr>, u: nat)
    requires Balanced(c, depth, c', u)
    ensures CodeSize(c) == CodeSize(c')
  {}

  lemma {:induction false} AllocatesLook(n: Pattern, backward: bool, g: nat, r: nat)
    requires n.Look?
    ensures Balanced(Code(n, backward, Unallocated, g), r, Code(n, backward, From(r), g), RegistersOf(n, backward))
    decreases n, 0
  {
    hide Balanced, CodeSize;
    var c, c' := Code(n.body, n.behind, Unallocated, g), Code(n.body, n.behind, From(r), g);
    AllocatesPattern(n.body, n.behind, g, r);
    BalancedSize(c, r, c', RegistersOf(n.body, n.behind));
    BalancedBracket(LookOp(n.negated, CodeSize(c) + 1), c, LookAccept(n.negated), r, c', RegistersOf(n.body, n.behind));
  }

  lemma {:induction false} AllocatesCat(n: Pattern, backward: bool, g: nat, r: nat)
    requires n.Cat?
    ensures Balanced(Code(n, backward, Unallocated, g), r, Code(n, backward, From(r), g), RegistersOf(n, backward))
    decreases n, 0
  {
    hide Balanced, CodeSize, Groups, Code;
    var k := g + Groups(n.left);
    CatCode(n, backward, Unallocated, g);
    CatCode(n, backward, From(r), g);
    AllocatesPattern(n.left, backward, g, r);
    AllocatesPattern(n.right, backward, k, r);
    var a, a' := Code(n.left, backward, Unallocated, g), Code(n.left, backward, From(r), g);
    var b, b' := Code(n.right, backward, Unallocated, k), Code(n.right, backward, From(r), k);
    var u, v := RegistersOf(n.left, backward), RegistersOf(n.right, backward);
    if backward {
      BalancedBoth(b, a, r, b', a', v, u);
    } else {
      BalancedBoth(a, b, r, a', b', u, v);
    }
  }

  lemma {:induction false} AllocatesAlt(n: Pattern, backward: bool, g: nat, r: nat)
    requires n.Alt?
    ensures Balanced(Code(n, backward, Unallocated, g), r, Code(n, backward, From(r), g), RegistersOf(n, backward))
    decreases n, 0
  {
    hide Balanced, CodeSize, Groups, Code;
    var k := g + Groups(n.left);
    AltCode(n, backward, Unallocated, g);
    AltCode(n, backward, From(r), g);
    AllocatesPattern(n.left, backward, g, r);
    AllocatesPattern(n.right, backward, k, r);
    var a, a' := Code(n.left, backward, Unallocated, g), Code(n.left, backward, From(r), g);
    var b, b' := Code(n.right, backward, Unallocated, k), Code(n.right, backward, From(r), k);
    var u, v := RegistersOf(n.left, backward), RegistersOf(n.right, backward);
    BalancedSize(a, r, a', u);
    BalancedSize(b, r, b', v);
    var split, jump := Split(true, CodeSize(a) + 5), Goto(CodeSize(b));
    BalancedBracket(split, a, jump, r, a', u);
    BalancedBoth([split] + a + [jump], b, r, [split] + a' + [jump], b', u, v);
  }

  lemma BalancedReset(needed: bool, a: Regex, g: nat, r: nat)
    ensures Balanced(ResetCode(needed, a, g), r, ResetCode(needed, a, g), 0)
  {
    if needed && Groups(a) != 0 {
      BalancedOne(SaveReset(g, g + Groups(a) - 1), r);
    }
  }

  lemma {:induction false} AllocatesBody(a: Pattern, backward: bool, g: nat, r: nat)
    ensures Balanced(LoopBody(a, backward, Unallocated, g), r, LoopBody(a, backward, From(r), g), RegistersOf(a, backward))
    decreases a, 2
  {
    hide Balanced, Groups, ScanOf, ResetCode;
    AllocatesPattern(a, backward, g, r);
    var needed := ResetsInside(a, backward);
    BalancedReset(needed, a, g, r);
    var reset := ResetCode(needed, a, g);
    BalancedBoth(reset, Code(a, backward, Unallocated, g), r, reset, Code(a, backward, From(r), g), 0, RegistersOf(a, backward));
  }

  /** The body of an optional atom between its zero-advance opcodes, when it has them. */
  lemma AllocatesGuarded(c: seq<Instr>, c': seq<Instr>, checked: bool, r: nat, u: nat)
    requires Balanced(c, r + Count(checked), c', u)
    ensures Balanced(SetPosCode(checked, 0) + c + CheckCode(checked, 0), r,
                     SetPosCode(checked, r) + c' + CheckCode(checked, r), Count(checked) + u)
  {
    hide Balanced;
    if checked {
      BalancedLoop(SetCharPos(0), c, CheckAdvance(0), r, c', u);
    } else {
      assert SetPosCode(checked, 0) + c + CheckCode(checked, 0) == c;
      assert SetPosCode(checked, r) + c' + CheckCode(checked, r) == c';
    }
  }

  lemma AllocatesOptional(c: seq<Instr>, c': seq<Instr>, checked: bool, r: nat, repeat: bool, greedy: bool, u: nat)
    requires Balanced(c, r + Count(checked), c', u)
    ensures Balanced(OptionalShape(c, checked, 0, repeat, greedy), r, OptionalShape(c', checked, r, repeat, greedy), Count(checked) + u)
  {
    hide Balanced, CodeSize, SetPosCode, CheckCode, Bytes2;
    BalancedSize(c, r + Count(checked), c', u);
    var size := CodeSize(c) + 2 * Bytes2(checked);
    var split := Split(greedy, size + if repeat then 5 else 0);
    var jump := if repeat then [Goto(-(size + 10))] else [];
    var loop := SetPosCode(checked, 0) + c + CheckCode(checked, 0);
    var loop' := SetPosCode(checked, r) + c' + CheckCode(checked, r);
    AllocatesGuarded(c, c', checked, r, u);
    BalancedOne(split, r);
    if repeat {
      BalancedOne(Goto(-(size + 10)), r);
    } else {
      BalancedNone(r);
    }
    var used := Count(checked) + u;
    BalancedBoth([split], loop, r, [split], loop', 0, used);
    BalancedBoth([split] + loop, jump, r, [split] + loop', jump, used, 0);
    assert OptionalShape(c, checked, 0, repeat, greedy) == [split] + loop + jump;
    assert OptionalShape(c', checked, r, repeat, greedy) == [split] + loop' + jump;
  }

  lemma AllocatesCounted(c: seq<Instr>, c': seq<Instr>, checked: bool, r: nat, max: nat, limit: nat, greedy: bool, u: nat)
    requires Balanced(c, r + 1 + Count(checked), c', u)
    ensures Balanced(CountedShape(c, checked, 0, 0, max, limit, greedy), r,
                     CountedShape(c', checked, r, r + 1, max, limit, greedy), 1 + Count(checked) + u)
  {
    hide Balanced, CodeSize;
    BalancedSize(c, r + 1 + Count(checked), c', u);
    var pop := LoopSplit(checked, !greedy, 0, limit, -(CodeSize(c) + 10 + Bytes2(checked)));
    if checked {
      BalancedPair(SetI32(0, max), SetCharPos(0), c, pop, r, c', u);
    } else {
      BalancedLoop(SetI32(0, max), c, pop, r, c', u);
      assert CountedShape(c, checked, 0, 0, max, limit, greedy) == [SetI32(0, max)] + c + [pop];
      assert CountedShape(c', checked, r, r + 1, max, limit, greedy) == [SetI32(r, max)] + c' + [Allocated(pop, r + 1)];
    }
  }

  lemma {:induction false} AllocatesQuant(n: Pattern, backward: bool, g: nat, r: nat)
    requires n.Quant?
    ensures Balanced(Code(n, backward, Unallocated, g), r, Code(n, backward, From(r), g), RegistersOf(n, backward))
    decreases n, 0
  {
    hide Balanced, CodeSize, ScanOf, OptionalShape, CountedShape, LoopBody, ResetCode;
    var Quant(a, min, max, greedy) := n;
    var checked, u := Checked(a, backward), RegistersOf(a, backward);
    if min == 0 {
      BalancedReset(ResetsBefore(a, backward), a, g, r);
      var reset := ResetCode(ResetsBefore(a, backward), a, g);
      if max == 1 || max == INFINITE {
        var k := Count(checked);
        AllocatesBody(a, backward, g, r + k);
        var c, c' := LoopBody(a, backward, Unallocated, g), LoopBody(a, backward, From(r + k), g);
        var repeat := max == INFINITE;
        AllocatesOptional(c, c', checked, r, repeat, greedy, u);
        BalancedBoth(reset, OptionalShape(c, checked, 0, repeat, greedy), r,
                     reset, OptionalShape(c', checked, r, repeat, greedy), 0, k + u);
      } else if max != 0 {
        AllocatesOptionalCounted(n, backward, g, r);
        BalancedBoth(reset, OptionalCountedCode(a, backward, Unallocated, g, max, greedy), r,
                     reset, OptionalCountedCode(a, backward, From(r), g, max, greedy), 0, 1 + Count(checked) + u);
      }
    } else if min == 1 && max == INFINITE && !checked {
      AllocatesPlus(a, backward, g, greedy, r);
    } else if min >= max {
      AllocatesExact(a, backward, g, max, r);
    } else {
      var k := 1 + Count(checked);
      AllocatesBody(a, backward, g, r + k);
      AllocatesCounted(LoopBody(a, backward, Unallocated, g), LoopBody(a, backward, From(r + k), g),
                       checked, r, max, max - min, greedy, u);
    }
  }

  lemma {:induction false} AllocatesOptionalCounted(n: Pattern, backward: bool, g: nat, r: nat)
    requires n.Quant?
    ensures Balanced(OptionalCountedCode(n.atom, backward, Unallocated, g, n.max, n.greedy), r,
                     OptionalCountedCode(n.atom, backward, From(r), g, n.max, n.greedy),
                     1 + Count(Checked(n.atom, backward)) + RegistersOf(n.atom, backward))
    decreases n.atom, 3
  {
    hide Balanced, CodeSize, Checked, CountedShape, LoopBody;
    var a, max, greedy := n.atom, n.max, n.greedy;
    var checked := Checked(a, backward);
    var k, u := 1 + Count(checked), RegistersOf(a, backward);
    AllocatesBody(a, backward, g, r + k);
    var c, c' := LoopBody(a, backward, Unallocated, g), LoopBody(a, backward, From(r + k), g);
    AllocatesCounted(c, c', checked, r, max, max, greedy, u);
    var loop, loop' := CountedShape(c, checked, 0, 0, max, max, greedy), CountedShape(c', checked, r, r + 1, max, max, greedy);
    BalancedSize(loop, r, loop', k + u);
    var split := Split(greedy, CodeSize(loop));
    BalancedOne(split, r);
    BalancedBoth([split], loop, r, [split], loop', 0, k + u);
  }

  lemma {:induction false} AllocatesPlus(a: Pattern, backward: bool, g: nat, greedy: bool, r: nat)
    ensures Balanced(PlusCode(a, backward, Unallocated, g, greedy), r, PlusCode(a, backward, From(r), g, greedy), RegistersOf(a, backward))
    decreases a, 3
  {
    hide Balanced, CodeSize, LoopBody, Code, RegistersOf;
    AllocatesBody(a, backward, g, r);
    var c, c', u := LoopBody(a, backward, Unallocated, g), LoopBody(a, backward, From(r), g), RegistersOf(a, backward);
    BalancedSize(c, r, c', u);
    var split := Split(!greedy, -(CodeSize(c) + 5));
    BalancedOne(split, r);
    BalancedBoth(c, [split], r, c', [split], u, 0);
  }

  lemma {:induction false} AllocatesExact(a: Pattern, backward: bool, g: nat, max: nat, r: nat)
    ensures Balanced(ExactCode(a, backward, Unallocated, g, max), r, ExactCode(a, backward, From(r), g, max), 1 + RegistersOf(a, backward))
    decreases a, 3
  {
    hide Balanced, CodeSize, LoopBody, Code, RegistersOf;
    AllocatesBody(a, backward, g, r + 1);
    var c, c', u := LoopBody(a, backward, Unallocated, g), LoopBody(a, backward, From(r + 1), g), RegistersOf(a, backward);
    BalancedSize(c, r + 1, c', u);
    BalancedLoop(SetI32(0, max), c, Loop(0, -(CodeSize(c) + 6)), r, c', u);
  }

  /** The same for a whole program: the pass assigns registers from 0 on and its maximum bounds them all. */
  lemma AllocatesProgram(n: Pattern, sticky: bool)
    ensures var c := ProgramCode(n, sticky, Unallocated);
      && StaysAbove(c, 0, 0)
      && AllocatedCode(c, 0) == ProgramCode(n, sticky, From(0))
      && MaxDepth(c, 0) == RegistersOf(n, false)
  {
    hide Balanced, Code;
    var prefix := if sticky then [] else SEARCH_PREFIX;
    var c, c' := Code(n, false, Unallocated, 1), Code(n, false, From(0), 1);
    AllocatesPrefix(sticky);
    AllocatesPattern(n, false, 1, 0);
    BalancedOne(SaveStart(0), 0);
    BalancedOne(SaveEnd(0), 0);
    BalancedOne(Accept, 0);
    var u := RegistersOf(n, false);
    BalancedBoth(prefix, [SaveStart(0)], 0, prefix, [SaveStart(0)], 0, 0);
    BalancedBoth(prefix + [SaveStart(0)], c, 0, prefix + [SaveStart(0)], c', 0, u);
    BalancedBoth([SaveEnd(0)], [Accept], 0, [SaveEnd(0)], [Accept], 0, 0);
    BalancedBoth(prefix + [SaveStart(0)] + c, [SaveEnd(0)] + [Accept], 0, prefix + [SaveStart(0)] + c', [SaveEnd(0)] + [Accept], u, 0);
    assert [SaveEnd(0)] + [Accept] == [SaveEnd(0), Accept];
    BalancedMeans(ProgramCode(n, sticky, Unallocated), 0, ProgramCode(n, sticky, From(0)), u);
  }

  lemma BalancedMeans(c: seq<Instr>, depth: nat, c': seq<Instr>, u: nat)
    requires Balanced(c, depth, c', u)
    ensures StaysAbove(c, depth, depth) && AllocatedCode(c, depth) == c' && MaxDepth(c, depth) == depth + u
  {}

  lemma AllocatesPrefix(sticky: bool)
    ensures var prefix := if sticky then [] else SEARCH_PREFIX; Balanced(prefix, 0, prefix, 0)
  {
    hide Balanced;
    if sticky {
      BalancedNone(0);
    } else {
      BalancedOne(AnyChar, 0);
      BalancedBracket(Split(false, 6), [AnyChar], Goto(-11), 0, [AnyChar], 0);
      assert [Split(false, 6)] + [AnyChar] + [Goto(-11)] == SEARCH_PREFIX;
    }
  }
}
