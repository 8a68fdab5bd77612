/** Where the pieces of a composite pattern's code lie, and what its outcomes are made of. */
module Layout {
  import opened Subject
  import opened Options
  import opened RegexSyntax
  import opened Bytecode
  import opened Codegen
  import opened EcmaMatcher
  import opened OutcomeLists

  lemma HasCodeFirst(prog: Program, pc: int, i: Instr, rest: seq<Instr>)
    requires HasCode(prog, pc, [i] + rest)
    ensures prog(pc) == Some(i) && HasCode(prog, pc + Size(i), rest)
    ensures CodeSize([i] + rest) == Size(i) + CodeSize(rest)
  {
    assert ([i] + rest)[1..] == rest;
  }

  lemma HasCodeLast(prog: Program, pc: int, rest: seq<Instr>, i: Instr)
    requires HasCode(prog, pc, rest + [i])
    ensures HasCode(prog, pc, rest) && prog(pc + CodeSize(rest)) == Some(i)
    ensures CodeSize(rest + [i]) == CodeSize(rest) + Size(i)
  {
    HasCodeAppend(prog, pc, rest, [i]);
    CodeSizeAppend(rest, [i]);
    assert CodeSize([i]) == Size(i) by { assert [i][1..] == []; }
  }

  lemma HasCodeBoth(prog: Program, pc: int, a: seq<Instr>, b: seq<Instr>)
    requires HasCode(prog, pc, a + b)
    ensures HasCode(prog, pc, a) && HasCode(prog, pc + CodeSize(a), b)
    ensures CodeSize(a + b) == CodeSize(a) + CodeSize(b)
  {
    HasCodeAppend(prog, pc, a, b);
    CodeSizeAppend(a, b);
  }

  /** An instruction on either side of a block. */
  lemma HasCodeBracket(prog: Program, pc: int, i: Instr, c: seq<Instr>, j: Instr)
    requires HasCode(prog, pc, [i] + c + [j])
    ensures prog(pc) == Some(i) && HasCode(prog, pc + Size(i), c) && prog(pc + Size(i) + CodeSize(c)) == Some(j)
    ensures CodeSize([i] + c + [j]) == Size(i) + CodeSize(c) + Size(j)
  {
    assert [i] + c + [j] == [i] + (c + [j]);
    hide HasCode, CodeSize;
    HasCodeFirst(prog, pc, i, c + [j]);
    HasCodeLast(prog, pc + Size(i), c, j);
  }

  lemma GroupLayout(prog: Program, pc: int, n: Pattern, backward: bool, rs: Registers, g: nat)
    requires n.Group? && HasCode(prog, pc, Code(n, backward, rs, g))
    ensures var c := Code(n.body, backward, rs, g + 1);
      && prog(pc) == Some(SaveOpen(backward, g))
      && HasCode(prog, pc + 2, c)
      && prog(pc + 2 + CodeSize(c)) == Some(SaveClose(backward, g))
      && CodeSize(Code(n, backward, rs, g)) == 4 + CodeSize(c)
  {
    hide HasCode, CodeSize;
    HasCodeBracket(prog, pc, SaveOpen(backward, g), Code(n.body, backward, rs, g + 1), SaveClose(backward, g));
  }

  lemma LookLayout(prog: Program, pc: int, n: Pattern, backward: bool, rs: Registers, g: nat)
    requires n.Look? && HasCode(prog, pc, Code(n, backward, rs, g))
    ensures var c := Code(n.body, n.behind, rs, g);
      && prog(pc) == Some(LookOp(n.negated, CodeSize(c) + 1))
      && HasCode(prog, pc + 5, c)
      && prog(pc + 5 + CodeSize(c)) == Some(LookAccept(n.negated))
      && CodeSize(Code(n, backward, rs, g)) == 6 + CodeSize(c)
  {
    hide HasCode, CodeSize;
    var c := Code(n.body, n.behind, rs, g);
    HasCodeBracket(prog, pc, LookOp(n.negated, CodeSize(c) + 1), c, LookAccept(n.negated));
  }

  lemma BranchesLayout(prog: Program, pc: int, a: seq<Instr>, b: seq<Instr>)
    requires HasCode(prog, pc, Branches(a, b))
    ensures prog(pc) == Some(Split(true, CodeSize(a) + 5)) && HasCode(prog, pc + 5, a)
    ensures prog(pc + 5 + CodeSize(a)) == Some(Goto(CodeSize(b))) && HasCode(prog, pc + 10 + CodeSize(a), b)
    ensures CodeSize(Branches(a, b)) == 10 + CodeSize(a) + CodeSize(b)
  {
    hide HasCode, CodeSize;
    var split, jump := Split(true, CodeSize(a) + 5), Goto(CodeSize(b));
    HasCodeBoth(prog, pc, [split] + a + [jump], b);
    HasCodeBracket(prog, pc, split, a, jump);
  }

  lemma AltLayout(prog: Program, pc: int, n: Pattern, backward: bool, rs: Registers, g: nat)
    requires n.Alt? && HasCode(prog, pc, Code(n, backward, rs, g))
    ensures var a, b := Code(n.left, backward, rs, g), Code(n.right, backward, rs, g + Groups(n.left));
      && prog(pc) == Some(Split(true, CodeSize(a) + 5))
      && HasCode(prog, pc + 5, a)
      && prog(pc + 5 + CodeSize(a)) == Some(Goto(CodeSize(b)))
      && HasCode(prog, pc + 10 + CodeSize(a), b)
      && CodeSize(Code(n, backward, rs, g)) == 10 + CodeSize(a) + CodeSize(b)
  {
    hide HasCode, CodeSize, Branches, Groups;
    BranchesLayout(prog, pc, Code(n.left, backward, rs, g), Code(n.right, backward, rs, g + Groups(n.left)));
  }

  lemma BodyLayout(prog: Program, pc: int, a: Pattern, backward: bool, rs: Registers, g: nat)
    requires HasCode(prog, pc, LoopBody(a, backward, rs, g))
    ensures var reset, c := ResetCode(ResetsInside(a, backward), a, g), Code(a, backward, rs, g);
      && HasCode(prog, pc, reset)
      && HasCode(prog, pc + CodeSize(reset), c)
      && CodeSize(LoopBody(a, backward, rs, g)) == CodeSize(reset) + CodeSize(c)
  {
    hide HasCode, CodeSize, ScanOf;
    HasCodeBoth(prog, pc, ResetCode(ResetsInside(a, backward), a, g), Code(a, backward, rs, g));
  }

  /** The code after the capture reset of a quantifier that may match nothing. */
  function ZeroRest(n: Pattern, backward: bool, rs: Registers, g: nat): seq<Instr>
    requires n.Quant?
  {
    if n.max == 0 then []
    else if n.max == 1 || n.max == INFINITE then OptionalCode(n.atom, backward, rs, g, n.max == INFINITE, n.greedy)
    else OptionalCountedCode(n.atom, backward, rs, g, n.max, n.greedy)
  }

  lemma ZeroLayout(prog: Program, pc: int, n: Pattern, backward: bool, rs: Registers, g: nat)
    requires n.Quant? && n.min == 0 && HasCode(prog, pc, Code(n, backward, rs, g))
    ensures var reset := ResetCode(ResetsBefore(n.atom, backward), n.atom, g); var rest := ZeroRest(n, backward, rs, g);
      && HasCode(prog, pc, reset)
      && HasCode(prog, pc + CodeSize(reset), rest)
      && CodeSize(Code(n, backward, rs, g)) == CodeSize(reset) + CodeSize(rest)
  {
    hide HasCode, CodeSize, OptionalCode, OptionalCountedCode, ScanOf;
    var reset := ResetCode(ResetsBefore(n.atom, backward), n.atom, g);
    var rest := ZeroRest(n, backward, rs, g);
    assert Code(n, backward, rs, g) == reset + rest;
    HasCodeBoth(prog, pc, reset, rest);
  }

  lemma OptionalPieces(prog: Program, pc: int, c: seq<Instr>, checked: bool, r: nat, repeat: bool, greedy: bool)
    requires HasCode(prog, pc, OptionalShape(c, checked, r, repeat, greedy))
    ensures var k := Bytes2(checked); var size := CodeSize(c) + 2 * k; var jump := if repeat then 5 else 0;
      && prog(pc) == Some(Split(greedy, size + jump))
      && HasCode(prog, pc + 5, SetPosCode(checked, r))
      && HasCode(prog, pc + 5 + k, c)
      && HasCode(prog, pc + 5 + k + CodeSize(c), CheckCode(checked, r))
      && (repeat ==> prog(pc + 5 + size) == Some(Goto(-(size + 10))))
      && CodeSize(OptionalShape(c, checked, r, repeat, greedy)) == 5 + size + jump
  {
    hide HasCode, CodeSize, SetPosCode, CheckCode, Bytes2;
    var size := CodeSize(c) + 2 * Bytes2(checked);
    var split := Split(greedy, size + if repeat then 5 else 0);
    var store, check := SetPosCode(checked, r), CheckCode(checked, r);
    var jump := if repeat then [Goto(-(size + 10))] else [];
    CheckSizes(checked, r);
    HasCodeBoth(prog, pc, [split] + store + c + check, jump);
    HasCodeBoth(prog, pc, [split] + store + c, check);
    HasCodeBoth(prog, pc, [split] + store, c);
    HasCodeFirst(prog, pc, split, store);
    JumpLayout(prog, pc + 5 + size, repeat, -(size + 10));
  }

  lemma CheckSizes(checked: bool, r: nat)
    ensures CodeSize(SetPosCode(checked, r)) == CodeSize(CheckCode(checked, r)) == Bytes2(checked)
  {
    if checked {
      assert SetPosCode(checked, r)[1..] == [] && CheckCode(checked, r)[1..] == [];
    }
  }

  lemma JumpLayout(prog: Program, pc: int, present: bool, rel: int)
    requires HasCode(prog, pc, if present then [Goto(rel)] else [])
    ensures present ==> prog(pc) == Some(Goto(rel))
    ensures CodeSize(if present then [Goto(rel)] else []) == if present then 5 else 0
  {
    if present {
      assert [Goto(rel)][1..] == [];
    }
  }

  lemma OptionalLayout(prog: Program, pc: int, a: Pattern, backward: bool, rs: Registers, g: nat, repeat: bool, greedy: bool)
    requires HasCode(prog, pc, OptionalCode(a, backward, rs, g, repeat, greedy))
    ensures var checked := Checked(a, backward); var k := Bytes2(checked); var jump := if repeat then 5 else 0;
      var c := LoopBody(a, backward, rs.Skip(Count(checked)), g); var size := CodeSize(c) + 2 * k;
      && prog(pc) == Some(Split(greedy, size + jump))
      && HasCode(prog, pc + 5, SetPosCode(checked, rs.At(0)))
      && HasCode(prog, pc + 5 + k, c)
      && HasCode(prog, pc + 5 + k + CodeSize(c), CheckCode(checked, rs.At(0)))
      && (repeat ==> prog(pc + 5 + size) == Some(Goto(-(size + 10))))
      && CodeSize(OptionalCode(a, backward, rs, g, repeat, greedy)) == 5 + size + jump
  {
    hide HasCode, CodeSize, SetPosCode, CheckCode, LoopBody, Checked, OptionalShape;
    var checked := Checked(a, backward);
    OptionalPieces(prog, pc, LoopBody(a, backward, rs.Skip(Count(checked)), g), checked, rs.At(0), repeat, greedy);
  }

  lemma CountedPieces(prog: Program, pc: int, c: seq<Instr>, checked: bool, r: nat, r': nat, max: nat, limit: nat, greedy: bool)
    requires HasCode(prog, pc, CountedShape(c, checked, r, r', max, limit, greedy))
    ensures var k := Bytes2(checked);
      && prog(pc) == Some(SetI32(r, max))
      && HasCode(prog, pc + 6, SetPosCode(checked, r'))
      && HasCode(prog, pc + 6 + k, c)
      && prog(pc + 6 + k + CodeSize(c)) == Some(LoopSplit(checked, !greedy, r, limit, -(CodeSize(c) + 10 + k)))
      && CodeSize(CountedShape(c, checked, r, r', max, limit, greedy)) == 16 + k + CodeSize(c)
  {
    hide HasCode, CodeSize, SetPosCode, CheckCode, Bytes2;
    var store := SetPosCode(checked, r');
    CheckSizes(checked, r');
    HasCodeLast(prog, pc, [SetI32(r, max)] + store + c,
                LoopSplit(checked, !greedy, r, limit, -(CodeSize(c) + 10 + Bytes2(checked))));
    HasCodeBoth(prog, pc, [SetI32(r, max)] + store, c);
    HasCodeFirst(prog, pc, SetI32(r, max), store);
  }

  lemma CountedLayout(prog: Program, pc: int, a: Pattern, backward: bool, rs: Registers, g: nat, checked: bool, max: nat,
                      limit: nat, greedy: bool)
    requires HasCode(prog, pc, CountedCode(a, backward, rs, g, checked, max, limit, greedy))
    ensures var k := Bytes2(checked); var c := LoopBody(a, backward, rs.Skip(1 + Count(checked)), g);
      && prog(pc) == Some(SetI32(rs.At(0), max))
      && HasCode(prog, pc + 6, SetPosCode(checked, rs.At(1)))
      && HasCode(prog, pc + 6 + k, c)
      && prog(pc + 6 + k + CodeSize(c)) == Some(LoopSplit(checked, !greedy, rs.At(0), limit, -(CodeSize(c) + 10 + k)))
      && CodeSize(CountedCode(a, backward, rs, g, checked, max, limit, greedy)) == 16 + k + CodeSize(c)
  {
    hide HasCode, CodeSize, SetPosCode, LoopBody, CountedShape, Bytes2;
    CountedPieces(prog, pc, LoopBody(a, backward, rs.Skip(1 + Count(checked)), g), checked, rs.At(0), rs.At(1), max, limit, greedy);
  }

  lemma ExactLayout(prog: Program, pc: int, a: Pattern, backward: bool, rs: Registers, g: nat, max: nat)
    requires HasCode(prog, pc, ExactCode(a, backward, rs, g, max))
    ensures var c := LoopBody(a, backward, rs.Skip(1), g);
      && prog(pc) == Some(SetI32(rs.At(0), max))
      && HasCode(prog, pc + 6, c)
      && prog(pc + 6 + CodeSize(c)) == Some(Loop(rs.At(0), -(CodeSize(c) + 6)))
      && CodeSize(ExactCode(a, backward, rs, g, max)) == 12 + CodeSize(c)
  {
    hide HasCode, CodeSize, LoopBody;
    var c := LoopBody(a, backward, rs.Skip(1), g);
    HasCodeBracket(prog, pc, SetI32(rs.At(0), max), c, Loop(rs.At(0), -(CodeSize(c) + 6)));
  }

  lemma PlusLayout(prog: Program, pc: int, a: Pattern, backward: bool, rs: Registers, g: nat, greedy: bool)
    requires HasCode(prog, pc, PlusCode(a, backward, rs, g, greedy))
    ensures var c := LoopBody(a, backward, rs, g);
      && HasCode(prog, pc, c)
      && prog(pc + CodeSize(c)) == Some(Split(!greedy, -(CodeSize(c) + 5)))
      && CodeSize(PlusCode(a, backward, rs, g, greedy)) == CodeSize(c) + 5
  {
    hide HasCode, CodeSize, LoopBody;
    var c := LoopBody(a, backward, rs, g);
    HasCodeLast(prog, pc, c, Split(!greedy, -(CodeSize(c) + 5)));
  }

  // ----- outcomes of composite patterns -----

  lemma AltOutcomes(e: Input, impl: bool, n: Pattern, backward: bool, g: nat, x: State)
    requires n.Alt? && Valid(e, x) && Fits(n, g, x)
    ensures Outcomes(e, impl, n, backward, g, x) ==
      Outcomes(e, impl, n.left, backward, g, x) + Outcomes(e, impl, n.right, backward, g + Groups(n.left), x)
  {}

  lemma GroupOutcomes(e: Input, impl: bool, n: Pattern, backward: bool, g: nat, x: State)
    requires n.Group? && Valid(e, x) && Fits(n, g, x)
    ensures var x' := if impl then OpenGroup(x, g, backward) else x;
      && Valid(e, x') && Fits(n.body, g + 1, x')
      && Outcomes(e, impl, n, backward, g, x)
         == CloseAll(e, impl, g, backward, x, Outcomes(e, impl, n.body, backward, g + 1, x'))
  {}

  lemma LookOutcomes(e: Input, impl: bool, n: Pattern, backward: bool, g: nat, x: State)
    requires n.Look? && Valid(e, x) && Fits(n, g, x)
    ensures var ys := Outcomes(e, impl, n.body, n.behind, g, x);
      Outcomes(e, impl, n, backward, g, x) ==
        if n.negated then if ys == [] then [x] else []
        else if ys == [] then [] else [x.(caps := ys[0].caps)]
  {}

  /** A quantifier that may match nothing, as the emitted code sees it. */
  lemma ZeroOutcomes(e: Input, n: Pattern, backward: bool, g: nat, x: State)
    requires n.Quant? && n.min == 0 && Valid(e, x) && Fits(n, g, x)
    ensures var x' := if ResetsBefore(n.atom, backward) then Reset(x, g, Groups(n.atom)) else x;
      var bound := UpperBound(true, n.atom, backward, 0, n.max);
      && Valid(e, x') && Fits(n.atom, g, x')
      && bound == (if n.max == INFINITE then None else Some(n.max))
      && Outcomes(e, true, n, backward, g, x) == Repeat(e, true, n.atom, backward, g, 0, bound, n.greedy, x')
      && (n.max == 0 ==> Outcomes(e, true, n, backward, g, x) == [x'])
  {}

  lemma NoCode()
    ensures CodeSize([]) == 0
  {}

  /** A quantifier with a positive minimum starts with an iteration. */
  lemma RequiredOutcomes(e: Input, n: Pattern, backward: bool, g: nat, x: State)
    requires n.Quant? && n.min != 0 && Valid(e, x) && Fits(n, g, x)
    ensures var bound := UpperBound(true, n.atom, backward, n.min, n.max);
      && Fits(n.atom, g, x)
      && bound == (if n.min == 1 && n.max == INFINITE && !Checked(n.atom, backward) then None else Some(n.max))
      && Outcomes(e, true, n, backward, g, x) == Iterate(e, true, n.atom, backward, g, n.min, bound, n.greedy, x)
  {}

  lemma RepeatAllNone(e: Input, impl: bool, a: Pattern, backward: bool, g: nat, min: nat, max: Option<nat>, greedy: bool, x: State)
    requires Fits(a, g, x)
    ensures RepeatAll(e, impl, a, backward, g, min, max, greedy, x, []) == []
  {}

  lemma RepeatAllFirst(e: Input, impl: bool, a: Pattern, backward: bool, g: nat, min: nat, max: Option<nat>, greedy: bool,
                       x: State, ys: seq<State>)
    requires Fits(a, g, x) && AllAfter(e, backward, x, ys) && ys != []
    ensures After(e, backward, x, ys[0]) && AllAfter(e, backward, x, ys[1..])
    ensures ys[0].pos != x.pos ==> Remaining(e, backward, ys[0].pos) < Remaining(e, backward, x.pos)
    ensures var rest := RepeatAll(e, impl, a, backward, g, min, max, greedy, x, ys[1..]);
      RepeatAll(e, impl, a, backward, g, min, max, greedy, x, ys) ==
        if min == 0 && ys[0].pos == x.pos then rest
        else Repeat(e, impl, a, backward, g, Decrement(min), DecrementMax(max), greedy, ys[0]) + rest
  {
    hide Repeat;
  }

  lemma RepeatUnfolds(e: Input, impl: bool, a: Pattern, backward: bool, g: nat, min: nat, max: Option<nat>, greedy: bool, x: State)
    requires Valid(e, x) && Fits(a, g, x)
    ensures Repeat(e, impl, a, backward, g, min, max, greedy, x) ==
      if max == Some(0) then [x]
      else
        var once := Iterate(e, impl, a, backward, g, min, max, greedy, x);
        if min != 0 then once else if greedy then once + [x] else [x] + once
  {
    hide Iterate;
  }

  lemma IterateUnfolds(e: Input, impl: bool, a: Pattern, backward: bool, g: nat, min: nat, max: Option<nat>, greedy: bool, x: State)
    requires Valid(e, x) && Fits(a, g, x)
    ensures var x' := IterationStart(impl, a, backward, g, x);
      && Valid(e, x') && x'.pos == x.pos && Fits(a, g, x')
      && AllAfter(e, backward, x, Outcomes(e, impl, a, backward, g, x'))
      && Iterate(e, impl, a, backward, g, min, max, greedy, x)
         == RepeatAll(e, impl, a, backward, g, min, max, greedy, x, Outcomes(e, impl, a, backward, g, x'))
  {
    hide RepeatAll, Outcomes, NeedsCaptureInit;
  }

  lemma CatOutcomes(e: Input, impl: bool, n: Pattern, backward: bool, g: nat, x: State)
    requires n.Cat? && Valid(e, x) && Fits(n, g, x)
    ensures Fits(n.left, g, x) && Fits(n.right, g + Groups(n.left), x)
    ensures Outcomes(e, impl, n, backward, g, x) ==
      if backward then
        OutcomesAll(e, impl, n.left, backward, g, x, Outcomes(e, impl, n.right, backward, g + Groups(n.left), x))
      else
        OutcomesAll(e, impl, n.right, backward, g + Groups(n.left), x, Outcomes(e, impl, n.left, backward, g, x))
  {
    hide OutcomesAll;
  }

  lemma OutcomesAllFirst(e: Input, impl: bool, n: Pattern, backward: bool, g: nat, x: State, ys: seq<State>)
    requires Fits(n, g, x) && AllAfter(e, backward, x, ys) && ys != []
    ensures After(e, backward, x, ys[0]) && AllAfter(e, backward, x, ys[1..])
    ensures OutcomesAll(e, impl, n, backward, g, x, ys) ==
      Outcomes(e, impl, n, backward, g, ys[0]) + OutcomesAll(e, impl, n, backward, g, x, ys[1..])
  {
    hide Outcomes;
  }

  lemma QuantOutcomes(e: Input, impl: bool, n: Pattern, backward: bool, g: nat, x: State)
    requires n.Quant? && Valid(e, x) && Fits(n, g, x)
    ensures var a := n.atom;
      var x' := if impl && n.min == 0 && ResetsBefore(a, backward) then Reset(x, g, Groups(a)) else x;
      && Valid(e, x') && Fits(a, g, x')
      && Outcomes(e, impl, n, backward, g, x)
         == Repeat(e, impl, a, backward, g, n.min, UpperBound(impl, a, backward, n.min, n.max), n.greedy, x')
  {
    hide Repeat;
  }
}
