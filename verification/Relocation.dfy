/** The code of a term can be moved as a whole: every jump in it lands on an instruction of the same term or
    directly behind it. */
module Relocation {
  import opened Options
  import opened RegexSyntax
  import opened Bytecode
  import opened Codegen

  /** The jump distance of an instruction that jumps. */
  function Jump(i: Instr): Option<int> {
    match i
    case Goto(rel) => Some(rel)
    case Split(_, rel) => Some(rel)
    case Loop(_, rel) => Some(rel)
    case LoopSplit(_, _, _, _, rel) => Some(rel)
    case LookOp(_, rel) => Some(rel)
    case _ => None
  }

  /** Where instruction `k` begins. */
  function Offset(code: seq<Instr>, k: nat): nat
    requires k <= |code|
  {
    CodeSize(code[..k])
  }

  /** Some instruction, or the end of the code, is at distance `at`. */
  ghost predicate Begins(code: seq<Instr>, at: int) {
    exists j: nat :: j <= |code| && Offset(code, j) == at
  }

  predicate Jumps(code: seq<Instr>, k: nat) {
    k < |code| && Jump(code[k]).Some?
  }

  ghost predicate Lands(code: seq<Instr>, k: nat)
    requires Jumps(code, k)
  {
    Begins(code, Offset(code, k) + Size(code[k]) + Jump(code[k]).value)
  }

  ghost predicate Closed(code: seq<Instr>) {
    forall k: nat :: Jumps(code, k) ==> Lands(code, k)
  }

  lemma OffsetInside(p: seq<Instr>, a: seq<Instr>, q: seq<Instr>, k: nat)
    requires k <= |a|
    ensures Offset(p + a + q, |p| + k) == CodeSize(p) + Offset(a, k)
  {
    hide CodeSize;
    assert (p + a + q)[..|p| + k] == p + a[..k];
    CodeSizeAppend(p, a[..k]);
  }

  lemma SizeOfOne(i: Instr)
    ensures CodeSize([i]) == Size(i)
  {
    assert [i][1..] == [];
  }

  /** A landing place inside a part is one in the whole. */
  lemma BeginsInside(p: seq<Instr>, a: seq<Instr>, q: seq<Instr>, at: int)
    requires Begins(a, at)
    ensures Begins(p + a + q, CodeSize(p) + at)
  {
    hide CodeSize;
    var j: nat :| j <= |a| && Offset(a, j) == at;
    OffsetInside(p, a, q, j);
  }

  /** What precedes or follows closed code does not affect its jumps. */
  lemma LandsInside(p: seq<Instr>, a: seq<Instr>, q: seq<Instr>, k: nat)
    requires Closed(a) && Jumps(a, k)
    ensures Jumps(p + a + q, |p| + k) && Lands(p + a + q, |p| + k)
  {
    hide CodeSize, Begins;
    assert Lands(a, k);
    OffsetInside(p, a, q, k);
    BeginsInside(p, a, q, Offset(a, k) + Size(a[k]) + Jump(a[k]).value);
    assert (p + a + q)[|p| + k] == a[k];
  }

  lemma ClosedAppend(a: seq<Instr>, b: seq<Instr>)
    requires Closed(a) && Closed(b)
    ensures Closed(a + b)
  {
    hide Lands, Jumps;
    var code := a + b;
    assert [] + a + b == code && a + b + [] == code;
    forall k: nat | Jumps(code, k) ensures Lands(code, k) {
      JumpsPart(a, b, k);
      if k < |a| {
        LandsInside([], a, b, k);
      } else {
        LandsInside(a, b, [], k - |a|);
      }
    }
  }

  lemma JumpsPart(a: seq<Instr>, b: seq<Instr>, k: nat)
    requires Jumps(a + b, k)
    ensures if k < |a| then Jumps(a, k) else Jumps(b, k - |a|)
  {}

  lemma ClosedPlain(i: Instr)
    requires Jump(i).None?
    ensures Closed([i])
  {}

  lemma ClosedEmpty()
    ensures Closed([])
  {}

  /** One jump, with closed code on either side. */
  lemma ClosedAround(p: seq<Instr>, i: Instr, q: seq<Instr>)
    requires Closed(p) && Closed(q)
    requires Jump(i).Some? ==> Begins(p + [i] + q, CodeSize(p) + Size(i) + Jump(i).value)
    ensures Closed(p + [i] + q)
  {
    hide Lands, Jumps, CodeSize;
    var code := p + [i] + q;
    assert [] + p + ([i] + q) == code && (p + [i]) + q + [] == code;
    forall k: nat | Jumps(code, k) ensures Lands(code, k) {
      assert p + ([i] + q) == code;
      JumpsPart(p, [i] + q, k);
      if k < |p| {
        LandsInside([], p, [i] + q, k);
      } else if k > |p| {
        JumpsPart([i], q, k - |p|);
        LandsInside(p + [i], q, [], k - |p| - 1);
      } else {
        LandsHere(p, i, q);
      }
    }
  }

  lemma LandsHere(p: seq<Instr>, i: Instr, q: seq<Instr>)
    requires Jumps(p + [i] + q, |p|)
    requires Jump(i).Some? ==> Begins(p + [i] + q, CodeSize(p) + Size(i) + Jump(i).value)
    ensures Lands(p + [i] + q, |p|)
  {
    hide *;
    Middle(p, i, q);
    LandsAt(p + [i] + q, |p|, i);
  }

  lemma LandsAt(code: seq<Instr>, k: nat, i: Instr)
    requires Jumps(code, k) && code[k] == i
    requires Jump(i).Some? ==> Begins(code, Offset(code, k) + Size(i) + Jump(i).value)
    ensures Lands(code, k)
  {
    hide Begins, Offset, Size;
  }

  lemma Middle(p: seq<Instr>, i: Instr, q: seq<Instr>)
    ensures var code := p + [i] + q;
      |p| < |code| && code[|p|] == i && Offset(code, |p|) == CodeSize(p)
  {
    hide CodeSize;
    assert (p + [i] + q)[..|p|] == p;
  }

  /** The code begins at 0, ends at its size, and has a landing place between any two parts. */
  lemma BeginsBetween(p: seq<Instr>, q: seq<Instr>)
    ensures Begins(p + q, CodeSize(p))
  {
    assert (p + q)[..|p|] == p;
    assert Offset(p + q, |p|) == CodeSize(p);
  }

  // ----- shapes -----

  lemma ForwardJump(p: seq<Instr>, i: Instr, over: seq<Instr>, q: seq<Instr>)
    requires Closed(p) && Closed(over + q) && Jump(i) == Some(CodeSize(over) as int)
    ensures Closed(p + [i] + (over + q))
  {
    hide CodeSize, Closed;
    var head := p + [i] + over;
    BeginsBetween(head, q);
    CodeSizeAppend(p + [i], over);
    CodeSizeAppend(p, [i]);
    SizeOfOne(i);
    assert head + q == p + [i] + (over + q);
    ClosedAround(p, i, over + q);
  }

  lemma BackwardJump(p: seq<Instr>, over: seq<Instr>, i: Instr)
    requires Closed(p + over) && Jump(i) == Some(-(CodeSize(over) + Size(i)))
    ensures Closed(p + over + [i])
  {
    hide CodeSize, Closed;
    BeginsBetween(p, over + [i]);
    CodeSizeAppend(p, over);
    assert p + (over + [i]) == p + over + [i] + [] == p + over + [i];
    ClosedEmpty();
    ClosedAround(p + over, i, []);
  }

  lemma ClosedBranches(a: seq<Instr>, b: seq<Instr>)
    requires Closed(a) && Closed(b)
    ensures Closed(Branches(a, b))
  {
    hide CodeSize, Closed;
    var goto := Goto(CodeSize(b));
    ClosedEmpty();
    assert b + [] == b;
    ForwardJump(a, goto, b, []);
    var over := a + [goto];
    CodeSizeAppend(a, [goto]);
    SizeOfOne(goto);
    assert over + b == a + [goto] + (b + []);
    ForwardJump([], Split(true, CodeSize(over)), over, b);
    assert Branches(a, b) == [] + [Split(true, CodeSize(over))] + (over + b);
  }

  lemma ClosedOptional(c: seq<Instr>, checked: bool, r: nat, repeat: bool, greedy: bool)
    requires Closed(c)
    ensures Closed(OptionalShape(c, checked, r, repeat, greedy))
  {
    hide CodeSize, Closed;
    var size := CodeSize(c) + 2 * Bytes2(checked);
    var inner := SetPosCode(checked, r) + c + CheckCode(checked, r);
    ClosedInner(c, checked, r);
    InnerSize(c, checked, r);
    ClosedEmpty();
    if repeat {
      var split, goto := Split(greedy, size + 5), Goto(-(size + 10));
      LoopBack(split, inner, goto);
      assert OptionalShape(c, checked, r, repeat, greedy) == [split] + inner + [goto];
    } else {
      assert inner + [] == inner;
      ForwardJump([], Split(greedy, size), inner, []);
      assert OptionalShape(c, checked, r, repeat, greedy) == [] + [Split(greedy, size)] + (inner + []);
    }
  }

  /** A jump to the end of what follows it. */
  lemma SplitOverAll(i: Instr, over: seq<Instr>)
    requires Jump(i) == Some(CodeSize(over) as int)
    ensures Begins([i] + over, Size(i) + CodeSize(over))
  {
    hide CodeSize;
    BeginsBetween([i] + over, []);
    CodeSizeAppend([i], over);
    SizeOfOne(i);
    assert [i] + over + [] == [i] + over;
  }

  /** A loop: a jump over it at the front and one back to the front at the end. */
  lemma LoopBack(i: Instr, c: seq<Instr>, j: Instr)
    requires Closed(c) && Jump(i) == Some(CodeSize(c) + Size(j)) && Jump(j) == Some(-(Size(i) + CodeSize(c) + Size(j)))
    ensures Closed([i] + c + [j])
  {
    hide CodeSize, Lands, Jumps, Begins;
    var code := [i] + c + [j];
    CodeSizeAppend(c, [j]);
    CodeSizeAppend([i], c);
    SizeOfOne(i);
    SizeOfOne(j);
    SplitOverAll(i, c + [j]);
    assert [i] + (c + [j]) == code;
    BeginsBetween([], code);
    assert [] + code == code;
    assert CodeSize([]) == 0 by { SizeOfNone(); }
    forall k: nat | Jumps(code, k) ensures Lands(code, k) {
      JumpsPart([i], c + [j], k);
      if k == 0 {
        assert [] + [i] + (c + [j]) == code;
        LandsHere([], i, c + [j]);
      } else if k < |c| + 1 {
        JumpsPart(c, [j], k - 1);
        LandsInside([i], c, [j], k - 1);
      } else {
        KnownLength(code, k);
        assert [i] + c + [j] + [] == code;
        LandsHere([i] + c, j, []);
      }
    }
  }

  lemma KnownLength(code: seq<Instr>, k: nat)
    requires Jumps(code, k)
    ensures k < |code|
  {}

  lemma SizeOfNone()
    ensures CodeSize([]) == 0
  {}

  lemma ClosedInner(c: seq<Instr>, checked: bool, r: nat)
    requires Closed(c)
    ensures Closed(SetPosCode(checked, r) + c + CheckCode(checked, r)) && Closed(SetPosCode(checked, r) + c)
  {
    hide Closed;
    ClosedEmpty();
    ClosedPlain(SetCharPos(r));
    ClosedPlain(CheckAdvance(r));
    ClosedAppend(SetPosCode(checked, r), c);
    ClosedAppend(SetPosCode(checked, r) + c, CheckCode(checked, r));
  }

  lemma InnerSize(c: seq<Instr>, checked: bool, r: nat)
    ensures CodeSize(SetPosCode(checked, r) + c + CheckCode(checked, r)) == CodeSize(c) + 2 * Bytes2(checked)
    ensures CodeSize(SetPosCode(checked, r) + c) == CodeSize(c) + Bytes2(checked)
  {
    CodeSizeAppend(SetPosCode(checked, r), c);
    CodeSizeAppend(SetPosCode(checked, r) + c, CheckCode(checked, r));
    SizeOfOne(SetCharPos(r));
    SizeOfOne(CheckAdvance(r));
  }

  lemma ClosedCounted(c: seq<Instr>, checked: bool, r: nat, r': nat, max: nat, limit: nat, greedy: bool)
    requires Closed(c)
    ensures Closed(CountedShape(c, checked, r, r', max, limit, greedy))
  {
    hide CodeSize, Closed;
    var inner := SetPosCode(checked, r') + c;
    ClosedInner(c, checked, r');
    InnerSize(c, checked, r');
    ClosedPlain(SetI32(r, max));
    ClosedAppend([SetI32(r, max)], inner);
    var loop := LoopSplit(checked, !greedy, r, limit, -(CodeSize(inner) + 10));
    BackwardJump([SetI32(r, max)], inner, loop);
    assert CountedShape(c, checked, r, r', max, limit, greedy) == [SetI32(r, max)] + inner + [loop];
  }

  // ----- patterns -----

  /** Every jump emitted for a term stays inside the term. */
  lemma {:induction false} JumpsStayInside(n: Regex, backward: bool, rs: Registers, g: nat)
    ensures Closed(Code(n, backward, rs, g))
    decreases n, 0
  {
    hide Closed, Code, LoopBody, Groups;
    match n
    case Group(body) =>
      JumpsStayInside(body, backward, rs, g + 1);
      GroupStaysInside(n, backward, rs, g);
    case Look(_, behind, body) =>
      JumpsStayInside(body, behind, rs, g);
      LookStaysInside(n, backward, rs, g);
    case Cat(l, r) =>
      JumpsStayInside(l, backward, rs, g);
      JumpsStayInside(r, backward, rs, g + Groups(l));
      CatCode(n, backward, rs, g);
      ClosedAppend(Code(l, backward, rs, g), Code(r, backward, rs, g + Groups(l)));
      ClosedAppend(Code(r, backward, rs, g + Groups(l)), Code(l, backward, rs, g));
    case Alt(l, r) =>
      JumpsStayInside(l, backward, rs, g);
      JumpsStayInside(r, backward, rs, g + Groups(l));
      AltCode(n, backward, rs, g);
      ClosedBranches(Code(l, backward, rs, g), Code(r, backward, rs, g + Groups(l)));
    case Quant(a, _, _, _) =>
      LoopsStayInside(a, backward, rs.Skip(0), g);
      LoopsStayInside(a, backward, rs.Skip(1), g);
      LoopsStayInside(a, backward, rs.Skip(2), g);
      QuantifierStaysInside(n, backward, rs, g);
    case _ =>
      ClosedAtoms(n, backward);
  }

  lemma GroupStaysInside(n: Regex, backward: bool, rs: Registers, g: nat)
    requires n.Group? && Closed(Code(n.body, backward, rs, g + 1))
    ensures Closed(Code(n, backward, rs, g))
  {
    hide Closed, Code;
    var c := Code(n.body, backward, rs, g + 1);
    GroupCode(n, backward, rs, g);
    ClosedPlain(SaveOpen(backward, g));
    ClosedPlain(SaveClose(backward, g));
    ClosedAppend([SaveOpen(backward, g)], c);
    ClosedAppend([SaveOpen(backward, g)] + c, [SaveClose(backward, g)]);
  }

  lemma LookStaysInside(n: Regex, backward: bool, rs: Registers, g: nat)
    requires n.Look? && Closed(Code(n.body, n.behind, rs, g))
    ensures Closed(Code(n, backward, rs, g))
  {
    hide Closed, CodeSize;
    ClosedLook(Code(n.body, n.behind, rs, g), n.negated);
  }

  lemma {:induction false} LoopsStayInside(a: Regex, backward: bool, rs: Registers, g: nat)
    ensures Closed(LoopBody(a, backward, rs, g))
    decreases a, 1
  {
    hide Closed, ScanOf;
    JumpsStayInside(a, backward, rs, g);
    ClosedReset(ResetsInside(a, backward), a, g);
    ClosedAppend(ResetCode(ResetsInside(a, backward), a, g), Code(a, backward, rs, g));
  }

  lemma ClosedReset(needed: bool, a: Regex, g: nat)
    ensures Closed(ResetCode(needed, a, g))
  {
    hide Closed;
    ClosedEmpty();
    if needed && Groups(a) != 0 {
      ClosedPlain(SaveReset(g, g + Groups(a) - 1));
    }
  }

  lemma ClosedLook(c: seq<Instr>, negated: bool)
    requires Closed(c)
    ensures Closed([LookOp(negated, CodeSize(c) + 1)] + c + [LookAccept(negated)])
  {
    hide Closed, CodeSize;
    var over, i := c + [LookAccept(negated)], LookOp(negated, CodeSize(c) + 1);
    ClosedEmpty();
    ClosedPlain(LookAccept(negated));
    ClosedAppend(c, [LookAccept(negated)]);
    CodeSizeAppend(c, [LookAccept(negated)]);
    SizeOfOne(LookAccept(negated));
    assert over + [] == over;
    ForwardJump([], i, over, []);
    assert [i] + c + [LookAccept(negated)] == [] + [i] + (over + []);
  }

  lemma ClosedAtoms(n: Regex, backward: bool)
    requires n.Empty? || IsCharacter(n) || IsAssertion(n) || n.BackReference?
    ensures Closed(Code(n, backward, Unallocated, 0)) && forall rs, g :: Code(n, backward, rs, g) == Code(n, backward, Unallocated, 0)
  {
    forall k: nat ensures !Jumps(Code(n, backward, Unallocated, 0), k) {}
  }

  lemma QuantifierStaysInside(n: Regex, backward: bool, rs: Registers, g: nat)
    requires n.Quant? && forall k :: 0 <= k <= 2 ==> Closed(LoopBody(n.atom, backward, rs.Skip(k), g))
    ensures Closed(Code(n, backward, rs, g))
  {
    hide Closed, CodeSize, LoopBody, ScanOf, OptionalShape, CountedShape;
    var a, min, max, greedy := n.atom, n.min, n.max, n.greedy;
    var checked := Checked(a, backward);
    var counted := LoopBody(a, backward, rs.Skip(1 + Count(checked)), g);
    if min == 0 {
      var reset := ResetCode(ResetsBefore(a, backward), a, g);
      ClosedReset(ResetsBefore(a, backward), a, g);
      if max == 1 || max == INFINITE {
        ClosedOptional(LoopBody(a, backward, rs.Skip(Count(checked)), g), checked, rs.At(0), max == INFINITE, greedy);
        ClosedAppend(reset, OptionalCode(a, backward, rs, g, max == INFINITE, greedy));
      } else if max > 1 {
        ClosedCounted(counted, checked, rs.At(0), rs.At(1), max, max, greedy);
        var loop := CountedCode(a, backward, rs, g, checked, max, max, greedy);
        ClosedEmpty();
        assert loop + [] == loop;
        ForwardJump([], Split(greedy, CodeSize(loop)), loop, []);
        assert OptionalCountedCode(a, backward, rs, g, max, greedy) == [] + [Split(greedy, CodeSize(loop))] + (loop + []);
        ClosedAppend(reset, OptionalCountedCode(a, backward, rs, g, max, greedy));
      }
    } else if min == 1 && max == INFINITE && !checked {
      PlusStaysInside(a, backward, rs, g, greedy);
    } else if min >= max {
      ExactStaysInside(a, backward, rs, g, max);
    } else {
      ClosedCounted(counted, checked, rs.At(0), rs.At(1), max, max - min, greedy);
    }
  }

  lemma PlusStaysInside(a: Regex, backward: bool, rs: Registers, g: nat, greedy: bool)
    requires Closed(LoopBody(a, backward, rs.Skip(0), g))
    ensures Closed(PlusCode(a, backward, rs, g, greedy))
  {
    hide Closed, CodeSize, LoopBody;
    var c := LoopBody(a, backward, rs, g);
    assert [] + c == c;
    BackwardJump([], c, Split(!greedy, -(CodeSize(c) + 5)));
  }

  lemma ExactStaysInside(a: Regex, backward: bool, rs: Registers, g: nat, max: nat)
    requires Closed(LoopBody(a, backward, rs.Skip(1), g))
    ensures Closed(ExactCode(a, backward, rs, g, max))
  {
    hide Closed, CodeSize, LoopBody;
    var c := LoopBody(a, backward, rs.Skip(1), g);
    ClosedPlain(SetI32(rs.At(0), max));
    ClosedAppend([SetI32(rs.At(0), max)], c);
    BackwardJump([SetI32(rs.At(0), max)], c, Loop(rs.At(0), -(CodeSize(c) + 6)));
  }

  // ----- backward alternatives -----

  /** The terms of an alternative, in the order of the pattern. */
  function Alternative(terms: seq<Regex>): Regex {
    if terms == [] then Empty else Cat(Alternative(terms[..|terms| - 1]), terms[|terms| - 1])
  }

  /** The code block of each term. */
  function Blocks(terms: seq<Regex>, backward: bool, rs: Registers, g: nat): (r: seq<seq<Instr>>)
    ensures |r| == |terms|
  {
    if terms == [] then []
    else
      var front, last := terms[..|terms| - 1], terms[|terms| - 1];
      Blocks(front, backward, rs, g) + [Code(last, backward, rs, g + Groups(Alternative(front)))]
  }

  function Concat(blocks: seq<seq<Instr>>): seq<Instr> {
    if blocks == [] then [] else blocks[0] + Concat(blocks[1..])
  }

  function Reversed(blocks: seq<seq<Instr>>): seq<seq<Instr>> {
    if blocks == [] then [] else [blocks[|blocks| - 1]] + Reversed(blocks[..|blocks| - 1])
  }

  lemma {:induction false} ConcatSnoc(blocks: seq<seq<Instr>>, b: seq<Instr>)
    ensures Concat(blocks + [b]) == Concat(blocks) + b
  {
    if blocks == [] {
      assert [b][1..] == [] && [] + [b] == [b];
    } else {
      assert (blocks + [b])[1..] == blocks[1..] + [b];
      ConcatSnoc(blocks[1..], b);
    }
  }

  lemma ReversedSnoc(blocks: seq<seq<Instr>>, b: seq<Instr>)
    ensures Concat(Reversed(blocks + [b])) == b + Concat(Reversed(blocks))
  {
    assert (blocks + [b])[..|blocks|] == blocks;
    assert ([b] + Reversed(blocks))[1..] == Reversed(blocks);
  }

  lemma NoTerms(backward: bool, rs: Registers, g: nat)
    ensures var blocks := Blocks([], backward, rs, g);
      Code(Alternative([]), backward, rs, g) == Concat(if backward then Reversed(blocks) else blocks)
  {}

  /** Forward, an alternative is its terms' blocks in order; backward, in reverse order. */
  lemma {:induction false} AlternativeBlocks(terms: seq<Regex>, backward: bool, rs: Registers, g: nat)
    ensures var blocks := Blocks(terms, backward, rs, g);
      Code(Alternative(terms), backward, rs, g) == Concat(if backward then Reversed(blocks) else blocks)
  {
    if terms == [] {
      hide *;
      NoTerms(backward, rs, g);
    } else {
      hide Groups, Code, Concat, Reversed;
      var front, last := terms[..|terms| - 1], terms[|terms| - 1];
      CatCode(Cat(Alternative(front), last), backward, rs, g);
      AlternativeBlocks(front, backward, rs, g);
      var blocks, b := Blocks(front, backward, rs, g), Code(last, backward, rs, g + Groups(Alternative(front)));
      if backward {
        ReversedSnoc(blocks, b);
      } else {
        ConcatSnoc(blocks, b);
      }
    }
  }
}
