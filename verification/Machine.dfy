/** The backtracking machine with whole snapshots: every frame keeps a copy of the capture array. The
    matcher itself keeps an undo log instead; module Exec relates the two. */
module Machine {
  import opened Subject
  import opened Options
  import opened RegexSyntax
  import opened Bytecode

  datatype FrameKind = SplitFrame | LookFrame | NegativeLookFrame

  datatype Frame = Frame(kind: FrameKind, pc: int, pos: nat, cap: seq<int>)

  /** `cap` holds `2 * count` captures followed by the loop registers. */
  datatype Machine =
    | Running(pc: int, pos: nat, cap: seq<int>, stack: seq<Frame>)
    | Matched(end: nat, captures: seq<int>)
    | Failed
    | Crashed

  datatype Context = Context(prog: Program, e: Input, count: nat, registers: nat)

  /** Resume the newest saved state; a lookahead whose body failed fails with it. */
  function Backtrack(stack: seq<Frame>): Machine {
    if stack == [] then Failed
    else
      var f, rest := stack[|stack| - 1], stack[..|stack| - 1];
      if f.kind.LookFrame? then Backtrack(rest) else Running(f.pc, f.pos, f.cap, rest)
  }

  /** The stack with everything from the newest frame of the given kind on removed, and that frame. */
  function PopTo(stack: seq<Frame>, kind: FrameKind): Option<(seq<Frame>, Frame)> {
    if stack == [] then None
    else
      var f, rest := stack[|stack| - 1], stack[..|stack| - 1];
      if f.kind == kind then Some((rest, f)) else PopTo(rest, kind)
  }

  // ----- class opcodes -----

  /** The binary search of the range opcodes over inclusive bounds. */
  function Search(bounds: seq<nat>, c: nat, min: int, max: int): bool
    requires 0 <= min && max < |bounds| / 2
    decreases max - min
  {
    if min > max then false
    else
      var idx := (min + max) / 2;
      if c < bounds[2 * idx] then Search(bounds, c, min, idx - 1)
      else if c > bounds[2 * idx + 1] then Search(bounds, c, idx + 1, max)
      else true
  }

  predicate InRange16(bounds: seq<nat>, c: nat) {
    |bounds| >= 2 && c >= bounds[0] &&
    var high := bounds[2 * (|bounds| / 2 - 1) + 1];
    (c >= 0xffff && high == 0xffff) || (c <= high && Search(bounds, c, 0, |bounds| / 2 - 1))
  }

  predicate InRange32(bounds: seq<nat>, c: nat) {
    |bounds| >= 2 && c >= bounds[0] &&
    var high := bounds[2 * (|bounds| / 2 - 1) + 1];
    c <= high && Search(bounds, c, 0, |bounds| / 2 - 1)
  }

  predicate Reads(i: Instr) {
    i.Char16? || i.Char32? || i.DotChar? || i.AnyChar? || i.SpaceChar? || i.Range16? || i.Range32?
  }

  predicate ReadAccepts(e: Input, i: Instr, c: CodePoint)
    requires Reads(i)
  {
    match i
    case Char16(v, icase) => (if icase then e.canon(c) else c) == v
    case Char32(v, icase) => (if icase then e.canon(c) else c) == v
    case DotChar => !IsLineTerminator(c)
    case AnyChar => true
    case SpaceChar(negated) => e.isSpace(c) != negated
    case Range16(icase, bounds) => InRange16(bounds, if icase then e.canon(c) else c)
    case Range32(icase, bounds) => InRange32(bounds, if icase then e.canon(c) else c)
  }

  // ----- one step -----

  /** The register decremented by a loop opcode, as a 32-bit counter. */
  function Countdown(v: int): nat {
    (v - 1) % 0x1_0000_0000
  }

  function Step(m: Context, s: Machine): Machine {
    if !s.Running? then s
    else
      var i := m.prog(s.pc);
      if i.None? || s.pos > Len(m.e) || |s.cap| < 2 * m.count then Crashed
      else if Reads(i.value) then StepRead(m, s, i.value)
      else if i.value.SetI32? || i.value.SetCharPos? || i.value.CheckAdvance? || i.value.Loop? || i.value.LoopSplit?
      then StepRegister(m, s, i.value)
      else if i.value.SaveStart? || i.value.SaveEnd? || i.value.SaveReset? then StepSave(m, s, i.value)
      else if i.value.AssertStart? || i.value.AssertEnd? || i.value.AssertWord? || i.value.BackRef? || i.value.PrevChar?
      then StepTest(m, s, i.value)
      else StepControl(m, s, i.value)
  }

  function StepRead(m: Context, s: Machine, i: Instr): Machine
    requires s.Running? && s.pos <= Len(m.e) && Reads(i)
  {
    if s.pos < Len(m.e) && ReadAccepts(m.e, i, CharAt(m.e, s.pos, Len(m.e)))
    then s.(pc := s.pc + Size(i), pos := Next(m.e, s.pos, Len(m.e)))
    else Backtrack(s.stack)
  }

  function StepTest(m: Context, s: Machine, i: Instr): Machine
    requires s.Running? && s.pos <= Len(m.e) && |s.cap| >= 2 * m.count
    requires i.AssertStart? || i.AssertEnd? || i.AssertWord? || i.BackRef? || i.PrevChar?
  {
    var pc := s.pc + Size(i);
    match i
    case AssertStart(multiline) =>
      if s.pos == 0 || (multiline && IsLineTerminator(CharBefore(m.e, s.pos, 0))) then s.(pc := pc)
      else Backtrack(s.stack)
    case AssertEnd(multiline) =>
      if s.pos == Len(m.e) || (multiline && IsLineTerminator(CharAt(m.e, s.pos, Len(m.e)))) then s.(pc := pc)
      else Backtrack(s.stack)
    case AssertWord(negated, icase) =>
      if (WordBefore(m.e, s.pos, icase) != WordAfter(m.e, s.pos, icase)) != negated then s.(pc := pc)
      else Backtrack(s.stack)
    case BackRef(backward, icase, groups) =>
      var end := ReferenceEnd(m.e, groups, icase, backward, State(s.pos, s.cap[..2 * m.count]));
      if end.Some? then s.(pc := pc, pos := end.value) else Backtrack(s.stack)
    case PrevChar =>
      if s.pos == 0 then Backtrack(s.stack) else s.(pc := pc, pos := Prev(m.e, s.pos, 0))
  }

  function StepSave(m: Context, s: Machine, i: Instr): Machine
    requires s.Running? && |s.cap| >= 2 * m.count
    requires i.SaveStart? || i.SaveEnd? || i.SaveReset?
  {
    var pc := s.pc + Size(i);
    match i
    case SaveStart(g) => if g >= m.count then Crashed else s.(pc := pc, cap := s.cap[2 * g := s.pos])
    case SaveEnd(g) => if g >= m.count then Crashed else s.(pc := pc, cap := s.cap[2 * g + 1 := s.pos])
    case SaveReset(first, last) =>
      if last >= m.count then Crashed
      else if last < first then s.(pc := pc)
      else s.(pc := pc, cap := ResetCaps(s.cap, first, last + 1 - first))
  }

  function StepRegister(m: Context, s: Machine, i: Instr): Machine
    requires s.Running? && |s.cap| >= 2 * m.count
    requires i.SetI32? || i.SetCharPos? || i.CheckAdvance? || i.Loop? || i.LoopSplit?
  {
    var pc := s.pc + Size(i);
    var idx := 2 * m.count + i.r;
    if idx >= |s.cap| then Crashed
    else match i
      case SetI32(_, v) => s.(pc := pc, cap := s.cap[idx := v])
      case SetCharPos(_) => s.(pc := pc, cap := s.cap[idx := s.pos])
      case CheckAdvance(_) => if s.cap[idx] == s.pos then Backtrack(s.stack) else s.(pc := pc)
      case Loop(_, rel) =>
        var v := Countdown(s.cap[idx]);
        s.(pc := if v != 0 then pc + rel else pc, cap := s.cap[idx := v])
      case LoopSplit(checked, nextFirst, _, limit, rel) =>
        var v := Countdown(s.cap[idx]);
        var cap := s.cap[idx := v];
        if v > limit then s.(pc := pc + rel, cap := cap)
        else if checked && idx + 1 >= |cap| then Crashed
        else if checked && cap[idx + 1] == s.pos && v != limit then Backtrack(s.stack)
        else if v == 0 then s.(pc := pc, cap := cap)
        else Fork(s.(cap := cap), nextFirst, pc, pc + rel)
  }

  /** Continue on one branch and save the other. */
  function Fork(s: Machine, nextFirst: bool, next: int, target: int): Machine
    requires s.Running?
  {
    var saved := Frame(SplitFrame, if nextFirst then target else next, s.pos, s.cap);
    s.(pc := if nextFirst then next else target, stack := s.stack + [saved])
  }

  function StepControl(m: Context, s: Machine, i: Instr): Machine
    requires s.Running?
  {
    var pc := s.pc + Size(i);
    match i
    case Accept => Matched(s.pos, s.cap)
    case Goto(rel) => s.(pc := pc + rel)
    case Split(nextFirst, rel) => Fork(s, nextFirst, pc, pc + rel)
    case LookOp(negated, rel) =>
      var f := Frame(if negated then NegativeLookFrame else LookFrame, pc + rel, s.pos, s.cap);
      s.(pc := pc, stack := s.stack + [f])
    case LookAccept(negated) =>
      var popped := PopTo(s.stack, if negated then NegativeLookFrame else LookFrame);
      if popped.None? then Crashed
      else
        var (rest, f) := popped.value;
        if negated then Backtrack(rest) else Running(f.pc, f.pos, s.cap, rest)
    case _ => Crashed
  }

  // ----- runs -----

  function Run(m: Context, s: Machine, n: nat): Machine
    decreases n
  {
    if n == 0 then s else Run(m, Step(m, s), n - 1)
  }

  ghost predicate Reaches(m: Context, s: Machine, t: Machine) {
    exists n: nat :: Run(m, s, n) == t
  }

  lemma RunAdds(m: Context, s: Machine, n: nat, k: nat)
    ensures Run(m, s, n + k) == Run(m, Run(m, s, n), k)
    decreases n
  {
    if n != 0 {
      RunAdds(m, Step(m, s), n - 1, k);
    }
  }

  lemma ReachesSelf(m: Context, s: Machine)
    ensures Reaches(m, s, s)
  {
    assert Run(m, s, 0) == s;
  }

  lemma ReachesStep(m: Context, s: Machine)
    ensures Reaches(m, s, Step(m, s))
  {
    assert Run(m, s, 1) == Run(m, Step(m, s), 0) == Step(m, s);
  }

  lemma ReachesTransitive(m: Context, s: Machine, t: Machine, u: Machine)
    requires Reaches(m, s, t) && Reaches(m, t, u)
    ensures Reaches(m, s, u)
  {
    var n: nat :| Run(m, s, n) == t;
    var k: nat :| Run(m, t, k) == u;
    RunAdds(m, s, n, k);
    assert Run(m, s, n + k) == u;
  }
}
