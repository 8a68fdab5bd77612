/** Single steps of the machine, and what they leave in the capture array. */
module Steps {
  import opened Subject
  import opened Options
  import opened RegexSyntax
  import opened Bytecode
  import opened Codegen
  import opened OutcomeLists
  import opened Machine
  import opened Delivery
  import opened ClassOpcodes

  /** The machine about to run the code at a site from state `x`, represented by `cap`. */
  ghost function Start(x: State, cap: seq<int>, from: Site): Machine {
    Running(from.end, x.pos, cap, from.stack)
  }

  ghost function Past(from: Site, code: seq<Instr>): Site {
    from.(end := from.end + CodeSize(code))
  }

  // ----- single steps -----

  lemma StepSplit(m: Context, s: Machine, nextFirst: bool, rel: int)
    requires s.Running? && s.pos <= Len(m.e) && |s.cap| >= 2 * m.count && m.prog(s.pc) == Some(Split(nextFirst, rel))
    ensures Step(m, s) ==
      var saved := Frame(SplitFrame, if nextFirst then s.pc + 5 + rel else s.pc + 5, s.pos, s.cap);
      Running(if nextFirst then s.pc + 5 else s.pc + 5 + rel, s.pos, s.cap, s.stack + [saved])
  {}

  lemma StepPrev(m: Context, x: State, cap: seq<int>, from: Site)
    requires x.pos <= Len(m.e) && |cap| >= 2 * m.count && m.prog(from.end) == Some(PrevChar)
    ensures Step(m, Start(x, cap, from)) ==
      if x.pos == 0 then Backtrack(from.stack)
      else Start(x.(pos := Prev(m.e, x.pos, 0)), cap, from.(end := from.end + 1))
  {}

  /** A character opcode accepts what the pattern accepts. */
  lemma StepReads(m: Context, n: Pattern, x: State, cap: seq<int>, from: Site)
    requires IsCharacter(n) && x.pos <= Len(m.e) && |cap| >= 2 * m.count
    requires m.prog(from.end) == Some(CharacterCode(n))
    ensures Step(m, Start(x, cap, from)) ==
      if CanStep(m.e, false, x.pos) && Accepts(m.e, n, StepOver(m.e, false, x.pos))
      then Start(x.(pos := StepTo(m.e, false, x.pos)), cap, from.(end := from.end + Size(CharacterCode(n))))
      else Backtrack(from.stack)
  {
    hide Accepts, ReadAccepts, CharacterCode;
    CharacterMatches(m.e, n, if x.pos < Len(m.e) then CharAt(m.e, x.pos, Len(m.e)) else 0);
  }

  lemma StepAsserts(m: Context, n: Pattern, backward: bool, x: State, cap: seq<int>, from: Site)
    requires IsAssertion(n) && x.pos <= Len(m.e) && |cap| >= 2 * m.count
    requires m.prog(from.end) == Some(TestCode(n, backward))
    ensures Step(m, Start(x, cap, from)) ==
      if Holds(m.e, n, x.pos) then Start(x, cap, from.(end := from.end + 1)) else Backtrack(from.stack)
  {}

  lemma StepReference(m: Context, n: Pattern, backward: bool, x: State, cap: seq<int>, from: Site)
    requires n.BackReference? && x.pos <= Len(m.e) && Carries(m, cap, x.caps, from.pre)
    requires m.prog(from.end) == Some(TestCode(n, backward))
    ensures var end := ReferenceEnd(m.e, n.groups, n.icase, backward, x);
      Step(m, Start(x, cap, from)) ==
        if end.None? then Backtrack(from.stack)
        else Start(x.(pos := end.value), cap, from.(end := from.end + 2 + |n.groups|))
  {
    assert State(x.pos, cap[..2 * m.count]) == x;
  }

  lemma StepLook(m: Context, s: Machine, negated: bool, rel: int)
    requires s.Running? && s.pos <= Len(m.e) && |s.cap| >= 2 * m.count && m.prog(s.pc) == Some(LookOp(negated, rel))
    ensures Step(m, s) ==
      var f := Frame(if negated then NegativeLookFrame else LookFrame, s.pc + 5 + rel, s.pos, s.cap);
      Running(s.pc + 5, s.pos, s.cap, s.stack + [f])
  {}

  lemma StepOpen(m: Context, x: State, cap: seq<int>, from: Site, backward: bool, g: nat) returns (cap': seq<int>)
    requires Valid(m.e, x) && Carries(m, cap, x.caps, from.pre) && g < m.count
    requires m.prog(from.end) == Some(SaveOpen(backward, g))
    ensures Carries(m, cap', OpenGroup(x, g, backward).caps, from.pre)
    ensures Step(m, Start(x, cap, from)) == Start(OpenGroup(x, g, backward), cap', from.(end := from.end + 2))
  {
    cap' := if backward then cap[2 * g + 1 := x.pos] else cap[2 * g := x.pos];
  }

  /** The capture reset emitted for atom `a`, if it is needed. */
  ghost function ResetIf(needed: bool, a: Regex, g: nat, x: State): State
    requires 2 * (g + Groups(a)) <= |x.caps|
  {
    if needed && Groups(a) != 0 then Reset(x, g, Groups(a)) else x
  }

  lemma StepReset(m: Context, needed: bool, a: Regex, g: nat, x: State, cap: seq<int>, from: Site) returns (cap': seq<int>)
    requires Valid(m.e, x) && Carries(m, cap, x.caps, from.pre) && g + Groups(a) <= m.count
    requires HasCode(m.prog, from.end, ResetCode(needed, a, g))
    ensures Carries(m, cap', ResetIf(needed, a, g, x).caps, from.pre)
    ensures Valid(m.e, ResetIf(needed, a, g, x)) && ResetIf(needed, a, g, x).pos == x.pos
    ensures Reaches(m, Start(x, cap, from), Start(ResetIf(needed, a, g, x), cap', Past(from, ResetCode(needed, a, g))))
  {
    if needed && Groups(a) != 0 {
      cap' := ResetCaps(cap, g, Groups(a));
      assert ResetCode(needed, a, g)[1..] == [];
      assert CodeSize(ResetCode(needed, a, g)) == 3;
      assert ResetCaps(x.caps, g, Groups(a)) == cap'[..2 * m.count];
      assert from.pre == cap'[2 * m.count..2 * m.count + |from.pre|];
      ReachesStep(m, Start(x, cap, from));
    } else {
      cap' := cap;
      ReachesSelf(m, Start(x, cap, from));
    }
  }

  /** Storing `v` in the first free register. */
  lemma CarriesPush(m: Context, cap: seq<int>, caps: seq<int>, pre: seq<int>, v: int)
    requires Carries(m, cap, caps, pre) && |pre| < m.registers
    ensures Carries(m, cap[2 * m.count + |pre| := v], caps, pre + [v])
  {
    var cap' := cap[2 * m.count + |pre| := v];
    assert cap'[..2 * m.count] == cap[..2 * m.count];
    assert cap'[2 * m.count..2 * m.count + |pre| + 1] == pre + [v];
  }

  lemma StepSetI32(m: Context, s: Machine, caps: seq<int>, pre: seq<int>, v: nat)
    requires s.Running? && s.pos <= Len(m.e) && Carries(m, s.cap, caps, pre) && |pre| < m.registers
    requires m.prog(s.pc) == Some(SetI32(|pre|, v))
    ensures Carries(m, s.cap[2 * m.count + |pre| := v], caps, pre + [v])
    ensures Step(m, s) == s.(pc := s.pc + 6, cap := s.cap[2 * m.count + |pre| := v])
  {
    CarriesPush(m, s.cap, caps, pre, v);
  }

  /** The position saved for the zero-advance check, when there is one. */
  ghost function PushIf(checked: bool, pre: seq<int>, v: int): seq<int> {
    if checked then pre + [v] else pre
  }

  lemma StepSetPos(m: Context, checked: bool, x: State, cap: seq<int>, from: Site) returns (cap': seq<int>)
    requires Valid(m.e, x) && Carries(m, cap, x.caps, from.pre) && (checked ==> |from.pre| < m.registers)
    requires HasCode(m.prog, from.end, SetPosCode(checked, |from.pre|))
    ensures Carries(m, cap', x.caps, PushIf(checked, from.pre, x.pos))
    ensures Reaches(m, Start(x, cap, from), Start(x, cap', from.(end := from.end + Bytes2(checked))))
    ensures CodeSize(SetPosCode(checked, |from.pre|)) == Bytes2(checked)
    ensures |x.caps| == 2 * m.count && |PushIf(checked, from.pre, x.pos)| == |from.pre| + Count(checked)
  {
    if checked {
      cap' := cap[2 * m.count + |from.pre| := x.pos];
      CarriesPush(m, cap, x.caps, from.pre, x.pos);
      assert SetPosCode(checked, |from.pre|)[1..] == [];
      ReachesStep(m, Start(x, cap, from));
    } else {
      cap' := cap;
      ReachesSelf(m, Start(x, cap, from));
    }
  }

  lemma CarriesLast(m: Context, cap: seq<int>, caps: seq<int>, pre: seq<int>, v: int)
    requires Carries(m, cap, caps, pre + [v])
    ensures cap[2 * m.count + |pre|] == v && Carries(m, cap, caps, pre)
  {
    CarriesPrefix(m, cap, caps, pre + [v], |pre|);
    assert (pre + [v])[..|pre|] == pre;
    assert cap[2 * m.count..2 * m.count + |pre| + 1][|pre|] == v;
  }

  /** The zero-advance check after an iteration that started at position `v`. */
  lemma StepCheck(m: Context, checked: bool, pre: seq<int>, v: int, y: State, cap: seq<int>, from: Site)
    requires Valid(m.e, y) && Carries(m, cap, y.caps, PushIf(checked, pre, v))
    requires HasCode(m.prog, from.end, CheckCode(checked, |pre|))
    requires checked || y.pos != v
    ensures Carries(m, cap, y.caps, pre)
    ensures y.pos == v ==> Reaches(m, Start(y, cap, from), Backtrack(from.stack))
    ensures y.pos != v ==> Reaches(m, Start(y, cap, from), Start(y, cap, from.(end := from.end + Bytes2(checked))))
  {
    if checked {
      CarriesLast(m, cap, y.caps, pre, v);
      assert CheckCode(checked, |pre|)[1..] == [];
      ReachesStep(m, Start(y, cap, from));
    } else {
      ReachesSelf(m, Start(y, cap, from));
    }
  }

  lemma StepGoto(m: Context, s: Machine, rel: int)
    requires s.Running? && s.pos <= Len(m.e) && |s.cap| >= 2 * m.count && m.prog(s.pc) == Some(Goto(rel))
    ensures Reaches(m, s, s.(pc := s.pc + 5 + rel))
  {
    ReachesStep(m, s);
  }

  /** What a loop opcode does once the counter has come down to `v`: whether it may stop, must go on or
      must not stop here. */
  ghost predicate IsLoop(i: Instr, checked: bool, r: nat, limit: nat, greedy: bool, rel: int) {
    i == LoopSplit(checked, !greedy, r, limit, rel) || (i == Loop(r, rel) && !checked && limit == 0)
  }

  /** The counter `k` comes down to `k - 1`; while that exceeds `limit` the loop goes on. */
  lemma StepLoopOn(m: Context, i: Instr, checked: bool, limit: nat, greedy: bool, rel: int, pre: seq<int>, k: nat, v: int,
                   y: State, cap: seq<int>, from: Site) returns (cap': seq<int>)
    requires Valid(m.e, y) && Carries(m, cap, y.caps, PushIf(checked, pre + [k], v)) && 0 < k < 0x1_0000_0000
    requires m.prog(from.end) == Some(i) && IsLoop(i, checked, |pre|, limit, greedy, rel)
    requires k - 1 > limit
    ensures Carries(m, cap', y.caps, pre + [k - 1])
    ensures Step(m, Start(y, cap, from)) == Start(y, cap', from.(end := from.end + Size(i) + rel))
  {
    if checked {
      CarriesLast(m, cap, y.caps, pre + [k], v);
    }
    CarriesLast(m, cap, y.caps, pre, k);
    cap' := cap[2 * m.count + |pre| := k - 1];
    CarriesPush(m, cap, y.caps, pre, k - 1);
  }

  /** At or below `limit` an iteration that did not move fails, unless it was the last mandatory one. */
  lemma StepLoopFails(m: Context, i: Instr, limit: nat, greedy: bool, rel: int, pre: seq<int>, k: nat, y: State, cap: seq<int>, from: Site)
    requires Valid(m.e, y) && Carries(m, cap, y.caps, pre + [k] + [y.pos]) && 0 < k < 0x1_0000_0000
    requires m.prog(from.end) == Some(i) && IsLoop(i, true, |pre|, limit, greedy, rel)
    requires k - 1 < limit
    ensures Step(m, Start(y, cap, from)) == Backtrack(from.stack)
  {
    CarriesLast(m, cap, y.caps, pre + [k], y.pos);
    CarriesLast(m, cap, y.caps, pre, k);
  }

  /** The counter has run out. */
  lemma StepLoopEnds(m: Context, i: Instr, checked: bool, limit: nat, greedy: bool, rel: int, pre: seq<int>, v: int,
                     y: State, cap: seq<int>, from: Site) returns (cap': seq<int>)
    requires Valid(m.e, y) && Carries(m, cap, y.caps, PushIf(checked, pre + [1], v))
    requires m.prog(from.end) == Some(i) && IsLoop(i, checked, |pre|, limit, greedy, rel)
    requires checked && limit != 0 ==> y.pos != v
    ensures Carries(m, cap', y.caps, pre)
    ensures Step(m, Start(y, cap, from)) == Start(y, cap', from.(end := from.end + Size(i)))
  {
    if checked {
      CarriesLast(m, cap, y.caps, pre + [1], v);
    }
    CarriesLast(m, cap, y.caps, pre, 1);
    cap' := cap[2 * m.count + |pre| := 0];
    CarriesPush(m, cap, y.caps, pre, 0);
    CarriesLast(m, cap', y.caps, pre, 0);
  }

  /** An optional iteration may follow. */
  lemma StepLoopForks(m: Context, i: Instr, checked: bool, limit: nat, greedy: bool, rel: int, pre: seq<int>, k: nat, v: int,
                      y: State, cap: seq<int>, from: Site) returns (cap': seq<int>)
    requires Valid(m.e, y) && Carries(m, cap, y.caps, PushIf(checked, pre + [k], v)) && 1 < k < 0x1_0000_0000
    requires m.prog(from.end) == Some(i) && IsLoop(i, checked, |pre|, limit, greedy, rel)
    requires k - 1 <= limit && (checked && k - 1 != limit ==> y.pos != v)
    ensures Carries(m, cap', y.caps, pre + [k - 1])
    ensures var next, again := from.end + Size(i), from.end + Size(i) + rel;
      Step(m, Start(y, cap, from)) == Running(if greedy then again else next, y.pos, cap',
        from.stack + [Frame(SplitFrame, if greedy then next else again, y.pos, cap')])
  {
    if checked {
      CarriesLast(m, cap, y.caps, pre + [k], v);
    }
    CarriesLast(m, cap, y.caps, pre, k);
    cap' := cap[2 * m.count + |pre| := k - 1];
    CarriesPush(m, cap, y.caps, pre, k - 1);
  }
}
