/** No run of any program ever holds a position inside a surrogate pair. */
module Boundaries {
  import opened Subject
  import opened Options
  import opened RegexSyntax
  import opened Bytecode
  import opened Machine

  ghost predicate CapturesOnBoundaries(m: Context, cap: seq<int>) {
    |cap| >= 2 * m.count && forall i :: 0 <= i < 2 * m.count ==> cap[i] == -1 || Boundary(m.e, cap[i])
  }

  ghost predicate FramesOnBoundaries(m: Context, stack: seq<Frame>) {
    forall i :: 0 <= i < |stack| ==> Boundary(m.e, stack[i].pos) && CapturesOnBoundaries(m, stack[i].cap)
  }

  /** The current position, every capture and everything saved lie between code points. */
  ghost predicate OnBoundaries(m: Context, s: Machine) {
    match s
    case Running(_, pos, cap, stack) => Boundary(m.e, pos) && CapturesOnBoundaries(m, cap) && FramesOnBoundaries(m, stack)
    case Matched(end, captures) => Boundary(m.e, end) && CapturesOnBoundaries(m, captures)
    case _ => true
  }

  lemma {:induction false} BacktrackOnBoundaries(m: Context, stack: seq<Frame>)
    requires FramesOnBoundaries(m, stack)
    ensures OnBoundaries(m, Backtrack(stack))
  {
    hide CapturesOnBoundaries;
    if stack != [] && stack[|stack| - 1].kind.LookFrame? {
      BacktrackOnBoundaries(m, stack[..|stack| - 1]);
    }
  }

  lemma {:induction false} PopToOnBoundaries(m: Context, stack: seq<Frame>, kind: FrameKind)
    requires FramesOnBoundaries(m, stack)
    ensures var p := PopTo(stack, kind);
      p.Some? ==> FramesOnBoundaries(m, p.value.0) && Boundary(m.e, p.value.1.pos) && CapturesOnBoundaries(m, p.value.1.cap)
  {
    hide CapturesOnBoundaries;
    if stack != [] && stack[|stack| - 1].kind != kind {
      PopToOnBoundaries(m, stack[..|stack| - 1], kind);
    }
  }

  lemma ReadOnBoundaries(m: Context, s: Machine, i: Instr)
    requires s.Running? && s.pos <= Len(m.e) && Reads(i) && OnBoundaries(m, s)
    ensures OnBoundaries(m, StepRead(m, s, i))
  {
    hide ReadAccepts, FramesOnBoundaries, CapturesOnBoundaries;
    BacktrackOnBoundaries(m, s.stack);
    if s.pos < Len(m.e) {
      ForwardStep(m.e, s.pos, Len(m.e));
    }
  }

  lemma TestOnBoundaries(m: Context, s: Machine, i: Instr)
    requires s.Running? && s.pos <= Len(m.e) && |s.cap| >= 2 * m.count && OnBoundaries(m, s)
    requires i.AssertStart? || i.AssertEnd? || i.AssertWord? || i.BackRef? || i.PrevChar?
    ensures OnBoundaries(m, StepTest(m, s, i))
  {
    BacktrackOnBoundaries(m, s.stack);
    if i.BackRef? {
      ReferenceEndIsBoundary(m.e, i.groups, i.icase, i.backward, State(s.pos, s.cap[..2 * m.count]));
    } else if i.PrevChar? && s.pos != 0 {
      BackwardStep(m.e, s.pos, 0);
    }
  }

  lemma SaveOnBoundaries(m: Context, s: Machine, i: Instr)
    requires s.Running? && |s.cap| >= 2 * m.count && OnBoundaries(m, s)
    requires i.SaveStart? || i.SaveEnd? || i.SaveReset?
    ensures OnBoundaries(m, StepSave(m, s, i))
  {
    hide FramesOnBoundaries;
  }

  lemma ControlOnBoundaries(m: Context, s: Machine, i: Instr)
    requires s.Running? && OnBoundaries(m, s)
    ensures OnBoundaries(m, StepControl(m, s, i))
  {
    hide CapturesOnBoundaries;
    if i.LookAccept? {
      var kind := if i.negated then NegativeLookFrame else LookFrame;
      PopToOnBoundaries(m, s.stack, kind);
      var popped := PopTo(s.stack, kind);
      if i.negated && popped.Some? {
        BacktrackOnBoundaries(m, popped.value.0);
      }
    }
  }

  lemma RegisterOnBoundaries(m: Context, s: Machine, i: Instr)
    requires s.Running? && |s.cap| >= 2 * m.count && OnBoundaries(m, s)
    requires i.SetI32? || i.SetCharPos? || i.CheckAdvance? || i.Loop? || i.LoopSplit?
    ensures OnBoundaries(m, StepRegister(m, s, i))
  {
    BacktrackOnBoundaries(m, s.stack);
  }

  /** One step of any program whatsoever. */
  lemma StepKeepsBoundaries(m: Context, s: Machine)
    requires OnBoundaries(m, s)
    ensures OnBoundaries(m, Step(m, s))
  {
    hide OnBoundaries, StepRead, StepTest, StepSave, StepRegister, StepControl;
    if s.Running? && m.prog(s.pc).Some? && s.pos <= Len(m.e) && |s.cap| >= 2 * m.count {
      var i := m.prog(s.pc).value;
      if Reads(i) {
        ReadOnBoundaries(m, s, i);
      } else if i.SetI32? || i.SetCharPos? || i.CheckAdvance? || i.Loop? || i.LoopSplit? {
        RegisterOnBoundaries(m, s, i);
      } else if i.SaveStart? || i.SaveEnd? || i.SaveReset? {
        SaveOnBoundaries(m, s, i);
      } else if i.AssertStart? || i.AssertEnd? || i.AssertWord? || i.BackRef? || i.PrevChar? {
        TestOnBoundaries(m, s, i);
      } else {
        ControlOnBoundaries(m, s, i);
      }
    } else {
      CrashOnBoundaries(m);
    }
  }

  lemma CrashOnBoundaries(m: Context)
    ensures OnBoundaries(m, Crashed)
  {}

  /** Whole runs: from the start position `lre_exec` chooses, with all captures unset. */
  lemma {:induction false} RunKeepsBoundaries(m: Context, index: nat, cap: seq<int>, n: nat)
    requires index <= Len(m.e) && |cap| >= 2 * m.count && forall i :: 0 <= i < 2 * m.count ==> cap[i] == -1
    ensures OnBoundaries(m, Run(m, Running(0, StartPosition(m.e, index), cap, []), n))
  {
    var s := Running(0, StartPosition(m.e, index), cap, []);
    RunFrom(m, s, n);
  }

  lemma {:induction false} RunFrom(m: Context, s: Machine, n: nat)
    requires OnBoundaries(m, s)
    ensures OnBoundaries(m, Run(m, s, n))
    decreases n
  {
    hide OnBoundaries, Step;
    if n != 0 {
      StepKeepsBoundaries(m, s);
      RunFrom(m, Step(m, s), n - 1);
    }
  }
}
