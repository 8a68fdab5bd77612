/** Compiler correctness against the snapshot machine: the code of a pattern delivers exactly the
    outcomes of the pattern, in order. */
module Simulation {
  import opened Subject
  import opened Options
  import opened RegexSyntax
  import opened EcmaMatcher
  import opened Bytecode
  import opened Codegen
  import opened OutcomeLists
  import opened ClassOpcodes
  import opened Machine
  import opened Delivery
  import opened Steps
  import opened Layout
  import ZeroAdvance

  /** `x` is represented by `cap`, and there is room for the groups and registers of `n`. */
  ghost predicate Ready(m: Context, n: Pattern, backward: bool, g: nat, x: State, cap: seq<int>, pre: seq<int>) {
    && Valid(m.e, x)
    && Carries(m, cap, x.caps, pre)
    && Room(m, n, backward, g, pre)
  }

  ghost predicate Room(m: Context, n: Pattern, backward: bool, g: nat, pre: seq<int>) {
    |pre| + RegistersOf(n, backward) <= m.registers && g + Groups(n) <= m.count
  }

  ghost function CodeOf(n: Regex, backward: bool, g: nat, pre: seq<int>): seq<Instr> {
    Code(n, backward, From(|pre|), g)
  }

  // ----- the main induction -----

  /** The code of `n` delivers the outcomes of `n` just past itself. */
  lemma {:induction false} Simulates(m: Context, n: Pattern, backward: bool, g: nat, x: State, cap: seq<int>, from: Site)
    requires Ready(m, n, backward, g, x, cap, from.pre)
    requires HasCode(m.prog, from.end, CodeOf(n, backward, g, from.pre))
    ensures Delivers(m, Start(x, cap, from), Outcomes(m.e, true, n, backward, g, x),
                     Past(from, CodeOf(n, backward, g, from.pre)))
    decreases n, 1
  {
    hide Outcomes, CodeOf, HasCode, Delivers, RegistersOf, Groups;
    match n
    case Group(_) => SimulatesGroup(m, n, backward, g, x, cap, from);
    case Look(_, _, _) => SimulatesLook(m, n, backward, g, x, cap, from);
    case Cat(_, _) => SimulatesCat(m, n, backward, g, x, cap, from);
    case Alt(_, _) => SimulatesAlt(m, n, backward, g, x, cap, from);
    case Quant(_, _, _, _) => SimulatesQuant(m, n, backward, g, x, cap, from);
    case _ =>
      if IsCharacter(n) {
        SimulatesCharacter(m, n, backward, g, x, cap, from);
      } else {
        SimulatesTest(m, n, backward, g, x, cap, from);
      }
  }

  lemma SimulatesTest(m: Context, n: Pattern, backward: bool, g: nat, x: State, cap: seq<int>, from: Site)
    requires n.Empty? || IsAssertion(n) || n.BackReference?
    requires Ready(m, n, backward, g, x, cap, from.pre)
    requires HasCode(m.prog, from.end, CodeOf(n, backward, g, from.pre))
    ensures Delivers(m, Start(x, cap, from), Outcomes(m.e, true, n, backward, g, x),
                     Past(from, CodeOf(n, backward, g, from.pre)))
  {
    hide Delivers, Run, Step, Holds, ReferenceEnd;
    var s := Start(x, cap, from);
    var code := CodeOf(n, backward, g, from.pre);
    var at := Past(from, code);
    if n.Empty? {
      ReachesSelf(m, s);
      DeliversOne(m, s, x, at, cap);
    } else {
      assert |code| == 1 && code == [code[0]] + [];
      HasCodeFirst(m.prog, from.end, code[0], []);
      if n.BackReference? {
        StepReference(m, n, backward, x, cap, from);
      } else {
        StepAsserts(m, n, backward, x, cap, from);
      }
      var ys := Outcomes(m.e, true, n, backward, g, x);
      hide Outcomes;
      if ys == [] {
        DeliversFailure(m, s, at);
      } else {
        DeliversNext(m, s, ys[0], at, cap);
        assert ys == [ys[0]];
      }
    }
  }

  lemma SimulatesCharacter(m: Context, n: Pattern, backward: bool, g: nat, x: State, cap: seq<int>, from: Site)
    requires IsCharacter(n)
    requires Ready(m, n, backward, g, x, cap, from.pre)
    requires HasCode(m.prog, from.end, CodeOf(n, backward, g, from.pre))
    ensures Delivers(m, Start(x, cap, from), Outcomes(m.e, true, n, backward, g, x),
                     Past(from, CodeOf(n, backward, g, from.pre)))
  {
    hide Delivers, Outcomes, HasCode, CodeSize, Step, Run, Accepts, CharacterCode, ReadAccepts;
    CharacterIsOutcome(m.e, n, backward, g, x);
    var i := CharacterCode(n);
    var at := Past(from, CodeOf(n, backward, g, from.pre));
    if backward {
      assert CodeOf(n, backward, g, from.pre) == [PrevChar] + ([i] + ([PrevChar] + []));
      HasCodeFirst(m.prog, from.end, PrevChar, [i] + ([PrevChar] + []));
      HasCodeFirst(m.prog, from.end + 1, i, [PrevChar] + []);
      HasCodeFirst(m.prog, from.end + 1 + Size(i), PrevChar, []);
      NoCode();
      SimulatesBackwardCharacter(m, n, x, cap, from, at);
    } else {
      assert CodeOf(n, backward, g, from.pre) == [i] + [];
      HasCodeFirst(m.prog, from.end, i, []);
      NoCode();
      StepReads(m, n, x, cap, from);
      if CanStep(m.e, false, x.pos) && Accepts(m.e, n, StepOver(m.e, false, x.pos)) {
        DeliversNext(m, Start(x, cap, from), x.(pos := StepTo(m.e, false, x.pos)), at, cap);
      } else {
        DeliversFailure(m, Start(x, cap, from), at);
      }
    }
  }

  lemma CharacterIsOutcome(e: Input, n: Pattern, backward: bool, g: nat, x: State)
    requires IsCharacter(n) && Valid(e, x) && Fits(n, g, x)
    ensures Outcomes(e, true, n, backward, g, x) ==
      if CanStep(e, backward, x.pos) && Accepts(e, n, StepOver(e, backward, x.pos))
      then [x.(pos := StepTo(e, backward, x.pos))] else []
  {}

  /** `prev`, the test, `prev`: step back, test the character there, and stay before it. */
  lemma SimulatesBackwardCharacter(m: Context, n: Pattern, x: State, cap: seq<int>, from: Site, at: Site)
    requires IsCharacter(n) && Valid(m.e, x) && Carries(m, cap, x.caps, at.pre)
    requires at == from.(end := from.end + 2 + Size(CharacterCode(n)))
    requires m.prog(from.end) == Some(PrevChar) && m.prog(from.end + 1) == Some(CharacterCode(n))
    requires m.prog(from.end + 1 + Size(CharacterCode(n))) == Some(PrevChar)
    ensures Delivers(m, Start(x, cap, from),
      if CanStep(m.e, true, x.pos) && Accepts(m.e, n, StepOver(m.e, true, x.pos))
      then [x.(pos := StepTo(m.e, true, x.pos))] else [], at)
  {
    hide Delivers, Step, Run, Accepts, ReadAccepts, CharacterCode, CharAt, CharBefore;
    var s := Start(x, cap, from);
    StepPrev(m, x, cap, from);
    if x.pos == 0 {
      DeliversFailure(m, s, at);
    } else {
      BackwardStep(m.e, x.pos, 0);
      var p := Prev(m.e, x.pos, 0);
      var y := x.(pos := p);
      var second, third := from.(end := from.end + 1), from.(end := from.end + 1 + Size(CharacterCode(n)));
      StepReads(m, n, y, cap, second);
      if Accepts(m.e, n, CharBefore(m.e, x.pos, 0)) {
        StepPrev(m, x, cap, third);
        DeliversNext(m, Start(x, cap, third), y, at, cap);
        DeliversAfterStep(m, Start(y, cap, second), [y], at);
        DeliversAfterStep(m, s, [y], at);
      } else {
        DeliversFailure(m, Start(y, cap, second), at);
        DeliversAfterStep(m, s, [], at);
      }
    }
  }

  // ----- concatenation and alternation -----

  lemma {:induction false} SimulatesCat(m: Context, n: Pattern, backward: bool, g: nat, x: State, cap: seq<int>, from: Site)
    requires n.Cat?
    requires Ready(m, n, backward, g, x, cap, from.pre)
    requires HasCode(m.prog, from.end, CodeOf(n, backward, g, from.pre))
    ensures Delivers(m, Start(x, cap, from), Outcomes(m.e, true, n, backward, g, x),
                     Past(from, CodeOf(n, backward, g, from.pre)))
    decreases n, 0, 1
  {
    hide Delivers, HasCode, CodeSize, Step;
    var l, r := n.left, n.right;
    if backward {
      SimulatesThen(m, n, r, g + Groups(l), l, g, backward, x, cap, from);
    } else {
      SimulatesThen(m, n, l, g, r, g + Groups(l), backward, x, cap, from);
    }
  }

  lemma {:induction false} SimulatesThen(m: Context, whole: Pattern, n: Pattern, h: nat, n': Pattern, k: nat, backward: bool, x: State,
                       cap: seq<int>, from: Site)
    requires n < whole && n' < whole
    requires Ready(m, n, backward, h, x, cap, from.pre) && Room(m, n', backward, k, from.pre)
    requires HasCode(m.prog, from.end, CodeOf(n, backward, h, from.pre) + CodeOf(n', backward, k, from.pre))
    ensures Delivers(m, Start(x, cap, from),
                     OutcomesAll(m.e, true, n', backward, k, x, Outcomes(m.e, true, n, backward, h, x)),
                     Past(from, CodeOf(n, backward, h, from.pre) + CodeOf(n', backward, k, from.pre)))
    decreases whole, 0, 0
  {
    hide Delivers, Code, HasCode, CodeSize, Step, Outcomes, RegistersOf, Groups;
    var a, b := CodeOf(n, backward, h, from.pre), CodeOf(n', backward, k, from.pre);
    HasCodeAppend(m.prog, from.end, a, b);
    CodeSizeAppend(a, b);
    Simulates(m, n, backward, h, x, cap, from);
    SimulatesAll(m, n', backward, k, x, Start(x, cap, from), Outcomes(m.e, true, n, backward, h, x), Past(from, a));
  }

  lemma {:induction false} SimulatesAll(m: Context, n: Pattern, backward: bool, g: nat, x: State, s: Machine, ys: seq<State>, from: Site)
    requires Room(m, n, backward, g, from.pre) && |x.caps| == 2 * m.count && AllAfter(m.e, backward, x, ys)
    requires HasCode(m.prog, from.end, CodeOf(n, backward, g, from.pre))
    requires Delivers(m, s, ys, from)
    ensures Delivers(m, s, OutcomesAll(m.e, true, n, backward, g, x, ys), Past(from, CodeOf(n, backward, g, from.pre)))
    decreases n, 2, |ys|
  {
    hide Delivers, Outcomes, CodeOf, CodeSize, HasCode, RegistersOf, Groups, Run;
    var at := Past(from, CodeOf(n, backward, g, from.pre));
    if ys == [] {
      DeliversNoneAt(m, s, from, at);
    } else {
      var frames, cap := FirstDelivery(m, s, ys, from);
      var above := from.(stack := from.stack + frames);
      var outs := Outcomes(m.e, true, n, backward, g, ys[0]);
      Simulates(m, n, backward, g, ys[0], cap, above);
      DeliversAfter(m, s, Start(ys[0], cap, above), outs, at.(stack := above.stack));
      SimulatesAll(m, n, backward, g, x, Backtrack(above.stack), ys[1..], from);
      DeliversAppend(m, s, outs, OutcomesAll(m.e, true, n, backward, g, x, ys[1..]), at, frames);
    }
  }

  lemma {:induction false} SimulatesAlt(m: Context, n: Pattern, backward: bool, g: nat, x: State, cap: seq<int>, from: Site)
    requires n.Alt?
    requires Ready(m, n, backward, g, x, cap, from.pre)
    requires HasCode(m.prog, from.end, CodeOf(n, backward, g, from.pre))
    ensures Delivers(m, Start(x, cap, from), Outcomes(m.e, true, n, backward, g, x),
                     Past(from, CodeOf(n, backward, g, from.pre)))
    decreases n, 0, 0
  {
    hide Delivers, Code, CodeSize, HasCode, Step, Outcomes;
    var l, r := n.left, n.right;
    var s := Start(x, cap, from);
    AltLayout(m.prog, from.end, n, backward, From(|from.pre|), g);
    AltOutcomes(m.e, true, n, backward, g, x);
    var a, b := CodeOf(l, backward, g, from.pre), CodeOf(r, backward, g + Groups(l), from.pre);
    var at := Past(from, CodeOf(n, backward, g, from.pre));
    var target := from.end + 10 + CodeSize(a);
    var saved := Frame(SplitFrame, target, x.pos, cap);
    var left, right := Site(from.end + 5, from.stack + [saved], from.pre), Site(target, from.stack, from.pre);
    var ys, zs := Outcomes(m.e, true, l, backward, g, x), Outcomes(m.e, true, r, backward, g + Groups(l), x);
    Simulates(m, l, backward, g, x, cap, left);
    DeliversGoto(m, Start(x, cap, left), ys, Past(left, a), CodeSize(b));
    Simulates(m, r, backward, g + Groups(l), x, cap, right);
    assert left.stack[..|left.stack| - 1] == from.stack;
    DeliversAppend(m, Start(x, cap, left), ys, zs, at, [saved]);
    StepSplit(m, s, true, CodeSize(a) + 5);
    DeliversAfterStep(m, s, ys + zs, at);
  }

  // ----- groups and lookarounds -----

  lemma {:induction false} SimulatesGroup(m: Context, n: Pattern, backward: bool, g: nat, x: State, cap: seq<int>, from: Site)
    requires n.Group?
    requires Ready(m, n, backward, g, x, cap, from.pre)
    requires HasCode(m.prog, from.end, CodeOf(n, backward, g, from.pre))
    ensures Delivers(m, Start(x, cap, from), Outcomes(m.e, true, n, backward, g, x),
                     Past(from, CodeOf(n, backward, g, from.pre)))
    decreases n, 0, 0
  {
    hide Delivers, Code, CodeSize, HasCode, Step, Outcomes;
    var s := Start(x, cap, from);
    GroupLayout(m.prog, from.end, n, backward, From(|from.pre|), g);
    GroupOutcomes(m.e, true, n, backward, g, x);
    var c := CodeOf(n.body, backward, g + 1, from.pre);
    var x' := OpenGroup(x, g, backward);
    var cap' := StepOpen(m, x, cap, from, backward, g);
    var inner := from.(end := from.end + 2);
    Simulates(m, n.body, backward, g + 1, x', cap', inner);
    var ys := Outcomes(m.e, true, n.body, backward, g + 1, x');
    SimulatesClose(m, backward, g, x, Start(x', cap', inner), ys, Past(inner, c));
    DeliversAfterStep(m, s, CloseAll(m.e, true, g, backward, x, ys), Past(from, CodeOf(n, backward, g, from.pre)));
  }

  lemma {:induction false} SimulatesClose(m: Context, backward: bool, g: nat, x: State, s: Machine, ys: seq<State>, from: Site)
    requires g < m.count && |x.caps| == 2 * m.count && Valid(m.e, x) && AllAfter(m.e, backward, x, ys)
    requires m.prog(from.end) == Some(SaveClose(backward, g))
    requires Delivers(m, s, ys, from)
    ensures Delivers(m, s, CloseAll(m.e, true, g, backward, x, ys), from.(end := from.end + 2))
    decreases |ys|
  {
    hide Delivers, Run;
    var at := from.(end := from.end + 2);
    if ys == [] {
      DeliversNoneAt(m, s, from, at);
    } else {
      var frames, cap := FirstDelivery(m, s, ys, from);
      var above := from.(stack := from.stack + frames);
      var z := CloseGroup(true, g, backward, x, ys[0]);
      var cap' := if backward then cap[2 * g := ys[0].pos] else cap[2 * g + 1 := ys[0].pos];
      assert Carries(m, cap', z.caps, from.pre);
      DeliversNext(m, Start(ys[0], cap, above), z, at.(stack := above.stack), cap');
      DeliversAfter(m, s, Start(ys[0], cap, above), [z], at.(stack := above.stack));
      SimulatesClose(m, backward, g, x, Backtrack(above.stack), ys[1..], from);
      DeliversAppend(m, s, [z], CloseAll(m.e, true, g, backward, x, ys[1..]), at, frames);
    }
  }

  lemma {:induction false} PopToSkipsSplits(stack: seq<Frame>, f: Frame, frames: seq<Frame>)
    requires SplitsOnly(frames) && !f.kind.SplitFrame?
    ensures PopTo(stack + [f] + frames, f.kind) == Some((stack, f))
    decreases |frames|
  {
    var all := stack + [f] + frames;
    if frames == [] {
      assert all[..|all| - 1] == stack;
    } else {
      assert all[..|all| - 1] == stack + [f] + frames[..|frames| - 1];
      PopToSkipsSplits(stack, f, frames[..|frames| - 1]);
    }
  }

  lemma {:induction false} SimulatesLook(m: Context, n: Pattern, backward: bool, g: nat, x: State, cap: seq<int>, from: Site)
    requires n.Look?
    requires Ready(m, n, backward, g, x, cap, from.pre)
    requires HasCode(m.prog, from.end, CodeOf(n, backward, g, from.pre))
    ensures Delivers(m, Start(x, cap, from), Outcomes(m.e, true, n, backward, g, x),
                     Past(from, CodeOf(n, backward, g, from.pre)))
    decreases n, 0, 0
  {
    hide Delivers, Code, CodeSize, HasCode, Step, Outcomes;
    var Look(negated, behind, body) := n;
    var s := Start(x, cap, from);
    LookLayout(m.prog, from.end, n, backward, From(|from.pre|), g);
    LookOutcomes(m.e, true, n, backward, g, x);
    var c := CodeOf(body, behind, g, from.pre);
    var at := Past(from, CodeOf(n, backward, g, from.pre));
    var f := Frame(if negated then NegativeLookFrame else LookFrame, at.end, x.pos, cap);
    var inner := Site(from.end + 5, from.stack + [f], from.pre);
    StepLook(m, s, negated, CodeSize(c) + 1);
    Simulates(m, body, behind, g, x, cap, inner);
    var t := Start(x, cap, inner);
    LookResult(m, negated, x, cap, t, Outcomes(m.e, true, body, behind, g, x), Past(inner, c), f, at);
    DeliversAfterStep(m, s, Outcomes(m.e, true, n, backward, g, x), at);
  }

  /** The body of a lookaround has been started at `t` above the frame `f`. */
  lemma LookResult(m: Context, negated: bool, x: State, cap: seq<int>, t: Machine, ys: seq<State>, inner: Site, f: Frame, at: Site)
    requires Carries(m, cap, x.caps, at.pre) && inner.pre == at.pre && inner.stack == at.stack + [f]
    requires f == Frame(if negated then NegativeLookFrame else LookFrame, at.end, x.pos, cap)
    requires m.prog(inner.end) == Some(LookAccept(negated))
    requires forall i :: 0 <= i < |ys| ==> ys[i].pos <= Len(m.e)
    requires Delivers(m, t, ys, inner)
    ensures Delivers(m, t, if negated then if ys == [] then [x] else []
                           else if ys == [] then [] else [x.(caps := ys[0].caps)], at)
  {
    if ys == [] {
      assert inner.stack[..|inner.stack| - 1] == at.stack;
      if negated {
        DeliversOne(m, t, x, at, cap);
      } else {
        DeliversNothing(m, t, at);
      }
    } else {
      var frames, cap' := FirstDelivery(m, t, ys, inner);
      var u := Running(inner.end, ys[0].pos, cap', inner.stack + frames);
      PopToSkipsSplits(at.stack, f, frames);
      ReachesStep(m, u);
      ReachesTransitive(m, t, u, Step(m, u));
      if negated {
        DeliversNothing(m, t, at);
      } else {
        DeliversOne(m, t, x.(caps := ys[0].caps), at, cap');
      }
    }
  }

  // ----- quantifiers -----

  lemma {:induction false} SimulatesQuant(m: Context, n: Pattern, backward: bool, g: nat, x: State, cap: seq<int>, from: Site)
    requires n.Quant?
    requires Ready(m, n, backward, g, x, cap, from.pre)
    requires HasCode(m.prog, from.end, CodeOf(n, backward, g, from.pre))
    ensures Delivers(m, Start(x, cap, from), Outcomes(m.e, true, n, backward, g, x),
                     Past(from, CodeOf(n, backward, g, from.pre)))
    decreases n, 0, 1
  {
    hide Delivers, HasCode, CodeSize, Step, Outcomes, Repeat, ScanOf;
    var Quant(a, min, max, greedy) := n;
    var bound := UpperBound(true, a, backward, min, max);
    if min == 0 {
      SimulatesZero(m, n, backward, g, x, cap, from);
    } else {
      RequiredOutcomes(m.e, n, backward, g, x);
      if min == 1 && max == INFINITE && !Checked(a, backward) {
        PlusIterates(m, a, backward, g, 1, greedy, x, cap, from);
      } else if min >= max {
        SimulatesExact(m, a, backward, g, max, greedy, x, cap, from);
      } else {
        SimulatesCounted(m, a, backward, g, max, max - min, greedy, x, cap, from);
      }
    }
  }

  /** Quantifiers that may match nothing: the captures are first reset if the loop does not do it. */
  lemma {:induction false} SimulatesZero(m: Context, n: Pattern, backward: bool, g: nat, x: State, cap: seq<int>, from: Site)
    requires n.Quant? && n.min == 0
    requires Ready(m, n, backward, g, x, cap, from.pre)
    requires HasCode(m.prog, from.end, CodeOf(n, backward, g, from.pre))
    ensures Delivers(m, Start(x, cap, from), Outcomes(m.e, true, n, backward, g, x),
                     Past(from, CodeOf(n, backward, g, from.pre)))
    decreases n, 0, 0
  {
    hide Delivers, Code, HasCode, CodeSize, Step, Outcomes, Repeat, ScanOf;
    var Quant(a, min, max, greedy) := n;
    var rs := From(|from.pre|);
    var reset := ResetCode(ResetsBefore(a, backward), a, g);
    var rest := ZeroRest(n, backward, rs, g);
    ZeroLayout(m.prog, from.end, n, backward, rs, g);
    var cap' := StepReset(m, ResetsBefore(a, backward), a, g, x, cap, from);
    var x' := ResetIf(ResetsBefore(a, backward), a, g, x);
    var from' := Past(from, reset);
    var bound := UpperBound(true, a, backward, min, max);
    var ys := Repeat(m.e, true, a, backward, g, 0, bound, greedy, x');
    var at := Past(from', rest);
    ZeroOutcomes(m.e, n, backward, g, x);
    if max == 0 {
      NoCode();
      ReachesSelf(m, Start(x', cap', from'));
      DeliversOne(m, Start(x', cap', from'), x', at, cap');
    } else if max == 1 || max == INFINITE {
      SimulatesOptional(m, a, backward, g, bound, greedy, x', cap', from', at.end);
    } else {
      SimulatesOptionalCounted(m, a, backward, g, max, greedy, x', cap', from');
    }
    DeliversAfter(m, Start(x, cap, from), Start(x', cap', from'), ys, at);
  }

  /** One iteration of an atom, with the capture reset where the compiler puts one. */
  lemma {:induction false} SimulatesBody(m: Context, a: Pattern, backward: bool, g: nat, x: State, cap: seq<int>, from: Site)
    requires Ready(m, a, backward, g, x, cap, from.pre)
    requires HasCode(m.prog, from.end, LoopBody(a, backward, From(|from.pre|), g))
    ensures Delivers(m, Start(x, cap, from),
                     Outcomes(m.e, true, a, backward, g, IterationStart(true, a, backward, g, x)),
                     Past(from, LoopBody(a, backward, From(|from.pre|), g)))
    decreases a, 2
  {
    hide Delivers, Outcomes, HasCode, Code, LoopBody, CodeSize, Step, ScanOf, RegistersOf, Groups, NeedsCaptureInit;
    var reset := ResetCode(ResetsInside(a, backward), a, g);
    var c := CodeOf(a, backward, g, from.pre);
    BodyLayout(m.prog, from.end, a, backward, From(|from.pre|), g);
    var cap' := StepReset(m, ResetsInside(a, backward), a, g, x, cap, from);
    var x' := ResetIf(ResetsInside(a, backward), a, g, x);
    Simulates(m, a, backward, g, x', cap', Past(from, reset));
    DeliversAfter(m, Start(x, cap, from), Start(x', cap', Past(from, reset)),
                  Outcomes(m.e, true, a, backward, g, x'), Past(Past(from, reset), c));
  }

  // `a?` and `a*`

  /** The code of an optional quantifier lies at `pc` and ends at `exit`. The bound is 1 or infinite. */
  ghost predicate OptionalAt(m: Context, a: Pattern, backward: bool, g: nat, bound: Option<nat>, greedy: bool, pc: int,
                             pre: seq<int>, exit: int) {
    var code := OptionalCode(a, backward, From(|pre|), g, bound == None, greedy);
    && (bound == None || bound == Some(1))
    && HasCode(m.prog, pc, code) && exit == pc + CodeSize(code)
    && |pre| + Count(Checked(a, backward)) + RegistersOf(a, backward) <= m.registers && g + Groups(a) <= m.count
  }

  /** Where the zero-advance check, or what follows it, lies. */
  ghost function OptionalMiddle(a: Pattern, backward: bool, g: nat, pc: int, pre: seq<int>): int {
    pc + 5 + Bytes2(Checked(a, backward)) + CodeSize(LoopBody(a, backward, From(|pre| + Count(Checked(a, backward))), g))
  }

  lemma OptionalParts(m: Context, a: Pattern, backward: bool, g: nat, bound: Option<nat>, greedy: bool, pc: int,
                      pre: seq<int>, exit: int)
    requires OptionalAt(m, a, backward, g, bound, greedy, pc, pre, exit)
    ensures var checked := Checked(a, backward); var mid := OptionalMiddle(a, backward, g, pc, pre);
      && m.prog(pc) == Some(Split(greedy, exit - (pc + 5)))
      && HasCode(m.prog, pc + 5, SetPosCode(checked, |pre|))
      && HasCode(m.prog, pc + 5 + Bytes2(checked), LoopBody(a, backward, From(|pre| + Count(checked)), g))
      && HasCode(m.prog, mid, CheckCode(checked, |pre|))
      && (bound == None ==> m.prog(mid + Bytes2(checked)) == Some(Goto(pc - exit)))
      && exit == mid + Bytes2(checked) + (if bound == None then 5 else 0)
      && Room(m, a, backward, g, pre) && (checked ==> |pre| < m.registers)
      && |pre| + Count(checked) + RegistersOf(a, backward) <= m.registers
  {
    hide HasCode, CodeSize, ScanOf, OptionalCode, LoopBody, RegistersOf, Groups, SetPosCode, CheckCode;
    OptionalLayout(m.prog, pc, a, backward, From(|pre|), g, bound == None, greedy);
  }

  lemma {:induction false} SimulatesOptional(m: Context, a: Pattern, backward: bool, g: nat, bound: Option<nat>, greedy: bool,
                           x: State, cap: seq<int>, from: Site, exit: int)
    requires Valid(m.e, x) && Carries(m, cap, x.caps, from.pre)
    requires OptionalAt(m, a, backward, g, bound, greedy, from.end, from.pre, exit)
    ensures Delivers(m, Start(x, cap, from), Repeat(m.e, true, a, backward, g, 0, bound, greedy, x), from.(end := exit))
    decreases a, 3, Remaining(m.e, backward, x.pos), 2, 0
  {
    hide Delivers, Step, Iterate, Repeat, OptionalAt, Checked, HasCode;
    OptionalParts(m, a, backward, g, bound, greedy, from.end, from.pre, exit);
    var s := Start(x, cap, from);
    var once := Iterate(m.e, true, a, backward, g, 0, bound, greedy, x);
    var at := from.(end := exit);
    RepeatUnfolds(m.e, true, a, backward, g, 0, bound, greedy, x);
    StepSplit(m, s, greedy, exit - (from.end + 5));
    forall stack ensures Delivers(m, Running(from.end + 5, x.pos, cap, stack), once, at.(stack := stack)) {
      OptionalIterates(m, a, backward, g, bound, greedy, x, cap, from.(stack := stack), exit);
    }
    DeliversFork(m, s, once, x, cap, greedy, from.end + 5, at);
    assert bound != Some(0) by { BoundIsPositive(m, a, backward, g, bound, greedy, from.end, from.pre, exit); }
  }

  lemma BoundIsPositive(m: Context, a: Pattern, backward: bool, g: nat, bound: Option<nat>, greedy: bool, pc: int,
                        pre: seq<int>, exit: int)
    requires OptionalAt(m, a, backward, g, bound, greedy, pc, pre, exit)
    ensures bound == None || bound == Some(1)
  {}

  /** From just after the split, one iteration delivers at the zero-advance check. */
  lemma {:induction false} OptionalBody(m: Context, a: Pattern, backward: bool, g: nat, bound: Option<nat>, greedy: bool,
                          x: State, cap: seq<int>, from: Site, exit: int) returns (t: Machine)
    requires Valid(m.e, x) && Carries(m, cap, x.caps, from.pre)
    requires OptionalAt(m, a, backward, g, bound, greedy, from.end, from.pre, exit)
    ensures Reaches(m, Running(from.end + 5, x.pos, cap, from.stack), t)
    ensures Fits(a, g, x)
    ensures Delivers(m, t, Outcomes(m.e, true, a, backward, g, IterationStart(true, a, backward, g, x)),
                     Site(OptionalMiddle(a, backward, g, from.end, from.pre), from.stack,
                          PushIf(Checked(a, backward), from.pre, x.pos)))
    decreases a, 3, Remaining(m.e, backward, x.pos), 0, 0
  {
    hide HasCode, Delivers, Step, CodeSize, ScanOf, OptionalAt, LoopBody, RegistersOf, Groups, Outcomes,
         IterationStart, Run, Valid, Checked, After, Remaining, Reaches, Bytes2, Carries, PushIf;
    OptionalParts(m, a, backward, g, bound, greedy, from.end, from.pre, exit);
    var checked := Checked(a, backward);
    var cap' := StepSetPos(m, checked, x, cap, from.(end := from.end + 5));
    var body := Site(from.end + 5 + Bytes2(checked), from.stack, PushIf(checked, from.pre, x.pos));
    SimulatesBody(m, a, backward, g, x, cap', body);
    t := Start(x, cap', body);
  }

  /** From just after the split, the iterations deliver at the end of the loop. */
  lemma {:induction false} OptionalIterates(m: Context, a: Pattern, backward: bool, g: nat, bound: Option<nat>, greedy: bool,
                          x: State, cap: seq<int>, from: Site, exit: int)
    requires Valid(m.e, x) && Carries(m, cap, x.caps, from.pre)
    requires OptionalAt(m, a, backward, g, bound, greedy, from.end, from.pre, exit)
    ensures Delivers(m, Running(from.end + 5, x.pos, cap, from.stack), Iterate(m.e, true, a, backward, g, 0, bound, greedy, x),
                     from.(end := exit))
    decreases a, 3, Remaining(m.e, backward, x.pos), 1, 0
  {
    hide Delivers, Step, ScanOf, OptionalAt, OptionalMiddle, Groups, RepeatAll, Outcomes,
         Iterate, AllAfter, IterationStart, Run, Valid, Checked, After, Remaining, Reaches, Carries, PushIf, Fits;
    var t := OptionalBody(m, a, backward, g, bound, greedy, x, cap, from, exit);
    IterateUnfolds(m.e, true, a, backward, g, 0, bound, greedy, x);
    var x' := IterationStart(true, a, backward, g, x);
    var ys := Outcomes(m.e, true, a, backward, g, x');
    if !Checked(a, backward) {
      ZeroAdvance.UncheckedMoves(m.e, true, a, backward, g, x');
    }
    OptionalContinues(m, a, backward, g, bound, greedy, x, t, ys, from, exit);
    DeliversAfter(m, Running(from.end + 5, x.pos, cap, from.stack), t,
                  RepeatAll(m.e, true, a, backward, g, 0, bound, greedy, x, ys), from.(end := exit));
  }

  lemma {:induction false} OptionalContinues(m: Context, a: Pattern, backward: bool, g: nat, bound: Option<nat>, greedy: bool,
                           x: State, s: Machine, ys: seq<State>, from: Site, exit: int)
    requires Valid(m.e, x) && Fits(a, g, x) && AllAfter(m.e, backward, x, ys)
    requires OptionalAt(m, a, backward, g, bound, greedy, from.end, from.pre, exit)
    requires !Checked(a, backward) ==> ZeroAdvance.AllMoved(x, ys)
    requires Delivers(m, s, ys, Site(OptionalMiddle(a, backward, g, from.end, from.pre), from.stack,
                                     PushIf(Checked(a, backward), from.pre, x.pos)))
    ensures Delivers(m, s, RepeatAll(m.e, true, a, backward, g, 0, bound, greedy, x, ys), from.(end := exit))
    decreases a, 3, Remaining(m.e, backward, x.pos), 0, |ys|
  {
    hide HasCode, Delivers, Step, OptionalAt, OptionalMiddle, RegistersOf, Groups, Repeat, CheckCode, Run, Carries, Valid,
         RepeatAll, AllAfter, Checked, Remaining, Reaches, PushIf, Size, CodeSize, DecrementMax, LoopBody;
    var checked := Checked(a, backward);
    var at := from.(end := exit);
    var mid := Site(OptionalMiddle(a, backward, g, from.end, from.pre), from.stack, PushIf(checked, from.pre, x.pos));
    if ys == [] {
      DeliversNoneAt(m, s, mid, at);
      RepeatAllNone(m.e, true, a, backward, g, 0, bound, greedy, x);
    } else {
      var frames, cap := FirstDelivery(m, s, ys, mid);
      RepeatAllFirst(m.e, true, a, backward, g, 0, bound, greedy, x, ys);
      var above := from.stack + frames;
      var t := Start(ys[0], cap, mid.(stack := above));
      var rest := RepeatAll(m.e, true, a, backward, g, 0, bound, greedy, x, ys[1..]);
      OptionalContinues(m, a, backward, g, bound, greedy, x, Backtrack(above), ys[1..], from, exit);
      OptionalAgain(m, a, backward, g, bound, greedy, x.pos, ys[0], cap, from.(stack := above), exit);
      if ys[0].pos == x.pos {
        ReachesTransitive(m, s, t, Backtrack(above));
        DeliversAfter(m, s, Backtrack(above), rest, at);
      } else {
        var outs := Repeat(m.e, true, a, backward, g, 0, DecrementMax(bound), greedy, ys[0]);
        DeliversAfter(m, s, t, outs, at.(stack := above));
        DeliversAppend(m, s, outs, rest, at, frames);
      }
    }
  }

  /** After an iteration that started at position `v`: fail if it did not move, else back to the split or done. */
  lemma {:induction false} OptionalAgain(m: Context, a: Pattern, backward: bool, g: nat, bound: Option<nat>, greedy: bool, v: nat,
                               y: State, cap: seq<int>, from: Site, exit: int)
    requires Valid(m.e, y) && Carries(m, cap, y.caps, PushIf(Checked(a, backward), from.pre, v))
    requires OptionalAt(m, a, backward, g, bound, greedy, from.end, from.pre, exit)
    requires Checked(a, backward) || y.pos != v
    requires y.pos != v ==> Remaining(m.e, backward, y.pos) < Remaining(m.e, backward, v)
    ensures var t := Start(y, cap, from.(end := OptionalMiddle(a, backward, g, from.end, from.pre)));
      && Fits(a, g, y)
      && (y.pos == v ==> Reaches(m, t, Backtrack(from.stack)))
      && (y.pos != v ==> Delivers(m, t, Repeat(m.e, true, a, backward, g, 0, DecrementMax(bound), greedy, y), from.(end := exit)))
    decreases a, 3, Remaining(m.e, backward, v), 0, 0
  {
    hide HasCode, Delivers, Step, OptionalAt, OptionalMiddle, RegistersOf, CheckCode, Run, Repeat, Checked;
    OptionalParts(m, a, backward, g, bound, greedy, from.end, from.pre, exit);
    BoundIsPositive(m, a, backward, g, bound, greedy, from.end, from.pre, exit);
    var checked := Checked(a, backward);
    var mid := from.(end := OptionalMiddle(a, backward, g, from.end, from.pre));
    StepCheck(m, checked, from.pre, v, y, cap, mid);
    if y.pos != v {
      var t, u := Start(y, cap, mid), Start(y, cap, mid.(end := mid.end + Bytes2(checked)));
      var outs := Repeat(m.e, true, a, backward, g, 0, DecrementMax(bound), greedy, y);
      var at := from.(end := exit);
      RepeatUnfolds(m.e, true, a, backward, g, 0, DecrementMax(bound), greedy, y);
      if bound == None {
        StepGoto(m, u, from.end - exit);
        SimulatesOptional(m, a, backward, g, bound, greedy, y, cap, from, exit);
        DeliversAfter(m, u, Start(y, cap, from), outs, at);
      } else {
        ReachesSelf(m, u);
        DeliversOne(m, u, y, at, cap);
      }
      DeliversAfter(m, t, u, outs, at);
    }
  }

  // `a+` of an atom that always advances

  lemma {:induction false} PlusIterates(m: Context, a: Pattern, backward: bool, g: nat, min: nat, greedy: bool,
                              x: State, cap: seq<int>, from: Site)
    requires Ready(m, a, backward, g, x, cap, from.pre) && min <= 1 && !Checked(a, backward)
    requires HasCode(m.prog, from.end, PlusCode(a, backward, From(|from.pre|), g, greedy))
    ensures Delivers(m, Start(x, cap, from), Iterate(m.e, true, a, backward, g, min, None, greedy, x),
                     Past(from, PlusCode(a, backward, From(|from.pre|), g, greedy)))
    decreases a, 3, Remaining(m.e, backward, x.pos), 1, 0
  {
    hide HasCode, Delivers, Step, Code, CodeSize, ScanOf, PlusCode, LoopBody, RegistersOf, Groups, RepeatAll, Outcomes,
         Iterate, AllAfter, IterationStart;
    IterateUnfolds(m.e, true, a, backward, g, min, None, greedy, x);
    PlusLayout(m.prog, from.end, a, backward, From(|from.pre|), g, greedy);
    var x' := IterationStart(true, a, backward, g, x);
    SimulatesBody(m, a, backward, g, x, cap, from);
    ZeroAdvance.UncheckedMoves(m.e, true, a, backward, g, x');
    PlusContinues(m, a, backward, g, min, greedy, x, Start(x, cap, from), Outcomes(m.e, true, a, backward, g, x'), from);
  }

  lemma {:induction false} PlusContinues(m: Context, a: Pattern, backward: bool, g: nat, min: nat, greedy: bool,
                               x: State, s: Machine, ys: seq<State>, from: Site)
    requires Valid(m.e, x) && Fits(a, g, x) && AllAfter(m.e, backward, x, ys) && ZeroAdvance.AllMoved(x, ys)
    requires Room(m, a, backward, g, from.pre) && min <= 1 && !Checked(a, backward)
    requires HasCode(m.prog, from.end, PlusCode(a, backward, From(|from.pre|), g, greedy))
    requires Delivers(m, s, ys, Past(from, LoopBody(a, backward, From(|from.pre|), g)))
    ensures Delivers(m, s, RepeatAll(m.e, true, a, backward, g, min, None, greedy, x, ys),
                     Past(from, PlusCode(a, backward, From(|from.pre|), g, greedy)))
    decreases a, 3, Remaining(m.e, backward, x.pos), 0, |ys|
  {
    hide HasCode, Delivers, CodeSize, PlusCode, LoopBody, RegistersOf, Groups, Run, Carries, Valid, Checked, Room,
         Repeat, RepeatAll, AllAfter;
    var mid := Past(from, LoopBody(a, backward, From(|from.pre|), g));
    var at := Past(from, PlusCode(a, backward, From(|from.pre|), g, greedy));
    if ys == [] {
      DeliversNoneAt(m, s, mid, at);
      RepeatAllNone(m.e, true, a, backward, g, min, None, greedy, x);
    } else {
      var frames, cap := FirstDelivery(m, s, ys, mid);
      RepeatAllFirst(m.e, true, a, backward, g, min, None, greedy, x, ys);
      var above := from.stack + frames;
      var outs := Repeat(m.e, true, a, backward, g, 0, None, greedy, ys[0]);
      PlusAgain(m, a, backward, g, greedy, x.pos, ys[0], cap, from.(stack := above));
      DeliversAfter(m, s, Start(ys[0], cap, mid.(stack := above)), outs, at.(stack := above));
      PlusContinues(m, a, backward, g, min, greedy, x, Backtrack(above), ys[1..], from);
      DeliversAppend(m, s, outs, RepeatAll(m.e, true, a, backward, g, min, None, greedy, x, ys[1..]), at, frames);
    }
  }

  /** The split after an iteration that started at position `v` and ended in `y`. */
  lemma {:induction false} PlusAgain(m: Context, a: Pattern, backward: bool, g: nat, greedy: bool, v: nat, y: State, cap: seq<int>,
                           from: Site)
    requires Valid(m.e, y) && Fits(a, g, y) && Carries(m, cap, y.caps, from.pre)
    requires Room(m, a, backward, g, from.pre) && !Checked(a, backward)
    requires Remaining(m.e, backward, y.pos) < Remaining(m.e, backward, v)
    requires HasCode(m.prog, from.end, PlusCode(a, backward, From(|from.pre|), g, greedy))
    ensures Delivers(m, Start(y, cap, Past(from, LoopBody(a, backward, From(|from.pre|), g))),
                     Repeat(m.e, true, a, backward, g, 0, None, greedy, y),
                     Past(from, PlusCode(a, backward, From(|from.pre|), g, greedy)))
    decreases a, 3, Remaining(m.e, backward, v), 0, 0
  {
    hide HasCode, Delivers, Step, CodeSize, PlusCode, LoopBody, RegistersOf, Groups, Run, Checked, Repeat, Iterate;
    var c := LoopBody(a, backward, From(|from.pre|), g);
    var at := Past(from, PlusCode(a, backward, From(|from.pre|), g, greedy));
    RepeatUnfolds(m.e, true, a, backward, g, 0, None, greedy, y);
    PlusLayout(m.prog, from.end, a, backward, From(|from.pre|), g, greedy);
    var t := Start(y, cap, Past(from, c));
    var once := Iterate(m.e, true, a, backward, g, 0, None, greedy, y);
    forall stack ensures Delivers(m, Running(from.end, y.pos, cap, stack), once, at.(stack := stack)) {
      PlusIterates(m, a, backward, g, 0, greedy, y, cap, from.(stack := stack));
    }
    StepSplit(m, t, !greedy, -(CodeSize(c) + 5));
    DeliversFork(m, t, once, y, cap, greedy, from.end, at);
  }

  // counted loops

  /** The part of a counted loop that is repeated: it starts at `pc`, with the counter in register `r`, and
      ends with the loop opcode `i`. */
  ghost predicate LoopAt(prog: Program, a: Pattern, backward: bool, g: nat, r: nat, pc: int, i: Instr, checked: bool,
                         limit: nat, greedy: bool) {
    var k := Bytes2(checked);
    var c := LoopBody(a, backward, From(r + 1 + Count(checked)), g);
    && HasCode(prog, pc, SetPosCode(checked, r + 1))
    && HasCode(prog, pc + k, c)
    && prog(pc + k + CodeSize(c)) == Some(i)
    && IsLoop(i, checked, r, limit, greedy, -(k + CodeSize(c) + Size(i)))
    && (!checked ==> limit == 0 || !Checked(a, backward))
  }

  ghost function LoopSize(a: Pattern, backward: bool, g: nat, r: nat, i: Instr, checked: bool): nat {
    Bytes2(checked) + CodeSize(LoopBody(a, backward, From(r + 1 + Count(checked)), g)) + Size(i)
  }

  /** The iterations still mandatory when the counter stands at `k`. */
  ghost function Mandatory(k: nat, limit: nat): nat {
    if k > limit then k - limit else 0
  }

  ghost predicate LoopRoom(m: Context, a: Pattern, backward: bool, g: nat, pre: seq<int>, checked: bool) {
    |pre| + 1 + Count(checked) + RegistersOf(a, backward) <= m.registers && g + Groups(a) <= m.count
  }

  lemma {:induction false} CountedIterates(m: Context, a: Pattern, backward: bool, g: nat, i: Instr, checked: bool, limit: nat,
                                 greedy: bool, k: nat, x: State, cap: seq<int>, from: Site)
    requires Valid(m.e, x) && Carries(m, cap, x.caps, from.pre + [k]) && LoopRoom(m, a, backward, g, from.pre, checked)
    requires 0 < k <= INFINITE && LoopAt(m.prog, a, backward, g, |from.pre|, from.end, i, checked, limit, greedy)
    ensures Delivers(m, Start(x, cap, from),
                     Iterate(m.e, true, a, backward, g, Mandatory(k, limit), Some(k), greedy, x),
                     from.(end := from.end + LoopSize(a, backward, g, |from.pre|, i, checked)))
    decreases a, 3, k, 1, 0
  {
    hide HasCode, Delivers, Step, Code, CodeSize, ScanOf, LoopBody, RegistersOf, Groups, RepeatAll, Outcomes, IsLoop,
         Iterate, AllAfter, IterationStart, Run, Mandatory, Size, After, Remaining, Reaches, Valid, Bytes2, Carries, PushIf;
    var at := from.(end := from.end + LoopSize(a, backward, g, |from.pre|, i, checked));
    var first := from.(pre := from.pre + [k]);
    var cap' := StepSetPos(m, checked, x, cap, first);
    IterateUnfolds(m.e, true, a, backward, g, Mandatory(k, limit), Some(k), greedy, x);
    var body := Site(from.end + Bytes2(checked), from.stack, PushIf(checked, first.pre, x.pos));
    var x' := IterationStart(true, a, backward, g, x);
    var ys := Outcomes(m.e, true, a, backward, g, x');
    SimulatesBody(m, a, backward, g, x, cap', body);
    if !checked && limit != 0 {
      ZeroAdvance.UncheckedMoves(m.e, true, a, backward, g, x');
    }
    CountedContinues(m, a, backward, g, i, checked, limit, greedy, k, x, Start(x, cap', body), ys, from);
    DeliversAfter(m, Start(x, cap, first), Start(x, cap', body),
                  RepeatAll(m.e, true, a, backward, g, Mandatory(k, limit), Some(k), greedy, x, ys), at);
  }

  lemma {:induction false} CountedContinues(m: Context, a: Pattern, backward: bool, g: nat, i: Instr, checked: bool, limit: nat,
                                  greedy: bool, k: nat, x: State, s: Machine, ys: seq<State>, from: Site)
    requires Valid(m.e, x) && Fits(a, g, x) && AllAfter(m.e, backward, x, ys)
    requires LoopRoom(m, a, backward, g, from.pre, checked)
    requires 0 < k <= INFINITE && LoopAt(m.prog, a, backward, g, |from.pre|, from.end, i, checked, limit, greedy)
    requires !checked && limit != 0 ==> ZeroAdvance.AllMoved(x, ys)
    requires Delivers(m, s, ys, Site(from.end + LoopSize(a, backward, g, |from.pre|, i, checked) - Size(i), from.stack,
                                     PushIf(checked, from.pre + [k], x.pos)))
    ensures Delivers(m, s, RepeatAll(m.e, true, a, backward, g, Mandatory(k, limit), Some(k), greedy, x, ys),
                     from.(end := from.end + LoopSize(a, backward, g, |from.pre|, i, checked)))
    decreases a, 3, k, 0, |ys|
  {
    hide Delivers, Step, Run, Repeat, LoopAt, LoopSize, Carries, Valid, RepeatAll, AllAfter, LoopRoom, Size, Mandatory, PushIf;
    var size: int := LoopSize(a, backward, g, |from.pre|, i, checked);
    var mid := Site(from.end + size - Size(i), from.stack, PushIf(checked, from.pre + [k], x.pos));
    var at := from.(end := from.end + size);
    var min := Mandatory(k, limit);
    if ys == [] {
      DeliversNoneAt(m, s, mid, at);
      RepeatAllNone(m.e, true, a, backward, g, min, Some(k), greedy, x);
    } else {
      var frames, cap := FirstDelivery(m, s, ys, mid);
      RepeatAllFirst(m.e, true, a, backward, g, min, Some(k), greedy, x, ys);
      var above := from.stack + frames;
      var t := Start(ys[0], cap, mid.(stack := above));
      var rest := RepeatAll(m.e, true, a, backward, g, min, Some(k), greedy, x, ys[1..]);
      CountedContinues(m, a, backward, g, i, checked, limit, greedy, k, x, Backtrack(above), ys[1..], from);
      CountedAgain(m, a, backward, g, i, checked, limit, greedy, k, x.pos, ys[0], cap, from.(stack := above));
      if min == 0 && ys[0].pos == x.pos {
        DeliversAfterStep(m, t, rest, at);
        DeliversAfter(m, s, t, rest, at);
      } else {
        var outs := Repeat(m.e, true, a, backward, g, Decrement(min), Some(k - 1), greedy, ys[0]);
        DeliversAfter(m, s, t, outs, at.(stack := above));
        DeliversAppend(m, s, outs, rest, at, frames);
      }
    }
  }

  /** The loop opcode after an iteration from position `v` that ends in `y`. */
  lemma {:induction false} CountedAgain(m: Context, a: Pattern, backward: bool, g: nat, i: Instr, checked: bool, limit: nat,
                              greedy: bool, k: nat, v: int, y: State, cap: seq<int>, from: Site)
    requires Valid(m.e, y) && Fits(a, g, y) && Carries(m, cap, y.caps, PushIf(checked, from.pre + [k], v))
    requires LoopRoom(m, a, backward, g, from.pre, checked)
    requires 0 < k <= INFINITE && LoopAt(m.prog, a, backward, g, |from.pre|, from.end, i, checked, limit, greedy)
    requires !checked && limit != 0 ==> y.pos != v
    ensures var size: int := LoopSize(a, backward, g, |from.pre|, i, checked);
      var t := Start(y, cap, from.(end := from.end + size - Size(i)));
      if Mandatory(k, limit) == 0 && y.pos == v then Step(m, t) == Backtrack(from.stack)
      else Delivers(m, t, Repeat(m.e, true, a, backward, g, Decrement(Mandatory(k, limit)), Some(k - 1), greedy, y),
                    from.(end := from.end + size))
    decreases a, 3, k, 0, 0
  {
    hide HasCode, Delivers, Step, CodeSize, ScanOf, LoopBody, RegistersOf, Groups, Run, Iterate, Repeat, LoopRoom, IsLoop,
         Valid, Fits, Carries, Outcomes, Size;
    RepeatUnfolds(m.e, true, a, backward, g, Decrement(Mandatory(k, limit)), Some(k - 1), greedy, y);
    var size: int := LoopSize(a, backward, g, |from.pre|, i, checked);
    var mid, at := from.(end := from.end + size - Size(i)), from.(end := from.end + size);
    assert m.prog(mid.end) == Some(i) && IsLoop(i, checked, |from.pre|, limit, greedy, -size);
    hide LoopAt, LoopSize;
    var t := Start(y, cap, mid);
    var once := Iterate(m.e, true, a, backward, g, Mandatory(k - 1, limit), Some(k - 1), greedy, y);
    if Mandatory(k, limit) == 0 && y.pos == v {
      StepLoopFails(m, i, limit, greedy, -size, from.pre, k, y, cap, mid);
    } else if k - 1 > limit {
      var cap' := StepLoopOn(m, i, checked, limit, greedy, -size, from.pre, k, v, y, cap, mid);
      CountedIterates(m, a, backward, g, i, checked, limit, greedy, k - 1, y, cap', from);
      DeliversAfterStep(m, t, once, at);
    } else if k == 1 {
      var cap' := StepLoopEnds(m, i, checked, limit, greedy, -size, from.pre, v, y, cap, mid);
      DeliversNext(m, t, y, at, cap');
    } else {
      var cap' := StepLoopForks(m, i, checked, limit, greedy, -size, from.pre, k, v, y, cap, mid);
      CarriesLast(m, cap', y.caps, from.pre, k - 1);
      forall stack ensures Delivers(m, Running(from.end, y.pos, cap', stack), once, at.(stack := stack)) {
        CountedIterates(m, a, backward, g, i, checked, limit, greedy, k - 1, y, cap', from.(stack := stack));
      }
      DeliversFork(m, t, once, y, cap', greedy, from.end, at);
    }
  }

  lemma {:induction false} SimulatesCounted(m: Context, a: Pattern, backward: bool, g: nat, max: nat, limit: nat, greedy: bool,
                                  x: State, cap: seq<int>, from: Site)
    requires Valid(m.e, x) && Carries(m, cap, x.caps, from.pre) && LoopRoom(m, a, backward, g, from.pre, Checked(a, backward))
    requires 0 < max <= INFINITE
    requires HasCode(m.prog, from.end, CountedCode(a, backward, From(|from.pre|), g, Checked(a, backward), max, limit, greedy))
    ensures Delivers(m, Start(x, cap, from), Iterate(m.e, true, a, backward, g, Mandatory(max, limit), Some(max), greedy, x),
                     Past(from, CountedCode(a, backward, From(|from.pre|), g, Checked(a, backward), max, limit, greedy)))
    decreases a, 3, max, 2, 0
  {
    hide HasCode, Delivers, Step, Code, CodeSize, ScanOf, LoopBody, RegistersOf, Groups, CountedCode, Iterate;
    var i := CountedIsLoop(m.prog, from.end, a, backward, g, |from.pre|, max, limit, greedy);
    hide LoopAt, LoopSize;
    var s := Start(x, cap, from);
    StepSetI32(m, s, x.caps, from.pre, max);
    CountedIterates(m, a, backward, g, i, Checked(a, backward), limit, greedy, max, x, Step(m, s).cap, from.(end := from.end + 6));
    DeliversAfterStep(m, s, Iterate(m.e, true, a, backward, g, Mandatory(max, limit), Some(max), greedy, x),
                      Past(from, CountedCode(a, backward, From(|from.pre|), g, Checked(a, backward), max, limit, greedy)));
  }

  lemma CountedIsLoop(prog: Program, pc: int, a: Pattern, backward: bool, g: nat, r: nat, max: nat, limit: nat, greedy: bool)
      returns (i: Instr)
    requires HasCode(prog, pc, CountedCode(a, backward, From(r), g, Checked(a, backward), max, limit, greedy))
    ensures prog(pc) == Some(SetI32(r, max))
    ensures LoopAt(prog, a, backward, g, r, pc + 6, i, Checked(a, backward), limit, greedy)
    ensures CodeSize(CountedCode(a, backward, From(r), g, Checked(a, backward), max, limit, greedy))
         == 6 + LoopSize(a, backward, g, r, i, Checked(a, backward))
  {
    hide HasCode, Code, CodeSize, ScanOf, LoopBody, CountedCode;
    var checked := Checked(a, backward);
    CountedLayout(prog, pc, a, backward, From(r), g, checked, max, limit, greedy);
    var c := LoopBody(a, backward, From(r + 1 + Count(checked)), g);
    i := LoopSplit(checked, !greedy, r, limit, -(CodeSize(c) + 10 + Bytes2(checked)));
  }

  lemma ExactIsLoop(prog: Program, pc: int, a: Pattern, backward: bool, g: nat, r: nat, max: nat, greedy: bool)
      returns (i: Instr)
    requires HasCode(prog, pc, ExactCode(a, backward, From(r), g, max))
    ensures prog(pc) == Some(SetI32(r, max))
    ensures LoopAt(prog, a, backward, g, r, pc + 6, i, false, 0, greedy)
    ensures CodeSize(ExactCode(a, backward, From(r), g, max)) == 6 + LoopSize(a, backward, g, r, i, false)
  {
    hide HasCode, Code, CodeSize, ScanOf, LoopBody, ExactCode, SetPosCode, Checked, Count, Bytes2, IsLoop;
    ExactLayout(prog, pc, a, backward, From(r), g, max);
    var rel := -(CodeSize(LoopBody(a, backward, From(r + 1), g)) + 6);
    NoSetPos(prog, pc + 6, r + 1, rel, greedy);
    i := Loop(r, rel);
  }

  lemma {:induction false} SimulatesExact(m: Context, a: Pattern, backward: bool, g: nat, max: nat, greedy: bool,
                                x: State, cap: seq<int>, from: Site)
    requires Valid(m.e, x) && Carries(m, cap, x.caps, from.pre) && LoopRoom(m, a, backward, g, from.pre, false)
    requires 0 < max <= INFINITE
    requires HasCode(m.prog, from.end, ExactCode(a, backward, From(|from.pre|), g, max))
    ensures Delivers(m, Start(x, cap, from), Iterate(m.e, true, a, backward, g, max, Some(max), greedy, x),
                     Past(from, ExactCode(a, backward, From(|from.pre|), g, max)))
    decreases a, 3, max, 2, 0
  {
    hide HasCode, Delivers, Step, Code, CodeSize, ScanOf, LoopBody, RegistersOf, Groups, ExactCode, Iterate;
    var i := ExactIsLoop(m.prog, from.end, a, backward, g, |from.pre|, max, greedy);
    hide LoopAt, LoopSize;
    var s := Start(x, cap, from);
    StepSetI32(m, s, x.caps, from.pre, max);
    CountedIterates(m, a, backward, g, i, false, 0, greedy, max, x, Step(m, s).cap, from.(end := from.end + 6));
    DeliversAfterStep(m, s, Iterate(m.e, true, a, backward, g, max, Some(max), greedy, x),
                      Past(from, ExactCode(a, backward, From(|from.pre|), g, max)));
  }

  lemma NoSetPos(prog: Program, pc: int, r: nat, rel: int, greedy: bool)
    requires r > 0
    ensures HasCode(prog, pc, SetPosCode(false, r)) && Count(false) == Bytes2(false) == 0
    ensures IsLoop(Loop(r - 1, rel), false, r - 1, 0, greedy, rel)
  {}

  lemma {:induction false} SimulatesOptionalCounted(m: Context, a: Pattern, backward: bool, g: nat, max: nat, greedy: bool,
                                          x: State, cap: seq<int>, from: Site)
    requires Valid(m.e, x) && Carries(m, cap, x.caps, from.pre) && LoopRoom(m, a, backward, g, from.pre, Checked(a, backward))
    requires 0 < max <= INFINITE
    requires HasCode(m.prog, from.end, OptionalCountedCode(a, backward, From(|from.pre|), g, max, greedy))
    ensures Delivers(m, Start(x, cap, from), Repeat(m.e, true, a, backward, g, 0, Some(max), greedy, x),
                     Past(from, OptionalCountedCode(a, backward, From(|from.pre|), g, max, greedy)))
    decreases a, 3, max, 3, 0
  {
    hide HasCode, Delivers, Step, Code, CodeSize, ScanOf, LoopBody, RegistersOf, Groups, CountedCode, Iterate;
    var loop := CountedCode(a, backward, From(|from.pre|), g, Checked(a, backward), max, max, greedy);
    HasCodeFirst(m.prog, from.end, Split(greedy, CodeSize(loop)), loop);
    var s := Start(x, cap, from);
    var once := Iterate(m.e, true, a, backward, g, 0, Some(max), greedy, x);
    var at := from.(end := from.end + 5 + CodeSize(loop));
    forall stack ensures Delivers(m, Running(from.end + 5, x.pos, cap, stack), once, at.(stack := stack)) {
      SimulatesCounted(m, a, backward, g, max, max, greedy, x, cap, from.(end := from.end + 5, stack := stack));
    }
    StepSplit(m, s, greedy, CodeSize(loop));
    DeliversFork(m, s, once, x, cap, greedy, from.end + 5, at);
  }
}
