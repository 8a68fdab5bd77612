/** All outcomes of matching a pattern, in the order backtracking visits them. With `impl` false this is
    the standard's matcher; with `impl` true it is what the emitted code does to captures and counters:
    groups open and close in two writes, resets appear only where the compiler emits them, and an
    infinite bound is INT32_MAX where the code counts. */
module OutcomeLists {
  import opened Subject
  import opened Options
  import opened RegexSyntax
  import opened EcmaMatcher
  import opened Codegen

  ghost predicate AllAfter(e: Input, backward: bool, x: State, ys: seq<State>) {
    forall i :: 0 <= i < |ys| ==> After(e, backward, x, ys[i])
  }

  ghost predicate Fits(n: Pattern, g: nat, x: State) {
    2 * (g + Groups(n)) <= |x.caps|
  }

  ghost function Outcomes(e: Input, impl: bool, n: Pattern, backward: bool, g: nat, x: State): (ys: seq<State>)
    requires Valid(e, x) && Fits(n, g, x)
    ensures AllAfter(e, backward, x, ys)
    decreases n, 0, 0, 0, 0
  {
    match n
    case Empty => [x]
    case Char(_, _) => CharacterOutcomes(e, n, backward, x)
    case Dot(_) => CharacterOutcomes(e, n, backward, x)
    case Space(_) => CharacterOutcomes(e, n, backward, x)
    case Class(_, _) => CharacterOutcomes(e, n, backward, x)
    case LineStart(_) => if Holds(e, n, x.pos) then [x] else []
    case LineEnd(_) => if Holds(e, n, x.pos) then [x] else []
    case WordBoundary(_, _) => if Holds(e, n, x.pos) then [x] else []
    case BackReference(groups, icase) =>
      ReferenceEndIsBoundary(e, groups, icase, backward, x);
      var end := ReferenceEnd(e, groups, icase, backward, x);
      if end.None? then [] else [x.(pos := end.value)]
    case Group(body) =>
      var x' := if impl then OpenGroup(x, g, backward) else x;
      CloseAll(e, impl, g, backward, x, Outcomes(e, impl, body, backward, g + 1, x'))
    case Look(negated, behind, body) =>
      var ys := Outcomes(e, impl, body, behind, g, x);
      if negated then if ys == [] then [x] else []
      else if ys == [] then [] else [x.(caps := ys[0].caps)]
    case Cat(l, r) =>
      if backward then
        OutcomesAll(e, impl, l, backward, g, x, Outcomes(e, impl, r, backward, g + Groups(l), x))
      else
        OutcomesAll(e, impl, r, backward, g + Groups(l), x, Outcomes(e, impl, l, backward, g, x))
    case Alt(l, r) =>
      Outcomes(e, impl, l, backward, g, x) + Outcomes(e, impl, r, backward, g + Groups(l), x)
    case Quant(a, min, max, greedy) =>
      var x' := if impl && min == 0 && ResetsBefore(a, backward) then Reset(x, g, Groups(a)) else x;
      Repeat(e, impl, a, backward, g, min, UpperBound(impl, a, backward, min, max), greedy, x')
  }

  /** Matching `n` from each of `ys`, all reached from `x`. */
  ghost function OutcomesAll(e: Input, impl: bool, n: Pattern, backward: bool, g: nat, x: State, ys: seq<State>): (zs: seq<State>)
    requires Fits(n, g, x) && AllAfter(e, backward, x, ys)
    ensures AllAfter(e, backward, x, zs)
    decreases n, 1, 0, 0, |ys|
  {
    if ys == [] then []
    else
      Outcomes(e, impl, n, backward, g, ys[0]) + OutcomesAll(e, impl, n, backward, g, x, ys[1..])
  }

  ghost function CharacterOutcomes(e: Input, n: Pattern, backward: bool, x: State): (ys: seq<State>)
    requires Valid(e, x) && IsCharacter(n)
    ensures AllAfter(e, backward, x, ys)
  {
    if CanStep(e, backward, x.pos) && Accepts(e, n, StepOver(e, backward, x.pos)) then
      if backward then BackwardStep(e, x.pos, 0); [x.(pos := StepTo(e, backward, x.pos))]
      else ForwardStep(e, x.pos, Len(e)); [x.(pos := StepTo(e, backward, x.pos))]
    else []
  }

  // ----- groups -----

  function OpenGroup(x: State, g: nat, backward: bool): State
    requires 2 * g + 1 < |x.caps|
  {
    x.(caps := if backward then x.caps[2 * g + 1 := x.pos] else x.caps[2 * g := x.pos])
  }

  function CloseGroup(impl: bool, g: nat, backward: bool, x: State, y: State): State
    requires 2 * g + 1 < |y.caps|
  {
    if impl then y.(caps := if backward then y.caps[2 * g := y.pos] else y.caps[2 * g + 1 := y.pos])
    else y.(caps := SetGroup(y.caps, g, backward, x.pos, y.pos))
  }

  ghost function CloseAll(e: Input, impl: bool, g: nat, backward: bool, x: State, ys: seq<State>): (zs: seq<State>)
    requires 2 * g + 1 < |x.caps| && Valid(e, x) && AllAfter(e, backward, x, ys)
    ensures |zs| == |ys| && AllAfter(e, backward, x, zs)
  {
    if ys == [] then []
    else [CloseGroup(impl, g, backward, x, ys[0])] + CloseAll(e, impl, g, backward, x, ys[1..])
  }

  // ----- quantifiers -----

  ghost function UpperBound(impl: bool, a: Pattern, backward: bool, min: nat, max: nat): Option<nat> {
    if max == INFINITE && (!impl || min == 0 || (min == 1 && !Checked(a, backward))) then None else Some(max)
  }

  /** The state in which an iteration of the atom starts. */
  ghost function IterationStart(impl: bool, a: Pattern, backward: bool, g: nat, x: State): State
    requires Fits(a, g, x)
  {
    if !impl || ResetsInside(a, backward) then Reset(x, g, Groups(a)) else x
  }

  ghost function Repeat(e: Input, impl: bool, a: Pattern, backward: bool, g: nat, min: nat, max: Option<nat>,
                        greedy: bool, x: State): (ys: seq<State>)
    requires Valid(e, x) && Fits(a, g, x)
    ensures AllAfter(e, backward, x, ys)
    decreases a, 2, min, 2 * Remaining(e, backward, x.pos) + 1, 1
  {
    if max == Some(0) then [x]
    else
      var once := Iterate(e, impl, a, backward, g, min, max, greedy, x);
      if min != 0 then once else if greedy then once + [x] else [x] + once
  }

  /** The outcomes that begin with one more iteration. */
  ghost function Iterate(e: Input, impl: bool, a: Pattern, backward: bool, g: nat, min: nat, max: Option<nat>,
                         greedy: bool, x: State): (ys: seq<State>)
    requires Valid(e, x) && Fits(a, g, x)
    ensures AllAfter(e, backward, x, ys)
    decreases a, 2, min, 2 * Remaining(e, backward, x.pos) + 1, 0
  {
    RepeatAll(e, impl, a, backward, g, min, max, greedy, x,
              Outcomes(e, impl, a, backward, g, IterationStart(impl, a, backward, g, x)))
  }

  /** What follows an iteration that started at `x` and may have ended in any of `ys`. */
  ghost function RepeatAll(e: Input, impl: bool, a: Pattern, backward: bool, g: nat, min: nat, max: Option<nat>,
                           greedy: bool, x: State, ys: seq<State>): (zs: seq<State>)
    requires Fits(a, g, x) && AllAfter(e, backward, x, ys)
    ensures AllAfter(e, backward, x, zs)
    decreases a, 2, min, 2 * Remaining(e, backward, x.pos), |ys|
  {
    if ys == [] then []
    else
      var rest := RepeatAll(e, impl, a, backward, g, min, max, greedy, x, ys[1..]);
      if min == 0 && ys[0].pos == x.pos then rest
      else Repeat(e, impl, a, backward, g, Decrement(min), DecrementMax(max), greedy, ys[0]) + rest
  }
}
