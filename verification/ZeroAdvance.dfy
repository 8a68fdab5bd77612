/** Dropping the zero-advance check is sound: an atom whose scan finds a consuming opcode moves. */
module ZeroAdvance {
  import opened Subject
  import opened Options
  import opened RegexSyntax
  import opened EcmaMatcher
  import opened Codegen
  import opened OutcomeLists

  ghost predicate AllMoved(x: State, ys: seq<State>) {
    forall i :: 0 <= i < |ys| ==> ys[i].pos != x.pos
  }

  /** When the scan says no check is needed, every successful run of the atom ends elsewhere. */
  lemma {:induction false} UncheckedMoves(e: Input, impl: bool, n: Pattern, backward: bool, g: nat, x: State)
    requires Valid(e, x) && Fits(n, g, x)
    requires !Checked(n, backward)
    ensures AllMoved(x, Outcomes(e, impl, n, backward, g, x))
    decreases n, 1, 0
  {
    StepMoves(e, backward, x.pos);
    match n
    case Group(body) =>
      var x' := if impl then OpenGroup(x, g, backward) else x;
      UncheckedMoves(e, impl, body, backward, g + 1, x');
      CloseAllMoved(e, impl, g, backward, x, Outcomes(e, impl, body, backward, g + 1, x'));
    case Cat(l, r) =>
      if backward {
        CatMoves(e, impl, n, r, g + Groups(l), l, g, backward, x);
      } else {
        CatMoves(e, impl, n, l, g, r, g + Groups(l), backward, x);
      }
    case Quant(_, _, _, _) => QuantMoves(e, impl, n, backward, g, x);
    case _ =>
  }

  lemma StepMoves(e: Input, backward: bool, p: nat)
    requires Boundary(e, p)
    ensures CanStep(e, backward, p) ==> StepTo(e, backward, p) != p
  {
    if CanStep(e, backward, p) {
      if backward {
        BackwardStep(e, p, 0);
      } else {
        ForwardStep(e, p, Len(e));
      }
    }
  }

  lemma {:induction false} QuantMoves(e: Input, impl: bool, n: Pattern, backward: bool, g: nat, x: State)
    requires Valid(e, x) && Fits(n, g, x) && n.Quant? && !Checked(n, backward)
    ensures AllMoved(x, Outcomes(e, impl, n, backward, g, x))
    decreases n, 0, 0
  {
    var Quant(a, min, max, greedy) := n;
    assert min != 0 && !Checked(a, backward);
    var x' := IterationStart(impl, a, backward, g, x);
    var max' := UpperBound(impl, a, backward, min, max);
    UncheckedMoves(e, impl, a, backward, g, x');
    var ys := Outcomes(e, impl, a, backward, g, x');
    assert AllMoved(x, ys) && AllAfter(e, backward, x, ys);
    MandatoryMoves(e, impl, a, backward, g, min, max', greedy, x, ys);
    assert Outcomes(e, impl, n, backward, g, x) == Repeat(e, impl, a, backward, g, min, max', greedy, x);
    assert max' != Some(0) by {
      assert WellFormed(n);
    }
    assert Repeat(e, impl, a, backward, g, min, max', greedy, x)
        == Iterate(e, impl, a, backward, g, min, max', greedy, x)
        == RepeatAll(e, impl, a, backward, g, min, max', greedy, x, ys);
  }

  lemma {:induction false} CloseAllMoved(e: Input, impl: bool, g: nat, backward: bool, x: State, ys: seq<State>)
    requires 2 * g + 1 < |x.caps| && Valid(e, x) && AllAfter(e, backward, x, ys) && (forall i :: 0 <= i < |ys| ==> ys[i].pos != x.pos)
    ensures AllMoved(x, CloseAll(e, impl, g, backward, x, ys))
    decreases |ys|
  {
    if ys != [] {
      CloseAllMoved(e, impl, g, backward, x, ys[1..]);
    }
  }

  lemma {:induction false} CatMoves(e: Input, impl: bool, whole: Pattern, n: Pattern, h: nat, m: Pattern, k: nat,
                                    backward: bool, x: State)
    requires Valid(e, x) && Fits(n, h, x) && Fits(m, k, x) && n < whole && m < whole
    requires !Checked(n, backward) || !Checked(m, backward)
    ensures AllMoved(x, OutcomesAll(e, impl, m, backward, k, x, Outcomes(e, impl, n, backward, h, x)))
    decreases whole, 0, 0
  {
    if !Checked(n, backward) {
      UncheckedMoves(e, impl, n, backward, h, x);
    }
    AllMove(e, impl, m, backward, k, x, Outcomes(e, impl, n, backward, h, x));
  }

  lemma {:induction false} AllMove(e: Input, impl: bool, n: Pattern, backward: bool, g: nat, x: State, ys: seq<State>)
    requires Fits(n, g, x) && AllAfter(e, backward, x, ys)
    requires AllMoved(x, ys) || !Checked(n, backward)
    ensures AllMoved(x, OutcomesAll(e, impl, n, backward, g, x, ys))
    decreases n, 2, |ys|
  {
    if ys != [] {
      if !Checked(n, backward) {
        UncheckedMoves(e, impl, n, backward, g, ys[0]);
      }
      hide Outcomes, Checked, ScanOf;
      var zs := Outcomes(e, impl, n, backward, g, ys[0]);
      assert forall i :: 0 <= i < |zs| ==> After(e, backward, ys[0], zs[i]);
      AllMove(e, impl, n, backward, g, x, ys[1..]);
    }
  }

  lemma {:induction false} MandatoryMoves(e: Input, impl: bool, a: Pattern, backward: bool, g: nat, min: nat, max: Option<nat>,
                                greedy: bool, x: State, ys: seq<State>)
    requires Fits(a, g, x) && AllAfter(e, backward, x, ys) && AllMoved(x, ys)
    ensures AllMoved(x, RepeatAll(e, impl, a, backward, g, min, max, greedy, x, ys))
    decreases |ys|
  {
    if ys != [] {
      hide Repeat;
      var zs := Repeat(e, impl, a, backward, g, Decrement(min), DecrementMax(max), greedy, ys[0]);
      assert forall i :: 0 <= i < |zs| ==> After(e, backward, ys[0], zs[i]);
      MandatoryMoves(e, impl, a, backward, g, min, max, greedy, x, ys[1..]);
    }
  }
}
