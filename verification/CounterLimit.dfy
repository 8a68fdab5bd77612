/** A missing upper bound is stored as INT32_MAX and, behind a positive minimum, counted down from there like
    any other. Exactly when that can be observed. */
module CounterLimit {
  import opened Subject
  import opened Options
  import opened RegexSyntax
  import opened EcmaMatcher
  import opened Codegen
  import opened OutcomeLists
  import opened Layout
  import opened CaptureElision

  /** `a{min,}` does what the standard says, for every atom that does and every subject of this length. */
  ghost predicate UnboundedWorks(min: nat, length: nat)
    requires min <= INFINITE
  {
    forall e: Input, a: Pattern, greedy: bool, x: State |
      Len(e) == length && Valid(e, x) && |x.caps| == 2 * Groups(a) && Unset(x.caps, 0, Groups(a)) && CountsFit(a, false, length)
      :: Agrees(e, Quant(a, min, INFINITE, greedy), false, 0, x)
  }

  /** The code is right about `a{min,}` exactly when the minimum is 0 or leaves the counter enough room for the
      rest of the subject. */
  lemma UnboundedWorksExactly(min: nat, length: nat)
    requires min <= INFINITE
    ensures UnboundedWorks(min, length) <==> min == 0 || min + length <= INFINITE
  {
    if min == 0 || min + length <= INFINITE {
      forall e: Input, a: Pattern, greedy: bool, x: State |
        Len(e) == length && Valid(e, x) && |x.caps| == 2 * Groups(a) && Unset(x.caps, 0, Groups(a)) && CountsFit(a, false, length)
        ensures Agrees(e, Quant(a, min, INFINITE, greedy), false, 0, x)
      {
        hide Agrees;
        OutcomesAgree(e, Quant(a, min, INFINITE, greedy), false, 0, x);
      }
    } else {
      var e, x := Letters(length), State(0, []);
      CounterRunsOut(min, length);
      assert !Agrees(e, Quant(EMPTY_OR_A, min, INFINITE, true), false, 0, x);
    }
  }

  /** `(?:|a)`: mandatory iterations match nothing, optional ones take a letter each. */
  const EMPTY_OR_A: Pattern := Alt(Empty, Char(97, false))

  function Letters(length: nat): (e: Input)
    ensures Len(e) == length
  {
    Input(seq(length, _ => 97), false, c => c, _ => false)
  }

  lemma AtomOutcomes(length: nat, impl: bool, p: nat)
    requires p <= length
    ensures var e, x := Letters(length), State(p, []);
      && Valid(e, x) && Fits(EMPTY_OR_A, 0, x)
      && IterationStart(impl, EMPTY_OR_A, false, 0, x) == x
      && Outcomes(e, impl, EMPTY_OR_A, false, 0, x) == [x] + if p < length then [State(p + 1, [])] else []
  {
    var e, x := Letters(length), State(p, []);
    assert Valid(e, x);
    assert Reset(x, 0, 0) == x;
    assert Outcomes(e, impl, Empty, false, 0, x) == [x];
    assert Outcomes(e, impl, Char(97, false), false, 0, x) == if p < length then [State(p + 1, [])] else [];
  }

  /** The preferred outcome of the repetition takes as many letters as the bound allows. */
  lemma {:induction false} FirstEnd(length: nat, impl: bool, min: nat, max: Option<nat>, p: nat)
    requires p <= length && (max.Some? ==> min <= max.value)
    ensures var e, x := Letters(length), State(p, []);
      && Valid(e, x) && Fits(EMPTY_OR_A, 0, x)
      && var ys := Repeat(e, impl, EMPTY_OR_A, false, 0, min, max, true, x);
         ys != [] && ys[0] == State(if max.None? || p + max.value - min >= length then length else p + max.value - min, [])
    decreases min, length - p
  {
    hide Outcomes, Repeat, RepeatAll, Iterate, IterationStart, Letters, AllAfter;
    var e, x := Letters(length), State(p, []);
    var a := EMPTY_OR_A;
    AtomOutcomes(length, impl, p);
    RepeatUnfolds(e, impl, a, false, 0, min, max, true, x);
    if max != Some(0) {
      IterateUnfolds(e, impl, a, false, 0, min, max, true, x);
      var ys := Outcomes(e, impl, a, false, 0, x);
      RepeatAllFirst(e, impl, a, false, 0, min, max, true, x, ys);
      if min != 0 {
        FirstEnd(length, impl, min - 1, DecrementMax(max), p);
      } else {
        var rest := if p < length then [State(p + 1, [])] else [];
        assert ys[1..] == rest;
        if p < length {
          AtomOutcomes(length, impl, p + 1);
          RepeatAllFirst(e, impl, a, false, 0, min, max, true, x, rest);
          FirstEnd(length, impl, 0, DecrementMax(max), p + 1);
        } else {
          RepeatAllNone(e, impl, a, false, 0, min, max, true, x);
        }
      }
    }
  }

  lemma CounterRunsOut(min: nat, length: nat)
    requires 0 < min <= INFINITE < min + length
    ensures var e, x, n := Letters(length), State(0, []), Quant(EMPTY_OR_A, min, INFINITE, true);
      && Valid(e, x) && Unset(x.caps, 0, Groups(EMPTY_OR_A)) && CountsFit(EMPTY_OR_A, false, length)
      && !Agrees(e, n, false, 0, x)
  {
    hide Outcomes, Repeat;
    var e, x := Letters(length), State(0, []);
    var n: Pattern := Quant(EMPTY_OR_A, min, INFINITE, true);
    AtomOutcomes(length, true, 0);
    assert Settled(x.caps) == x.caps;
    QuantOutcomes(e, true, n, false, 0, x);
    QuantOutcomes(e, false, n, false, 0, x);
    FirstEnd(length, true, min, Some(INFINITE), 0);
    FirstEnd(length, false, min, None, 0);
  }
}
