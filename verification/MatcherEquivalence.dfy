/** The continuation-passing matcher succeeds exactly with the first outcome its continuation accepts. */
module MatcherEquivalence {
  import opened Subject
  import opened Options
  import opened RegexSyntax
  import opened EcmaMatcher
  import opened Codegen
  import opened OutcomeLists
  import opened Layout
  import opened TextMatching

  lemma {:induction false} MatchIsFirst(e: Input, n: Pattern, backward: bool, g: nat, x: State, c: Continuation)
    requires Valid(e, x) && Fits(n, g, x)
    ensures Match(e, n, backward, g, x, c) == First(Outcomes(e, false, n, backward, g, x), c)
    decreases n, 1, 0, 0, 0
  {
    hide Match, Outcomes, First;
    match n
    case Group(_) => GroupIsFirst(e, n, backward, g, x, c);
    case Look(_, _, _) => LookIsFirst(e, n, backward, g, x, c);
    case Cat(_, _) => CatIsFirst(e, n, backward, g, x, c);
    case Alt(_, _) => AltIsFirst(e, n, backward, g, x, c);
    case Quant(_, _, _, _) => QuantIsFirst(e, n, backward, g, x, c);
    case _ => SimpleIsFirst(e, n, backward, g, x, c);
  }

  lemma {:induction false} GroupIsFirst(e: Input, n: Pattern, backward: bool, g: nat, x: State, c: Continuation)
    requires Valid(e, x) && Fits(n, g, x) && n.Group?
    ensures Match(e, n, backward, g, x, c) == First(Outcomes(e, false, n, backward, g, x), c)
    decreases n, 0, 0, 0, 0
  {
    hide First, Closing;
    MatchIsFirst(e, n.body, backward, g + 1, x, Closing(backward, g, x, c));
    FirstClosed(e, g, backward, x, Outcomes(e, false, n.body, backward, g + 1, x), c);
  }

  lemma {:induction false} AltIsFirst(e: Input, n: Pattern, backward: bool, g: nat, x: State, c: Continuation)
    requires Valid(e, x) && Fits(n, g, x) && n.Alt?
    ensures Match(e, n, backward, g, x, c) == First(Outcomes(e, false, n, backward, g, x), c)
    decreases n, 0, 0, 0, 0
  {
    hide First, AllAfter, Valid, Repeat, MatchRepeat, MatchCharacter, ReferenceEnd, Holds, CloseAll, OutcomesAll;
    MatchIsFirst(e, n.left, backward, g, x, c);
    MatchIsFirst(e, n.right, backward, g + Groups(n.left), x, c);
    FirstAppend(Outcomes(e, false, n.left, backward, g, x),
                Outcomes(e, false, n.right, backward, g + Groups(n.left), x), c);
  }

  lemma {:induction false} QuantIsFirst(e: Input, n: Pattern, backward: bool, g: nat, x: State, c: Continuation)
    requires Valid(e, x) && Fits(n, g, x) && n.Quant?
    ensures Match(e, n, backward, g, x, c) == First(Outcomes(e, false, n, backward, g, x), c)
    decreases n, 0, 0, 0, 0
  {
    hide First;
    RepeatIsFirst(e, n.atom, backward, g, n.min, if n.max == INFINITE then None else Some(n.max), n.greedy, x, c);
  }

  lemma {:induction false} CatIsFirst(e: Input, n: Pattern, backward: bool, g: nat, x: State, c: Continuation)
    requires Valid(e, x) && Fits(n, g, x) && n.Cat?
    ensures Match(e, n, backward, g, x, c) == First(Outcomes(e, false, n, backward, g, x), c)
    decreases n, 0, 0, 0, 1
  {
    hide First, Then, OutcomesAll;
    var l, r := n.left, n.right;
    if backward {
      ThenIsFirst(e, n, r, g + Groups(l), l, g, backward, x, c);
    } else {
      ThenIsFirst(e, n, l, g, r, g + Groups(l), backward, x, c);
    }
  }

  lemma {:induction false} SimpleIsFirst(e: Input, n: Pattern, backward: bool, g: nat, x: State, c: Continuation)
    requires Valid(e, x) && Fits(n, g, x)
    requires n.Empty? || IsCharacter(n) || IsAssertion(n) || n.BackReference?
    ensures Match(e, n, backward, g, x, c) == First(Outcomes(e, false, n, backward, g, x), c)
  {
    hide MatchCharacter, MatchReference, Asserts, Holds, ReferenceEnd, Accepts, Valid, AllAfter;
    if IsCharacter(n) {
      CharacterMatches(e, n, backward, x, c);
    } else if IsAssertion(n) {
      ValidPosition(e, x);
      AssertionHolds(e, n, x.pos);
    } else if n.BackReference? {
      ReferenceMatches(e, n.groups, n.icase, backward, x, c);
    }
    forall y: State ensures First([y], c) == c(y) {
      assert First([y][1..], c) == None;
    }
  }

  lemma ValidPosition(e: Input, x: State)
    requires Valid(e, x)
    ensures Boundary(e, x.pos)
  {}

  lemma {:induction false} LookIsFirst(e: Input, n: Pattern, backward: bool, g: nat, x: State, c: Continuation)
    requires Valid(e, x) && Fits(n, g, x) && n.Look?
    ensures Match(e, n, backward, g, x, c) == First(Outcomes(e, false, n, backward, g, x), c)
    decreases n, 0, 0, 0, 0
  {
    MatchIsFirst(e, n.body, n.behind, g, x, Succeed());
    forall y: State ensures First([y], c) == c(y) {
      assert First([y][1..], c) == None;
    }
  }

  /** Matching `n` and then, from wherever it ends, `m`; `whole` only bounds the recursion. */
  lemma {:induction false} ThenIsFirst(e: Input, whole: Pattern, n: Pattern, h: nat, m: Pattern, k: nat, backward: bool, x: State, c: Continuation)
    requires Valid(e, x) && Fits(n, h, x) && Fits(m, k, x)
    requires n < whole && m < whole
    ensures Match(e, n, backward, h, x, Then(e, m, backward, k, |x.caps|, c))
         == First(OutcomesAll(e, false, m, backward, k, x, Outcomes(e, false, n, backward, h, x)), c)
    decreases whole, 0, 0, 0, 0
  {
    MatchIsFirst(e, n, backward, h, x, Then(e, m, backward, k, |x.caps|, c));
    FirstThen(e, m, backward, k, x, Outcomes(e, false, n, backward, h, x), c);
  }

  lemma {:induction false} FirstClosed(e: Input, g: nat, backward: bool, x: State, ys: seq<State>, c: Continuation)
    requires 2 * g + 1 < |x.caps| && Valid(e, x) && AllAfter(e, backward, x, ys)
    ensures First(ys, Closing(backward, g, x, c)) == First(CloseAll(e, false, g, backward, x, ys), c)
    decreases |ys|
  {
    if ys != [] {
      FirstClosed(e, g, backward, x, ys[1..], c);
      assert CloseAll(e, false, g, backward, x, ys)[1..] == CloseAll(e, false, g, backward, x, ys[1..]);
    }
  }

  lemma {:induction false} FirstThen(e: Input, n: Pattern, backward: bool, g: nat, x: State, ys: seq<State>, c: Continuation)
    requires Fits(n, g, x) && AllAfter(e, backward, x, ys)
    ensures First(ys, Then(e, n, backward, g, |x.caps|, c)) == First(OutcomesAll(e, false, n, backward, g, x, ys), c)
    decreases n, 2, 0, 0, |ys|
  {
    if ys == [] {
    } else {
      hide First, Then, OutcomesAll, Outcomes, Match, Valid;
      FirstUnfolds(ys, Then(e, n, backward, g, |x.caps|, c));
      ThenAt(e, n, backward, g, |x.caps|, c, ys[0]);
      OutcomesAllUnfolds(e, n, backward, g, x, ys);
      MatchIsFirst(e, n, backward, g, ys[0], c);
      FirstThen(e, n, backward, g, x, ys[1..], c);
      FirstAppend(Outcomes(e, false, n, backward, g, ys[0]), OutcomesAll(e, false, n, backward, g, x, ys[1..]), c);
    }
  }

  lemma FirstUnfolds(ys: seq<State>, c: Continuation)
    requires ys != []
    ensures First(ys, c) == if c(ys[0]).Some? then c(ys[0]) else First(ys[1..], c)
  {}

  lemma ThenAt(e: Input, n: Pattern, backward: bool, g: nat, size: nat, c: Continuation, y: State)
    requires Valid(e, y) && |y.caps| == size && 2 * (g + Groups(n)) <= size
    ensures Then(e, n, backward, g, size, c)(y) == Match(e, n, backward, g, y, c)
  {
    hide Match, Valid;
  }

  lemma OutcomesAllUnfolds(e: Input, n: Pattern, backward: bool, g: nat, x: State, ys: seq<State>)
    requires Fits(n, g, x) && AllAfter(e, backward, x, ys) && ys != []
    ensures Valid(e, ys[0]) && |ys[0].caps| == |x.caps| && AllAfter(e, backward, x, ys[1..])
    ensures OutcomesAll(e, false, n, backward, g, x, ys)
         == Outcomes(e, false, n, backward, g, ys[0]) + OutcomesAll(e, false, n, backward, g, x, ys[1..])
  {
    hide Outcomes, Valid;
  }

  lemma {:induction false} RepeatIsFirst(e: Input, a: Pattern, backward: bool, g: nat, min: nat, max: Option<nat>, greedy: bool,
                      x: State, c: Continuation)
    requires Valid(e, x) && Fits(a, g, x)
    ensures MatchRepeat(e, a, backward, g, min, max, greedy, x, c)
         == First(Repeat(e, false, a, backward, g, min, max, greedy, x), c)
    decreases a, 3, min, 2 * Remaining(e, backward, x.pos) + 1, 0
  {
    hide First, RepeatAll, Outcomes, Again, Match;
    if max == Some(0) {
      FirstOne(x, c);
    } else {
      var d := Again(e, a, backward, g, min, max, greedy, x, c);
      var x' := Reset(x, g, Groups(a));
      var ys := Outcomes(e, false, a, backward, g, x');
      var once := Iterate(e, false, a, backward, g, min, max, greedy, x);
      MatchIsFirst(e, a, backward, g, x', d);
      FirstAgain(e, a, backward, g, min, max, greedy, x, ys, c);
      if min == 0 {
        FirstAppend(once, [x], c);
        FirstAppend([x], once, c);
        FirstOne(x, c);
      }
    }
  }

  lemma FirstOne(x: State, c: Continuation)
    ensures First([x], c) == c(x)
  {
    assert [x][1..] == [];
  }

  lemma {:induction false} FirstAgain(e: Input, a: Pattern, backward: bool, g: nat, min: nat, max: Option<nat>, greedy: bool,
                   x: State, ys: seq<State>, c: Continuation)
    requires Fits(a, g, x) && AllAfter(e, backward, x, ys)
    ensures First(ys, Again(e, a, backward, g, min, max, greedy, x, c))
         == First(RepeatAll(e, false, a, backward, g, min, max, greedy, x, ys), c)
    decreases a, 3, min, 2 * Remaining(e, backward, x.pos), |ys|
  {
    if ys == [] {
    } else {
      hide First, RepeatAll, Repeat, MatchRepeat, Valid;
      var d := Again(e, a, backward, g, min, max, greedy, x, c);
      var outs := RepeatAll(e, false, a, backward, g, min, max, greedy, x, ys);
      var rest := RepeatAll(e, false, a, backward, g, min, max, greedy, x, ys[1..]);
      FirstUnfolds(ys, d);
      RepeatAllFirst(e, false, a, backward, g, min, max, greedy, x, ys);
      FirstAgain(e, a, backward, g, min, max, greedy, x, ys[1..], c);
      if !(min == 0 && ys[0].pos == x.pos) {
        RepeatIsFirst(e, a, backward, g, Decrement(min), DecrementMax(max), greedy, ys[0], c);
        FirstAppend(Repeat(e, false, a, backward, g, Decrement(min), DecrementMax(max), greedy, ys[0]), rest, c);
      }
    }
  }
}
