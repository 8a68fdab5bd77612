/** Whole programs: the search prefix, group 0 and the final match. */
module Search {
  import opened Subject
  import opened Options
  import opened RegexSyntax
  import opened EcmaMatcher
  import opened MatcherEquivalence
  import opened Bytecode
  import opened Codegen
  import opened OutcomeLists
  import opened Machine
  import opened Delivery
  import opened Steps
  import opened Layout
  import opened Simulation
  import opened CaptureElision

  function Blank(k: nat): seq<int> {
    seq(k, _ => -1)
  }

  /** The standard's matcher for the whole pattern `n` at position `p`: group 0 is the match itself. */
  ghost function MatchAt(e: Input, n: Regex, p: nat): Option<State>
    requires Boundary(e, p)
  {
    Match(e, Group(n), false, 0, State(p, Blank(2 * (1 + Groups(n)))), Succeed())
  }

  /** The leftmost match from `p` on; only at `p` for a sticky expression. */
  ghost function FirstMatch(e: Input, n: Regex, sticky: bool, p: nat): Option<State>
    requires Boundary(e, p)
    decreases Len(e) - p
  {
    var r := MatchAt(e, n, p);
    if r.Some? || sticky || p == Len(e) then r
    else
      ForwardStep(e, p, Len(e));
      FirstMatch(e, n, sticky, Next(e, p, Len(e)))
  }

  /** A successful search ends in the first start position that matches at all. */
  lemma {:induction false} FirstMatchIsLeftmost(e: Input, n: Regex, p: nat, q: nat)
    requires Boundary(e, p) && Boundary(e, q) && p <= q
    ensures MatchAt(e, n, q).Some? ==> FirstMatch(e, n, false, p).Some?
    ensures FirstMatch(e, n, false, p).None? ==> MatchAt(e, n, q).None?
    ensures FirstMatch(e, n, false, p).Some? && FirstMatch(e, n, false, p) != FirstMatch(e, n, false, q) ==>
      exists r :: p <= r < q && Boundary(e, r) && FirstMatch(e, n, false, p) == MatchAt(e, n, r) && MatchAt(e, n, r).Some?
    decreases Len(e) - p
  {
    hide Match;
    if p != q && MatchAt(e, n, p).None? {
      ForwardStep(e, p, Len(e));
      assert Next(e, p, Len(e)) <= q by {
        ForwardStep(e, p, q);
      }
      FirstMatchIsLeftmost(e, n, Next(e, p, Len(e)), q);
    }
  }

  // ----- the program -----

  /** The machine is set up to run the program of `n`. */
  ghost predicate Loaded(m: Context, n: Pattern, sticky: bool) {
    && HasCode(m.prog, 0, ProgramCode(n, sticky, From(0)))
    && m.count == 1 + Groups(n)
    && RegistersOf(n, false) <= m.registers
  }

  ghost predicate Fresh(m: Context, cap: seq<int>) {
    |cap| == 2 * m.count + m.registers && cap[..2 * m.count] == Blank(2 * m.count)
  }

  function BodyStart(sticky: bool): nat {
    if sticky then 0 else 11
  }

  lemma ProgramLayout(m: Context, n: Pattern, sticky: bool)
    requires Loaded(m, n, sticky)
    ensures var c := Code(Group(n), false, From(0), 0); var at := BodyStart(sticky);
      && HasCode(m.prog, at, c)
      && m.prog(at + CodeSize(c)) == Some(Accept)
      && (!sticky ==> m.prog(0) == Some(Split(false, 6)) && m.prog(5) == Some(AnyChar) && m.prog(6) == Some(Goto(-11)))
  {
    hide HasCode, CodeSize, Code, ProgramCode;
    var prefix := if sticky then [] else SEARCH_PREFIX;
    var c := Code(Group(n), false, From(0), 0);
    ProgramIsGroup(n, sticky, From(0));
    HasCodeBoth(m.prog, 0, prefix, c + [Accept]);
    PrefixLayout(m.prog, sticky);
    HasCodeLast(m.prog, BodyStart(sticky), c, Accept);
  }

  lemma ProgramIsGroup(n: Regex, sticky: bool, rs: Registers)
    ensures ProgramCode(n, sticky, rs) == (if sticky then [] else SEARCH_PREFIX) + (Code(Group(n), false, rs, 0) + [Accept])
  {
    hide Code;
    var prefix := if sticky then [] else SEARCH_PREFIX;
    var body := Code(n, false, rs, 1);
    GroupCode(Group(n), false, rs, 0);
    assert [SaveEnd(0), Accept] == [SaveEnd(0)] + [Accept];
  }

  lemma PrefixLayout(prog: Program, sticky: bool)
    requires HasCode(prog, 0, if sticky then [] else SEARCH_PREFIX)
    ensures CodeSize(if sticky then [] else SEARCH_PREFIX) == BodyStart(sticky)
    ensures !sticky ==> prog(0) == Some(Split(false, 6)) && prog(5) == Some(AnyChar) && prog(6) == Some(Goto(-11))
  {
    if !sticky {
      var s := SEARCH_PREFIX;
      assert s[1..] == [AnyChar, Goto(-11)] && s[1..][1..] == [Goto(-11)] && s[1..][1..][1..] == [];
    }
  }

  /** The end of a run: the match `r`, reading half-written groups as unset, or failure. */
  ghost predicate Answers(m: Context, s: Machine, r: Option<State>) {
    match r
    case None => Reaches(m, s, Failed)
    case Some(y) => exists cap :: AnswersWith(m, s, y, cap)
  }

  ghost predicate AnswersWith(m: Context, s: Machine, y: State, cap: seq<int>) {
    |cap| >= 2 * m.count && Settled(cap[..2 * m.count]) == y.caps && Reaches(m, s, Matched(y.pos, cap))
  }

  lemma AnswersAfter(m: Context, s: Machine, t: Machine, r: Option<State>)
    requires Reaches(m, s, t) && Answers(m, t, r)
    ensures Answers(m, s, r)
  {
    if r.None? {
      ReachesTransitive(m, s, t, Failed);
    } else {
      var cap :| AnswersWith(m, t, r.value, cap);
      ReachesTransitive(m, s, t, Matched(r.value.pos, cap));
      assert AnswersWith(m, s, r.value, cap);
    }
  }

  lemma FirstSucceeds(ys: seq<State>)
    ensures First(ys, Succeed()) == if ys == [] then None else Some(ys[0])
  {}

  // ----- what the emitted code finds -----

  /** The first outcome of the code at `p`, reading half-written groups as unset. */
  ghost function CodeAt(e: Input, n: Pattern, p: nat): Option<State>
    requires Boundary(e, p)
  {
    var whole: Pattern := Group(n);
    var ys := Outcomes(e, true, whole, false, 0, State(p, Blank(2 * (1 + Groups(n)))));
    if ys == [] then None else Some(Abs(ys[0]))
  }

  /** The first outcome of the code at the first position from `p` on that has one. */
  ghost function FirstCode(e: Input, n: Pattern, sticky: bool, p: nat): Option<State>
    requires Boundary(e, p)
    decreases Len(e) - p
  {
    var r := CodeAt(e, n, p);
    if r.Some? || sticky || p == Len(e) then r
    else
      ForwardStep(e, p, Len(e));
      FirstCode(e, n, sticky, Next(e, p, Len(e)))
  }

  lemma {:induction false} CodeAtIsMatchAt(e: Input, n: Pattern, p: nat)
    requires Boundary(e, p) && CountsFit(n, false, Len(e))
    ensures CodeAt(e, n, p) == MatchAt(e, n, p)
  {
    hide Outcomes, Match, Settled;
    var whole: Pattern := Group(n);
    var x := State(p, Blank(2 * (1 + Groups(n))));
    AbsBlank(x, 2 * (1 + Groups(n)));
    OutcomesAgree(e, whole, false, 0, x);
    MatchIsFirst(e, whole, false, 0, x, Succeed());
    FirstSucceeds(AbsAll(|x.caps|, Outcomes(e, true, whole, false, 0, x)));
  }

  lemma {:induction false} FirstCodeIsFirstMatch(e: Input, n: Pattern, sticky: bool, p: nat)
    requires Boundary(e, p) && CountsFit(n, false, Len(e))
    ensures FirstCode(e, n, sticky, p) == FirstMatch(e, n, sticky, p)
    decreases Len(e) - p
  {
    hide CodeAt, MatchAt, CountsFit;
    CodeAtIsMatchAt(e, n, p);
    if MatchAt(e, n, p).None? && !sticky && p != Len(e) {
      ForwardStep(e, p, Len(e));
      FirstCodeIsFirstMatch(e, n, sticky, Next(e, p, Len(e)));
    }
  }

  /** At one start position the code halts with its first outcome, or fails into `stack`. */
  lemma AttemptHalts(m: Context, n: Pattern, sticky: bool, p: nat, cap: seq<int>, stack: seq<Frame>)
    requires Loaded(m, n, sticky) && Fresh(m, cap) && Boundary(m.e, p)
    ensures var s := Running(BodyStart(sticky), p, cap, stack); var r := CodeAt(m.e, n, p);
      if r.Some? then Answers(m, s, r) else Reaches(m, s, Backtrack(stack))
  {
    hide Outcomes, Code, Delivers, HasCode, CodeSize, RegistersOf, Settled, Run;
    var whole: Pattern := Group(n);
    var x := State(p, Blank(2 * m.count));
    var code := CodeOf(whole, false, 0, []);
    var from := Site(BodyStart(sticky), stack, []);
    ProgramLayout(m, n, sticky);
    RegistersOfGroup(n);
    Simulates(m, whole, false, 0, x, cap, from);
    var ys := Outcomes(m.e, true, whole, false, 0, x);
    var s, at := Start(x, cap, from), Past(from, code);
    if ys != [] {
      FirstAnswers(m, s, ys, at, x);
    } else {
      NoDelivery(m, s, at);
    }
  }

  /** Once the first outcome is delivered the program accepts with it. */
  lemma FirstAnswers(m: Context, s: Machine, ys: seq<State>, at: Site, x: State)
    requires ys != [] && Delivers(m, s, ys, at) && m.prog(at.end) == Some(Accept)
    requires at.pre == [] && |x.caps| == 2 * m.count && After(m.e, false, x, ys[0])
    ensures Answers(m, s, Some(Abs(ys[0])))
  {
    hide Delivers, Run, Settled;
    var frames, cap' := FirstDelivery(m, s, ys, at);
    var t := Running(at.end, ys[0].pos, cap', at.stack + frames);
    ReachesStep(m, t);
    ReachesTransitive(m, s, t, Step(m, t));
    assert AnswersWith(m, s, Abs(ys[0]), cap');
  }

  lemma NoDelivery(m: Context, s: Machine, at: Site)
    requires Delivers(m, s, [], at)
    ensures Reaches(m, s, Backtrack(at.stack))
  {}

  lemma RegistersOfGroup(n: Pattern)
    ensures RegistersOf(Group(n), false) == RegistersOf(n, false) && Groups(Group(n)) == 1 + Groups(n)
  {}

  lemma AbsBlank(x: State, k: nat)
    requires k % 2 == 0 && x.caps == Blank(k)
    ensures Abs(x) == x && Unset(x.caps, 0, k / 2)
  {
    assert Settled(x.caps) == x.caps;
  }

  /** Every run of a compiled program halts, without crashing, with the first outcome of its code. */
  lemma {:induction false} ProgramHalts(m: Context, n: Pattern, sticky: bool, p: nat, cap: seq<int>)
    requires Loaded(m, n, sticky) && Fresh(m, cap) && Boundary(m.e, p)
    ensures Answers(m, Running(0, p, cap, []), FirstCode(m.e, n, sticky, p))
    decreases Len(m.e) - p
  {
    hide CodeAt, Loaded, Answers, Run;
    var s := Running(0, p, cap, []);
    if sticky {
      AttemptHalts(m, n, sticky, p, cap, []);
      if CodeAt(m.e, n, p).None? {
        FailureAnswers(m, s);
      }
    } else {
      PrefixSteps(m, n, p, cap);
      var saved := Frame(SplitFrame, 5, p, cap);
      var first := Running(11, p, cap, [saved]);
      AttemptHalts(m, n, sticky, p, cap, [saved]);
      if CodeAt(m.e, n, p).Some? {
        AnswersAfter(m, s, first, CodeAt(m.e, n, p));
      } else {
        var second := Running(5, p, cap, []);
        ReachesTransitive(m, s, first, second);
        if p == Len(m.e) {
          ReachesTransitive(m, s, second, Failed);
          FailureAnswers(m, s);
        } else {
          ForwardStep(m.e, p, Len(m.e));
          var q := Next(m.e, p, Len(m.e));
          var again := Running(0, q, cap, []);
          ReachesTransitive(m, s, second, again);
          ProgramHalts(m, n, sticky, q, cap);
          AnswersAfter(m, s, again, FirstCode(m.e, n, sticky, q));
        }
      }
    }
  }

  /** The whole program finds the standard's leftmost match (the match at `p` for a sticky expression), with
      its captures, or fails when there is none: for every pattern, subject and start position. */
  lemma ProgramIsFirstMatch(m: Context, n: Pattern, sticky: bool, p: nat, cap: seq<int>)
    requires Loaded(m, n, sticky) && Fresh(m, cap) && Boundary(m.e, p) && CountsFit(n, false, Len(m.e))
    ensures Answers(m, Running(0, p, cap, []), FirstMatch(m.e, n, sticky, p))
  {
    hide Loaded, Answers, CountsFit, FirstMatch, FirstCode;
    ProgramHalts(m, n, sticky, p, cap);
    FirstCodeIsFirstMatch(m.e, n, sticky, p);
  }

  lemma FailureAnswers(m: Context, s: Machine)
    requires Reaches(m, s, Failed)
    ensures Answers(m, s, None)
  {}

  /** `split_goto_first`, and what its saved branch does: skip a character and start over. */
  lemma PrefixSteps(m: Context, n: Pattern, p: nat, cap: seq<int>)
    requires Loaded(m, n, false) && Fresh(m, cap) && p <= Len(m.e)
    ensures var saved := Frame(SplitFrame, 5, p, cap);
      && Reaches(m, Running(0, p, cap, []), Running(11, p, cap, [saved]))
      && Backtrack([saved]) == Running(5, p, cap, [])
    ensures p == Len(m.e) ==> Reaches(m, Running(5, p, cap, []), Failed)
    ensures p < Len(m.e) ==>
      Reaches(m, Running(5, p, cap, []), Running(0, Next(m.e, p, Len(m.e)), cap, []))
  {
    ProgramLayout(m, n, false);
    hide HasCode, Code, CodeSize, Run;
    StepSplit(m, Running(0, p, cap, []), false, 6);
    ReachesStep(m, Running(0, p, cap, []));
    var s := Running(5, p, cap, []);
    ReachesStep(m, s);
    if p < Len(m.e) {
      var t := Running(6, Next(m.e, p, Len(m.e)), cap, []);
      assert Step(m, s) == t;
      StepGoto(m, t, -11);
      ReachesTransitive(m, s, t, Running(0, t.pos, cap, []));
    } else {
      assert Step(m, s) == Backtrack([]);
    }
  }
}
