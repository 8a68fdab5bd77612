/** Which groups the emitted code of a pattern can write. */
module CaptureFrames {
  import opened Subject
  import opened Options
  import opened RegexSyntax
  import opened EcmaMatcher
  import opened Codegen
  import opened OutcomeLists
  import opened Layout

  ghost function Interval(g: nat, k: nat): (s: set<nat>)
    ensures forall i :: i in s <==> g <= i < g + k
  {
    if k == 0 then {} else Interval(g, k - 1) + {g + k - 1}
  }

  /** The groups written by the emitted code of `n`, counted from `g`. A `{0}` quantifier writes nothing or
      resets its atom's groups; other quantifiers may reset any of them. */
  ghost function Writes(n: Regex, backward: bool, g: nat): set<nat> {
    match n
    case Group(body) => {g} + Writes(body, backward, g + 1)
    case Look(_, behind, body) => Writes(body, behind, g)
    case Cat(l, r) => Writes(l, backward, g) + Writes(r, backward, g + Groups(l))
    case Alt(l, r) => Writes(l, backward, g) + Writes(r, backward, g + Groups(l))
    case Quant(a, min, max, _) =>
      if min == 0 && max == 0 && !ResetsBefore(a, backward) then {} else Interval(g, Groups(a))
    case _ => {}
  }

  lemma {:induction false} WritesOwnGroups(n: Regex, backward: bool, g: nat)
    ensures Writes(n, backward, g) <= Interval(g, Groups(n))
    decreases n, 1
  {
    hide ScanOf, NeedsCaptureInit, ResetsBefore, Interval;
    match n
    case Group(body) =>
      WritesOwnGroups(body, backward, g + 1);
      Inside(Writes(body, backward, g + 1), g + 1, Groups(body), g, Groups(n));
    case Look(_, behind, body) => WritesOwnGroups(body, behind, g);
    case Cat(l, r) => BothInside(n, l, r, backward, g);
    case Alt(l, r) => BothInside(n, l, r, backward, g);
    case _ =>
  }

  lemma {:induction false} BothInside(n: Regex, l: Regex, r: Regex, backward: bool, g: nat)
    requires n == Cat(l, r) || n == Alt(l, r)
    ensures Writes(l, backward, g) + Writes(r, backward, g + Groups(l)) <= Interval(g, Groups(n))
    decreases n, 0
  {
    hide Writes, Interval;
    WritesOwnGroups(l, backward, g);
    WritesOwnGroups(r, backward, g + Groups(l));
    Inside(Writes(l, backward, g), g, Groups(l), g, Groups(n));
    Inside(Writes(r, backward, g + Groups(l)), g + Groups(l), Groups(r), g, Groups(n));
  }

  lemma Inside(w: set<nat>, g: nat, k: nat, g': nat, k': nat)
    requires w <= Interval(g, k) && g' <= g && g + k <= g' + k'
    ensures w <= Interval(g', k')
  {
    hide Interval;
  }

  /** The two capture arrays agree outside the groups of `w`. */
  ghost predicate SameOutside(w: set<nat>, a: seq<int>, b: seq<int>) {
    |a| == |b| && forall i :: 0 <= i < |a| && i / 2 !in w ==> a[i] == b[i]
  }

  ghost predicate AllFramed(w: set<nat>, x: State, ys: seq<State>) {
    forall i :: 0 <= i < |ys| ==> SameOutside(w, x.caps, ys[i].caps)
  }

  lemma FramedAppend(w: set<nat>, x: State, ys: seq<State>, zs: seq<State>)
    requires AllFramed(w, x, ys) && AllFramed(w, x, zs)
    ensures AllFramed(w, x, ys + zs)
  {}

  lemma FramedWiden(w: set<nat>, w': set<nat>, x: State, ys: seq<State>)
    requires AllFramed(w, x, ys) && w <= w'
    ensures AllFramed(w', x, ys)
  {}

  lemma FramedThrough(w: set<nat>, x: State, y: State, zs: seq<State>)
    requires SameOutside(w, x.caps, y.caps) && AllFramed(w, y, zs)
    ensures AllFramed(w, x, zs)
  {
    forall i | 0 <= i < |zs| ensures SameOutside(w, x.caps, zs[i].caps) {
      assert SameOutside(w, y.caps, zs[i].caps);
    }
  }

  /** Matching writes no other groups. */
  lemma {:induction false} Frame(e: Input, n: Pattern, backward: bool, g: nat, x: State)
    requires Valid(e, x) && Fits(n, g, x)
    ensures AllFramed(Writes(n, backward, g), x, Outcomes(e, true, n, backward, g, x))
    decreases n, 1
  {
    hide Outcomes, AllFramed, Valid;
    match n
    case Group(body) =>
      GroupOutcomes(e, true, n, backward, g, x);
      var x' := OpenGroup(x, g, backward);
      var ys := Outcomes(e, true, body, backward, g + 1, x');
      var w := Writes(n, backward, g);
      Frame(e, body, backward, g + 1, x');
      FramedWiden(Writes(body, backward, g + 1), w, x', ys);
      FramedThrough(w, x, x', ys);
      FrameClose(e, w, g, backward, x, ys);
    case Look(_, behind, body) =>
      LookOutcomes(e, true, n, backward, g, x);
      Frame(e, body, behind, g, x);
      FrameLook(Writes(n, backward, g), x, Outcomes(e, true, body, behind, g, x), Outcomes(e, true, n, backward, g, x));
    case Cat(l, r) => FrameCat(e, n, backward, g, x);
    case Alt(l, r) =>
      AltOutcomes(e, true, n, backward, g, x);
      var w := Writes(n, backward, g);
      Frame(e, l, backward, g, x);
      Frame(e, r, backward, g + Groups(l), x);
      FramedWiden(Writes(l, backward, g), w, x, Outcomes(e, true, l, backward, g, x));
      FramedWiden(Writes(r, backward, g + Groups(l)), w, x, Outcomes(e, true, r, backward, g + Groups(l), x));
      FramedAppend(w, x, Outcomes(e, true, l, backward, g, x), Outcomes(e, true, r, backward, g + Groups(l), x));
    case Quant(_, _, _, _) => FrameQuant(e, n, backward, g, x);
    case _ => FrameSimple(e, n, backward, g, x);
  }

  lemma FrameSimple(e: Input, n: Pattern, backward: bool, g: nat, x: State)
    requires n.Empty? || IsCharacter(n) || IsAssertion(n) || n.BackReference?
    requires Valid(e, x) && Fits(n, g, x)
    ensures AllFramed({}, x, Outcomes(e, true, n, backward, g, x))
  {}

  lemma FrameLook(w: set<nat>, x: State, ys: seq<State>, zs: seq<State>)
    requires AllFramed(w, x, ys)
    requires zs == [] || zs == [x] || (ys != [] && zs == [x.(caps := ys[0].caps)])
    ensures AllFramed(w, x, zs)
  {}

  lemma {:induction false} FrameClose(e: Input, w: set<nat>, g: nat, backward: bool, x: State, ys: seq<State>)
    requires 2 * g + 1 < |x.caps| && Valid(e, x) && AllAfter(e, backward, x, ys) && AllFramed(w, x, ys) && g in w
    ensures AllFramed(w, x, CloseAll(e, true, g, backward, x, ys))
    decreases |ys|
  {
    if ys != [] {
      FrameClose(e, w, g, backward, x, ys[1..]);
      assert SameOutside(w, x.caps, ys[0].caps);
    }
  }

  lemma {:induction false} FrameCat(e: Input, n: Pattern, backward: bool, g: nat, x: State)
    requires Valid(e, x) && Fits(n, g, x) && n.Cat?
    ensures AllFramed(Writes(n, backward, g), x, Outcomes(e, true, n, backward, g, x))
    decreases n, 0
  {
    hide Outcomes, OutcomesAll, AllFramed, Valid;
    CatOutcomes(e, true, n, backward, g, x);
    var w := Writes(n, backward, g);
    var l, r := n.left, n.right;
    if backward {
      var ys := Outcomes(e, true, r, backward, g + Groups(l), x);
      Frame(e, r, backward, g + Groups(l), x);
      FramedWiden(Writes(r, backward, g + Groups(l)), w, x, ys);
      FrameAll(e, w, l, backward, g, x, ys);
    } else {
      var ys := Outcomes(e, true, l, backward, g, x);
      Frame(e, l, backward, g, x);
      FramedWiden(Writes(l, backward, g), w, x, ys);
      FrameAll(e, w, r, backward, g + Groups(l), x, ys);
    }
  }

  lemma {:induction false} FrameAll(e: Input, w: set<nat>, n: Pattern, backward: bool, g: nat, x: State, ys: seq<State>)
    requires Fits(n, g, x) && AllAfter(e, backward, x, ys) && AllFramed(w, x, ys) && Writes(n, backward, g) <= w
    ensures AllFramed(w, x, OutcomesAll(e, true, n, backward, g, x, ys))
    decreases n, 2, |ys|
  {
    if ys != [] {
      OutcomesAllFirst(e, true, n, backward, g, x, ys);
      hide Outcomes, OutcomesAll, AllAfter, Writes;
      Frame(e, n, backward, g, ys[0]);
      var zs := Outcomes(e, true, n, backward, g, ys[0]);
      FramedWiden(Writes(n, backward, g), w, ys[0], zs);
      FramedThrough(w, x, ys[0], zs);
      FrameAll(e, w, n, backward, g, x, ys[1..]);
      FramedAppend(w, x, zs, OutcomesAll(e, true, n, backward, g, x, ys[1..]));
    }
  }

  lemma {:induction false} FrameQuant(e: Input, n: Pattern, backward: bool, g: nat, x: State)
    requires Valid(e, x) && Fits(n, g, x) && n.Quant?
    ensures AllFramed(Writes(n, backward, g), x, Outcomes(e, true, n, backward, g, x))
    decreases n, 0
  {
    hide Outcomes, Repeat, ScanOf;
    var Quant(a, min, max, greedy) := n;
    QuantOutcomes(e, true, n, backward, g, x);
    var x' := if min == 0 && ResetsBefore(a, backward) then Reset(x, g, Groups(a)) else x;
    var bound := UpperBound(true, a, backward, min, max);
    var w := Writes(n, backward, g);
    RepeatUnfolds(e, true, a, backward, g, min, bound, greedy, x');
    if max != 0 {
      FrameRepeat(e, a, backward, g, min, bound, greedy, x');
    }
    FramedThrough(w, x, x', Outcomes(e, true, n, backward, g, x));
  }

  lemma {:induction false} FrameRepeat(e: Input, a: Pattern, backward: bool, g: nat, min: nat, max: Option<nat>, greedy: bool, x: State)
    requires Valid(e, x) && Fits(a, g, x)
    ensures AllFramed(Interval(g, Groups(a)), x, Repeat(e, true, a, backward, g, min, max, greedy, x))
    decreases a, 3, min, 2 * Remaining(e, backward, x.pos) + 1, 0
  {
    hide Outcomes, Repeat, RepeatAll, Iterate, AllFramed, ScanOf, NeedsCaptureInit;
    var w := Interval(g, Groups(a));
    RepeatUnfolds(e, true, a, backward, g, min, max, greedy, x);
    FrameSelf(w, x);
    if max != Some(0) {
      IterateUnfolds(e, true, a, backward, g, min, max, greedy, x);
      var x' := IterationStart(true, a, backward, g, x);
      var ys := Outcomes(e, true, a, backward, g, x');
      Frame(e, a, backward, g, x');
      WritesOwnGroups(a, backward, g);
      FramedWiden(Writes(a, backward, g), w, x', ys);
      FramedThrough(w, x, x', ys);
      FrameRepeatAll(e, a, backward, g, min, max, greedy, x, ys);
      var once := Iterate(e, true, a, backward, g, min, max, greedy, x);
      FramedAppend(w, x, once, [x]);
      FramedAppend(w, x, [x], once);
    }
  }

  lemma FrameSelf(w: set<nat>, x: State)
    ensures AllFramed(w, x, [x])
  {}

  lemma {:induction false} FrameRepeatAll(e: Input, a: Pattern, backward: bool, g: nat, min: nat, max: Option<nat>, greedy: bool,
                                x: State, ys: seq<State>)
    requires Valid(e, x) && Fits(a, g, x) && AllAfter(e, backward, x, ys) && AllFramed(Interval(g, Groups(a)), x, ys)
    ensures AllFramed(Interval(g, Groups(a)), x, RepeatAll(e, true, a, backward, g, min, max, greedy, x, ys))
    decreases a, 3, min, 2 * Remaining(e, backward, x.pos), |ys|
  {
    if ys == [] {
      RepeatAllNone(e, true, a, backward, g, min, max, greedy, x);
    } else {
      hide Repeat, RepeatAll, Interval;
      var w := Interval(g, Groups(a));
      RepeatAllFirst(e, true, a, backward, g, min, max, greedy, x, ys);
      FrameRepeatAll(e, a, backward, g, min, max, greedy, x, ys[1..]);
      if !(min == 0 && ys[0].pos == x.pos) {
        var zs := Repeat(e, true, a, backward, g, Decrement(min), DecrementMax(max), greedy, ys[0]);
        FrameRepeat(e, a, backward, g, Decrement(min), DecrementMax(max), greedy, ys[0]);
        FramedThrough(w, x, ys[0], zs);
        FramedAppend(w, x, zs, RepeatAll(e, true, a, backward, g, min, max, greedy, x, ys[1..]));
      }
    }
  }
}
