/** Patterns after parsing, match states, and the one-character primitives every semantics shares. */
module RegexSyntax {
  import opened Options
  import opened Subject

  /** `INT32_MAX`, which the quantifier parser also stores for "no upper bound". */
  const INFINITE: nat := 0x7fff_ffff

  /** A parsed pattern. A character or class under `icase` is already folded, as the parser leaves
      it; a class is its boundary array (see `CharRange`). Groups are numbered left to right. */
  datatype Regex =
    | Empty
    | Char(c: nat, icase: bool)
    | Dot(dotAll: bool)
    | Space(negated: bool)
    | Class(points: seq<nat>, icase: bool)
    | LineStart(multiline: bool)
    | LineEnd(multiline: bool)
    | WordBoundary(negated: bool, icase: bool)
    | BackReference(groups: seq<nat>, icase: bool)
    | Group(body: Regex)
    | Look(negated: bool, behind: bool, body: Regex)
    | Cat(left: Regex, right: Regex)
    | Alt(left: Regex, right: Regex)
    | Quant(atom: Regex, min: nat, max: nat, greedy: bool)

  function Groups(n: Regex): nat {
    match n
    case Group(body) => 1 + Groups(body)
    case Look(_, _, body) => Groups(body)
    case Cat(l, r) => Groups(l) + Groups(r)
    case Alt(l, r) => Groups(l) + Groups(r)
    case Quant(a, _, _, _) => Groups(a)
    case _ => 0
  }

  /** Membership in a boundary array: `points[2k] <= c < points[2k+1]` for some `k`. */
  predicate Member(points: seq<nat>, c: nat) {
    exists k :: 0 <= k < |points| / 2 && InInterval(points, k, c)
  }

  predicate InInterval(points: seq<nat>, k: nat, c: nat)
    requires k < |points| / 2
  {
    points[2 * k] <= c < points[2 * k + 1]
  }

  /** The position in the subject and the capture array: entry `2i` is the start and entry `2i+1`
      the end of group `i`, -1 standing for NULL. */
  datatype State = State(pos: nat, caps: seq<int>)

  ghost predicate Valid(e: Input, x: State) {
    && Boundary(e, x.pos)
    && forall i :: 0 <= i < |x.caps| ==> x.caps[i] == -1 || Boundary(e, x.caps[i])
  }

  predicate Ordered(backward: bool, from: int, to: int) {
    if backward then to <= from else from <= to
  }

  /** `y` can be the outcome of matching something in the given direction from `x`. */
  ghost predicate After(e: Input, backward: bool, x: State, y: State) {
    Valid(e, y) && |y.caps| == |x.caps| && Ordered(backward, x.pos, y.pos)
  }

  /** How far the subject still extends in the matching direction. */
  function Remaining(e: Input, backward: bool, p: nat): nat {
    if backward then p else if p <= Len(e) then Len(e) - p else 0
  }

  /** The first of the states on which the continuation succeeds. */
  function First(ys: seq<State>, c: State -> Option<State>): Option<State> {
    if ys == [] then None
    else if c(ys[0]).Some? then c(ys[0])
    else First(ys[1..], c)
  }

  lemma FirstAppend(xs: seq<State>, ys: seq<State>, c: State -> Option<State>)
    ensures First(xs + ys, c) == if First(xs, c).Some? then First(xs, c) else First(ys, c)
  {
    if xs == [] {
      assert xs + ys == ys;
    } else {
      assert (xs + ys)[1..] == xs[1..] + ys;
      FirstAppend(xs[1..], ys, c);
    }
  }

  // ----- one character -----

  predicate IsCharacter(n: Regex) {
    n.Char? || n.Dot? || n.Space? || n.Class?
  }

  predicate Accepts(e: Input, n: Regex, ch: CodePoint)
    requires IsCharacter(n)
  {
    match n
    case Char(c, icase) => (if icase then e.canon(ch) else ch) == c
    case Dot(dotAll) => dotAll || !IsLineTerminator(ch)
    case Space(negated) => e.isSpace(ch) != negated
    case Class(points, icase) => Member(points, if icase then e.canon(ch) else ch)
  }

  predicate CanStep(e: Input, backward: bool, p: nat) {
    if backward then 0 < p else p < Len(e)
  }

  function StepTo(e: Input, backward: bool, p: nat): nat
    requires p <= Len(e) && CanStep(e, backward, p)
  {
    if backward then Prev(e, p, 0) else Next(e, p, Len(e))
  }

  function StepOver(e: Input, backward: bool, p: nat): CodePoint
    requires p <= Len(e) && CanStep(e, backward, p)
  {
    if backward then CharBefore(e, p, 0) else CharAt(e, p, Len(e))
  }

  // ----- zero-width assertions -----

  predicate IsAssertion(n: Regex) {
    n.LineStart? || n.LineEnd? || n.WordBoundary?
  }

  predicate Holds(e: Input, n: Regex, p: nat)
    requires IsAssertion(n) && p <= Len(e)
  {
    match n
    case LineStart(multiline) => p == 0 || (multiline && IsLineTerminator(CharBefore(e, p, 0)))
    case LineEnd(multiline) => p == Len(e) || (multiline && IsLineTerminator(CharAt(e, p, Len(e))))
    case WordBoundary(negated, icase) => (WordBefore(e, p, icase) != WordAfter(e, p, icase)) != negated
  }

  // ----- back references -----

  predicate IsSet(caps: seq<int>, i: nat) {
    2 * i + 1 < |caps| && caps[2 * i] >= 0 && caps[2 * i + 1] >= 0
  }

  /** The end of a copy of the text between `s` and `t` found at `p` in the given direction. */
  function CopyEnd(e: Input, icase: bool, backward: bool, s: nat, t: nat, p: nat): (r: Option<nat>)
    requires t <= Len(e) && p <= Len(e)
    ensures r.Some? ==> r.value <= Len(e)
    decreases if s < t then t - s else 0
  {
    if t <= s then Some(p)
    else if !CanStep(e, backward, p) then None
    else
      var c := if backward then CharBefore(e, t, s) else CharAt(e, s, t);
      var d := StepOver(e, backward, p);
      if (if icase then e.canon(c) != e.canon(d) else c != d) then None
      else if backward then CopyEnd(e, icase, backward, s, Prev(e, t, s), Prev(e, p, 0))
      else CopyEnd(e, icase, backward, Next(e, s, t), t, Next(e, p, Len(e)))
  }

  lemma CopyEndIsBoundary(e: Input, icase: bool, backward: bool, s: nat, t: nat, p: nat)
    requires Boundary(e, s) && Boundary(e, t) && Boundary(e, p)
    ensures var r := CopyEnd(e, icase, backward, s, t, p);
            r.Some? ==> Boundary(e, r.value) && Ordered(backward, p, r.value)
    decreases if s < t then t - s else 0
  {
    if s < t && CanStep(e, backward, p) {
      if backward {
        BackwardStep(e, t, s);
        BackwardStep(e, p, 0);
        CopyEndIsBoundary(e, icase, backward, s, Prev(e, t, s), Prev(e, p, 0));
      } else {
        ForwardStep(e, s, t);
        ForwardStep(e, p, Len(e));
        CopyEndIsBoundary(e, icase, backward, Next(e, s, t), t, Next(e, p, Len(e)));
      }
    }
  }

  /** The first listed group that is set decides; with none set the reference matches empty text. A
      group number outside the capture array fails, as does (never in a valid state) a capture outside
      the subject. */
  function ReferenceEnd(e: Input, groups: seq<nat>, icase: bool, backward: bool, x: State): (r: Option<nat>)
    requires x.pos <= Len(e)
    ensures r.Some? ==> r.value <= Len(e)
  {
    if groups == [] then Some(x.pos)
    else
      var i := groups[0];
      if 2 * i + 1 >= |x.caps| then None
      else if IsSet(x.caps, i) then
        if x.caps[2 * i + 1] > Len(e) then None
        else CopyEnd(e, icase, backward, x.caps[2 * i], x.caps[2 * i + 1], x.pos)
      else ReferenceEnd(e, groups[1..], icase, backward, x)
  }

  lemma ReferenceEndIsBoundary(e: Input, groups: seq<nat>, icase: bool, backward: bool, x: State)
    requires Valid(e, x)
    ensures var r := ReferenceEnd(e, groups, icase, backward, x);
            r.Some? ==> Boundary(e, r.value) && Ordered(backward, x.pos, r.value)
  {
    if groups != [] {
      var i := groups[0];
      if 2 * i + 1 < |x.caps| {
        if IsSet(x.caps, i) {
          CopyEndIsBoundary(e, icase, backward, x.caps[2 * i], x.caps[2 * i + 1], x.pos);
        } else {
          ReferenceEndIsBoundary(e, groups[1..], icase, backward, x);
        }
      }
    }
  }

  // ----- captures -----

  /** `caps` with the `k` groups from `g` on undefined. */
  function ResetCaps(caps: seq<int>, g: nat, k: nat): (r: seq<int>)
    requires 2 * (g + k) <= |caps|
    ensures |r| == |caps|
  {
    seq(|caps|, i requires 0 <= i < |caps| => if 2 * g <= i < 2 * (g + k) then -1 else caps[i])
  }

  function Reset(x: State, g: nat, k: nat): State
    requires 2 * (g + k) <= |x.caps|
  {
    x.(caps := ResetCaps(x.caps, g, k))
  }

  /** The groups from `g` up to but not including `g + k` become undefined, all others keep their text. */
  lemma ResetGroups(x: State, g: nat, k: nat, i: nat)
    requires 2 * (g + k) <= |x.caps| && 2 * i + 1 < |x.caps|
    ensures var z := Reset(x, g, k);
      && z.pos == x.pos && |z.caps| == |x.caps|
      && (g <= i < g + k ==> z.caps[2 * i] == z.caps[2 * i + 1] == -1 && !IsSet(z.caps, i))
      && (!(g <= i < g + k) ==> z.caps[2 * i] == x.caps[2 * i] && z.caps[2 * i + 1] == x.caps[2 * i + 1])
  {}
}
