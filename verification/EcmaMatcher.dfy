/** The matchers of section 22.2.2 of ECMA-262, in continuation-passing style. */
module EcmaMatcher {
  import opened Subject
  import opened Options
  import opened RegexSyntax

  type Continuation = State -> Option<State>

  ghost function Match(e: Input, n: Regex, backward: bool, g: nat, x: State, c: Continuation): Option<State>
    requires Valid(e, x) && 2 * (g + Groups(n)) <= |x.caps|
    decreases n, 0, 0, 0
  {
    match n
    case Empty => c(x)
    case Char(_, _) => MatchCharacter(e, n, backward, x, c)
    case Dot(_) => MatchCharacter(e, n, backward, x, c)
    case Space(_) => MatchCharacter(e, n, backward, x, c)
    case Class(_, _) => MatchCharacter(e, n, backward, x, c)
    case LineStart(_) => if Asserts(e, n, x.pos) then c(x) else None
    case LineEnd(_) => if Asserts(e, n, x.pos) then c(x) else None
    case WordBoundary(_, _) => if Asserts(e, n, x.pos) then c(x) else None
    case BackReference(groups, icase) => MatchReference(e, groups, icase, backward, x, c)
    case Group(body) => Match(e, body, backward, g + 1, x, Closing(backward, g, x, c))
    case Look(negated, behind, body) =>
      var r := Match(e, body, behind, g, x, Succeed());
      if negated then if r.Some? then None else c(x)
      else if r.None? then None else c(x.(caps := r.value.caps))
    case Cat(l, r) =>
      if backward then Match(e, r, backward, g + Groups(l), x, Then(e, l, backward, g, |x.caps|, c))
      else Match(e, l, backward, g, x, Then(e, r, backward, g + Groups(l), |x.caps|, c))
    case Alt(l, r) =>
      var z := Match(e, l, backward, g, x, c);
      if z.Some? then z else Match(e, r, backward, g + Groups(l), x, c)
    case Quant(a, min, max, greedy) =>
      MatchRepeat(e, a, backward, g, min, if max == INFINITE then None else Some(max), greedy, x, c)
  }

  // ----- characters of the text -----

  /** The text between two positions, whichever comes first. */
  ghost function Between(e: Input, p: nat, q: nat): seq<CodePoint>
    requires p <= Len(e) && q <= Len(e)
  {
    if p <= q then Text(e, p, q) else Text(e, q, p)
  }

  /** The character next to position `p` in the given direction is `ch`, and `q` is the position behind it. */
  ghost predicate Reads(e: Input, backward: bool, p: nat, q: nat, ch: CodePoint)
    requires p <= Len(e)
  {
    Boundary(e, q) && Ordered(backward, p, q) && Between(e, p, q) == [ch]
  }

  ghost predicate ReadsAccepted(e: Input, n: Regex, backward: bool, p: nat, q: nat, ch: CodePoint)
    requires p <= Len(e) && IsCharacter(n)
  {
    Reads(e, backward, p, q, ch) && Accepts(e, n, ch)
  }

  /** CharacterSetMatcher */
  ghost function MatchCharacter(e: Input, n: Regex, backward: bool, x: State, c: Continuation): Option<State>
    requires Valid(e, x) && IsCharacter(n)
  {
    if exists q: nat, ch: CodePoint :: ReadsAccepted(e, n, backward, x.pos, q, ch) then
      var q: nat, ch: CodePoint :| ReadsAccepted(e, n, backward, x.pos, q, ch);
      c(x.(pos := q))
    else None
  }

  // ----- assertions -----

  ghost predicate ReadsTerminator(e: Input, backward: bool, p: nat)
    requires p <= Len(e)
  {
    exists q: nat, ch: CodePoint :: Reads(e, backward, p, q, ch) && IsLineTerminator(ch)
  }

  /** IsWordChar of the character on one side of `p`, false at the end of the text. */
  ghost predicate ReadsWord(e: Input, backward: bool, p: nat, icase: bool)
    requires p <= Len(e)
  {
    exists q: nat, ch: CodePoint :: Reads(e, backward, p, q, ch) && IsWordChar(ch, icase)
  }

  ghost predicate Asserts(e: Input, n: Regex, p: nat)
    requires IsAssertion(n) && p <= Len(e)
  {
    match n
    case LineStart(multiline) => Text(e, 0, p) == [] || (multiline && ReadsTerminator(e, true, p))
    case LineEnd(multiline) => Text(e, p, Len(e)) == [] || (multiline && ReadsTerminator(e, false, p))
    case WordBoundary(negated, icase) => (ReadsWord(e, true, p, icase) != ReadsWord(e, false, p, icase)) != negated
  }

  // ----- back references -----

  /** Equal in length and character by character, under Canonicalize when case is ignored. */
  ghost predicate SameText(e: Input, icase: bool, a: seq<CodePoint>, b: seq<CodePoint>) {
    |a| == |b| && forall i :: 0 <= i < |a| ==> if icase then e.canon(a[i]) == e.canon(b[i]) else a[i] == b[i]
  }

  /** The text between `p` and `q` repeats the captured text from `s` to `t`. */
  ghost predicate IsCopy(e: Input, icase: bool, backward: bool, s: nat, t: nat, p: nat, q: nat)
    requires s <= Len(e) && t <= Len(e) && p <= Len(e)
  {
    && Boundary(e, q) && Ordered(backward, p, q)
    && SameText(e, icase, if s <= t then Text(e, s, t) else [], Between(e, p, q))
  }

  /** Group `i` has captured something, or is no group of the pattern. */
  predicate Decides(caps: seq<int>, i: nat) {
    2 * i + 1 >= |caps| || IsSet(caps, i)
  }

  ghost predicate DecidesFirst(caps: seq<int>, groups: seq<nat>, k: nat) {
    k < |groups| && Decides(caps, groups[k]) && forall j :: 0 <= j < k ==> !Decides(caps, groups[j])
  }

  /** BackreferenceMatcher: the reference matches from `x.pos` to `q`. Empty text while no listed group is set,
      otherwise a copy of what the first of those that are has captured. */
  ghost predicate Refers(e: Input, groups: seq<nat>, icase: bool, backward: bool, x: State, q: nat)
    requires Valid(e, x)
  {
    || (q == x.pos && forall k :: 0 <= k < |groups| ==> !Decides(x.caps, groups[k]))
    || exists k: nat :: DecidesFirst(x.caps, groups, k) && RefersTo(e, groups[k], icase, backward, x, q)
  }

  ghost predicate RefersTo(e: Input, i: nat, icase: bool, backward: bool, x: State, q: nat)
    requires Valid(e, x)
  {
    IsSet(x.caps, i) && IsCopy(e, icase, backward, x.caps[2 * i], x.caps[2 * i + 1], x.pos, q)
  }

  ghost function MatchReference(e: Input, groups: seq<nat>, icase: bool, backward: bool, x: State, c: Continuation): Option<State>
    requires Valid(e, x)
  {
    if exists q: nat :: Refers(e, groups, icase, backward, x, q) then
      var q: nat :| Refers(e, groups, icase, backward, x, q);
      c(x.(pos := q))
    else None
  }

  /** The continuation that returns its argument successfully. */
  function Succeed(): Continuation {
    (y: State) => Some(y)
  }

  /** Sets group `g` to the text between the states `x` and `y`, then continues. */
  ghost function Closing(backward: bool, g: nat, x: State, c: Continuation): Continuation {
    (y: State) =>
      if 2 * g + 1 < |y.caps| then c(y.(caps := SetGroup(y.caps, g, backward, x.pos, y.pos))) else None
  }

  function SetGroup(caps: seq<int>, g: nat, backward: bool, from: nat, to: nat): seq<int>
    requires 2 * g + 1 < |caps|
  {
    if backward then caps[2 * g := to][2 * g + 1 := from] else caps[2 * g := from][2 * g + 1 := to]
  }

  /** Continue with another term; `size` is the length of the capture array. */
  ghost function Then(e: Input, n: Regex, backward: bool, g: nat, size: nat, c: Continuation): Continuation
    decreases n, 3, 0, 0
  {
    (y: State) => if Valid(e, y) && |y.caps| == size && 2 * (g + Groups(n)) <= size
      then Match(e, n, backward, g, y, c) else None
  }

  /** RepeatMatcher: `max` is None for an infinite upper bound. */
  ghost function MatchRepeat(e: Input, a: Regex, backward: bool, g: nat, min: nat, max: Option<nat>, greedy: bool,
                       x: State, c: Continuation): Option<State>
    requires Valid(e, x) && 2 * (g + Groups(a)) <= |x.caps|
    decreases a, 2, min, 2 * Remaining(e, backward, x.pos) + 1
  {
    if max == Some(0) then c(x)
    else
      var d := Again(e, a, backward, g, min, max, greedy, x, c);
      var z := Match(e, a, backward, g, Reset(x, g, Groups(a)), d);
      if min != 0 then z
      else if greedy then if z.Some? then z else c(x)
      else if c(x).Some? then c(x) else z
  }

  /** What follows one iteration started at `x`: an optional iteration must have moved. */
  ghost function Again(e: Input, a: Regex, backward: bool, g: nat, min: nat, max: Option<nat>, greedy: bool,
                 x: State, c: Continuation): Continuation
    requires 2 * (g + Groups(a)) <= |x.caps|
    decreases a, 2, min, 2 * Remaining(e, backward, x.pos)
  {
    (y: State) =>
      if !After(e, backward, x, y) then None
      else if min == 0 && y.pos == x.pos then None
      else MatchRepeat(e, a, backward, g, Decrement(min), DecrementMax(max), greedy, y, c)
  }

  function Decrement(n: nat): nat {
    if n == 0 then 0 else n - 1
  }

  function DecrementMax(max: Option<nat>): Option<nat> {
    if max.None? then None else Some(Decrement(max.value))
  }
}
