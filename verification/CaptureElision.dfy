/** What the emitted code does to captures is invisible: reading a half-written group as unset, its outcomes
    are those of the standard's matcher, even though it opens groups early and drops capture resets. */
module CaptureElision {
  import opened Subject
  import opened Options
  import opened RegexSyntax
  import opened EcmaMatcher
  import opened Codegen
  import opened OutcomeLists
  import opened Layout
  import opened CaptureFrames

  /** A group counts as set only when both its ends are. */
  function Settled(caps: seq<int>): (r: seq<int>)
    requires |caps| % 2 == 0
    ensures |r| == |caps|
  {
    seq(|caps|, i requires 0 <= i < |caps| => if IsSet(caps, i / 2) then caps[i] else -1)
  }

  function Abs(x: State): State
    requires |x.caps| % 2 == 0
  {
    x.(caps := Settled(x.caps))
  }

  ghost predicate AllSized(k: nat, ys: seq<State>) {
    k % 2 == 0 && forall i :: 0 <= i < |ys| ==> |ys[i].caps| == k
  }

  ghost function AbsAll(k: nat, ys: seq<State>): (zs: seq<State>)
    requires AllSized(k, ys)
    ensures |zs| == |ys| && forall i :: 0 <= i < |zs| ==> zs[i] == Abs(ys[i])
  {
    if ys == [] then [] else [Abs(ys[0])] + AbsAll(k, ys[1..])
  }

  lemma AbsAllAppend(k: nat, ys: seq<State>, zs: seq<State>)
    requires AllSized(k, ys) && AllSized(k, zs)
    ensures AllSized(k, ys + zs) && AbsAll(k, ys + zs) == AbsAll(k, ys) + AbsAll(k, zs)
  {}

  /** The groups from `g` on are not even half set. */
  ghost predicate Unset(caps: seq<int>, g: nat, k: nat)
    requires 2 * (g + k) <= |caps|
  {
    forall i :: 2 * g <= i < 2 * (g + k) ==> caps[i] == -1
  }

  lemma AbsValid(e: Input, x: State)
    requires Valid(e, x) && |x.caps| % 2 == 0
    ensures Valid(e, Abs(x))
  {}

  lemma AbsAfter(e: Input, backward: bool, x: State, ys: seq<State>)
    requires AllAfter(e, backward, x, ys) && |x.caps| % 2 == 0
    ensures AllSized(|x.caps|, ys) && AllAfter(e, backward, Abs(x), AbsAll(|x.caps|, ys))
  {
    forall i | 0 <= i < |ys| ensures After(e, backward, Abs(x), AbsAll(|x.caps|, ys)[i]) {
      assert After(e, backward, x, ys[i]);
      AbsValid(e, ys[i]);
    }
  }

  // ----- single writes -----

  lemma AbsOpen(x: State, g: nat, backward: bool, k: nat)
    requires |x.caps| % 2 == 0 && 2 * (g + 1 + k) <= |x.caps| && Unset(x.caps, g, 1 + k)
    ensures Abs(OpenGroup(x, g, backward)) == Abs(x) && Unset(OpenGroup(x, g, backward).caps, g + 1, k)
  {
    var x' := OpenGroup(x, g, backward);
    assert forall j :: 0 <= j < |x.caps| / 2 ==> IsSet(x'.caps, j) == IsSet(x.caps, j);
  }

  lemma AbsClose(x: State, y: State, g: nat, backward: bool)
    requires |x.caps| % 2 == 0 && |y.caps| == |x.caps| && 2 * g + 1 < |x.caps|
    requires y.caps[if backward then 2 * g + 1 else 2 * g] == x.pos
    ensures Abs(CloseGroup(true, g, backward, x, y)) == CloseGroup(false, g, backward, Abs(x), Abs(y))
  {
    var z := CloseGroup(true, g, backward, x, y);
    assert IsSet(z.caps, g) && z.caps == y.caps[2 * g := z.caps[2 * g]][2 * g + 1 := z.caps[2 * g + 1]];
    assert forall j :: 0 <= j < |x.caps| / 2 && j != g ==> IsSet(z.caps, j) == IsSet(y.caps, j);
    var w := CloseGroup(false, g, backward, Abs(x), Abs(y));
    forall i | 0 <= i < |z.caps| ensures Settled(z.caps)[i] == w.caps[i] {
      if i / 2 == g {
        assert i == 2 * g || i == 2 * g + 1;
      }
    }
    assert Settled(z.caps) == w.caps;
  }

  lemma AbsReset(x: State, g: nat, k: nat)
    requires |x.caps| % 2 == 0 && 2 * (g + k) <= |x.caps|
    ensures Abs(Reset(x, g, k)) == Reset(Abs(x), g, k)
    ensures Unset(Reset(x, g, k).caps, g, k)
    ensures Unset(x.caps, g, k) ==> Reset(x, g, k) == x
    ensures k == 0 ==> Reset(x, g, k) == x
  {
    var z := Reset(x, g, k);
    forall i | 0 <= i < |x.caps| ensures Settled(z.caps)[i] == Reset(Abs(x), g, k).caps[i] {
      if 2 * g <= i < 2 * (g + k) {
        assert 2 * g <= 2 * (i / 2) < 2 * (g + k);
      } else {
        assert !(2 * g <= 2 * (i / 2) < 2 * (g + k));
        assert !(2 * g <= 2 * (i / 2) + 1 < 2 * (g + k));
      }
    }
    assert Settled(z.caps) == Reset(Abs(x), g, k).caps;
    if Unset(x.caps, g, k) || k == 0 {
      assert z.caps == x.caps;
    }
  }

  lemma {:induction false} AbsReference(e: Input, groups: seq<nat>, icase: bool, backward: bool, x: State)
    requires x.pos <= Len(e) && |x.caps| % 2 == 0
    ensures ReferenceEnd(e, groups, icase, backward, x) == ReferenceEnd(e, groups, icase, backward, Abs(x))
  {
    if groups != [] {
      var i := groups[0];
      if 2 * i + 1 < |x.caps| {
        assert IsSet(Abs(x).caps, i) == IsSet(x.caps, i);
        if !IsSet(x.caps, i) {
          AbsReference(e, groups[1..], icase, backward, x);
        }
      }
    }
  }

  lemma UnsetFramed(w: set<nat>, x: seq<int>, y: seq<int>, g: nat, k: nat)
    requires 2 * (g + k) <= |x| && SameOutside(w, x, y) && Unset(x, g, k)
    requires forall i :: g <= i < g + k ==> i !in w
    ensures Unset(y, g, k)
  {
    forall i | 2 * g <= i < 2 * (g + k) ensures y[i] == -1 {
      assert g <= i / 2 < g + k;
    }
  }

  // ----- atoms whose iterations need no reset -----

  /** The groups of `n` that its code never writes are unset. */
  ghost predicate UnwrittenUnset(n: Regex, backward: bool, g: nat, caps: seq<int>)
    requires 2 * (g + Groups(n)) <= |caps|
  {
    forall i :: 2 * g <= i < 2 * (g + Groups(n)) && i / 2 !in Writes(n, backward, g) ==> caps[i] == -1
  }

  ghost predicate Predictable(n: Regex, backward: bool) {
    !ScanOf(n, backward).stops && !ScanOf(n, backward).references
  }

  ghost predicate PairedOutside(w: set<nat>, ys: seq<State>, zs: seq<State>) {
    |ys| == |zs| && forall i :: 0 <= i < |ys| ==> ys[i].pos == zs[i].pos && SameOutside(w, ys[i].caps, zs[i].caps)
  }

  /** Code without branches or back references overwrites whatever was in the groups it writes. */
  lemma {:induction false} PredictableOverwrites(e: Input, n: Pattern, backward: bool, g: nat, x: State, z: State, d: set<nat>)
    requires Predictable(n, backward)
    requires Valid(e, x) && Valid(e, z) && Fits(n, g, x) && x.pos == z.pos && SameOutside(d, x.caps, z.caps)
    ensures PairedOutside(d - Writes(n, backward, g), Outcomes(e, true, n, backward, g, x), Outcomes(e, true, n, backward, g, z))
    decreases n, 1
  {
    hide Outcomes, PairedOutside, Valid;
    match n
    case Group(_) => GroupOverwrites(e, n, backward, g, x, z, d);
    case Cat(_, _) => CatOverwrites(e, n, backward, g, x, z, d);
    case Quant(_, _, _, _) => ZeroOverwrites(e, n, backward, g, x, z, d);
    case _ => StepOverwrites(e, n, backward, g, x, z, d);
  }

  lemma StepOverwrites(e: Input, n: Pattern, backward: bool, g: nat, x: State, z: State, d: set<nat>)
    requires Predictable(n, backward) && (n.Empty? || IsCharacter(n) || IsAssertion(n))
    requires Valid(e, x) && Valid(e, z) && Fits(n, g, x) && x.pos == z.pos && SameOutside(d, x.caps, z.caps)
    ensures PairedOutside(d - Writes(n, backward, g), Outcomes(e, true, n, backward, g, x), Outcomes(e, true, n, backward, g, z))
  {
    assert d - Writes(n, backward, g) == d;
  }

  lemma ZeroOverwrites(e: Input, n: Pattern, backward: bool, g: nat, x: State, z: State, d: set<nat>)
    requires Predictable(n, backward) && n.Quant?
    requires Valid(e, x) && Valid(e, z) && Fits(n, g, x) && x.pos == z.pos && SameOutside(d, x.caps, z.caps)
    ensures PairedOutside(d - Writes(n, backward, g), Outcomes(e, true, n, backward, g, x), Outcomes(e, true, n, backward, g, z))
  {
    assert n.min == 0 && n.max == 0;
    hide Outcomes, ScanOf;
    var a := n.atom;
    ZeroOutcomes(e, n, backward, g, x);
    ZeroOutcomes(e, n, backward, g, z);
    var w := Writes(n, backward, g);
    if ResetsBefore(a, backward) {
      var x', z' := Reset(x, g, Groups(a)), Reset(z, g, Groups(a));
      forall i | 0 <= i < |x.caps| && i / 2 !in d - w ensures x'.caps[i] == z'.caps[i] {
        assert i / 2 in w ==> 2 * g <= i < 2 * (g + Groups(a));
      }
    }
  }

  lemma {:induction false} CatOverwrites(e: Input, n: Pattern, backward: bool, g: nat, x: State, z: State, d: set<nat>)
    requires Predictable(n, backward) && n.Cat?
    requires Valid(e, x) && Valid(e, z) && Fits(n, g, x) && x.pos == z.pos && SameOutside(d, x.caps, z.caps)
    ensures PairedOutside(d - Writes(n, backward, g), Outcomes(e, true, n, backward, g, x), Outcomes(e, true, n, backward, g, z))
    decreases n, 0
  {
    hide Outcomes, OutcomesAll, Valid, PairedOutside;
    var l, r := n.left, n.right;
    CatOutcomes(e, true, n, backward, g, x);
    CatOutcomes(e, true, n, backward, g, z);
    var v, w := Writes(l, backward, g), Writes(r, backward, g + Groups(l));
    if backward {
      PredictableOverwrites(e, r, backward, g + Groups(l), x, z, d);
      AllOverwrites(e, l, backward, g, x, z, Outcomes(e, true, r, backward, g + Groups(l), x),
                    Outcomes(e, true, r, backward, g + Groups(l), z), d - w);
      assert d - w - v == d - Writes(n, backward, g);
    } else {
      PredictableOverwrites(e, l, backward, g, x, z, d);
      AllOverwrites(e, r, backward, g + Groups(l), x, z, Outcomes(e, true, l, backward, g, x),
                    Outcomes(e, true, l, backward, g, z), d - v);
      assert d - v - w == d - Writes(n, backward, g);
    }
  }

  lemma {:induction false} GroupOverwrites(e: Input, n: Pattern, backward: bool, g: nat, x: State, z: State, d: set<nat>)
    requires Predictable(n, backward) && n.Group?
    requires Valid(e, x) && Valid(e, z) && Fits(n, g, x) && x.pos == z.pos && SameOutside(d, x.caps, z.caps)
    ensures PairedOutside(d - Writes(n, backward, g), Outcomes(e, true, n, backward, g, x), Outcomes(e, true, n, backward, g, z))
    decreases n, 0
  {
    hide Outcomes, OpenGroup, PairedOutside, Valid, ScanOf, Writes, SameOutside;
    var body := n.body;
    GroupOutcomes(e, true, n, backward, g, x);
    OpenKeeps(x, z, g, backward, d);
    GroupOutcomes(e, true, n, backward, g, z);
    var x', z' := OpenGroup(x, g, backward), OpenGroup(z, g, backward);
    var w := Writes(body, backward, g + 1);
    OpenedSlot(x, g, backward);
    OpenedSlot(z, g, backward);
    GroupParts(n, backward, g);
    PredictableOverwrites(e, body, backward, g + 1, x', z', d);
    KeepsOpen(e, body, backward, g, x', x.pos);
    KeepsOpen(e, body, backward, g, z', x.pos);
    var ys, zs := Outcomes(e, true, body, backward, g + 1, x'), Outcomes(e, true, body, backward, g + 1, z');
    PairedLength(d - w, ys, zs);
    CloseOverwrites(e, g, backward, x, z, ys, zs, d - w);
    assert d - w - {g} == d - Writes(n, backward, g);
  }

  lemma PairedLength(w: set<nat>, ys: seq<State>, zs: seq<State>)
    requires PairedOutside(w, ys, zs)
    ensures |ys| == |zs|
  {}

  lemma GroupParts(n: Regex, backward: bool, g: nat)
    requires n.Group?
    ensures ScanOf(n, backward) == ScanOf(n.body, backward)
    ensures Writes(n, backward, g) == {g} + Writes(n.body, backward, g + 1)
  {}

  lemma OpenKeeps(x: State, z: State, g: nat, backward: bool, d: set<nat>)
    requires SameOutside(d, x.caps, z.caps) && x.pos == z.pos && 2 * g + 1 < |x.caps|
    ensures |x.caps| == |z.caps|
    ensures SameOutside(d, OpenGroup(x, g, backward).caps, OpenGroup(z, g, backward).caps)
  {}

  lemma OpenedSlot(x: State, g: nat, backward: bool)
    requires 2 * g + 1 < |x.caps|
    ensures OpenGroup(x, g, backward).caps[if backward then 2 * g + 1 else 2 * g] == x.pos
    ensures OpenGroup(x, g, backward).pos == x.pos && |OpenGroup(x, g, backward).caps| == |x.caps|
  {}

  /** The body of group `g` leaves the end of `g` that was written when it was opened. */
  lemma KeepsOpen(e: Input, body: Pattern, backward: bool, g: nat, x: State, v: int)
    requires Valid(e, x) && Fits(body, g + 1, x) && x.caps[if backward then 2 * g + 1 else 2 * g] == v
    ensures var ys := Outcomes(e, true, body, backward, g + 1, x);
      forall i :: 0 <= i < |ys| ==> |ys[i].caps| == |x.caps| && ys[i].caps[if backward then 2 * g + 1 else 2 * g] == v
  {
    hide Outcomes, Writes;
    var open := if backward then 2 * g + 1 else 2 * g;
    assert open / 2 == g;
    Frame(e, body, backward, g + 1, x);
    WritesOwnGroups(body, backward, g + 1);
    var ys := Outcomes(e, true, body, backward, g + 1, x);
    forall i | 0 <= i < |ys| ensures |ys[i].caps| == |x.caps| && ys[i].caps[open] == v {
      assert SameOutside(Writes(body, backward, g + 1), x.caps, ys[i].caps);
    }
  }

  lemma {:induction false} CloseOverwrites(e: Input, g: nat, backward: bool, x: State, z: State, ys: seq<State>, zs: seq<State>, d: set<nat>)
    requires 2 * g + 1 < |x.caps| == |z.caps| && Valid(e, x) && Valid(e, z) && x.pos == z.pos
    requires AllAfter(e, backward, x, ys) && AllAfter(e, backward, z, zs) && PairedOutside(d, ys, zs)
    requires var open := if backward then 2 * g + 1 else 2 * g;
      forall i :: 0 <= i < |ys| ==> ys[i].caps[open] == x.pos && zs[i].caps[open] == x.pos
    ensures PairedOutside(d - {g}, CloseAll(e, true, g, backward, x, ys), CloseAll(e, true, g, backward, z, zs))
    decreases |ys|
  {
    if ys != [] {
      assert SameOutside(d, ys[0].caps, zs[0].caps);
      CloseOverwrites(e, g, backward, x, z, ys[1..], zs[1..], d);
    }
  }

  lemma {:induction false} AllOverwrites(e: Input, n: Pattern, backward: bool, g: nat, x: State, z: State, ys: seq<State>, zs: seq<State>,
                               d: set<nat>)
    requires Predictable(n, backward) && Fits(n, g, x) && |z.caps| == |x.caps|
    requires AllAfter(e, backward, x, ys) && AllAfter(e, backward, z, zs) && PairedOutside(d, ys, zs)
    ensures PairedOutside(d - Writes(n, backward, g), OutcomesAll(e, true, n, backward, g, x, ys),
                          OutcomesAll(e, true, n, backward, g, z, zs))
    decreases n, 2, |ys|
  {
    if ys != [] {
      OutcomesAllFirst(e, true, n, backward, g, x, ys);
      OutcomesAllFirst(e, true, n, backward, g, z, zs);
      hide Outcomes, OutcomesAll, ScanOf, PairedOutside, Writes;
      PairedFirst(d, ys, zs);
      PredictableOverwrites(e, n, backward, g, ys[0], zs[0], d);
      AllOverwrites(e, n, backward, g, x, z, ys[1..], zs[1..], d);
      PairedAppend(d - Writes(n, backward, g), Outcomes(e, true, n, backward, g, ys[0]), Outcomes(e, true, n, backward, g, zs[0]),
                   OutcomesAll(e, true, n, backward, g, x, ys[1..]), OutcomesAll(e, true, n, backward, g, z, zs[1..]));
    } else {
      hide Outcomes, ScanOf, Writes;
    }
  }

  lemma PairedFirst(d: set<nat>, ys: seq<State>, zs: seq<State>)
    requires PairedOutside(d, ys, zs) && ys != []
    ensures zs != [] && ys[0].pos == zs[0].pos && SameOutside(d, ys[0].caps, zs[0].caps) && PairedOutside(d, ys[1..], zs[1..])
  {
    hide SameOutside;
  }

  lemma PairedAppend(d: set<nat>, ys: seq<State>, zs: seq<State>, ys': seq<State>, zs': seq<State>)
    requires PairedOutside(d, ys, zs) && PairedOutside(d, ys', zs')
    ensures PairedOutside(d, ys + ys', zs + zs')
  {
    hide SameOutside;
  }

  /** Hence such an atom runs the same with and without the reset. */
  lemma PredictableNeedsNoReset(e: Input, a: Pattern, backward: bool, g: nat, x: State)
    requires Predictable(a, backward) && Valid(e, x) && Fits(a, g, x) && UnwrittenUnset(a, backward, g, x.caps)
    ensures Valid(e, Reset(x, g, Groups(a))) && Fits(a, g, Reset(x, g, Groups(a)))
    ensures Outcomes(e, true, a, backward, g, x) == Outcomes(e, true, a, backward, g, Reset(x, g, Groups(a)))
  {
    hide Outcomes, ScanOf, Writes;
    var z := Reset(x, g, Groups(a));
    var d := Writes(a, backward, g);
    PredictableOverwrites(e, a, backward, g, x, z, d);
    var ys, zs := Outcomes(e, true, a, backward, g, x), Outcomes(e, true, a, backward, g, z);
    forall i | 0 <= i < |ys| ensures ys[i] == zs[i] {
      assert SameOutside(d - d, ys[i].caps, zs[i].caps);
      assert ys[i].caps == zs[i].caps;
    }
  }

  // ----- the main induction -----

  /** The code's outcomes are the standard's, up to half-written groups, with the same numeric bounds. */
  ghost predicate Agrees(e: Input, n: Pattern, backward: bool, g: nat, x: State)
    requires Valid(e, x) && Fits(n, g, x) && |x.caps| % 2 == 0
  {
    AbsValid(e, x);
    var ys := Outcomes(e, true, n, backward, g, x);
    AllSized(|x.caps|, ys) && AbsAll(|x.caps|, ys) == Outcomes(e, false, n, backward, g, Abs(x))
  }

  /** The counters never run out: every missing bound that the code counts anyway exceeds the subject. */
  ghost predicate CountsFit(n: Regex, backward: bool, length: nat) {
    match n
    case Group(body) => CountsFit(body, backward, length)
    case Look(_, behind, body) => CountsFit(body, behind, length)
    case Cat(l, r) => CountsFit(l, backward, length) && CountsFit(r, backward, length)
    case Alt(l, r) => CountsFit(l, backward, length) && CountsFit(r, backward, length)
    case Quant(a, min, max, _) =>
      CountsFit(a, backward, length) && (CountsToInfinity(a, backward, min, max) ==> min + length <= INFINITE)
    case _ => true
  }

  /** The quantifiers without an upper bound that the code nevertheless counts down from INT32_MAX. */
  predicate CountsToInfinity(a: Regex, backward: bool, min: nat, max: nat) {
    max == INFINITE && min != 0 && !(min == 1 && !Checked(a, backward))
  }

  lemma {:induction false} OutcomesAgree(e: Input, n: Pattern, backward: bool, g: nat, x: State)
    requires Valid(e, x) && Fits(n, g, x) && |x.caps| % 2 == 0 && Unset(x.caps, g, Groups(n)) && CountsFit(n, backward, Len(e))
    ensures Agrees(e, n, backward, g, x)
    decreases n, 1
  {
    hide Outcomes, Agrees, Valid;
    match n
    case Group(_) => GroupAgrees(e, n, backward, g, x);
    case Look(_, _, _) => LookAgrees(e, n, backward, g, x);
    case Cat(_, _) => CatAgrees(e, n, backward, g, x);
    case Alt(_, _) => AltAgrees(e, n, backward, g, x);
    case Quant(_, _, _, _) => QuantAgrees(e, n, backward, g, x);
    case _ => StepAgrees(e, n, backward, g, x);
  }

  lemma StepAgrees(e: Input, n: Pattern, backward: bool, g: nat, x: State)
    requires n.Empty? || IsCharacter(n) || IsAssertion(n) || n.BackReference?
    requires Valid(e, x) && Fits(n, g, x) && |x.caps| % 2 == 0
    ensures Agrees(e, n, backward, g, x)
  {
    hide Holds, Accepts, ReferenceEnd, AbsAll, Settled;
    AbsValid(e, x);
    if n.BackReference? {
      AbsReference(e, n.groups, n.icase, backward, x);
    }
    var ys := Outcomes(e, true, n, backward, g, x);
    assert |ys| <= 1;
    assert AbsAll(|x.caps|, ys) == Outcomes(e, false, n, backward, g, Abs(x));
  }

  lemma {:induction false} GroupAgrees(e: Input, n: Pattern, backward: bool, g: nat, x: State)
    requires n.Group?
    requires Valid(e, x) && Fits(n, g, x) && |x.caps| % 2 == 0 && Unset(x.caps, g, Groups(n)) && CountsFit(n, backward, Len(e))
    ensures Agrees(e, n, backward, g, x)
    decreases n, 0
  {
    hide Outcomes, Settled, AbsAll, Unset, Valid, OpenGroup;
    var body := n.body;
    AbsValid(e, x);
    GroupOutcomes(e, true, n, backward, g, x);
    GroupOutcomes(e, false, n, backward, g, Abs(x));
    var x' := OpenGroup(x, g, backward);
    AbsOpen(x, g, backward, Groups(body));
    OpenedSlot(x, g, backward);
    OutcomesAgree(e, body, backward, g + 1, x');
    KeepsOpen(e, body, backward, g, x', x.pos);
    var ys := Outcomes(e, true, body, backward, g + 1, x');
    CloseAgrees(e, g, backward, x, ys);
  }

  lemma {:induction false} CloseAgrees(e: Input, g: nat, backward: bool, x: State, ys: seq<State>)
    requires |x.caps| % 2 == 0 && 2 * g + 1 < |x.caps| && Valid(e, x) && AllAfter(e, backward, x, ys)
    requires forall i :: 0 <= i < |ys| ==> ys[i].caps[if backward then 2 * g + 1 else 2 * g] == x.pos
    ensures AllSized(|x.caps|, ys) && Valid(e, Abs(x)) && AllAfter(e, backward, Abs(x), AbsAll(|x.caps|, ys))
    ensures AllSized(|x.caps|, CloseAll(e, true, g, backward, x, ys))
    ensures AbsAll(|x.caps|, CloseAll(e, true, g, backward, x, ys))
         == CloseAll(e, false, g, backward, Abs(x), AbsAll(|x.caps|, ys))
    decreases |ys|
  {
    AbsValid(e, x);
    AbsAfter(e, backward, x, ys);
    if ys != [] {
      hide Settled, CloseGroup, Valid;
      CloseAgrees(e, g, backward, x, ys[1..]);
      AbsClose(x, ys[0], g, backward);
      assert AbsAll(|x.caps|, ys)[1..] == AbsAll(|x.caps|, ys[1..]);
    }
  }

  lemma {:induction false} LookAgrees(e: Input, n: Pattern, backward: bool, g: nat, x: State)
    requires n.Look?
    requires Valid(e, x) && Fits(n, g, x) && |x.caps| % 2 == 0 && Unset(x.caps, g, Groups(n)) && CountsFit(n, backward, Len(e))
    ensures Agrees(e, n, backward, g, x)
    decreases n, 0
  {
    hide Outcomes, Settled, Unset, Valid;
    AbsValid(e, x);
    LookOutcomes(e, true, n, backward, g, x);
    LookOutcomes(e, false, n, backward, g, Abs(x));
    OutcomesAgree(e, n.body, n.behind, g, x);
  }

  lemma {:induction false} AltAgrees(e: Input, n: Pattern, backward: bool, g: nat, x: State)
    requires n.Alt?
    requires Valid(e, x) && Fits(n, g, x) && |x.caps| % 2 == 0 && Unset(x.caps, g, Groups(n)) && CountsFit(n, backward, Len(e))
    ensures Agrees(e, n, backward, g, x)
    decreases n, 0
  {
    hide Outcomes, Settled, Valid, AbsAll, AllSized;
    AbsValid(e, x);
    AltOutcomes(e, true, n, backward, g, x);
    AltOutcomes(e, false, n, backward, g, Abs(x));
    OutcomesAgree(e, n.left, backward, g, x);
    OutcomesAgree(e, n.right, backward, g + Groups(n.left), x);
    AbsAllAppend(|x.caps|, Outcomes(e, true, n.left, backward, g, x), Outcomes(e, true, n.right, backward, g + Groups(n.left), x));
  }

  lemma {:induction false} CatAgrees(e: Input, n: Pattern, backward: bool, g: nat, x: State)
    requires n.Cat?
    requires Valid(e, x) && Fits(n, g, x) && |x.caps| % 2 == 0 && Unset(x.caps, g, Groups(n)) && CountsFit(n, backward, Len(e))
    ensures Agrees(e, n, backward, g, x)
    decreases n, 0, 1
  {
    hide Outcomes, OutcomesAll, Settled, Valid, AbsAll;
    AbsValid(e, x);
    CatOutcomes(e, true, n, backward, g, x);
    CatOutcomes(e, false, n, backward, g, Abs(x));
    if backward {
      ThenAgrees(e, n, n.right, g + Groups(n.left), n.left, g, backward, x);
    } else {
      ThenAgrees(e, n, n.left, g, n.right, g + Groups(n.left), backward, x);
    }
  }

  /** `n` and then `m`, whose groups lie apart. */
  lemma {:induction false} ThenAgrees(e: Input, whole: Pattern, n: Pattern, h: nat, m: Pattern, k: nat, backward: bool, x: State)
    requires n < whole && m < whole && (h + Groups(n) <= k || k + Groups(m) <= h)
    requires Valid(e, x) && |x.caps| % 2 == 0 && Fits(n, h, x) && Fits(m, k, x)
    requires Unset(x.caps, h, Groups(n)) && Unset(x.caps, k, Groups(m)) && CountsFit(n, backward, Len(e)) && CountsFit(m, backward, Len(e))
    ensures Valid(e, Abs(x))
    ensures var ys := OutcomesAll(e, true, m, backward, k, x, Outcomes(e, true, n, backward, h, x));
      && AllSized(|x.caps|, ys)
      && AbsAll(|x.caps|, ys) == OutcomesAll(e, false, m, backward, k, Abs(x), Outcomes(e, false, n, backward, h, Abs(x)))
    decreases whole, 0, 0
  {
    hide Outcomes, OutcomesAll, Settled, Valid, AbsAll, Unset, AllSized, Writes;
    AbsValid(e, x);
    OutcomesAgree(e, n, backward, h, x);
    Frame(e, n, backward, h, x);
    WritesOwnGroups(n, backward, h);
    AllAgree(e, Writes(n, backward, h), m, backward, k, x, Outcomes(e, true, n, backward, h, x));
  }

  lemma {:induction false} AllAgree(e: Input, w: set<nat>, n: Pattern, backward: bool, g: nat, x: State, ys: seq<State>)
    requires Valid(e, x) && |x.caps| % 2 == 0 && Fits(n, g, x) && Unset(x.caps, g, Groups(n)) && CountsFit(n, backward, Len(e))
    requires AllAfter(e, backward, x, ys) && AllFramed(w, x, ys) && forall i :: g <= i < g + Groups(n) ==> i !in w
    ensures AllSized(|x.caps|, ys) && Valid(e, Abs(x)) && AllAfter(e, backward, Abs(x), AbsAll(|x.caps|, ys))
    ensures var zs := OutcomesAll(e, true, n, backward, g, x, ys);
      && AllSized(|x.caps|, zs)
      && AbsAll(|x.caps|, zs) == OutcomesAll(e, false, n, backward, g, Abs(x), AbsAll(|x.caps|, ys))
    decreases n, 2, |ys|
  {
    AbsValid(e, x);
    AbsAfter(e, backward, x, ys);
    if ys != [] {
      hide Outcomes, Settled, Valid, Unset, CountsFit;
      var k := |x.caps|;
      var zs, rest := Outcomes(e, true, n, backward, g, ys[0]), OutcomesAll(e, true, n, backward, g, x, ys[1..]);
      assert SameOutside(w, x.caps, ys[0].caps);
      UnsetFramed(w, x.caps, ys[0].caps, g, Groups(n));
      OutcomesAgree(e, n, backward, g, ys[0]);
      AllAgree(e, w, n, backward, g, x, ys[1..]);
      AbsAllAppend(k, zs, rest);
      assert AbsAll(k, ys)[1..] == AbsAll(k, ys[1..]);
    }
  }

  // ----- quantifiers -----

  /** What must hold when an iteration of `a` may start: unless the loop resets the groups of `a` itself, those
      its code never writes are unset. */
  ghost predicate LoopReady(a: Pattern, backward: bool, g: nat, x: State)
    requires Fits(a, g, x)
  {
    !ResetsInside(a, backward) ==> UnwrittenUnset(a, backward, g, x.caps)
  }

  /** One iteration runs as if the captures had been reset. */
  lemma IterationAgrees(e: Input, a: Pattern, backward: bool, g: nat, x: State)
    requires Valid(e, x) && Fits(a, g, x) && |x.caps| % 2 == 0 && LoopReady(a, backward, g, x) && CountsFit(a, backward, Len(e))
    ensures var z := Reset(x, g, Groups(a)); var start := IterationStart(true, a, backward, g, x);
      && Valid(e, z) && Fits(a, g, z) && Valid(e, start) && Fits(a, g, start) && Valid(e, Abs(x))
      && z.pos == x.pos && start.pos == x.pos
      && IterationStart(false, a, backward, g, Abs(x)) == Abs(z)
      && Outcomes(e, true, a, backward, g, start) == Outcomes(e, true, a, backward, g, z)
      && Unset(z.caps, g, Groups(a))
  {
    hide Outcomes, Settled, ScanOf;
    AbsValid(e, x);
    AbsReset(x, g, Groups(a));
    if !ResetsInside(a, backward) && Groups(a) != 0 {
      PredictableNeedsNoReset(e, a, backward, g, x);
    }
  }

  ghost predicate AllLoopReady(a: Pattern, backward: bool, g: nat, k: nat, ys: seq<State>) {
    2 * (g + Groups(a)) <= k && forall i :: 0 <= i < |ys| ==> |ys[i].caps| == k && LoopReady(a, backward, g, ys[i])
  }

  lemma FramedLoopReady(e: Input, a: Pattern, backward: bool, g: nat, z: State, ys: seq<State>)
    requires Fits(a, g, z) && Unset(z.caps, g, Groups(a)) && AllFramed(Writes(a, backward, g), z, ys)
    ensures AllLoopReady(a, backward, g, |z.caps|, ys)
  {
    hide Writes, ScanOf, NeedsCaptureInit;
    forall i | 0 <= i < |ys| ensures |ys[i].caps| == |z.caps| && LoopReady(a, backward, g, ys[i]) {
      assert SameOutside(Writes(a, backward, g), z.caps, ys[i].caps);
    }
  }

  lemma {:induction false} RepeatAgrees(e: Input, a: Pattern, backward: bool, g: nat, min: nat, max: Option<nat>, greedy: bool, x: State)
    requires Valid(e, x) && Fits(a, g, x) && |x.caps| % 2 == 0 && LoopReady(a, backward, g, x) && CountsFit(a, backward, Len(e))
    ensures Valid(e, Abs(x))
    ensures var ys := Repeat(e, true, a, backward, g, min, max, greedy, x);
      AllSized(|x.caps|, ys) && AbsAll(|x.caps|, ys) == Repeat(e, false, a, backward, g, min, max, greedy, Abs(x))
    decreases a, 3, min, 2 * Remaining(e, backward, x.pos) + 1, 0
  {
    hide Outcomes, Repeat, RepeatAll, Iterate, IterationStart, Settled, LoopReady, Unset, Valid, AllAfter, AllFramed, Writes,
         AllLoopReady, Reset, CountsFit, AbsAll, AllSized, Groups;
    AbsValid(e, x);
    AbsAllOne(x);
    RepeatUnfolds(e, true, a, backward, g, min, max, greedy, x);
    RepeatUnfolds(e, false, a, backward, g, min, max, greedy, Abs(x));
    if max != Some(0) {
      IterateUnfolds(e, true, a, backward, g, min, max, greedy, x);
      IterateUnfolds(e, false, a, backward, g, min, max, greedy, Abs(x));
      IterationAgrees(e, a, backward, g, x);
      var z := Reset(x, g, Groups(a));
      var ys := Outcomes(e, true, a, backward, g, z);
      ResetSize(x, g, Groups(a));
      OutcomesAgree(e, a, backward, g, z);
      Frame(e, a, backward, g, z);
      FramedLoopReady(e, a, backward, g, z, ys);
      RepeatAllAgrees(e, a, backward, g, min, max, greedy, x, ys);
      var once := Iterate(e, true, a, backward, g, min, max, greedy, x);
      AbsAllAppend(|x.caps|, once, [x]);
      AbsAllAppend(|x.caps|, [x], once);
    }
  }

  lemma AbsAllOne(x: State)
    requires |x.caps| % 2 == 0
    ensures AllSized(|x.caps|, [x]) && AbsAll(|x.caps|, [x]) == [Abs(x)]
  {
    assert [x][1..] == [];
  }

  lemma ResetSize(x: State, g: nat, k: nat)
    requires 2 * (g + k) <= |x.caps|
    ensures |Reset(x, g, k).caps| == |x.caps|
  {}

  lemma {:induction false} RepeatAllAgrees(e: Input, a: Pattern, backward: bool, g: nat, min: nat, max: Option<nat>, greedy: bool,
                                 x: State, ys: seq<State>)
    requires Valid(e, x) && Fits(a, g, x) && |x.caps| % 2 == 0 && CountsFit(a, backward, Len(e))
    requires AllAfter(e, backward, x, ys) && AllLoopReady(a, backward, g, |x.caps|, ys)
    ensures AllSized(|x.caps|, ys) && Valid(e, Abs(x)) && AllAfter(e, backward, Abs(x), AbsAll(|x.caps|, ys))
    ensures var zs := RepeatAll(e, true, a, backward, g, min, max, greedy, x, ys);
      && AllSized(|x.caps|, zs)
      && AbsAll(|x.caps|, zs) == RepeatAll(e, false, a, backward, g, min, max, greedy, Abs(x), AbsAll(|x.caps|, ys))
    decreases a, 3, min, 2 * Remaining(e, backward, x.pos), |ys|
  {
    hide Repeat, RepeatAll, Settled, LoopReady, Valid, AllAfter, CountsFit, AbsAll, ScanOf, Groups;
    AbsValid(e, x);
    AbsAfter(e, backward, x, ys);
    if ys == [] {
      RepeatAllNone(e, true, a, backward, g, min, max, greedy, x);
      RepeatAllNone(e, false, a, backward, g, min, max, greedy, Abs(x));
    } else {
      var k := |x.caps|;
      var zs := AbsAll(k, ys);
      RepeatAllFirst(e, true, a, backward, g, min, max, greedy, x, ys);
      RepeatAllFirst(e, false, a, backward, g, min, max, greedy, Abs(x), zs);
      RepeatAllAgrees(e, a, backward, g, min, max, greedy, x, ys[1..]);
      assert zs[1..] == AbsAll(k, ys[1..]);
      if !(min == 0 && ys[0].pos == x.pos) {
        RepeatAgrees(e, a, backward, g, Decrement(min), DecrementMax(max), greedy, ys[0]);
        AbsAllAppend(k, Repeat(e, true, a, backward, g, Decrement(min), DecrementMax(max), greedy, ys[0]),
                     RepeatAll(e, true, a, backward, g, min, max, greedy, x, ys[1..]));
      }
    }
  }

  /** A finite bound is as good as none once it covers the mandatory iterations and the rest of the subject. */
  lemma {:induction false} LargeBound(e: Input, impl: bool, a: Pattern, backward: bool, g: nat, min: nat, max: nat, greedy: bool, x: State)
    requires Valid(e, x) && Fits(a, g, x) && min + Remaining(e, backward, x.pos) <= max
    ensures Repeat(e, impl, a, backward, g, min, Some(max), greedy, x) == Repeat(e, impl, a, backward, g, min, None, greedy, x)
    decreases max, 1, 0
  {
    hide Outcomes, Repeat, RepeatAll, Iterate, IterationStart, AllAfter;
    RepeatUnfolds(e, impl, a, backward, g, min, Some(max), greedy, x);
    RepeatUnfolds(e, impl, a, backward, g, min, None, greedy, x);
    IterateUnfolds(e, impl, a, backward, g, min, Some(max), greedy, x);
    IterateUnfolds(e, impl, a, backward, g, min, None, greedy, x);
    var ys := Outcomes(e, impl, a, backward, g, IterationStart(impl, a, backward, g, x));
    if max == 0 {
      NothingMoves(e, impl, a, backward, g, greedy, x, ys);
    } else {
      LargeBoundAll(e, impl, a, backward, g, min, max, greedy, x, ys);
    }
  }

  lemma {:induction false} NothingMoves(e: Input, impl: bool, a: Pattern, backward: bool, g: nat, greedy: bool, x: State, ys: seq<State>)
    requires Valid(e, x) && Fits(a, g, x) && Remaining(e, backward, x.pos) == 0 && AllAfter(e, backward, x, ys)
    ensures RepeatAll(e, impl, a, backward, g, 0, None, greedy, x, ys) == []
    decreases |ys|
  {
    if ys == [] {
      RepeatAllNone(e, impl, a, backward, g, 0, None, greedy, x);
    } else {
      hide Repeat, RepeatAll;
      RepeatAllFirst(e, impl, a, backward, g, 0, None, greedy, x, ys);
      NothingMoves(e, impl, a, backward, g, greedy, x, ys[1..]);
    }
  }

  lemma {:induction false} LargeBoundAll(e: Input, impl: bool, a: Pattern, backward: bool, g: nat, min: nat, max: nat, greedy: bool,
                               x: State, ys: seq<State>)
    requires Valid(e, x) && Fits(a, g, x) && AllAfter(e, backward, x, ys)
    requires min + Remaining(e, backward, x.pos) <= max && max != 0
    ensures RepeatAll(e, impl, a, backward, g, min, Some(max), greedy, x, ys)
         == RepeatAll(e, impl, a, backward, g, min, None, greedy, x, ys)
    decreases max, 0, |ys|
  {
    hide Repeat, RepeatAll, AllAfter;
    if ys == [] {
      RepeatAllNone(e, impl, a, backward, g, min, None, greedy, x);
      RepeatAllNone(e, impl, a, backward, g, min, Some(max), greedy, x);
    } else {
      RepeatAllFirst(e, impl, a, backward, g, min, None, greedy, x, ys);
      RepeatAllFirst(e, impl, a, backward, g, min, Some(max), greedy, x, ys);
      LargeBoundAll(e, impl, a, backward, g, min, max, greedy, x, ys[1..]);
      if !(min == 0 && ys[0].pos == x.pos) {
        LargeBound(e, impl, a, backward, g, Decrement(min), max - 1, greedy, ys[0]);
      }
    }
  }

  lemma {:induction false} QuantAgrees(e: Input, n: Pattern, backward: bool, g: nat, x: State)
    requires n.Quant?
    requires Valid(e, x) && Fits(n, g, x) && |x.caps| % 2 == 0 && Unset(x.caps, g, Groups(n)) && CountsFit(n, backward, Len(e))
    ensures Agrees(e, n, backward, g, x)
    decreases n, 0
  {
    hide Outcomes, Repeat, Settled, ScanOf, NeedsCaptureInit, AbsAll, AllSized;
    var Quant(a, min, max, greedy) := n;
    AbsValid(e, x);
    AbsReset(x, g, Groups(a));
    QuantOutcomes(e, true, n, backward, g, x);
    QuantOutcomes(e, false, n, backward, g, Abs(x));
    var bound := UpperBound(true, a, backward, min, max);
    RepeatAgrees(e, a, backward, g, min, bound, greedy, x);
    if CountsToInfinity(a, backward, min, max) {
      LargeBound(e, false, a, backward, g, min, INFINITE, greedy, Abs(x));
    }
  }
}
