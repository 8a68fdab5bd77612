/** The engine reads the subject unit by unit; the standard's matcher looks at its characters. What the engine's steps
    find is what the text says. */
module TextMatching {
  import opened Subject
  import opened Options
  import opened RegexSyntax
  import opened EcmaMatcher

  // ----- one character -----

  /** The engine's step reads the one character there is to read. */
  lemma StepReads(e: Input, backward: bool, p: nat, q: nat, ch: CodePoint)
    requires Boundary(e, p)
    ensures Reads(e, backward, p, q, ch)
      <==> CanStep(e, backward, p) && q == StepTo(e, backward, p) && ch == StepOver(e, backward, p)
  {
    hide Decode, CharAt, CharBefore, Next, Prev;
    NoText(e, p);
    if CanStep(e, backward, p) {
      var r := StepTo(e, backward, p);
      if backward {
        BackwardStep(e, p, 0);
        ReadsBackward(e, p, r, ch);
        if Boundary(e, q) && q < p {
          ReadsBackward(e, p, q, ch);
        }
      } else {
        ForwardStep(e, p, Len(e));
        ReadsForward(e, p, r, ch);
        if Boundary(e, q) && p < q {
          ReadsForward(e, p, q, ch);
        }
      }
    }
  }

  lemma ReadsForward(e: Input, p: nat, q: nat, ch: CodePoint)
    requires p < q && Boundary(e, p) && Boundary(e, q)
    ensures Text(e, p, q) == [ch] <==> q == Next(e, p, Len(e)) && ch == CharAt(e, p, Len(e))
  {
    hide Text, CharAt, Next;
    ForwardStep(e, p, q);
    TextFirst(e, p, q);
    EmptyText(e, Next(e, p, q), q);
    OneCharacter(CharAt(e, p, q), Text(e, Next(e, p, q), q), ch);
  }

  lemma ReadsBackward(e: Input, p: nat, q: nat, ch: CodePoint)
    requires q < p && Boundary(e, p) && Boundary(e, q)
    ensures Text(e, q, p) == [ch] <==> q == Prev(e, p, 0) && ch == CharBefore(e, p, 0)
  {
    hide Text, CharBefore, Prev;
    BackwardStep(e, p, q);
    TextLast(e, q, p);
    EmptyText(e, q, Prev(e, p, q));
    OneCharacter(CharBefore(e, p, q), Text(e, q, Prev(e, p, q)), ch);
  }

  lemma OneCharacter(a: CodePoint, s: seq<CodePoint>, ch: CodePoint)
    ensures [a] + s == [ch] <==> s == [] && a == ch
    ensures s + [a] == [ch] <==> s == [] && a == ch
  {
    if [a] + s == [ch] {
      assert |[a] + s| == 1 && ([a] + s)[0] == a;
    }
    if s + [a] == [ch] {
      assert |s + [a]| == 1 && (s + [a])[|s|] == a;
    }
  }

  lemma EmptyText(e: Input, s: nat, t: nat)
    requires s <= t <= Len(e) && Boundary(e, s) && Boundary(e, t)
    ensures Text(e, s, t) == [] <==> s == t
  {
    hide Decode;
    if s < t {
      TextFirst(e, s, t);
    } else {
      NoText(e, s);
    }
  }

  lemma CharacterMatches(e: Input, n: Regex, backward: bool, x: State, c: Continuation)
    requires Valid(e, x) && IsCharacter(n)
    ensures MatchCharacter(e, n, backward, x, c)
      == if CanStep(e, backward, x.pos) && Accepts(e, n, StepOver(e, backward, x.pos))
         then c(x.(pos := StepTo(e, backward, x.pos))) else None
  {
    hide Reads, Accepts, CanStep, StepTo, StepOver;
    forall q: nat, ch: CodePoint
      ensures ReadsAccepted(e, n, backward, x.pos, q, ch)
        <==> CanStep(e, backward, x.pos) && q == StepTo(e, backward, x.pos) && ch == StepOver(e, backward, x.pos) && Accepts(e, n, ch)
    {
      StepReads(e, backward, x.pos, q, ch);
    }
    if CanStep(e, backward, x.pos) && Accepts(e, n, StepOver(e, backward, x.pos)) {
      assert ReadsAccepted(e, n, backward, x.pos, StepTo(e, backward, x.pos), StepOver(e, backward, x.pos));
    }
  }

  // ----- assertions -----

  lemma AssertionHolds(e: Input, n: Regex, p: nat)
    requires IsAssertion(n) && Boundary(e, p)
    ensures Asserts(e, n, p) == Holds(e, n, p)
  {
    hide Decode, Text, Reads, IsLineTerminator, IsWordChar;
    EmptyText(e, 0, p);
    EmptyText(e, p, Len(e));
    Side(e, true, p);
    Side(e, false, p);
  }

  /** The character on one side of a position decides the assertions that look there. */
  lemma Side(e: Input, backward: bool, p: nat)
    requires Boundary(e, p)
    ensures ReadsTerminator(e, backward, p) <==> CanStep(e, backward, p) && IsLineTerminator(StepOver(e, backward, p))
    ensures forall icase ::
      ReadsWord(e, backward, p, icase) <==> CanStep(e, backward, p) && IsWordChar(StepOver(e, backward, p), icase)
  {
    hide Reads, IsLineTerminator, IsWordChar, CanStep, StepTo, StepOver;
    forall q: nat, ch: CodePoint
      ensures Reads(e, backward, p, q, ch)
        <==> CanStep(e, backward, p) && q == StepTo(e, backward, p) && ch == StepOver(e, backward, p)
    {
      StepReads(e, backward, p, q, ch);
    }
    if CanStep(e, backward, p) {
      assert Reads(e, backward, p, StepTo(e, backward, p), StepOver(e, backward, p));
    }
  }

  // ----- back references -----

  /** The engine's comparison ends at `q` exactly if the text up to `q` repeats the captured one. */
  lemma {:induction false} CopyEndIsCopy(e: Input, icase: bool, backward: bool, s: nat, t: nat, p: nat, q: nat)
    requires Boundary(e, s) && Boundary(e, t) && Boundary(e, p)
    ensures CopyEnd(e, icase, backward, s, t, p) == Some(q) <==> IsCopy(e, icase, backward, s, t, p, q)
    decreases if s < t then t - s else 0
  {
    hide Text;
    if t <= s {
      if s == t {
        NoText(e, s);
      }
      if Boundary(e, q) && Ordered(backward, p, q) {
        EmptyText(e, if p <= q then p else q, if p <= q then q else p);
      }
    } else if !CanStep(e, backward, p) {
      EmptyText(e, s, t);
      NoText(e, p);
    } else if backward {
      CopyBackward(e, icase, s, t, p, q);
    } else {
      CopyForward(e, icase, s, t, p, q);
    }
  }

  lemma {:induction false} CopyForward(e: Input, icase: bool, s: nat, t: nat, p: nat, q: nat)
    requires Boundary(e, s) && Boundary(e, t) && Boundary(e, p) && s < t && p < Len(e)
    ensures CopyEnd(e, icase, false, s, t, p) == Some(q) <==> IsCopy(e, icase, false, s, t, p, q)
    decreases t - s, 0
  {
    hide Text;
    ForwardStep(e, s, t);
    ForwardStep(e, p, Len(e));
    var s', p' := Next(e, s, t), Next(e, p, Len(e));
    CopyEndIsCopy(e, icase, false, s', t, p', q);
    TextFirst(e, s, t);
    if Boundary(e, q) && p < q {
      ForwardStep(e, p, q);
      TextFirst(e, p, q);
      SameFirst(e, icase, CharAt(e, s, t), Text(e, s', t), CharAt(e, p, q), Text(e, p', q));
    } else {
      NoText(e, p);
    }
  }

  lemma {:induction false} CopyBackward(e: Input, icase: bool, s: nat, t: nat, p: nat, q: nat)
    requires Boundary(e, s) && Boundary(e, t) && Boundary(e, p) && s < t && 0 < p
    ensures CopyEnd(e, icase, true, s, t, p) == Some(q) <==> IsCopy(e, icase, true, s, t, p, q)
    decreases t - s, 0
  {
    hide Text;
    BackwardStep(e, t, s);
    BackwardStep(e, p, 0);
    var t', p' := Prev(e, t, s), Prev(e, p, 0);
    CopyEndIsCopy(e, icase, true, s, t', p', q);
    TextLast(e, s, t);
    if Boundary(e, q) && q < p {
      BackwardStep(e, p, q);
      TextLast(e, q, p);
      SameLast(e, icase, Text(e, s, t'), CharBefore(e, t, s), Text(e, q, p'), CharBefore(e, p, q));
    } else {
      NoText(e, p);
    }
  }

  ghost predicate SameCharacter(e: Input, icase: bool, a: CodePoint, b: CodePoint) {
    if icase then e.canon(a) == e.canon(b) else a == b
  }

  lemma SameFirst(e: Input, icase: bool, a: CodePoint, as': seq<CodePoint>, b: CodePoint, bs: seq<CodePoint>)
    ensures SameText(e, icase, [a] + as', [b] + bs) <==> SameCharacter(e, icase, a, b) && SameText(e, icase, as', bs)
  {
    if SameText(e, icase, [a] + as', [b] + bs) {
      assert ([a] + as')[0] == a && ([b] + bs)[0] == b;
      forall i | 0 <= i < |as'| ensures SameCharacter(e, icase, as'[i], bs[i]) {
        assert ([a] + as')[i + 1] == as'[i] && ([b] + bs)[i + 1] == bs[i];
      }
    }
  }

  lemma SameLast(e: Input, icase: bool, as': seq<CodePoint>, a: CodePoint, bs: seq<CodePoint>, b: CodePoint)
    ensures SameText(e, icase, as' + [a], bs + [b]) <==> SameCharacter(e, icase, a, b) && SameText(e, icase, as', bs)
  {
    if SameText(e, icase, as' + [a], bs + [b]) {
      assert (as' + [a])[|as'|] == a && (bs + [b])[|bs|] == b;
      forall i | 0 <= i < |as'| ensures SameCharacter(e, icase, as'[i], bs[i]) {
        assert (as' + [a])[i] == as'[i] && (bs + [b])[i] == bs[i];
      }
    }
  }

  /** The engine's walk along the listed groups ends at `q` exactly if the reference matches up to `q`. */
  lemma {:induction false} ReferenceEndIsText(e: Input, groups: seq<nat>, icase: bool, backward: bool, x: State, q: nat)
    requires Valid(e, x)
    ensures ReferenceEnd(e, groups, icase, backward, x) == Some(q) <==> Refers(e, groups, icase, backward, x, q)
    decreases |groups|
  {
    hide CopyEnd, IsCopy;
    if groups != [] {
      var i := groups[0];
      if Decides(x.caps, i) {
        assert forall k: nat :: DecidesFirst(x.caps, groups, k) ==> k == 0;
        assert DecidesFirst(x.caps, groups, 0);
        if IsSet(x.caps, i) {
          CopyEndIsCopy(e, icase, backward, x.caps[2 * i], x.caps[2 * i + 1], x.pos, q);
        }
      } else {
        ReferenceEndIsText(e, groups[1..], icase, backward, x, q);
        RefersLater(e, groups, icase, backward, x, q);
      }
    }
  }

  lemma RefersLater(e: Input, groups: seq<nat>, icase: bool, backward: bool, x: State, q: nat)
    requires Valid(e, x) && groups != [] && !Decides(x.caps, groups[0])
    ensures Refers(e, groups, icase, backward, x, q) <==> Refers(e, groups[1..], icase, backward, x, q)
  {
    hide IsCopy, Valid, Decides, RefersTo;
    var rest := groups[1..];
    assert forall k :: 0 <= k < |rest| ==> rest[k] == groups[k + 1];
    forall k: nat | DecidesFirst(x.caps, rest, k) ensures DecidesFirst(x.caps, groups, k + 1) {
      forall j | 0 <= j < k + 1 ensures !Decides(x.caps, groups[j]) {
        assert j > 0 ==> groups[j] == rest[j - 1];
      }
    }
    forall k: nat | DecidesFirst(x.caps, groups, k) ensures k > 0 && DecidesFirst(x.caps, rest, k - 1) {
      assert groups[k] == rest[k - 1];
    }
  }

  lemma ReferenceMatches(e: Input, groups: seq<nat>, icase: bool, backward: bool, x: State, c: Continuation)
    requires Valid(e, x)
    ensures var end := ReferenceEnd(e, groups, icase, backward, x);
      MatchReference(e, groups, icase, backward, x, c) == if end.None? then None else c(x.(pos := end.value))
  {
    hide Refers, ReferenceEnd;
    forall q: nat ensures ReferenceEnd(e, groups, icase, backward, x) == Some(q) <==> Refers(e, groups, icase, backward, x, q) {
      ReferenceEndIsText(e, groups, icase, backward, x, q);
    }
    var end := ReferenceEnd(e, groups, icase, backward, x);
    if end.Some? {
      assert Refers(e, groups, icase, backward, x, end.value);
    }
  }
}
