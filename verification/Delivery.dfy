/** What it means for the machine to produce a list of outcomes one after the other by backtracking. */
module Delivery {
  import opened Subject
  import opened Options
  import opened RegexSyntax
  import opened Bytecode
  import opened Machine

  /** Where outcomes are delivered: at program offset `end`, above `stack`, with the registers of the
      enclosing loops holding `pre`. */
  datatype Site = Site(end: int, stack: seq<Frame>, pre: seq<int>)

  ghost predicate SplitsOnly(frames: seq<Frame>) {
    forall i :: 0 <= i < |frames| ==> frames[i].kind.SplitFrame?
  }

  /** `cap` holds the captures `caps` and starts its registers with `pre`. */
  ghost predicate Carries(m: Context, cap: seq<int>, caps: seq<int>, pre: seq<int>) {
    && |cap| == 2 * m.count + m.registers
    && |caps| == 2 * m.count && caps == cap[..2 * m.count]
    && |pre| <= m.registers && pre == cap[2 * m.count..2 * m.count + |pre|]
  }

  /** Starting from `s`, the machine arrives at the site in each of the states `ys` in turn, each next one
      after backtracking, and after the last one fails into the stack of the site. */
  ghost predicate Delivers(m: Context, s: Machine, ys: seq<State>, at: Site)
    decreases |ys|, 1
  {
    if ys == [] then Reaches(m, s, Backtrack(at.stack))
    else exists frames, cap :: DeliversVia(m, s, ys, at, frames, cap)
  }

  ghost predicate DeliversVia(m: Context, s: Machine, ys: seq<State>, at: Site, frames: seq<Frame>, cap: seq<int>)
    requires ys != []
    decreases |ys|, 0
  {
    && SplitsOnly(frames)
    && Carries(m, cap, ys[0].caps, at.pre)
    && Reaches(m, s, Running(at.end, ys[0].pos, cap, at.stack + frames))
    && Delivers(m, Backtrack(at.stack + frames), ys[1..], at)
  }

  lemma DeliversNothing(m: Context, s: Machine, at: Site)
    requires Reaches(m, s, Backtrack(at.stack))
    ensures Delivers(m, s, [], at)
  {}

  lemma DeliversNoneAt(m: Context, s: Machine, at: Site, at': Site)
    requires Delivers(m, s, [], at) && at.stack == at'.stack
    ensures Delivers(m, s, [], at')
  {}

  lemma DeliversOne(m: Context, s: Machine, y: State, at: Site, cap: seq<int>)
    requires Carries(m, cap, y.caps, at.pre)
    requires Reaches(m, s, Running(at.end, y.pos, cap, at.stack))
    ensures Delivers(m, s, [y], at)
  {
    assert at.stack + [] == at.stack;
    ReachesSelf(m, Backtrack(at.stack));
    assert DeliversVia(m, s, [y], at, [], cap);
  }

  /** The first delivery and what follows it. */
  lemma FirstDelivery(m: Context, s: Machine, ys: seq<State>, at: Site) returns (frames: seq<Frame>, cap: seq<int>)
    requires ys != [] && Delivers(m, s, ys, at)
    ensures SplitsOnly(frames) && Carries(m, cap, ys[0].caps, at.pre)
    ensures Reaches(m, s, Running(at.end, ys[0].pos, cap, at.stack + frames))
    ensures Delivers(m, Backtrack(at.stack + frames), ys[1..], at)
  {
    frames, cap :| DeliversVia(m, s, ys, at, frames, cap);
  }

  /** Running further before the first delivery changes nothing. */
  lemma DeliversAfter(m: Context, s: Machine, t: Machine, ys: seq<State>, at: Site)
    requires Reaches(m, s, t) && Delivers(m, t, ys, at)
    ensures Delivers(m, s, ys, at)
  {
    if ys == [] {
      ReachesTransitive(m, s, t, Backtrack(at.stack));
    } else {
      var frames, cap :| DeliversVia(m, t, ys, at, frames, cap);
      ReachesTransitive(m, s, t, Running(at.end, ys[0].pos, cap, at.stack + frames));
      assert DeliversVia(m, s, ys, at, frames, cap);
    }
  }

  lemma DeliversAfterStep(m: Context, s: Machine, ys: seq<State>, at: Site)
    requires Delivers(m, Step(m, s), ys, at)
    ensures Delivers(m, s, ys, at)
  {
    ReachesStep(m, s);
    DeliversAfter(m, s, Step(m, s), ys, at);
  }

  /** First all of `xs` above some saved alternatives, then `ys` from those alternatives. */
  lemma {:induction false} DeliversAppend(m: Context, s: Machine, xs: seq<State>, ys: seq<State>, at: Site, frames: seq<Frame>)
    requires SplitsOnly(frames)
    requires Delivers(m, s, xs, at.(stack := at.stack + frames))
    requires Delivers(m, Backtrack(at.stack + frames), ys, at)
    ensures Delivers(m, s, xs + ys, at)
    decreases |xs|
  {
    var above := at.(stack := at.stack + frames);
    if xs == [] {
      assert xs + ys == ys;
      DeliversAfter(m, s, Backtrack(at.stack + frames), ys, at);
    } else {
      var more, cap :| DeliversVia(m, s, xs, above, more, cap);
      assert (at.stack + frames) + more == at.stack + (frames + more);
      assert (xs + ys)[1..] == xs[1..] + ys;
      DeliversAppend(m, Backtrack(above.stack + more), xs[1..], ys, at, frames);
      assert DeliversVia(m, s, xs + ys, at, frames + more, cap);
    }
  }

  lemma CarriesPrefix(m: Context, cap: seq<int>, caps: seq<int>, pre: seq<int>, k: nat)
    requires Carries(m, cap, caps, pre) && k <= |pre|
    ensures Carries(m, cap, caps, pre[..k])
  {
    assert pre[..k] == cap[2 * m.count..2 * m.count + k];
  }

  /** A jump at the end of the code moves the place of delivery. */
  lemma {:induction false} DeliversGoto(m: Context, s: Machine, ys: seq<State>, at: Site, rel: int)
    requires Delivers(m, s, ys, at) && m.prog(at.end) == Some(Goto(rel))
    requires forall i :: 0 <= i < |ys| ==> ys[i].pos <= Len(m.e)
    ensures Delivers(m, s, ys, at.(end := at.end + 5 + rel))
    decreases |ys|
  {
    if ys != [] {
      var frames, cap :| DeliversVia(m, s, ys, at, frames, cap);
      var t := Running(at.end, ys[0].pos, cap, at.stack + frames);
      ReachesStep(m, t);
      ReachesTransitive(m, s, t, Step(m, t));
      DeliversGoto(m, Backtrack(at.stack + frames), ys[1..], at, rel);
      assert DeliversVia(m, s, ys, at.(end := at.end + 5 + rel), frames, cap);
    }
  }

  lemma DeliversFailure(m: Context, s: Machine, at: Site)
    requires Step(m, s) == Backtrack(at.stack)
    ensures Delivers(m, s, [], at)
  {
    ReachesStep(m, s);
  }

  lemma DeliversNext(m: Context, s: Machine, y: State, at: Site, cap: seq<int>)
    requires Carries(m, cap, y.caps, at.pre)
    requires Step(m, s) == Running(at.end, y.pos, cap, at.stack)
    ensures Delivers(m, s, [y], at)
  {
    ReachesStep(m, s);
    DeliversOne(m, s, y, at, cap);
  }

  /** A split between running `once` from `again` and stopping with `y` at the site. */
  lemma DeliversFork(m: Context, s: Machine, once: seq<State>, y: State, cap: seq<int>, greedy: bool, again: int, at: Site)
    requires Carries(m, cap, y.caps, at.pre)
    requires Step(m, s) ==
      var saved := Frame(SplitFrame, if greedy then at.end else again, y.pos, cap);
      Running(if greedy then again else at.end, y.pos, cap, at.stack + [saved])
    requires forall stack :: Delivers(m, Running(again, y.pos, cap, stack), once, at.(stack := stack))
    ensures Delivers(m, s, if greedy then once + [y] else [y] + once, at)
  {
    var saved := Frame(SplitFrame, if greedy then at.end else again, y.pos, cap);
    var above := at.(stack := at.stack + [saved]);
    var resumed := Running(saved.pc, y.pos, cap, at.stack);
    assert Backtrack(above.stack) == resumed by {
      assert above.stack[..|above.stack| - 1] == at.stack;
    }
    var t := Step(m, s);
    if greedy {
      ReachesSelf(m, resumed);
      DeliversOne(m, resumed, y, at, cap);
      DeliversAppend(m, t, once, [y], at, [saved]);
      DeliversAfterStep(m, s, once + [y], at);
    } else {
      ReachesSelf(m, t);
      DeliversOne(m, t, y, above, cap);
      DeliversAppend(m, t, [y], once, at, [saved]);
      DeliversAfterStep(m, s, [y] + once, at);
    }
  }
}
