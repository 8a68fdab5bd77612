/** The backtracking matcher itself: one loop over the bytecode, captures updated in place, and saved states
    and undo entries sharing one growable stack. */
module Exec {
  import opened Subject
  import opened Options
  import opened RegexSyntax
  import opened Bytecode
  import opened Machine
  import opened UndoLog

  class Matcher {
    const m: Context
    const capture: array<int>
    var stack: array<Cell>
    var sp: nat
    var bp: nat
    var pc: int
    var cptr: nat
    /** The saved states the stack stands for. */
    ghost var frames: seq<Frame>

    ghost predicate Valid()
      reads this, capture, stack
    {
      bp <= sp <= stack.Length && Represents(stack[..sp], bp, capture[..], frames)
    }

    /** The machine with snapshots that this matcher implements. */
    ghost function Now(): Machine
      reads this, capture
    {
      Running(pc, cptr, capture[..], frames)
    }

    constructor (m: Context, capture: array<int>, cptr: nat)
      ensures Valid() && fresh(stack) && this.m == m && this.capture == capture
      ensures Now() == Running(0, cptr, capture[..], [])
    {
      this.m := m;
      this.capture := capture;
      this.stack := new Cell[32](_ => Word(0));
      this.sp, this.bp, this.pc, this.cptr := 0, 0, 0, cptr;
      this.frames := [];
    }

    /** CHECK_STACK_SPACE: room for `n` more cells. */
    method Reserve(n: nat)
      requires Valid()
      modifies this`stack
      ensures Valid() && (stack == old(stack) || fresh(stack))
      ensures sp + n <= stack.Length && stack[..sp] == old(stack[..sp])
    {
      if stack.Length - sp < n {
        var size := stack.Length * 3 / 2;
        if size < sp + n {
          size := sp + n;
        }
        var bigger := new Cell[size](_ => Word(0));
        for i := 0 to sp
          invariant bigger[..i] == stack[..i]
          modifies bigger
        {
          bigger[i] := stack[i];
        }
        assert bigger[..sp] == stack[..sp];
        stack := bigger;
      }
    }

    /** SAVE_CAPTURE */
    method SaveCapture(idx: nat, value: int)
      requires Valid() && idx < capture.Length
      modifies this`stack, this`sp, stack, capture
      ensures Valid() && (stack == old(stack) || fresh(stack))
      ensures capture[..] == old(capture[..])[idx := value]
    {
      Reserve(2);
      ghost var st, cap := stack[..sp], capture[..];
      stack[sp] := Word(idx);
      stack[sp + 1] := Word(capture[idx]);
      sp := sp + 2;
      assert stack[..sp] == st + [Word(idx), Word(cap[idx])];
      capture[idx] := value;
      PushSave(st, bp, cap, frames, idx, value);
    }

    /** SAVE_CAPTURE_CHECK: no second entry for an index already logged since the newest frame. */
    method SaveCaptureCheck(idx: nat, value: int)
      requires Valid() && idx < capture.Length
      modifies this`stack, this`sp, stack, capture
      ensures Valid() && (stack == old(stack) || fresh(stack))
      ensures capture[..] == old(capture[..])[idx := value]
    {
      LogOnTop(stack[..sp], bp, capture[..], frames);
      ghost var log := stack[..sp][bp..];
      var sp1 := sp;
      while sp1 > bp
        invariant bp <= sp1 <= sp && (sp1 - bp) % 2 == 0
      {
        assert stack[sp1 - 2] == log[sp1 - 2 - bp];
        if stack[sp1 - 2] == Word(idx) {
          assert Logged(log, idx);
          SkipSave(stack[..sp], bp, capture[..], frames, idx, value);
          capture[idx] := value;
          return;
        }
        sp1 := sp1 - 2;
      }
      SaveCapture(idx, value);
    }

    /** Saves a state to come back to. */
    method Push(target: int, kind: FrameKind)
      requires Valid()
      modifies this`stack, this`sp, this`bp, this`frames, stack
      ensures Valid() && (stack == old(stack) || fresh(stack))
      ensures frames == old(frames) + [Frame(kind, target, cptr, capture[..])]
    {
      hide Represents;
      Reserve(3);
      ghost var st, f := stack[..sp], Frame(kind, target, cptr, capture[..]);
      stack[sp] := Word(target);
      stack[sp + 1] := Word(cptr);
      stack[sp + 2] := Link(bp, kind);
      sp := sp + 3;
      assert stack[..sp] == st + [Word(f.pc), Word(f.pos), Link(bp, f.kind)];
      UndoLog.PushFrame(st, bp, capture[..], frames, f);
      bp := sp;
      frames := frames + [f];
    }

    /** Undoes the log above the newest frame `f`. */
    method Unwind(ghost f: Frame)
      requires sp <= stack.Length && bp <= sp && capture.Length == |f.cap|
      requires IsLog(stack[bp..sp], capture.Length) && Undo(stack[bp..sp], capture[..]) == f.cap
      modifies this`sp, capture
      ensures sp == bp && capture[..] == f.cap
    {
      hide Undo, IsLog;
      ghost var st := stack[..sp];
      assert stack[bp..sp] == st[bp..sp];
      while sp > bp
        invariant bp <= sp <= |st| && capture.Length == |f.cap|
        invariant IsLog(st[bp..sp], capture.Length) && Undo(st[bp..sp], capture[..]) == f.cap
        modifies this`sp, capture
      {
        ghost var log, cap := st[bp..sp], capture[..];
        UndoNewest(log, cap);
        WithoutNewest(st, bp, sp);
        assert stack[sp - 2] == st[sp - 2] && stack[sp - 1] == st[sp - 1];
        capture[stack[sp - 2].v] := stack[sp - 1].v;
        sp := sp - 2;
      }
      assert st[bp..bp] == [];
      EmptyLog(capture[..]);
    }

    /** Undoes the log above the newest frame and pops the frame. */
    method PopFrame() returns (kind: FrameKind)
      requires Valid() && frames != []
      modifies this`sp, this`bp, this`pc, this`cptr, this`frames, capture
      ensures Valid()
      ensures var f := old(frames[|frames| - 1]);
        frames == old(frames[..|frames| - 1]) && kind == f.kind && pc == f.pc && cptr == f.pos && capture[..] == f.cap
    {
      hide Represents, Undo, IsLog;
      ghost var f := frames[|frames| - 1];
      ghost var st := stack[..sp];
      TopFrame(st, bp, capture[..], frames);
      assert st[bp..|st|] == st[bp..] == stack[bp..sp];
      Unwind(f);
      assert stack[sp - 3] == st[bp - 3] && stack[sp - 2] == st[bp - 2] && stack[sp - 1] == st[bp - 1];
      pc := stack[sp - 3].v;
      cptr := stack[sp - 2].v;
      kind := stack[sp - 1].kind;
      bp := stack[sp - 1].bp;
      sp := sp - 3;
      frames := frames[..|frames| - 1];
      assert stack[..sp] == st[..sp];
      LogOnTop(stack[..sp], bp, capture[..], frames);
    }

    /** `no_match`: resume the newest saved state that is not a lookahead. */
    method NoMatch() returns (resumed: bool)
      requires Valid()
      modifies this`sp, this`bp, this`pc, this`cptr, this`frames, capture
      ensures Valid()
      ensures Backtrack(old(frames)) == if resumed then Now() else Failed
    {
      LogOnTop(stack[..sp], bp, capture[..], frames);
      while true
        invariant Valid() && (bp == 0 <==> frames == [])
        invariant Backtrack(frames) == Backtrack(old(frames))
        decreases |frames|
      {
        if bp == 0 {
          return false;
        }
        var kind := PopFrame();
        if kind != LookFrame {
          return true;
        }
        LogOnTop(stack[..sp], bp, capture[..], frames);
      }
    }

    /** `negative_lookahead_match`: drop everything up to the start of the lookahead, which fails. */
    method NegativeLookaheadMatch() returns (resumed: bool)
      requires Valid() && PopTo(frames, NegativeLookFrame).Some?
      modifies this`sp, this`bp, this`pc, this`cptr, this`frames, capture
      ensures Valid()
      ensures Backtrack(PopTo(old(frames), NegativeLookFrame).value.0) == if resumed then Now() else Failed
    {
      while true
        invariant Valid() && PopTo(frames, NegativeLookFrame) == PopTo(old(frames), NegativeLookFrame)
        decreases |frames|
      {
        var kind := PopFrame();
        if kind == NegativeLookFrame {
          break;
        }
      }
      resumed := NoMatch();
    }

    /** `lookahead_match`: forget the alternatives saved since the lookahead began, keep its captures, and
        compact the undo entries of the discarded frames in place. */
    method LookaheadMatch()
      requires Valid() && PopTo(frames, LookFrame).Some?
      modifies this`sp, this`bp, this`pc, this`cptr, this`frames, stack
      ensures Valid() && capture[..] == old(capture[..])
      ensures var (rest, f) := PopTo(old(frames), LookFrame).value;
        frames == rest && pc == f.pc && cptr == f.pos
    {
      hide Represents, Chain, Undo, IsLog;
      var top := sp;
      EmptyLog(capture[..]);
      ChainEnd(stack[..], top);
      LogOnTop(stack[..sp], bp, capture[..], frames);
      ghost var tail: seq<Cell>, cap := [], capture[..];
      ghost var below := cap;
      while true
        invariant sp <= top <= stack.Length && bp <= sp
        invariant Represents(stack[..sp], bp, below, frames) && PopTo(frames, LookFrame) == PopTo(old(frames), LookFrame)
        invariant |below| == |cap| && IsLog(tail, |cap|) && Undo(tail, cap) == below
        invariant Chain(stack[..], sp, top, tail)
        decreases |frames|
      {
        var kind;
        kind, tail, below := Unlink(top, tail, cap, below);
        if kind == LookFrame {
          break;
        }
      }
      ghost var base := stack[..sp];
      AppendLog(base, bp, below, frames, tail, cap);
      if sp != 0 {
        CopyLogs(top, tail);
        assert stack[..sp] == base + tail;
      }
    }

    /** Pops the newest frame without undoing its log; the frame start is linked to the next one. */
    method Unlink(top: nat, ghost tail: seq<Cell>, ghost cap: seq<int>, ghost below: seq<int>)
        returns (kind: FrameKind, ghost tail': seq<Cell>, ghost below': seq<int>)
      requires sp <= top <= stack.Length && bp <= sp && frames != []
      requires Represents(stack[..sp], bp, below, frames) && |below| == |cap|
      requires IsLog(tail, |cap|) && Undo(tail, cap) == below && Chain(stack[..], sp, top, tail)
      modifies this`sp, this`bp, this`pc, this`cptr, this`frames, stack
      ensures var f := old(frames[|frames| - 1]);
        frames == old(frames[..|frames| - 1]) && kind == f.kind && pc == f.pc && cptr == f.pos
      ensures sp <= top <= stack.Length && bp <= sp
      ensures Represents(stack[..sp], bp, below', frames) && |below'| == |cap|
      ensures IsLog(tail', |cap|) && Undo(tail', cap) == below' && Chain(stack[..], sp, top, tail')
    {
      hide Chain, Represents, Undo, IsLog;
      ghost var st, f := stack[..sp], frames[|frames| - 1];
      ghost var log, before := st[bp..], stack[..];
      TopFrame(st, bp, below, frames);
      UndoAppend(log, tail, cap);
      var sp1 := sp;
      sp := bp;
      assert stack[sp - 3] == st[bp - 3] && stack[sp - 2] == st[bp - 2] && stack[sp - 1] == st[bp - 1];
      pc := stack[sp - 3].v;
      cptr := stack[sp - 2].v;
      kind := stack[sp - 1].kind;
      bp := stack[sp - 1].bp;
      stack[sp - 1] := Word(sp1);
      sp := sp - 3;
      tail', below', frames := log + tail, f.cap, frames[..|frames| - 1];
      LinkChain(before, sp, sp1, top, log, tail);
      assert stack[..] == before[sp + 2 := Word(sp1)];
      assert stack[..sp] == st[..sp];
      LogOnTop(stack[..sp], bp, below', frames);
    }

    /** Moves the logs found along the chain down to `sp`. */
    method CopyLogs(top: nat, ghost tail: seq<Cell>)
      requires sp <= top <= stack.Length && Chain(stack[..], sp, top, tail)
      modifies this`sp, stack
      ensures sp <= stack.Length && stack[..sp] == old(stack[..sp]) + tail
    {
      hide Chain, Represents;
      ghost var base := stack[..sp];
      ghost var done: seq<Cell>, left := [], tail;
      var sp1 := sp;
      while sp1 < top
        invariant sp <= sp1 <= top && stack[..sp] == base + done
        invariant done + left == tail && Chain(stack[..], sp1, top, left)
      {
        ChainLink(stack[..], sp1, top, left);
        var next := stack[sp1 + 2].v;
        ghost var n, before := next - (sp1 + 3), stack[..];
        CopyCells(sp1 + 3, next);
        SameBelow(before, stack[..], next, top);
        ChainUnchanged(before, stack[..], next, top, left[n..]);
        Regroup(base, done, left, n);
        done, left, sp1 := done + left[..n], left[n..], next;
      }
      ChainEnd(stack[..], top);
    }

    /** Appends the cells from `sp1` up to `next` to the stack. */
    method CopyCells(from: nat, next: nat)
      requires sp < from <= next <= stack.Length
      modifies this`sp, stack
      ensures sp < next && stack[..sp] == old(stack[..sp]) + old(stack[from..next])
      ensures stack[..][next..] == old(stack[..][next..])
    {
      ghost var log, base := stack[from..next], stack[..sp];
      var sp1 := from;
      while sp1 < next
        invariant sp < sp1 && from <= sp1 <= next && sp == |base| + (sp1 - from)
        invariant stack[..sp] == base + log[..sp1 - from]
        invariant forall i :: sp1 <= i < stack.Length ==> stack[i] == old(stack[i])
      {
        stack[sp] := stack[sp1];
        sp, sp1 := sp + 1, sp1 + 1;
        assert log[..sp1 - from] == log[..sp1 - 1 - from] + [log[sp1 - 1 - from]];
      }
    }

    // ----- opcodes -----

    /** How a step ended: `Done` and `Stuck` end the run. */
    ghost function After(outcome: Outcome): Machine
      reads this, capture
    {
      match outcome
      case Continue => Now()
      case Done => Matched(cptr, capture[..])
      case Stuck => Failed
    }

    method Fail() returns (outcome: Outcome)
      requires Valid()
      modifies this`sp, this`bp, this`pc, this`cptr, this`frames, capture
      ensures Valid() && Backtrack(old(frames)) == After(outcome)
    {
      var resumed := NoMatch();
      outcome := if resumed then Continue else Stuck;
    }

    /** The binary search of the range opcodes, on unsigned indices. */
    method InBounds(bounds: seq<nat>, c: nat, infinite: bool) returns (found: bool)
      ensures found == if infinite then InRange16(bounds, c) else InRange32(bounds, c)
    {
      if |bounds| < 2 || c < bounds[0] {
        return false;
      }
      var min: nat, max: nat := 0, |bounds| / 2 - 1;
      var high := bounds[2 * max + 1];
      if infinite && c >= 0xffff && high == 0xffff {
        return true;
      }
      if c > high {
        return false;
      }
      while min <= max
        invariant max < |bounds| / 2
        invariant Search(bounds, c, 0, |bounds| / 2 - 1) == Search(bounds, c, min, max)
        decreases max - min
      {
        var idx := (min + max) / 2;
        if c < bounds[2 * idx] {
          assert idx != 0;
          max := idx - 1;
        } else if c > bounds[2 * idx + 1] {
          min := idx + 1;
        } else {
          return true;
        }
      }
      found := false;
    }

    method ReadOp(i: Instr) returns (outcome: Outcome)
      requires Valid() && Reads(i) && cptr <= Len(m.e)
      modifies this`sp, this`bp, this`pc, this`cptr, this`frames, capture
      ensures Valid() && StepRead(m, old(Now()), i) == After(outcome)
    {
      hide Represents;
      if cptr >= Len(m.e) {
        outcome := Fail();
        return;
      }
      var c: CodePoint := CharAt(m.e, cptr, Len(m.e));
      var ok: bool;
      match i {
        case Char16(v, icase) => ok := (if icase then m.e.canon(c) else c) == v;
        case Char32(v, icase) => ok := (if icase then m.e.canon(c) else c) == v;
        case DotChar => ok := !IsLineTerminator(c);
        case AnyChar => ok := true;
        case SpaceChar(negated) => ok := m.e.isSpace(c) != negated;
        case Range16(icase, bounds) => ok := InBounds(bounds, if icase then m.e.canon(c) else c, true);
        case Range32(icase, bounds) => ok := InBounds(bounds, if icase then m.e.canon(c) else c, false);
      }
      if ok {
        pc, cptr := pc + Size(i), Next(m.e, cptr, Len(m.e));
        outcome := Continue;
      } else {
        outcome := Fail();
      }
    }

    /** Compares the text between `from` and `to` with the subject at `p`, character by character. */
    method Compare(icase: bool, backward: bool, from: nat, to: nat, p: nat) returns (end: Option<nat>)
      requires to <= Len(m.e) && p <= Len(m.e)
      ensures end == CopyEnd(m.e, icase, backward, from, to, p)
    {
      var s: nat, t: nat, q: nat := from, to, p;
      while s < t
        invariant t <= Len(m.e) && q <= Len(m.e)
        invariant CopyEnd(m.e, icase, backward, s, t, q) == CopyEnd(m.e, icase, backward, from, to, p)
        decreases if s < t then t - s else 0
      {
        if backward {
          if q == 0 {
            return None;
          }
          var c, d := CharBefore(m.e, t, s), CharBefore(m.e, q, 0);
          if if icase then m.e.canon(c) != m.e.canon(d) else c != d {
            return None;
          }
          t, q := Prev(m.e, t, s), Prev(m.e, q, 0);
        } else {
          if q >= Len(m.e) {
            return None;
          }
          var c, d := CharAt(m.e, s, t), CharAt(m.e, q, Len(m.e));
          if if icase then m.e.canon(c) != m.e.canon(d) else c != d {
            return None;
          }
          s, q := Next(m.e, s, t), Next(m.e, q, Len(m.e));
        }
      }
      end := Some(q);
    }

    /** Back reference to the first listed group that is set. */
    method Reference(groups: seq<nat>, icase: bool, backward: bool) returns (end: Option<nat>)
      requires capture.Length >= 2 * m.count && cptr <= Len(m.e)
      ensures end == ReferenceEnd(m.e, groups, icase, backward, State(cptr, capture[..2 * m.count]))
    {
      ghost var x := State(cptr, capture[..2 * m.count]);
      assert groups[0..] == groups;
      for k := 0 to |groups|
        invariant ReferenceEnd(m.e, groups, icase, backward, x) == ReferenceEnd(m.e, groups[k..], icase, backward, x)
      {
        var g := groups[k];
        assert groups[k..][0] == g && groups[k..][1..] == groups[k + 1..];
        if g >= m.count {
          return None;
        }
        assert x.caps[2 * g] == capture[2 * g] && x.caps[2 * g + 1] == capture[2 * g + 1];
        if capture[2 * g] >= 0 && capture[2 * g + 1] >= 0 {
          if capture[2 * g + 1] > Len(m.e) {
            return None;
          }
          end := Compare(icase, backward, capture[2 * g], capture[2 * g + 1], cptr);
          return;
        }
      }
      end := Some(cptr);
    }

    method TestOp(i: Instr) returns (outcome: Outcome)
      requires Valid() && cptr <= Len(m.e) && capture.Length >= 2 * m.count
      requires i.AssertStart? || i.AssertEnd? || i.AssertWord? || i.BackRef? || i.PrevChar?
      modifies this`sp, this`bp, this`pc, this`cptr, this`frames, capture
      ensures Valid() && StepTest(m, old(Now()), i) == After(outcome)
    {
      hide Represents, Backtrack, ReferenceEnd, WordBefore, WordAfter, CharBefore, CharAt, Prev, IsLineTerminator;
      ghost var s := Now();
      assert s.cap[..2 * m.count] == capture[..2 * m.count];
      var ok := true;
      match i {
        case AssertStart(multiline) =>
          ok := cptr == 0 || (multiline && IsLineTerminator(CharBefore(m.e, cptr, 0)));
        case AssertEnd(multiline) =>
          ok := cptr == Len(m.e) || (multiline && IsLineTerminator(CharAt(m.e, cptr, Len(m.e))));
        case AssertWord(negated, icase) =>
          ok := (WordBefore(m.e, cptr, icase) != WordAfter(m.e, cptr, icase)) != negated;
        case BackRef(backward, icase, groups) =>
          var end := Reference(groups, icase, backward);
          ok := end.Some?;
          if ok {
            cptr := end.value;
          }
        case PrevChar =>
          ok := cptr != 0;
          if ok {
            cptr := Prev(m.e, cptr, 0);
          }
      }
      if ok {
        pc := pc + Size(i);
        outcome := Continue;
      } else {
        outcome := Fail();
      }
    }

    method ResetCaptures(first: nat, last: nat)
      requires Valid() && capture.Length >= 2 * m.count && last < m.count
      modifies this`stack, this`sp, stack, capture
      ensures Valid() && (stack == old(stack) || fresh(stack))
      ensures capture[..] == if first <= last then ResetCaps(old(capture[..]), first, last + 1 - first) else old(capture[..])
    {
      hide Represents;
      ghost var cap := capture[..];
      if last + 1 >= first {
        Reserve(4 * (last + 1 - first));
      }
      var val: nat := first;
      while val <= last
        invariant Valid() && (stack == old(stack) || fresh(stack))
        invariant first <= val && (val <= last + 1 || val == first)
        invariant 2 * val <= |cap| || val == first
        invariant val > first ==> capture[..] == ResetCaps(cap, first, val - first)
        invariant val == first ==> capture[..] == cap
      {
        ghost var before := capture[..];
        SaveCapture(2 * val, -1);
        SaveCapture(2 * val + 1, -1);
        val := val + 1;
        assert capture[..] == before[2 * (val - 1) := -1][2 * (val - 1) + 1 := -1];
        assert capture[..] == ResetCaps(cap, first, val - first);
      }
    }

    method SaveOp(i: Instr) returns (outcome: Outcome)
      requires Valid() && capture.Length >= 2 * m.count
      requires i.SaveStart? || i.SaveEnd? || i.SaveReset?
      requires StepSave(m, Now(), i) != Crashed
      modifies this`stack, this`sp, this`pc, stack, capture
      ensures Valid() && (stack == old(stack) || fresh(stack))
      ensures StepSave(m, old(Now()), i) == After(outcome)
    {
      hide Represents;
      match i {
        case SaveStart(g) => SaveCapture(2 * g, cptr);
        case SaveEnd(g) => SaveCapture(2 * g + 1, cptr);
        case SaveReset(first, last) =>
          ResetCaptures(first, last);
      }
      pc := pc + Size(i);
      outcome := Continue;
    }

    method RegisterOp(i: Instr) returns (outcome: Outcome)
      requires Valid() && capture.Length >= 2 * m.count
      requires i.SetI32? || i.SetCharPos? || i.CheckAdvance? || i.Loop? || i.LoopSplit?
      requires StepRegister(m, Now(), i) != Crashed
      modifies this, stack, capture
      ensures Valid() && (stack == old(stack) || fresh(stack))
      ensures StepRegister(m, old(Now()), i) == After(outcome)
    {
      hide Represents;
      var idx := 2 * m.count + i.r;
      var next := pc + Size(i);
      outcome := Continue;
      match i {
        case SetI32(_, v) =>
          SaveCaptureCheck(idx, v);
          pc := next;
        case SetCharPos(_) =>
          SaveCaptureCheck(idx, cptr);
          pc := next;
        case CheckAdvance(_) =>
          if capture[idx] == cptr {
            outcome := Fail();
          } else {
            pc := next;
          }
        case Loop(_, rel) =>
          var v := Countdown(capture[idx]);
          SaveCaptureCheck(idx, v);
          pc := if v != 0 then next + rel else next;
        case LoopSplit(_, _, _, _, _) => outcome := LoopSplitOp(i);
      }
    }

    method LoopSplitOp(i: Instr) returns (outcome: Outcome)
      requires Valid() && capture.Length >= 2 * m.count && i.LoopSplit?
      requires StepRegister(m, Now(), i) != Crashed
      modifies this, stack, capture
      ensures Valid() && (stack == old(stack) || fresh(stack))
      ensures StepRegister(m, old(Now()), i) == After(outcome)
    {
      hide Represents;
      var LoopSplit(checked, nextFirst, r, limit, rel) := i;
      var idx := 2 * m.count + r;
      var next := pc + Size(i);
      var v := Countdown(capture[idx]);
      SaveCaptureCheck(idx, v);
      if v > limit {
        pc := next + rel;
      } else if checked && capture[idx + 1] == cptr && v != limit {
        outcome := Fail();
        return;
      } else if v == 0 {
        pc := next;
      } else {
        Push(if nextFirst then next + rel else next, SplitFrame);
        pc := if nextFirst then next else next + rel;
      }
      outcome := Continue;
    }

    method ControlOp(i: Instr) returns (outcome: Outcome)
      requires Valid() && StepControl(m, Now(), i) != Crashed
      modifies this, stack, capture
      ensures Valid() && (stack == old(stack) || fresh(stack))
      ensures StepControl(m, old(Now()), i) == After(outcome)
    {
      hide Represents, Backtrack, PopTo;
      var next := pc + Size(i);
      outcome := Continue;
      match i {
        case Accept => outcome := Done;
        case Goto(rel) => pc := next + rel;
        case Split(nextFirst, rel) =>
          Push(if nextFirst then next + rel else next, SplitFrame);
          pc := if nextFirst then next else next + rel;
        case LookOp(negated, rel) =>
          Push(next + rel, if negated then NegativeLookFrame else LookFrame);
          pc := next;
        case LookAccept(negated) =>
          if negated {
            var resumed := NegativeLookaheadMatch();
            outcome := if resumed then Continue else Stuck;
          } else {
            LookaheadMatch();
          }
      }
    }

    method ExecuteOp(i: Instr) returns (outcome: Outcome)
      requires Valid() && m.prog(pc) == Some(i) && Step(m, Now()) != Crashed
      modifies this, stack, capture
      ensures Valid() && (stack == old(stack) || fresh(stack))
      ensures Step(m, old(Now())) == After(outcome)
    {
      hide Backtrack, StepRead, StepRegister, StepSave, StepTest, StepControl;
      if Reads(i) {
        outcome := ReadOp(i);
      } else if i.SetI32? || i.SetCharPos? || i.CheckAdvance? || i.Loop? || i.LoopSplit? {
        outcome := RegisterOp(i);
      } else if i.SaveStart? || i.SaveEnd? || i.SaveReset? {
        outcome := SaveOp(i);
      } else if i.AssertStart? || i.AssertEnd? || i.AssertWord? || i.BackRef? || i.PrevChar? {
        outcome := TestOp(i);
      } else {
        outcome := ControlOp(i);
      }
    }

    /** The main loop. Any run known to halt without crashing is executed to its end; `steps` bounds it. */
    method Execute(ghost steps: nat) returns (matched: bool)
      requires Valid()
      requires var t := Run(m, Now(), steps); t.Matched? || t.Failed?
      modifies this, stack, capture
      ensures var t := Run(m, old(Now()), steps);
        if matched then t == Matched(cptr, capture[..]) else t == Failed
    {
      ghost var left := steps;
      while true
        invariant Valid() && (stack == old(stack) || fresh(stack))
        invariant Run(m, Now(), left) == Run(m, old(Now()), steps)
        decreases left
      {
        hide Step;
        assert left != 0;
        HaltedStays(m, Step(m, Now()), left - 1);
        ghost var s := Now();
        RunningFetches(m, s);
        var outcome := ExecuteOp(m.prog(pc).value);
        left := left - 1;
        match outcome {
          case Continue =>
          case Done => return true;
          case Stuck => return false;
        }
      }
    }
  }

  lemma Regroup(base: seq<Cell>, done: seq<Cell>, left: seq<Cell>, n: nat)
    requires n <= |left|
    ensures done + left == (done + left[..n]) + left[n..]
    ensures (base + done) + left[..n] == base + (done + left[..n])
  {}

  lemma SameBelow(a: seq<Cell>, b: seq<Cell>, lo: nat, hi: nat)
    requires lo <= hi <= |a| && hi <= |b| && a[lo..] == b[lo..]
    ensures a[lo..hi] == b[lo..hi]
  {
    assert a[lo..hi] == a[lo..][..hi - lo] && b[lo..hi] == b[lo..][..hi - lo];
  }

  lemma WithoutNewest(st: seq<Cell>, bp: nat, sp: nat)
    requires bp + 2 <= sp <= |st|
    ensures var log := st[bp..sp];
      log[|log| - 2] == st[sp - 2] && log[|log| - 1] == st[sp - 1] && log[..|log| - 2] == st[bp..sp - 2]
  {}

  datatype Outcome = Continue | Done | Stuck

  lemma HaltedStays(m: Context, s: Machine, n: nat)
    ensures !s.Running? ==> Run(m, s, n) == s
    decreases n
  {
    if n != 0 && !s.Running? {
      HaltedStays(m, s, n - 1);
    }
  }

  lemma RunningFetches(m: Context, s: Machine)
    requires s.Running? && Step(m, s) != Crashed
    ensures m.prog(s.pc).Some?
  {}
}
