/** The matcher's stack: saved states and an undo log of the capture array in one sequence of cells. */
module UndoLog {
  import opened Options
  import opened RegexSyntax
  import opened Machine

  /** `Word` is a pointer, an index or a saved value; `Link` packs the previous frame base and the kind of
      the frame. */
  datatype Cell = Word(v: int) | Link(bp: nat, kind: FrameKind)

  /** Pairs of an index into the capture array and the value to put back there. */
  ghost predicate IsLog(log: seq<Cell>, size: nat) {
    && |log| % 2 == 0
    && (forall i :: 0 <= i < |log| ==> log[i].Word?)
    && (forall i :: 0 <= i < |log| && i % 2 == 0 ==> 0 <= log[i].v < size)
  }

  /** Undoing the whole log, newest entry first. */
  ghost function Undo(log: seq<Cell>, cap: seq<int>): (r: seq<int>)
    requires IsLog(log, |cap|)
    ensures |r| == |cap|
    decreases |log|
  {
    if log == [] then cap
    else
      var n := |log|;
      assert (n - 2) % 2 == 0;
      Undo(log[..n - 2], cap[log[n - 2].v := log[n - 1].v])
  }

  lemma {:induction false} UndoAppend(a: seq<Cell>, b: seq<Cell>, cap: seq<int>)
    requires IsLog(a, |cap|) && IsLog(b, |cap|)
    ensures IsLog(a + b, |cap|) && Undo(a + b, cap) == Undo(a, Undo(b, cap))
    decreases |b|
  {
    LogAppend(a, b, |cap|);
    if b == [] {
      assert a + b == a;
    } else {
      var n := |b|;
      var c := a + b;
      assert (n - 2) % 2 == 0 && c[..|c| - 2] == a + b[..n - 2];
      assert c[|c| - 2] == b[n - 2] && c[|c| - 1] == b[n - 1];
      UndoAppend(a, b[..n - 2], cap[b[n - 2].v := b[n - 1].v]);
    }
  }

  lemma SameParity(i: nat, n: nat)
    requires i % 2 == 0 && n % 2 == 0
    ensures (i - n) % 2 == 0
  {}

  lemma LogAppend(a: seq<Cell>, b: seq<Cell>, size: nat)
    requires IsLog(a, size) && IsLog(b, size)
    ensures IsLog(a + b, size)
  {
    forall i | 0 <= i < |a + b| && i % 2 == 0 ensures (a + b)[i].Word? && 0 <= (a + b)[i].v < size {
      SameParity(i, |a|);
      assert (a + b)[i] == if i < |a| then a[i] else b[i - |a|];
    }
  }

  /** SAVE_CAPTURE: log the old value, then write. */
  lemma UndoSave(log: seq<Cell>, cap: seq<int>, idx: nat, v: int)
    requires IsLog(log, |cap|) && idx < |cap|
    ensures var log' := log + [Word(idx), Word(cap[idx])];
      IsLog(log', |cap|) && Undo(log', cap[idx := v]) == Undo(log, cap)
  {
    var log' := log + [Word(idx), Word(cap[idx])];
    assert log'[..|log'| - 2] == log;
    assert cap[idx := v][idx := cap[idx]] == cap;
  }

  ghost predicate Logged(log: seq<Cell>, idx: nat) {
    exists i :: 0 <= i < |log| && i % 2 == 0 && log[i] == Word(idx)
  }

  /** SAVE_CAPTURE_CHECK: an index already in the log needs no second entry, because the older entry is
      undone later and wins. */
  lemma {:induction false} UndoSaved(log: seq<Cell>, cap: seq<int>, idx: nat, v: int)
    requires IsLog(log, |cap|) && idx < |cap| && Logged(log, idx)
    ensures Undo(log, cap[idx := v]) == Undo(log, cap)
    decreases |log|
  {
    var n := |log|;
    var k, was := log[n - 2].v, log[n - 1].v;
    assert (n - 2) % 2 == 0;
    if k == idx {
      assert cap[idx := v][k := was] == cap[k := was];
    } else {
      assert cap[idx := v][k := was] == cap[k := was][idx := v];
      var i :| 0 <= i < n && i % 2 == 0 && log[i] == Word(idx);
      assert log[..n - 2][i] == Word(idx);
      UndoSaved(log[..n - 2], cap[k := was], idx, v);
    }
  }

  /** The stack `st`, whose newest frame ends at `bp`, together with the current captures `cap`, stands for
      the saved states `frames`: undoing the log above each frame gives the captures it was pushed with. */
  ghost predicate Represents(st: seq<Cell>, bp: nat, cap: seq<int>, frames: seq<Frame>)
    decreases |frames|
  {
    if frames == [] then bp == 0 && IsLog(st, |cap|)
    else
      var f, rest := frames[|frames| - 1], frames[..|frames| - 1];
      && 3 <= bp <= |st| && IsLog(st[bp..], |cap|)
      && st[bp - 3] == Word(f.pc) && st[bp - 2] == Word(f.pos)
      && st[bp - 1].Link? && st[bp - 1].kind == f.kind
      && Undo(st[bp..], cap) == f.cap
      && Represents(st[..bp - 3], st[bp - 1].bp, f.cap, rest)
  }

  lemma LogOnTop(st: seq<Cell>, bp: nat, cap: seq<int>, frames: seq<Frame>)
    requires Represents(st, bp, cap, frames)
    ensures bp <= |st| && IsLog(st[bp..], |cap|) && (bp == 0 <==> frames == [])
  {
    assert bp == 0 ==> st[bp..] == st;
  }

  /** Replacing the newest log segment by one that undoes to the same captures. */
  lemma ReplaceLog(st: seq<Cell>, bp: nat, cap: seq<int>, frames: seq<Frame>, log: seq<Cell>, cap': seq<int>)
    requires Represents(st, bp, cap, frames) && bp <= |st| && IsLog(st[bp..], |cap|)
    requires IsLog(log, |cap'|) && |cap'| == |cap| && Undo(log, cap') == Undo(st[bp..], cap)
    ensures Represents(st[..bp] + log, bp, cap', frames)
  {
    var st' := st[..bp] + log;
    assert st'[bp..] == log;
    if frames == [] {
      assert st' == log;
    } else {
      assert st'[..bp - 3] == st[..bp - 3];
    }
  }

  lemma PushSave(st: seq<Cell>, bp: nat, cap: seq<int>, frames: seq<Frame>, idx: nat, v: int)
    requires Represents(st, bp, cap, frames) && idx < |cap|
    ensures Represents(st + [Word(idx), Word(cap[idx])], bp, cap[idx := v], frames)
  {
    LogOnTop(st, bp, cap, frames);
    UndoSave(st[bp..], cap, idx, v);
    ReplaceLog(st, bp, cap, frames, st[bp..] + [Word(idx), Word(cap[idx])], cap[idx := v]);
    assert st[..bp] + (st[bp..] + [Word(idx), Word(cap[idx])]) == st + [Word(idx), Word(cap[idx])];
  }

  lemma SkipSave(st: seq<Cell>, bp: nat, cap: seq<int>, frames: seq<Frame>, idx: nat, v: int)
    requires Represents(st, bp, cap, frames) && idx < |cap| && bp <= |st| && Logged(st[bp..], idx)
    ensures Represents(st, bp, cap[idx := v], frames)
  {
    LogOnTop(st, bp, cap, frames);
    UndoSaved(st[bp..], cap, idx, v);
    ReplaceLog(st, bp, cap, frames, st[bp..], cap[idx := v]);
    assert st[..bp] + st[bp..] == st;
  }

  lemma PushFrame(st: seq<Cell>, bp: nat, cap: seq<int>, frames: seq<Frame>, f: Frame)
    requires Represents(st, bp, cap, frames) && f.cap == cap
    ensures var st' := st + [Word(f.pc), Word(f.pos), Link(bp, f.kind)];
      Represents(st', |st'|, cap, frames + [f])
  {
    var st' := st + [Word(f.pc), Word(f.pos), Link(bp, f.kind)];
    assert (frames + [f])[..|frames|] == frames;
    assert st'[..|st'| - 3] == st && st'[|st'|..] == [];
  }

  // ----- popping -----

  /** The newest frame and what lies under it. */
  lemma TopFrame(st: seq<Cell>, bp: nat, cap: seq<int>, frames: seq<Frame>)
    requires Represents(st, bp, cap, frames) && frames != []
    ensures var f := frames[|frames| - 1];
      && 3 <= bp <= |st| && IsLog(st[bp..], |cap|)
      && st[bp - 3] == Word(f.pc) && st[bp - 2] == Word(f.pos) && st[bp - 1].Link? && st[bp - 1].kind == f.kind
      && Undo(st[bp..], cap) == f.cap
      && Represents(st[..bp - 3], st[bp - 1].bp, f.cap, frames[..|frames| - 1])
  {}

  /** The last two cells of a log are its newest entry. */
  lemma UndoNewest(log: seq<Cell>, cap: seq<int>)
    requires IsLog(log, |cap|) && log != []
    ensures |log| >= 2 && log[|log| - 2].Word? && log[|log| - 1].Word? && 0 <= log[|log| - 2].v < |cap|
    ensures IsLog(log[..|log| - 2], |cap|)
    ensures Undo(log, cap) == Undo(log[..|log| - 2], cap[log[|log| - 2].v := log[|log| - 1].v])
  {
    assert (|log| - 2) % 2 == 0;
  }

  /** A log that undoes `cap` to the captures on top of `base` may be appended to it. */
  lemma AppendLog(base: seq<Cell>, bp: nat, below: seq<int>, frames: seq<Frame>, tail: seq<Cell>, cap: seq<int>)
    requires Represents(base, bp, below, frames) && |cap| == |below|
    requires IsLog(tail, |cap|) && Undo(tail, cap) == below
    ensures Represents(base + tail, bp, cap, frames)
    ensures base == [] ==> Represents([], bp, cap, frames)
  {
    LogOnTop(base, bp, below, frames);
    UndoAppend(base[bp..], tail, cap);
    ReplaceLog(base, bp, below, frames, base[bp..] + tail, cap);
    assert base[..bp] + (base[bp..] + tail) == base + tail;
  }

  /** Below a successful lookahead the logs of the discarded frames are still found by following, from each
      frame start, the link to the next one: `tail` is their concatenation. */
  ghost predicate Chain(a: seq<Cell>, p: nat, top: nat, tail: seq<Cell>)
    requires top <= |a|
    decreases top - p
  {
    if p >= top then p == top && tail == []
    else
      && p + 3 <= top && a[p + 2].Word? && p + 3 <= a[p + 2].v <= top
      && var next := a[p + 2].v;
         var n := next - (p + 3);
         n <= |tail| && a[p + 3..next] == tail[..n] && Chain(a, next, top, tail[n..])
  }

  lemma SameSlice(a: seq<Cell>, b: seq<Cell>, p: nat, top: nat, lo: nat, hi: nat)
    requires p <= lo <= hi <= top <= |a| && top <= |b| && a[p..top] == b[p..top]
    ensures a[lo..hi] == b[lo..hi]
  {
    forall i | lo <= i < hi ensures a[i] == b[i] {
      assert a[i] == a[p..top][i - p] && b[i] == b[p..top][i - p];
    }
  }

  lemma {:induction false} ChainUnchanged(a: seq<Cell>, b: seq<Cell>, p: nat, top: nat, tail: seq<Cell>)
    requires top <= |a| && top <= |b| && Chain(a, p, top, tail)
    requires p <= top && a[p..top] == b[p..top]
    ensures Chain(b, p, top, tail)
    decreases top - p
  {
    if p < top {
      assert a[p + 2] == a[p..top][2] == b[p..top][2] == b[p + 2];
      var next: nat := a[p + 2].v;
      SameSlice(a, b, p, top, p + 3, next);
      SameSlice(a, b, p, top, next, top);
      ChainUnchanged(a, b, next, top, tail[next - (p + 3)..]);
    }
  }

  lemma ChainLink(a: seq<Cell>, p: nat, top: nat, tail: seq<Cell>)
    requires p < top <= |a| && Chain(a, p, top, tail)
    ensures p + 3 <= top && a[p + 2].Word? && p + 3 <= a[p + 2].v <= top
    ensures var next := a[p + 2].v; var n := next - (p + 3);
      n <= |tail| && a[p + 3..next] == tail[..n] && Chain(a, next, top, tail[n..])
  {}

  lemma ChainEnd(a: seq<Cell>, top: nat)
    requires top <= |a|
    ensures Chain(a, top, top, [])
    ensures forall tail :: Chain(a, top, top, tail) ==> tail == []
  {}

  lemma EmptyLog(cap: seq<int>)
    ensures IsLog([], |cap|) && Undo([], cap) == cap
  {}

  /** Turning the frame that starts at `p` into a link in front of the chain. */
  lemma LinkChain(a: seq<Cell>, p: nat, next: nat, top: nat, log: seq<Cell>, tail: seq<Cell>)
    requires p + 3 <= next <= top <= |a| && a[p + 3..next] == log && Chain(a, next, top, tail)
    ensures Chain(a[p + 2 := Word(next)], p, top, log + tail)
  {
    var b := a[p + 2 := Word(next)];
    assert b[p + 3..next] == log && b[next..top] == a[next..top];
    ChainUnchanged(a, b, next, top, tail);
    assert (log + tail)[..|log|] == log && (log + tail)[|log|..] == tail;
  }
}
