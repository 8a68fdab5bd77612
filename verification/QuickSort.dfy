/** `rqsort`: three-way partition, an explicit stack of 50 slots, heap sort below the depth limit and insertion
    sort for small fragments. */
module QuickSort {
  import opened SortSupport
  import opened HeapSort

  const SLOTS := 50
  const DEPTH_LIMIT := 50

  // ----- partition -----

  /** `y` lies between `x` and `z`. */
  ghost predicate Between<T>(x: T, y: T, z: T, cmp: Order<T>) {
    (cmp(x, y) <= 0 && cmp(y, z) <= 0) || (cmp(z, y) <= 0 && cmp(y, x) <= 0)
  }

  /** `med3`: the index of the median of three. */
  method Med3<T(!new)>(a: array<T>, i: nat, j: nat, k: nat, ask: Answers<T>, calls: nat, ghost cmp: Order<T>, ghost ok: bool)
      returns (m: nat, calls': nat)
    requires i < a.Length && j < a.Length && k < a.Length && (ok ==> Consistent(ask, cmp))
    ensures m == i || m == j || m == k
    ensures ok && m == i ==> Between(a[j], a[i], a[k], cmp)
    ensures ok && m == j ==> Between(a[i], a[j], a[k], cmp)
    ensures ok && m == k ==> Between(a[i], a[k], a[j], cmp)
  {
    var ij, jk := ask(calls, a[i], a[j]), ask(calls + 1, a[j], a[k]);
    calls' := calls + 2;
    if (ij < 0 && jk < 0) || (ij >= 0 && jk > 0) {
      m := j;
    } else {
      var ik := ask(calls', a[i], a[k]);
      calls' := calls' + 1;
      m := if ij < 0 then (if ik < 0 then k else i) else if ik < 0 then i else k;
    }
    if ok {
      Opposite(cmp, a[i], a[j]);
      Opposite(cmp, a[j], a[k]);
      Opposite(cmp, a[i], a[k]);
    }
  }

  ghost predicate AllLess<T>(s: seq<T>, lo: int, hi: int, p: T, cmp: Order<T>, ok: bool) {
    0 <= lo && hi <= |s| && (ok ==> forall i :: lo <= i < hi ==> cmp(p, s[i]) > 0)
  }

  ghost predicate AllGreater<T>(s: seq<T>, lo: int, hi: int, p: T, cmp: Order<T>, ok: bool) {
    0 <= lo && hi <= |s| && (ok ==> forall i :: lo <= i < hi ==> cmp(p, s[i]) < 0)
  }

  ghost predicate AllLike<T>(s: seq<T>, lo: int, hi: int, p: T, cmp: Order<T>, ok: bool) {
    0 <= lo && hi <= |s| && (ok ==> forall i :: lo <= i < hi ==> s[i] == p || cmp(p, s[i]) == 0)
  }

  /** The four regions while the scans run: like the pivot up to `plt`, smaller up to `pi`, not yet looked at up
      to `pj`, greater up to `pgt`, like the pivot up to `top`. */
  ghost predicate Regions<T>(s: seq<T>, ptr: nat, plt: nat, pi: nat, pj: nat, pgt: nat, top: nat, cmp: Order<T>, ok: bool) {
    && ptr < plt <= pi <= pgt <= top <= |s| && pj <= pgt
    && var p := s[ptr];
       AllLike(s, ptr, plt, p, cmp, ok) && AllLess(s, plt, pi, p, cmp, ok) && AllGreater(s, pj, pgt, p, cmp, ok) && AllLike(s, pgt, top, p, cmp, ok)
  }

  lemma RegionsStart<T>(s: seq<T>, ptr: nat, top: nat, cmp: Order<T>, ok: bool)
    requires ptr < top <= |s|
    ensures Regions(s, ptr, ptr + 1, ptr + 1, top, top, top, cmp, ok)
  {}

  /** The left scan passes a smaller element. */
  lemma PassLess<T>(s: seq<T>, ptr: nat, plt: nat, pi: nat, pj: nat, pgt: nat, top: nat, cmp: Order<T>, ok: bool)
    requires Regions(s, ptr, plt, pi, pj, pgt, top, cmp, ok) && pi < pj && (ok ==> cmp(s[ptr], s[pi]) > 0)
    ensures Regions(s, ptr, plt, pi + 1, pj, pgt, top, cmp, ok)
  {}

  /** The left scan parks an element like the pivot at the left end. */
  lemma ParkLeft<T>(s: seq<T>, ptr: nat, plt: nat, pi: nat, pj: nat, pgt: nat, top: nat, cmp: Order<T>, ok: bool)
    requires Regions(s, ptr, plt, pi, pj, pgt, top, cmp, ok) && pi < pj && (ok ==> cmp(s[ptr], s[pi]) == 0)
    ensures Regions(Swapped(s, plt, pi), ptr, plt + 1, pi + 1, pj, pgt, top, cmp, ok)
  {
    var t := Swapped(s, plt, pi);
    assert t[ptr] == s[ptr] && t[plt] == s[pi] && (ok && plt < pi ==> cmp(s[ptr], s[plt]) > 0);
  }

  /** The right scan passes a greater element. */
  lemma PassGreater<T>(s: seq<T>, ptr: nat, plt: nat, pi: nat, pj: nat, pgt: nat, top: nat, cmp: Order<T>, ok: bool)
    requires Regions(s, ptr, plt, pi, pj, pgt, top, cmp, ok) && pi < pj && (ok ==> cmp(s[ptr], s[pj - 1]) < 0)
    ensures Regions(s, ptr, plt, pi, pj - 1, pgt, top, cmp, ok)
  {}

  /** The right scan parks an element like the pivot at the right end. */
  lemma ParkRight<T>(s: seq<T>, ptr: nat, plt: nat, pi: nat, pj: nat, pgt: nat, top: nat, cmp: Order<T>, ok: bool)
    requires Regions(s, ptr, plt, pi, pj, pgt, top, cmp, ok) && pi < pj && (ok ==> cmp(s[ptr], s[pj - 1]) == 0)
    ensures Regions(Swapped(s, pgt - 1, pj - 1), ptr, plt, pi, pj - 1, pgt - 1, top, cmp, ok)
  {
    var t := Swapped(s, pgt - 1, pj - 1);
    assert t[ptr] == s[ptr] && t[pgt - 1] == s[pj - 1] && (ok && pj < pgt ==> cmp(s[ptr], s[pgt - 1]) < 0);
  }

  /** Both scans stopped: a greater element on the left changes places with a smaller one on the right. */
  lemma Exchange<T>(s: seq<T>, ptr: nat, plt: nat, pi: nat, pj: nat, pgt: nat, top: nat, cmp: Order<T>, ok: bool)
    requires Regions(s, ptr, plt, pi, pj + 1, pgt, top, cmp, ok) && pi < pj
    requires ok ==> cmp(s[ptr], s[pi]) < 0 && cmp(s[ptr], s[pj]) > 0
    ensures Regions(Swapped(s, pi, pj), ptr, plt, pi + 1, pj, pgt, top, cmp, ok)
  {
    var t := Swapped(s, pi, pj);
    assert t[ptr] == s[ptr];
  }

  /** The scans have met. */
  lemma ScansMet<T>(s: seq<T>, ptr: nat, plt: nat, pi: nat, pj: nat, pgt: nat, top: nat, cmp: Order<T>, ok: bool)
    requires Regions(s, ptr, plt, pi, pj, pgt, top, cmp, ok) && pi <= pj && (pi == pj || (pj == pi + 1 && (ok ==> cmp(s[ptr], s[pi]) < 0)))
    ensures Regions(s, ptr, plt, pi, pi, pgt, top, cmp, ok)
  {}

  /** The scanning loop of the partition; the pivot is at `ptr`. */
  method Scan<T(!new)>(a: array<T>, ptr: nat, top: nat, ask: Answers<T>, calls0: nat, ghost cmp: Order<T>, ghost ok: bool)
      returns (plt: nat, pi: nat, pgt: nat, calls: nat)
    requires ptr < top <= a.Length && (ok ==> Consistent(ask, cmp))
    modifies a
    ensures Rearranged(old(a[..]), a[..], ptr, top) && Regions(a[..], ptr, plt, pi, pi, pgt, top, cmp, ok)
  {
    hide Rearranged, Swapped, Consistent, AllLess, AllGreater, AllLike;
    ghost var was := a[..];
    calls := calls0;
    RearrangedSelf(was, ptr, top);
    RegionsStart(was, ptr, top, cmp, ok);
    plt, pi, pgt := ptr + 1, ptr + 1, top;
    var pj := top;
    while true
      invariant Rearranged(was, a[..], ptr, top) && pi <= pj
      invariant Regions(a[..], ptr, plt, pi, pj, pgt, top, cmp, ok)
      decreases pj - pi
    {
      plt, pi, calls := ScanRight(a, ptr, plt, pi, pj, pgt, top, ask, calls, cmp, ok, was);
      var met;
      pj, pgt, met, calls := ScanLeft(a, ptr, plt, pi, pj, pgt, top, ask, calls, cmp, ok, was);
      if met {
        break;
      }
      ghost var before := a[..];
      Exchange(before, ptr, plt, pi, pj, pgt, top, cmp, ok);
      Swap(a, pi, pj);
      SwapRearranges(before, pi, pj, ptr, top);
      RearrangedThen(was, before, a[..], ptr, top);
      pi := pi + 1;
    }
  }

  /** From the left up to an element greater than the pivot. */
  method ScanRight<T(!new)>(a: array<T>, ptr: nat, plt0: nat, pi0: nat, pj: nat, pgt: nat, top: nat,
                               ask: Answers<T>, calls0: nat, ghost cmp: Order<T>, ghost ok: bool, ghost was: seq<T>)
      returns (plt: nat, pi: nat, calls: nat)
    requires ok ==> Consistent(ask, cmp)
    requires top <= a.Length && Rearranged(was, a[..], ptr, top) && pi0 <= pj && Regions(a[..], ptr, plt0, pi0, pj, pgt, top, cmp, ok)
    modifies a
    ensures Rearranged(was, a[..], ptr, top) && pi0 <= pi <= pj && Regions(a[..], ptr, plt, pi, pj, pgt, top, cmp, ok)
    ensures ok && pi < pj ==> cmp(a[ptr], a[pi]) < 0
  {
    hide Rearranged, Swapped, AllLess, AllLike, AllGreater, Consistent;
    plt, pi, calls := plt0, pi0, calls0;
    while pi < pj
      invariant Rearranged(was, a[..], ptr, top) && pi0 <= pi <= pj && Regions(a[..], ptr, plt, pi, pj, pgt, top, cmp, ok)
    {
      if ok {
        Answer(ask, cmp, calls, a[ptr], a[pi]);
      }
      var c := ask(calls, a[ptr], a[pi]);
      calls := calls + 1;
      if c < 0 {
        break;
      }
      ghost var before := a[..];
      if c == 0 {
        ParkLeft(before, ptr, plt, pi, pj, pgt, top, cmp, ok);
        Swap(a, plt, pi);
        SwapRearranges(before, plt, pi, ptr, top);
        RearrangedThen(was, before, a[..], ptr, top);
        plt := plt + 1;
      } else {
        PassLess(before, ptr, plt, pi, pj, pgt, top, cmp, ok);
      }
      pi := pi + 1;
    }
  }

  /** From the right down to an element smaller than the pivot, or until the scans meet. */
  method ScanLeft<T(!new)>(a: array<T>, ptr: nat, plt: nat, pi: nat, pj0: nat, pgt0: nat, top: nat,
                              ask: Answers<T>, calls0: nat, ghost cmp: Order<T>, ghost ok: bool, ghost was: seq<T>)
      returns (pj: nat, pgt: nat, met: bool, calls: nat)
    requires ok ==> Consistent(ask, cmp)
    requires top <= a.Length && Rearranged(was, a[..], ptr, top) && pi <= pj0 && Regions(a[..], ptr, plt, pi, pj0, pgt0, top, cmp, ok)
    requires ok && pi < pj0 ==> cmp(a[ptr], a[pi]) < 0
    modifies a
    ensures Rearranged(was, a[..], ptr, top)
    ensures met ==> Regions(a[..], ptr, plt, pi, pi, pgt, top, cmp, ok)
    ensures !met ==> pi < pj < pj0 && Regions(a[..], ptr, plt, pi, pj + 1, pgt, top, cmp, ok)
    ensures !met && ok ==> cmp(a[ptr], a[pi]) < 0 && cmp(a[ptr], a[pj]) > 0
  {
    hide Rearranged, Swapped, AllLess, AllLike, AllGreater, Consistent;
    pgt, calls := pgt0, calls0;
    var k := pj0;
    while pi + 1 < k
      invariant Rearranged(was, a[..], ptr, top) && pi <= k <= pj0 && Regions(a[..], ptr, plt, pi, k, pgt, top, cmp, ok)
      invariant ok && pi < k ==> cmp(a[ptr], a[pi]) < 0
      decreases k
    {
      pj := k - 1;
      if ok {
        Answer(ask, cmp, calls, a[ptr], a[pj]);
      }
      var c := ask(calls, a[ptr], a[pj]);
      calls := calls + 1;
      if c > 0 {
        met := false;
        return;
      }
      ghost var before := a[..];
      if c == 0 {
        ParkRight(before, ptr, plt, pi, k, pgt, top, cmp, ok);
        Kept(before, pgt - 1, pj, ptr, pi);
        pgt := pgt - 1;
        Swap(a, pgt, pj);
        SwapRearranges(before, pgt, pj, ptr, top);
        RearrangedThen(was, before, a[..], ptr, top);
      } else {
        PassGreater(before, ptr, plt, pi, k, pgt, top, cmp, ok);
      }
      k := pj;
    }
    ScansMet(a[..], ptr, plt, pi, k, pgt, top, cmp, ok);
    pj, met := pi, true;
  }

  lemma Kept<T>(s: seq<T>, i: nat, j: nat, k: nat, l: nat)
    requires i < |s| && j < |s| && k < |s| && l < |s| && k != i && k != j && l != i && l != j
    ensures Swapped(s, i, j)[k] == s[k] && Swapped(s, i, j)[l] == s[l]
  {}

  // ----- moving the parked elements to the middle -----

  /** Where the element at `i` comes from when the blocks at `x` and `y` are exchanged. */
  function Origin(i: nat, x: nat, y: nat, span: nat): nat {
    if x <= i < x + span then y + (i - x) else if y <= i < y + span then x + (i - y) else i
  }

  ghost predicate BlocksSwapped<T>(s: seq<T>, t: seq<T>, x: nat, y: nat, span: nat) {
    && x + span <= y && y + span <= |s| == |t|
    && forall i {:trigger t[i]} :: 0 <= i < |s| ==> t[i] == s[Origin(i, x, y, span)]
  }

  /** `swap_block`: exchanges two blocks that do not overlap. */
  method SwapBlock<T(!new)>(a: array<T>, x: nat, y: nat, span: nat, ghost lo: nat, ghost hi: nat)
    requires lo <= x && x + span <= y && y + span <= hi <= a.Length
    modifies a
    ensures BlocksSwapped(old(a[..]), a[..], x, y, span) && Rearranged(old(a[..]), a[..], lo, hi)
  {
    hide Rearranged, BlocksSwapped, Swapped;
    ghost var was := a[..];
    RearrangedSelf(was, lo, hi);
    NothingSwapped(was, x, y);
    for k := 0 to span
      invariant Rearranged(was, a[..], lo, hi) && BlocksSwapped(was, a[..], x, y, k)
    {
      ghost var before := a[..];
      Swap(a, x + k, y + k);
      SwapRearranges(before, x + k, y + k, lo, hi);
      RearrangedThen(was, before, a[..], lo, hi);
      OneMoreSwapped(was, before, x, y, k);
    }
  }

  lemma NothingSwapped<T>(s: seq<T>, x: nat, y: nat)
    requires x <= y <= |s|
    ensures BlocksSwapped(s, s, x, y, 0)
  {}

  lemma OneMoreSwapped<T>(s: seq<T>, t: seq<T>, x: nat, y: nat, k: nat)
    requires BlocksSwapped(s, t, x, y, k) && x + k + 1 <= y && y + k + 1 <= |s|
    ensures BlocksSwapped(s, Swapped(t, x + k, y + k), x, y, k + 1)
  {
    var u := Swapped(t, x + k, y + k);
    assert t[x + k] == s[x + k] && t[y + k] == s[y + k];
    forall i | 0 <= i < |s| ensures u[i] == s[Origin(i, x, y, k + 1)] {
      assert i != x + k && i != y + k ==> u[i] == t[i];
    }
  }

  /** Smaller elements, then those like the pivot, then greater ones. */
  ghost predicate Parts<T>(s: seq<T>, ptr: nat, lt: nat, gt: nat, top: nat, p: T, cmp: Order<T>, ok: bool) {
    && ptr <= lt < gt <= top <= |s|
    && AllLess(s, ptr, lt, p, cmp, ok) && AllLike(s, lt, gt, p, cmp, ok) && AllGreater(s, gt, top, p, cmp, ok)
  }

  lemma LeftMoved<T>(s: seq<T>, t: seq<T>, ptr: nat, plt: nat, pi: nat, span: nat, p: T, cmp: Order<T>, ok: bool)
    requires ptr <= plt <= pi <= |s| && AllLike(s, ptr, plt, p, cmp, ok) && AllLess(s, plt, pi, p, cmp, ok)
    requires span == (if plt - ptr > pi - plt then pi - plt else plt - ptr) && BlocksSwapped(s, t, ptr, pi - span, span)
    ensures AllLess(t, ptr, ptr + (pi - plt), p, cmp, ok) && AllLike(t, ptr + (pi - plt), pi, p, cmp, ok)
  {}

  lemma RightMoved<T>(s: seq<T>, t: seq<T>, pi: nat, pgt: nat, top: nat, span: nat, p: T, cmp: Order<T>, ok: bool)
    requires pi <= pgt <= top <= |s| && AllGreater(s, pi, pgt, p, cmp, ok) && AllLike(s, pgt, top, p, cmp, ok)
    requires span == (if top - pgt > pgt - pi then pgt - pi else top - pgt) && BlocksSwapped(s, t, pi, top - span, span)
    ensures AllLike(t, pi, top - (pgt - pi), p, cmp, ok) && AllGreater(t, top - (pgt - pi), top, p, cmp, ok)
  {}

  lemma Elsewhere<T>(s: seq<T>, t: seq<T>, x: nat, y: nat, span: nat, lo: nat, hi: nat, p: T, cmp: Order<T>, ok: bool)
    requires BlocksSwapped(s, t, x, y, span) && lo <= hi <= |s| && (hi <= x || y + span <= lo)
    ensures AllLess(s, lo, hi, p, cmp, ok) ==> AllLess(t, lo, hi, p, cmp, ok)
    ensures AllLike(s, lo, hi, p, cmp, ok) ==> AllLike(t, lo, hi, p, cmp, ok)
    ensures AllGreater(s, lo, hi, p, cmp, ok) ==> AllGreater(t, lo, hi, p, cmp, ok)
  {}

  /** One partition of the elements between `ptr` and `top`: the pivot ends up in the middle part. */
  method Partition<T(!new)>(a: array<T>, ptr: nat, top: nat, ask: Answers<T>, calls0: nat, ghost cmp: Order<T>, ghost ok: bool)
      returns (lt: nat, gt: nat, calls: nat, ghost p: T)
    requires ptr + 6 < top <= a.Length && (ok ==> Consistent(ask, cmp))
    modifies a
    ensures Rearranged(old(a[..]), a[..], ptr, top) && Parts(a[..], ptr, lt, gt, top, p, cmp, ok)
  {
    hide Rearranged, Swapped, Regions, Parts, Consistent;
    ghost var was := a[..];
    var m4 := (top - ptr) / 4;
    var m;
    m, calls := Med3(a, ptr + m4, ptr + 2 * m4, ptr + 3 * m4, ask, calls0, cmp, ok);
    Swap(a, ptr, m);
    SwapRearranges(was, ptr, m, ptr, top);
    ghost var s0 := a[..];
    var plt, pi, pgt;
    plt, pi, pgt, calls := Scan(a, ptr, top, ask, calls, cmp, ok);
    RearrangedThen(was, s0, a[..], ptr, top);
    ghost var s1 := a[..];
    lt, gt, p := ToMiddle(a, ptr, plt, pi, pgt, top, cmp, ok);
    RearrangedThen(was, s1, a[..], ptr, top);
  }

  /** The two block swaps that bring the elements like the pivot to the middle. */
  method ToMiddle<T(!new)>(a: array<T>, ptr: nat, plt: nat, pi: nat, pgt: nat, top: nat, ghost cmp: Order<T>, ghost ok: bool)
      returns (lt: nat, gt: nat, ghost p: T)
    requires top <= a.Length && Regions(a[..], ptr, plt, pi, pi, pgt, top, cmp, ok)
    modifies a
    ensures Rearranged(old(a[..]), a[..], ptr, top) && Parts(a[..], ptr, lt, gt, top, p, cmp, ok)
  {
    hide Rearranged, AllLess, AllLike, AllGreater, BlocksSwapped;
    ghost var s1 := a[..];
    p := s1[ptr];
    var span := if plt - ptr > pi - plt then pi - plt else plt - ptr;
    SwapBlock(a, ptr, pi - span, span, ptr, top);
    ghost var s2 := a[..];
    lt := ptr + (pi - plt);
    LeftMoved(s1, s2, ptr, plt, pi, span, p, cmp, ok);
    Elsewhere(s1, s2, ptr, pi - span, span, pi, pgt, p, cmp, ok);
    Elsewhere(s1, s2, ptr, pi - span, span, pgt, top, p, cmp, ok);
    span := if top - pgt > pgt - pi then pgt - pi else top - pgt;
    SwapBlock(a, pi, top - span, span, ptr, top);
    RearrangedThen(s1, s2, a[..], ptr, top);
    gt := top - (pgt - pi);
    RightMoved(s2, a[..], pi, pgt, top, span, p, cmp, ok);
    Elsewhere(s2, a[..], pi, top - span, span, ptr, lt, p, cmp, ok);
    Elsewhere(s2, a[..], pi, top - span, span, lt, pi, p, cmp, ok);
    LikeJoined(a[..], lt, pi, gt, p, cmp, ok);
  }

  lemma LikeJoined<T>(s: seq<T>, x: nat, y: nat, z: nat, p: T, cmp: Order<T>, ok: bool)
    requires AllLike(s, x, y, p, cmp, ok) && AllLike(s, y, z, p, cmp, ok)
    ensures AllLike(s, x, z, p, cmp, ok)
  {}

  /** Elements of different parts are in order, and so are those of the middle part. */
  lemma PartsOrdered<T(!new)>(s: seq<T>, ptr: nat, lt: nat, gt: nat, top: nat, p: T, cmp: Order<T>, i: nat, j: nat)
    requires Preorder(cmp) && Parts(s, ptr, lt, gt, top, p, cmp, true) && ptr <= i < j < top && !(j < lt) && !(gt <= i)
    ensures cmp(s[i], s[j]) <= 0
  {
    Reflexive(cmp, p);
    Opposite(cmp, p, s[i]);
    Opposite(cmp, p, s[j]);
    Transitive(cmp, s[i], p, s[j]);
  }

  // ----- what is left to sort -----

  datatype Segment = Segment(base: nat, count: nat, depth: nat)

  predicate Holds(c: Segment, i: nat) {
    c.base <= i < c.base + c.count
  }

  ghost predicate Together(pending: seq<Segment>, i: nat, j: nat) {
    exists k :: 0 <= k < |pending| && Holds(pending[k], i) && Holds(pending[k], j)
  }

  ghost predicate Apart(pending: seq<Segment>) {
    forall k, l, i: nat :: 0 <= k < l < |pending| ==> !(Holds(pending[k], i) && Holds(pending[l], i))
  }

  /** Elements that are not pending together are in order. */
  ghost predicate Ordered<T>(s: seq<T>, pending: seq<Segment>, cmp: Order<T>) {
    forall i: nat, j: nat :: i < j < |s| && !Together(pending, i, j) ==> cmp(s[i], s[j]) <= 0
  }

  lemma TogetherAppend(q: seq<Segment>, c: Segment, i: nat, j: nat)
    ensures Together(q + [c], i, j) <==> Together(q, i, j) || (Holds(c, i) && Holds(c, j))
  {
    var p := q + [c];
    if Together(q, i, j) {
      var k :| 0 <= k < |q| && Holds(q[k], i) && Holds(q[k], j);
      assert p[k] == q[k];
    }
    if Holds(c, i) && Holds(c, j) {
      assert p[|q|] == c;
    }
    if Together(p, i, j) {
      var k :| 0 <= k < |p| && Holds(p[k], i) && Holds(p[k], j);
      assert k < |q| ==> p[k] == q[k];
    }
  }

  lemma ApartFromLast(q: seq<Segment>, c: Segment, i: nat, j: nat)
    requires Apart(q + [c]) && Holds(c, i)
    ensures !Together(q, i, j) && !Together(q, j, i)
  {
    var p := q + [c];
    assert p[|q|] == c;
    forall k | 0 <= k < |q| ensures !Holds(q[k], i) {
      assert p[k] == q[k];
    }
  }

  /** Rearranging the last segment keeps every other pair in order. */
  lemma OtherPairs<T(!new)>(s: seq<T>, t: seq<T>, q: seq<Segment>, c: Segment, cmp: Order<T>, i: nat, j: nat)
    requires Ordered(s, q + [c], cmp) && Apart(q + [c]) && Rearranged(s, t, c.base, c.base + c.count)
    requires i < j < |t| && !Together(q, i, j) && !(Holds(c, i) && Holds(c, j))
    ensures cmp(t[i], t[j]) <= 0
  {
    hide Rearranged, Apart, Together;
    RearrangedSize(s, t, c.base, c.base + c.count);
    TogetherAppend(q, c, i, j);
    if Holds(c, i) {
      var k := RearrangedInside(s, t, c.base, c.base + c.count, i);
      RearrangedOutside(s, t, c.base, c.base + c.count, j);
      ApartFromLast(q, c, k, j);
      TogetherAppend(q, c, k, j);
    } else if Holds(c, j) {
      var k := RearrangedInside(s, t, c.base, c.base + c.count, j);
      RearrangedOutside(s, t, c.base, c.base + c.count, i);
      ApartFromLast(q, c, k, i);
      TogetherAppend(q, c, i, k);
    } else {
      RearrangedOutside(s, t, c.base, c.base + c.count, i);
      RearrangedOutside(s, t, c.base, c.base + c.count, j);
    }
  }

  /** The last segment is sorted: it is no longer pending. */
  lemma SegmentSorted<T(!new)>(s: seq<T>, t: seq<T>, q: seq<Segment>, c: Segment, cmp: Order<T>)
    requires Ordered(s, q + [c], cmp) && Apart(q + [c]) && Rearranged(s, t, c.base, c.base + c.count)
    requires Sorted(t, c.base, c.base + c.count, cmp)
    ensures Ordered(t, q, cmp)
  {
    hide Rearranged, Apart, Together;
    forall i: nat, j: nat | i < j < |t| && !Together(q, i, j) ensures cmp(t[i], t[j]) <= 0 {
      if !(Holds(c, i) && Holds(c, j)) {
        hide Ordered;
        OtherPairs(s, t, q, c, cmp, i, j);
      }
    }
  }

  /** The last segment is partitioned: its outer parts are pending, in either order. */
  lemma SegmentSplit<T(!new)>(s: seq<T>, t: seq<T>, q: seq<Segment>, c: Segment, lt: nat, gt: nat, p: T, x: Segment, y: Segment, cmp: Order<T>)
    requires Preorder(cmp) && Ordered(s, q + [c], cmp) && Apart(q + [c]) && Rearranged(s, t, c.base, c.base + c.count)
    requires Parts(t, c.base, lt, gt, c.base + c.count, p, cmp, true) && AreOuter(c, lt, gt, x, y)
    ensures Ordered(t, q + [x] + [y], cmp)
  {
    hide Rearranged, Apart, Together, Parts, Preorder;
    PartsBounds(t, c.base, lt, gt, c.base + c.count, p, cmp, true);
    forall i: nat, j: nat | i < j < |t| && !Together(q + [x] + [y], i, j) ensures cmp(t[i], t[j]) <= 0 {
      TogetherAppend(q + [x], y, i, j);
      TogetherAppend(q, x, i, j);
      if Holds(c, i) && Holds(c, j) {
        PartsOrdered(t, c.base, lt, gt, c.base + c.count, p, cmp, i, j);
      } else {
        OtherPairs(s, t, q, c, cmp, i, j);
      }
    }
  }

  lemma PartsBounds<T>(s: seq<T>, ptr: nat, lt: nat, gt: nat, top: nat, p: T, cmp: Order<T>, ok: bool)
    requires Parts(s, ptr, lt, gt, top, p, cmp, ok)
    ensures ptr <= lt < gt <= top <= |s|
  {}

  /** The parts below and above the middle one. */
  predicate AreOuter(c: Segment, lt: nat, gt: nat, x: Segment, y: Segment) {
    && c.base <= lt < gt <= c.base + c.count
    && ((x.base == c.base && x.count == lt - c.base && y.base == gt && y.count == c.base + c.count - gt)
        || (y.base == c.base && y.count == lt - c.base && x.base == gt && x.count == c.base + c.count - gt))
  }

  lemma StillApart(q: seq<Segment>, c: Segment, lt: nat, gt: nat, x: Segment, y: Segment)
    requires Apart(q + [c]) && AreOuter(c, lt, gt, x, y)
    ensures Apart(q + [x] + [y])
  {
    var p, p' := q + [c], q + [x] + [y];
    forall k, l, i: nat | 0 <= k < l < |p'| ensures !(Holds(p'[k], i) && Holds(p'[l], i)) {
      assert p[|q|] == c;
      if k < |q| {
        assert p'[k] == q[k] == p[k];
        if l < |q| {
          assert p'[l] == q[l] == p[l];
        } else {
          assert Holds(p'[l], i) ==> Holds(c, i);
        }
      }
    }
  }

  lemma ApartPrefix(q: seq<Segment>, c: Segment)
    requires Apart(q + [c])
    ensures Apart(q)
  {
    var p := q + [c];
    forall k, l, i: nat | 0 <= k < l < |q| ensures !(Holds(q[k], i) && Holds(q[l], i)) {
      assert p[k] == q[k] && p[l] == q[l];
    }
  }

  /** The work left, for termination. */
  function Work(pending: seq<Segment>): nat {
    if pending == [] then 0 else Work(pending[..|pending| - 1]) + 2 * pending[|pending| - 1].count + 1
  }

  lemma WorkAppend(q: seq<Segment>, c: Segment)
    ensures Work(q + [c]) == Work(q) + 2 * c.count + 1
  {
    assert (q + [c])[..|q|] == q;
  }

  // ----- the sort -----

  /** The slots in use: each lies within the array, and the one in slot `k` has depth at least `k`. */
  ghost predicate Slots(pending: seq<Segment>, n: nat) {
    forall k :: 0 <= k < |pending| ==> pending[k].base + pending[k].count <= n && k <= pending[k].depth <= DEPTH_LIMIT
  }

  /** What the sort maintains: `pending` is the stack. */
  ghost predicate Sorting<T(!new)>(was: seq<T>, s: seq<T>, pending: seq<Segment>, cmp: Order<T>, ok: bool) {
    && Rearranged(was, s, 0, |s|) && Apart(pending) && Slots(pending, |s|)
    && (ok ==> Ordered(s, pending, cmp))
  }

  /** `rqsort`. Whatever the comparator answers, from call to call, the result is a permutation and the 50 slots
      suffice; if it always answers by one preorder, the result is sorted. */
  method Rqsort<T(!new)>(a: array<T>, ask: Answers<T>, ghost cmp: Order<T>)
    modifies a
    ensures multiset(a[..]) == multiset(old(a[..]))
    ensures Steady(ask, cmp) && Preorder(cmp) ==> Sorted(a[..], 0, a.Length, cmp)
  {
    hide Preorder, Steady, Sorting, Sorted;
    ghost var was, ok := a[..], Consistent(ask, cmp);
    var calls: nat := 0;
    if a.Length < 2 {
      TooShort(a[..], cmp);
      return;
    }
    var stack := new Segment[SLOTS](_ => Segment(0, 0, 0));
    stack[0] := Segment(0, a.Length, 0);
    var sp := 1;
    assert stack[..1] == [stack[0]];
    SortingStarts(was, stack[0], cmp, ok);
    while sp > 0
      invariant 0 <= sp <= SLOTS && stack.Length == SLOTS && Sorting(was, a[..], stack[..sp], cmp, ok)
      decreases Work(stack[..sp])
    {
      sp := sp - 1;
      var c := stack[sp];
      assert stack[..sp + 1] == stack[..sp] + [c];
      WorkAppend(stack[..sp], c);
      sp, calls := SortSegment(a, stack, sp, c, ask, calls, cmp, was, ok);
    }
    assert stack[..0] == [];
    SortingEnds(was, a[..], cmp, ok);
  }

  lemma TooShort<T>(s: seq<T>, cmp: Order<T>)
    requires |s| < 2
    ensures Sorted(s, 0, |s|, cmp)
  {}

  lemma SortingStarts<T(!new)>(s: seq<T>, c: Segment, cmp: Order<T>, ok: bool)
    requires c == Segment(0, |s|, 0)
    ensures Sorting(s, s, [c], cmp, ok)
  {
    RearrangedSelf(s, 0, |s|);
    forall i: nat, j: nat | i < j < |s| ensures Together([c], i, j) {
      assert Holds([c][0], i) && Holds([c][0], j);
    }
  }

  lemma SortingEnds<T(!new)>(was: seq<T>, s: seq<T>, cmp: Order<T>, ok: bool)
    requires Sorting(was, s, [], cmp, ok)
    ensures multiset(s) == multiset(was) && (ok ==> Sorted(s, 0, |s|, cmp))
  {
    assert was[0..|s|] == was && s[0..|s|] == s;
    forall i: nat, j: nat | i < j < |s| ensures !Together([], i, j) {
    }
  }

  /** One segment taken from the stack: partitioned until small, the larger parts going back to the stack. */
  method SortSegment<T(!new)>(a: array<T>, stack: array<Segment>, sp0: nat, c: Segment, ask: Answers<T>, calls0: nat,
                                 ghost cmp: Order<T>, ghost was: seq<T>, ghost ok: bool) returns (sp: nat, calls: nat)
    requires stack.Length == SLOTS && sp0 < SLOTS && a as object != stack as object && (ok ==> Consistent(ask, cmp))
    requires Sorting(was, a[..], stack[..sp0] + [c], cmp, ok)
    modifies a, stack
    ensures sp <= SLOTS && Sorting(was, a[..], stack[..sp], cmp, ok)
    ensures Work(stack[..sp]) < Work(old(stack[..sp0]) + [c])
  {
    hide Steady, Sorting, Sorted, Rearranged, Apart, Slots, Ordered, Work, Preorder;
    sp, calls := sp0, calls0;
    var ptr: nat, nmemb: nat, depth: nat := c.base, c.count, c.depth;
    ghost var work := Work(stack[..sp0] + [c]);
    SortingBounds(was, a[..], stack[..sp0], c, cmp, ok);
    while nmemb > 6
      invariant sp <= SLOTS && sp <= depth <= DEPTH_LIMIT && ptr + nmemb <= a.Length
      invariant Sorting(was, a[..], stack[..sp] + [Segment(ptr, nmemb, depth)], cmp, ok)
      invariant Work(stack[..sp] + [Segment(ptr, nmemb, depth)]) <= work
      decreases nmemb
    {
      ghost var before, q := a[..], stack[..sp];
      ghost var current := Segment(ptr, nmemb, depth);
      depth := depth + 1;
      if depth > DEPTH_LIMIT {
        calls := HeapSortX(a, ptr, nmemb, ask, calls, cmp, ok);
        SortedDone(was, before, a[..], q, current, cmp, ok);
        WorkAppend(q, current);
        return;
      }
      var lt, gt;
      ghost var p;
      lt, gt, calls, p := Partition(a, ptr, ptr + nmemb, ask, calls, cmp, ok);
      PartsBounds(a[..], ptr, lt, gt, ptr + nmemb, p, cmp, ok);
      var left, right := Segment(ptr, lt - ptr, depth), Segment(gt, ptr + nmemb - gt, depth);
      var large, small := right, left;
      if left.count > right.count {
        large, small := left, right;
      }
      SplitDone(was, before, a[..], q, current, lt, gt, p, large, small, cmp, ok);
      WorkAppend(q, current);
      WorkAppend(q, large);
      WorkAppend(q + [large], small);
      stack[sp] := large;
      sp := sp + 1;
      assert stack[..sp] == q + [large];
      ptr, nmemb := small.base, small.count;
    }
    ghost var before, q := a[..], stack[..sp];
    ghost var current := Segment(ptr, nmemb, depth);
    calls := InsertionSort(a, ptr, ptr + nmemb, ask, calls, cmp, ok);
    SortedDone(was, before, a[..], q, current, cmp, ok);
    WorkAppend(q, current);
  }

  lemma SortingBounds<T(!new)>(was: seq<T>, s: seq<T>, q: seq<Segment>, c: Segment, cmp: Order<T>, ok: bool)
    requires Sorting(was, s, q + [c], cmp, ok)
    ensures c.base + c.count <= |s| && |q| <= c.depth <= DEPTH_LIMIT
  {
    assert (q + [c])[|q|] == c;
  }

  lemma SortedDone<T(!new)>(was: seq<T>, s: seq<T>, t: seq<T>, q: seq<Segment>, c: Segment, cmp: Order<T>, ok: bool)
    requires Sorting(was, s, q + [c], cmp, ok) && Rearranged(s, t, c.base, c.base + c.count)
    requires ok ==> Sorted(t, c.base, c.base + c.count, cmp)
    ensures Sorting(was, t, q, cmp, ok)
  {
    hide Rearranged, Apart, Ordered, Sorted;
    RearrangedSize(s, t, c.base, c.base + c.count);
    RearrangedWithin(s, t, c.base, c.base + c.count, 0, |s|);
    RearrangedThen(was, s, t, 0, |s|);
    ApartPrefix(q, c);
    if ok {
      SegmentSorted(s, t, q, c, cmp);
    }
    forall k | 0 <= k < |q| ensures q[k] == (q + [c])[k] {
    }
  }

  lemma SplitDone<T(!new)>(was: seq<T>, s: seq<T>, t: seq<T>, q: seq<Segment>, c: Segment, lt: nat, gt: nat, p: T, x: Segment, y: Segment,
                     cmp: Order<T>, ok: bool)
    requires Sorting(was, s, q + [c], cmp, ok) && Rearranged(s, t, c.base, c.base + c.count) && (ok ==> Preorder(cmp))
    requires Parts(t, c.base, lt, gt, c.base + c.count, p, cmp, ok) && AreOuter(c, lt, gt, x, y)
    requires x.depth == y.depth == c.depth + 1 <= DEPTH_LIMIT && |q| <= c.depth
    ensures Sorting(was, t, q + [x] + [y], cmp, ok)
  {
    hide Rearranged, Apart, Ordered, Parts, Preorder;
    RearrangedSize(s, t, c.base, c.base + c.count);
    RearrangedWithin(s, t, c.base, c.base + c.count, 0, |s|);
    RearrangedThen(was, s, t, 0, |s|);
    StillApart(q, c, lt, gt, x, y);
    if ok {
      SegmentSplit(s, t, q, c, lt, gt, p, x, y, cmp);
    }
    var pending := q + [x] + [y];
    assert (q + [c])[|q|] == c;
    forall k | 0 <= k < |pending| ensures pending[k].base + pending[k].count <= |t| && k <= pending[k].depth <= DEPTH_LIMIT {
      if k < |q| {
        assert pending[k] == q[k] == (q + [c])[k];
      }
    }
  }
}
