/** The two fallbacks of the sort: insertion sort for small fragments, heap sort beyond the depth limit. */
module HeapSort {
  import opened SortSupport

  // ----- insertion sort -----

  /** Ascending up to `last`, but for the element at `hole`, which only may be too small. */
  ghost predicate SortedBut<T>(s: seq<T>, lo: nat, last: nat, hole: nat, cmp: Order<T>) {
    last < |s| && forall i, j :: lo <= i < j <= last && j != hole ==> cmp(s[i], s[j]) <= 0
  }

  lemma InsertStep<T(!new)>(s: seq<T>, lo: nat, last: nat, hole: nat, cmp: Order<T>)
    requires Preorder(cmp) && SortedBut(s, lo, last, hole, cmp) && lo < hole <= last && cmp(s[hole - 1], s[hole]) > 0
    ensures SortedBut(Swapped(s, hole, hole - 1), lo, last, hole - 1, cmp)
  {
    var t := Swapped(s, hole, hole - 1);
    Opposite(cmp, s[hole - 1], s[hole]);
    hide Preorder;
    forall i, j | lo <= i < j <= last && j != hole - 1 ensures cmp(t[i], t[j]) <= 0 {
      if j == hole {
        if i < hole - 1 {
          assert cmp(s[i], s[hole - 1]) <= 0;
        }
      }
    }
  }

  lemma InsertDone<T(!new)>(s: seq<T>, lo: nat, last: nat, hole: nat, cmp: Order<T>)
    requires Preorder(cmp) && SortedBut(s, lo, last, hole, cmp) && lo <= hole <= last
    requires hole == lo || cmp(s[hole - 1], s[hole]) <= 0
    ensures Sorted(s, lo, last + 1, cmp)
  {
    forall i, j | lo <= i < j < last + 1 ensures cmp(s[i], s[j]) <= 0 {
      if j == hole && i < hole - 1 {
        Transitive(cmp, s[i], s[hole - 1], s[hole]);
      }
    }
  }

  method InsertionSort<T(!new)>(a: array<T>, lo: nat, hi: nat, ask: Answers<T>, calls0: nat, ghost cmp: Order<T>, ghost ok: bool)
      returns (calls: nat)
    requires lo <= hi <= a.Length && (ok ==> Consistent(ask, cmp))
    modifies a
    ensures Rearranged(old(a[..]), a[..], lo, hi)
    ensures ok ==> Sorted(a[..], lo, hi, cmp)
  {
    hide Preorder, Consistent, Rearranged, Swapped, Sorted, SortedBut;
    ghost var was := a[..];
    RearrangedSelf(was, lo, hi);
    StartSorted(was, lo, hi, cmp);
    calls := calls0;
    var pi := lo + 1;
    while pi < hi
      invariant lo < pi && (pi <= hi || pi == lo + 1)
      invariant Rearranged(was, a[..], lo, hi)
      invariant ok ==> Sorted(a[..], lo, if pi <= hi then pi else hi, cmp)
      decreases hi - pi
    {
      var pj := pi;
      if ok {
        InsertStart(a[..], lo, pi, cmp);
      }
      while pj > lo
        invariant lo <= pj <= pi && Rearranged(was, a[..], lo, hi)
        invariant ok ==> SortedBut(a[..], lo, pi, pj, cmp)
        decreases pj
      {
        ghost var before := a[..];
        if ok {
          Answer(ask, cmp, calls, a[pj - 1], a[pj]);
        }
        var c := ask(calls, a[pj - 1], a[pj]);
        calls := calls + 1;
        if c <= 0 {
          break;
        }
        if ok {
          InsertStep(before, lo, pi, pj, cmp);
        }
        SwapInside(a, pj, pj - 1, lo, hi, was);
        pj := pj - 1;
      }
      if ok {
        Answer(ask, cmp, calls, a[pi], a[pi]);
        InsertDone(a[..], lo, pi, pj, cmp);
      }
      pi := pi + 1;
    }
  }

  lemma StartSorted<T>(s: seq<T>, lo: nat, hi: nat, cmp: Order<T>)
    requires lo <= hi <= |s|
    ensures Sorted(s, lo, if lo + 1 <= hi then lo + 1 else hi, cmp)
  {}

  lemma InsertStart<T>(s: seq<T>, lo: nat, pi: nat, cmp: Order<T>)
    requires Sorted(s, lo, pi, cmp) && lo <= pi < |s|
    ensures SortedBut(s, lo, pi, pi, cmp)
  {}

  // ----- heaps -----

  function Parent(k: nat): nat
    requires k > 0
  {
    (k - 1) / 2
  }

  /** Among the first `n` elements from `lo` on, none below `from` exceeds its parent, except children of `r`;
      those do not exceed the parent of `r`. */
  ghost predicate HeapBut<T>(s: seq<T>, lo: nat, from: nat, n: nat, r: int, cmp: Order<T>) {
    && lo + n <= |s|
    && (forall k: nat :: 0 < k < n && from <= Parent(k) && Parent(k) != r ==> cmp(s[lo + k], s[lo + Parent(k)]) <= 0)
    && (forall k: nat :: 0 < k < n && Parent(k) == r && r > 0 && from <= Parent(r) ==> cmp(s[lo + k], s[lo + Parent(r)]) <= 0)
  }

  ghost predicate Heap<T>(s: seq<T>, lo: nat, from: nat, n: nat, cmp: Order<T>) {
    HeapBut(s, lo, from, n, -1, cmp)
  }

  /** `c` is the larger child of `r`. */
  ghost predicate LargerChild<T>(s: seq<T>, lo: nat, n: nat, r: nat, c: nat, cmp: Order<T>) {
    && c < n && lo + n <= |s| && c > 0 && Parent(c) == r
    && forall k: nat :: 0 < k < n && Parent(k) == r ==> cmp(s[lo + k], s[lo + c]) <= 0
  }

  lemma ChildChosen<T(!new)>(s: seq<T>, lo: nat, n: nat, r: nat, c: nat, cmp: Order<T>)
    requires Preorder(cmp) && lo + n <= |s| && (c == 2 * r + 1 || c == 2 * r + 2) && c < n
    requires c == 2 * r + 1 && c + 1 < n ==> cmp(s[lo + c], s[lo + c + 1]) > 0
    requires c == 2 * r + 2 ==> cmp(s[lo + c - 1], s[lo + c]) <= 0
    ensures LargerChild(s, lo, n, r, c, cmp)
  {
    Reflexive(cmp, s[lo + c]);
    if c + 1 < n {
      Opposite(cmp, s[lo + c], s[lo + c + 1]);
    }
    forall k: nat | 0 < k < n && Parent(k) == r ensures cmp(s[lo + k], s[lo + c]) <= 0 {
      assert k == 2 * r + 1 || k == 2 * r + 2;
    }
  }

  lemma SiftStep<T(!new)>(s: seq<T>, lo: nat, from: nat, n: nat, r: nat, c: nat, cmp: Order<T>)
    requires HeapBut(s, lo, from, n, r, cmp) && LargerChild(s, lo, n, r, c, cmp) && from <= r && cmp(s[lo + r], s[lo + c]) <= 0
    ensures HeapBut(Swapped(s, lo + r, lo + c), lo, from, n, c, cmp)
  {
    var t := Swapped(s, lo + r, lo + c);
    forall k: nat | 0 < k < n && from <= Parent(k) && Parent(k) != c ensures cmp(t[lo + k], t[lo + Parent(k)]) <= 0 {
      if k == r {
        assert Parent(r) != r && Parent(r) != c && Parent(c) == r;
      } else if Parent(k) == r {
        assert cmp(s[lo + k], s[lo + c]) <= 0;
      } else {
        assert k != c;
      }
    }
    forall k: nat | 0 < k < n && Parent(k) == c ensures cmp(t[lo + k], t[lo + Parent(c)]) <= 0 {
      assert Parent(k) != r && k != r && k != c;
    }
  }

  lemma SiftDone<T(!new)>(s: seq<T>, lo: nat, from: nat, n: nat, r: nat, c: nat, cmp: Order<T>)
    requires Preorder(cmp) && HeapBut(s, lo, from, n, r, cmp) && LargerChild(s, lo, n, r, c, cmp) && cmp(s[lo + r], s[lo + c]) > 0
    ensures Heap(s, lo, from, n, cmp)
  {
    Opposite(cmp, s[lo + r], s[lo + c]);
    hide Preorder;
    forall k: nat | 0 < k < n && from <= Parent(k) ensures cmp(s[lo + k], s[lo + Parent(k)]) <= 0 {
      if Parent(k) == r {
        assert cmp(s[lo + k], s[lo + c]) <= 0;
        Transitive(cmp, s[lo + k], s[lo + c], s[lo + r]);
      }
    }
  }

  lemma NoChildren<T(!new)>(s: seq<T>, lo: nat, from: nat, n: nat, r: nat, cmp: Order<T>)
    requires HeapBut(s, lo, from, n, r, cmp) && 2 * r + 1 >= n
    ensures Heap(s, lo, from, n, cmp)
  {
    forall k: nat | 0 < k < n && from <= Parent(k) ensures cmp(s[lo + k], s[lo + Parent(k)]) <= 0 {
      assert Parent(k) != r;
    }
  }

  /** The inner loop of `heapsortx`. */
  method SiftDown<T(!new)>(a: array<T>, lo: nat, r0: nat, n: nat, ask: Answers<T>, calls0: nat, ghost cmp: Order<T>,
                              ghost from: nat, ghost ok: bool) returns (calls: nat)
    requires lo + n <= a.Length && r0 <= n && from <= r0
    requires ok ==> Consistent(ask, cmp) && HeapBut(a[..], lo, from, n, r0, cmp)
    modifies a
    ensures Rearranged(old(a[..]), a[..], lo, lo + n)
    ensures ok ==> Heap(a[..], lo, from, n, cmp)
  {
    hide Preorder, Consistent, Rearranged, Swapped, HeapBut, LargerChild, Heap;
    ghost var was := a[..];
    RearrangedSelf(was, lo, lo + n);
    calls := calls0;
    var r := r0;
    while 2 * r + 1 < n
      invariant from <= r && Rearranged(was, a[..], lo, lo + n)
      invariant ok ==> HeapBut(a[..], lo, from, n, r, cmp)
      decreases n - r
    {
      var c := 2 * r + 1;
      if c < n - 1 {
        if ok {
          Answer(ask, cmp, calls, a[lo + c], a[lo + c + 1]);
        }
        var d := ask(calls, a[lo + c], a[lo + c + 1]);
        calls := calls + 1;
        if d <= 0 {
          c := c + 1;
        }
      }
      if ok {
        Answer(ask, cmp, calls, a[lo + r], a[lo + c]);
        ChildChosen(a[..], lo, n, r, c, cmp);
      }
      var d := ask(calls, a[lo + r], a[lo + c]);
      calls := calls + 1;
      if d > 0 {
        if ok {
          SiftDone(a[..], lo, from, n, r, c, cmp);
        }
        return;
      }
      ghost var before := a[..];
      if ok {
        SiftStep(before, lo, from, n, r, c, cmp);
      }
      SwapInside(a, lo + r, lo + c, lo, lo + n, was);
      r := c;
    }
    if ok {
      NoChildren(a[..], lo, from, n, r, cmp);
    }
  }

  /** The root of a heap is its maximum. */
  lemma {:induction false} RootIsLargest<T(!new)>(s: seq<T>, lo: nat, n: nat, k: nat, cmp: Order<T>)
    requires Preorder(cmp) && Heap(s, lo, 0, n, cmp) && k < n
    ensures lo + n <= |s| && cmp(s[lo + k], s[lo]) <= 0
    decreases k
  {
    if k == 0 {
      Reflexive(cmp, s[lo]);
    } else {
      RootIsLargest(s, lo, n, Parent(k), cmp);
      Transitive(cmp, s[lo + k], s[lo + Parent(k)], s[lo]);
    }
  }

  /** The elements from `i` on are in place: sorted and no smaller than those before. */
  ghost predicate Placed<T>(s: seq<T>, lo: nat, i: nat, n: nat, cmp: Order<T>) {
    && lo + n <= |s|
    && forall j, k :: lo <= j < k < lo + n && lo + i <= k ==> cmp(s[j], s[k]) <= 0
  }

  /** Moving the root behind the heap: the heap is damaged at the root only. */
  lemma RootMoved<T(!new)>(s: seq<T>, lo: nat, i: nat, n: nat, cmp: Order<T>)
    requires Preorder(cmp) && Heap(s, lo, 0, i + 1, cmp) && Placed(s, lo, i + 1, n, cmp) && 0 < i < n
    ensures HeapBut(Swapped(s, lo, lo + i), lo, 0, i, 0, cmp) && Placed(Swapped(s, lo, lo + i), lo, i, n, cmp)
  {
    hide Preorder;
    var t := Swapped(s, lo, lo + i);
    forall j, k | lo <= j < k < lo + n && lo + i <= k ensures cmp(t[j], t[k]) <= 0 {
      if k == lo + i {
        if j == lo {
          RootIsLargest(s, lo, i + 1, i, cmp);
        } else {
          RootIsLargest(s, lo, i + 1, j - lo, cmp);
        }
      } else {
        assert cmp(s[j], s[k]) <= 0 && cmp(s[lo], s[k]) <= 0 && cmp(s[lo + i], s[k]) <= 0;
      }
    }
  }

  /** Rearranging the front does not disturb what is in place behind it. */
  lemma StillPlaced<T(!new)>(s: seq<T>, t: seq<T>, lo: nat, i: nat, n: nat, cmp: Order<T>)
    requires Placed(s, lo, i, n, cmp) && Rearranged(s, t, lo, lo + i) && i <= n
    ensures Placed(t, lo, i, n, cmp)
  {
    hide Rearranged;
    RearrangedSize(s, t, lo, lo + i);
    forall j, k | lo <= j < k < lo + n && lo + i <= k ensures cmp(t[j], t[k]) <= 0 {
      RearrangedOutside(s, t, lo, lo + i, k);
      if j < lo + i {
        var j' := RearrangedInside(s, t, lo, lo + i, j);
      } else {
        RearrangedOutside(s, t, lo, lo + i, j);
      }
    }
  }

  lemma RearrangedSize<T>(s: seq<T>, t: seq<T>, lo: nat, hi: nat)
    requires Rearranged(s, t, lo, hi)
    ensures |s| == |t| && lo <= hi <= |s|
  {}

  lemma AllPlaced<T(!new)>(s: seq<T>, lo: nat, n: nat, cmp: Order<T>)
    requires Placed(s, lo, 1, n, cmp)
    ensures Sorted(s, lo, lo + n, cmp)
  {}

  lemma LeavesAreHeap<T(!new)>(s: seq<T>, lo: nat, n: nat, cmp: Order<T>)
    requires lo + n <= |s|
    ensures Heap(s, lo, n / 2, n, cmp) && Placed(s, lo, n, n, cmp)
  {
    forall k: nat | 0 < k < n ensures Parent(k) < n / 2 {
    }
  }

  /** One more root: its children may exceed it. */
  lemma AddRoot<T(!new)>(s: seq<T>, lo: nat, i: nat, n: nat, cmp: Order<T>)
    requires Heap(s, lo, i + 1, n, cmp)
    ensures HeapBut(s, lo, i, n, i, cmp)
  {
    assert i > 0 ==> Parent(i) < i;
  }

  /** `heapsortx` */
  method HeapSortX<T(!new)>(a: array<T>, lo: nat, n: nat, ask: Answers<T>, calls0: nat, ghost cmp: Order<T>, ghost ok: bool)
      returns (calls: nat)
    requires lo + n <= a.Length && (ok ==> Consistent(ask, cmp))
    modifies a
    ensures Rearranged(old(a[..]), a[..], lo, lo + n)
    ensures ok ==> Sorted(a[..], lo, lo + n, cmp)
  {
    hide Consistent, Rearranged, Heap, Sorted;
    ghost var was := a[..];
    RearrangedSelf(was, lo, lo + n);
    calls := calls0;
    if n > 1 {
      calls := BuildHeap(a, lo, n, ask, calls, cmp, ok);
      ghost var heap := a[..];
      calls := EmptyHeap(a, lo, n, ask, calls, cmp, ok);
      RearrangedThen(was, heap, a[..], lo, lo + n);
    } else {
      AtMostOne(was, lo, n, cmp);
    }
  }

  lemma AtMostOne<T>(s: seq<T>, lo: nat, n: nat, cmp: Order<T>)
    requires n <= 1 && lo + n <= |s|
    ensures Sorted(s, lo, lo + n, cmp)
  {}

  /** The first loop of `heapsortx`. */
  method BuildHeap<T(!new)>(a: array<T>, lo: nat, n: nat, ask: Answers<T>, calls0: nat, ghost cmp: Order<T>, ghost ok: bool)
      returns (calls: nat)
    requires lo + n <= a.Length && (ok ==> Consistent(ask, cmp))
    modifies a
    ensures Rearranged(old(a[..]), a[..], lo, lo + n)
    ensures ok ==> Heap(a[..], lo, 0, n, cmp)
  {
    hide Consistent, Rearranged, HeapBut, Heap, Placed;
    ghost var was := a[..];
    RearrangedSelf(was, lo, lo + n);
    calls := calls0;
    var i := n / 2;
    LeavesAreHeap(a[..], lo, n, cmp);
    while i > 0
      invariant 0 <= i <= n / 2 && Rearranged(was, a[..], lo, lo + n)
      invariant ok ==> Heap(a[..], lo, i, n, cmp)
    {
      i := i - 1;
      ghost var before := a[..];
      if ok {
        AddRoot(before, lo, i, n, cmp);
      }
      calls := SiftDown(a, lo, i, n, ask, calls, cmp, i, ok);
      RearrangedThen(was, before, a[..], lo, lo + n);
    }
  }

  /** The second loop of `heapsortx`. */
  method EmptyHeap<T(!new)>(a: array<T>, lo: nat, n: nat, ask: Answers<T>, calls0: nat, ghost cmp: Order<T>, ghost ok: bool)
      returns (calls: nat)
    requires lo + n <= a.Length && n > 0 && (ok ==> Consistent(ask, cmp) && Heap(a[..], lo, 0, n, cmp))
    modifies a
    ensures Rearranged(old(a[..]), a[..], lo, lo + n)
    ensures ok ==> Sorted(a[..], lo, lo + n, cmp)
  {
    hide Preorder, Consistent, Rearranged, Swapped, HeapBut, Heap, Placed;
    ghost var was := a[..];
    RearrangedSelf(was, lo, lo + n);
    calls := calls0;
    LeavesAreHeap(a[..], lo, n, cmp);
    var i := n - 1;
    while i > 0
      invariant 0 <= i < n && Rearranged(was, a[..], lo, lo + n)
      invariant ok ==> Heap(a[..], lo, 0, i + 1, cmp) && Placed(a[..], lo, i + 1, n, cmp)
    {
      ghost var before := a[..];
      if ok {
        Answer(ask, cmp, calls, a[lo], a[lo]);
        RootMoved(before, lo, i, n, cmp);
      }
      SwapInside(a, lo, lo + i, lo, lo + n, was);
      ghost var moved := a[..];
      calls := SiftDown(a, lo, 0, i, ask, calls, cmp, 0, ok);
      RearrangedWithin(moved, a[..], lo, lo + i, lo, lo + n);
      RearrangedThen(was, moved, a[..], lo, lo + n);
      if ok {
        StillPlaced(moved, a[..], lo, i, n, cmp);
      }
      i := i - 1;
    }
    if ok {
      AllPlaced(a[..], lo, n, cmp);
    }
  }
}
