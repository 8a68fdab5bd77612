/** The class opcodes accept exactly the members of the set they were emitted for. */
module ClassOpcodes {
  import opened Subject
  import opened Options
  import opened RegexSyntax
  import opened Bytecode
  import opened Codegen
  import opened Machine

  ghost function Low(bounds: seq<nat>, k: nat): nat
    requires k < |bounds| / 2
  {
    bounds[2 * k]
  }

  ghost function High(bounds: seq<nat>, k: nat): nat
    requires k < |bounds| / 2
  {
    bounds[2 * k + 1]
  }

  /** Inclusive intervals in increasing order. */
  ghost predicate Increasing(bounds: seq<nat>) {
    && (forall k :: 0 <= k < |bounds| / 2 ==> Low(bounds, k) <= High(bounds, k))
    && (forall j, k :: 0 <= j < k < |bounds| / 2 ==> High(bounds, j) < Low(bounds, k))
  }

  ghost predicate Within(bounds: seq<nat>, c: nat, k: nat)
    requires k < |bounds| / 2
  {
    Low(bounds, k) <= c <= High(bounds, k)
  }

  /** The binary search decides membership in the intervals `min..max`. */
  lemma {:induction false} SearchFinds(bounds: seq<nat>, c: nat, min: nat, max: int)
    requires Increasing(bounds) && max < |bounds| / 2
    ensures Search(bounds, c, min, max) <==> exists k :: min <= k <= max && Within(bounds, c, k)
    decreases max - min
  {
    if min <= max {
      var idx := (min + max) / 2;
      if c < Low(bounds, idx) {
        SearchFinds(bounds, c, min, idx - 1);
        assert forall k :: idx <= k <= max ==> !Within(bounds, c, k);
      } else if c > High(bounds, idx) {
        SearchFinds(bounds, c, idx + 1, max);
        assert forall k :: min <= k <= idx ==> !Within(bounds, c, k);
      } else {
        assert Within(bounds, c, idx);
      }
    }
  }

  /** Under the guard `c >= bounds[0]` the search never has to go below interval 0, so the unsigned upper
      index never wraps. */
  lemma {:induction false} SearchNeverUnderflows(bounds: seq<nat>, c: nat, min: nat, max: nat)
    requires Increasing(bounds) && min <= max < |bounds| / 2 && c >= bounds[0]
    ensures c < bounds[2 * ((min + max) / 2)] ==> (min + max) / 2 >= 1
  {
    if (min + max) / 2 == 0 {
      assert bounds[2 * ((min + max) / 2)] == bounds[0];
    }
  }

  lemma BoundAt(points: seq<nat>, wide: bool, k: nat)
    requires Canonical(points) && k < |points| / 2
    ensures var bounds := ClassBounds(points, wide);
            && Low(bounds, k) == points[2 * k] < points[2 * k + 1]
            && High(bounds, k) == if !wide && points[2 * k + 1] == UINT32_MAX then 0xffff else points[2 * k + 1] - 1
  {
    assert points[2 * k] < points[2 * k + 1];
  }

  lemma BoundsIncreasing(points: seq<nat>, wide: bool)
    requires Canonical(points) && |points| >= 2 && (!wide ==> TopBoundary(points) <= 0xffff)
    ensures Increasing(ClassBounds(points, wide))
  {
    var bounds := ClassBounds(points, wide);
    hide ClassBounds;
    forall k | 0 <= k < |points| / 2 ensures Low(bounds, k) <= High(bounds, k) {
      BoundAt(points, wide, k);
      assert points[2 * k] <= points[|points| - 2];
    }
    forall j, k | 0 <= j < k < |points| / 2 ensures High(bounds, j) < Low(bounds, k) {
      BoundAt(points, wide, j);
      BoundAt(points, wide, k);
      assert points[2 * j + 1] < points[2 * k] < points[2 * k + 1];
    }
  }

  /** Below the infinity marker an inclusive interval is the half-open one. */
  lemma WithinIsInterval(points: seq<nat>, wide: bool, c: CodePoint)
    requires Canonical(points) && |points| >= 2 && (wide || c < 0xffff)
    ensures (exists k :: 0 <= k < |points| / 2 && Within(ClassBounds(points, wide), c, k)) <==> Member(points, c)
  {
    var bounds := ClassBounds(points, wide);
    forall k | 0 <= k < |points| / 2 ensures Within(bounds, c, k) == InInterval(points, k, c) {
      BoundAt(points, wide, k);
      hide ClassBounds;
    }
  }

  /** The whole search, with the two guards the opcodes test first. */
  lemma {:induction false} GuardedSearchFinds(bounds: seq<nat>, c: nat)
    requires Increasing(bounds) && |bounds| >= 2
    ensures var n := |bounds| / 2;
            (bounds[0] <= c <= bounds[2 * (n - 1) + 1] && Search(bounds, c, 0, n - 1))
            <==> exists k :: 0 <= k < n && Within(bounds, c, k)
  {
    var n := |bounds| / 2;
    hide Search;
    SearchFinds(bounds, c, 0, n - 1);
    assert bounds[0] == Low(bounds, 0) && bounds[2 * (n - 1) + 1] == High(bounds, n - 1);
    forall k | 0 <= k < n && Within(bounds, c, k) ensures Low(bounds, 0) <= c <= High(bounds, n - 1) {
      assert k == 0 || Low(bounds, 0) <= High(bounds, 0) < Low(bounds, k);
      assert k == n - 1 || High(bounds, k) < Low(bounds, n - 1) <= High(bounds, n - 1);
    }
  }

  lemma {:induction false} SearchAll(points: seq<nat>, wide: bool, c: CodePoint)
    requires Canonical(points) && |points| >= 2 && (wide || c < 0xffff) && (!wide ==> TopBoundary(points) <= 0xffff)
    ensures var bounds := ClassBounds(points, wide); var n := |points| / 2;
            Member(points, c) <==> bounds[0] <= c <= bounds[2 * (n - 1) + 1] && Search(bounds, c, 0, n - 1)
  {
    hide Search, Canonical, Increasing, Member, Within, ClassBounds, TopBoundary;
    var bounds := ClassBounds(points, wide);
    WithinIsInterval(points, wide, c);
    BoundsIncreasing(points, wide);
    GuardedSearchFinds(bounds, c);
  }

  lemma {:induction false} NarrowMatches(points: seq<nat>, c: CodePoint)
    requires Canonical(points) && |points| >= 2 && TopBoundary(points) <= 0xffff
    ensures InRange16(ClassBounds(points, false), c) == Member(points, c)
  {
    hide ClassBounds, Search;
    var bounds := ClassBounds(points, false);
    var n := |points| / 2;
    if c < 0xffff {
      hide Member, Canonical;
      SearchAll(points, false, c);
    } else {
      BoundAt(points, false, 0);
      BoundAt(points, false, n - 1);
      assert bounds[0] == Low(bounds, 0) && bounds[2 * (n - 1) + 1] == High(bounds, n - 1);
      assert 2 * (n - 1) + 1 == |points| - 1;
      if points[|points| - 1] == UINT32_MAX {
        assert points[0] <= points[2 * (n - 1)];
        assert InInterval(points, n - 1, c);
      } else {
        forall k | 0 <= k < n ensures !InInterval(points, k, c) {
          assert points[2 * k + 1] <= points[|points| - 1];
        }
      }
    }
  }

  /** The opcode `re_emit_range` chooses accepts a code point exactly when the set contains it. */
  lemma ClassMatches(e: Input, points: seq<nat>, icase: bool, c: CodePoint)
    requires Canonical(points)
    ensures Reads(ClassCode(points, icase))
    ensures ReadAccepts(e, ClassCode(points, icase), c) == Member(points, if icase then e.canon(c) else c)
  {
    var d := if icase then e.canon(c) else c;
    assert |points| % 2 == 0;
    hide Search, Canonical, Increasing, Member, Within, ClassBounds, InRange16, InRange32, Search, TopBoundary;
    if |points| < 2 {
      NoMembers(points, d);
    } else if TopBoundary(points) <= 0xffff {
      NarrowMatches(points, d);
    } else {
      WideMatches(points, d);
    }
  }

  lemma WideMatches(points: seq<nat>, c: CodePoint)
    requires Canonical(points) && |points| >= 2
    ensures InRange32(ClassBounds(points, true), c) == Member(points, c)
  {
    hide Search, Canonical, Increasing, Member, Within;
    SearchAll(points, true, c);
  }

  lemma NoMembers(points: seq<nat>, c: nat)
    requires |points| == 0
    ensures !Member(points, c)
  {}

  lemma CharacterMatches(e: Input, n: Pattern, c: CodePoint)
    requires IsCharacter(n)
    ensures Reads(CharacterCode(n))
    ensures ReadAccepts(e, CharacterCode(n), c) == Accepts(e, n, c)
  {
    if n.Class? {
      ClassMatches(e, n.points, n.icase, c);
    }
  }
}
