/** sync3/range.go: the tracked bound nearest to an index. */
module ClosestBound {
  import opened Common
  import opened Ranges
  import opened Sorting

  ghost predicate IsBound(rs: seq<Range>, b: int) {
    exists r :: r in rs && (b == r.lo || b == r.hi)
  }

  /**
   * The documented meaning of `ClosestInDirection`: inside a range, its own bound in that
   * direction; outside, the nearest bound in that direction; -1 when there is none.
   */
  ghost predicate IsClosest(rs: seq<Range>, i: int, towardsZero: bool, c: int) {
    match Inside(rs, i)
    case Some(r) => c == if towardsZero then r.lo else r.hi
    case None =>
      if towardsZero then
        || (c == -1 && forall b :: IsBound(rs, b) ==> i < b)
        || (IsBound(rs, c) && c < i && forall b :: IsBound(rs, b) && b < i ==> b <= c)
      else
        || (c == -1 && forall b :: IsBound(rs, b) ==> b < i)
        || (IsBound(rs, c) && i < c && forall b :: IsBound(rs, b) && i < b ==> c <= b)
  }

  function Bounds(rs: seq<Range>): seq<int> {
    if rs == [] then [] else [rs[0].lo, rs[0].hi] + Bounds(rs[1..])
  }

  function IntLess(): (int, int) -> bool { (x, y) => x < y }

  function RangeLess(): (Range, Range) -> bool { (x: Range, y: Range) => x.lo < y.lo }

  lemma {:induction false} BoundsAt(rs: seq<Range>, k: nat)
    requires k < |rs|
    ensures |Bounds(rs)| == 2 * |rs|
    ensures Bounds(rs)[2 * k] == rs[k].lo && Bounds(rs)[2 * k + 1] == rs[k].hi
  {
    if |rs| > 1 {
      BoundsAt(rs[1..], if k == 0 then 0 else k - 1);
    }
  }

  /** Ranges in ascending order, each ending before the next begins. */
  ghost predicate Chain(s: seq<Range>) {
    && (forall i :: 0 <= i < |s| ==> s[i].lo <= s[i].hi)
    && (forall i, j :: 0 <= i < j < |s| ==> s[i].hi < s[j].lo)
  }

  lemma {:induction false} InsertIntoChain(r: Range, s: seq<Range>)
    requires Chain(s) && r.lo <= r.hi && forall x :: x in s ==> Apart(r, x)
    ensures Chain(Insert(RangeLess(), r, s))
    ensures forall x :: x in Insert(RangeLess(), r, s) <==> x == r || x in s
  {
    if s != [] {
      assert Apart(r, s[0]);
      if s[0].lo < r.lo {
        InsertIntoChain(r, s[1..]);
        var tail := Insert(RangeLess(), r, s[1..]);
        forall j | 0 <= j < |tail| ensures s[0].hi < tail[j].lo {
          assert tail[j] in tail;
        }
      }
    }
  }

  lemma InsertPastTwo(v: int, a: int, b: int, rest: seq<int>)
    requires a < v && b < v
    ensures Insert(IntLess(), v, [a, b] + rest) == [a, b] + Insert(IntLess(), v, rest)
  {
    assert ([a, b] + rest)[1..] == [b] + rest;
    assert ([b] + rest)[1..] == rest;
  }

  lemma {:induction false} InsertBounds(r: Range, s: seq<Range>)
    requires Chain(s) && r.lo <= r.hi && forall x :: x in s ==> Apart(r, x)
    ensures Insert(IntLess(), r.lo, Insert(IntLess(), r.hi, Bounds(s))) == Bounds(Insert(RangeLess(), r, s))
  {
    if s != [] {
      assert Apart(r, s[0]);
      if s[0].lo < r.lo {
        InsertBounds(r, s[1..]);
        InsertPastTwo(r.hi, s[0].lo, s[0].hi, Bounds(s[1..]));
        InsertPastTwo(r.lo, s[0].lo, s[0].hi, Insert(IntLess(), r.hi, Bounds(s[1..])));
        assert Insert(RangeLess(), r, s)[1..] == Insert(RangeLess(), r, s[1..]);
      } else {
        assert ([r] + s)[1..] == s;
      }
    }
  }

  /** Sorting all bounds interleaves them: lows at even positions, highs at odd ones. */
  lemma {:induction false} SortedBoundsAlternate(rs: seq<Range>)
    requires Valid(rs)
    ensures Chain(StableSort(RangeLess(), rs))
    ensures forall x :: x in StableSort(RangeLess(), rs) <==> x in rs
    ensures StableSort(IntLess(), Bounds(rs)) == Bounds(StableSort(RangeLess(), rs))
  {
    if rs != [] {
      SortedBoundsAlternate(rs[1..]);
      forall x | x in rs[1..] ensures Apart(rs[0], x) {
        var j :| 0 <= j < |rs[1..]| && rs[1..][j] == x;
        assert rs[j + 1] == x;
      }
      InsertIntoChain(rs[0], StableSort(RangeLess(), rs[1..]));
      InsertBounds(rs[0], StableSort(RangeLess(), rs[1..]));
      var b := Bounds(rs);
      assert b[1..][1..] == Bounds(rs[1..]);
    }
  }

  lemma ClosestInside(rs: seq<Range>, s: seq<Range>, i: int, k: nat)
    requires Valid(rs) && (forall x :: x in s <==> x in rs)
    requires k < |s| && In(s[k], i)
    ensures IsClosest(rs, i, true, s[k].lo) && IsClosest(rs, i, false, s[k].hi)
  {
    assert s[k] in rs;
    InsideUnique(rs, s[k], i);
  }

  lemma ClosestInGap(rs: seq<Range>, s: seq<Range>, i: int, k: nat)
    requires Chain(s) && (forall x :: x in s <==> x in rs) && k <= |s|
    requires (k > 0 ==> s[k - 1].hi < i) && (k < |s| ==> i < s[k].lo)
    ensures IsClosest(rs, i, true, if k == 0 then -1 else s[k - 1].hi)
    ensures IsClosest(rs, i, false, if k == |s| then -1 else s[k].lo)
  {
    forall r | r in rs
      ensures !In(r, i) && (r.hi < i ==> k > 0 && r.hi <= s[k - 1].hi) && (i < r.lo ==> k < |s| && s[k].lo <= r.lo)
    {
      var j :| 0 <= j < |s| && s[j] == r;
    }
    assert k > 0 ==> s[k - 1] in rs;
    assert k < |s| ==> s[k] in rs;
  }

  /**
   * Sorts every bound and scans for the first one at or past `i`; the parity of its position
   * tells a range start from a range end. Callers pass at least one range.
   */
  method ClosestInDirection(rs: seq<Range>, i: int, towardsZero: bool) returns (c: int)
    requires Valid(rs) && rs != []
    ensures IsClosest(rs, i, towardsZero, c)
  {
    var indexes := [];
    for k := 0 to |rs|
      invariant indexes + Bounds(rs[k..]) == Bounds(rs)
    {
      assert rs[k..][1..] == rs[k + 1..];
      indexes := indexes + [rs[k].lo, rs[k].hi];
    }
    assert indexes == Bounds(rs);
    indexes := StableSort(IntLess(), indexes);
    ghost var s := StableSort(RangeLess(), rs);
    SortedBoundsAlternate(rs);
    assert rs[0] in s;
    forall k | 0 <= k < |s| ensures Interleaved(indexes, s, k) {
      BoundsAt(s, k);
    }
    if towardsZero {
      c := ScanTowardsZero(rs, indexes, i, s);
    } else {
      c := ScanAway(rs, indexes, i, s);
    }
  }

  ghost predicate Interleaved(indexes: seq<int>, s: seq<Range>, k: nat)
    requires k < |s|
  {
    |indexes| == 2 * |s| && indexes[2 * k] == s[k].lo && indexes[2 * k + 1] == s[k].hi
  }

  /** The first bound at or past `i`, seen from above: it is in a range, or ends the gap that `i` is in. */
  lemma FirstAtOrPast(rs: seq<Range>, indexes: seq<int>, i: int, s: seq<Range>, j: nat)
    requires Valid(rs) && Chain(s) && (forall x :: x in s <==> x in rs) && |indexes| == 2 * |s| && j < |indexes|
    requires forall k :: 0 <= k < |s| ==> Interleaved(indexes, s, k)
    requires indexes[j] >= i && (j > 0 ==> indexes[j - 1] < i)
    ensures IsClosest(rs, i, true, if j % 2 == 0 && indexes[j] == i then i else if j == 0 then -1 else indexes[j - 1])
  {
    var k := j / 2;
    assert Interleaved(indexes, s, k);
    if j % 2 == 1 || indexes[j] == i {
      ClosestInside(rs, s, i, k);
    } else {
      assert k > 0 ==> Interleaved(indexes, s, k - 1);
      ClosestInGap(rs, s, i, k);
    }
  }

  /** The last bound at or before `i`, seen from below. */
  lemma LastAtOrBefore(rs: seq<Range>, indexes: seq<int>, i: int, s: seq<Range>, j: nat)
    requires Valid(rs) && Chain(s) && (forall x :: x in s <==> x in rs) && |indexes| == 2 * |s| && j < |indexes|
    requires forall k :: 0 <= k < |s| ==> Interleaved(indexes, s, k)
    requires indexes[j] <= i && (j < |indexes| - 1 ==> i < indexes[j + 1])
    ensures IsClosest(rs, i, false,
      if j % 2 == 1 && indexes[j] == i then i else if j == |indexes| - 1 then -1 else indexes[j + 1])
  {
    var k := j / 2;
    assert Interleaved(indexes, s, k);
    if j % 2 == 0 || indexes[j] == i {
      ClosestInside(rs, s, i, k);
    } else {
      assert k < |s| - 1 ==> Interleaved(indexes, s, k + 1);
      ClosestInGap(rs, s, i, k + 1);
    }
  }

  method ScanTowardsZero(rs: seq<Range>, indexes: seq<int>, i: int, ghost s: seq<Range>) returns (c: int)
    requires Valid(rs) && s != [] && Chain(s) && (forall x :: x in s <==> x in rs)
    requires forall k :: 0 <= k < |s| ==> Interleaved(indexes, s, k)
    ensures IsClosest(rs, i, true, c)
  {
    assert Interleaved(indexes, s, |s| - 1);
    for j := 0 to |indexes|
      invariant j > 0 ==> indexes[j - 1] < i
    {
      if indexes[j] >= i {
        FirstAtOrPast(rs, indexes, i, s, j);
        if j == 0 {
          return if indexes[j] == i then indexes[j] else -1;
        }
        return if j % 2 == 0 && indexes[j] == i then indexes[j] else indexes[j - 1];
      }
    }
    ClosestInGap(rs, s, i, |s|);
    return indexes[|indexes| - 1];
  }

  method ScanAway(rs: seq<Range>, indexes: seq<int>, i: int, ghost s: seq<Range>) returns (c: int)
    requires Valid(rs) && s != [] && Chain(s) && (forall x :: x in s <==> x in rs)
    requires forall k :: 0 <= k < |s| ==> Interleaved(indexes, s, k)
    ensures IsClosest(rs, i, false, c)
  {
    assert Interleaved(indexes, s, 0);
    for j := |indexes| downto 0
      invariant j < |indexes| ==> i < indexes[j]
    {
      if indexes[j] <= i {
        LastAtOrBefore(rs, indexes, i, s, j);
        if j == |indexes| - 1 {
          return if indexes[j] == i then indexes[j] else -1;
        }
        return if j % 2 == 1 && indexes[j] == i then indexes[j] else indexes[j + 1];
      }
    }
    ClosestInGap(rs, s, i, 0);
    return indexes[0];
  }
}
