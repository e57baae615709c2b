/** sync3/range.go: what changes when a client replaces its ranges, by a sweep over all end points. */
module Delta {
  import opened Common
  import opened Ranges
  import opened Sorting

  datatype Point = Point(x: int, isOld: bool, isOpen: bool)

  datatype Result = Result(added: seq<Range>, removed: seq<Range>, same: seq<Range>)

  /** `z` is a whole range by itself. */
  ghost predicate Single(rs: seq<Range>, z: int) { Range(z, z) in rs }

  /**
   * Exactness as sets of integers. A range of one index that the other side does not cover is lost:
   * it is reported neither as added nor as removed.
   */
  ghost predicate Exact(old_: seq<Range>, next: seq<Range>, d: Result) {
    forall z :: ExactAt(old_, next, d, z)
  }

  ghost predicate ExactAt(old_: seq<Range>, next: seq<Range>, d: Result, z: int) {
    && (Tracked(d.same, z) <==> Tracked(old_, z) && Tracked(next, z))
    && (Tracked(d.added, z) <==> Tracked(next, z) && !Tracked(old_, z) && !Single(next, z))
    && (Tracked(d.removed, z) <==> Tracked(old_, z) && !Tracked(next, z) && !Single(old_, z))
  }

  /** Emitted ranges can be empty by one, as [6,5] is, when two ranges of one side are adjacent. */
  ghost predicate Shaped(rs: seq<Range>) {
    forall r :: r in rs ==> 0 <= r.lo <= r.hi + 1
  }

  ghost predicate AllShaped(d: Result) { Shaped(d.added) && Shaped(d.removed) && Shaped(d.same) }

  // ---- points ----

  function Open(r: Range, isOld: bool): Point { Point(r.lo, isOld, true) }

  function Close(r: Range, isOld: bool): Point { Point(r.hi, isOld, false) }

  function PointsOf(rs: seq<Range>, isOld: bool): seq<Point> {
    if rs == [] then [] else [Open(rs[0], isOld), Close(rs[0], isOld)] + PointsOf(rs[1..], isOld)
  }

  ghost predicate IsPoint(rs: seq<Range>, isOld: bool, q: Point) {
    exists r :: r in rs && (q == Open(r, isOld) || q == Close(r, isOld))
  }

  /** Left to right; at the same place openings before closings, and the old side first. */
  function PointLess(): (Point, Point) -> bool {
    (a: Point, b: Point) =>
      a.x < b.x || (a.x == b.x && ((a.isOpen && !b.isOpen) || (a.isOpen == b.isOpen && a.isOld && !b.isOld)))
  }

  lemma {:induction false} PointsOfExactly(rs: seq<Range>, isOld: bool)
    requires Valid(rs)
    ensures forall q :: q in PointsOf(rs, isOld) <==> IsPoint(rs, isOld, q)
    ensures NoDup(PointsOf(rs, isOld))
  {
    if rs != [] {
      PointsOfExactly(rs[1..], isOld);
      assert forall r :: r in rs <==> r == rs[0] || r in rs[1..];
      forall r | r in rs[1..] ensures Apart(rs[0], r) && r.lo <= r.hi {
        var j :| 0 <= j < |rs[1..]| && rs[1..][j] == r;
        assert rs[j + 1] == r;
      }
      var rest := PointsOf(rs[1..], isOld);
      forall j | 0 <= j < |rest| ensures rest[j] != Open(rs[0], isOld) && rest[j] != Close(rs[0], isOld) {
        assert rest[j] in rest;
      }
    }
  }

  lemma PointLessIsOrder()
    ensures StrictWeakOrder(PointLess())
  {
  }

  /** All end points in sweep order, each once. */
  ghost predicate SweepOrder(old_: seq<Range>, next: seq<Range>, ps: seq<Point>) {
    && Valid(old_) && Valid(next)
    && NoDup(ps) && SortedBy(PointLess(), ps)
    && (forall q :: q in ps <==> IsPoint(old_, true, q) || IsPoint(next, false, q))
  }

  /** Unsorted, the end points of both sides are all there, each once. */
  lemma PointsOfBoth(old_: seq<Range>, next: seq<Range>)
    requires Valid(old_) && Valid(next)
    ensures var all := PointsOf(old_, true) + PointsOf(next, false);
      NoDup(all) && forall q :: q in all <==> IsPoint(old_, true, q) || IsPoint(next, false, q)
  {
    var a, b := PointsOf(old_, true), PointsOf(next, false);
    PointsOfExactly(old_, true);
    PointsOfExactly(next, false);
    forall i, j | 0 <= i < |a| && 0 <= j < |b| ensures a[i] != b[j] {
      assert a[i] in a && b[j] in b;
    }
  }

  lemma SortedPoints(old_: seq<Range>, next: seq<Range>)
    requires Valid(old_) && Valid(next)
    ensures SweepOrder(old_, next, StableSort(PointLess(), PointsOf(old_, true) + PointsOf(next, false)))
  {
    var all := PointsOf(old_, true) + PointsOf(next, false);
    var ps := StableSort(PointLess(), all);
    PointsOfBoth(old_, next);
    SortIsPermutation(PointLess(), all);
    PermutationFacts(ps, all);
    NoDupFromMultiset(all, ps);
    PointLessIsOrder();
    SortSorts(PointLess(), all);
  }

  // ---- which ranges are open during the sweep ----

  /** The points of one side are exactly the ends of its ranges. */
  ghost predicate SideOrder(rs: seq<Range>, isOld: bool, ps: seq<Point>) {
    && Valid(rs) && NoDup(ps) && SortedBy(PointLess(), ps)
    && (forall q: Point :: q.isOld == isOld ==> (q in ps <==> IsPoint(rs, isOld, q)))
  }

  /** Before point `k`, `r` has been opened and not yet closed. */
  ghost predicate Active(rs: seq<Range>, isOld: bool, ps: seq<Point>, k: nat, r: Range)
    requires k <= |ps|
  {
    r in rs && Open(r, isOld) in ps[..k] && Close(r, isOld) in ps[k..]
  }

  ghost predicate SideOpen(rs: seq<Range>, isOld: bool, ps: seq<Point>, k: nat, open: bool)
    requires k <= |ps|
  {
    open <==> exists r :: Active(rs, isOld, ps, k, r)
  }

  lemma Split(ps: seq<Point>, k: nat, q: Point)
    requires NoDup(ps) && SortedBy(PointLess(), ps) && k < |ps|
    ensures q in ps <==> q in ps[..k] || q in ps[k..]
    ensures q in ps[..k + 1] <==> q in ps[..k] || q == ps[k]
    ensures q in ps[k..] <==> q == ps[k] || q in ps[k + 1..]
    ensures q in ps[..k] ==> !PointLess()(ps[k], q) && q != ps[k] && q !in ps[k..]
    ensures q in ps[k..] ==> !PointLess()(q, ps[k])
    ensures q in ps[k + 1..] ==> q != ps[k]
  {
    assert ps == ps[..k] + ps[k..];
    assert ps[..k + 1] == ps[..k] + [ps[k]];
    assert ps[k..] == [ps[k]] + ps[k + 1..];
  }

  lemma RangeEndsPlaced(rs: seq<Range>, isOld: bool, ps: seq<Point>, k: nat, r: Range)
    requires SideOrder(rs, isOld, ps) && k < |ps| && r in rs
    ensures r.lo <= r.hi && Open(r, isOld) in ps && Close(r, isOld) in ps
    ensures Close(r, isOld) in ps[..k] ==> Open(r, isOld) in ps[..k]
  {
    ValidApart(rs, r, r);
    assert IsPoint(rs, isOld, Open(r, isOld)) && IsPoint(rs, isOld, Close(r, isOld));
    var a, b := Open(r, isOld), Close(r, isOld);
    Split(ps, k, a);
    Split(ps, k, b);
    var i :| 0 <= i < |ps| && ps[i] == a;
    var j :| 0 <= j < |ps| && ps[j] == b;
    assert PointLess()(a, b);
    assert i < j;
    if b in ps[..k] {
      assert j < k;
      assert ps[..k][i] == a;
    }
  }

  /** Disjoint ranges cannot be active together. */
  lemma ActiveUnique(rs: seq<Range>, isOld: bool, ps: seq<Point>, k: nat, r: Range, s: Range)
    requires SideOrder(rs, isOld, ps) && k < |ps|
    requires Active(rs, isOld, ps, k, r) && Active(rs, isOld, ps, k, s)
    ensures r == s
  {
    Split(ps, k, Open(r, isOld));
    Split(ps, k, Close(r, isOld));
    Split(ps, k, Open(s, isOld));
    Split(ps, k, Close(s, isOld));
    ValidApart(rs, r, s);
  }

  lemma OpeningStep(rs: seq<Range>, isOld: bool, ps: seq<Point>, k: nat, open: bool)
    requires SideOrder(rs, isOld, ps) && k < |ps| && SideOpen(rs, isOld, ps, k, open)
    requires ps[k].isOld == isOld && ps[k].isOpen
    ensures !open && SideOpen(rs, isOld, ps, k + 1, true)
  {
    assert ps[k] in ps;
    var r :| r in rs && (ps[k] == Open(r, isOld) || ps[k] == Close(r, isOld));
    RangeEndsPlaced(rs, isOld, ps, k, r);
    Split(ps, k, Open(r, isOld));
    Split(ps, k, Close(r, isOld));
    assert Active(rs, isOld, ps, k + 1, r);
    if s :| Active(rs, isOld, ps, k, s) {
      Split(ps, k, Open(s, isOld));
      Split(ps, k, Close(s, isOld));
      ValidApart(rs, r, s);
    }
  }

  /** A closing point ends a range that is active. */
  lemma ClosingRange(rs: seq<Range>, isOld: bool, ps: seq<Point>, k: nat) returns (r: Range)
    requires SideOrder(rs, isOld, ps) && k < |ps| && ps[k].isOld == isOld && !ps[k].isOpen
    ensures Active(rs, isOld, ps, k, r) && ps[k] == Close(r, isOld)
  {
    assert ps[k] in ps;
    r :| r in rs && (ps[k] == Open(r, isOld) || ps[k] == Close(r, isOld));
    RangeEndsPlaced(rs, isOld, ps, k, r);
    Split(ps, k, Open(r, isOld));
    Split(ps, k, Close(r, isOld));
    assert Open(r, isOld) in ps[..k] by {
      assert PointLess()(Open(r, isOld), ps[k]);
    }
  }

  lemma StillActive(rs: seq<Range>, isOld: bool, ps: seq<Point>, k: nat, s: Range)
    requires SideOrder(rs, isOld, ps) && k < |ps| && !ps[k].isOpen && Active(rs, isOld, ps, k + 1, s)
    ensures Active(rs, isOld, ps, k, s) && ps[k] != Close(s, isOld)
  {
    Split(ps, k, Open(s, isOld));
    Split(ps, k, Close(s, isOld));
  }

  lemma ClosingStep(rs: seq<Range>, isOld: bool, ps: seq<Point>, k: nat, open: bool)
    requires SideOrder(rs, isOld, ps) && k < |ps| && SideOpen(rs, isOld, ps, k, open)
    requires ps[k].isOld == isOld && !ps[k].isOpen
    ensures open && SideOpen(rs, isOld, ps, k + 1, false)
    ensures exists r :: Active(rs, isOld, ps, k, r) && r.hi == ps[k].x
  {
    var r := ClosingRange(rs, isOld, ps, k);
    var j := k + 1;
    if s :| Active(rs, isOld, ps, j, s) {
      StillActive(rs, isOld, ps, k, s);
      ActiveUnique(rs, isOld, ps, k, r, s);
    }
  }

  lemma OtherSideStep(rs: seq<Range>, isOld: bool, ps: seq<Point>, k: nat, open: bool)
    requires SideOrder(rs, isOld, ps) && k < |ps| && SideOpen(rs, isOld, ps, k, open)
    requires ps[k].isOld != isOld
    ensures SideOpen(rs, isOld, ps, k + 1, open)
  {
    var j := k + 1;
    forall r ensures Active(rs, isOld, ps, k, r) <==> Active(rs, isOld, ps, j, r) {
      Split(ps, k, Open(r, isOld));
      Split(ps, k, Close(r, isOld));
    }
  }

  /** The integers from the last point to the next one, end points belonging to closed sides only. */
  ghost predicate Between(ps: seq<Point>, k: nat, z: int)
    requires k < |ps|
  {
    && (k > 0 ==> if ps[k - 1].isOpen then ps[k - 1].x <= z else ps[k - 1].x < z)
    && (if ps[k].isOpen then z < ps[k].x else z <= ps[k].x)
  }

  /** Between two points membership is constant: it is whether a range is open. */
  lemma MembershipBetween(rs: seq<Range>, isOld: bool, ps: seq<Point>, k: nat, open: bool, z: int)
    requires SideOrder(rs, isOld, ps) && k < |ps| && SideOpen(rs, isOld, ps, k, open)
    requires Between(ps, k, z)
    ensures Tracked(rs, z) <==> open
  {
    if open {
      var r :| Active(rs, isOld, ps, k, r);
      Split(ps, k, Close(r, isOld));
      LastBounds(ps, k, Open(r, isOld));
      assert In(r, z);
    }
    if r :| r in rs && In(r, z) {
      RangeEndsPlaced(rs, isOld, ps, k, r);
      Split(ps, k, Open(r, isOld));
      Split(ps, k, Close(r, isOld));
      if Close(r, isOld) in ps[..k] {
        LastBounds(ps, k, Close(r, isOld));
      }
      assert Active(rs, isOld, ps, k, r);
    }
  }

  lemma LastBounds(ps: seq<Point>, k: nat, q: Point)
    requires NoDup(ps) && SortedBy(PointLess(), ps) && 0 <= k <= |ps| && q in ps[..k]
    ensures k > 0 && !PointLess()(ps[k - 1], q)
  {
    var i :| 0 <= i < k && ps[i] == q;
  }

  // ---- the sweep ----

  /** The variables of the sweep; `last` and `lastMerged` are the two nullable pointers. */
  datatype Sweep = Sweep(openOld: bool, openNew: bool, last: Option<Point>, lastMerged: Option<Range>, result: Result)

  /** The range closed off by `point`, or nothing when it would have no length. */
  function CreateRange(point: Point, last: Point, lastMerged: Option<Range>): Option<Range> {
    if point.x <= last.x then None
    else
      var start :=
        if lastMerged.Some? && last.x <= lastMerged.value.hi then last.x + 1
        else if !last.isOpen then last.x + 1
        else last.x;
      Some(Range(start, if point.isOpen then point.x - 1 else point.x))
  }

  /** The range the sweep emits on reaching `point`. */
  function Emitted(s: Sweep, point: Point): Option<Range>
    requires s.openOld || s.openNew ==> s.last.Some?
  {
    if s.openNew && s.openOld then Some(Range(s.last.value.x, point.x))
    else if s.openNew || s.openOld then CreateRange(point, s.last.value, s.lastMerged)
    else None
  }

  function Emit(s: Sweep, r: Range): Sweep {
    var d := s.result;
    s.(lastMerged := Some(r), result :=
      if s.openNew && s.openOld then d.(same := d.same + [r])
      else if s.openNew then d.(added := d.added + [r])
      else d.(removed := d.removed + [r]))
  }

  function Advance(s: Sweep, point: Point): Sweep
    requires s.openOld || s.openNew ==> s.last.Some?
  {
    var e := Emitted(s, point);
    var t := if e.Some? then Emit(s, e.value) else s;
    t.(last := Some(point),
       openOld := if point.isOld then point.isOpen else s.openOld,
       openNew := if point.isOld then s.openNew else point.isOpen)
  }

  /** Integers the sweep has dealt with before point `k`. */
  ghost predicate Passed(ps: seq<Point>, k: nat, z: int)
    requires k <= |ps|
  {
    k > 0 && (z < ps[k - 1].x || (z == ps[k - 1].x && !ps[k - 1].isOpen))
  }

  ghost predicate Covered(old_: seq<Range>, next: seq<Range>, ps: seq<Point>, k: nat, d: Result, z: int)
    requires k <= |ps|
  {
    && (Tracked(d.same, z) <==> Passed(ps, k, z) && Tracked(old_, z) && Tracked(next, z))
    && (Tracked(d.added, z) <==> Passed(ps, k, z) && Tracked(next, z) && !Tracked(old_, z) && !Single(next, z))
    && (Tracked(d.removed, z) <==> Passed(ps, k, z) && Tracked(old_, z) && !Tracked(next, z) && !Single(old_, z))
  }

  ghost predicate Inv(old_: seq<Range>, next: seq<Range>, ps: seq<Point>, k: nat, s: Sweep) {
    && k <= |ps|
    && SideOpen(old_, true, ps, k, s.openOld) && SideOpen(next, false, ps, k, s.openNew)
    && s.last == (if k == 0 then None else Some(ps[k - 1]))
    && (s.openOld || s.openNew ==> s.last.Some?)
    && (s.last.Some? ==> s.last.value.isOpen == if s.last.value.isOld then s.openOld else s.openNew)
    && (s.lastMerged.Some? ==> s.last.Some? && s.lastMerged.value.hi <= s.last.value.x)
    && (s.lastMerged.Some? && s.last.value.isOpen ==> s.lastMerged.value.hi < s.last.value.x)
    && CoveredAll(old_, next, ps, k, s.result)
  }

  ghost predicate CoveredAll(old_: seq<Range>, next: seq<Range>, ps: seq<Point>, k: nat, d: Result)
    requires k <= |ps|
  {
    forall z :: Covered(old_, next, ps, k, d, z)
  }

  lemma TrackedAppend(rs: seq<Range>, r: Range, z: int)
    ensures Tracked(rs + [r], z) <==> Tracked(rs, z) || In(r, z)
  {
    if r' :| r' in rs && In(r', z) {
      assert r' in rs + [r];
    }
    assert r in rs + [r];
  }

  /** The only open side has lost a range exactly when both points are the ends of a single-index range. */
  lemma SingleBetween(rs: seq<Range>, isOld: bool, ps: seq<Point>, k: nat, z: int)
    requires SideOrder(rs, isOld, ps) && 0 < k < |ps| && SideOpen(rs, isOld, ps, k, true) && Between(ps, k, z)
    requires ps[k].x == ps[k - 1].x ==> ps[k - 1] == Point(z, isOld, true) && ps[k] == Point(z, isOld, false)
    ensures Single(rs, z) <==> ps[k].x == ps[k - 1].x
  {
    var r :| Active(rs, isOld, ps, k, r);
    Split(ps, k, Close(r, isOld));
    LastBounds(ps, k, Open(r, isOld));
    assert In(r, z);
    ValidApart(rs, r, r);
    if Single(rs, z) {
      ValidApart(rs, r, Range(z, z));
    }
    if ps[k].x == ps[k - 1].x {
      SingleEnds(rs, isOld, ps, k, z, r);
    }
  }

  lemma SingleEnds(rs: seq<Range>, isOld: bool, ps: seq<Point>, k: nat, z: int, r: Range)
    requires SideOrder(rs, isOld, ps) && 0 < k < |ps| && Active(rs, isOld, ps, k, r) && In(r, z)
    requires ps[k - 1] == Point(z, isOld, true) && ps[k] == Point(z, isOld, false)
    ensures r == Range(z, z)
  {
    assert SideOpen(rs, isOld, ps, k, true);
    ClosingStep(rs, isOld, ps, k, true);
    var r' :| Active(rs, isOld, ps, k, r') && r'.hi == ps[k].x;
    ActiveUnique(rs, isOld, ps, k, r, r');
    assert ps[k - 1] in ps;
    var o :| o in rs && (ps[k - 1] == Open(o, isOld) || ps[k - 1] == Close(o, isOld));
    ValidApart(rs, r, o);
  }

  lemma PassedStep(ps: seq<Point>, k: nat, z: int)
    requires NoDup(ps) && SortedBy(PointLess(), ps) && k < |ps|
    ensures Passed(ps, k + 1, z) <==> Passed(ps, k, z) || Between(ps, k, z)
    ensures !(Passed(ps, k, z) && Between(ps, k, z))
  {
    assert k > 0 ==> !PointLess()(ps[k], ps[k - 1]);
  }

  ghost predicate Sound(old_: seq<Range>, next: seq<Range>, ps: seq<Point>, k: nat, s: Sweep) {
    && SideOrder(old_, true, ps) && SideOrder(next, false, ps) && k < |ps| && Inv(old_, next, ps, k, s)
  }

  /** What the sweep emits is the stretch since the last point, if that has more than one index or is shared. */
  lemma EmittedStretch(old_: seq<Range>, next: seq<Range>, ps: seq<Point>, k: nat, s: Sweep, z: int)
    requires Sound(old_, next, ps, k, s) && (s.openOld || s.openNew)
    ensures var e := Emitted(s, ps[k]);
      && (e.Some? ==> (In(e.value, z) <==> Between(ps, k, z)))
      && (s.openOld && s.openNew ==> e.Some?)
      && (!(s.openOld && s.openNew) && Between(ps, k, z) ==>
          && (ps[k].x == ps[k - 1].x ==> ps[k - 1] == Point(z, s.openOld, true) && ps[k] == Point(z, s.openOld, false))
          && (e.None? <==> ps[k].x == ps[k - 1].x))
  {
    var p, last := ps[k], ps[k - 1];
    assert !PointLess()(p, last);
    if p.isOld {
      if p.isOpen { OpeningStep(old_, true, ps, k, s.openOld); } else { ClosingStep(old_, true, ps, k, s.openOld); }
    } else {
      if p.isOpen { OpeningStep(next, false, ps, k, s.openNew); } else { ClosingStep(next, false, ps, k, s.openNew); }
    }
  }

  lemma StepCovers(old_: seq<Range>, next: seq<Range>, ps: seq<Point>, k: nat, s: Sweep, z: int)
    requires Sound(old_, next, ps, k, s)
    ensures Covered(old_, next, ps, k + 1, Advance(s, ps[k]).result, z)
  {
    assert Covered(old_, next, ps, k, s.result, z);
    PassedStep(ps, k, z);
    var d, e := s.result, Emitted(s, ps[k]);
    if e.Some? {
      TrackedAppend(d.same, e.value, z);
      TrackedAppend(d.added, e.value, z);
      TrackedAppend(d.removed, e.value, z);
    }
    if s.openOld || s.openNew {
      EmittedStretch(old_, next, ps, k, s, z);
    }
    if Between(ps, k, z) {
      MembershipBetween(old_, true, ps, k, s.openOld, z);
      MembershipBetween(next, false, ps, k, s.openNew, z);
      if s.openOld && !s.openNew {
        SingleBetween(old_, true, ps, k, z);
      } else if s.openNew && !s.openOld {
        SingleBetween(next, false, ps, k, z);
      }
    }
  }

  lemma StepCoversAll(old_: seq<Range>, next: seq<Range>, ps: seq<Point>, k: nat, s: Sweep)
    requires Sound(old_, next, ps, k, s)
    ensures CoveredAll(old_, next, ps, k + 1, Advance(s, ps[k]).result)
  {
    var j, d := k + 1, Advance(s, ps[k]).result;
    forall z ensures Covered(old_, next, ps, j, d, z) {
      StepCovers(old_, next, ps, k, s, z);
    }
  }

  lemma PointNonNegative(old_: seq<Range>, next: seq<Range>, ps: seq<Point>, p: Point)
    requires SideOrder(old_, true, ps) && SideOrder(next, false, ps) && p in ps
    ensures 0 <= p.x
  {
    var rs := if p.isOld then old_ else next;
    var r :| r in rs && (p == Open(r, p.isOld) || p == Close(r, p.isOld));
    ValidApart(rs, r, r);
  }

  lemma StepShaped(old_: seq<Range>, next: seq<Range>, ps: seq<Point>, k: nat, s: Sweep)
    requires Sound(old_, next, ps, k, s) && AllShaped(s.result)
    ensures AllShaped(Advance(s, ps[k]).result)
  {
    if k > 0 {
      assert !PointLess()(ps[k], ps[k - 1]);
      PointNonNegative(old_, next, ps, ps[k - 1]);
    }
    var e := Emitted(s, ps[k]);
    assert e.Some? ==> 0 <= e.value.lo <= e.value.hi + 1;
  }

  /** No point opens an open side or closes a closed one. */
  lemma StepSides(old_: seq<Range>, next: seq<Range>, ps: seq<Point>, k: nat, s: Sweep)
    requires Sound(old_, next, ps, k, s)
    ensures ps[k].isOpen <==> if ps[k].isOld then !s.openOld else !s.openNew
    ensures var t, j := Advance(s, ps[k]), k + 1;
      SideOpen(old_, true, ps, j, t.openOld) && SideOpen(next, false, ps, j, t.openNew)
  {
    var p := ps[k];
    if p.isOld {
      if p.isOpen { OpeningStep(old_, true, ps, k, s.openOld); } else { ClosingStep(old_, true, ps, k, s.openOld); }
      OtherSideStep(next, false, ps, k, s.openNew);
    } else {
      if p.isOpen { OpeningStep(next, false, ps, k, s.openNew); } else { ClosingStep(next, false, ps, k, s.openNew); }
      OtherSideStep(old_, true, ps, k, s.openOld);
    }
  }

  /** The last merged range stays behind the sweep. */
  lemma StepBehind(old_: seq<Range>, next: seq<Range>, ps: seq<Point>, k: nat, s: Sweep)
    requires Sound(old_, next, ps, k, s)
    requires ps[k].isOpen <==> if ps[k].isOld then !s.openOld else !s.openNew
    ensures var t := Advance(s, ps[k]);
      && s.last != Some(ps[k])
      && (t.lastMerged.Some? ==> t.lastMerged.value.hi <= ps[k].x)
      && (t.lastMerged.Some? && ps[k].isOpen ==> t.lastMerged.value.hi < ps[k].x)
  {
    assert k > 0 ==> !PointLess()(ps[k], ps[k - 1]);
  }

  /** Every step keeps the invariant. */
  lemma StepKeepsInv(old_: seq<Range>, next: seq<Range>, ps: seq<Point>, k: nat, s: Sweep)
    requires Sound(old_, next, ps, k, s)
    ensures ps[k].isOpen <==> if ps[k].isOld then !s.openOld else !s.openNew
    ensures Inv(old_, next, ps, k + 1, Advance(s, ps[k]))
    ensures s.last != Some(ps[k])
  {
    StepSides(old_, next, ps, k, s);
    StepBehind(old_, next, ps, k, s);
    StepCoversAll(old_, next, ps, k, s);
  }

  lemma FinishedExact(old_: seq<Range>, next: seq<Range>, ps: seq<Point>, s: Sweep)
    requires SideOrder(old_, true, ps) && SideOrder(next, false, ps) && Inv(old_, next, ps, |ps|, s)
    ensures Exact(old_, next, s.result)
  {
    forall z ensures ExactAt(old_, next, s.result, z) {
      assert Covered(old_, next, ps, |ps|, s.result, z);
      if r :| r in old_ && In(r, z) {
        ClosedAtEnd(old_, true, ps, r, z);
      }
      if r :| r in next && In(r, z) {
        ClosedAtEnd(next, false, ps, r, z);
      }
    }
  }

  lemma ClosedAtEnd(rs: seq<Range>, isOld: bool, ps: seq<Point>, r: Range, z: int)
    requires SideOrder(rs, isOld, ps) && r in rs && In(r, z)
    ensures Passed(ps, |ps|, z)
  {
    var c := Close(r, isOld);
    assert IsPoint(rs, isOld, c);
    assert ps[..|ps|] == ps;
    LastBounds(ps, |ps|, c);
  }

  lemma {:induction false} PointsAppend(rs: seq<Range>, r: Range, isOld: bool)
    ensures PointsOf(rs + [r], isOld) == PointsOf(rs, isOld) + [Open(r, isOld), Close(r, isOld)]
  {
    if rs == [] {
      assert rs + [r] == [r];
    } else {
      PointsAppend(rs[1..], r, isOld);
      assert (rs + [r])[1..] == rs[1..] + [r];
    }
  }

  method CollectPoints(rs: seq<Range>, isOld: bool) returns (points: seq<Point>)
    ensures points == PointsOf(rs, isOld)
  {
    points := [];
    for k := 0 to |rs|
      invariant points == PointsOf(rs[..k], isOld)
    {
      PointsAppend(rs[..k], rs[k], isOld);
      assert rs[..k + 1] == rs[..k] + [rs[k]];
      points := points + [Point(rs[k].lo, isOld, true)];
      points := points + [Point(rs[k].hi, isOld, false)];
    }
    assert rs[..|rs|] == rs;
  }

  lemma SameIsExact(rs: seq<Range>)
    ensures Exact(rs, rs, Result([], [], rs))
  {
    forall z ensures ExactAt(rs, rs, Result([], [], rs), z) {
    }
  }

  /** One point of the sweep. `None` is the panic on a side opened or closed twice. */
  method SweepPoint(s: Sweep, point: Point) returns (t: Option<Sweep>)
    requires s.openOld || s.openNew ==> s.last.Some?
    ensures s.last == Some(point) ==> t == Some(s)
    ensures s.last != Some(point) ==>
      t == if point.isOpen == (if point.isOld then s.openOld else s.openNew) then None else Some(Advance(s, point))
  {
    var Sweep(openOld, openNew, last, lastMerged, Result(added, removed, same)) := s;
    if last == Some(point) {
      return Some(s);
    }
    if openNew && openOld {
      same := same + [Range(last.value.x, point.x)];
      lastMerged := Some(same[|same| - 1]);
    } else if openNew {
      var merged := CreateRange(point, last.value, lastMerged);
      if merged.Some? {
        added := added + [merged.value];
        lastMerged := Some(added[|added| - 1]);
      }
    } else if openOld {
      var merged := CreateRange(point, last.value, lastMerged);
      if merged.Some? {
        removed := removed + [merged.value];
        lastMerged := Some(removed[|removed| - 1]);
      }
    }
    if point.isOpen {
      if (point.isOld && openOld) || (!point.isOld && openNew) {
        return None;
      }
      if point.isOld {
        openOld := true;
      } else {
        openNew := true;
      }
    } else {
      if (point.isOld && !openOld) || (!point.isOld && !openNew) {
        return None;
      }
      if point.isOld {
        openOld := false;
      } else {
        openNew := false;
      }
    }
    last := Some(point);
    return Some(Sweep(openOld, openNew, last, lastMerged, Result(added, removed, same)));
  }

  /** The sweep is at point `k`, or has finished. */
  ghost predicate Swept(old_: seq<Range>, next: seq<Range>, ps: seq<Point>, k: nat, s: Sweep) {
    && SideOrder(old_, true, ps) && SideOrder(next, false, ps)
    && Inv(old_, next, ps, k, s) && AllShaped(s.result)
  }

  lemma SweptStep(old_: seq<Range>, next: seq<Range>, ps: seq<Point>, k: nat, s: Sweep)
    requires Swept(old_, next, ps, k, s) && k < |ps|
    ensures s.openOld || s.openNew ==> s.last.Some?
    ensures s.last != Some(ps[k]) && ps[k].isOpen != (if ps[k].isOld then s.openOld else s.openNew)
    ensures Swept(old_, next, ps, k + 1, Advance(s, ps[k]))
  {
    StepKeepsInv(old_, next, ps, k, s);
    StepShaped(old_, next, ps, k, s);
  }

  const START := Sweep(false, false, None, None, Result([], [], []))

  lemma Start(old_: seq<Range>, next: seq<Range>, ps: seq<Point>)
    requires Valid(old_) && Valid(next)
    requires ps == StableSort(PointLess(), PointsOf(old_, true) + PointsOf(next, false))
    ensures Swept(old_, next, ps, 0, START)
  {
    SortedPoints(old_, next);
  }

  method SweepAll(ghost old_: seq<Range>, ghost next: seq<Range>, points: seq<Point>) returns (r: Option<Result>)
    requires Swept(old_, next, points, 0, START)
    ensures r.Some? && exists s :: Swept(old_, next, points, |points|, s) && s.result == r.value
  {
    var s := START;
    for i := 0 to |points|
      invariant Swept(old_, next, points, i, s)
    {
      SweptStep(old_, next, points, i, s);
      var t := SweepPoint(s, points[i]);
      if t.None? {
        return None;
      }
      s := t.value;
    }
    return Some(s.result);
  }

  /** The sweep over all end points: it never panics and is exact. */
  method ComputeDelta(old_: seq<Range>, next: seq<Range>) returns (r: Option<Result>)
    requires Valid(old_) && Valid(next)
    ensures r.Some? && Exact(old_, next, r.value) && AllShaped(r.value)
  {
    if old_ == next {
      SameIsExact(next);
      assert forall x :: x in next ==> 0 <= x.lo <= x.hi;
      return Some(Result([], [], next));
    }
    var points := CollectPoints(old_, true);
    var more := CollectPoints(next, false);
    points := StableSort(PointLess(), points + more);
    Start(old_, next, points);
    r := SweepAll(old_, next, points);
    ghost var s :| Swept(old_, next, points, |points|, s) && s.result == r.value;
    FinishedExact(old_, next, points, s);
  }

  lemma SingleIsTracked(rs: seq<Range>, z: int)
    requires Single(rs, z)
    ensures Tracked(rs, z)
  {
    assert In(Range(z, z), z);
  }

  /** The sweep misses nothing exactly when every single-index range is covered by the other side. */
  lemma NothingLostExactly(old_: seq<Range>, next: seq<Range>, d: Result)
    requires Exact(old_, next, d)
    ensures (forall z :: Tracked(d.added, z) <==> Tracked(next, z) && !Tracked(old_, z))
      <==> forall z :: Single(next, z) ==> Tracked(old_, z)
    ensures (forall z :: Tracked(d.removed, z) <==> Tracked(old_, z) && !Tracked(next, z))
      <==> forall z :: Single(old_, z) ==> Tracked(next, z)
  {
    forall z
      ensures (Tracked(d.added, z) <==> Tracked(next, z) && !Tracked(old_, z)) <==>
        (Single(next, z) ==> Tracked(old_, z))
    {
      assert ExactAt(old_, next, d, z);
      if Single(next, z) { SingleIsTracked(next, z); }
    }
    forall z
      ensures (Tracked(d.removed, z) <==> Tracked(old_, z) && !Tracked(next, z)) <==>
        (Single(old_, z) ==> Tracked(next, z))
    {
      assert ExactAt(old_, next, d, z);
      if Single(old_, z) { SingleIsTracked(old_, z); }
    }
  }
}
