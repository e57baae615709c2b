/**
 * The DELETE that a Del leaves open, and the updates that follow it in the same response: the client
 * deletes the next operation's index before it closes the earlier gap.
 */
module OpenGap {
  import opened Common
  import opened Ranges
  import opened MoveIndexes
  import opened RoomOrder
  import opened ListClient
  import opened ListOps
  import opened Replica

  // ---- when a gap stays open ----

  /** The gap a Del of index `from` leaves open in a list of `n` rooms, or -1: the last operation is a DELETE. */
  ghost function DelGap(rs: seq<Range>, n: nat, from: int): int {
    if n <= 1 then 0
    else
      match Inside(rs, n - 2)
      case None => -1
      case Some(r) =>
        if Tracked(rs, n - 1) && (In(r, from) || !exists q :: q in rs && JumpedOver(q, from, n - 2)) then Clamp(r, from)
        else -1
  }

  lemma {:induction false} MovedGap(rs: seq<Range>, u: Update, moved: seq<Range>, single: bool, gap: int)
    requires PairsOutcome(rs, u, ClampAll(moved, u.from, u.to), single).Done? && moved != []
    requires forall r :: r in moved ==> Tracked(rs, PairOf(u, r).0) && 0 <= PairOf(u, r).0
    requires forall r :: r in moved ==> 0 <= PairOf(u, r).1 < |u.list| && !IsNoOp(u, PairOf(u, r), single)
    ensures var last := moved[|moved| - 1];
      GapAfter(gap, PairsOutcome(rs, u, ClampAll(moved, u.from, u.to), single).ops) ==
      if IsLone(rs, u, last) then PairOf(u, last).0 else -1
    decreases moved
  {
    var r, rest := moved[0], moved[1..];
    assert r in moved;
    var here := PairOps(rs, u, PairOf(u, r), single);
    assert ClampAll(moved, u.from, u.to)[1..] == ClampAll(rest, u.from, u.to);
    var o := PairsOutcome(rs, u, ClampAll(rest, u.from, u.to), single);
    GapAfterAppend(gap, here, o.ops);
    if rest == [] {
      assert here + [] == here;
      GapOfPair(gap, here);
    } else {
      assert forall q :: q in rest ==> q in moved;
      MovedGap(rs, u, rest, single, GapAfter(gap, here));
    }
  }

  lemma GapOfPair(gap: int, ops: seq<Op>)
    ensures |ops| == 1 && ops[0].Delete? ==> GapAfter(gap, ops) == ops[0].index
    ensures |ops| == 2 && ops[0].Delete? && ops[1].Insert? ==> GapAfter(gap, ops) == -1
  {
    if |ops| == 2 && ops[0].Delete? && ops[1].Insert? {
      assert ops[1..][1..] == [];
      assert GapAfter(ops[0].index, ops[1..]) == GapAfter(-1, []);
    }
  }

  /** A DELETE goes out alone exactly for the range of the last index but one, if the last one is tracked. */
  lemma LoneExactly(rs: seq<Range>, list: seq<RoomId>, u: Update, r: Range)
    requires Valid(rs) && IsRemoval(rs, list, u) && !Overruns(rs, list, u.from)
    requires r in rs && Meets(r, u.from, u.to)
    ensures IsLone(rs, u, r) <==> In(r, |list| - 2) && Tracked(rs, |list| - 1)
  {
    var p := PairOf(u, r);
    RemovalReady(rs, list, u, r);
    assert u.list[p.1] != u.room;
    assert Inside(rs, |u.list|).Some? <==> Tracked(rs, |u.list|);
  }

  lemma LastOf(a: seq<Range>, b: seq<Range>)
    requires a + b != []
    ensures (a + b)[|a + b| - 1] == if b != [] then b[|b| - 1] else a[|a| - 1]
  {
  }

  lemma LastReported(rs: seq<Range>, from: int, to: int, moved: seq<Range>, jumped: seq<Range>)
    requires moved == MovedRanges(rs, from, to) && jumped == Jumped(rs, from, to) && moved != []
    requires Inside(rs, from).None? || Inside(rs, from) != Inside(rs, to)
    ensures jumped != [] ==> moved[|moved| - 1] == jumped[|jumped| - 1]
    ensures jumped == [] && Inside(rs, to).Some? ==> moved[|moved| - 1] == Inside(rs, to).value
    ensures jumped == [] && Inside(rs, to).None? ==> Inside(rs, from) == Some(moved[|moved| - 1])
  {
    var ends := Ends(rs, from, to);
    MovedParts(rs, from, to);
    LastOf(ends, jumped);
    assert Inside(rs, to).Some? ==> ends[|ends| - 1] == Inside(rs, to).value;
  }

  /** `last` has the end of the move exactly if its range also has the start, or no range lies between. */
  ghost predicate LastRight(rs: seq<Range>, from: int, to: int, last: Range) {
    && (In(last, to) <==>
        Inside(rs, to).Some? && (In(Inside(rs, to).value, from) || !exists q :: q in rs && JumpedOver(q, from, to)))
    && (In(last, to) ==> Inside(rs, to) == Some(last))
  }

  /** Ends of a move that are not in one range are not both in any. */
  lemma EndsApart(rs: seq<Range>, from: int, to: int)
    requires Valid(rs) && (Inside(rs, from).None? || Inside(rs, from) != Inside(rs, to))
    ensures Inside(rs, to).Some? ==> !In(Inside(rs, to).value, from)
    ensures Inside(rs, from).Some? ==> !In(Inside(rs, from).value, to)
  {
    if Inside(rs, to).Some? && In(Inside(rs, to).value, from) {
      InsideUnique(rs, Inside(rs, to).value, from);
    }
    if Inside(rs, from).Some? && In(Inside(rs, from).value, to) {
      InsideUnique(rs, Inside(rs, from).value, to);
    }
  }

  lemma LastApart(rs: seq<Range>, from: int, to: int, last: Range)
    requires Valid(rs) && (Inside(rs, from).None? || Inside(rs, from) != Inside(rs, to))
    requires var jumped := Jumped(rs, from, to);
      if jumped != [] then last in jumped
      else if Inside(rs, to).Some? then last == Inside(rs, to).value
      else Inside(rs, from) == Some(last)
    ensures LastRight(rs, from, to, last)
  {
    JumpedExact(rs, from, to);
    EndsApart(rs, from, to);
    if Jumped(rs, from, to) != [] {
      assert Jumped(rs, from, to)[0] in Jumped(rs, from, to);
    }
  }

  /** The range reported last: the only one, or one jumped over if there is any. */
  lemma LastMovedRange(rs: seq<Range>, from: int, to: int, moved: seq<Range>)
    requires Valid(rs) && moved == MovedRanges(rs, from, to) && moved != []
    ensures LastRight(rs, from, to, moved[|moved| - 1])
  {
    if Inside(rs, from).Some? && Inside(rs, from) == Inside(rs, to) {
      MovedInside(rs, from, to);
    } else {
      LastReported(rs, from, to, moved, Jumped(rs, from, to));
      LastApart(rs, from, to, moved[|moved| - 1]);
    }
  }

  lemma LastMoved(rs: seq<Range>, list: seq<RoomId>, u: Update)
    requires Valid(rs) && IsRemoval(rs, list, u) && !Overruns(rs, list, u.from)
    requires MovedRanges(rs, u.from, u.to) != []
    ensures var moved := MovedRanges(rs, u.from, u.to);
      var last := moved[|moved| - 1];
      DelGap(rs, |list|, u.from) == if IsLone(rs, u, last) then PairOf(u, last).0 else -1
  {
    var moved := MovedRanges(rs, u.from, u.to);
    MovedRangesExact(rs, u.from, u.to);
    LastMovedRange(rs, u.from, u.to, moved);
    assert moved[|moved| - 1] in moved;
    LoneExactly(rs, list, u, moved[|moved| - 1]);
  }

  lemma RemovalGap(rs: seq<Range>, list: seq<RoomId>, u: Update, gap: int)
    requires Valid(rs) && IsRemoval(rs, list, u) && !Overruns(rs, list, u.from) && UpdateOutcome(rs, u).Done?
    ensures var ops := UpdateOutcome(rs, u).ops;
      GapAfter(gap, ops) == if ops == [] then gap else DelGap(rs, |list|, u.from)
  {
    var moved := MovedRanges(rs, u.from, u.to);
    ClampAllLength(moved, u.from, u.to);
    if moved != [] {
      MovedRangesExact(rs, u.from, u.to);
      LastMoved(rs, list, u);
      forall r | r in moved
        ensures Tracked(rs, PairOf(u, r).0) && 0 <= PairOf(u, r).0 && Ready(rs, u, list, |list|, |moved| == 1, r)
      {
        RemovalReady(rs, list, u, r);
        ValidApart(rs, r, r);
      }
      MovedGap(rs, u, moved, |moved| == 1, gap);
    }
  }

  /**
   * A Del leaves a gap open exactly when it sends a lone DELETE last: the last two indexes are tracked, and no
   * range lies between the removed index and the range of the last index but one.
   */
  lemma DelLeavesGap(rs: seq<Range>, list: seq<RoomId>, room: RoomId, keys: seq<SortKey>, finder: Finder, gap: int)
    requires Valid(rs) && NoDup(list) && room in list && !DelFails(rs, list, room)
    ensures var o := ServerOps(rs, list, Del, room, keys, finder);
      o.Done? && GapAfter(gap, o.ops) == if o.ops == [] then gap else DelGap(rs, |list|, IndexIn(list, room))
  {
    if |list| == 1 {
      assert [Delete(0)][1..] == [];
    } else {
      RemovalUpdate(rs, list, room, keys, finder);
      DelFailsExactly(rs, list, room, keys, finder);
      RemovalGap(rs, list, UpdateOf(rs, list, Del, room, ListAfter(list, Del, room, keys, finder)), gap);
    }
  }

  // ---- the client with a gap open ----

  /** A shift over a tracked index does not read what stands there. */
  lemma ShiftedOver(rs: seq<Range>, m: Slots, x: int, g: int)
    requires g < x && Tracked(rs, g)
    ensures ShiftedLeft(rs, m, x, g) == ShiftedLeft(rs, m - {g}, x, g)
  {
  }

  /** Whatever stands at the index of a gap does not matter: closing the gap overwrites it. */
  lemma SlotInGap(rs: seq<Range>, m: Slots, g: int)
    requires 0 <= g && Tracked(rs, g)
    ensures WithoutEntry(rs, m, g) == WithoutEntry(rs, m - {g}, g)
  {
    var x := MaxKey(m);
    if g < x {
      SameMax(m, g);
      ShiftedOver(rs, m, x, g);
    } else if g == x {
      MaxDropped(m, g);
      assert ShiftedLeft(rs, m, x, g) - {x} == m - {g};
    } else {
      assert m - {g} == m;
    }
  }

  /** Nor does it for an INSERT into the same range. */
  lemma SlotBeforeInsert(rs: seq<Range>, m: Slots, r: Range, f: int, t: int, x: RoomId)
    requires r in rs && In(r, f) && In(r, t) && 0 <= f && (t == f || At(m, t).Some?)
    ensures Step(rs, State(m, f), Insert(t, x)) == Step(rs, State(m - {f}, f), Insert(t, x))
  {
    assert forall i :: In(r, i) ==> Tracked(rs, i);
    if f > t {
      assert ShiftedRight(rs, m, f, t) == ShiftedRight(rs, m - {f}, f, t);
    } else if f < t {
      assert ShiftedLeft(rs, m, t, f) == ShiftedLeft(rs, m - {f}, t, f);
    }
  }

  /** The slots once the client has met a DELETE at `f` with a gap at `g` open. */
  ghost function Met(rs: seq<Range>, m: Slots, g: int, f: int): Slots { WithoutEntry(rs, m - {f}, g) }

  /** What an update's operations look like after their first DELETE. */
  ghost predicate Continues(rs: seq<Range>, m: Slots, r: Range, f: int, more: seq<Op>) {
    more == [] || more[0].Delete? ||
    (more[0].Insert? && In(r, more[0].index) && (more[0].index == f || At(m, more[0].index).Some?))
  }

  /** From its first DELETE on, an update is replayed as by a client with those slots and no gap. */
  lemma AsIfClosed(rs: seq<Range>, m: Slots, g: int, r: Range, f: int, more: seq<Op>)
    requires 0 <= g && r in rs && In(r, f) && 0 <= f && Null !in more
    requires Continues(rs, Met(rs, m, g, f), r, f, more)
    ensures var w := Met(rs, m, g, f);
      Closed(rs, Steps(rs, State(m, g), [Delete(f)] + more)) == Closed(rs, Steps(rs, State(w, -1), [Delete(f)] + more))
  {
    var w := Met(rs, m, g, f);
    var ops := [Delete(f)] + more;
    assert ops[1..] == more && Tracked(rs, f);
    assert Step(rs, State(m, g), Delete(f)) == State(w, f);
    assert Step(rs, State(w, -1), Delete(f)) == State(w - {f}, f);
    if more == [] {
      SlotInGap(rs, w, f);
    } else if more[0].Delete? {
      var k := more[0].index;
      SlotInGap(rs, w - {k}, f);
      assert (w - {k}) - {f} == (w - {f}) - {k};
    } else {
      SlotBeforeInsert(rs, w, r, f, more[0].index, more[0].room);
    }
  }

  /** A DELETE at or below the gap does what it would with the gap closed, but for the slot it empties. */
  lemma MetBelow(rs: seq<Range>, m: Slots, g: int, f: int, j: int)
    requires 0 <= f <= g && Tracked(rs, g) && j != f
    ensures At(Met(rs, m, g, f), j) == At(WithoutEntry(rs, m, g), j)
  {
    if f < g {
      CloseWithout(rs, m, g, f);
    } else {
      SlotInGap(rs, m, g);
    }
  }

  /** A closed gap, slot by slot. */
  lemma ClosedAt(rs: seq<Range>, m: Slots, g: int, j: int)
    requires 0 <= g
    ensures var x := MaxKey(m);
      At(WithoutEntry(rs, m, g), j) ==
      if g > x then At(m, j)
      else if j == x then None
      else if g <= j < x && Tracked(rs, j) then At(m, j + 1)
      else At(m, j)
  {
  }

  /** A DELETE above the gap empties the slot below it instead, and nothing else. */
  lemma MetAbove(rs: seq<Range>, m: Slots, g: int, f: int, j: int)
    requires 0 <= g < f <= MaxKey(m) && forall i :: g <= i <= f ==> Tracked(rs, i)
    ensures At(Met(rs, m, g, f), j) == if j == f - 1 then None else At(WithoutEntry(rs, m, g), j)
  {
    ClosedAt(rs, m, g, j);
    ClosedAt(rs, m - {f}, g, j);
    if f < MaxKey(m) {
      SameMax(m, f);
    } else {
      MaxDropped(m, f);
    }
  }

  lemma SameMax(m: Slots, f: int)
    requires f < MaxKey(m)
    ensures MaxKey(m - {f}) == MaxKey(m)
  {
    assert MaxKey(m) in m ==> MaxKey(m) in m - {f};
    assert forall k :: k in m - {f} ==> k in m;
  }

  lemma MaxDropped(m: Slots, f: int)
    requires 0 <= f == MaxKey(m)
    ensures MaxKey(m - {f}) < f && forall k :: k in m && k != f ==> k <= MaxKey(m - {f})
  {
    assert forall k :: k in m - {f} ==> k in m;
    assert forall k :: k in m && k != f ==> k in m - {f};
  }

  // ---- the next update ----

  /**
   * Where a gap can be open in a list of `n` rooms: at a tracked index, and if that is below `n` then in the
   * range of the last room, with the index after it tracked as well.
   */
  ghost predicate OpenAt(rs: seq<Range>, g: int, n: nat) {
    && 0 <= g && Tracked(rs, g)
    && (g < n ==> Tracked(rs, n) && exists r :: r in rs && In(r, g) && In(r, n - 1))
  }

  /** Server and client between two updates of one response. */
  ghost predicate InSync(rs: seq<Range>, st: State, list: seq<RoomId>) {
    && Agrees(rs, Closed(rs, st), list)
    && (st.gap == -1 || OpenAt(rs, st.gap, |list|))
  }

  /** The indexes an update of a list of `n` rooms moves a room between. */
  ghost predicate Within(u: Update, n: nat) {
    0 <= u.from <= n && 0 <= u.to <= n && (u.to == n ==> u.from == n)
  }

  lemma AllTracked(rs: seq<Range>, g: int, n: nat, i: int)
    requires OpenAt(rs, g, n) && g <= i <= n
    ensures Tracked(rs, i)
  {
    if g < n {
      var r :| r in rs && In(r, g) && In(r, n - 1);
      assert i < n ==> In(r, i);
    }
  }

  /** An update of a room not above the gap sends its first DELETE not above the gap. */
  lemma FirstBelow(rs: seq<Range>, g: int, n: nat, u: Update)
    requires Valid(rs) && OpenAt(rs, g, n) && Within(u, n) && u.from <= g
    requires MovedRanges(rs, u.from, u.to) != []
    ensures 0 <= PairOf(u, MovedRanges(rs, u.from, u.to)[0]).0 <= g
  {
    var moved := MovedRanges(rs, u.from, u.to);
    MovedRangesExact(rs, u.from, u.to);
    assert moved[0] in moved;
    if Inside(rs, u.from).Some? {
      FirstReported(rs, u.from, u.to);
    }
    MeetsBelow(rs, g, n, u, moved[0]);
  }

  lemma FirstReported(rs: seq<Range>, from: int, to: int)
    requires Inside(rs, from).Some?
    ensures MovedRanges(rs, from, to) != [] && MovedRanges(rs, from, to)[0] == Inside(rs, from).value
  {
  }

  lemma MeetsBelow(rs: seq<Range>, g: int, n: nat, u: Update, q: Range)
    requires Valid(rs) && OpenAt(rs, g, n) && Within(u, n) && u.from <= g
    requires q in rs && Meets(q, u.from, u.to) && (Inside(rs, u.from).Some? ==> In(q, u.from))
    ensures 0 <= PairOf(u, q).0 <= g
  {
    ValidApart(rs, q, q);
    if Inside(rs, u.from).None? && g < n {
      var r :| r in rs && In(r, g) && In(r, n - 1);
      ValidApart(rs, q, r);
      assert !In(r, u.from);
    }
  }

  /** An update of a room above the gap sends its first DELETE at the room's own index. */
  lemma FirstAbove(rs: seq<Range>, g: int, n: nat, u: Update)
    requires Valid(rs) && OpenAt(rs, g, n) && Within(u, n) && g < u.from
    ensures MovedRanges(rs, u.from, u.to) != []
    ensures var q := MovedRanges(rs, u.from, u.to)[0];
      q in rs && In(q, u.from) && PairOf(u, q).0 == u.from
  {
    AllTracked(rs, g, n, u.from);
  }

  /** The slots an update finds at a DELETE not above the gap. */
  lemma BelowAgrees(rs: seq<Range>, m: Slots, g: int, list: seq<RoomId>, u: Update, q: Range)
    requires Valid(rs) && q in rs && Meets(q, u.from, u.to) && 0 <= PairOf(u, q).0 <= g && Tracked(rs, g)
    requires Agrees(rs, WithoutEntry(rs, m, g), list)
    ensures AgreesBut(rs, Met(rs, m, g, PairOf(u, q).0), list, u)
  {
    var f := PairOf(u, q).0;
    forall r, i | r in rs && In(r, i) && 0 <= i < |list|
      ensures (Meets(r, u.from, u.to) && i == PairOf(u, r).0) || At(Met(rs, m, g, f), i) == Some(list[i])
    {
      ValidApart(rs, r, q);
      assert Tracked(rs, i);
      if i != f {
        MetBelow(rs, m, g, f, i);
      }
    }
  }

  /** All the rooms up to the list's last are in slots the client has, one higher from the gap on. */
  lemma LastKey(rs: seq<Range>, m: Slots, g: int, list: seq<RoomId>)
    requires 0 <= g < |list| && OpenAt(rs, g, |list|) && Agrees(rs, WithoutEntry(rs, m, g), list)
    ensures |list| <= MaxKey(m)
  {
    AllTracked(rs, g, |list|, |list| - 1);
    ClosedAt(rs, m, g, |list| - 1);
  }

  /** A range ends at the index. */
  ghost predicate EndsAt(rs: seq<Range>, k: int) { exists r :: r in rs && r.hi == k }

  /** A new room that does not come last empties the slot its own second DELETE is for, if a range ends there. */
  lemma NewRoomAgrees(rs: seq<Range>, m: Slots, g: int, list: seq<RoomId>, u: Update)
    requires Valid(rs) && 0 <= g < |list| && OpenAt(rs, g, |list|) && Agrees(rs, WithoutEntry(rs, m, g), list)
    requires u.from == |list| && 0 <= u.to < |list| && EndsAt(rs, |list| - 1)
    ensures AgreesBut(rs, Met(rs, m, g, |list|), list, u)
  {
    var n := |list|;
    var last :| last in rs && last.hi == n - 1;
    LastKey(rs, m, g, list);
    forall i | g <= i <= n ensures Tracked(rs, i) {
      AllTracked(rs, g, n, i);
    }
    forall r, i | r in rs && In(r, i) && 0 <= i < n
      ensures (Meets(r, u.from, u.to) && i == PairOf(u, r).0) || At(Met(rs, m, g, n), i) == Some(list[i])
    {
      ValidApart(rs, r, last);
      ValidApart(rs, last, last);
      assert Tracked(rs, i);
      MetAbove(rs, m, g, n, i);
    }
  }

  /** The operations of an update, cut after the first DELETE. */
  lemma {:induction false} StartsWithDelete(rs: seq<Range>, u: Update, moved: seq<Range>, single: bool)
    requires moved != [] && PairsOutcome(rs, u, ClampAll(moved, u.from, u.to), single).Done?
    requires var p := PairOf(u, moved[0]);
      0 <= p.0 && Tracked(rs, p.0) && 0 <= p.1 < |u.list| && !IsNoOp(u, p, single)
    ensures var p, ops := PairOf(u, moved[0]), PairsOutcome(rs, u, ClampAll(moved, u.from, u.to), single).ops;
      && ops != [] && ops[0] == Delete(p.0)
      && (!IsLone(rs, u, moved[0]) ==> |ops| > 1 && ops[1] == Insert(p.1, u.list[p.1]))
      && (IsLone(rs, u, moved[0]) ==>
          ops[1..] == PairsOutcome(rs, u, ClampAll(moved[1..], u.from, u.to), single).ops)
  {
    var p := PairOf(u, moved[0]);
    var here, rest := PairOps(rs, u, p, single), PairsOutcome(rs, u, ClampAll(moved[1..], u.from, u.to), single);
    assert ClampAll(moved, u.from, u.to)[1..] == ClampAll(moved[1..], u.from, u.to);
    assert IsLone(rs, u, moved[0]) ==> ([Delete(p.0)] + rest.ops)[1..] == rest.ops;
  }

  /** Every pair of the update fits, and where a DELETE goes out alone the next one is a DELETE too. */
  ghost predicate AllReady(rs: seq<Range>, u: Update, pre: seq<RoomId>, n: nat) {
    var moved := MovedRanges(rs, u.from, u.to);
    n <= |pre| && forall r :: r in moved ==> Ready(rs, u, pre, n, |moved| == 1, r)
  }

  lemma ReadyEnds(rs: seq<Range>, u: Update, pre: seq<RoomId>, n: nat, single: bool, r: Range)
    requires Valid(rs) && n <= |pre| && Ready(rs, u, pre, n, single, r)
    ensures var p := PairOf(u, r);
      && r in rs && 0 <= p.0 && In(r, p.0) && In(r, p.1) && Tracked(rs, p.0)
      && 0 <= p.1 < |u.list| && !IsNoOp(u, p, single)
  {
    ValidApart(rs, r, r);
  }

  /** After a DELETE sent alone come no operations, or another DELETE. */
  lemma LoneContinues(rs: seq<Range>, u: Update, pre: seq<RoomId>, n: nat, moved: seq<Range>, single: bool)
    requires Valid(rs) && n <= |pre| && moved != [] && forall r :: r in moved ==> Ready(rs, u, pre, n, single, r)
    requires PairsOutcome(rs, u, ClampAll(moved, u.from, u.to), single).Done? && IsLone(rs, u, moved[0])
    ensures var ops := PairsOutcome(rs, u, ClampAll(moved, u.from, u.to), single).ops;
      ops != [] && (|ops| > 1 ==> ops[1].Delete?)
  {
    var rest := moved[1..];
    ReadyEnds(rs, u, pre, n, single, moved[0]);
    StartsWithDelete(rs, u, moved, single);
    assert ClampAll(moved, u.from, u.to)[1..] == ClampAll(rest, u.from, u.to);
    if rest != [] {
      assert rest[0] in moved;
      ReadyEnds(rs, u, pre, n, single, rest[0]);
      StartsWithDelete(rs, u, rest, single);
    }
  }

  lemma OpsContinue(rs: seq<Range>, u: Update, pre: seq<RoomId>, list: seq<RoomId>, w: Slots)
    requires Valid(rs) && AllReady(rs, u, pre, |list|)
    requires MovedRanges(rs, u.from, u.to) != [] && UpdateOutcome(rs, u).Done?
    requires pre[..|list|] == list && AgreesBut(rs, w, list, u)
    ensures var q, ops := MovedRanges(rs, u.from, u.to)[0], UpdateOutcome(rs, u).ops;
      && 0 <= PairOf(u, q).0 && q in rs && In(q, PairOf(u, q).0)
      && ops != [] && ops == [Delete(PairOf(u, q).0)] + ops[1..]
      && Continues(rs, w, q, PairOf(u, q).0, ops[1..])
  {
    var moved := MovedRanges(rs, u.from, u.to);
    var q := moved[0];
    var p, single := PairOf(u, q), |moved| == 1;
    assert q in moved;
    ClampAllLength(moved, u.from, u.to);
    ReadyEnds(rs, u, pre, |list|, single, q);
    StartsWithDelete(rs, u, moved, single);
    if IsLone(rs, u, q) {
      LoneContinues(rs, u, pre, |list|, moved, single);
    } else if p.0 != p.1 {
      MovedRangesExact(rs, u.from, u.to);
      assert p.1 < |list|;
    }
  }

  /**
   * The updates that a gap at `g` does no harm to: of a room not above it; of a room that changes in place; or
   * of a new room that does not come last, when the last room's range ends with it.
   */
  ghost predicate Harmless(rs: seq<Range>, g: int, n: nat, u: Update) {
    || u.from <= g
    || (u.op.Change? && u.from == u.to)
    || (u.from == n && u.to < n && EndsAt(rs, n - 1))
  }

  lemma FoundAgrees(rs: seq<Range>, m: Slots, g: int, list: seq<RoomId>, u: Update)
    requires Valid(rs) && OpenAt(rs, g, |list|) && Within(u, |list|) && MovedRanges(rs, u.from, u.to) != []
    requires Agrees(rs, WithoutEntry(rs, m, g), list)
    requires u.from <= g || (u.from == |list| && u.to < |list| && EndsAt(rs, |list| - 1))
    ensures AgreesBut(rs, Met(rs, m, g, PairOf(u, MovedRanges(rs, u.from, u.to)[0]).0), list, u)
  {
    MovedRangesExact(rs, u.from, u.to);
    var q := MovedRanges(rs, u.from, u.to)[0];
    assert q in MovedRanges(rs, u.from, u.to);
    if u.from <= g {
      FirstBelow(rs, g, |list|, u);
      BelowAgrees(rs, m, g, list, u, q);
    } else {
      FirstAbove(rs, g, |list|, u);
      NewRoomAgrees(rs, m, g, list, u);
    }
  }

  lemma UnmovedIsUnreported(rs: seq<Range>, list: seq<RoomId>, pre: seq<RoomId>, u: Update)
    requires Valid(rs) && IsMove(rs, list, pre, u) && u.op.Change? && u.from == u.to
    ensures MovedRanges(rs, u.from, u.to) == [] || Unreported(rs, u)
  {
    JumpsNothing(rs, u.from);
  }

  lemma {:induction false} JumpsNothing(rs: seq<Range>, i: int)
    ensures Jumped(rs, i, i) == []
  {
    if rs != [] {
      JumpsNothing(rs[1..], i);
    }
  }

  /** A move with a gap open, when it is harmless. */
  lemma MoveFromGap(rs: seq<Range>, m: Slots, g: int, list: seq<RoomId>, pre: seq<RoomId>, u: Update)
    requires Valid(rs) && IsMove(rs, list, pre, u) && OpenAt(rs, g, |list|)
    requires Agrees(rs, WithoutEntry(rs, m, g), list) && Harmless(rs, g, |list|, u)
    ensures var o := UpdateOutcome(rs, u);
      && o.Done? && Null !in o.ops && Agrees(rs, Closed(rs, Steps(rs, State(m, g), o.ops)), u.list)
  {
    var moved := MovedRanges(rs, u.from, u.to);
    if u.op.Change? && u.from == u.to {
      UnmovedIsUnreported(rs, list, pre, u);
    }
    if moved == [] || Unreported(rs, u) {
      if moved != [] {
        UnreportedAgrees(rs, list, pre, u);
      }
      MoveAgrees(rs, WithoutEntry(rs, m, g), list, pre, u);
    } else {
      var f := PairOf(u, moved[0]).0;
      var w := Met(rs, m, g, f);
      FoundAgrees(rs, m, g, list, u);
      MoveAllReady(rs, list, pre, u);
      ReportedMoveAgrees(rs, w, list, pre, u);
      OpsContinue(rs, u, pre, list, w);
      AsIfClosed(rs, m, g, moved[0], f, UpdateOutcome(rs, u).ops[1..]);
    }
  }

  /** A removal with a gap open, when it is not above it. */
  lemma RemovalFromGap(rs: seq<Range>, m: Slots, g: int, list: seq<RoomId>, u: Update)
    requires Valid(rs) && IsRemoval(rs, list, u) && !Overruns(rs, list, u.from) && OpenAt(rs, g, |list|)
    requires Agrees(rs, WithoutEntry(rs, m, g), list) && u.from <= g
    ensures var o := UpdateOutcome(rs, u);
      && o.Done? && Null !in o.ops && Agrees(rs, Closed(rs, Steps(rs, State(m, g), o.ops)), u.list)
  {
    var moved := MovedRanges(rs, u.from, u.to);
    MovedRangesExact(rs, u.from, u.to);
    if moved == [] {
      AgreesEnough(rs, WithoutEntry(rs, m, g), list, u);
      RemovalAgrees(rs, WithoutEntry(rs, m, g), list, u);
    } else {
      var f := PairOf(u, moved[0]).0;
      var w := Met(rs, m, g, f);
      FoundAgrees(rs, m, g, list, u);
      RemovalAgrees(rs, w, list, u);
      forall r | r in moved ensures Ready(rs, u, list, |list|, |moved| == 1, r) {
        RemovalReady(rs, list, u, r);
      }
      OpsContinue(rs, u, list, list, w);
      AsIfClosed(rs, m, g, moved[0], f, UpdateOutcome(rs, u).ops[1..]);
    }
  }

  // ---- the gap after it ----

  /** A move that sends anything ends with an INSERT, which forgets the gap. */
  lemma MoveGap(rs: seq<Range>, list: seq<RoomId>, pre: seq<RoomId>, u: Update, gap: int)
    requires Valid(rs) && IsMove(rs, list, pre, u) && UpdateOutcome(rs, u).Done?
    ensures GapAfter(gap, UpdateOutcome(rs, u).ops) ==
      if MovedRanges(rs, u.from, u.to) == [] || Unreported(rs, u) then gap else -1
  {
    var moved := MovedRanges(rs, u.from, u.to);
    if Unreported(rs, u) {
      UnreportedAgrees(rs, list, pre, u);
    } else if moved != [] {
      MovedRangesExact(rs, u.from, u.to);
      ClampAllLength(moved, u.from, u.to);
      MoveAllReady(rs, list, pre, u);
      forall r | r in moved ensures Tracked(rs, PairOf(u, r).0) && 0 <= PairOf(u, r).0 {
        ValidApart(rs, r, r);
        assert In(r, PairOf(u, r).0);
      }
      MovedGap(rs, u, moved, |moved| == 1, gap);
    }
  }

  lemma QuietMoveOpen(rs: seq<Range>, list: seq<RoomId>, pre: seq<RoomId>, u: Update, g: int)
    requires Valid(rs) && IsMove(rs, list, pre, u) && OpenAt(rs, g, |list|)
    requires MovedRanges(rs, u.from, u.to) == [] || Unreported(rs, u)
    ensures OpenAt(rs, g, |u.list|)
  {
  }

  lemma DelGapOpen(rs: seq<Range>, list: seq<RoomId>, room: RoomId)
    requires Valid(rs) && NoDup(list) && room in list && !DelFails(rs, list, room)
    ensures var g := DelGap(rs, |list|, IndexIn(list, room));
      g == -1 || OpenAt(rs, g, |list| - 1)
  {
    var n := |list|;
    if 2 <= n && Inside(rs, n - 2).Some? {
      var r := Inside(rs, n - 2).value;
      ValidApart(rs, r, r);
      assert In(r, Clamp(r, IndexIn(list, room)));
    }
  }

  lemma QuietDelOpen(rs: seq<Range>, list: seq<RoomId>, u: Update, g: int)
    requires Valid(rs) && IsRemoval(rs, list, u) && OpenAt(rs, g, |list|) && MovedRanges(rs, u.from, u.to) == []
    ensures OpenAt(rs, g, |list| - 1)
  {
    if g < |list| - 1 {
      var r :| r in rs && In(r, g) && In(r, |list| - 1);
      assert In(r, u.to);
    }
  }

  // ---- one update after another ----

  /** The next update can follow: no gap is open, it sends nothing at all, or the gap does it no harm. */
  ghost predicate Follows(rs: seq<Range>, g: int, list: seq<RoomId>, op: ListOp, room: RoomId,
                          keys: seq<SortKey>, finder: Finder)
  {
    g == -1 || (room !in list && !op.Add?) ||
    (assert op.Del? || room in ListAfter(list, op, room, keys, finder) by {
       if !op.Del? { RoomStays(list, op, room, keys, finder); }
     }
     Harmless(rs, g, |list|, UpdateOf(rs, list, op, room, ListAfter(list, op, room, keys, finder))))
  }

  lemma DelInSync(rs: seq<Range>, st: State, list: seq<RoomId>, room: RoomId, keys: seq<SortKey>, finder: Finder)
    requires Valid(rs) && NoDup(list) && InSync(rs, st, list) && room in list && !DelFails(rs, list, room)
    requires st.gap == -1 || IndexIn(list, room) <= st.gap
    ensures var o := ServerOps(rs, list, Del, room, keys, finder);
      o.Done? && Null !in o.ops && InSync(rs, Steps(rs, st, o.ops), ListAfter(list, Del, room, keys, finder))
  {
    var o, after := ServerOps(rs, list, Del, room, keys, finder), ListAfter(list, Del, room, keys, finder);
    DelLeavesGap(rs, list, room, keys, finder, st.gap);
    DelGapOpen(rs, list, room);
    if |list| > 1 {
      RemovalUpdate(rs, list, room, keys, finder);
      var u := UpdateOf(rs, list, Del, room, after);
      if st.gap == -1 {
        AgreesEnough(rs, st.slots, list, u);
        RemovalAgrees(rs, st.slots, list, u);
      } else {
        RemovalFromGap(rs, st.slots, st.gap, list, u);
        if MovedRanges(rs, u.from, u.to) == [] {
          QuietDelOpen(rs, list, u, st.gap);
        }
      }
    }
    StepsGap(rs, st, o.ops);
  }

  lemma MoveInSync(rs: seq<Range>, st: State, list: seq<RoomId>, pre: seq<RoomId>, u: Update)
    requires Valid(rs) && IsMove(rs, list, pre, u) && InSync(rs, st, list)
    requires st.gap == -1 || Harmless(rs, st.gap, |list|, u)
    ensures var o := UpdateOutcome(rs, u);
      o.Done? && Null !in o.ops && InSync(rs, Steps(rs, st, o.ops), u.list)
  {
    if st.gap == -1 {
      MoveAgrees(rs, st.slots, list, pre, u);
    } else {
      MoveFromGap(rs, st.slots, st.gap, list, pre, u);
      if MovedRanges(rs, u.from, u.to) == [] || Unreported(rs, u) {
        QuietMoveOpen(rs, list, pre, u, st.gap);
      }
    }
    MoveGap(rs, list, pre, u, st.gap);
    StepsGap(rs, st, UpdateOutcome(rs, u).ops);
  }

  /** An Add or a Change leaves no gap open where there was none. */
  lemma MoveAnswered(rs: seq<Range>, list: seq<RoomId>, op: ListOp, room: RoomId, keys: seq<SortKey>, finder: Finder)
    requires Valid(rs) && NoDup(list) && OthersSorted(list, room, keys, finder) && !op.Del?
    ensures ServerOps(rs, list, op, room, keys, finder).Done?
  {
    var mirror: Slots := map i | 0 <= i < |list| :: Some(list[i]);
    AddOrChangeAgrees(rs, mirror, list, op, room, keys, finder);
  }

  lemma MoveClosesGap(rs: seq<Range>, list: seq<RoomId>, op: ListOp, room: RoomId, keys: seq<SortKey>, finder: Finder)
    requires Valid(rs) && NoDup(list) && OthersSorted(list, room, keys, finder) && !op.Del?
    ensures var o := ServerOps(rs, list, op, room, keys, finder);
      o.Done? && GapAfter(-1, o.ops) == -1
  {
    if op.Add? || room in list {
      UpdateIsMove(rs, list, op, room, keys, finder);
      MoveAnswered(rs, list, op, room, keys, finder);
      var after := ListAfter(list, op, room, keys, finder);
      MoveGap(rs, list, Padded(list, room), UpdateOf(rs, list, op, room, after), -1);
    }
  }

  /** Any update that can follow keeps server and client in sync. */
  lemma NextInSync(rs: seq<Range>, st: State, list: seq<RoomId>, op: ListOp, room: RoomId,
                   keys: seq<SortKey>, finder: Finder)
    requires Valid(rs) && NoDup(list) && OthersSorted(list, room, keys, finder) && InSync(rs, st, list)
    requires op.Del? ==> !DelFails(rs, list, room)
    requires Follows(rs, st.gap, list, op, room, keys, finder)
    ensures var o := ServerOps(rs, list, op, room, keys, finder);
      o.Done? && Null !in o.ops && InSync(rs, Steps(rs, st, o.ops), ListAfter(list, op, room, keys, finder))
  {
    if room in list && op.Del? {
      DelInSync(rs, st, list, room, keys, finder);
    } else if op.Add? || room in list {
      UpdateIsMove(rs, list, op, room, keys, finder);
      var after := ListAfter(list, op, room, keys, finder);
      MoveInSync(rs, st, list, Padded(list, room), UpdateOf(rs, list, op, room, after));
    }
  }

  // ---- and no other update ----

  /** With the gap below its room, an update first empties the slot below the room's own. */
  lemma EmptiesBelow(rs: seq<Range>, m: Slots, g: int, list: seq<RoomId>, f: int, j: int)
    requires OpenAt(rs, g, |list|) && g < f <= |list| && Agrees(rs, WithoutEntry(rs, m, g), list)
    ensures At(Met(rs, m, g, f), j) == if j == f - 1 then None else At(WithoutEntry(rs, m, g), j)
    ensures Tracked(rs, f - 1) && Tracked(rs, f)
  {
    LastKey(rs, m, g, list);
    forall i | g <= i <= |list| ensures Tracked(rs, i) {
      AllTracked(rs, g, |list|, i);
    }
    MetAbove(rs, m, g, f, j);
  }

  lemma OneDeletePair(rs: seq<Range>, list: seq<RoomId>, u: Update, r: Range)
    requires Valid(rs) && IsRemoval(rs, list, u) && r in rs
    requires In(r, u.from) && In(r, |list| - 2) && In(r, |list| - 1)
    ensures PairsOutcome(rs, u, [(u.from, u.to)], true) == Done([Delete(u.from)], [])
  {
    InsideUnique(rs, r, |list| - 1);
    InsideUnique(rs, r, u.from);
    var p := (u.from, u.to);
    assert IsLoneDelete(rs, u, p) && !IsNoOp(u, p, true);
    assert WriteDeleteOp(rs, u.from) == Delete(u.from);
    assert PairsOutcome(rs, u, [], true) == Done([], []);
    assert [p][1..] == [];
  }

  /** A removal in the range of the list's last two rooms sends one DELETE and nothing else. */
  lemma OneDelete(rs: seq<Range>, list: seq<RoomId>, u: Update, r: Range)
    requires Valid(rs) && IsRemoval(rs, list, u) && r in rs
    requires In(r, u.from) && In(r, |list| - 2) && In(r, |list| - 1)
    ensures UpdateOutcome(rs, u) == Done([Delete(u.from)], [])
  {
    InsideUnique(rs, r, u.from);
    InsideUnique(rs, r, u.to);
    assert ClampAll([r], u.from, u.to) == [(u.from, u.to)];
    OneDeletePair(rs, list, u, r);
  }

  lemma OneDeleteClosed(rs: seq<Range>, m: Slots, g: int, f: int)
    requires 0 <= g && 0 < f
    ensures At(Closed(rs, Steps(rs, State(m, g), [Delete(f)])), f - 1) == At(Met(rs, m, g, f), f - 1)
  {
    assert [Delete(f)][1..] == [];
    assert Steps(rs, State(m, g), [Delete(f)]) == State(Met(rs, m, g, f), f);
    CloseAt(rs, Met(rs, m, g, f), f, f - 1);
  }

  lemma OneDeleteAbove(rs: seq<Range>, g: int, list: seq<RoomId>, u: Update)
    requires Valid(rs) && IsRemoval(rs, list, u) && OpenAt(rs, g, |list|) && g < u.from
    ensures UpdateOutcome(rs, u) == Done([Delete(u.from)], [])
  {
    var r :| r in rs && In(r, g) && In(r, |list| - 1);
    OneDelete(rs, list, u, r);
  }

  lemma EmptiedSlot(rs: seq<Range>, m: Slots, g: int, list: seq<RoomId>, f: int)
    requires OpenAt(rs, g, |list|) && g < f <= |list| && Agrees(rs, WithoutEntry(rs, m, g), list)
    ensures Tracked(rs, f - 1) && At(Closed(rs, Steps(rs, State(m, g), [Delete(f)])), f - 1).None?
  {
    EmptiesBelow(rs, m, g, list, f, f - 1);
    OneDeleteClosed(rs, m, g, f);
  }

  lemma EmptiedDisagrees(rs: seq<Range>, m: Slots, g: int, list: seq<RoomId>, f: int, post: seq<RoomId>)
    requires OpenAt(rs, g, |list|) && g < f <= |list| && f - 1 < |post| && Agrees(rs, WithoutEntry(rs, m, g), list)
    ensures !Agrees(rs, Closed(rs, Steps(rs, State(m, g), [Delete(f)])), post)
  {
    EmptiedSlot(rs, m, g, list, f);
  }

  lemma RemovalAbove(rs: seq<Range>, m: Slots, g: int, list: seq<RoomId>, u: Update)
    requires Valid(rs) && IsRemoval(rs, list, u) && OpenAt(rs, g, |list|) && g < u.from
    requires Agrees(rs, WithoutEntry(rs, m, g), list)
    ensures var o := UpdateOutcome(rs, u);
      && o.Done? && Null !in o.ops && !Agrees(rs, Closed(rs, Steps(rs, State(m, g), o.ops)), u.list)
  {
    OneDeleteAbove(rs, g, list, u);
    EmptiedDisagrees(rs, m, g, list, u.from, u.list);
  }

  /** A DELETE and an INSERT in one range leave everything outside it alone. */
  lemma SwapElsewhere(rs: seq<Range>, m: Slots, r: Range, f: int, t: int, x: RoomId, i: int)
    requires In(r, f) && In(r, t) && 0 <= f && !In(r, i)
    ensures var s := Step(rs, Step(rs, State(m, -1), Delete(f)), Insert(t, x));
      s.gap == -1 && At(s.slots, i) == At(m, i)
  {
  }

  lemma {:induction false} MovesElsewhere(rs: seq<Range>, u: Update, moved: seq<Range>, single: bool, m: Slots, i: int)
    requires !u.op.Del? && forall r :: r in moved ==> 0 <= r.lo <= r.hi && !In(r, i)
    requires PairsOutcome(rs, u, ClampAll(moved, u.from, u.to), single).Done?
    ensures var ops := PairsOutcome(rs, u, ClampAll(moved, u.from, u.to), single).ops;
      && Null !in ops && Steps(rs, State(m, -1), ops).gap == -1
      && At(Steps(rs, State(m, -1), ops).slots, i) == At(m, i)
    decreases moved
  {
    if moved != [] {
      var r, rest := moved[0], moved[1..];
      var p := PairOf(u, r);
      assert r in moved && forall q :: q in rest ==> q in moved;
      assert ClampAll(moved, u.from, u.to)[1..] == ClampAll(rest, u.from, u.to);
      var here := PairOps(rs, u, p, single);
      var more := PairsOutcome(rs, u, ClampAll(rest, u.from, u.to), single).ops;
      if IsNoOp(u, p, single) {
        assert here + more == more;
        MovesElsewhere(rs, u, rest, single, m, i);
      } else {
        SwapElsewhere(rs, m, r, p.0, p.1, u.list[p.1], i);
        StepsOfTwo(rs, State(m, -1), Delete(p.0), Insert(p.1, u.list[p.1]));
        var next := Steps(rs, State(m, -1), here);
        MovesElsewhere(rs, u, rest, single, next.slots, i);
        StepsAppend(rs, State(m, -1), here, more);
      }
    }
  }

  /** The slot left wrong by the update's first pair: the emptied one, or where it was shifted to. */
  function WrongSlot(f: int, t: int): int { if t >= f then f - 1 else f }

  /** The first pair of an update above the gap, at the slot it leaves wrong. */
  lemma FirstPairWrong(rs: seq<Range>, w: Slots, q: Range, f: int, t: int, x: RoomId)
    requires q in rs && In(q, f) && In(q, t) && 0 < f && At(w, f - 1).None?
    requires t < f - 1 ==> At(w, t).Some?
    ensures var s := Step(rs, State(w, f), Insert(t, x));
      s.gap == -1 && At(s.slots, WrongSlot(f, t)) == if t == f - 1 then At(w, f) else None
  {
    assert Tracked(rs, f);
  }

  /** The rest of the update is about other ranges. */
  lemma RestElsewhere(rs: seq<Range>, m: Slots, g: int, u: Update, q: Range, b: int)
    requires Valid(rs) && 0 <= g && !u.op.Del? && !Unreported(rs, u) && UpdateOutcome(rs, u).Done?
    requires var moved := MovedRanges(rs, u.from, u.to);
      moved != [] && moved[0] == q && 0 <= PairOf(u, q).1 < |u.list| && (forall r :: r in moved[1..] ==> !In(r, b))
    ensures var p, o := PairOf(u, q), UpdateOutcome(rs, u);
      && Null !in o.ops
      && At(Closed(rs, Steps(rs, State(m, g), o.ops)), b) ==
         At(Step(rs, Step(rs, State(m, g), Delete(p.0)), Insert(p.1, u.list[p.1])).slots, b)
  {
    var moved := MovedRanges(rs, u.from, u.to);
    var p, single := PairOf(u, q), |moved| == 1;
    MovedRangesExact(rs, u.from, u.to);
    ClampAllLength(moved, u.from, u.to);
    assert ClampAll(moved, u.from, u.to)[1..] == ClampAll(moved[1..], u.from, u.to);
    var here := PairOps(rs, u, p, single);
    var more := PairsOutcome(rs, u, ClampAll(moved[1..], u.from, u.to), single).ops;
    assert here == [Delete(p.0), Insert(p.1, u.list[p.1])];
    StepsOfTwo(rs, State(m, g), Delete(p.0), Insert(p.1, u.list[p.1]));
    forall r | r in moved[1..] ensures 0 <= r.lo <= r.hi {
      assert r in moved;
      ValidApart(rs, r, r);
    }
    MovesElsewhere(rs, u, moved[1..], single, Steps(rs, State(m, g), here).slots, b);
    StepsAppend(rs, State(m, g), here, more);
  }

  lemma NoneBesides(rs: seq<Range>, moved: seq<Range>, i: int)
    requires Valid(rs) && NoDup(moved) && (forall r :: r in moved ==> r in rs) && moved != [] && In(moved[0], i)
    ensures forall r :: r in moved[1..] ==> !In(r, i)
  {
    forall r | r in moved[1..] ensures !In(r, i) {
      var k :| 0 <= k < |moved[1..]| && moved[1..][k] == r;
      assert moved[0] in moved && moved[k + 1] in moved;
      ValidApart(rs, r, moved[0]);
    }
  }

  /** The wrong slot is a tracked one, and no other range of the update has it. */
  lemma WrongSlotAlone(rs: seq<Range>, g: int, n: nat, u: Update, q: Range)
    requires Valid(rs) && OpenAt(rs, g, n) && Within(u, n) && g < u.from && !Harmless(rs, g, n, u)
    requires MovedRanges(rs, u.from, u.to) != [] && q == MovedRanges(rs, u.from, u.to)[0]
    ensures q in rs && In(q, u.from) && PairOf(u, q).0 == u.from
    ensures var b := WrongSlot(u.from, PairOf(u, q).1);
      Tracked(rs, b) && forall r :: r in MovedRanges(rs, u.from, u.to)[1..] ==> !In(r, b)
  {
    var moved, f := MovedRanges(rs, u.from, u.to), u.from;
    var b := WrongSlot(f, PairOf(u, q).1);
    FirstAbove(rs, g, n, u);
    AllTracked(rs, g, n, f - 1);
    MovedRangesExact(rs, u.from, u.to);
    var r :| r in rs && In(r, g) && In(r, n - 1);
    ValidApart(rs, q, r);
    if In(q, f - 1) {
      NoneBesides(rs, moved, b);
    } else {
      assert f == n && EndsAt(rs, n - 1);
      assert moved == [q];
    }
  }

  /** What the slot left wrong shows, and what it should. */
  lemma WrongRoom(rs: seq<Range>, c: Slots, g: int, list: seq<RoomId>, pre: seq<RoomId>, u: Update, t: int)
    requires IsMove(rs, list, pre, u) && OpenAt(rs, g, |list|) && g < u.from && Agrees(rs, c, list)
    requires t == u.from - 1 ==> u.to < u.from
    requires u.from == |list| ==> At(c, |list|).None?
    ensures var b := WrongSlot(u.from, t);
      0 <= b < |u.list| && (if t == u.from - 1 then At(c, u.from) else None) != Some(u.list[b])
  {
    if t == u.from - 1 {
      MoveAt(pre, u.from, u.to, u.from);
      MoveAt(pre, u.from, u.to, u.to);
      if u.from < |list| {
        AllTracked(rs, g, |list|, u.from);
        assert At(c, u.from) == Some(list[u.from]) && pre[..|list|][u.from] == list[u.from];
      }
    }
  }

  lemma HarmfulIsReported(rs: seq<Range>, g: int, list: seq<RoomId>, pre: seq<RoomId>, u: Update)
    requires Valid(rs) && IsMove(rs, list, pre, u) && !Harmless(rs, g, |list|, u)
    ensures !Unreported(rs, u) && UpdateOutcome(rs, u).Done?
    ensures forall r :: r in MovedRanges(rs, u.from, u.to) ==> 0 <= PairOf(u, r).1 < |u.list|
  {
    if Unreported(rs, u) {
      UnreportedAgrees(rs, list, pre, u);
    }
    MoveAllReady(rs, list, pre, u);
    var mirror: Slots := map i | 0 <= i < |list| :: Some(list[i]);
    MoveAgrees(rs, mirror, list, pre, u);
  }

  /** The first pair of the update, from the client with the gap open. */
  lemma FirstPairAt(rs: seq<Range>, m: Slots, g: int, list: seq<RoomId>, q: Range, f: int, t: int, x: RoomId)
    requires OpenAt(rs, g, |list|) && g < f <= |list| && Agrees(rs, WithoutEntry(rs, m, g), list)
    requires q in rs && In(q, f) && In(q, t) && 0 <= t
    ensures At(Step(rs, Step(rs, State(m, g), Delete(f)), Insert(t, x)).slots, WrongSlot(f, t)) ==
      if t == f - 1 then At(WithoutEntry(rs, m, g), f) else None
  {
    EmptiesBelow(rs, m, g, list, f, f - 1);
    EmptiesBelow(rs, m, g, list, f, f);
    EmptiesBelow(rs, m, g, list, f, t);
    assert Tracked(rs, t);
    FirstPairWrong(rs, Met(rs, m, g, f), q, f, t, x);
  }

  lemma MoveAbove(rs: seq<Range>, m: Slots, g: int, list: seq<RoomId>, pre: seq<RoomId>, u: Update)
    requires Valid(rs) && IsMove(rs, list, pre, u) && OpenAt(rs, g, |list|) && !Harmless(rs, g, |list|, u)
    requires Agrees(rs, WithoutEntry(rs, m, g), list)
    requires u.from == |list| ==> At(WithoutEntry(rs, m, g), |list|).None?
    ensures var o := UpdateOutcome(rs, u);
      && o.Done? && Null !in o.ops && !Agrees(rs, Closed(rs, Steps(rs, State(m, g), o.ops)), u.list)
  {
    FirstAbove(rs, g, |list|, u);
    HarmfulIsReported(rs, g, list, pre, u);
    var q := MovedRanges(rs, u.from, u.to)[0];
    var t := PairOf(u, q).1;
    assert q in MovedRanges(rs, u.from, u.to);
    ValidApart(rs, q, q);
    WrongSlotAlone(rs, g, |list|, u, q);
    FirstPairAt(rs, m, g, list, q, u.from, t, u.list[t]);
    RestElsewhere(rs, m, g, u, q, WrongSlot(u.from, t));
    WrongRoom(rs, WithoutEntry(rs, m, g), g, list, pre, u, t);
  }

  /** An update that cannot follow leaves every client wrong that has nothing beyond the end of the list. */
  lemma OthersDisagree(rs: seq<Range>, m: Slots, g: int, list: seq<RoomId>, op: ListOp, room: RoomId,
                       keys: seq<SortKey>, finder: Finder)
    requires Valid(rs) && NoDup(list) && OthersSorted(list, room, keys, finder) && OpenAt(rs, g, |list|)
    requires op.Del? ==> !DelFails(rs, list, room)
    requires !Follows(rs, g, list, op, room, keys, finder)
    requires Agrees(rs, WithoutEntry(rs, m, g), list) && At(WithoutEntry(rs, m, g), |list|).None?
    ensures var o := ServerOps(rs, list, op, room, keys, finder);
      && o.Done? && Null !in o.ops
      && !Agrees(rs, Closed(rs, Steps(rs, State(m, g), o.ops)), ListAfter(list, op, room, keys, finder))
  {
    var after := ListAfter(list, op, room, keys, finder);
    if op.Del? {
      RemovalUpdate(rs, list, room, keys, finder);
      RemovalAbove(rs, m, g, list, UpdateOf(rs, list, Del, room, after));
    } else {
      UpdateIsMove(rs, list, op, room, keys, finder);
      MoveAbove(rs, m, g, list, Padded(list, room), UpdateOf(rs, list, op, room, after));
    }
  }

  /** A client that has just deleted at `g` and shows the rest of the list. */
  ghost function Gapped(list: seq<RoomId>, g: nat): Slots
    requires g < |list|
  {
    map i | 0 <= i <= |list| && i != g :: Some(RoomAt(list, g, i))
  }

  function RoomAt(list: seq<RoomId>, g: nat, i: nat): RoomId
    requires g < |list| && i <= |list|
  {
    if i <= g then list[i] else list[i - 1]
  }

  lemma GappedAgrees(rs: seq<Range>, list: seq<RoomId>, g: nat)
    requires OpenAt(rs, g, |list|) && g < |list|
    ensures var c := WithoutEntry(rs, Gapped(list, g), g);
      Agrees(rs, c, list) && At(c, |list|).None?
  {
    var m := Gapped(list, g);
    assert |list| in m;
    assert MaxKey(m) == |list|;
    forall i | 0 <= i <= |list|
      ensures i < |list| && Tracked(rs, i) ==> At(WithoutEntry(rs, m, g), i) == Some(list[i])
      ensures i == |list| ==> At(WithoutEntry(rs, m, g), i).None?
    {
      ClosedAt(rs, m, g, i);
    }
  }

  /**
   * With a gap open at `g`, the next update keeps every client in agreement if and only if it can follow: it
   * sends nothing, its room is not above the gap, or it is a new room that does not come last where the last
   * room's range ends.
   */
  lemma NextAgreesExactly(rs: seq<Range>, g: nat, list: seq<RoomId>, op: ListOp, room: RoomId,
                          keys: seq<SortKey>, finder: Finder)
    requires Valid(rs) && NoDup(list) && OthersSorted(list, room, keys, finder) && OpenAt(rs, g, |list|)
    requires op.Del? ==> !DelFails(rs, list, room)
    ensures var o, after := ServerOps(rs, list, op, room, keys, finder), ListAfter(list, op, room, keys, finder);
      && o.Done? && Null !in o.ops
      && ((forall m :: Agrees(rs, WithoutEntry(rs, m, g), list) ==>
             Agrees(rs, Closed(rs, Steps(rs, State(m, g), o.ops)), after))
          <==> Follows(rs, g, list, op, room, keys, finder))
  {
    if Follows(rs, g, list, op, room, keys, finder) {
      Answerable(rs, g, list, op, room, keys, finder);
      forall m | Agrees(rs, WithoutEntry(rs, m, g), list)
        ensures Agrees(rs, Closed(rs, Steps(rs, State(m, g), ServerOps(rs, list, op, room, keys, finder).ops)),
                       ListAfter(list, op, room, keys, finder))
      {
        NextInSync(rs, State(m, g), list, op, room, keys, finder);
      }
    } else {
      Unfollowed(rs, g, list, op, room, keys, finder);
      GappedAgrees(rs, list, g);
      OthersDisagree(rs, Gapped(list, g), g, list, op, room, keys, finder);
    }
  }

  lemma Unfollowed(rs: seq<Range>, g: nat, list: seq<RoomId>, op: ListOp, room: RoomId, keys: seq<SortKey>,
                   finder: Finder)
    requires !Follows(rs, g, list, op, room, keys, finder)
    ensures g < |list|
  {
  }

  lemma Answerable(rs: seq<Range>, g: nat, list: seq<RoomId>, op: ListOp, room: RoomId, keys: seq<SortKey>,
                   finder: Finder)
    requires Valid(rs) && NoDup(list) && OthersSorted(list, room, keys, finder)
    requires op.Del? ==> !DelFails(rs, list, room)
    ensures var o := ServerOps(rs, list, op, room, keys, finder);
      o.Done? && Null !in o.ops
  {
    var mirror: Slots := map i | 0 <= i < |list| :: Some(list[i]);
    if op.Del? {
      DelAgrees(rs, mirror, list, room, keys, finder);
    } else {
      AddOrChangeAgrees(rs, mirror, list, op, room, keys, finder);
    }
  }
}
