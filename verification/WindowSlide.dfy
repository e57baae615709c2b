/** sync3/handler/connstate.go: the operations sent when a client asks for other ranges, sorting or filters. */
module WindowSlide {
  import opened Common
  import opened Ranges
  import opened Delta
  import opened RoomOrder
  import opened SortableRooms
  import opened ListClient
  import opened Replica

  /** The part of a range inside a list of `n` rooms. */
  function ClampToList(r: Range, n: nat): Range {
    if r.hi <= n - 1 then r else Range(r.lo, n - 1)
  }

  function InvalidateOps(ranges: seq<Range>, n: nat): seq<Op> {
    if ranges == [] then []
    else (if ranges[0].lo >= n then [] else [Invalidate(ClampToList(ranges[0], n))]) + InvalidateOps(ranges[1..], n)
  }

  /** The rooms of one range, or nothing when the range lies past the end of the list. */
  function SliceInto(r: Range, list: seq<RoomId>): Option<seq<RoomId>>
    requires 0 <= r.lo <= r.hi + 1
  {
    var n := |list|;
    if n == 0 || (r.lo >= n && r.hi >= n) then None
    else Some(list[Min(r.lo, n - 1)..Min(r.hi, n - 1) + 1])
  }

  function SyncOps(ranges: seq<Range>, list: seq<RoomId>): seq<Op>
    requires forall r :: r in ranges ==> 0 <= r.lo <= r.hi + 1
  {
    if ranges == [] then []
    else
      var rest := SyncOps(ranges[1..], list);
      match SliceInto(ranges[0], list)
      case None => rest
      case Some(rooms) => [Sync(ClampToList(ranges[0], |list|), rooms)] + rest
  }

  /**
   * `before` is the list the client's operations so far refer to, `after` the one it will refer to;
   * `changed` says that the sort order or the filters differ, and `d` is the delta of the ranges.
   */
  ghost function RequestOps(prev: Option<seq<Range>>, next: seq<Range>, before: seq<RoomId>, after: seq<RoomId>,
                            changed: bool, d: Result): seq<Op>
    requires Shaped(next) && AllShaped(d)
  {
    (if prev.None? then []
     else if changed then InvalidateOps(prev.value, |before|)
     else InvalidateOps(d.removed, |after|))
    + SyncOps(if changed || prev.None? then next else d.added, after)
  }

  // ---- the effect on the client ----

  lemma {:induction false} InvalidateEffect(rs: seq<Range>, st: State, ranges: seq<Range>, n: nat)
    requires forall r :: r in ranges ==> 0 <= r.lo
    ensures Null !in InvalidateOps(ranges, n)
    ensures var s := Steps(rs, st, InvalidateOps(ranges, n));
      && s.gap == st.gap
      && forall z :: At(s.slots, z) == if z < n && Tracked(ranges, z) then None else At(st.slots, z)
    decreases ranges
  {
    if ranges != [] {
      var r, rest := ranges[0], ranges[1..];
      assert forall q :: q in ranges <==> q == r || q in rest;
      if r.lo >= n {
        InvalidateEffect(rs, st, rest, n);
        assert InvalidateOps(ranges, n) == InvalidateOps(rest, n);
      } else {
        var op := Invalidate(ClampToList(r, n));
        InvalidateEffect(rs, Step(rs, st, op), rest, n);
        assert forall z :: In(ClampToList(r, n), z) <==> In(r, z) && z < n;
        assert InvalidateOps(ranges, n)[1..] == InvalidateOps(rest, n);
      }
    }
  }

  lemma SyncStep(rs: seq<Range>, st: State, r: Range, list: seq<RoomId>)
    requires 0 <= r.lo <= r.hi + 1 && SliceInto(r, list).Some?
    ensures var s := Step(rs, st, Sync(ClampToList(r, |list|), SliceInto(r, list).value));
      && s.gap == st.gap
      && forall z :: At(s.slots, z) == if 0 <= z < |list| && In(r, z) then Some(list[z]) else At(st.slots, z)
  {
    var rooms, c := SliceInto(r, list).value, ClampToList(r, |list|);
    var k := SyncCount(c, rooms);
    var s := Step(rs, st, Sync(c, rooms)).slots;
    assert rooms[..k] == if r.lo < |list| then rooms else [];
    forall z ensures At(s, z) == if 0 <= z < |list| && In(r, z) then Some(list[z]) else At(st.slots, z) {
      assert Covers(r.lo, k, z) <==> 0 <= z < |list| && In(r, z);
    }
  }

  lemma {:induction false} SyncEffect(rs: seq<Range>, st: State, ranges: seq<Range>, list: seq<RoomId>)
    requires Shaped(ranges)
    ensures Null !in SyncOps(ranges, list)
    ensures var s := Steps(rs, st, SyncOps(ranges, list));
      && s.gap == st.gap
      && forall z :: At(s.slots, z) == if 0 <= z < |list| && Tracked(ranges, z) then Some(list[z]) else At(st.slots, z)
    decreases ranges
  {
    if ranges != [] {
      var r, rest := ranges[0], ranges[1..];
      assert forall q :: q in ranges <==> q == r || q in rest;
      if SliceInto(r, list).None? {
        SyncEffect(rs, st, rest, list);
      } else {
        var op := Sync(ClampToList(r, |list|), SliceInto(r, list).value);
        SyncStep(rs, st, r, list);
        SyncEffect(rs, Step(rs, st, op), rest, list);
        assert SyncOps(ranges, list)[1..] == SyncOps(rest, list);
      }
    }
  }

  /** A SYNC for indexes that all exist, with exactly the rooms at those indexes. */
  ghost predicate ShowsSlice(list: seq<RoomId>, op: Op) {
    && op.Sync? && 0 <= op.range.lo <= op.range.hi < |list|
    && op.rooms == list[op.range.lo..op.range.hi + 1]
  }

  lemma {:induction false} SyncOpsShowSlices(ranges: seq<Range>, list: seq<RoomId>)
    requires forall r :: r in ranges ==> 0 <= r.lo <= r.hi
    ensures forall op :: op in SyncOps(ranges, list) ==> ShowsSlice(list, op)
    decreases ranges
  {
    if ranges != [] {
      SyncOpsShowSlices(ranges[1..], list);
      assert ranges[0] in ranges;
    }
  }

  /** Where one range list is invalidated and another synced, slot by slot. */
  lemma InvalidateThenSync(rs: seq<Range>, st: State, gone: seq<Range>, n: nat, here: seq<Range>, list: seq<RoomId>)
    requires (forall r :: r in gone ==> 0 <= r.lo) && Shaped(here)
    ensures var ops := InvalidateOps(gone, n) + SyncOps(here, list);
      && Null !in ops && Steps(rs, st, ops).gap == st.gap
      && forall z :: At(Steps(rs, st, ops).slots, z) ==
           if 0 <= z < |list| && Tracked(here, z) then Some(list[z])
           else if z < n && Tracked(gone, z) then None
           else At(st.slots, z)
  {
    InvalidateEffect(rs, st, gone, n);
    SyncEffect(rs, Steps(rs, st, InvalidateOps(gone, n)), here, list);
    StepsAppend(rs, st, InvalidateOps(gone, n), SyncOps(here, list));
  }

  /** A single-index range that is newly asked for: the server sends nothing for it. */
  ghost predicate Forgotten(prev: seq<Range>, next: seq<Range>, z: int) { Single(next, z) && !Tracked(prev, z) }

  /** Slot `z` after a change of ranges from `prev` to `next`. */
  ghost function Slid(m: Slots, prev: seq<Range>, next: seq<Range>, list: seq<RoomId>, z: nat): Option<RoomId>
    requires z < |list|
  {
    if Tracked(next, z) then if Forgotten(prev, next, z) then At(m, z) else Some(list[z])
    else if Tracked(prev, z) && !Single(prev, z) then None
    else At(m, z)
  }

  /**
   * Only the ranges change. Every index now tracked shows its room, unless its range was forgotten;
   * every index no longer tracked is empty, unless it was a range by itself; nothing else is touched.
   */
  lemma SlideEffect(rs: seq<Range>, m: Slots, prev: seq<Range>, next: seq<Range>, list: seq<RoomId>, d: Result)
    requires Agrees(prev, m, list) && Shaped(next) && Exact(prev, next, d) && AllShaped(d)
    ensures var ops := RequestOps(Some(prev), next, list, list, false, d);
      && Null !in ops && Steps(rs, State(m, -1), ops).gap == -1
      && forall z :: 0 <= z < |list| ==> At(Steps(rs, State(m, -1), ops).slots, z) == Slid(m, prev, next, list, z)
  {
    InvalidateThenSync(rs, State(m, -1), d.removed, |list|, d.added, list);
    var s := Steps(rs, State(m, -1), RequestOps(Some(prev), next, list, list, false, d)).slots;
    forall z | 0 <= z < |list| ensures At(s, z) == Slid(m, prev, next, list, z) {
      assert ExactAt(prev, next, d, z);
    }
  }

  /** Agreement survives a change of ranges for every client exactly when no range is forgotten. */
  lemma SlideAgreesExactly(rs: seq<Range>, prev: seq<Range>, next: seq<Range>, list: seq<RoomId>, d: Result)
    requires Shaped(next) && Exact(prev, next, d) && AllShaped(d)
    ensures var ops := RequestOps(Some(prev), next, list, list, false, d);
      Null !in ops &&
      ((forall m :: Agrees(prev, m, list) ==> Agrees(next, Steps(rs, State(m, -1), ops).slots, list))
       <==> (forall z :: 0 <= z < |list| ==> !Forgotten(prev, next, z)))
  {
    var ops := RequestOps(Some(prev), next, list, list, false, d);
    var mirror: Slots := map i | 0 <= i < |list| :: Some(list[i]);
    SlideEffect(rs, mirror, prev, next, list, d);
    if forall z :: 0 <= z < |list| ==> !Forgotten(prev, next, z) {
      forall m | Agrees(prev, m, list) ensures Agrees(next, Steps(rs, State(m, -1), ops).slots, list) {
        SlideEffect(rs, m, prev, next, list, d);
      }
    } else {
      var z :| 0 <= z < |list| && Forgotten(prev, next, z);
      var m := mirror - {z};
      SlideEffect(rs, m, prev, next, list, d);
      SingleIsTracked(next, z);
      assert Agrees(prev, m, list);
      assert !Agrees(next, Steps(rs, State(m, -1), ops).slots, list);
    }
  }

  /** A first request, or a new sort order or filter: everything shown before is taken back, all ranges are synced. */
  lemma ResyncEffect(rs: seq<Range>, m: Slots, prev: Option<seq<Range>>, next: seq<Range>,
                     before: seq<RoomId>, after: seq<RoomId>, changed: bool, d: Result)
    requires (prev.Some? ==> Valid(prev.value)) && Shaped(next) && AllShaped(d) && (changed || prev.None?)
    ensures var ops := RequestOps(prev, next, before, after, changed, d);
      && Null !in ops && Steps(rs, State(m, -1), ops).gap == -1
      && forall z :: At(Steps(rs, State(m, -1), ops).slots, z) ==
           if 0 <= z < |after| && Tracked(next, z) then Some(after[z])
           else if prev.Some? && z < |before| && Tracked(prev.value, z) then None
           else At(m, z)
  {
    var gone := if prev.Some? then prev.value else [];
    forall r | r in gone ensures 0 <= r.lo {
      ValidApart(gone, r, r);
    }
    InvalidateThenSync(rs, State(m, -1), gone, |before|, next, after);
  }

  lemma ResyncAgrees(rs: seq<Range>, m: Slots, prev: Option<seq<Range>>, next: seq<Range>,
                     before: seq<RoomId>, after: seq<RoomId>, changed: bool, d: Result)
    requires (prev.Some? ==> Valid(prev.value)) && Shaped(next) && AllShaped(d) && (changed || prev.None?)
    ensures var ops := RequestOps(prev, next, before, after, changed, d);
      && Null !in ops && Steps(rs, State(m, -1), ops).gap == -1
      && Agrees(next, Steps(rs, State(m, -1), ops).slots, after)
  {
    ResyncEffect(rs, m, prev, next, before, after, changed, d);
  }

  // ---- the request handler ----

  method AppendInvalidates(ops: seq<Op>, ranges: seq<Range>, n: nat) returns (all: seq<Op>)
    ensures all == ops + InvalidateOps(ranges, n)
  {
    all := ops;
    for k := 0 to |ranges|
      invariant all + InvalidateOps(ranges[k..], n) == ops + InvalidateOps(ranges, n)
    {
      assert ranges[k..][1..] == ranges[k + 1..];
      if ranges[k].lo >= n {
        continue;
      }
      all := all + [Invalidate(ClampToList(ranges[k], n))];
    }
  }

  method AppendSyncs(ops: seq<Op>, ranges: seq<Range>, list: seq<RoomId>) returns (all: seq<Op>)
    requires Shaped(ranges)
    ensures all == ops + SyncOps(ranges, list)
  {
    all := ops;
    for k := 0 to |ranges|
      invariant all + SyncOps(ranges[k..], list) == ops + SyncOps(ranges, list)
    {
      assert ranges[k..][1..] == ranges[k + 1..];
      assert ranges[k] in ranges;
      var subslice := SliceInto(ranges[k], list);
      if subslice.None? {
        continue;
      }
      all := all + [Sync(ClampToList(ranges[k], |list|), subslice.value)];
    }
  }

  /** The ranges to send and to take back; without earlier ranges, all of the new ones and none. */
  method RangeDelta(prev: Option<seq<Range>>, next: seq<Range>)
    returns (added: seq<Range>, removed: seq<Range>, ghost d: Result)
    requires (prev.Some? ==> Valid(prev.value)) && Valid(next)
    ensures Shaped(next) && AllShaped(d) && (prev.Some? ==> Exact(prev.value, next, d))
    ensures if prev.Some? then added == d.added && removed == d.removed else added == next && removed == []
  {
    assert Shaped(next) by {
      forall r | r in next ensures 0 <= r.lo <= r.hi { ValidApart(next, r, r); }
    }
    added, removed, d := next, [], Result([], [], []);
    if prev.Some? {
      var delta := ComputeDelta(prev.value, next);
      d := delta.value;
      added, removed := delta.value.added, delta.value.removed;
    }
  }

  /** With another order or filter: take everything back, and sort the list, or the one of the new filter. */
  method Reorder(prev: Option<seq<Range>>, list: RoomList, recreated: RoomList, filtersChanged: bool,
                 keys: seq<SortKey>, finder: Finder)
    returns (ops: seq<Op>, roomList: RoomList)
    requires list.Valid() && recreated.Valid()
    modifies list, recreated
    ensures roomList == if filtersChanged then recreated else list
    ensures roomList.roomIDs == Resorted(keys, finder, old(roomList.roomIDs))
    ensures ops == if prev.None? then [] else InvalidateOps(prev.value, |old(list.roomIDs)|)
  {
    ops, roomList := [], list;
    if prev.Some? {
      ops := AppendInvalidates(ops, prev.value, |list.roomIDs|);
    }
    if filtersChanged {
      roomList := recreated;
    }
    var ok := roomList.Sort(keys, finder);
  }

  lemma NewOrderOps(prev: Option<seq<Range>>, next: seq<Range>, before: seq<RoomId>, after: seq<RoomId>, d: Result)
    requires Shaped(next) && AllShaped(d)
    ensures RequestOps(prev, next, before, after, true, d) ==
      (if prev.None? then [] else InvalidateOps(prev.value, |before|)) + InvalidateOps([], |after|)
      + SyncOps(next, after)
  {
  }

  lemma KeptOrderOps(prev: Option<seq<Range>>, next: seq<Range>, list: seq<RoomId>, d: Result)
    requires Shaped(next) && AllShaped(d)
    ensures RequestOps(prev, next, list, list, false, d) ==
      [] + InvalidateOps(if prev.None? then [] else d.removed, |list|) +
      SyncOps(if prev.None? then next else d.added, list)
  {
  }

  /**
   * The SYNC and INVALIDATE part of a list request. `recreated` holds the rooms of the new filter, in
   * no particular order; it replaces the list only when the filters changed.
   */
  method OnIncomingListRequest(prev: Option<seq<Range>>, next: seq<Range>, list: RoomList, recreated: RoomList,
                               sortChanged: bool, filtersChanged: bool, keys: seq<SortKey>, finder: Finder)
    returns (ops: seq<Op>, roomList: RoomList, ghost d: Result)
    requires (prev.Some? ==> Valid(prev.value)) && Valid(next) && list.Valid() && recreated.Valid()
    modifies list, recreated
    ensures roomList == if filtersChanged then recreated else list
    ensures roomList.roomIDs ==
      if sortChanged || filtersChanged then Resorted(keys, finder, old(roomList.roomIDs)) else old(roomList.roomIDs)
    ensures Shaped(next) && AllShaped(d) && (prev.Some? ==> Exact(prev.value, next, d))
    ensures ops == RequestOps(prev, next, old(list.roomIDs), roomList.roomIDs, sortChanged || filtersChanged, d)
  {
    var addedRanges, removedRanges;
    addedRanges, removedRanges, d := RangeDelta(prev, next);
    ops, roomList := [], list;
    ghost var before := list.roomIDs;
    if sortChanged || filtersChanged {
      ops, roomList := Reorder(prev, list, recreated, filtersChanged, keys, finder);
      addedRanges, removedRanges := next, [];
      NewOrderOps(prev, next, before, roomList.roomIDs, d);
    } else {
      KeptOrderOps(prev, next, before, d);
    }
    ops := AppendInvalidates(ops, removedRanges, |roomList.roomIDs|);
    ops := AppendSyncs(ops, addedRanges, roomList.roomIDs);
  }
}
