/** sync3/ops.go: the operations the server sends when one room of a list changes. */
module ListOps {
  import opened Common
  import opened Ranges
  import opened MoveIndexes
  import opened RoomOrder
  import opened SortableRooms
  import opened ListClient

  datatype ListOp = Add | Del | Change

  /** `Panic` is an index past the end of the list, which stops the request. */
  datatype Outcome = Panic | Done(ops: seq<Op>, subs: seq<RoomId>)

  /** One room's change, once the list has been modified. */
  datatype Update = Update(list: seq<RoomId>, room: RoomId, op: ListOp, from: int, to: int, wasInside: bool)

  function WriteDeleteOp(rs: seq<Range>, index: int): Op {
    if index < 0 || Inside(rs, index).None? then Null else Delete(index)
  }

  /** The room is moving from an index to the same index. */
  predicate IsNoOp(u: Update, p: Pair, single: bool)
    requires 0 <= p.1 < |u.list|
  {
    u.list[p.1] == u.room && p.0 == p.1 && u.op.Change? && u.wasInside && single
  }

  /** The client can fill the hole by itself: the room to shift in was sent already. */
  predicate IsLoneDelete(rs: seq<Range>, u: Update, p: Pair)
    requires 0 <= p.1 < |u.list|
  {
    p.1 == u.to && u.op.Del? &&
    (u.list[p.1] == u.room || (p.1 == |u.list| - 1 && Inside(rs, |u.list|).Some?))
  }

  function PairOps(rs: seq<Range>, u: Update, p: Pair, single: bool): seq<Op>
    requires 0 <= p.1 < |u.list|
  {
    if IsNoOp(u, p, single) then []
    else if IsLoneDelete(rs, u, p) then [WriteDeleteOp(rs, p.0)]
    else [Delete(p.0), Insert(p.1, u.list[p.1])]
  }

  /** Rooms to send in full because this pair brings them into the window. */
  function PairSubs(rs: seq<Range>, u: Update, p: Pair, single: bool): seq<RoomId>
    requires 0 <= p.1 < |u.list|
  {
    if IsNoOp(u, p, single) || IsLoneDelete(rs, u, p) then []
    else if p.1 != u.to || !u.wasInside || u.op.Add? then [u.list[p.1]]
    else []
  }

  function PairsOutcome(rs: seq<Range>, u: Update, pairs: seq<Pair>, single: bool): Outcome {
    if pairs == [] then Done([], [])
    else if !(0 <= pairs[0].1 < |u.list|) then Panic
    else match PairsOutcome(rs, u, pairs[1..], single)
      case Panic => Panic
      case Done(ops, subs) =>
        Done(PairOps(rs, u, pairs[0], single) + ops, PairSubs(rs, u, pairs[0], single) + subs)
  }

  function UpdateOutcome(rs: seq<Range>, u: Update): Outcome {
    var pairs := ClampAll(MovedRanges(rs, u.from, u.to), u.from, u.to);
    PairsOutcome(rs, u, pairs, |pairs| == 1)
  }

  function IndexIn(s: seq<RoomId>, x: RoomId): (k: nat)
    requires x in s
    ensures k < |s| && s[k] == x
  {
    if s[0] == x then 0 else 1 + IndexIn(s[1..], x)
  }

  function ListAfter(list: seq<RoomId>, op: ListOp, room: RoomId, keys: seq<SortKey>, finder: Finder): seq<RoomId> {
    match op
    case Add => Resorted(keys, finder, if room in list then list else list + [room])
    case Del => if room in list then RemoveAt(list, IndexIn(list, room)) else list
    case Change => if room in list then Resorted(keys, finder, list) else list
  }

  /** What the server knows of the change after modifying the list. */
  function UpdateOf(rs: seq<Range>, list: seq<RoomId>, op: ListOp, room: RoomId, after: seq<RoomId>): Update
    requires op.Del? || room in after
  {
    var from := if room in list then IndexIn(list, room) else |list|;
    Update(after, room, op, from,
      if op.Del? then |after| - 1 else IndexIn(after, room),
      !op.Add? && Inside(rs, from).Some?)
  }

  lemma RoomStays(list: seq<RoomId>, op: ListOp, room: RoomId, keys: seq<SortKey>, finder: Finder)
    requires op.Add? || (op.Change? && room in list)
    ensures room in ListAfter(list, op, room, keys, finder)
  {
    ResortedKeeps(keys, finder, if room in list then list else list + [room]);
  }

  /** The outcome of one update as a function of the list, the ranges and the new room data. */
  function ServerOps(rs: seq<Range>, list: seq<RoomId>, op: ListOp, room: RoomId,
                     keys: seq<SortKey>, finder: Finder): Outcome
  {
    if room !in list && !op.Add? then Done([], [])
    else
      var after := ListAfter(list, op, room, keys, finder);
      if op.Del? && after == [] then Done([WriteDeleteOp(rs, 0)], [])
      else
        assert op.Del? || room in after by { if !op.Del? { RoomStays(list, op, room, keys, finder); } }
        var u := UpdateOf(rs, list, op, room, after);
        UpdateOutcome(rs, u)
  }

  lemma Regrouped<T>(a: seq<T>, b: seq<T>, c: seq<T>)
    ensures (a + b) + c == a + (b + c)
  {
  }

  lemma {:induction false} OutcomeAppend(rs: seq<Range>, u: Update, a: seq<Pair>, p: Pair, single: bool)
    requires PairsOutcome(rs, u, a, single).Done?
    ensures PairsOutcome(rs, u, a + [p], single) ==
      if !(0 <= p.1 < |u.list|) then Panic
      else Done(PairsOutcome(rs, u, a, single).ops + PairOps(rs, u, p, single),
                PairsOutcome(rs, u, a, single).subs + PairSubs(rs, u, p, single))
  {
    if a != [] {
      OutcomeAppend(rs, u, a[1..], p, single);
      assert (a + [p])[1..] == a[1..] + [p];
      var o := PairsOutcome(rs, u, a[1..], single);
      if 0 <= p.1 < |u.list| {
        Regrouped(PairOps(rs, u, a[0], single), o.ops, PairOps(rs, u, p, single));
        Regrouped(PairSubs(rs, u, a[0], single), o.subs, PairSubs(rs, u, p, single));
      }
    } else {
      assert a + [p] == [p];
    }
  }

  lemma {:induction false} PanicStays(rs: seq<Range>, u: Update, a: seq<Pair>, b: seq<Pair>, single: bool)
    requires PairsOutcome(rs, u, a, single).Panic?
    ensures PairsOutcome(rs, u, a + b, single).Panic?
  {
    assert (a + b)[1..] == a[1..] + b;
    if 0 <= a[0].1 < |u.list| {
      PanicStays(rs, u, a[1..], b, single);
    }
  }

  /** The loop over moves: a DELETE/INSERT pair each, or nothing, or a DELETE alone. */
  method OpsForPairs(rs: seq<Range>, u: Update, listFromTos: seq<Pair>) returns (r: Outcome)
    ensures r == PairsOutcome(rs, u, listFromTos, |listFromTos| == 1)
  {
    ghost var single := |listFromTos| == 1;
    var ops: seq<Op>, subs: seq<RoomId> := [], [];
    for k := 0 to |listFromTos|
      invariant PairsOutcome(rs, u, listFromTos[..k], single) == Done(ops, subs)
    {
      var p := listFromTos[k];
      var wasUpdatedRoomInserted := p.1 == u.to;
      OutcomeAppend(rs, u, listFromTos[..k], p, single);
      assert listFromTos[..k + 1] == listFromTos[..k] + [p];
      assert listFromTos == listFromTos[..k + 1] + listFromTos[k + 1..];
      if !(0 <= p.1 < |u.list|) {
        PanicStays(rs, u, listFromTos[..k + 1], listFromTos[k + 1..], single);
        return Panic;
      }
      var toRoomID := u.list[p.1];
      if toRoomID == u.room && p.0 == p.1 && u.op.Change? && u.wasInside && |listFromTos| == 1 {
        continue;
      }
      if wasUpdatedRoomInserted && u.op.Del? {
        if toRoomID == u.room || (p.1 == |u.list| - 1 && Inside(rs, |u.list|).Some?) {
          ops := ops + [WriteDeleteOp(rs, p.0)];
          continue;
        }
      }
      ops := ops + [Delete(p.0), Insert(p.1, toRoomID)];
      var addedSub := false;
      if !wasUpdatedRoomInserted || !u.wasInside {
        subs := subs + [toRoomID];
        addedSub := true;
      }
      if wasUpdatedRoomInserted && u.op.Add? && !addedSub {
        subs := subs + [toRoomID];
      }
    }
    assert listFromTos[..|listFromTos|] == listFromTos;
    return Done(ops, subs);
  }

  lemma IndexInUnique(s: seq<RoomId>, k: nat)
    requires NoDup(s) && k < |s|
    ensures IndexIn(s, s[k]) == k
  {
  }

  /** Sort, then find where the room has moved to. */
  method Resort(list: RoomList, keys: seq<SortKey>, finder: Finder, room: RoomId) returns (toIndex: nat)
    requires list.Indexed() && room in list.roomIDs
    modifies list
    ensures list.Indexed() && list.roomIDs == Resorted(keys, finder, old(list.roomIDs))
    ensures room in list.roomIDs && toIndex == IndexIn(list.roomIDs, room)
  {
    ResortedKeeps(keys, finder, list.roomIDs);
    var ok := list.Sort(keys, finder);
    var to := list.IndexOf(room);
    IndexInUnique(list.roomIDs, to.value);
    return to.value;
  }

  /** Adds, removes or re-sorts, and says where the room is now; a removed room went past the end. */
  method Apply(list: RoomList, keys: seq<SortKey>, finder: Finder, room: RoomId, op: ListOp) returns (toIndex: int)
    requires list.Indexed() && (op.Add? || room in list.roomIDs)
    modifies list
    ensures list.Indexed() && list.roomIDs == ListAfter(old(list.roomIDs), op, room, keys, finder)
    ensures op.Del? ==> toIndex == |list.roomIDs| - 1
    ensures !op.Del? ==> room in list.roomIDs && toIndex == IndexIn(list.roomIDs, room)
  {
    match op {
      case Add =>
        var added := list.Add(room);
        toIndex := Resort(list, keys, finder, room);
      case Del =>
        var gone := list.Remove(room);
        IndexInUnique(old(list.roomIDs), gone);
        toIndex := |list.roomIDs| - 1;
      case Change =>
        toIndex := Resort(list, keys, finder, room);
    }
  }

  /** Modifies the list and works out what to tell the client. */
  method CalculateListOps(rs: seq<Range>, list: RoomList, keys: seq<SortKey>, finder: Finder,
                          room: RoomId, op: ListOp)
    returns (r: Outcome)
    requires Valid(rs) && list.Indexed()
    modifies list
    ensures list.Indexed()
    ensures list.roomIDs == ListAfter(old(list.roomIDs), op, room, keys, finder)
    ensures r == ServerOps(rs, old(list.roomIDs), op, room, keys, finder)
  {
    var at := list.IndexOf(room);
    if at.None? && !op.Add? {
      return Done([], []);
    }
    var fromIndex := if at.Some? then at.value else |list.roomIDs|;
    if at.Some? {
      IndexInUnique(list.roomIDs, at.value);
    }
    var wasInside := !op.Add? && Inside(rs, fromIndex).Some?;
    var toIndex := Apply(list, keys, finder, room, op);
    if toIndex == -1 {
      return Done([WriteDeleteOp(rs, 0)], []);
    }
    ghost var u := Update(list.roomIDs, room, op, fromIndex, toIndex, wasInside);
    assert u == UpdateOf(rs, old(list.roomIDs), op, room, list.roomIDs);
    var listFromTos := CalculateMoveIndexes(rs, fromIndex, toIndex);
    r := OpsForPairs(rs, Update(list.roomIDs, room, op, fromIndex, toIndex, wasInside), listFromTos);
  }
}
