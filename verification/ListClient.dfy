/** client/sync.js: how the reference client replays list operations on its sparse room map. */
module ListClient {
  import opened Common
  import opened Ranges

  /** One entry of a list's `ops`. `Null` is a nil operation, which is serialised as a JSON null. */
  datatype Op =
    | Delete(index: int)
    | Insert(index: int, room: RoomId)
    | Invalidate(range: Range)
    | Sync(range: Range, rooms: seq<RoomId>)
    | Null

  /** `roomIndexToRoomId`. A key bound to `None` is a property whose value is undefined. */
  type Slots = map<int, Option<RoomId>>

  function At(m: Slots, i: int): Option<RoomId> { if i in m then m[i] else None }

  // ---- what each helper computes ----

  /** Tracked indexes in `(low, hi]` take their left neighbour's value. */
  ghost function ShiftedRight(rs: seq<Range>, m: Slots, hi: int, low: int): Slots {
    map i | i in m.Keys + (set j | low < j <= hi && Tracked(rs, j)) ::
      if low < i <= hi && Tracked(rs, i) then At(m, i - 1) else m[i]
  }

  /** Tracked indexes in `[low, hi)` take their right neighbour's value. */
  ghost function ShiftedLeft(rs: seq<Range>, m: Slots, hi: int, low: int): Slots {
    map i | i in m.Keys + (set j | low <= j < hi && Tracked(rs, j)) ::
      if low <= i < hi && Tracked(rs, i) then At(m, i + 1) else m[i]
  }

  lemma ShiftedNowhere(rs: seq<Range>, m: Slots, hi: int, low: int)
    requires hi <= low
    ensures ShiftedRight(rs, m, hi, low) == m && ShiftedLeft(rs, m, hi, low) == m
  {
  }

  lemma ShiftedRightStep(rs: seq<Range>, m: Slots, hi: int, i: int)
    requires i <= hi
    ensures var s := ShiftedRight(rs, m, hi, i);
      ShiftedRight(rs, m, hi, i - 1) == if Tracked(rs, i) then s[i := At(s, i - 1)] else s
  {
  }

  lemma ShiftedLeftStep(rs: seq<Range>, m: Slots, i: int, low: int)
    requires low <= i
    ensures var s := ShiftedLeft(rs, m, i, low);
      ShiftedLeft(rs, m, i + 1, low) == if Tracked(rs, i) then s[i := At(s, i + 1)] else s
  {
  }

  lemma SomeElement(s: set<int>)
    ensures s == {} || exists z :: z in s
  {
    if !exists z :: z in s {
      assert s == {};
    }
  }

  /** The largest key, undefined values included, or -1. */
  ghost function MaxKey(m: Slots): (x: int)
    ensures -1 <= x && forall k :: k in m ==> k <= x
    ensures x == -1 || x in m
    decreases |m|
  {
    if m.Keys == {} then -1
    else
      SomeElement(m.Keys);
      var k :| k in m.Keys;
      assert |m - {k}| < |m| by { assert (m - {k}).Keys == m.Keys - {k}; }
      assert forall j :: j in m ==> j == k || j in m - {k};
      Max(k, MaxKey(m - {k}))
  }

  ghost function WithoutEntry(rs: seq<Range>, m: Slots, index: int): Slots {
    var x := MaxKey(m);
    if x < 0 || index > x then m else ShiftedLeft(rs, m, x, index) - {x}
  }

  ghost function WithRoomMade(rs: seq<Range>, m: Slots, index: int): Slots {
    var x := MaxKey(m);
    if x < 0 || index > x then m else ShiftedRight(rs, m, x + 1, index)
  }

  /** The number of rooms a SYNC writes: it stops at the end of its range or of its rooms. */
  function SyncCount(range: Range, rooms: seq<RoomId>): nat {
    Min(|rooms|, Max(0, range.hi - range.lo + 1))
  }

  predicate Covers(lo: int, n: nat, i: int) { lo <= i < lo + n }

  /** `rooms` written from index `lo` on. */
  ghost function Written(m: Slots, lo: int, rooms: seq<RoomId>): Slots {
    map i | i in m.Keys + (set j | lo <= j < lo + |rooms| && Covers(lo, |rooms|, j)) ::
      if Covers(lo, |rooms|, i) then Some(rooms[i - lo]) else m[i]
  }

  /** The client between two operations: its slots and the index of a DELETE not yet closed, or -1. */
  datatype State = State(slots: Slots, gap: int)

  ghost function Step(rs: seq<Range>, st: State, op: Op): State
    requires op != Null
  {
    match op
    case Delete(i) =>
      var m := st.slots - {i};
      State(if st.gap != -1 then WithoutEntry(rs, m, st.gap) else m, i)
    case Insert(i, room) =>
      var m :=
        if At(st.slots, i).None? then st.slots
        else if st.gap < 0 then WithRoomMade(rs, st.slots, i)
        else if st.gap > i then ShiftedRight(rs, st.slots, st.gap, i)
        else if st.gap < i then ShiftedLeft(rs, st.slots, i, st.gap)
        else st.slots;
      State(m[i := Some(room)], -1)
    case Invalidate(range) =>
      st.(slots := map i | i in st.slots && !In(range, i) :: st.slots[i])
    case Sync(range, rooms) =>
      st.(slots := Written(st.slots, range.lo, rooms[..SyncCount(range, rooms)]))
  }

  ghost function Steps(rs: seq<Range>, st: State, ops: seq<Op>): State
    requires Null !in ops
    decreases ops
  {
    if ops == [] then st else Steps(rs, Step(rs, st, ops[0]), ops[1..])
  }

  /** A DELETE still open at the end of a response is closed by shifting everything above it left. */
  ghost function Closed(rs: seq<Range>, st: State): Slots {
    if st.gap != -1 then WithoutEntry(rs, st.slots, st.gap) else st.slots
  }

  /** The slots after one response's worth of operations. */
  ghost function Replay(rs: seq<Range>, m: Slots, ops: seq<Op>): Slots
    requires Null !in ops
  {
    Closed(rs, Steps(rs, State(m, -1), ops))
  }

  lemma {:induction false} StepsAppend(rs: seq<Range>, st: State, a: seq<Op>, b: seq<Op>)
    requires Null !in a && Null !in b
    ensures Steps(rs, st, a + b) == Steps(rs, Steps(rs, st, a), b)
    decreases a
  {
    if a == [] {
      assert a + b == b;
    } else {
      StepsAppend(rs, Step(rs, st, a[0]), a[1..], b);
      assert (a + b)[1..] == a[1..] + b;
    }
  }

  /** The index of the DELETE left open by some operations, which depends on nothing else. */
  function GapAfter(gap: int, ops: seq<Op>): int
    decreases ops
  {
    if ops == [] then gap
    else
      GapAfter(match ops[0] case Delete(i) => i case Insert(_, _) => -1 case _ => gap, ops[1..])
  }

  lemma {:induction false} StepsGap(rs: seq<Range>, st: State, ops: seq<Op>)
    requires Null !in ops
    ensures Steps(rs, st, ops).gap == GapAfter(st.gap, ops)
    decreases ops
  {
    if ops != [] {
      StepsGap(rs, Step(rs, st, ops[0]), ops[1..]);
    }
  }

  lemma {:induction false} GapAfterAppend(gap: int, a: seq<Op>, b: seq<Op>)
    ensures GapAfter(gap, a + b) == GapAfter(GapAfter(gap, a), b)
    decreases a
  {
    if a == [] {
      assert a + b == b;
    } else {
      GapAfterAppend(match a[0] case Delete(i) => i case Insert(_, _) => -1 case _ => gap, a[1..], b);
      assert (a + b)[1..] == a[1..] + b;
    }
  }

  lemma StepsOfTwo(rs: seq<Range>, st: State, a: Op, b: Op)
    requires a != Null && b != Null
    ensures Steps(rs, st, [a, b]) == Step(rs, Step(rs, st, a), b)
  {
    assert [a, b][1..] == [b] && [b][1..] == [];
    assert Steps(rs, Step(rs, st, a), [b]) == Steps(rs, Step(rs, Step(rs, st, a), b), []);
  }

  /** With no gap open, an INSERT where a room is shown moves every tracked room from there on one place right. */
  lemma InsertMovesRight(rs: seq<Range>, st: State, i: nat, room: RoomId, z: int)
    requires st.gap < 0 && At(st.slots, i).Some?
    ensures var after := Step(rs, st, Insert(i, room)).slots;
      At(after, z) ==
      if z == i then Some(room) else if i < z && Tracked(rs, z) then At(st.slots, z - 1) else At(st.slots, z)
  {
    assert i <= MaxKey(st.slots);
  }

  /** The first null operation is at `k`, and the operations before it have left the slots `m'`. */
  ghost predicate Throws(rs: seq<Range>, m: Slots, ops: seq<Op>, k: nat, m': Slots)
    requires k < |ops|
  {
    ops[k] == Null && Null !in ops[..k] && m' == Steps(rs, State(m, -1), ops[..k]).slots
  }

  // ---- the client itself ----

  class Client {
    var roomIndexToRoomId: Slots
    const activeRanges: seq<Range>

    constructor (ranges: seq<Range>)
      ensures activeRanges == ranges && roomIndexToRoomId == map[]
    {
      activeRanges := ranges;
      roomIndexToRoomId := map[];
    }

    method IsIndexInRange(i: int) returns (inside: bool)
      ensures inside <==> Tracked(activeRanges, i)
    {
      for k := 0 to |activeRanges|
        invariant forall j :: 0 <= j < k ==> !In(activeRanges[j], i)
      {
        if In(activeRanges[k], i) {
          return true;
        }
      }
      return false;
    }

    method ShiftRight(hi: int, low: int)
      modifies this
      ensures roomIndexToRoomId == ShiftedRight(activeRanges, old(roomIndexToRoomId), hi, low)
    {
      var i := hi;
      ShiftedNowhere(activeRanges, roomIndexToRoomId, hi, hi);
      ShiftedNowhere(activeRanges, roomIndexToRoomId, hi, Max(hi, low));
      while i > low
        invariant if low < hi then low <= i <= hi else i == hi
        invariant roomIndexToRoomId == ShiftedRight(activeRanges, old(roomIndexToRoomId), hi, i)
      {
        var inside := IsIndexInRange(i);
        ShiftedRightStep(activeRanges, old(roomIndexToRoomId), hi, i);
        if inside {
          roomIndexToRoomId := roomIndexToRoomId[i := At(roomIndexToRoomId, i - 1)];
        }
        i := i - 1;
      }
    }

    method ShiftLeft(hi: int, low: int)
      modifies this
      ensures roomIndexToRoomId == ShiftedLeft(activeRanges, old(roomIndexToRoomId), hi, low)
    {
      var i := low;
      ShiftedNowhere(activeRanges, roomIndexToRoomId, low, low);
      ShiftedNowhere(activeRanges, roomIndexToRoomId, Min(hi, low), low);
      while i < hi
        invariant if low < hi then low <= i <= hi else i == low
        invariant roomIndexToRoomId == ShiftedLeft(activeRanges, old(roomIndexToRoomId), i, low)
      {
        var inside := IsIndexInRange(i);
        ShiftedLeftStep(activeRanges, old(roomIndexToRoomId), i, low);
        if inside {
          roomIndexToRoomId := roomIndexToRoomId[i := At(roomIndexToRoomId, i + 1)];
        }
        i := i + 1;
      }
    }

    method MaxIndex() returns (max: int)
      ensures max == MaxKey(roomIndexToRoomId)
    {
      max := -1;
      var left := roomIndexToRoomId.Keys;
      while left != {}
        invariant left <= roomIndexToRoomId.Keys
        invariant -1 <= max && forall k :: k in roomIndexToRoomId && k !in left ==> k <= max
        invariant max == -1 || max in roomIndexToRoomId
        decreases |left|
      {
        SomeElement(left);
        var n :| n in left;
        if n > max {
          max := n;
        }
        left := left - {n};
      }
    }

    method RemoveEntry(index: int)
      modifies this
      ensures roomIndexToRoomId == WithoutEntry(activeRanges, old(roomIndexToRoomId), index)
    {
      var max := MaxIndex();
      if max < 0 || index > max {
        return;
      }
      ShiftLeft(max, index);
      roomIndexToRoomId := roomIndexToRoomId - {max};
    }

    method AddEntry(index: int)
      modifies this
      ensures roomIndexToRoomId == WithRoomMade(activeRanges, old(roomIndexToRoomId), index)
    {
      var max := MaxIndex();
      if max < 0 || index > max {
        return;
      }
      ShiftRight(max + 1, index);
    }

    method InvalidateRange(range: Range)
      modifies this
      ensures State(roomIndexToRoomId, -1) ==
        Step(activeRanges, State(old(roomIndexToRoomId), -1), Invalidate(range))
    {
      var i := range.lo;
      while i <= range.hi
        invariant range.lo <= i
        invariant i <= range.hi + 1 || i == range.lo
        invariant roomIndexToRoomId ==
          map k | k in old(roomIndexToRoomId) && !(range.lo <= k < i) :: old(roomIndexToRoomId)[k]
      {
        roomIndexToRoomId := roomIndexToRoomId - {i};
        i := i + 1;
      }
    }

    method SyncRange(range: Range, rooms: seq<RoomId>)
      modifies this
      ensures State(roomIndexToRoomId, -1) ==
        Step(activeRanges, State(old(roomIndexToRoomId), -1), Sync(range, rooms))
    {
      var i := range.lo;
      while i <= range.hi && i - range.lo < |rooms|
        invariant range.lo <= i <= range.lo + SyncCount(range, rooms)
        invariant roomIndexToRoomId == Written(old(roomIndexToRoomId), range.lo, rooms[..i - range.lo])
      {
        roomIndexToRoomId := roomIndexToRoomId[i := Some(rooms[i - range.lo])];
        i := i + 1;
      }
    }

    /**
     * One pass over a list's operations, as the sync loop makes for every response. A null operation makes the
     * client throw, with what came before it done and no gap closed.
     */
    method ProcessOps(ops: seq<Op>) returns (throws: bool)
      modifies this
      ensures throws <==> Null in ops
      ensures !throws ==> roomIndexToRoomId == Replay(activeRanges, old(roomIndexToRoomId), ops)
      ensures throws ==>
        exists k :: 0 <= k < |ops| && Throws(activeRanges, old(roomIndexToRoomId), ops, k, roomIndexToRoomId)
    {
      var gapIndex := -1;
      for k := 0 to |ops|
        invariant Null !in ops[..k]
        invariant State(roomIndexToRoomId, gapIndex) ==
          Steps(activeRanges, State(old(roomIndexToRoomId), -1), ops[..k])
      {
        if ops[k] == Null {
          assert Throws(activeRanges, old(roomIndexToRoomId), ops, k, roomIndexToRoomId);
          return true;
        }
        StepsAppend(activeRanges, State(old(roomIndexToRoomId), -1), ops[..k], [ops[k]]);
        assert ops[..k + 1] == ops[..k] + [ops[k]];
        ghost var before := State(roomIndexToRoomId, gapIndex);
        match ops[k] {
          case Delete(index) =>
            roomIndexToRoomId := roomIndexToRoomId - {index};
            if gapIndex != -1 {
              RemoveEntry(gapIndex);
            }
            gapIndex := index;
          case Insert(index, room) =>
            if At(roomIndexToRoomId, index).Some? {
              if gapIndex < 0 {
                AddEntry(index);
              } else if gapIndex > index {
                ShiftRight(gapIndex, index);
              } else if gapIndex < index {
                ShiftLeft(index, gapIndex);
              }
            }
            gapIndex := -1;
            roomIndexToRoomId := roomIndexToRoomId[index := Some(room)];
          case Invalidate(range) =>
            InvalidateRange(range);
          case Sync(range, rooms) =>
            SyncRange(range, rooms);
        }
        assert State(roomIndexToRoomId, gapIndex) == Step(activeRanges, before, ops[k]);
      }
      assert ops[..|ops|] == ops;
      if gapIndex != -1 {
        RemoveEntry(gapIndex);
      }
      return false;
    }
  }
}
