/** state/storage.go: reading a room's state, and its latest event, at a position in the event stream. */
module StateAtPosition {
  import opened Common
  import opened EventLog
  import opened Snapshots
  import opened RoomTables
  import opened Accumulator

  /** The highest row number of the room up to `pos`, or 0. */
  function LatestUpTo(events: seq<Slot>, room: RoomId, pos: int): (n: int)
    ensures n == 0 || (InRoom(events, room, n) && n <= pos)
    ensures forall i :: n < i <= pos ==> !InRoom(events, room, i)
    decreases if pos < 0 then 0 else pos
  {
    if pos <= 0 then 0
    else if InRoom(events, room, pos) then pos
    else LatestUpTo(events, room, pos - 1)
  }

  datatype Read = Absent | Unreadable | Found(nids: seq<Nid>)

  /** The event's effect on a loaded snapshot: replace what it supersedes, else append it unless it is there. */
  function RolledTo(events: seq<Slot>, nids: seq<Nid>, n: Nid, supersedes: Nid): seq<Nid>
    requires HasRow(events, n)
  {
    if RowAt(events, n).event.stateKey.None? then nids
    else if supersedes != 0 then Substitute(nids, supersedes, n)
    else if n in nids then nids
    else nids + [n]
  }

  /** The first occurrence of `a` replaced by `b`. */
  function Substitute(nids: seq<Nid>, a: Nid, b: Nid): seq<Nid> {
    if nids == [] then [] else if nids[0] == a then [b] + nids[1..] else [nids[0]] + Substitute(nids[1..], a, b)
  }

  lemma {:induction false} SubstituteAt(nids: seq<Nid>, a: Nid, b: Nid, h: nat)
    requires h < |nids| && nids[h] == a && forall i :: 0 <= i < h ==> nids[i] != a
    ensures Substitute(nids, a, b) == nids[h := b]
  {
    if h > 0 {
      SubstituteAt(nids[1..], a, b, h - 1);
    }
  }

  // ---- what the shortcut returns ----

  /** The state after the last event of the room at or before `pos`. */
  ghost function StateUpTo(events: seq<Slot>, room: RoomId, pos: int): State {
    Fold(events, room, Max(0, Min(pos, |events|)))
  }

  lemma StateUpToLatest(events: seq<Slot>, room: RoomId, pos: int, n: Nid)
    requires n == LatestUpTo(events, room, pos) && n > 0
    ensures StateUpTo(events, room, pos) == Fold(events, room, n)
  {
    FoldStable(events, room, n, Min(pos, |events|));
  }

  /** Rolling a before-snapshot forward over its own event gives the state after the event. */
  lemma RolledForwardState(events: seq<Slot>, room: RoomId, n: Nid, nids: seq<Nid>, supersedes: Nid)
    requires InRoom(events, room, n) && !RowAt(events, n).inStateBlock
    requires Represents(events, nids, Fold(events, room, n - 1))
    requires var s := Fold(events, room, n - 1);
      supersedes == if IsState(RowAt(events, n)) && KeyAt(events, n) in s then s[KeyAt(events, n)] else 0
    ensures Represents(events, RolledTo(events, nids, n, supersedes), Fold(events, room, n))
  {
    var s, k := Fold(events, room, n - 1), KeyAt(events, n);
    NotYetInState(events, room, nids, n);
    if RowAt(events, n).event.stateKey.Some? {
      var h := |nids|;
      if k in s {
        h :| 0 <= h < |nids| && nids[h] == s[k];
        FoldValues(events, room, n - 1, k);
        SubstituteAt(nids, s[k], n, h);
      }
      RolledForward(events, nids, s, n, h);
    }
  }

  /** Rolling a snapshot over an event it already holds changes nothing. */
  lemma AlreadyRolled(events: seq<Slot>, room: RoomId, n: Nid, nids: seq<Nid>)
    requires InRoom(events, room, n) && Represents(events, nids, Fold(events, room, |events|))
    requires forall i :: n < i <= |events| ==> !IsStateIn(events, room, i)
    ensures RolledTo(events, nids, n, 0) == nids
  {
    if RowAt(events, n).event.stateKey.Some? {
      FoldLast(events, room, n);
    }
  }

  // ---- reading the state ----

  /** The event a read starts from: the room's recorded last row if it is not past `pos`, else a search. */
  function StartRow(db: DB, room: RoomId, pos: int): Nid
    requires room in db.rooms
  {
    if db.rooms[room].latest <= pos then db.rooms[room].latest else LatestUpTo(db.events, room, pos)
  }

  /** The read as the tables answer it: unfiltered, for one room. */
  function ReadState(db: DB, room: RoomId, pos: int): Read {
    if room !in db.rooms then Absent
    else
      var n := StartRow(db, room, pos);
      if !HasRow(db.events, n) then Absent
      else
        var snap := if BeforeOf(db, n) == 0 then CurrentOf(db, room) else BeforeOf(db, n);
        if snap == 0 then Unreadable
        else
          var rolled := RolledTo(db.events, SnapNids(db.snapshots, snap), n, ReplacesOf(db, n));
          var nids := Selected(db.events, rolled, |db.events|);
          if |nids| == |rolled| then Found(nids) else Unreadable
  }

  /** The recorded last row is what a search would find. */
  lemma StartRowIsLatest(db: DB, room: RoomId, pos: int)
    requires Inv(db) && room in db.rooms
    ensures StartRow(db, room, pos) == LatestUpTo(db.events, room, pos)
  {
    assert RoomOk(db, room);
  }

  lemma FoundRepresents(db: DB, room: RoomId, pos: int, snap: int, s: State)
    requires room in db.rooms && HasRow(db.events, StartRow(db, room, pos))
    requires var n := StartRow(db, room, pos);
      && snap == (if BeforeOf(db, n) == 0 then CurrentOf(db, room) else BeforeOf(db, n)) && snap != 0
      && Represents(db.events, RolledTo(db.events, SnapNids(db.snapshots, snap), n, ReplacesOf(db, n)), s)
    ensures ReadState(db, room, pos).Found? && Represents(db.events, ReadState(db, room, pos).nids, s)
  {
    var n := StartRow(db, room, pos);
    SelectedRepresents(db.events, RolledTo(db.events, SnapNids(db.snapshots, snap), n, ReplacesOf(db, n)), s);
  }

  /** The read returned exactly the state `s`. */
  ghost predicate Returns(db: DB, room: RoomId, pos: int, s: State) {
    ReadState(db, room, pos).Found? && Represents(db.events, ReadState(db, room, pos).nids, s)
  }

  lemma ReadFromBefore(db: DB, room: RoomId, pos: int)
    requires Inv(db) && room in db.rooms
    requires var n := LatestUpTo(db.events, room, pos); n > 0 && BeforeOf(db, n) != 0
    ensures Returns(db, room, pos, StateUpTo(db.events, room, pos))
  {
    var n := LatestUpTo(db.events, room, pos);
    StartRowIsLatest(db, room, pos);
    assert RowOk(db, n);
    StateUpToLatest(db.events, room, pos, n);
    RolledForwardState(db.events, room, n, SnapNids(db.snapshots, BeforeOf(db, n)), ReplacesOf(db, n));
    FoundRepresents(db, room, pos, BeforeOf(db, n), Fold(db.events, room, n));
  }

  /** A row without a before-snapshot supersedes nothing. */
  lemma NothingSuperseded(db: DB, n: Nid)
    requires Inv(db) && HasRow(db.events, n) && BeforeOf(db, n) == 0
    ensures ReplacesOf(db, n) == 0
  {
    assert RowOk(db, n);
  }

  lemma ReadFromCurrent(db: DB, room: RoomId, pos: int)
    requires Inv(db) && room in db.rooms && CurrentOf(db, room) != 0
    requires var n := LatestUpTo(db.events, room, pos);
      n > 0 && BeforeOf(db, n) == 0 && forall i :: n < i <= |db.events| ==> !IsStateIn(db.events, room, i)
    ensures Returns(db, room, pos, StateUpTo(db.events, room, pos))
  {
    var n := LatestUpTo(db.events, room, pos);
    StartRowIsLatest(db, room, pos);
    assert RoomOk(db, room);
    StateUpToLatest(db.events, room, pos, n);
    FoldStable(db.events, room, n, |db.events|);
    NothingSuperseded(db, n);
    AlreadyRolled(db.events, room, n, SnapNids(db.snapshots, CurrentOf(db, room)));
    FoundRepresents(db, room, pos, CurrentOf(db, room), Fold(db.events, room, |db.events|));
  }

  lemma {:induction false} LastStateRow(events: seq<Slot>, room: RoomId, i: Nid) returns (v: Nid)
    requires IsStateIn(events, room, i)
    ensures i <= v && IsStateIn(events, room, v) && forall j :: v < j <= |events| ==> !IsStateIn(events, room, j)
    decreases |events| - i
  {
    if j :| i < j <= |events| && IsStateIn(events, room, j) {
      v := LastStateRow(events, room, j);
    } else {
      v := i;
    }
  }

  /** Without a before-snapshot the current state is returned, so a later state event shows through. */
  lemma ReadTooFarAhead(db: DB, room: RoomId, pos: int, i: Nid)
    requires Inv(db) && room in db.rooms
    requires var n := LatestUpTo(db.events, room, pos);
      n > 0 && BeforeOf(db, n) == 0 && n < i && IsStateIn(db.events, room, i)
    ensures !Returns(db, room, pos, StateUpTo(db.events, room, pos))
  {
    var n, r := LatestUpTo(db.events, room, pos), ReadState(db, room, pos);
    StartRowIsLatest(db, room, pos);
    assert RoomOk(db, room);
    NothingSuperseded(db, n);
    if r.Found? {
      var v := LastStateRow(db.events, room, i);
      FoldLast(db.events, room, v);
      var nids := SnapNids(db.snapshots, CurrentOf(db, room));
      assert v in nids;
      var rolled := RolledTo(db.events, nids, n, 0);
      assert v in rolled;
      SelectedExactly(db.events, rolled, |db.events|);
      StateUpToLatest(db.events, room, pos, n);
      if Returns(db, room, pos, Fold(db.events, room, n)) {
        assert Holds(db.events, Fold(db.events, room, n), v);
        FoldValues(db.events, room, n, KeyAt(db.events, v));
      }
    }
  }

  /**
   * Roll-forward equals history. At any position with an event of the room at or before it, the read
   * returns exactly the state folded over history up to there if and only if that event has a
   * before-snapshot, or the room has a snapshot and no state event was stored after it.
   */
  lemma ReadIsHistoryExactly(db: DB, room: RoomId, pos: int)
    requires Inv(db) && room in db.rooms && LatestUpTo(db.events, room, pos) > 0
    ensures var n := LatestUpTo(db.events, room, pos);
      Returns(db, room, pos, StateUpTo(db.events, room, pos)) <==>
      (BeforeOf(db, n) != 0 ||
       (CurrentOf(db, room) != 0 && forall i :: n < i <= |db.events| ==> !IsStateIn(db.events, room, i)))
  {
    var n := LatestUpTo(db.events, room, pos);
    StartRowIsLatest(db, room, pos);
    if BeforeOf(db, n) != 0 {
      ReadFromBefore(db, room, pos);
    } else if i :| n < i <= |db.events| && IsStateIn(db.events, room, i) {
      ReadTooFarAhead(db, room, pos, i);
    } else if CurrentOf(db, room) != 0 {
      ReadFromCurrent(db, room, pos);
    }
  }

  /** Rolled over a row that supersedes nothing, a snapshot still loads in full. */
  lemma RolledLoads(events: seq<Slot>, nids: seq<Nid>, s: State, n: Nid)
    requires HasRow(events, n) && Represents(events, nids, s)
    ensures |Selected(events, RolledTo(events, nids, n, 0), |events|)| == |RolledTo(events, nids, n, 0)|
  {
    assert forall i :: 0 <= i < |nids| ==> nids[i] in nids && Holds(events, s, nids[i]);
    SelectedShort(events, RolledTo(events, nids, n, 0));
  }

  /**
   * A room is left out of the answer exactly when it has no event at or before the position, and makes the whole
   * read fail exactly when that event has no before-snapshot and the room no current one.
   */
  lemma ReadFailsExactly(db: DB, room: RoomId, pos: int)
    requires Inv(db)
    ensures var n, r := LatestUpTo(db.events, room, pos), ReadState(db, room, pos);
      && (r.Absent? <==> n == 0)
      && (r.Unreadable? <==> n > 0 && BeforeOf(db, n) == 0 && CurrentOf(db, room) == 0)
  {
    var n := LatestUpTo(db.events, room, pos);
    if n > 0 {
      assert RoomOk(db, room);
      StartRowIsLatest(db, room, pos);
      if BeforeOf(db, n) != 0 {
        ReadFromBefore(db, room, pos);
      } else if CurrentOf(db, room) != 0 {
        NothingSuperseded(db, n);
        RolledLoads(db.events, SnapNids(db.snapshots, CurrentOf(db, room)), Fold(db.events, room, |db.events|), n);
      }
    } else if room in db.rooms {
      StartRowIsLatest(db, room, pos);
    }
  }

  /** At or past the room's last event the read returns exactly the current snapshot's state. */
  lemma ReadAtTheEnd(db: DB, room: RoomId, pos: int)
    requires Inv(db) && room in db.rooms && db.rooms[room].latest <= pos && CurrentOf(db, room) != 0
    ensures Returns(db, room, pos, Fold(db.events, room, |db.events|))
    ensures SnapHolds(db, CurrentOf(db, room), Fold(db.events, room, |db.events|))
  {
    assert RoomOk(db, room);
    var n := db.rooms[room].latest;
    StartRowIsLatest(db, room, pos);
    ReadIsHistoryExactly(db, room, pos);
    StateUpToLatest(db.events, room, pos, n);
    FoldStable(db.events, room, n, |db.events|);
  }

  // ---- the queries ----

  lemma {:induction false} SubstituteNone(nids: seq<Nid>, a: Nid, b: Nid)
    requires forall i :: 0 <= i < |nids| ==> nids[i] != a
    ensures Substitute(nids, a, b) == nids
  {
    if nids != [] {
      SubstituteNone(nids[1..], a, b);
    }
  }

  method ReplaceFirst(snapshot: seq<Nid>, a: Nid, b: Nid) returns (nids: seq<Nid>)
    ensures nids == Substitute(snapshot, a, b)
  {
    nids := snapshot;
    for j := 0 to |nids|
      invariant nids == snapshot && forall i :: 0 <= i < j ==> snapshot[i] != a
    {
      if nids[j] == a {
        SubstituteAt(snapshot, a, b, j);
        nids := nids[j := b];
        return;
      }
    }
    SubstituteNone(snapshot, a, b);
  }

  method RollSnapshot(events: seq<Slot>, snapshot: seq<Nid>, n: Nid, supersedes: Nid) returns (nids: seq<Nid>)
    requires HasRow(events, n)
    ensures nids == RolledTo(events, snapshot, n, supersedes)
  {
    nids := snapshot;
    if RowAt(events, n).event.stateKey.Some? {
      if supersedes != 0 {
        nids := ReplaceFirst(snapshot, supersedes, n);
      } else {
        var alreadyExists := false;
        for j := 0 to |nids|
          invariant alreadyExists <==> n in snapshot[..j]
        {
          alreadyExists := alreadyExists || nids[j] == n;
        }
        assert snapshot[..|snapshot|] == snapshot;
        if !alreadyExists {
          nids := nids + [n];
        }
      }
    }
  }

  method ReadOneRoom(db: DB, room: RoomId, pos: int) returns (r: Read)
    ensures r == ReadState(db, room, pos)
  {
    if room !in db.rooms {
      return Absent;
    }
    var n := db.rooms[room].latest;
    if n > pos {
      n := LatestUpTo(db.events, room, pos);
    }
    if !HasRow(db.events, n) {
      return Absent;
    }
    var snap := BeforeOf(db, n);
    if snap == 0 {
      snap := CurrentOf(db, room);
    }
    if snap == 0 {
      return Unreadable;
    }
    var rolled := RollSnapshot(db.events, SnapNids(db.snapshots, snap), n, ReplacesOf(db, n));
    var nids := Selected(db.events, rolled, |db.events|);
    return if |nids| == |rolled| then Found(nids) else Unreadable;
  }

  /** Reads several rooms at once; one unreadable room fails the whole query. */
  method RoomStateAfterEventPosition(db: DB, rooms: seq<RoomId>, pos: int) returns (r: Option<map<RoomId, seq<Nid>>>)
    ensures r.None? <==> exists room :: room in rooms && ReadState(db, room, pos).Unreadable?
    ensures r.Some? ==> forall room :: room in r.value <==> room in rooms && ReadState(db, room, pos).Found?
    ensures r.Some? ==> forall room :: room in r.value ==> ReadState(db, room, pos) == Found(r.value[room])
  {
    var found: map<RoomId, seq<Nid>> := map[];
    for i := 0 to |rooms|
      invariant forall j :: 0 <= j < i ==> !ReadState(db, rooms[j], pos).Unreadable?
      invariant forall room :: room in found <==> room in rooms[..i] && ReadState(db, room, pos).Found?
      invariant forall room :: room in found ==> ReadState(db, room, pos) == Found(found[room])
    {
      assert forall room :: room in rooms[..i + 1] <==> room in rooms[..i] || room == rooms[i];
      var one := ReadOneRoom(db, rooms[i], pos);
      match one {
        case Unreadable => return None;
        case Found(nids) => found := found[rooms[i] := nids];
        case Absent =>
      }
    }
    assert rooms[..|rooms|] == rooms;
    return Some(found);
  }

  /** The recorded last row where it is not past `highest`, a search of the events table elsewhere. */
  method LatestEventNIDInRooms(db: DB, rooms: seq<RoomId>, highest: int) returns (r: map<RoomId, Nid>)
    requires Inv(db)
    ensures forall room :: room in r <==> room in rooms && LatestUpTo(db.events, room, highest) > 0
    ensures forall room :: room in r ==> r[room] == LatestUpTo(db.events, room, highest)
  {
    StartRowsAreLatest(db, highest);
    var slow;
    r, slow := FastLatestNids(db, rooms, highest);
    for i := 0 to |slow|
      invariant LatestNids(db, rooms, highest, r, slow[i..])
    {
      assert forall room :: room in slow[i..] <==> room == slow[i] || room in slow[i + 1..];
      var nid := LatestUpTo(db.events, slow[i], highest);
      if nid > 0 {
        r := r[slow[i] := nid];
      }
    }
  }

  /** What has been found is right, and what has not is still to be looked for or not there. */
  ghost predicate LatestNids(db: DB, rooms: seq<RoomId>, highest: int, r: map<RoomId, Nid>, left: seq<RoomId>) {
    && (forall room :: room in left ==> room in rooms)
    && (forall room :: room in r ==> room in rooms && 0 < r[room] == LatestUpTo(db.events, room, highest))
    && (forall room :: room in rooms ==> room in r || room in left || LatestUpTo(db.events, room, highest) == 0)
  }

  /** What is recorded as a room's last row is its last row up to any position that is not before it. */
  ghost predicate StartRowsRight(db: DB, highest: int) {
    forall room :: room in db.rooms && 0 < db.rooms[room].latest <= highest ==>
      db.rooms[room].latest == LatestUpTo(db.events, room, highest)
  }

  lemma StartRowsAreLatest(db: DB, highest: int)
    requires Inv(db)
    ensures StartRowsRight(db, highest)
  {
    forall room | room in db.rooms && 0 < db.rooms[room].latest <= highest
      ensures db.rooms[room].latest == LatestUpTo(db.events, room, highest)
    {
      StartRowIsLatest(db, room, highest);
    }
  }

  method FastLatestNids(db: DB, rooms: seq<RoomId>, highest: int) returns (r: map<RoomId, Nid>, slow: seq<RoomId>)
    requires StartRowsRight(db, highest)
    ensures LatestNids(db, rooms, highest, r, slow)
  {
    r, slow := map[], [];
    for i := 0 to |rooms|
      invariant forall room :: room in slow ==> room in rooms
      invariant forall room :: room in r ==> room in rooms && 0 < r[room] == LatestUpTo(db.events, room, highest)
      invariant forall j :: 0 <= j < i ==> rooms[j] in r || rooms[j] in slow
    {
      var nid := if rooms[i] in db.rooms then db.rooms[rooms[i]].latest else 0;
      if nid > 0 && nid <= highest {
        r := r[rooms[i] := nid];
      } else {
        slow := slow + [rooms[i]];
      }
    }
  }
}
