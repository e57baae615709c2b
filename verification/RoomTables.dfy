/** The tables the accumulator keeps, and what every call leaves true of them. */
module RoomTables {
  import opened Common
  import opened EventLog
  import opened Snapshots

  datatype Snapshot = Snapshot(room: RoomId, members: seq<Nid>, others: seq<Nid>)

  /** A room's current snapshot and its highest row number, kept so that reads can skip the events table. */
  datatype RoomRow = RoomRow(current: int, latest: Nid)

  /**
   * `before` and `supersedes` are columns of the events table: the snapshot before a timeline event, and
   * the row number it replaces in that snapshot. Snapshot ids count from 1; 0 stands for no snapshot.
   */
  datatype DB = DB(
    events: seq<Slot>,
    before: map<Nid, int>,
    supersedes: map<Nid, Nid>,
    snapshots: seq<Snapshot>,
    rooms: map<RoomId, RoomRow>)

  function BeforeOf(db: DB, n: Nid): int { if n in db.before then db.before[n] else 0 }

  function ReplacesOf(db: DB, n: Nid): Nid { if n in db.supersedes then db.supersedes[n] else 0 }

  function CurrentOf(db: DB, room: RoomId): int { if room in db.rooms then db.rooms[room].current else 0 }

  function SnapNids(snapshots: seq<Snapshot>, id: int): seq<Nid> {
    if 1 <= id <= |snapshots| then snapshots[id - 1].members + snapshots[id - 1].others else []
  }

  /** Snapshot `id` exists, or is none, and holds exactly the state `s`. */
  ghost predicate SnapHolds(db: DB, id: int, s: State) {
    0 <= id <= |db.snapshots| && Represents(db.events, SnapNids(db.snapshots, id), s)
  }

  ghost predicate UniqueIds(events: seq<Slot>) {
    forall i, j :: 0 <= i < j < |events| && events[i].Stored? && events[j].Stored? ==>
      events[i].row.event.id != events[j].row.event.id
  }

  /**
   * A timeline row's before-snapshot is the state folded over everything earlier in its room, and it
   * records what it replaces there. Rows of a state block have neither.
   */
  ghost predicate RowOk(db: DB, n: Nid)
    requires HasRow(db.events, n)
  {
    var row := RowAt(db.events, n);
    if row.inStateBlock then BeforeOf(db, n) == 0 && ReplacesOf(db, n) == 0
    else
      var earlier := Fold(db.events, row.room, n - 1);
      && SnapHolds(db, BeforeOf(db, n), earlier)
      && ReplacesOf(db, n) ==
         if IsState(row) && KeyAt(db.events, n) in earlier then earlier[KeyAt(db.events, n)] else 0
  }

  /** The current snapshot is the fold of the whole room, and `latest` its last row. */
  ghost predicate RoomOk(db: DB, room: RoomId)
    requires room in db.rooms
  {
    && SnapHolds(db, db.rooms[room].current, Fold(db.events, room, |db.events|))
    && InRoom(db.events, room, db.rooms[room].latest)
    && forall n :: db.rooms[room].latest < n ==> !InRoom(db.events, room, n)
  }

  /** Every snapshot ever stored, whether or not anything still refers to it. */
  ghost predicate SnapshotsOk(db: DB) {
    forall id :: 1 <= id <= |db.snapshots| ==> OnePerKey(db.events, SnapNids(db.snapshots, id))
  }

  ghost predicate ColumnsInRange(db: DB) {
    forall n :: n in db.before || n in db.supersedes ==> n <= |db.events|
  }

  ghost predicate TablesOk(db: DB) { UniqueIds(db.events) && ColumnsInRange(db) && SnapshotsOk(db) }

  ghost predicate Inv(db: DB) {
    && TablesOk(db)
    && (forall n :: HasRow(db.events, n) ==> RowOk(db, n) && RowAt(db.events, n).room in db.rooms)
    && (forall room :: room in db.rooms ==> RoomOk(db, room))
  }

  // ---- inserting ----

  predicate Known(events: seq<Slot>, id: EventId) {
    exists i :: 0 <= i < |events| && events[i].Stored? && events[i].row.event.id == id
  }

  ghost predicate DistinctIds(es: seq<Event>) {
    forall i, j :: 0 <= i < j < |es| ==> es[i].id != es[j].id
  }

  predicate Seen(es: seq<Event>, id: EventId) { exists i :: 0 <= i < |es| && es[i].id == id }

  /** ON CONFLICT (event_id) DO NOTHING, row by row. */
  function NewSlots(events: seq<Slot>, es: seq<Event>, room: RoomId, inStateBlock: bool): (slots: seq<Slot>)
    ensures |slots| == |es|
  {
    if es == [] then []
    else
      var e := es[|es| - 1];
      var slots := NewSlots(events, es[..|es| - 1], room, inStateBlock);
      slots + [if Known(events + slots, e.id) then Burned else Stored(Row(e, room, inStateBlock))]
  }

  lemma NewSlotsNext(events: seq<Slot>, es: seq<Event>, room: RoomId, inStateBlock: bool, i: nat)
    requires i < |es|
    ensures var slots := NewSlots(events, es[..i], room, inStateBlock);
      NewSlots(events, es[..i + 1], room, inStateBlock) ==
      slots + [if Known(events + slots, es[i].id) then Burned else Stored(Row(es[i], room, inStateBlock))]
  {
    assert es[..i + 1][..i] == es[..i];
  }

  lemma KnownAppend(a: seq<Slot>, b: seq<Slot>, id: EventId)
    ensures Known(a + b, id) <==> Known(a, id) || Known(b, id)
  {
    if Known(a, id) {
      var i :| 0 <= i < |a| && a[i].Stored? && a[i].row.event.id == id;
      assert (a + b)[i] == a[i];
    }
    if Known(b, id) {
      var i :| 0 <= i < |b| && b[i].Stored? && b[i].row.event.id == id;
      assert (a + b)[|a| + i] == b[i];
    }
  }

  lemma SeenAppend(es: seq<Event>, e: Event, id: EventId)
    ensures Seen(es + [e], id) <==> Seen(es, id) || e.id == id
  {
    assert (es + [e])[|es|] == e;
    if Seen(es, id) {
      var i :| 0 <= i < |es| && es[i].id == id;
      assert (es + [e])[i] == es[i];
    }
  }

  lemma {:induction false} KnownAfter(events: seq<Slot>, es: seq<Event>, room: RoomId, inStateBlock: bool, id: EventId)
    ensures Known(events + NewSlots(events, es, room, inStateBlock), id) <==> Known(events, id) || Seen(es, id)
  {
    if es == [] {
      assert events + [] == events;
    } else {
      var init, e := es[..|es| - 1], es[|es| - 1];
      var slots := NewSlots(events, init, room, inStateBlock);
      var slot := if Known(events + slots, e.id) then Burned else Stored(Row(e, room, inStateBlock));
      KnownAfter(events, init, room, inStateBlock, id);
      KnownAppend(events + slots, [slot], id);
      assert Known([slot], id) <==> slot.Stored? && slot.row.event.id == id by {
        assert [slot][0] == slot;
      }
      assert events + NewSlots(events, es, room, inStateBlock) == events + slots + [slot];
      assert es == init + [e];
      SeenAppend(init, e, id);
    }
  }

  /** An event is stored unless the table has its id already, or an earlier event of the batch does. */
  lemma {:induction false} NewSlotAt(events: seq<Slot>, es: seq<Event>, room: RoomId, inStateBlock: bool, i: nat)
    requires i < |es|
    ensures NewSlots(events, es, room, inStateBlock)[i] ==
      if Known(events, es[i].id) || Seen(es[..i], es[i].id) then Burned else Stored(Row(es[i], room, inStateBlock))
  {
    var init := es[..|es| - 1];
    if i == |init| {
      KnownAfter(events, init, room, inStateBlock, es[i].id);
    } else {
      NewSlotAt(events, init, room, inStateBlock, i);
      assert init[..i] == es[..i];
    }
  }

  lemma NewRows(events: seq<Slot>, es: seq<Event>, room: RoomId, inStateBlock: bool, n: Nid)
    requires var all := events + NewSlots(events, es, room, inStateBlock); |events| < n && HasRow(all, n)
    ensures var all := events + NewSlots(events, es, room, inStateBlock);
      RowAt(all, n) == Row(es[n - 1 - |events|], room, inStateBlock) && !Known(events, es[n - 1 - |events|].id)
  {
    NewSlotAt(events, es, room, inStateBlock, n - 1 - |events|);
  }

  lemma UniqueAppend(events: seq<Slot>, slot: Slot)
    requires UniqueIds(events) && (slot.Stored? ==> !Known(events, slot.row.event.id))
    ensures UniqueIds(events + [slot])
  {
  }

  lemma {:induction false} InsertedUnique(events: seq<Slot>, es: seq<Event>, room: RoomId, inStateBlock: bool)
    requires UniqueIds(events)
    ensures UniqueIds(events + NewSlots(events, es, room, inStateBlock))
  {
    var all := NewSlots(events, es, room, inStateBlock);
    if es == [] {
      assert events + all == events;
    } else {
      var slots := NewSlots(events, es[..|es| - 1], room, inStateBlock);
      InsertedUnique(events, es[..|es| - 1], room, inStateBlock);
      UniqueAppend(events + slots, all[|es| - 1]);
      assert events + all == events + slots + [all[|es| - 1]];
    }
  }

  // ---- what later writes leave alone ----

  /** Rows and snapshots are only ever appended. */
  ghost predicate Extends(db: DB, db': DB) {
    && |db.events| <= |db'.events| && db'.events[..|db.events|] == db.events
    && |db.snapshots| <= |db'.snapshots| && db'.snapshots[..|db.snapshots|] == db.snapshots
  }

  lemma ExtendsRows(db: DB, db': DB, room: RoomId, k: nat)
    requires Extends(db, db') && k <= |db.events|
    ensures Fold(db'.events, room, k) == Fold(db.events, room, k)
    ensures forall n :: n <= |db.events| ==>
      (HasRow(db'.events, n) <==> HasRow(db.events, n)) &&
      (HasRow(db.events, n) ==> RowAt(db'.events, n) == RowAt(db.events, n))
  {
    var more := db'.events[|db.events|..];
    assert db'.events == db.events + more;
    FoldPrefix(db.events, more, room, k);
    forall n | n <= |db.events|
      ensures (HasRow(db'.events, n) <==> HasRow(db.events, n)) &&
        (HasRow(db.events, n) ==> RowAt(db'.events, n) == RowAt(db.events, n))
    {
      assert 1 <= n ==> db'.events[n - 1] == db.events[n - 1];
    }
  }

  lemma SnapHoldsExtends(db: DB, db': DB, id: int, s: State)
    requires Extends(db, db') && SnapHolds(db, id, s)
    ensures SnapHolds(db', id, s)
  {
    var more := db'.events[|db.events|..];
    assert db'.events == db.events + more;
    assert 1 <= id ==> db'.snapshots[id - 1] == db.snapshots[id - 1];
    RepresentsPrefix(db.events, more, SnapNids(db.snapshots, id), s);
  }

  lemma SnapshotsExtend(db: DB, db': DB)
    requires Extends(db, db') && SnapshotsOk(db) && db'.snapshots == db.snapshots
    ensures SnapshotsOk(db')
  {
    forall id | 1 <= id <= |db'.snapshots| ensures OnePerKey(db'.events, SnapNids(db'.snapshots, id)) {
      var nids := SnapNids(db.snapshots, id);
      assert OnePerKey(db.events, nids);
      assert forall i :: 0 <= i < |nids| ==> db'.events[nids[i] - 1] == db.events[nids[i] - 1];
    }
  }

  /** A snapshot that holds a state may be stored. */
  lemma SnapshotAdded(db: DB, db': DB, s: State)
    requires SnapshotsOk(db) && db'.events == db.events && |db'.snapshots| == |db.snapshots| + 1
    requires Extends(db, db') && SnapHolds(db', |db'.snapshots|, s)
    ensures SnapshotsOk(db')
  {
    RepresentsOnePerKey(db'.events, SnapNids(db'.snapshots, |db'.snapshots|), s);
    forall id | 1 <= id <= |db.snapshots| ensures OnePerKey(db'.events, SnapNids(db'.snapshots, id)) {
      assert db'.snapshots[id - 1] == db.snapshots[id - 1];
      assert OnePerKey(db.events, SnapNids(db.snapshots, id));
    }
  }

  lemma RowOkExtends(db: DB, db': DB, n: Nid)
    requires Extends(db, db') && HasRow(db.events, n) && RowOk(db, n)
    requires BeforeOf(db', n) == BeforeOf(db, n) && ReplacesOf(db', n) == ReplacesOf(db, n)
    ensures HasRow(db'.events, n) && RowOk(db', n)
  {
    var row := RowAt(db.events, n);
    ExtendsRows(db, db', row.room, n - 1);
    if !row.inStateBlock {
      SnapHoldsExtends(db, db', BeforeOf(db, n), Fold(db.events, row.room, n - 1));
    }
  }

  lemma RoomOkExtends(db: DB, db': DB, room: RoomId)
    requires Extends(db, db') && room in db.rooms && RoomOk(db, room)
    requires room in db'.rooms && db'.rooms[room] == db.rooms[room]
    requires forall n :: |db.events| < n ==> !InRoom(db'.events, room, n)
    ensures RoomOk(db', room)
  {
    var k := |db.events|;
    ExtendsRows(db, db', room, k);
    FoldStable(db'.events, room, k, |db'.events|);
    SnapHoldsExtends(db, db', db.rooms[room].current, Fold(db.events, room, k));
    forall n | db'.rooms[room].latest < n ensures !InRoom(db'.events, room, n) {
      assert !InRoom(db.events, room, n);
    }
  }

  /** Wasted row numbers change nothing. */
  lemma OnlyBurned(db: DB, db': DB)
    requires Inv(db) && Extends(db, db') && db' == db.(events := db'.events)
    requires forall i :: |db.events| <= i < |db'.events| ==> db'.events[i].Burned?
    ensures Inv(db')
  {
    SnapshotsExtend(db, db');
    forall n | HasRow(db'.events, n)
      ensures n <= |db.events| && RowOk(db', n) && RowAt(db'.events, n).room in db'.rooms
    {
      ExtendsRows(db, db', RowAt(db'.events, n).room, 0);
      RowOkExtends(db, db', n);
    }
    forall room | room in db'.rooms ensures RoomOk(db', room) {
      RoomOkExtends(db, db', room);
    }
    assert UniqueIds(db'.events) by {
      forall i, j | 0 <= i < j < |db'.events| && db'.events[i].Stored? && db'.events[j].Stored?
        ensures db'.events[i].row.event.id != db'.events[j].row.event.id
      {
        assert j < |db.events| && db.events[i] == db'.events[i] && db.events[j] == db'.events[j];
      }
    }
  }

  // ---- half-way through a call on one room ----

  ghost predicate RowsSettled(db: DB, room: RoomId, k: nat) {
    forall n :: HasRow(db.events, n) && n <= k ==>
      RowOk(db, n) && (RowAt(db.events, n).room == room || RowAt(db.events, n).room in db.rooms)
  }

  ghost predicate RowsUntouched(db: DB, room: RoomId, k: nat) {
    forall n :: HasRow(db.events, n) && k < n ==>
      RowAt(db.events, n).room == room && BeforeOf(db, n) == 0 && ReplacesOf(db, n) == 0
  }

  ghost predicate OthersOk(db: DB, room: RoomId) {
    forall other :: other in db.rooms && other != room ==> RoomOk(db, other)
  }

  /**
   * Rows up to `k` are settled and `snap` holds the room's state there; later rows belong to `room` and
   * nothing has been recorded for them. Other rooms are as they should be.
   */
  ghost predicate Partial(db: DB, room: RoomId, k: nat, snap: int) {
    && TablesOk(db) && k <= |db.events|
    && SnapHolds(db, snap, Fold(db.events, room, k))
    && RowsSettled(db, room, k) && RowsUntouched(db, room, k) && OthersOk(db, room)
  }

  lemma InsertedPartial(db: DB, room: RoomId, es: seq<Event>, inStateBlock: bool)
    requires Inv(db)
    ensures var db' := db.(events := db.events + NewSlots(db.events, es, room, inStateBlock));
      Partial(db', room, |db.events|, CurrentOf(db, room))
  {
    var db' := db.(events := db.events + NewSlots(db.events, es, room, inStateBlock));
    InsertedUnique(db.events, es, room, inStateBlock);
    SnapshotsExtend(db, db');
    InsertedRows(db, db', room, es, inStateBlock);
    InsertedElsewhere(db, db', room);
    InsertedSnapshot(db, db', room);
  }

  lemma InsertedElsewhere(db: DB, db': DB, room: RoomId)
    requires Inv(db) && Extends(db, db') && db'.rooms == db.rooms
    requires forall n :: HasRow(db'.events, n) && |db.events| < n ==> RowAt(db'.events, n).room == room
    ensures OthersOk(db', room)
  {
    forall other | other in db.rooms && other != room ensures RoomOk(db', other) {
      RoomOkExtends(db, db', other);
    }
  }

  lemma InsertedSnapshot(db: DB, db': DB, room: RoomId)
    requires Inv(db) && Extends(db, db') && db'.snapshots == db.snapshots
    ensures SnapHolds(db', CurrentOf(db, room), Fold(db'.events, room, |db.events|))
  {
    ExtendsRows(db, db', room, |db.events|);
    if room in db.rooms {
      assert RoomOk(db, room);
      SnapHoldsExtends(db, db', db.rooms[room].current, Fold(db.events, room, |db.events|));
    } else {
      FoldStable(db.events, room, 0, |db.events|);
    }
  }

  lemma InsertedRows(db: DB, db': DB, room: RoomId, es: seq<Event>, inStateBlock: bool)
    requires Inv(db) && db' == db.(events := db.events + NewSlots(db.events, es, room, inStateBlock))
    ensures RowsSettled(db', room, |db.events|) && RowsUntouched(db', room, |db.events|)
  {
    forall n | HasRow(db'.events, n) && n <= |db.events|
      ensures RowOk(db', n) && (RowAt(db'.events, n).room == room || RowAt(db'.events, n).room in db'.rooms)
    {
      ExtendsRows(db, db', room, 0);
      RowOkExtends(db, db', n);
    }
    forall n | HasRow(db'.events, n) && |db.events| < n ensures RowAt(db'.events, n).room == room {
      NewRows(db.events, es, room, inStateBlock, n);
    }
  }

  /** A wasted row number settles itself. */
  lemma SkipBurned(db: DB, room: RoomId, k: nat, snap: int)
    requires Partial(db, room, k, snap) && k < |db.events| && db.events[k].Burned?
    ensures Partial(db, room, k + 1, snap)
  {
    SkipBurnedRows(db, room, k);
    assert Fold(db.events, room, k + 1) == Fold(db.events, room, k);
  }

  lemma SkipBurnedRows(db: DB, room: RoomId, k: nat)
    requires RowsSettled(db, room, k) && RowsUntouched(db, room, k) && k < |db.events| && db.events[k].Burned?
    ensures RowsSettled(db, room, k + 1) && RowsUntouched(db, room, k + 1)
  {
    forall n | HasRow(db.events, n) && n <= k + 1 ensures n <= k {
    }
  }

  lemma OthersKept(db: DB, db': DB, room: RoomId)
    requires Extends(db, db') && db'.events == db.events && db'.rooms == db.rooms && OthersOk(db, room)
    ensures OthersOk(db', room)
  {
    forall other | other in db'.rooms && other != room ensures RoomOk(db', other) {
      RoomOkExtends(db, db', other);
    }
  }

  /** The columns of all rows but one are as they were. */
  ghost predicate ColumnsKept(db: DB, db': DB, n: Nid) {
    forall i :: i != n ==> BeforeOf(db', i) == BeforeOf(db, i) && ReplacesOf(db', i) == ReplacesOf(db, i)
  }

  lemma RowsSettledMore(db: DB, db': DB, room: RoomId, n: Nid)
    requires InRoom(db.events, room, n) && RowsSettled(db, room, n - 1) && ColumnsKept(db, db', n)
    requires Extends(db, db') && db'.events == db.events && db'.rooms == db.rooms && RowOk(db', n)
    ensures RowsSettled(db', room, n)
  {
    forall i | HasRow(db'.events, i) && i < n
      ensures RowOk(db', i) && (RowAt(db'.events, i).room == room || RowAt(db'.events, i).room in db'.rooms)
    {
      RowOkExtends(db, db', i);
    }
  }

  /** The next row, settled with the snapshot before it and the snapshot after it. */
  lemma SettleRow(db: DB, db': DB, room: RoomId, n: Nid, snap: int, snap': int)
    requires InRoom(db.events, room, n) && Partial(db, room, n - 1, snap) && ColumnsKept(db, db', n)
    requires Extends(db, db') && db'.events == db.events && db'.rooms == db.rooms && TablesOk(db')
    requires RowOk(db', n) && SnapHolds(db', snap', Fold(db.events, room, n))
    ensures Partial(db', room, n, snap')
  {
    RowsSettledMore(db, db', room, n);
    OthersKept(db, db', room);
  }

  /** Rows of a state block need no columns of their own: a snapshot of the whole block settles them all. */
  lemma SettleStateBlock(db: DB, db': DB, room: RoomId, base: nat, snap: int, snap': int)
    requires Partial(db, room, base, snap)
    requires Extends(db, db') && db' == db.(snapshots := db'.snapshots)
    requires forall n :: HasRow(db.events, n) && base < n ==> RowAt(db.events, n).inStateBlock
    requires SnapHolds(db', snap', Fold(db.events, room, |db.events|)) && SnapshotsOk(db')
    ensures Partial(db', room, |db.events|, snap')
  {
    forall n | HasRow(db'.events, n) && n <= base ensures RowOk(db', n) {
      RowOkExtends(db, db', n);
    }
    OthersKept(db, db', room);
  }

  /** With every row settled, recording the snapshot and the last row for the room completes the call. */
  lemma Completed(db: DB, db': DB, room: RoomId, snap: int, latest: Nid)
    requires Partial(db, room, |db.events|, snap) && db' == db.(rooms := db.rooms[room := RoomRow(snap, latest)])
    requires InRoom(db.events, room, latest) && forall n :: latest < n ==> !InRoom(db.events, room, n)
    ensures Inv(db')
  {
    forall n | HasRow(db'.events, n) ensures RowOk(db', n) && RowAt(db'.events, n).room in db'.rooms {
      RowOkExtends(db, db', n);
    }
    forall other | other in db'.rooms ensures RoomOk(db', other) {
      if other != room {
        RoomOkExtends(db, db', other);
      }
    }
  }
}
