/** One concrete input for each promise that the code keeps only under a condition. */
module Counterexamples {
  import opened Common
  import opened Ranges
  import opened RoomOrder
  import opened ListClient
  import opened ListOps
  import opened Replica
  import opened OpenGap
  import Delta
  import WindowSlide
  import Subscriptions
  import EventLog
  import Snapshots
  import RoomTables
  import StateBlocks
  import StateAtPosition
  import Tracker
  import Dispatcher
  import RequiredState

  const A := RoomId(0)
  const B := RoomId(1)
  const C := RoomId(2)
  const D := RoomId(3)

  lemma TrackedByOne(r: Range, z: int)
    ensures Tracked([r], z) <==> In(r, z)
  {
    assert r in [r];
  }

  /** A new range [5,5] is reported as nothing at all. */
  lemma SingleIndexIsLost(d: Delta.Result)
    requires Delta.Exact([], [Range(5, 5)], d)
    ensures Tracked([Range(5, 5)], 5) && !Tracked([], 5) && !Tracked(d.added, 5)
  {
    TrackedByOne(Range(5, 5), 5);
    assert Delta.ExactAt([], [Range(5, 5)], d, 5);
    assert Delta.Single([Range(5, 5)], 5);
  }

  /** So sliding a window from [0,0] to [1,1] over two rooms can leave the client without the second room. */
  lemma SlideCanForget(d: Delta.Result)
    requires Delta.Exact([Range(0, 0)], [Range(1, 1)], d) && Delta.AllShaped(d)
    ensures var ops := WindowSlide.RequestOps(Some([Range(0, 0)]), [Range(1, 1)], [A, B], [A, B], false, d);
      Null !in ops &&
      exists m: Slots ::
        Agrees([Range(0, 0)], m, [A, B]) &&
        !Agrees([Range(1, 1)], Steps([Range(1, 1)], State(m, -1), ops).slots, [A, B])
  {
    TrackedByOne(Range(0, 0), 1);
    assert WindowSlide.Forgotten([Range(0, 0)], [Range(1, 1)], 1);
    WindowSlide.SlideAgreesExactly([Range(1, 1)], [Range(0, 0)], [Range(1, 1)], [A, B], d);
  }

  /** Removing the last of two rooms while a range starts at it asks the list for an index it does not have. */
  lemma RemovingTheLastFails(keys: seq<SortKey>, finder: Finder)
    ensures var o := ServerOps([Range(1, 9)], [A, B], Del, B, keys, finder);
      o.Panic? || Null in o.ops
  {
    assert IndexIn([A, B], B) == 1 by {
      assert [A, B][1..] == [B];
    }
    assert Range(1, 9) in [Range(1, 9)];
    assert [A, B][1] == B;
    DelFailsExactly([Range(1, 9)], [A, B], B, keys, finder);
  }

  /** Removing the only room while index 0 is not tracked sends a null operation. */
  lemma EmptyingFails(keys: seq<SortKey>, finder: Finder)
    ensures var o := ServerOps([Range(1, 9)], [A], Del, A, keys, finder);
      o.Panic? || Null in o.ops
  {
    TrackedByOne(Range(1, 9), 0);
    assert [A][0] == A;
    DelFailsExactly([Range(1, 9)], [A], A, keys, finder);
  }

  /** Removing the first of three rooms with a window of two brings in a room that is not sent. */
  lemma RemovalShowsUnsentRoom(keys: seq<SortKey>, finder: Finder)
    ensures var o := ServerOps([Range(0, 1)], [A, B, C], Del, A, keys, finder);
      o.Done? && !Subscriptions.Complete([Range(0, 1)], [A, B, C], ListAfter([A, B, C], Del, A, keys, finder), o.subs)
  {
    TrackedByOne(Range(0, 1), 0);
    TrackedByOne(Range(0, 1), 1);
    TrackedByOne(Range(0, 1), 2);
    assert [A, B, C][0] == A;
    assert IndexIn([A, B, C], A) == 0;
    Subscriptions.DelSubsComplete([Range(0, 1)], [A, B, C], A, keys, finder);
  }

  const ALL := [Range(0, 9)]
  const LIST := [A, B, C]
  const SHOWN: Slots := map[0 := Some(A), 1 := Some(B), 2 := Some(C)]

  /** Removing the first of three rooms, all of them shown, sends a single DELETE. */
  lemma FirstRemoved(keys: seq<SortKey>, finder: Finder)
    ensures ServerOps(ALL, LIST, Del, A, keys, finder) == Done([Delete(0)], [])
    ensures ListAfter(LIST, Del, A, keys, finder) == [B, C]
  {
    assert LIST[0] == A && IndexIn(LIST, A) == 0 && Range(0, 9) in ALL;
    assert RemoveAt(LIST, 0) == [B, C];
    RemovalUpdate(ALL, LIST, A, keys, finder);
    OneDelete(ALL, LIST, UpdateOf(ALL, LIST, Del, A, [B, C]), Range(0, 9));
  }

  /** The client then has the gap at 0 open. */
  lemma GapAtZero()
    ensures Agrees(ALL, SHOWN, LIST)
    ensures OpenAt(ALL, 0, 2)
    ensures var c := WithoutEntry(ALL, SHOWN - {0}, 0);
      Agrees(ALL, c, [B, C]) && At(c, 2).None?
  {
    assert Range(0, 9) in ALL;
    TrackedByOne(Range(0, 9), 0);
    TrackedByOne(Range(0, 9), 2);
    ClosedShows();
  }

  lemma ClosedShows()
    ensures var c := WithoutEntry(ALL, SHOWN - {0}, 0); At(c, 0) == Some(B) && At(c, 1) == Some(C) && At(c, 2).None?
  {
    var m := SHOWN - {0};
    TrackedByOne(Range(0, 9), 0);
    TrackedByOne(Range(0, 9), 1);
    assert 2 in m && MaxKey(m) == 2;
    ClosedAt(ALL, m, 0, 0);
    ClosedAt(ALL, m, 0, 1);
    ClosedAt(ALL, m, 0, 2);
  }

  lemma AfterFirst(ops: seq<Op>)
    requires Null !in ops
    ensures Replay(ALL, SHOWN, [Delete(0)] + ops) == Closed(ALL, Steps(ALL, State(SHOWN - {0}, 0), ops))
  {
    assert ([Delete(0)] + ops)[1..] == ops;
  }

  lemma LastIsAbove(keys: seq<SortKey>, finder: Finder)
    ensures NoDup([B, C]) && C in [B, C] && OthersSorted([B, C], C, keys, finder)
    ensures !DelFails(ALL, [B, C], C) && !Follows(ALL, 0, [B, C], Del, C, keys, finder)
  {
    assert [B, C][1] == C && [B, C][1..] == [C] && IndexIn([B, C], C) == 1;
    assert RemoveAt([B, C], 1) == [B];
    assert !Overruns(ALL, [B, C], 1);
  }

  lemma NewIsAbove(keys: seq<SortKey>, finder: Finder)
    ensures NoDup([B, C]) && D !in [B, C] && !Follows(ALL, 0, [B, C], Add, D, keys, finder)
  {
    assert !EndsAt(ALL, 1);
  }

  /** Two removals in one response, the first room and then the last, leave the client with a wrong room. */
  lemma TwoRemovalsDisagree(keys: seq<SortKey>, finder: Finder)
    ensures Agrees(ALL, SHOWN, LIST)
    ensures var o, o' := ServerOps(ALL, LIST, Del, A, keys, finder), ServerOps(ALL, [B, C], Del, C, keys, finder);
      && o.Done? && o'.Done? && Null !in o.ops + o'.ops
      && !Agrees(ALL, Replay(ALL, SHOWN, o.ops + o'.ops), ListAfter([B, C], Del, C, keys, finder))
  {
    FirstRemoved(keys, finder);
    GapAtZero();
    LastIsAbove(keys, finder);
    OthersDisagree(ALL, SHOWN - {0}, 0, [B, C], Del, C, keys, finder);
    AfterFirst(ServerOps(ALL, [B, C], Del, C, keys, finder).ops);
  }

  /** So do a removal of the first room and then a new room, wherever that one goes. */
  lemma RemovalThenAddDisagrees(keys: seq<SortKey>, finder: Finder)
    requires OthersSorted([B, C], D, keys, finder)
    ensures Agrees(ALL, SHOWN, LIST)
    ensures var o, o' := ServerOps(ALL, LIST, Del, A, keys, finder), ServerOps(ALL, [B, C], Add, D, keys, finder);
      && o.Done? && o'.Done? && Null !in o.ops + o'.ops
      && !Agrees(ALL, Replay(ALL, SHOWN, o.ops + o'.ops), ListAfter([B, C], Add, D, keys, finder))
  {
    FirstRemoved(keys, finder);
    GapAtZero();
    NewIsAbove(keys, finder);
    OthersDisagree(ALL, SHOWN - {0}, 0, [B, C], Add, D, keys, finder);
    AfterFirst(ServerOps(ALL, [B, C], Add, D, keys, finder).ops);
  }

  // ---- state at a position ----

  const CREATE := EventLog.Event(EventLog.EventId(1), "m.room.create", Some(""))
  const TOPIC := EventLog.Event(EventLog.EventId(2), "m.room.topic", Some(""))

  /** A room whose state block held one event, and a second state event from a timeline. */
  const TABLES := RoomTables.DB(
    [EventLog.Stored(EventLog.Row(CREATE, A, true)), EventLog.Stored(EventLog.Row(TOPIC, A, false))],
    map[2 := 1], map[2 := 0], [RoomTables.Snapshot(A, [], [1]), RoomTables.Snapshot(A, [], [1, 2])],
    map[A := RoomTables.RoomRow(2, 2)])

  lemma TablesFold()
    ensures EventLog.Fold(TABLES.events, A, 1) == map[("m.room.create", "") := 1]
    ensures EventLog.Fold(TABLES.events, A, 2) == map[("m.room.create", "") := 1, ("m.room.topic", "") := 2]
  {
    assert EventLog.Fold(TABLES.events, A, 0) == map[];
  }

  lemma TablesSnapshots()
    ensures RoomTables.SnapNids(TABLES.snapshots, 1) == [1] && RoomTables.SnapNids(TABLES.snapshots, 2) == [1, 2]
    ensures EventLog.KeyAt(TABLES.events, 1) == ("m.room.create", "")
    ensures EventLog.KeyAt(TABLES.events, 2) == ("m.room.topic", "")
    ensures ("m.room.create", "") != ("m.room.topic", "")
  {
    assert |"m.room.create"| == 13 && |"m.room.topic"| == 12;
  }

  lemma TablesRows()
    ensures RoomTables.RowOk(TABLES, 1) && RoomTables.RowOk(TABLES, 2)
  {
    TablesFold();
    TablesSnapshots();
  }

  lemma TablesRoom()
    ensures RoomTables.RoomOk(TABLES, A)
  {
    TablesFold();
    TablesSnapshots();
    forall n | n in [1, 2]
      ensures EventLog.Holds(TABLES.events, EventLog.Fold(TABLES.events, A, 2), n)
    {
      assert n == 1 || n == 2;
    }
  }

  lemma TablesSnapshotsOk()
    ensures RoomTables.SnapshotsOk(TABLES)
  {
    TablesSnapshots();
    assert EventLog.HasRow(TABLES.events, 1) && EventLog.HasRow(TABLES.events, 2);
    assert EventLog.OnePerKey(TABLES.events, [1]) && EventLog.OnePerKey(TABLES.events, [1, 2]);
    forall id | 1 <= id <= |TABLES.snapshots|
      ensures EventLog.OnePerKey(TABLES.events, RoomTables.SnapNids(TABLES.snapshots, id))
    {
      assert id == 1 || id == 2;
    }
  }

  lemma TablesOk()
    ensures RoomTables.Inv(TABLES)
  {
    TablesSnapshotsOk();
    TablesRows();
    TablesRoom();
    forall n | EventLog.HasRow(TABLES.events, n)
      ensures RoomTables.RowOk(TABLES, n) && EventLog.RowAt(TABLES.events, n).room in TABLES.rooms
    {
      assert n == 1 || n == 2;
    }
    assert TABLES.rooms.Keys == {A};
  }

  /** Read at the state block's event, the room already has the topic that came later. */
  lemma StateBlockReadIsAhead()
    ensures RoomTables.Inv(TABLES)
    ensures !StateAtPosition.Returns(TABLES, A, 1, StateAtPosition.StateUpTo(TABLES.events, A, 1))
  {
    TablesOk();
    assert EventLog.IsStateIn(TABLES.events, A, 2);
    assert StateAtPosition.LatestUpTo(TABLES.events, A, 1) == 1;
    StateAtPosition.ReadIsHistoryExactly(TABLES, A, 1);
  }

  // ---- storing state ----

  const SEPARATOR := [Snapshots.UNIT_SEPARATOR]

  /** Two rows whose different keys have the same tuple. */
  const COLLIDING: seq<EventLog.Slot> := [
    EventLog.Stored(EventLog.Row(EventLog.Event(EventLog.EventId(1), "a" + SEPARATOR + "b", Some("c")), A, false)),
    EventLog.Stored(EventLog.Row(EventLog.Event(EventLog.EventId(2), "a", Some("b" + SEPARATOR + "c")), A, false))]

  /** Rolled forward over the second row, a snapshot of the first one loses it. */
  lemma CollisionReplacesOther()
    ensures var k, l := EventLog.KeyAt(COLLIDING, 1), EventLog.KeyAt(COLLIDING, 2);
      && EventLog.Represents(COLLIDING, [1], map[k := 1]) && Snapshots.DistinctTuples(COLLIDING, [1])
      && Snapshots.Rolled(COLLIDING, [1], 2) == [2]
      && !EventLog.Represents(COLLIDING, [2], map[k := 1, l := 2])
  {
    var k, l := EventLog.KeyAt(COLLIDING, 1), EventLog.KeyAt(COLLIDING, 2);
    Snapshots.TupleKeyCollides();
    assert k == ("a" + SEPARATOR + "b", "c") && l == ("a", "b" + SEPARATOR + "c");
    assert EventLog.HasRow(COLLIDING, 1) && EventLog.Holds(COLLIDING, map[k := 1], 1);
    assert Snapshots.TupleAt(COLLIDING, [1][0]) == Snapshots.TupleAt(COLLIDING, 2);
    assert k in map[k := 1, l := 2] && map[k := 1, l := 2][k] == 1;
  }

  /** A state block that comes back to an event after another of its type and state key is ingested wrongly. */
  lemma RepeatedOutOfOrder(x: EventLog.Event, y: EventLog.Event)
    requires x.id != y.id && EventLog.KeyOf(x) == EventLog.KeyOf(y)
    ensures !StateBlocks.CopiesInOrder([], [x, y, x])
  {
    var es := [x, y, x];
    assert es[0] == x && es[1] == y && es[2] == x;
    assert StateBlocks.IsLast([], es, 2);
    assert StateBlocks.FirstOf(es, es[2].id) == 0;
    assert StateBlocks.IsFirst([], es, 1);
  }

  /** So is one with two events of different types or state keys under one ID. */
  lemma SharedIdOutOfOrder(x: EventLog.Event, y: EventLog.Event)
    requires x.id == y.id && EventLog.KeyOf(x) != EventLog.KeyOf(y)
    ensures !StateBlocks.CopiesInOrder([], [x, y])
  {
    var es := [x, y];
    assert es[0] == x && es[1] == y;
    assert StateBlocks.IsLast([], es, 0) && StateBlocks.IsLast([], es, 1);
  }

  // ---- dispatching ----

  const BOB := Tracker.User(1)

  /** Bob was invited, and the room's first state block says Bob has left: in bulk the invite stays. */
  lemma BulkKeepsInvite()
    ensures var t := Tracker.NOBODY.(invited := map[A := {BOB}]);
      var state := [Dispatcher.Event(A, 0, Some(Dispatcher.Member(BOB, Dispatcher.Leave)))];
      && BOB in Tracker.InvitedIn(Dispatcher.Bulk(t, state, A), A)
      && BOB !in Tracker.InvitedIn(Dispatcher.Live(t, state), A)
  {
    var t := Tracker.NOBODY.(invited := map[A := {BOB}]);
    var state := [Dispatcher.Event(A, 0, Some(Dispatcher.Member(BOB, Dispatcher.Leave)))];
    assert state[..0] == [];
    assert Dispatcher.Targets(state, Dispatcher.Leave) == [BOB];
    assert Dispatcher.Targets(state, Dispatcher.Join) == [];
    assert Dispatcher.Targets(state[..0], Dispatcher.Invite) == [];
    assert Dispatcher.Targets(state, Dispatcher.Invite) == [];
    Dispatcher.LiveInvited(t, state, A, BOB);
    assert BOB in Tracker.InvitedIn(t, A) && Dispatcher.Gone(state, BOB);
  }

  /** A state event keyed by somebody in the timeline is kept only if the query happens to fetch it. */
  lemma LazyFilterDependsOnQuery(user: string)
    ensures var m := RequiredState.Built([RequiredState.Entry("m.room.member", "$LAZY")], user);
      var state := [RequiredState.Event(0, "m.custom", "@bob:example.org")];
      RequiredState.KeptOf(m, {"@bob:example.org"}, RequiredState.FetchedOf(RequiredState.Query(m), state)) !=
      RequiredState.KeptOf(m, {"@bob:example.org"}, state)
  {
    var entries := [RequiredState.Entry("m.room.member", "$LAZY")];
    var state := [RequiredState.Event(0, "m.custom", "@bob:example.org")];
    assert RequiredState.Built(entries[..0], user) == RequiredState.Required({}, [], map[], false, false);
    assert |"$LAZY"| == 5 && |"$ME"| == 3 && |"*"| == 1;
    assert RequiredState.KeyFor(entries[0], user) == "$LAZY";
    var m := RequiredState.Built(entries, user);
    assert |"m.custom"| != |"m.room.member"| && |"$LAZY"| != |"*"| && |"m.room.member"| != |"*"|;
    assert m.keysWithAnyKind == [] && !m.allState;
    assert m.kindToKeys == map["m.room.member" := [] + ["$LAZY"]];
    assert RequiredState.Query(m).Keys == {"m.room.member"};
    assert RequiredState.Missed(m, {"@bob:example.org"}, state[0]);
    RequiredState.FetchThenFilter(entries, user, {"@bob:example.org"}, state);
  }
}
