/** state/accumulator.go: storing timelines and state blocks, one call at a time. */
module Accumulator {
  import opened Common
  import opened EventLog
  import opened Snapshots
  import opened RoomTables
  import opened StateBlocks

  // ---- which events of a timeline are new ----

  /** Events that parse, each id once, on top of those in `kept`. `None` is an event that does not parse. */
  function Deduplicated(kept: seq<Event>, timeline: seq<Option<Event>>): seq<Event>
    decreases timeline
  {
    if timeline == [] then kept
    else
      var e := timeline[0];
      Deduplicated(if e.None? || Seen(kept, e.value.id) then kept else kept + [e.value], timeline[1..])
  }

  /** What comes after the last event already stored. */
  function AfterLastKnown(events: seq<Slot>, es: seq<Event>): seq<Event> {
    if es == [] || Known(events, es[|es| - 1].id) then []
    else AfterLastKnown(events, es[..|es| - 1]) + [es[|es| - 1]]
  }

  /** A timeline of one event cannot be told from an old one, so it is taken as it is. */
  function NewTimeline(events: seq<Slot>, timeline: seq<Option<Event>>): seq<Event> {
    var es := Deduplicated([], timeline);
    if |es| <= 1 then es else AfterLastKnown(events, es)
  }

  predicate IsCreate(e: Event) { e.kind == "m.room.create" && (e.stateKey.None? || e.stateKey.value == "") }

  /** The timeline is left alone: nothing new, or the start of a room without its create event. */
  predicate Skipped(db: DB, room: RoomId, es: seq<Event>) {
    es == [] || (CurrentOf(db, room) == 0 && !IsCreate(es[0]))
  }

  /** The first event of the timeline that parses and has the ID. */
  ghost predicate FirstWithId(timeline: seq<Option<Event>>, id: EventId, i: int) {
    && 0 <= i < |timeline| && timeline[i].Some? && timeline[i].value.id == id
    && forall j :: 0 <= j < i && timeline[j].Some? ==> timeline[j].value.id != id
  }

  /** Where an event that is kept stands in the timeline. */
  ghost predicate KeptFrom(timeline: seq<Option<Event>>, e: Event, i: int) {
    FirstWithId(timeline, e.id, i) && timeline[i] == Some(e)
  }

  lemma {:induction false} DeduplicatedNext(kept: seq<Event>, timeline: seq<Option<Event>>, e: Option<Event>)
    ensures var es := Deduplicated(kept, timeline);
      Deduplicated(kept, timeline + [e]) == if e.None? || Seen(es, e.value.id) then es else es + [e.value]
    decreases timeline
  {
    if timeline == [] {
      assert timeline + [e] == [e] && [e][1..] == [];
    } else {
      var first := timeline[0];
      assert (timeline + [e])[1..] == timeline[1..] + [e];
      var kept' := if first.None? || Seen(kept, first.value.id) then kept else kept + [first.value];
      DeduplicatedNext(kept', timeline[1..], e);
    }
  }

  ghost predicate IsKept(timeline: seq<Option<Event>>, e: Event) { exists i :: KeptFrom(timeline, e, i) }

  ghost predicate InOrder(timeline: seq<Option<Event>>, a: Event, b: Event) {
    forall i, j :: KeptFrom(timeline, a, i) && KeptFrom(timeline, b, j) ==> i < j
  }

  /**
   * What is kept of a timeline: of each ID that parses the first event and no other, in the order of the timeline.
   * An event that does not parse costs no other.
   */
  ghost predicate KeptExactly(timeline: seq<Option<Event>>, es: seq<Event>) {
    && (forall k :: 0 <= k < |es| ==> IsKept(timeline, es[k]))
    && (forall k, l :: 0 <= k < l < |es| ==> InOrder(timeline, es[k], es[l]))
    && (forall i :: 0 <= i < |timeline| && timeline[i].Some? ==> Seen(es, timeline[i].value.id))
  }

  lemma KeptFromLonger(timeline: seq<Option<Event>>, e: Option<Event>, x: Event, i: int)
    ensures i < |timeline| ==> (KeptFrom(timeline + [e], x, i) <==> KeptFrom(timeline, x, i))
    ensures KeptFrom(timeline, x, i) && KeptFrom(timeline + [e], x, |timeline|) ==> false
  {
    assert forall j :: 0 <= j < |timeline| ==> (timeline + [e])[j] == timeline[j];
  }

  lemma KeptMore(timeline: seq<Option<Event>>, es: seq<Event>, e: Event)
    requires KeptExactly(timeline, es) && !Seen(es, e.id)
    ensures KeptFrom(timeline + [Some(e)], e, |timeline|)
    ensures forall j :: KeptFrom(timeline + [Some(e)], e, j) ==> j == |timeline|
  {
    assert forall j :: 0 <= j < |timeline| ==> (timeline + [Some(e)])[j] == timeline[j];
  }

  lemma KeptLonger(timeline: seq<Option<Event>>, es: seq<Event>, e: Option<Event>, es': seq<Event>)
    requires KeptExactly(timeline, es)
    requires es' == if e.None? || Seen(es, e.value.id) then es else es + [e.value]
    ensures KeptExactly(timeline + [e], es')
  {
    var more := timeline + [e];
    if es' != es {
      KeptMore(timeline, es, e.value);
      assert e == Some(e.value);
    }
    forall k | 0 <= k < |es'| ensures IsKept(more, es'[k]) {
      if k < |es| {
        var i :| KeptFrom(timeline, es[k], i);
        KeptFromLonger(timeline, e, es[k], i);
        assert es'[k] == es[k];
      } else {
        assert KeptFrom(more, es'[k], |timeline|);
      }
    }
    forall k, i | 0 <= k < |es| && KeptFrom(more, es[k], i) ensures i < |timeline| && KeptFrom(timeline, es[k], i) {
      var i' :| KeptFrom(timeline, es[k], i');
      KeptFromLonger(timeline, e, es[k], i');
      KeptFromLonger(timeline, e, es[k], i);
    }
    forall k, l | 0 <= k < l < |es'| ensures InOrder(more, es'[k], es'[l]) {
      assert es'[k] == es[k] && (l < |es| ==> es'[l] == es[l] && InOrder(timeline, es[k], es[l]));
    }
    forall i | 0 <= i < |more| && more[i].Some? ensures Seen(es', more[i].value.id) {
      assert i < |timeline| ==> more[i] == timeline[i];
      if es' != es {
        SeenAppend(es, e.value, more[i].value.id);
      }
    }
  }

  lemma {:induction false} DeduplicatedExactly(timeline: seq<Option<Event>>)
    ensures KeptExactly(timeline, Deduplicated([], timeline))
  {
    if timeline != [] {
      var init, e := timeline[..|timeline| - 1], timeline[|timeline| - 1];
      assert timeline == init + [e];
      DeduplicatedExactly(init);
      DeduplicatedNext([], init, e);
      KeptLonger(init, Deduplicated([], init), e, Deduplicated([], timeline));
    }
  }

  lemma {:induction false} DeduplicatedDistinct(kept: seq<Event>, timeline: seq<Option<Event>>)
    requires DistinctIds(kept)
    ensures DistinctIds(Deduplicated(kept, timeline))
    ensures forall e :: e in Deduplicated(kept, timeline) ==> e in kept || Some(e) in timeline
    decreases timeline
  {
    if timeline != [] {
      var e := timeline[0];
      var kept' := if e.None? || Seen(kept, e.value.id) then kept else kept + [e.value];
      assert DistinctIds(kept') by {
        if !(e.None? || Seen(kept, e.value.id)) {
          forall i, j | 0 <= i < j < |kept'| ensures kept'[i].id != kept'[j].id {
            assert j < |kept| || kept[i].id != e.value.id;
          }
        }
      }
      DeduplicatedDistinct(kept', timeline[1..]);
      assert forall x :: x in kept' ==> x in kept || Some(x) in timeline;
    }
  }

  lemma {:induction false} AfterLastKnownSuffix(events: seq<Slot>, es: seq<Event>)
    ensures var r := AfterLastKnown(events, es);
      && |r| <= |es| && r == es[|es| - |r|..]
      && (forall e :: e in r ==> !Known(events, e.id))
      && (|r| < |es| ==> Known(events, es[|es| - |r| - 1].id))
  {
    if es != [] && !Known(events, es[|es| - 1].id) {
      AfterLastKnownSuffix(events, es[..|es| - 1]);
    }
  }

  lemma NewTimelineDistinct(events: seq<Slot>, timeline: seq<Option<Event>>)
    ensures DistinctIds(NewTimeline(events, timeline))
    ensures forall e :: e in NewTimeline(events, timeline) ==> Some(e) in timeline
  {
    DeduplicatedDistinct([], timeline);
    AfterLastKnownSuffix(events, Deduplicated([], timeline));
  }

  lemma {:induction false} AfterKnownAt(events: seq<Slot>, es: seq<Event>, k: nat)
    requires k <= |es| && (k == 0 || Known(events, es[k - 1].id))
    requires forall i :: k <= i < |es| ==> !Known(events, es[i].id)
    ensures AfterLastKnown(events, es) == es[k..]
  {
    if k < |es| {
      AfterKnownAt(events, es[..|es| - 1], k);
    }
  }

  /** A timeline of one event is taken whole; of a longer one, exactly what follows the last event already stored. */
  lemma NewTimelineExactly(events: seq<Slot>, timeline: seq<Option<Event>>, k: nat)
    requires var es := Deduplicated([], timeline);
      && k <= |es| && (k == 0 || Known(events, es[k - 1].id))
      && forall i :: k <= i < |es| ==> !Known(events, es[i].id)
    ensures var es := Deduplicated([], timeline);
      NewTimeline(events, timeline) == if |es| == 1 then es else es[k..]
  {
    AfterKnownAt(events, Deduplicated([], timeline), k);
  }

  // ---- snapshots as they are stored ----

  predicate IsMember(events: seq<Slot>, n: Nid) { KeyAt(events, n).0 == "m.room.member" }

  function WithMembership(events: seq<Slot>, nids: seq<Nid>, member: bool): seq<Nid> {
    if nids == [] then []
    else (if IsMember(events, nids[0]) == member then [nids[0]] else []) + WithMembership(events, nids[1..], member)
  }

  /** The row numbers of a snapshot as it is stored: memberships apart from other state. */
  ghost function Split(events: seq<Slot>, nids: seq<Nid>): seq<Nid> {
    WithMembership(events, nids, true) + WithMembership(events, nids, false)
  }

  lemma {:induction false} WithMembershipExactly(events: seq<Slot>, nids: seq<Nid>, member: bool)
    requires NoDup(nids)
    ensures NoDup(WithMembership(events, nids, member))
    ensures forall n :: n in WithMembership(events, nids, member) <==>
      n in nids && (KeyAt(events, n).0 == "m.room.member") == member
  {
    if nids != [] {
      WithMembershipExactly(events, nids[1..], member);
      assert nids == [nids[0]] + nids[1..];
      var rest := WithMembership(events, nids[1..], member);
      assert forall i :: 0 <= i < |rest| ==> rest[i] in rest;
    }
  }

  lemma WithMembershipNext(events: seq<Slot>, nids: seq<Nid>, k: nat, head: seq<Nid>, member: bool)
    requires k < |nids|
    ensures head + WithMembership(events, nids[k..], member) ==
      (if IsMember(events, nids[k]) == member then head + [nids[k]] else head)
      + WithMembership(events, nids[k + 1..], member)
  {
    assert nids[k..][1..] == nids[k + 1..];
  }

  method SplitNids(events: seq<Slot>, nids: seq<Nid>) returns (members: seq<Nid>, others: seq<Nid>)
    ensures members == WithMembership(events, nids, true) && others == WithMembership(events, nids, false)
  {
    members, others := [], [];
    for k := 0 to |nids|
      invariant members + WithMembership(events, nids[k..], true) == WithMembership(events, nids, true)
      invariant others + WithMembership(events, nids[k..], false) == WithMembership(events, nids, false)
    {
      WithMembershipNext(events, nids, k, members, true);
      WithMembershipNext(events, nids, k, others, false);
      if IsMember(events, nids[k]) {
        members := members + [nids[k]];
      } else {
        others := others + [nids[k]];
      }
    }
  }

  lemma SplitExactly(events: seq<Slot>, nids: seq<Nid>)
    requires NoDup(nids)
    ensures NoDup(Split(events, nids)) && forall n :: n in Split(events, nids) <==> n in nids
  {
    var a, b := WithMembership(events, nids, true), WithMembership(events, nids, false);
    WithMembershipExactly(events, nids, true);
    WithMembershipExactly(events, nids, false);
    forall i, j | 0 <= i < |a| && 0 <= j < |b| ensures a[i] != b[j] {
      assert a[i] in a && b[j] in b;
    }
  }

  /** Storing memberships apart from other state does not change what a snapshot holds. */
  lemma SplitRepresents(events: seq<Slot>, nids: seq<Nid>, s: State)
    requires Represents(events, nids, s)
    ensures Represents(events, Split(events, nids), s)
  {
    SplitExactly(events, nids);
  }

  lemma SplitDistinct(events: seq<Slot>, nids: seq<Nid>)
    requires DistinctTuples(events, nids)
    ensures DistinctTuples(events, Split(events, nids))
  {
    var r := Split(events, nids);
    SplitExactly(events, nids);
    forall i, j | 0 <= i < j < |r| ensures TupleAt(events, r[i]) != TupleAt(events, r[j]) {
      assert r[i] in r && r[j] in r;
      var x :| 0 <= x < |nids| && nids[x] == r[i];
      var y :| 0 <= y < |nids| && nids[y] == r[j];
    }
  }

  function AsStored(events: seq<Slot>, room: RoomId, nids: seq<Nid>): Snapshot {
    Snapshot(room, WithMembership(events, nids, true), WithMembership(events, nids, false))
  }

  lemma AppendedHolds(db: DB, db': DB, room: RoomId, nids: seq<Nid>, s: State)
    requires SnapshotsOk(db) && Represents(db.events, nids, s)
    requires db'.events == db.events && db'.snapshots == db.snapshots + [AsStored(db.events, room, nids)]
    ensures SnapHolds(db', |db'.snapshots|, s) && SnapshotsOk(db')
  {
    SplitRepresents(db.events, nids, s);
    SnapshotAdded(db, db', s);
  }

  /** A row is not part of the state before it. */
  lemma NotYetInState(events: seq<Slot>, room: RoomId, nids: seq<Nid>, n: Nid)
    requires 1 <= n <= |events| && Represents(events, nids, Fold(events, room, n - 1))
    ensures n !in nids
  {
    if n in nids {
      assert Holds(events, Fold(events, room, n - 1), n);
      FoldValues(events, room, n - 1, KeyAt(events, n));
    }
  }

  /** The ids of the events that were not stored yet. */
  ghost function NewIds(events: seq<Slot>, es: seq<Event>): set<EventId> {
    set i | 0 <= i < |es| && !Known(events, es[i].id) :: es[i].id
  }

  lemma NumbersAreNewIds(table: seq<Slot>, es: seq<Event>, nids: map<EventId, Nid>)
    requires NumbersUpTo(table, es, nids, |es|)
    ensures nids.Keys == NewIds(table, es)
  {
  }

  lemma SomeNew(table: seq<Slot>, es: seq<Event>, nids: map<EventId, Nid>)
    requires nids.Keys == NewIds(table, es) && nids != map[]
    ensures exists i :: 0 <= i < |es| && es[i].id in nids
  {
    assert exists id :: id in nids.Keys;
  }

  /** When nothing was new, every row number of the batch was wasted. */
  lemma NothingNew(db: DB, db': DB, room: RoomId, es: seq<Event>, nids: map<EventId, Nid>, inStateBlock: bool)
    requires Inv(db) && db' == db.(events := db'.events) && Batch(db.events, db'.events, es, nids, room, inStateBlock)
    requires db'.events == db.events + NewSlots(db.events, es, room, inStateBlock) && nids == map[]
    ensures Inv(db') && RollableTo(db'.events, room, |db.events|, |db'.events|) && CopiesInOrder(db.events, es)
    ensures NewIds(db.events, es) == {} && forall e :: e in es ==> Known(db.events, e.id)
  {
    forall i | |db.events| <= i < |db'.events| ensures db'.events[i].Burned? {
      assert InsertedAt(db'.events, |db.events|, es, nids, room, inStateBlock, i - |db.events|);
    }
    OnlyBurned(db, db');
  }

  /** When something was new, some row of the block is the room's, and all of them are of the block. */
  lemma SomeRow(table: seq<Slot>, events: seq<Slot>, es: seq<Event>, nids: map<EventId, Nid>, room: RoomId)
    requires Batch(table, events, es, nids, room, true) && exists i :: 0 <= i < |es| && es[i].id in nids
    ensures exists n :: InRoom(events, room, n) && |table| < n
    ensures forall n :: HasRow(events, n) && |table| < n ==> RowAt(events, n).inStateBlock
  {
    var i :| 0 <= i < |es| && es[i].id in nids;
    RowOfNew(table, events, es, nids, room, true, i);
    assert InRoom(events, room, nids[es[i].id]);
    forall n | HasRow(events, n) && |table| < n ensures RowAt(events, n).inStateBlock {
      NewOfRow(table, events, es, nids, room, true, n);
    }
  }

  function Wasted(n: nat): seq<Slot> { seq(n, _ => Burned) }

  /** What a rolled-back insert of `n` events leaves: a sequence does not take its numbers back. */
  function RolledBack(db: DB, n: nat): DB { db.(events := db.events + Wasted(n)) }

  lemma RolledBackKeeps(db: DB, n: nat)
    requires Inv(db)
    ensures Inv(RolledBack(db, n))
  {
    OnlyBurned(db, RolledBack(db, n));
  }

  // ---- how far a timeline can be rolled over ----

  /** Nothing after row `base` is state, or no two keys of the state at row `k` share a tuple. */
  ghost predicate RollableTo(events: seq<Slot>, room: RoomId, base: nat, k: nat)
    requires k <= |events|
  {
    (exists n :: base < n <= k && IsStateIn(events, room, n)) ==> TuplesApart(Fold(events, room, k))
  }

  lemma RollableKept(events: seq<Slot>, room: RoomId, base: nat, k: nat)
    requires base <= k < |events| && !IsStateIn(events, room, k + 1)
    ensures RollableTo(events, room, base, k + 1) <==> RollableTo(events, room, base, k)
  {
    if n :| base < n <= k && IsStateIn(events, room, n) {
      assert n <= k + 1;
    }
  }

  lemma RollableState(events: seq<Slot>, room: RoomId, base: nat, k: nat)
    requires base <= k < |events| && IsStateIn(events, room, k + 1)
    ensures RollableTo(events, room, base, k + 1) <==> TuplesApart(Fold(events, room, k + 1))
    ensures TuplesApart(Fold(events, room, k + 1)) ==> TuplesApart(Fold(events, room, k))
  {
    var s, t := Fold(events, room, k), Fold(events, room, k + 1);
    assert forall key :: key in s ==> key in t;
  }

  lemma RollableStep(events: seq<Slot>, room: RoomId, base: nat, k: nat)
    requires base <= k < |events|
    ensures RollableTo(events, room, base, k + 1) ==> RollableTo(events, room, base, k)
  {
    if IsStateIn(events, room, k + 1) {
      RollableState(events, room, base, k);
    } else {
      RollableKept(events, room, base, k);
    }
  }

  lemma {:induction false} RollableDown(events: seq<Slot>, room: RoomId, base: nat, k: nat, n: nat)
    requires base <= k <= n <= |events|
    ensures RollableTo(events, room, base, n) ==> RollableTo(events, room, base, k)
  {
    if k < n {
      RollableStep(events, room, base, n - 1);
      RollableDown(events, room, base, k, n - 1);
    }
  }

  /** Events whose types do not contain the separator can always be rolled over. */
  lemma SeparableRolls(events: seq<Slot>, room: RoomId, base: nat, k: nat)
    requires k <= |events| && forall n :: IsStateIn(events, room, n) && n <= k ==> Separable(KeyAt(events, n))
    ensures RollableTo(events, room, base, k)
  {
    forall key | key in Fold(events, room, k) ensures Separable(key) {
      FoldValues(events, room, k, key);
    }
    SeparableApart(Fold(events, room, k));
  }

  /** Rows up to `k` are settled if they can be; otherwise the snapshot at hand still has no tuple twice. */
  ghost predicate Progress(db: DB, room: RoomId, base: nat, k: nat, snap: int) {
    && base <= k <= |db.events|
    && if RollableTo(db.events, room, base, k) then Partial(db, room, k, snap)
       else DistinctTuples(db.events, SnapNids(db.snapshots, snap))
  }

  lemma ProgressBurned(db: DB, room: RoomId, base: nat, k: nat, snap: int)
    requires Progress(db, room, base, k, snap) && k < |db.events| && db.events[k].Burned?
    ensures Progress(db, room, base, k + 1, snap)
  {
    RollableKept(db.events, room, base, k);
    if RollableTo(db.events, room, base, k) {
      SkipBurned(db, room, k, snap);
    }
  }

  /** `latest` is the last row number among the first `i` inserted events, or 0. */
  ghost predicate LatestSoFar(events: seq<Slot>, room: RoomId, es: seq<Event>, nids: map<EventId, Nid>, base: nat,
                              i: nat, latest: Nid)
  {
    && i <= |es|
    && (latest == 0 || (base < latest <= base + i && InRoom(events, room, latest)))
    && (forall n :: base < n <= base + i && HasRow(events, n) ==> n <= latest)
    && (forall j :: 0 <= j < i && es[j].id in nids ==> latest > 0)
  }

  /** The first `i` inserted events have been walked over. */
  ghost predicate Walked(db: DB, room: RoomId, es: seq<Event>, nids: map<EventId, Nid>, base: nat, i: nat, snap: int,
                         latest: Nid)
  {
    && |db.events| == base + |es| && Progress(db, room, base, base + i, snap)
    && LatestSoFar(db.events, room, es, nids, base, i, latest)
  }

  lemma LatestStored(events: seq<Slot>, room: RoomId, es: seq<Event>, nids: map<EventId, Nid>, base: nat, i: nat,
                     latest: Nid)
    requires LatestSoFar(events, room, es, nids, base, i, latest) && i < |es| && InRoom(events, room, base + i + 1)
    ensures LatestSoFar(events, room, es, nids, base, i + 1, Max(latest, base + i + 1))
  {
  }

  lemma LatestBurned(events: seq<Slot>, room: RoomId, es: seq<Event>, nids: map<EventId, Nid>, base: nat, i: nat,
                     latest: Nid)
    requires LatestSoFar(events, room, es, nids, base, i, latest) && i < |es| && es[i].id !in nids
    requires !HasRow(events, base + i + 1)
    ensures LatestSoFar(events, room, es, nids, base, i + 1, latest)
  {
  }

  /** A snapshot without a repeated tuple does not hold a state that has one. */
  lemma BrokenIsNotOk(db: DB, room: RoomId)
    requires room in db.rooms && DistinctTuples(db.events, SnapNids(db.snapshots, db.rooms[room].current))
    requires !TuplesApart(Fold(db.events, room, |db.events|))
    ensures !RoomOk(db, room)
  {
    if RoomOk(db, room) {
      DistinctExactly(db.events, SnapNids(db.snapshots, db.rooms[room].current), Fold(db.events, room, |db.events|));
    }
  }

  /** Recording the snapshot and the last row leaves the tables right exactly when the timeline could be rolled over. */
  lemma WalkCompleted(db: DB, room: RoomId, es: seq<Event>, nids: map<EventId, Nid>, base: nat, snap: int, latest: Nid)
    requires Walked(db, room, es, nids, base, |es|, snap, latest)
    requires exists i :: 0 <= i < |es| && es[i].id in nids
    ensures Inv(db.(rooms := db.rooms[room := RoomRow(snap, latest)])) <==>
      RollableTo(db.events, room, base, |db.events|)
  {
    var db' := db.(rooms := db.rooms[room := RoomRow(snap, latest)]);
    if RollableTo(db.events, room, base, |db.events|) {
      Completed(db, db', room, snap, latest);
    } else {
      BrokenIsNotOk(db', room);
    }
  }

  /** The row number that row `n` replaces in the state before it, or 0. */
  ghost function Replaced(events: seq<Slot>, room: RoomId, n: Nid): Nid
    requires 1 <= n <= |events|
  {
    var earlier := Fold(events, room, n - 1);
    if IsStateIn(events, room, n) && KeyAt(events, n) in earlier then earlier[KeyAt(events, n)] else 0
  }

  ghost predicate MoreSnapshots(before: seq<Snapshot>, after: seq<Snapshot>) {
    |before| <= |after| && after[..|before|] == before
  }

  /** The tables are `db` with more snapshots, and the one called `next` holds the state after row `n`. */
  ghost predicate RolledOver(db: DB, mid: DB, room: RoomId, n: Nid, next: int, replacesNid: Nid)
    requires 1 <= n <= |db.events|
  {
    && mid == db.(snapshots := mid.snapshots) && MoreSnapshots(db.snapshots, mid.snapshots)
    && SnapshotsOk(mid) && SnapHolds(mid, next, Fold(db.events, room, n))
    && replacesNid == Replaced(db.events, room, n)
  }

  /** What can be said of the next snapshot when the state has a tuple twice. */
  ghost predicate BrokenOver(db: DB, mid: DB, room: RoomId, n: Nid, snap: int, next: int) {
    if IsStateIn(db.events, room, n) then DistinctTuples(db.events, SnapNids(mid.snapshots, next))
    else next == snap && mid.snapshots == db.snapshots
  }

  /** A loaded snapshot can be rolled forward if no two keys of the state after it share a tuple. */
  lemma ForwardLoaded(db: DB, room: RoomId, n: Nid, stripped: seq<Nid>)
    requires IsStateIn(db.events, room, n)
    ensures Represents(db.events, stripped, Fold(db.events, room, n - 1)) && TuplesApart(Fold(db.events, room, n)) ==>
      DistinctTuples(db.events, stripped) && ReplacedBy(db.events, stripped, n) == Replaced(db.events, room, n)
  {
    if Represents(db.events, stripped, Fold(db.events, room, n - 1)) {
      NotYetInState(db.events, room, stripped, n);
      RollsExactly(db.events, stripped, Fold(db.events, room, n - 1), n);
    }
  }

  /** The snapshot rolled forward holds the state after row `n` exactly when no two keys there share a tuple. */
  lemma ForwardStored(db: DB, db': DB, room: RoomId, n: Nid, stripped: seq<Nid>)
    requires IsStateIn(db.events, room, n) && DistinctTuples(db.events, stripped) && db'.events == db.events
    requires db'.snapshots == db.snapshots + [AsStored(db.events, room, Rolled(db.events, stripped, n))]
    ensures Represents(db.events, stripped, Fold(db.events, room, n - 1)) && SnapshotsOk(db) ==>
      (TuplesApart(Fold(db.events, room, n)) <==> SnapHolds(db', |db'.snapshots|, Fold(db.events, room, n))) &&
      (TuplesApart(Fold(db.events, room, n)) ==> SnapshotsOk(db'))
  {
    var rolled, after := Rolled(db.events, stripped, n), Fold(db.events, room, n);
    if Represents(db.events, stripped, Fold(db.events, room, n - 1)) && SnapshotsOk(db) {
      NotYetInState(db.events, room, stripped, n);
      RollsExactly(db.events, stripped, Fold(db.events, room, n - 1), n);
      if TuplesApart(after) {
        AppendedHolds(db, db', room, rolled, after);
      } else if SnapHolds(db', |db'.snapshots|, after) {
        RolledDistinct(db.events, stripped, n);
        SplitDistinct(db.events, rolled);
        DistinctExactly(db.events, SnapNids(db'.snapshots, |db'.snapshots|), after);
      }
    }
  }

  /** Snapshots do not depend on the columns of the events table. */
  lemma ColumnsAside(mid: DB, db': DB, id: int, s: State)
    requires db'.events == mid.events && db'.snapshots == mid.snapshots && SnapshotsOk(mid) && SnapHolds(mid, id, s)
    ensures SnapshotsOk(db') && SnapHolds(db', id, s)
  {
  }

  function WithColumns(db: DB, n: Nid, snap: int, replacesNid: Nid): DB {
    db.(before := db.before[n := snap], supersedes := db.supersedes[n := replacesNid])
  }

  lemma RowSettled(db: DB, mid: DB, room: RoomId, n: Nid, snap: int, next: int, replacesNid: Nid)
    requires InRoom(db.events, room, n) && !RowAt(db.events, n).inStateBlock
    requires SnapHolds(db, snap, Fold(db.events, room, n - 1)) && RolledOver(db, mid, room, n, next, replacesNid)
    ensures RowOk(WithColumns(mid, n, snap, replacesNid), n)
  {
    SnapHoldsExtends(db, WithColumns(mid, n, snap, replacesNid), snap, Fold(db.events, room, n - 1));
  }

  lemma ColumnsWritten(db: DB, mid: DB, db': DB, room: RoomId, n: Nid, snap: int, next: int, replacesNid: Nid)
    requires HasRow(db.events, n) && TablesOk(db) && RolledOver(db, mid, room, n, next, replacesNid)
    requires db' == WithColumns(mid, n, snap, replacesNid)
    ensures TablesOk(db') && SnapHolds(db', next, Fold(db.events, room, n))
    ensures Extends(db, db') && ColumnsKept(db, db', n)
  {
    ColumnsAside(mid, db', next, Fold(db.events, room, n));
  }

  lemma EventSettled(db: DB, mid: DB, db': DB, room: RoomId, n: Nid, snap: int, next: int, replacesNid: Nid)
    requires InRoom(db.events, room, n) && !RowAt(db.events, n).inStateBlock && Partial(db, room, n - 1, snap)
    requires RolledOver(db, mid, room, n, next, replacesNid) && db' == WithColumns(mid, n, snap, replacesNid)
    ensures Partial(db', room, n, next)
  {
    RowSettled(db, mid, room, n, snap, next, replacesNid);
    ColumnsWritten(db, mid, db', room, n, snap, next, replacesNid);
    SettleRow(db, db', room, n, snap, next);
  }

  lemma EventBroken(db: DB, mid: DB, room: RoomId, base: nat, n: Nid, snap: int, next: int)
    requires base < n && InRoom(db.events, room, n) && Progress(db, room, base, n - 1, snap)
    requires !RollableTo(db.events, room, base, n) && BrokenOver(db, mid, room, n, snap, next)
    ensures DistinctTuples(db.events, SnapNids(mid.snapshots, next))
  {
    if !IsStateIn(db.events, room, n) {
      RollableKept(db.events, room, base, n - 1);
    }
  }

  lemma EventProgress(db: DB, mid: DB, room: RoomId, base: nat, n: Nid, snap: int, next: int, replacesNid: Nid)
    requires base < n && InRoom(db.events, room, n) && !RowAt(db.events, n).inStateBlock
    requires Progress(db, room, base, n - 1, snap) && mid.events == db.events
    requires RollableTo(db.events, room, base, n) ==> RolledOver(db, mid, room, n, next, replacesNid)
    requires BrokenOver(db, mid, room, n, snap, next)
    ensures Progress(WithColumns(mid, n, snap, replacesNid), room, base, n, next)
  {
    if RollableTo(db.events, room, base, n) {
      RollableStep(db.events, room, base, n - 1);
      EventSettled(db, mid, WithColumns(mid, n, snap, replacesNid), room, n, snap, next, replacesNid);
    } else {
      EventBroken(db, mid, room, base, n, snap, next);
    }
  }

  // ---- state blocks ----

  function Parsed(state: seq<Option<Event>>): seq<Event> {
    if state == [] then []
    else (if state[0].Some? then [state[0].value] else []) + Parsed(state[1..])
  }

  /** The create event is part of the room's state. */
  ghost predicate HasCreate(events: seq<Slot>, room: RoomId) {
    ("m.room.create", "") in Fold(events, room, |events|)
  }

  /** The event is a create event that is not known yet, as are all before it with its ID. */
  ghost predicate NewCreate(events: seq<Slot>, es: seq<Event>, i: int) {
    && 0 <= i < |es| && es[i].kind == "m.room.create" && es[i].stateKey == Some("") && !Known(events, es[i].id)
    && forall j :: 0 <= j < i && es[j].id == es[i].id ==> es[j] == es[i]
  }

  /** The event cannot be a create event: it has another type, or a state key that is not empty. */
  predicate NoCreate(e: Event) { e.kind != "m.room.create" || (e.stateKey.Some? && e.stateKey.value != "") }

  /** A new create event in a batch becomes part of the state, wherever in the batch it is. */
  lemma CreateIsStored(events: seq<Slot>, es: seq<Event>, room: RoomId, inStateBlock: bool, i: int)
    requires NewCreate(events, es, i)
    ensures HasCreate(events + NewSlots(events, es, room, inStateBlock), room)
  {
    var all := events + NewSlots(events, es, room, inStateBlock);
    var f := FirstOf(es, es[i].id);
    NewSlotAt(events, es, room, inStateBlock, f);
    assert all[|events| + f] == NewSlots(events, es, room, inStateBlock)[f];
    assert !Seen(es[..f], es[f].id) by {
      assert forall j :: 0 <= j < f ==> es[..f][j] == es[j];
    }
    FoldAtLeast(all, room, |events| + 1 + f, |all|);
  }

  lemma {:induction false} ParsedFrom(state: seq<Option<Event>>)
    ensures forall e :: e in Parsed(state) <==> Some(e) in state
  {
    if state != [] {
      ParsedFrom(state[1..]);
      assert state == [state[0]] + state[1..];
    }
  }

  /** Every event that parses is kept, copies included, in the order of the block; the others leave no trace. */
  lemma {:induction false} ParsedExactly(state: seq<Option<Event>>, e: Option<Event>)
    ensures Parsed(state + [e]) == Parsed(state) + if e.Some? then [e.value] else []
  {
    if state == [] {
      assert state + [e] == [e] && [e][1..] == [];
    } else {
      var head: seq<Event> := if state[0].Some? then [state[0].value] else [];
      var tail: seq<Event> := if e.Some? then [e.value] else [];
      assert (state + [e])[0] == state[0] && (state + [e])[1..] == state[1..] + [e];
      ParsedExactly(state[1..], e);
      assert head + (Parsed(state[1..]) + tail) == (head + Parsed(state[1..])) + tail;
    }
  }

  /** Collects the map from keys to row numbers that a loaded snapshot stands for. */
  method StateMapOf(events: seq<Slot>, nids: seq<Nid>, ghost s: State) returns (m: State)
    requires Represents(events, nids, s)
    ensures m == s
  {
    m := map[];
    for i := 0 to |nids|
      invariant forall k :: k in m ==> k in s && m[k] == s[k]
      invariant forall j :: 0 <= j < i ==> KeyAt(events, nids[j]) in m
    {
      assert Holds(events, s, nids[i]);
      m := m[KeyAt(events, nids[i]) := nids[i]];
    }
    forall k | k in s ensures k in m {
      var j :| 0 <= j < |nids| && nids[j] == s[k];
    }
  }

  /** Some keys of the map, all of memberships or none, and what the map has there. */
  ghost predicate Listed(m: State, keys: seq<Key>, nids: seq<Nid>, member: bool) {
    && NoDup(keys) && |nids| == |keys|
    && forall i :: 0 <= i < |keys| ==>
         keys[i] in m && nids[i] == m[keys[i]] && (keys[i].0 == "m.room.member" <==> member)
  }

  lemma ListedMore(m: State, keys: seq<Key>, nids: seq<Nid>, member: bool, k: Key)
    requires Listed(m, keys, nids, member) && k in m && k !in keys && (k.0 == "m.room.member" <==> member)
    ensures Listed(m, keys + [k], nids + [m[k]], member)
  {
  }

  lemma ListedAll(m: State, keys: seq<Key>, members: seq<Nid>, keys': seq<Key>, others: seq<Nid>)
    requires Listed(m, keys, members, true) && Listed(m, keys', others, false)
    requires forall k :: k in m ==> k in keys || k in keys'
    ensures Enumerates(m, keys + keys', members + others)
  {
    forall i, j | 0 <= i < |keys| && 0 <= j < |keys'| ensures keys[i] != keys'[j] {
      assert keys[i].0 == "m.room.member";
    }
    forall k | k in keys + keys' ensures k in m {
      var i :| 0 <= i < |keys + keys'| && (keys + keys')[i] == k;
    }
  }

  /** Among the values of the map `latest` is the highest; 0 if there are none. */
  ghost predicate Highest(m: State, latest: Nid) {
    (latest == 0 || HasValue(m, latest)) && forall k :: k in m ==> m[k] <= latest
  }

  /** The row numbers of a state map, memberships apart, in no particular order, and the highest of them. */
  method NidsOf(m: State) returns (members: seq<Nid>, others: seq<Nid>, latest: Nid, ghost keys: seq<Key>)
    ensures Enumerates(m, keys, members + others) && Highest(m, latest)
    ensures forall i :: 0 <= i < |keys| ==> (keys[i].0 == "m.room.member" <==> i < |members|)
  {
    members, others, latest := [], [], 0;
    ghost var memberKeys: seq<Key>, otherKeys: seq<Key> := [], [];
    var left := m.Keys;
    while left != {}
      invariant left <= m.Keys && Listed(m, memberKeys, members, true) && Listed(m, otherKeys, others, false)
      invariant forall k :: k in m ==> (k in left <==> k !in memberKeys && k !in otherKeys)
      invariant forall k :: k in m && k !in left ==> m[k] <= latest
      invariant latest == 0 || HasValue(m, latest)
      decreases |left|
    {
      var k :| k in left;
      latest := Max(latest, m[k]);
      left := left - {k};
      if k.0 == "m.room.member" {
        ListedMore(m, memberKeys, members, true, k);
        members, memberKeys := members + [m[k]], memberKeys + [k];
      } else {
        ListedMore(m, otherKeys, others, false, k);
        others, otherKeys := others + [m[k]], otherKeys + [k];
      }
    }
    ListedAll(m, memberKeys, members, otherKeys, others);
    keys := memberKeys + otherKeys;
  }

  /** With a new row in a state block, the highest row number of the state is the room's last row. */
  lemma LatestIsLast(events: seq<Slot>, room: RoomId, base: nat, latest: Nid)
    requires forall n :: InRoom(events, room, n) && base < n ==> IsStateIn(events, room, n)
    requires exists n :: InRoom(events, room, n) && base < n
    requires Highest(Fold(events, room, |events|), latest)
    ensures InRoom(events, room, latest) && forall n :: latest < n ==> !InRoom(events, room, n)
  {
    var m := Fold(events, room, |events|);
    forall n | InRoom(events, room, n) && base < n ensures n <= latest {
      FoldAtLeast(events, room, n, |events|);
    }
    var k :| k in m && m[k] == latest;
    FoldValues(events, room, |events|, k);
  }

  lemma HighestSame(m: State, s: State, latest: Nid)
    requires Highest(m, latest) && SameRows(m, s)
    ensures Highest(s, latest)
  {
    if HasValue(m, latest) {
      var k :| k in m && m[k] == latest;
      assert HasValue(s, m[k]);
    }
    forall l | l in s ensures s[l] <= latest {
      assert HasValue(m, s[l]);
    }
  }

  /** The rows after `base` are a state block's, and there is at least one. */
  ghost predicate BlockInserted(db: DB, room: RoomId, base: nat, snap: int) {
    && Partial(db, room, base, snap)
    && (forall n :: HasRow(db.events, n) && base < n ==> RowAt(db.events, n).inStateBlock)
    && (exists n :: InRoom(db.events, room, n) && base < n)
  }

  lemma RightStateStored(db: DB, db': DB, room: RoomId, base: nat, snap: int, m: State, stored: Snapshot, latest: Nid)
    requires BlockInserted(db, room, base, snap) && Highest(m, latest)
    requires var s := Fold(db.events, room, |db.events|);
      SameRows(m, s) && Represents(db.events, stored.members + stored.others, s)
    requires db' == db.(snapshots := db.snapshots + [stored],
                        rooms := db.rooms[room := RoomRow(|db.snapshots| + 1, latest)])
    ensures Inv(db')
  {
    var id, half, s := |db.snapshots| + 1, db.(snapshots := db'.snapshots), Fold(db.events, room, |db.events|);
    assert SnapNids(db'.snapshots, id) == stored.members + stored.others;
    SnapshotAdded(db, half, s);
    SettleStateBlock(db, half, room, base, snap, id);
    HighestSame(m, s, latest);
    LatestIsLast(db.events, room, base, latest);
    Completed(half, db', room, id, latest);
  }

  /** A stored state block leaves the tables right exactly when what it stored are the rows of the folded state. */
  lemma StateStored(db: DB, db': DB, room: RoomId, base: nat, snap: int, m: State, keys: seq<Key>, stored: Snapshot,
                    latest: Nid)
    requires BlockInserted(db, room, base, snap) && Enumerates(m, keys, stored.members + stored.others)
    requires Highest(m, latest)
    requires db' == db.(snapshots := db.snapshots + [stored],
                        rooms := db.rooms[room := RoomRow(|db.snapshots| + 1, latest)])
    ensures Inv(db') <==> SameRows(m, Fold(db.events, room, |db.events|))
  {
    var s := Fold(db.events, room, |db.events|);
    assert SnapNids(db'.snapshots, |db.snapshots| + 1) == stored.members + stored.others;
    FoldKeyed(db.events, room, |db.events|);
    EnumeratedExactly(db.events, m, keys, stored.members + stored.others, s);
    if SameRows(m, s) {
      RightStateStored(db, db', room, base, snap, m, stored, latest);
    } else {
      assert Inv(db') ==> RoomOk(db', room);
    }
  }

  // ---- the store ----

  datatype Initialised =
    | Failed(isDataError: bool)
    | Unchanged
    | Added(snapshot: int, replacedExisting: bool)

  class Store {
    var events: seq<Slot>
    var before: map<Nid, int>
    var supersedes: map<Nid, Nid>
    var snapshots: seq<Snapshot>
    var rooms: map<RoomId, RoomRow>

    ghost function Tables(): DB
      reads this
    {
      DB(events, before, supersedes, snapshots, rooms)
    }

    constructor ()
      ensures Inv(Tables()) && Tables() == DB([], map[], map[], [], map[])
    {
      events, before, supersedes, snapshots, rooms := [], map[], map[], [], map[];
    }

    method ParseAndDeduplicate(timeline: seq<Option<Event>>) returns (es: seq<Event>)
      ensures es == Deduplicated([], timeline)
    {
      es := [];
      for k := 0 to |timeline|
        invariant Deduplicated(es, timeline[k..]) == Deduplicated([], timeline)
      {
        assert timeline[k..][1..] == timeline[k + 1..];
        if timeline[k].None? {
          continue;
        }
        if Seen(es, timeline[k].value.id) {
          continue;
        }
        es := es + [timeline[k].value];
      }
    }

    method FilterToNew(es: seq<Event>) returns (newEvents: seq<Event>)
      ensures newEvents == if |es| <= 1 then es else AfterLastKnown(events, es)
    {
      if |es| <= 1 {
        return es;
      }
      assert es[..|es|] == es;
      for i := |es| downto 0
        invariant AfterLastKnown(events, es) == AfterLastKnown(events, es[..i]) + es[i..]
      {
        assert es[..i + 1][..i] == es[..i] && es[i..] == [es[i]] + es[i + 1..];
        if Known(events, es[i].id) {
          return es[i + 1..];
        }
      }
      return es;
    }

    /** Inserts a batch, wasting the row number of every event whose id is in the table by then. */
    method Insert(es: seq<Event>, room: RoomId, inStateBlock: bool) returns (nids: map<EventId, Nid>)
      modifies this`events
      ensures events == old(events) + NewSlots(old(events), es, room, inStateBlock)
      ensures nids.Keys == NewIds(old(events), es)
      ensures Batch(old(events), events, es, nids, room, inStateBlock)
    {
      var all;
      all, nids := InsertInto(events, es, room, inStateBlock);
      BatchInserted(events, es, room, inStateBlock, nids);
      NumbersAreNewIds(events, es, nids);
      events := all;
    }

    method AppendSnapshot(room: RoomId, nids: seq<Nid>) returns (id: int)
      modifies this`snapshots
      ensures snapshots == old(snapshots) + [AsStored(events, room, nids)] && id == |snapshots|
    {
      var members, others := SplitNids(events, nids);
      snapshots := snapshots + [Snapshot(room, members, others)];
      return |snapshots|;
    }

    /**
     * The rows of a snapshot in ascending order, or nothing when some are missing or repeated. A snapshot
     * that holds a state always loads, and holds the same state in the new order.
     */
    method SelectSnapshot(id: int) returns (nids: Option<seq<Nid>>)
      ensures var want := SnapNids(snapshots, id);
        && (nids.Some? <==> NoDup(want) && forall i :: 0 <= i < |want| ==> HasRow(events, want[i]))
        && (nids.Some? ==> |nids.value| == |want| && forall n :: n in nids.value <==> n in want)
      ensures nids.Some? ==> forall i, j :: 0 <= i < j < |nids.value| ==> nids.value[i] < nids.value[j]
      ensures forall s :: SnapHolds(Tables(), id, s) ==> nids.Some? && Represents(events, nids.value, s)
    {
      var want := SnapNids(snapshots, id);
      var all := Selected(events, want, |events|);
      SelectedExactly(events, want, |events|);
      SelectedShort(events, want);
      forall s | SnapHolds(Tables(), id, s) ensures |all| == |want| && Represents(events, all, s) {
        SelectedRepresents(events, want, s);
      }
      if |all| != |want| {
        return None;
      }
      forall n | n in want ensures n in all {
        var i :| 0 <= i < |want| && want[i] == n;
      }
      return Some(all);
    }

    /** The rows of a snapshot; none when there is no snapshot. */
    method LoadSnapshot(snap: int, ghost s: State) returns (nids: Option<seq<Nid>>)
      ensures SnapHolds(Tables(), snap, s) ==> nids.Some? && Represents(events, nids.value, s)
    {
      if snap == 0 {
        return Some([]);
      }
      nids := SelectSnapshot(snap);
      assert SnapHolds(Tables(), snap, s) ==> nids.Some?;
    }

    /**
     * Rolls the snapshot forward over the state event in row `n`. From a snapshot that holds the state before
     * it this gives one that holds the state after it, exactly when no two keys there share a tuple.
     */
    method RollForward(room: RoomId, n: Nid, snap: int) returns (r: Option<(int, Nid)>)
      requires IsStateIn(events, room, n)
      modifies this`snapshots
      ensures MoreSnapshots(old(snapshots), snapshots)
      ensures r.Some? ==> DistinctTuples(events, SnapNids(snapshots, r.value.0))
      ensures SnapHolds(old(Tables()), snap, Fold(events, room, n - 1)) && SnapshotsOk(old(Tables())) ==>
        (TuplesApart(Fold(events, room, n)) <==> r.Some? && SnapHolds(Tables(), r.value.0, Fold(events, room, n))) &&
        (TuplesApart(Fold(events, room, n)) ==> SnapshotsOk(Tables()) && r.value.1 == Replaced(events, room, n))
    {
      ghost var db := Tables();
      var loaded := LoadSnapshot(snap, Fold(events, room, n - 1));
      if loaded.None? {
        return None;
      }
      var stripped := loaded.value;
      ForwardLoaded(db, room, n, stripped);
      var calculated := CalculateNewSnapshot(events, stripped, n);
      if calculated.None? {
        return None;
      }
      SplitDistinct(events, calculated.value.0);
      var id := AppendSnapshot(room, calculated.value.0);
      ForwardStored(db, Tables(), room, n, stripped);
      return Some((id, calculated.value.1));
    }

    /** The snapshot after row `n`: a new one if the row is state, else the same. */
    method RollOver(room: RoomId, n: Nid, snap: int, ghost base: nat) returns (r: Option<(int, Nid)>)
      requires base < n && InRoom(events, room, n) && !RowAt(events, n).inStateBlock
      requires Progress(Tables(), room, base, n - 1, snap)
      modifies this`snapshots
      ensures RollableTo(events, room, base, n) ==>
        r.Some? && RolledOver(old(Tables()), Tables(), room, n, r.value.0, r.value.1)
      ensures r.Some? ==> BrokenOver(old(Tables()), Tables(), room, n, snap, r.value.0)
    {
      RollableStep(events, room, base, n - 1);
      if RowAt(events, n).event.stateKey.Some? {
        RollableState(events, room, base, n - 1);
        var rolled := RollForward(room, n, snap);
        if rolled.None? {
          return None;
        }
        return rolled;
      }
      return Some((snap, 0));
    }

    /** Records the before-snapshot of row `n` and works out the snapshot after it. */
    method SettleEvent(room: RoomId, n: Nid, snap: int, ghost base: nat) returns (r: Option<int>)
      requires base < n && InRoom(events, room, n) && !RowAt(events, n).inStateBlock
      requires Progress(Tables(), room, base, n - 1, snap)
      modifies this`snapshots, this`before, this`supersedes
      ensures RollableTo(events, room, base, |events|) ==> r.Some?
      ensures r.Some? ==> Progress(Tables(), room, base, n, r.value)
    {
      ghost var db := Tables();
      RollableDown(events, room, base, n, |events|);
      var rolled := RollOver(room, n, snap, base);
      if rolled.None? {
        return None;
      }
      var next, replacesNid := rolled.value.0, rolled.value.1;
      EventProgress(db, Tables(), room, base, n, snap, next, replacesNid);
      before := before[n := snap];
      supersedes := supersedes[n := replacesNid];
      return Some(next);
    }

    /** One inserted event: settled if it was stored, passed over if its row number was wasted. */
    method SettleNext(room: RoomId, es: seq<Event>, nids: map<EventId, Nid>, i: nat, snap: int, latestNid: Nid,
                      ghost base: nat)
      returns (r: Option<(int, Nid)>)
      requires i < |es| && DistinctIds(es) && Walked(Tables(), room, es, nids, base, i, snap, latestNid)
      requires InsertedAt(events, base, es, nids, room, false, i)
      modifies this`snapshots, this`before, this`supersedes
      ensures RollableTo(events, room, base, |events|) ==> r.Some?
      ensures r.Some? ==> Walked(Tables(), room, es, nids, base, i + 1, r.value.0, r.value.1)
    {
      assert FirstOf(es, es[i].id) == i;
      if es[i].id in nids {
        var nid := nids[es[i].id];
        LatestStored(events, room, es, nids, base, i, latestNid);
        var next := SettleEvent(room, nid, snap, base);
        if next.None? {
          return None;
        }
        return Some((next.value, Max(latestNid, nid)));
      } else {
        ProgressBurned(Tables(), room, base, base + i, snap);
        LatestBurned(events, room, es, nids, base, i, latestNid);
        return Some((snap, latestNid));
      }
    }

    /** Walks the inserted events, settling each stored one. */
    method WalkTimeline(room: RoomId, es: seq<Event>, nids: map<EventId, Nid>, start: int, ghost base: nat)
      returns (r: Option<(int, Nid)>)
      requires DistinctIds(es) && Walked(Tables(), room, es, nids, base, 0, start, 0)
      requires AllInserted(events, base, es, nids, room, false)
      modifies this`snapshots, this`before, this`supersedes
      ensures RollableTo(events, room, base, |events|) ==> r.Some?
      ensures r.Some? ==> Walked(Tables(), room, es, nids, base, |es|, r.value.0, r.value.1)
    {
      var snap, latestNid := start, 0;
      for i := 0 to |es|
        invariant Walked(Tables(), room, es, nids, base, i, snap, latestNid)
      {
        assert InsertedAt(events, base, es, nids, room, false, i);
        var next := SettleNext(room, es, nids, i, snap, latestNid, base);
        if next.None? {
          return None;
        }
        snap, latestNid := next.value.0, next.value.1;
      }
      return Some((snap, latestNid));
    }

    /** Settles the inserted events, then records the room's new state. */
    method SettleTimeline(room: RoomId, es: seq<Event>, nids: map<EventId, Nid>, start: int, ghost base: nat)
      returns (ok: bool)
      requires DistinctIds(es) && Partial(Tables(), room, base, start)
      requires AllInserted(events, base, es, nids, room, false)
      requires exists i :: 0 <= i < |es| && es[i].id in nids
      modifies this`snapshots, this`before, this`supersedes, this`rooms
      ensures ok && Inv(Tables()) <==> RollableTo(events, room, base, |events|)
    {
      var walked := WalkTimeline(room, es, nids, start, base);
      if walked.None? {
        return false;
      }
      var snap, latestNid := walked.value.0, walked.value.1;
      WalkCompleted(Tables(), room, es, nids, base, snap, latestNid);
      rooms := rooms[room := RoomRow(snap, latestNid)];
      return true;
    }

    /** Inserts events that passed the filters and rolls the room state over those that were not stored yet. */
    method StoreTimeline(room: RoomId, es: seq<Event>, snap: int) returns (numNew: Option<int>)
      requires Inv(Tables()) && DistinctIds(es) && snap == CurrentOf(Tables(), room)
      modifies this
      ensures events == old(events) + NewSlots(old(events), es, room, false)
      ensures numNew.Some? ==> numNew == Some(|NewIds(old(events), es)|)
      ensures numNew.Some? && Inv(Tables()) <==> RollableTo(events, room, |old(events)|, |events|)
    {
      ghost var db := Tables();
      InsertedPartial(db, room, es, false);
      var nids := Insert(es, room, false);
      if nids == map[] {
        NothingNew(db, Tables(), room, es, nids, false);
        return Some(0);
      }
      SomeNew(db.events, es, nids);
      var ok := SettleTimeline(room, es, nids, snap, |db.events|);
      if !ok {
        return None;
      }
      return Some(|nids|);
    }

    /** All of it, or if some snapshot cannot be computed nothing but the row numbers, which are wasted. */
    method StoreInTransaction(room: RoomId, es: seq<Event>, snap: int) returns (numNew: Option<int>)
      requires Inv(Tables()) && DistinctIds(es) && snap == CurrentOf(Tables(), room)
      modifies this
      ensures numNew.None? ==> Tables() == RolledBack(old(Tables()), |es|) && Inv(Tables())
      ensures var after := old(events) + NewSlots(old(events), es, room, false);
        && (numNew.Some? ==> events == after && numNew == Some(|NewIds(old(events), es)|))
        && (numNew.Some? && Inv(Tables()) <==> RollableTo(after, room, |old(events)|, |after|))
    {
      RolledBackKeeps(Tables(), |es|);
      var saved := (events, before, supersedes, snapshots, rooms);
      numNew := StoreTimeline(room, es, snap);
      if numNew.None? {
        events, before, supersedes, snapshots, rooms := saved.0 + Wasted(|es|), saved.1, saved.2, saved.3, saved.4;
      }
    }

    /**
     * Stores the new events of a timeline and rolls the room state over them; the count is that of newly stored
     * events. If a snapshot cannot be computed the transaction is rolled back, with only row numbers wasted, and
     * there is no count. The tables are extended and still right exactly when no new event is state, or no two
     * keys of the room state with the new events share a tuple.
     */
    method Accumulate(room: RoomId, timeline: seq<Option<Event>>) returns (numNew: Option<int>)
      requires Inv(Tables())
      modifies this
      ensures numNew.None? ==>
        Tables() == RolledBack(old(Tables()), |NewTimeline(old(events), timeline)|) && Inv(Tables())
      ensures var es := NewTimeline(old(events), timeline);
        var after := old(events) + NewSlots(old(events), es, room, false);
        if Skipped(old(Tables()), room, es) then Tables() == old(Tables()) && numNew == Some(0)
        else (numNew.Some? ==> events == after && numNew == Some(|NewIds(old(events), es)|)) &&
             (numNew.Some? && Inv(Tables()) <==> RollableTo(after, room, |old(events)|, |after|))
      ensures var es := NewTimeline(old(events), timeline);
        CurrentOf(old(Tables()), room) == 0 && es != [] ==>
          && (NoCreate(es[0]) ==> Tables() == old(Tables()) && numNew == Some(0))
          && (NewCreate(old(events), es, 0) && numNew.Some? ==> HasCreate(events, room))
    {
      NewTimelineDistinct(events, timeline);
      if NewCreate(events, NewTimeline(events, timeline), 0) {
        CreateIsStored(events, NewTimeline(events, timeline), room, false, 0);
      }
      var incoming := ParseAndDeduplicate(timeline);
      var newEvents := FilterToNew(incoming);
      if |newEvents| == 0 {
        return Some(0);
      }
      var snap := if room in rooms then rooms[room].current else 0;
      if snap == 0 && !IsCreate(newEvents[0]) {
        return Some(0);
      }
      numNew := StoreInTransaction(room, newEvents, snap);
    }

    /** Stores a state map as the room's current snapshot. */
    method StoreState(room: RoomId, m: State, ghost base: nat, ghost snap: int) returns (id: int)
      requires BlockInserted(Tables(), room, base, snap)
      modifies this`snapshots, this`rooms
      ensures Inv(Tables()) <==> SameRows(m, Fold(events, room, |events|))
      ensures CurrentOf(Tables(), room) == id && |snapshots| == |old(snapshots)| + 1 == id
    {
      ghost var db := Tables();
      var members, others, latest;
      ghost var keys;
      members, others, latest, keys := NidsOf(m);
      snapshots := snapshots + [Snapshot(room, members, others)];
      id := |snapshots|;
      rooms := rooms[room := RoomRow(id, latest)];
      StateStored(db, Tables(), room, base, snap, m, keys, Snapshot(room, members, others), latest);
    }

    /** Inserts the events of a state block and, if any is new, replaces the room's snapshot. */
    method StoreStateBlock(room: RoomId, es: seq<Event>, snap: int) returns (r: Initialised)
      requires Inv(Tables()) && snap == CurrentOf(Tables(), room)
      modifies this
      ensures Inv(Tables()) <==> CopiesInOrder(old(events), es)
      ensures events == old(events) + NewSlots(old(events), es, room, true) && !r.Failed?
      ensures r.Unchanged? <==> forall e :: e in es ==> Known(old(events), e.id)
      ensures r.Added? ==> r.snapshot == CurrentOf(Tables(), room) && (r.replacedExisting <==> snap > 0)
    {
      ghost var db := Tables();
      InsertedPartial(db, room, es, true);
      var nids := Insert(es, room, true);
      if nids == map[] {
        NothingNew(db, Tables(), room, es, nids, true);
        return Unchanged;
      }
      SomeNew(db.events, es, nids);
      var m := LoadState(room, snap, |db.events|);
      if m.None? {
        return Failed(true);
      }
      var all := IngestAll(m.value, es, nids);
      IngestsExactly(db.events, events, es, nids, room);
      SomeRow(db.events, events, es, nids, room);
      var id := StoreState(room, all, |db.events|, snap);
      return Added(id, snap > 0);
    }

    /** The state map of the room's current snapshot; the empty map when there is none. */
    method LoadState(room: RoomId, snap: int, ghost base: nat) returns (m: Option<State>)
      requires base <= |events| && SnapHolds(Tables(), snap, Fold(events, room, base))
      ensures m == Some(Fold(events, room, base))
    {
      if snap == 0 {
        return Some(map[]);
      }
      var loaded := LoadSnapshot(snap, Fold(events, room, base));
      if loaded.None? {
        return None;
      }
      var state := StateMapOf(events, loaded.value, Fold(events, room, base));
      return Some(state);
    }

    /**
     * Processes a state block. A room's first block must contain its create event. The tables stay right
     * exactly when the copies of events that the block repeats are in order.
     */
    method Initialise(room: RoomId, state: seq<Option<Event>>) returns (r: Initialised)
      requires Inv(Tables())
      modifies this
      ensures var es := Parsed(state);
        if state == [] || es == [] || (CurrentOf(old(Tables()), room) == 0 && forall e :: e in es ==> !IsCreate(e))
        then Tables() == old(Tables()) && (r.Unchanged? <==> state == [])
        else events == old(events) + NewSlots(old(events), es, room, true) &&
             (Inv(Tables()) <==> CopiesInOrder(old(events), es)) &&
             (r.Unchanged? <==> forall e :: e in es ==> Known(old(events), e.id)) && !r.Failed?
      ensures r.Added? ==>
        r.snapshot == CurrentOf(Tables(), room) && (r.replacedExisting <==> CurrentOf(old(Tables()), room) > 0)
      ensures state != [] && Parsed(state) == [] ==> r == Failed(false)
      ensures var es := Parsed(state);
        CurrentOf(old(Tables()), room) == 0 ==>
          && ((forall e :: e in es ==> NoCreate(e)) ==>
               Tables() == old(Tables()) && (es != [] ==> r == Failed(true)))
          && ((exists i :: NewCreate(old(events), es, i)) ==> r.Added? && HasCreate(events, room))
    {
      if i :| NewCreate(events, Parsed(state), i) {
        CreateIsStored(events, Parsed(state), room, true, i);
      }
      if |state| == 0 {
        return Unchanged;
      }
      ParsedFrom(state);
      var es := Parsed(state);
      if |es| == 0 {
        return Failed(false);
      }
      var snap := if room in rooms then rooms[room].current else 0;
      if snap == 0 && forall i :: 0 <= i < |es| ==> !IsCreate(es[i]) {
        return Failed(true);
      }
      r := StoreStateBlock(room, es, snap);
    }
  }
}
