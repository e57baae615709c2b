/** A whole connection on one list: requests and live updates in any number of responses. */
module ListSession {
  import opened Common
  import opened Ranges
  import opened Delta
  import opened Sorting
  import opened RoomOrder
  import opened SortableRooms
  import opened ListClient
  import opened ListOps
  import opened Replica
  import opened OpenGap
  import opened WindowSlide

  /** A live update: the room it is about and the room data once it has happened. */
  datatype Change = Change(op: ListOp, room: RoomId, finder: Finder)

  ghost predicate UnknownKey(keys: seq<SortKey>) { exists k :: k in keys && k.UnknownOrder? }

  ghost predicate SortedList(keys: seq<SortKey>, finder: Finder, list: seq<RoomId>) {
    UnknownKey(keys) || SortedBy(Less(keys, finder), list)
  }

  ghost predicate SameElsewhere(f: Finder, g: Finder, room: RoomId) {
    forall x :: x != room ==> f(x) == g(x)
  }

  // ---- one update keeps the list sorted ----

  lemma OthersStaySorted(keys: seq<SortKey>, f: Finder, g: Finder, list: seq<RoomId>, room: RoomId)
    requires NoDup(list) && SortedList(keys, f, list) && SameElsewhere(f, g, room)
    ensures OthersSorted(list, room, keys, g)
  {
    if !UnknownKey(keys) {
      var others := RemoveAt(Padded(list, room), FromOf(list, room));
      var from := FromOf(list, room);
      forall i, j | 0 <= i < j < |others| ensures !Less(keys, g)(others[j], others[i]) {
        var i', j' := if i < from then i else i + 1, if j < from then j else j + 1;
        assert others[i] == list[i'] && others[j] == list[j'];
        assert room in list ==> list[from] == room;
        assert !Less(keys, f)(list[j'], list[i']);
      }
    }
  }

  lemma UpdateKeepsList(keys: seq<SortKey>, f: Finder, list: seq<RoomId>, c: Change)
    requires NoDup(list) && SortedList(keys, f, list) && SameElsewhere(f, c.finder, c.room)
    ensures var after := ListAfter(list, c.op, c.room, keys, c.finder);
      NoDup(after) && SortedList(keys, c.finder, after)
  {
    OthersStaySorted(keys, f, c.finder, list, c.room);
    if c.op.Add? || (c.op.Change? && c.room in list) {
      AfterIsMove(list, c.op, c.room, keys, c.finder);
      LessIsStrictWeakOrder(keys, c.finder);
      SortSorts(Less(keys, c.finder), Padded(list, c.room));
    } else if c.room !in list {
      assert Padded(list, c.room) == list + [c.room];
      assert RemoveAt(list + [c.room], |list|) == list;
    }
  }

  // ---- one response ----

  ghost function ListAfterAll(keys: seq<SortKey>, list: seq<RoomId>, changes: seq<Change>): seq<RoomId>
    decreases changes
  {
    if changes == [] then list
    else
      var c := changes[0];
      ListAfterAll(keys, ListAfter(list, c.op, c.room, keys, c.finder), changes[1..])
  }

  /** The operations of all updates, one after the other. */
  ghost function OpsOfAll(rs: seq<Range>, keys: seq<SortKey>, list: seq<RoomId>, changes: seq<Change>): Outcome
    decreases changes
  {
    if changes == [] then Done([], [])
    else
      var c := changes[0];
      var first := ServerOps(rs, list, c.op, c.room, keys, c.finder);
      var rest := OpsOfAll(rs, keys, ListAfter(list, c.op, c.room, keys, c.finder), changes[1..]);
      if first.Panic? || rest.Panic? then Panic else Done(first.ops + rest.ops, first.subs + rest.subs)
  }

  /** Each update changes the data of its own room only. */
  ghost predicate OneRoomEach(f: Finder, changes: seq<Change>)
    decreases changes
  {
    changes == [] ||
    (SameElsewhere(f, changes[0].finder, changes[0].room) && OneRoomEach(changes[0].finder, changes[1..]))
  }

  /**
   * Every Del can be answered, and every update can follow the gap, if any, that the one before it leaves
   * open. Without a Del in the response that is always so.
   */
  ghost predicate Deliverable(rs: seq<Range>, keys: seq<SortKey>, list: seq<RoomId>, gap: int, changes: seq<Change>)
    decreases changes
  {
    changes == [] ||
    (var c := changes[0];
     var first := ServerOps(rs, list, c.op, c.room, keys, c.finder);
     && (c.op.Del? ==> !DelFails(rs, list, c.room))
     && Follows(rs, gap, list, c.op, c.room, keys, c.finder)
     && first.Done?
     && Deliverable(rs, keys, ListAfter(list, c.op, c.room, keys, c.finder), GapAfter(gap, first.ops), changes[1..]))
  }

  function LastFinder(f: Finder, changes: seq<Change>): Finder {
    if changes == [] then f else changes[|changes| - 1].finder
  }

  lemma {:induction false} UpdatesKeepList(keys: seq<SortKey>, f: Finder, list: seq<RoomId>, changes: seq<Change>)
    requires NoDup(list) && SortedList(keys, f, list) && OneRoomEach(f, changes)
    ensures var after := ListAfterAll(keys, list, changes);
      NoDup(after) && SortedList(keys, LastFinder(f, changes), after)
    decreases changes
  {
    if changes != [] {
      var c, rest := changes[0], changes[1..];
      UpdateKeepsList(keys, f, list, c);
      UpdatesKeepList(keys, c.finder, ListAfter(list, c.op, c.room, keys, c.finder), rest);
      assert rest != [] ==> rest[|rest| - 1] == changes[|changes| - 1];
    }
  }

  /** The operations answer all updates, and replaying them keeps server and client in sync. */
  ghost predicate Answered(rs: seq<Range>, st: State, keys: seq<SortKey>, list: seq<RoomId>, changes: seq<Change>) {
    var o := OpsOfAll(rs, keys, list, changes);
    o.Done? && Null !in o.ops && InSync(rs, Steps(rs, st, o.ops), ListAfterAll(keys, list, changes))
  }

  lemma NextAnswered(rs: seq<Range>, st: State, keys: seq<SortKey>, list: seq<RoomId>, c: Change, rest: seq<Change>)
    requires var first := ServerOps(rs, list, c.op, c.room, keys, c.finder);
      && first.Done? && Null !in first.ops
      && Answered(rs, Steps(rs, st, first.ops), keys, ListAfter(list, c.op, c.room, keys, c.finder), rest)
    ensures Answered(rs, st, keys, list, [c] + rest)
  {
    var first := ServerOps(rs, list, c.op, c.room, keys, c.finder);
    var after := ListAfter(list, c.op, c.room, keys, c.finder);
    StepsAppend(rs, st, first.ops, OpsOfAll(rs, keys, after, rest).ops);
    assert ([c] + rest)[1..] == rest;
  }

  /** A response of live updates brings a client in sync to the list after all of them. */
  lemma {:induction false} UpdatesAgree(rs: seq<Range>, st: State, keys: seq<SortKey>, f: Finder,
                                        list: seq<RoomId>, changes: seq<Change>)
    requires Valid(rs) && NoDup(list) && SortedList(keys, f, list) && InSync(rs, st, list)
    requires OneRoomEach(f, changes) && Deliverable(rs, keys, list, st.gap, changes)
    ensures Answered(rs, st, keys, list, changes)
    decreases changes
  {
    if changes != [] {
      var c, rest := changes[0], changes[1..];
      var first := ServerOps(rs, list, c.op, c.room, keys, c.finder);
      assert changes == [c] + rest;
      OthersStaySorted(keys, f, c.finder, list, c.room);
      UpdateKeepsList(keys, f, list, c);
      NextInSync(rs, st, list, c.op, c.room, keys, c.finder);
      StepsGap(rs, st, first.ops);
      UpdatesAgree(rs, Steps(rs, st, first.ops), keys, c.finder, ListAfter(list, c.op, c.room, keys, c.finder), rest);
      NextAnswered(rs, st, keys, list, c, rest);
    }
  }

  /** Adds and Changes can follow each other in any number. */
  lemma {:induction false} MovesDeliverable(rs: seq<Range>, keys: seq<SortKey>, f: Finder, list: seq<RoomId>,
                                            changes: seq<Change>)
    requires Valid(rs) && NoDup(list) && SortedList(keys, f, list) && OneRoomEach(f, changes)
    requires forall i :: 0 <= i < |changes| ==> !changes[i].op.Del?
    ensures Deliverable(rs, keys, list, -1, changes)
    decreases changes
  {
    if changes != [] {
      var c, rest := changes[0], changes[1..];
      OthersStaySorted(keys, f, c.finder, list, c.room);
      UpdateKeepsList(keys, f, list, c);
      MoveClosesGap(rs, list, c.op, c.room, keys, c.finder);
      MovesDeliverable(rs, keys, c.finder, ListAfter(list, c.op, c.room, keys, c.finder), rest);
    }
  }

  // ---- the whole connection ----

  /**
   * What the client asks for: other ranges on the same list, with the delta the server works out,
   * or a list built afresh because it is new or its sort order or filters changed.
   */
  datatype Request =
    | Keep
    | Slide(next: seq<Range>, delta: Result)
    | Resync(next: seq<Range>, keys: seq<SortKey>, rooms: seq<RoomId>)

  /** One request and the response to it: the list operations first, then those of live updates. */
  datatype Exchange = Exchange(request: Request, changes: seq<Change>)

  datatype Session = Session(ranges: Option<seq<Range>>, keys: seq<SortKey>, finder: Finder, list: seq<RoomId>,
                             slots: Slots)

  function RangesFor(s: Session, req: Request): seq<Range>
    requires req.Keep? ==> s.ranges.Some?
  {
    if req.Keep? then s.ranges.value else req.next
  }

  function KeysFor(s: Session, req: Request): seq<SortKey> { if req.Resync? then req.keys else s.keys }

  function ListFor(s: Session, req: Request): seq<RoomId> {
    if req.Resync? then Resorted(req.keys, s.finder, req.rooms) else s.list
  }

  /** The request is one the server accepts, and it loses no single-index range. */
  ghost predicate GoodRequest(s: Session, req: Request) {
    match req
    case Keep => s.ranges.Some?
    case Slide(next, d) =>
      && s.ranges.Some? && Valid(next) && Exact(s.ranges.value, next, d) && AllShaped(d)
      && forall z :: 0 <= z < |s.list| ==> !Forgotten(s.ranges.value, next, z)
    case Resync(next, keys, rooms) => Valid(next) && NoDup(rooms)
  }

  ghost predicate GoodExchange(s: Session, e: Exchange) {
    && GoodRequest(s, e.request) && OneRoomEach(s.finder, e.changes)
    && Deliverable(RangesFor(s, e.request), KeysFor(s, e.request), ListFor(s, e.request), -1, e.changes)
  }

  ghost function RequestPart(s: Session, req: Request): seq<Op>
    requires GoodRequest(s, req)
  {
    match req
    case Keep => []
    case Slide(next, d) =>
      ValidIsShaped(next);
      RequestOps(s.ranges, next, s.list, s.list, false, d)
    case Resync(next, keys, rooms) =>
      ValidIsShaped(next);
      RequestOps(s.ranges, next, s.list, ListFor(s, req), true, Result([], [], []))
  }

  lemma ValidIsShaped(rs: seq<Range>)
    requires Valid(rs)
    ensures Shaped(rs)
  {
    forall r | r in rs ensures 0 <= r.lo <= r.hi {
      ValidApart(rs, r, r);
    }
  }

  /** What every exchange keeps. */
  ghost predicate InStep(s: Session) {
    && NoDup(s.list) && SortedList(s.keys, s.finder, s.list)
    && (s.ranges.Some? ==> Valid(s.ranges.value) && Agrees(s.ranges.value, s.slots, s.list))
  }

  ghost function AfterExchange(s: Session, e: Exchange): Session
    requires InStep(s) && GoodExchange(s, e)
  {
    var rs, keys, list := RangesFor(s, e.request), KeysFor(s, e.request), ListFor(s, e.request);
    var o := OpsOfAll(rs, keys, list, e.changes);
    ExchangeAnswered(s, e);
    Session(Some(rs), keys, LastFinder(s.finder, e.changes), ListAfterAll(keys, list, e.changes),
      Replay(rs, s.slots, RequestPart(s, e.request) + o.ops))
  }

  lemma RequestAgrees(s: Session, req: Request)
    requires InStep(s) && GoodRequest(s, req)
    ensures var rs, list := RangesFor(s, req), ListFor(s, req);
      var ops := RequestPart(s, req);
      && Valid(rs) && NoDup(list) && SortedList(KeysFor(s, req), s.finder, list)
      && Null !in ops && Steps(rs, State(s.slots, -1), ops).gap == -1
      && Agrees(rs, Steps(rs, State(s.slots, -1), ops).slots, list)
  {
    var rs := RangesFor(s, req);
    match req
    case Keep =>
    case Slide(next, d) =>
      ValidIsShaped(next);
      SlideEffect(rs, s.slots, s.ranges.value, next, s.list, d);
    case Resync(next, keys, rooms) =>
      ValidIsShaped(next);
      ResyncAgrees(rs, s.slots, s.ranges, next, s.list, ListFor(s, req), true, Result([], [], []));
      ResortedKeeps(keys, s.finder, rooms);
      NoDupFromMultiset(rooms, ListFor(s, req));
      LessIsStrictWeakOrder(keys, s.finder);
      SortSorts(Less(keys, s.finder), rooms);
  }

  lemma ExchangeAnswered(s: Session, e: Exchange)
    requires InStep(s) && GoodExchange(s, e)
    ensures var rs, keys, list := RangesFor(s, e.request), KeysFor(s, e.request), ListFor(s, e.request);
      var o := OpsOfAll(rs, keys, list, e.changes);
      && o.Done? && Null !in RequestPart(s, e.request) + o.ops
      && Agrees(rs, Replay(rs, s.slots, RequestPart(s, e.request) + o.ops), ListAfterAll(keys, list, e.changes))
  {
    var rs, keys, list := RangesFor(s, e.request), KeysFor(s, e.request), ListFor(s, e.request);
    RequestAgrees(s, e.request);
    var part := RequestPart(s, e.request);
    var st := Steps(rs, State(s.slots, -1), part);
    UpdatesAgree(rs, st, keys, s.finder, list, e.changes);
    assert Answered(rs, st, keys, list, e.changes);
    StepsAppend(rs, State(s.slots, -1), part, OpsOfAll(rs, keys, list, e.changes).ops);
  }

  lemma ExchangeInStep(s: Session, e: Exchange)
    requires InStep(s) && GoodExchange(s, e)
    ensures InStep(AfterExchange(s, e))
  {
    RequestAgrees(s, e.request);
    ExchangeAnswered(s, e);
    UpdatesKeepList(KeysFor(s, e.request), s.finder, ListFor(s, e.request), e.changes);
  }

  ghost predicate GoodRun(s: Session, es: seq<Exchange>)
    requires InStep(s)
    decreases es
  {
    es == [] || (GoodExchange(s, es[0]) && (ExchangeInStep(s, es[0]); GoodRun(AfterExchange(s, es[0]), es[1..])))
  }

  ghost function AfterRun(s: Session, es: seq<Exchange>): Session
    requires InStep(s) && GoodRun(s, es)
    decreases es
  {
    if es == [] then s else
      ExchangeInStep(s, es[0]);
      AfterRun(AfterExchange(s, es[0]), es[1..])
  }

  /**
   * Replica agreement over whole runs: from a new connection, after any run of range changes,
   * re-sorts, filter changes and live updates, the client shows the server's list in its window.
   */
  lemma {:induction false} RunsStayInStep(s: Session, es: seq<Exchange>)
    requires InStep(s) && GoodRun(s, es)
    ensures InStep(AfterRun(s, es)) && (es != [] ==> AfterRun(s, es).ranges.Some?)
    decreases es
  {
    if es != [] {
      ExchangeInStep(s, es[0]);
      RunsStayInStep(AfterExchange(s, es[0]), es[1..]);
    }
  }
}
