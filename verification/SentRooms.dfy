/** Over a whole connection: whether every room in the client's window has been sent in full. */
module SentRooms {
  import opened Common
  import opened Ranges
  import opened Delta
  import opened RoomOrder
  import opened ListClient
  import opened ListOps
  import opened Replica
  import opened Subscriptions
  import opened WindowSlide
  import opened ListSession

  /** Every room at a tracked index of the list is among those sent in full. */
  ghost predicate AllSent(rs: seq<Range>, list: seq<RoomId>, sent: set<RoomId>) {
    forall i :: 0 <= i < |list| && Tracked(rs, i) ==> list[i] in sent
  }

  function Members(rooms: seq<RoomId>): set<RoomId> { set x | x in rooms }

  // ---- live updates ----

  /** Some Del among the updates brings in a room without its data. */
  ghost predicate SomeUnseen(rs: seq<Range>, keys: seq<SortKey>, list: seq<RoomId>, changes: seq<Change>)
    decreases changes
  {
    changes != [] &&
    (var c := changes[0];
     || (c.op.Del? && c.room in list && InsertsUnseen(rs, list, IndexIn(list, c.room)))
     || SomeUnseen(rs, keys, ListAfter(list, c.op, c.room, keys, c.finder), changes[1..]))
  }

  lemma CompleteSends(rs: seq<Range>, before: seq<RoomId>, after: seq<RoomId>, subs: seq<RoomId>, sent: set<RoomId>)
    requires AllSent(rs, before, sent) && Complete(rs, before, after, subs)
    ensures AllSent(rs, after, sent + Members(subs))
  {
    forall i | 0 <= i < |after| && Tracked(rs, i) ensures after[i] in sent + Members(subs) {
      if after[i] !in subs {
        var j :| 0 <= j < |before| && Tracked(rs, j) && before[j] == after[i];
      }
    }
  }

  lemma UpdateSends(rs: seq<Range>, keys: seq<SortKey>, list: seq<RoomId>, c: Change, sent: set<RoomId>)
    requires Valid(rs) && NoDup(list) && OthersSorted(list, c.room, keys, c.finder) && AllSent(rs, list, sent)
    requires c.op.Del? && c.room in list ==>
      !DelFails(rs, list, c.room) && !InsertsUnseen(rs, list, IndexIn(list, c.room))
    ensures var o := ServerOps(rs, list, c.op, c.room, keys, c.finder);
      o.Done? && AllSent(rs, ListAfter(list, c.op, c.room, keys, c.finder), sent + Members(o.subs))
  {
    var after := ListAfter(list, c.op, c.room, keys, c.finder);
    var o := ServerOps(rs, list, c.op, c.room, keys, c.finder);
    if !c.op.Del? {
      AddOrChangeSubsComplete(rs, list, c.op, c.room, keys, c.finder);
      CompleteSends(rs, list, after, o.subs, sent);
    } else if c.room in list {
      DelSubsComplete(rs, list, c.room, keys, c.finder);
      CompleteSends(rs, list, after, o.subs, sent);
    }
  }

  lemma {:induction false} UpdatesSend(rs: seq<Range>, keys: seq<SortKey>, f: Finder, list: seq<RoomId>, gap: int,
                                       changes: seq<Change>, sent: set<RoomId>)
    requires Valid(rs) && NoDup(list) && SortedList(keys, f, list) && OneRoomEach(f, changes)
    requires Deliverable(rs, keys, list, gap, changes) && !SomeUnseen(rs, keys, list, changes)
    requires AllSent(rs, list, sent) && OpsOfAll(rs, keys, list, changes).Done?
    ensures AllSent(rs, ListAfterAll(keys, list, changes), sent + Members(OpsOfAll(rs, keys, list, changes).subs))
    decreases changes
  {
    if changes != [] {
      var c, rest := changes[0], changes[1..];
      var after := ListAfter(list, c.op, c.room, keys, c.finder);
      var first := ServerOps(rs, list, c.op, c.room, keys, c.finder);
      OthersStaySorted(keys, f, c.finder, list, c.room);
      UpdateKeepsList(keys, f, list, c);
      UpdateSends(rs, keys, list, c, sent);
      UpdatesSend(rs, keys, c.finder, after, GapAfter(gap, first.ops), rest, sent + Members(first.subs));
      var more := OpsOfAll(rs, keys, after, rest).subs;
      assert sent + Members(first.subs) + Members(more) == sent + Members(first.subs + more);
    }
  }

  // ---- requests ----

  /** The rooms of the SYNCs, whose data goes out with them. */
  function Synced(ops: seq<Op>): set<RoomId> { set op, x | op in ops && op.Sync? && x in op.rooms :: x }

  lemma SyncedHas(ops: seq<Op>, op: Op, x: RoomId)
    requires op in ops && op.Sync? && x in op.rooms
    ensures x in Synced(ops)
  {
  }

  lemma SyncedMore(some: seq<Op>, ops: seq<Op>)
    requires forall op :: op in some ==> op in ops
    ensures Synced(some) <= Synced(ops)
  {
    forall x | x in Synced(some) ensures x in Synced(ops) {
      var op :| op in some && op.Sync? && x in op.rooms;
      SyncedHas(ops, op, x);
    }
  }

  lemma {:induction false} SyncOpsSend(ranges: seq<Range>, list: seq<RoomId>, z: nat)
    requires Shaped(ranges) && z < |list| && Tracked(ranges, z)
    ensures list[z] in Synced(SyncOps(ranges, list))
  {
    var r, rest := ranges[0], ranges[1..];
    assert forall q :: q in ranges <==> q == r || q in rest;
    if In(r, z) {
      var rooms := SliceInto(r, list).value;
      assert rooms[z - r.lo] == list[z];
      SyncedHas(SyncOps(ranges, list), SyncOps(ranges, list)[0], list[z]);
    } else {
      SyncOpsSend(rest, list, z);
      SyncedMore(SyncOps(rest, list), SyncOps(ranges, list));
    }
  }

  lemma RequestSends(s: Session, req: Request, sent: set<RoomId>)
    requires InStep(s) && GoodRequest(s, req) && (s.ranges.Some? ==> AllSent(s.ranges.value, s.list, sent))
    ensures AllSent(RangesFor(s, req), ListFor(s, req), sent + Synced(RequestPart(s, req)))
  {
    var rs, list, ops := RangesFor(s, req), ListFor(s, req), RequestPart(s, req);
    if !req.Keep? {
      ValidIsShaped(rs);
      var here := if req.Slide? then req.delta.added else rs;
      SyncedMore(SyncOps(here, list), ops);
      forall z | 0 <= z < |list| && Tracked(rs, z) ensures list[z] in sent + Synced(ops) {
        if Tracked(here, z) {
          SyncOpsSend(here, list, z);
        } else {
          assert ExactAt(s.ranges.value, rs, req.delta, z) && !Forgotten(s.ranges.value, rs, z);
        }
      }
    }
  }

  // ---- whole runs ----

  ghost function SentAfter(s: Session, e: Exchange, sent: set<RoomId>): set<RoomId>
    requires InStep(s) && GoodExchange(s, e)
  {
    ExchangeAnswered(s, e);
    var o := OpsOfAll(RangesFor(s, e.request), KeysFor(s, e.request), ListFor(s, e.request), e.changes);
    sent + Synced(RequestPart(s, e.request)) + Members(o.subs)
  }

  ghost function SentAfterRun(s: Session, es: seq<Exchange>, sent: set<RoomId>): set<RoomId>
    requires InStep(s) && GoodRun(s, es)
    decreases es
  {
    if es == [] then sent
    else
      ExchangeInStep(s, es[0]);
      SentAfterRun(AfterExchange(s, es[0]), es[1..], SentAfter(s, es[0], sent))
  }

  ghost predicate ExchangeUnseen(s: Session, e: Exchange)
    requires GoodExchange(s, e)
  {
    SomeUnseen(RangesFor(s, e.request), KeysFor(s, e.request), ListFor(s, e.request), e.changes)
  }

  ghost predicate RunUnseen(s: Session, es: seq<Exchange>)
    requires InStep(s) && GoodRun(s, es)
    decreases es
  {
    es != [] &&
    (ExchangeUnseen(s, es[0]) || (ExchangeInStep(s, es[0]); RunUnseen(AfterExchange(s, es[0]), es[1..])))
  }

  lemma ExchangeSends(s: Session, e: Exchange, sent: set<RoomId>)
    requires InStep(s) && GoodExchange(s, e) && !ExchangeUnseen(s, e)
    requires s.ranges.Some? ==> AllSent(s.ranges.value, s.list, sent)
    ensures var t := AfterExchange(s, e);
      t.ranges.Some? && AllSent(t.ranges.value, t.list, SentAfter(s, e, sent))
  {
    var rs, keys, list := RangesFor(s, e.request), KeysFor(s, e.request), ListFor(s, e.request);
    RequestAgrees(s, e.request);
    ExchangeAnswered(s, e);
    RequestSends(s, e.request, sent);
    UpdatesSend(rs, keys, s.finder, list, -1, e.changes, sent + Synced(RequestPart(s, e.request)));
  }

  /**
   * Over any run of requests and live updates, every room in the window has been sent in full, unless some Del
   * of the run brought in a room without its data.
   */
  lemma {:induction false} RunsSendAll(s: Session, es: seq<Exchange>, sent: set<RoomId>)
    requires InStep(s) && GoodRun(s, es) && !RunUnseen(s, es)
    requires s.ranges.Some? ==> AllSent(s.ranges.value, s.list, sent)
    ensures var t := AfterRun(s, es);
      t.ranges.Some? ==> AllSent(t.ranges.value, t.list, SentAfterRun(s, es, sent))
    decreases es
  {
    if es != [] {
      ExchangeInStep(s, es[0]);
      ExchangeSends(s, es[0], sent);
      RunsSendAll(AfterExchange(s, es[0]), es[1..], SentAfter(s, es[0], sent));
    }
  }
}
