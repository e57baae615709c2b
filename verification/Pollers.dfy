/** Overlapping deliveries of one room's timeline by several pollers. */
module Pollers {
  import opened Common
  import opened EventLog
  import opened RoomTables
  import opened Accumulator

  /** The timeline of a room as stored: its timeline events in row-number order. */
  ghost function StoredTimeline(events: seq<Slot>, room: RoomId): seq<Event> {
    if events == [] then []
    else
      var last := events[|events| - 1];
      StoredTimeline(events[..|events| - 1], room)
      + if last.Stored? && last.row.room == room && !last.row.inStateBlock then [last.row.event] else []
  }

  lemma {:induction false} StoredTimelineAppend(a: seq<Slot>, b: seq<Slot>, room: RoomId)
    ensures StoredTimeline(a + b, room) == StoredTimeline(a, room) + StoredTimeline(b, room)
  {
    if b == [] {
      assert a + b == a;
    } else {
      StoredTimelineAppend(a, b[..|b| - 1], room);
      assert (a + b)[..|a + b| - 1] == a + b[..|b| - 1];
    }
  }

  function Delivery(es: seq<Event>): seq<Option<Event>> { seq(|es|, i requires 0 <= i < |es| => Some(es[i])) }

  /** `k` events of the master timeline are stored, the rest are not known in any form. */
  ghost predicate StoredUpTo(events: seq<Slot>, room: RoomId, master: seq<Event>, k: nat) {
    && DistinctIds(master) && k <= |master|
    && StoredTimeline(events, room) == master[..k]
    && (forall i :: 0 <= i < |master| ==> (Known(events, master[i].id) <==> i < k))
  }

  lemma {:induction false} NothingToDeduplicate(kept: seq<Event>, es: seq<Event>)
    requires DistinctIds(kept + es)
    ensures Deduplicated(kept, Delivery(es)) == kept + es
    decreases es
  {
    if es != [] {
      assert forall i :: 0 <= i < |kept| ==> (kept + es)[i] == kept[i];
      assert (kept + es)[|kept|] == es[0];
      assert !Seen(kept, es[0].id);
      assert (kept + [es[0]]) + es[1..] == kept + es;
      NothingToDeduplicate(kept + [es[0]], es[1..]);
      assert Delivery(es)[1..] == Delivery(es[1..]);
    }
  }

  lemma {:induction false} UnknownTail(events: seq<Slot>, es: seq<Event>, k: nat)
    requires k <= |es| && (k > 0 ==> Known(events, es[k - 1].id))
    requires forall i :: k <= i < |es| ==> !Known(events, es[i].id)
    ensures AfterLastKnown(events, es) == es[k..]
  {
    if k < |es| {
      UnknownTail(events, es[..|es| - 1], k);
      assert es[k..] == es[..|es| - 1][k..] + [es[|es| - 1]];
    }
  }

  lemma SliceDistinct(master: seq<Event>, i: nat, j: nat)
    requires DistinctIds(master) && i <= j <= |master|
    ensures Deduplicated([], Delivery(master[i..j])) == master[i..j]
  {
    var es := master[i..j];
    assert [] + es == es;
    NothingToDeduplicate([], es);
  }

  lemma SliceTail(events: seq<Slot>, master: seq<Event>, k: nat, i: nat, j: nat)
    requires i <= k <= |master| && i <= j <= |master|
    requires forall x :: 0 <= x < |master| ==> (Known(events, master[x].id) <==> x < k)
    ensures AfterLastKnown(events, master[i..j]) == if j > k then master[k..j] else []
  {
    var es, c := master[i..j], Min(k, j) - i;
    assert forall x :: 0 <= x < |es| ==> es[x] == master[i + x];
    UnknownTail(events, es, c);
  }

  /** A contiguous slice that leaves no gap comes down to the events past the stored prefix. */
  lemma SliceIsFiltered(events: seq<Slot>, room: RoomId, master: seq<Event>, k: nat, i: nat, j: nat)
    requires StoredUpTo(events, room, master, k) && i <= j <= |master| && i <= k
    ensures NewTimeline(events, Delivery(master[i..j])) ==
      if j > k then master[k..j] else if j - i == 1 then master[i..j] else []
  {
    SliceDistinct(master, i, j);
    if j - i > 1 {
      SliceTail(events, master, k, i, j);
    }
  }

  lemma {:induction false} AllNewSlots(events: seq<Slot>, es: seq<Event>, room: RoomId)
    requires DistinctIds(es) && forall i :: 0 <= i < |es| ==> !Known(events, es[i].id)
    ensures StoredTimeline(NewSlots(events, es, room, false), room) == es
  {
    if es != [] {
      var init := es[..|es| - 1];
      AllNewSlots(events, init, room);
      KnownAfter(events, init, room, false, es[|es| - 1].id);
      assert NewSlots(events, es, room, false)[..|es| - 1] == NewSlots(events, init, room, false);
    }
  }

  lemma {:induction false} NoNewSlots(events: seq<Slot>, es: seq<Event>, room: RoomId)
    requires forall i :: 0 <= i < |es| ==> Known(events, es[i].id)
    ensures StoredTimeline(NewSlots(events, es, room, false), room) == []
  {
    if es != [] {
      var init := es[..|es| - 1];
      NoNewSlots(events, init, room);
      KnownAfter(events, init, room, false, es[|es| - 1].id);
      assert NewSlots(events, es, room, false)[..|es| - 1] == NewSlots(events, init, room, false);
    }
  }

  /** Storing what is left of a slice appends exactly the events past the stored prefix. */
  lemma DeliveryStores(events: seq<Slot>, room: RoomId, master: seq<Event>, k: nat, j: nat, es: seq<Event>)
    requires StoredUpTo(events, room, master, k) && j <= |master|
    requires if j > k then es == master[k..j] else forall i :: 0 <= i < |es| ==> Known(events, es[i].id)
    ensures StoredTimeline(events + NewSlots(events, es, room, false), room) == master[..Max(k, j)]
  {
    StoredTimelineAppend(events, NewSlots(events, es, room, false), room);
    if j > k {
      AllNewSlots(events, es, room);
      assert master[..k] + master[k..j] == master[..j];
    } else {
      NoNewSlots(events, es, room);
    }
  }

  /** One delivery extends the stored prefix exactly as far as the slice reaches. */
  lemma DeliveryExtends(events: seq<Slot>, room: RoomId, master: seq<Event>, k: nat, i: nat, j: nat)
    requires StoredUpTo(events, room, master, k) && i <= j <= |master| && i <= k
    ensures var es := NewTimeline(events, Delivery(master[i..j]));
      StoredUpTo(events + NewSlots(events, es, room, false), room, master, Max(k, j))
  {
    var es := NewTimeline(events, Delivery(master[i..j]));
    SliceIsFiltered(events, room, master, k, i, j);
    DeliveryStores(events, room, master, k, j, es);
    forall x | 0 <= x < |master|
      ensures Known(events + NewSlots(events, es, room, false), master[x].id) <==> x < Max(k, j)
    {
      KnownAfterDelivery(events, room, master, k, j, es, x);
    }
  }

  lemma KnownAfterDelivery(events: seq<Slot>, room: RoomId, master: seq<Event>, k: nat, j: nat, es: seq<Event>, x: nat)
    requires DistinctIds(master) && k <= |master| && j <= |master| && x < |master|
    requires forall y :: 0 <= y < |master| ==> (Known(events, master[y].id) <==> y < k)
    requires if j > k then es == master[k..j] else forall i :: 0 <= i < |es| ==> Known(events, es[i].id)
    ensures Known(events + NewSlots(events, es, room, false), master[x].id) <==> x < Max(k, j)
  {
    KnownAfter(events, es, room, false, master[x].id);
    if y :| 0 <= y < |es| && es[y].id == master[x].id {
      assert j > k ==> es[y] == master[k + y];
    }
    assert k <= x < j ==> es[x - k] == master[x];
  }

  // ---- runs ----

  /**
   * A poller delivers `master[from..to]`; the store may leave the delivery alone while the room has no
   * snapshot. Other calls, on other rooms or with state blocks, append rows that are not timeline rows here, and
   * a delivery that is rolled back appends wasted row numbers only.
   */
  datatype Call =
    | Deliver(from: nat, to: nat, skipped: bool)
    | Elsewhere(slots: seq<Slot>)

  predicate OutsideTimeline(slots: seq<Slot>, room: RoomId) {
    forall s :: s in slots && s.Stored? ==> s.row.room != room || s.row.inStateBlock
  }

  ghost function AfterCall(events: seq<Slot>, room: RoomId, master: seq<Event>, c: Call): seq<Slot>
    requires c.Deliver? ==> c.from <= c.to <= |master|
  {
    match c
    case Deliver(i, j, skipped) =>
      if skipped then events
      else events + NewSlots(events, NewTimeline(events, Delivery(master[i..j])), room, false)
    case Elsewhere(slots) => events + slots
  }

  function Reached(k: nat, c: Call): nat { if c.Deliver? && !c.skipped then Max(k, c.to) else k }

  /** A delivery starts no later than the first event not delivered yet; other calls store no known event again. */
  ghost predicate NoGap(events: seq<Slot>, room: RoomId, master: seq<Event>, k: nat, c: Call) {
    match c
    case Deliver(i, j, _) => i <= j <= |master| && i <= k
    case Elsewhere(slots) => OutsideTimeline(slots, room) && UniqueIds(events + slots)
  }

  ghost predicate NoGaps(events: seq<Slot>, room: RoomId, master: seq<Event>, k: nat, calls: seq<Call>)
    decreases calls
  {
    calls == [] ||
    (NoGap(events, room, master, k, calls[0]) &&
     NoGaps(AfterCall(events, room, master, calls[0]), room, master, Reached(k, calls[0]), calls[1..]))
  }

  ghost function AfterCalls(events: seq<Slot>, room: RoomId, master: seq<Event>, k: nat, calls: seq<Call>): seq<Slot>
    requires NoGaps(events, room, master, k, calls)
    decreases calls
  {
    if calls == [] then events
    else AfterCalls(AfterCall(events, room, master, calls[0]), room, master, Reached(k, calls[0]), calls[1..])
  }

  function ReachedAll(k: nat, calls: seq<Call>): (r: nat)
    ensures k <= r
    decreases calls
  {
    if calls == [] then k else ReachedAll(Reached(k, calls[0]), calls[1..])
  }

  lemma {:induction false} ReachedBound(events: seq<Slot>, room: RoomId, master: seq<Event>, k: nat, calls: seq<Call>)
    requires k <= |master| && NoGaps(events, room, master, k, calls)
    ensures ReachedAll(k, calls) <= |master|
    decreases calls
  {
    if calls != [] {
      ReachedBound(AfterCall(events, room, master, calls[0]), room, master, Reached(k, calls[0]), calls[1..]);
    }
  }

  /** No other call stores one of the first `r` events of the timeline. */
  ghost predicate HoldsNone(calls: seq<Call>, master: seq<Event>, r: nat)
    requires r <= |master|
  {
    forall n, x :: 0 <= n < |calls| && calls[n].Elsewhere? && 0 <= x < r ==> !Known(calls[n].slots, master[x].id)
  }

  /**
   * Storing a state block, or anything in another room, is such a call whatever it holds, and it stores exactly
   * the events that were not known.
   */
  lemma InsertIsElsewhere(events: seq<Slot>, room: RoomId, master: seq<Event>, k: nat, es: seq<Event>, target: RoomId,
                          inStateBlock: bool)
    requires UniqueIds(events) && (target != room || inStateBlock)
    ensures var slots := NewSlots(events, es, target, inStateBlock);
      && NoGap(events, room, master, k, Elsewhere(slots))
      && forall id :: Known(slots, id) <==> Seen(es, id) && !Known(events, id)
  {
    var slots := NewSlots(events, es, target, inStateBlock);
    InsertedUnique(events, es, target, inStateBlock);
    forall s | s in slots && s.Stored? ensures s.row.room == target && s.row.inStateBlock == inStateBlock {
      var i :| 0 <= i < |slots| && slots[i] == s;
      NewSlotAt(events, es, target, inStateBlock, i);
    }
    forall id ensures Known(slots, id) <==> Seen(es, id) && !Known(events, id) {
      KnownAfter(events, es, target, inStateBlock, id);
      KnownAppend(events, slots, id);
      if Known(slots, id) {
        var i :| 0 <= i < |slots| && slots[i].Stored? && slots[i].row.event.id == id;
        NewSlotAt(events, es, target, inStateBlock, i);
      }
    }
  }

  // ---- when no other call stores an event of the timeline ----

  lemma {:induction false} OutsideStoresNothing(slots: seq<Slot>, room: RoomId)
    requires OutsideTimeline(slots, room)
    ensures StoredTimeline(slots, room) == []
  {
    if slots != [] {
      OutsideStoresNothing(slots[..|slots| - 1], room);
    }
  }

  lemma ElsewhereKeeps(events: seq<Slot>, room: RoomId, master: seq<Event>, k: nat, slots: seq<Slot>)
    requires StoredUpTo(events, room, master, k) && OutsideTimeline(slots, room)
    requires forall x :: 0 <= x < |master| ==> !Known(slots, master[x].id)
    ensures StoredUpTo(events + slots, room, master, k)
  {
    StoredTimelineAppend(events, slots, room);
    OutsideStoresNothing(slots, room);
    forall x | 0 <= x < |master| ensures Known(events + slots, master[x].id) <==> x < k {
      KnownAppend(events, slots, master[x].id);
    }
  }

  lemma CallKeeps(events: seq<Slot>, room: RoomId, master: seq<Event>, k: nat, r: nat, c: Call)
    requires k <= r <= |master| && StoredUpTo(events, room, master[..r], k) && NoGap(events, room, master, k, c)
    requires Reached(k, c) <= r && HoldsNone([c], master, r)
    ensures StoredUpTo(AfterCall(events, room, master, c), room, master[..r], Reached(k, c))
  {
    match c {
      case Deliver(i, j, skipped) =>
        if !skipped {
          assert master[..r][i..j] == master[i..j];
          DeliveryExtends(events, room, master[..r], k, i, j);
        }
      case Elsewhere(slots) =>
        assert [c][0] == c;
        ElsewhereKeeps(events, room, master[..r], k, slots);
    }
  }

  lemma HoldsNoneParts(calls: seq<Call>, master: seq<Event>, r: nat)
    requires calls != [] && r <= |master| && HoldsNone(calls, master, r)
    ensures HoldsNone([calls[0]], master, r) && HoldsNone(calls[1..], master, r)
  {
  }

  lemma {:induction false} CallsKeep(events: seq<Slot>, room: RoomId, master: seq<Event>, k: nat, r: nat,
                                     calls: seq<Call>)
    requires ReachedAll(k, calls) <= r <= |master| && StoredUpTo(events, room, master[..r], k)
    requires NoGaps(events, room, master, k, calls) && HoldsNone(calls, master, r)
    ensures StoredUpTo(AfterCalls(events, room, master, k, calls), room, master[..r], ReachedAll(k, calls))
    decreases calls
  {
    if calls != [] {
      var c := calls[0];
      HoldsNoneParts(calls, master, r);
      CallKeeps(events, room, master, k, r, c);
      CallsKeep(AfterCall(events, room, master, c), room, master, Reached(k, c), r, calls[1..]);
    }
  }

  // ---- when one does ----

  lemma CallUnique(events: seq<Slot>, room: RoomId, master: seq<Event>, k: nat, c: Call)
    requires UniqueIds(events) && NoGap(events, room, master, k, c)
    ensures UniqueIds(AfterCall(events, room, master, c)) && events <= AfterCall(events, room, master, c)
  {
    if c.Deliver? && !c.skipped {
      InsertedUnique(events, NewTimeline(events, Delivery(master[c.from..c.to])), room, false);
    }
  }

  lemma {:induction false} CallsUnique(events: seq<Slot>, room: RoomId, master: seq<Event>, k: nat, calls: seq<Call>)
    requires UniqueIds(events) && NoGaps(events, room, master, k, calls)
    ensures var after := AfterCalls(events, room, master, k, calls); UniqueIds(after) && events <= after
    decreases calls
  {
    if calls != [] {
      CallUnique(events, room, master, k, calls[0]);
      CallsUnique(AfterCall(events, room, master, calls[0]), room, master, Reached(k, calls[0]), calls[1..]);
    }
  }

  /** The event is stored, but not as part of the room's timeline. */
  ghost predicate StoredOutside(events: seq<Slot>, room: RoomId, id: EventId, i: int) {
    && 0 <= i < |events| && events[i].Stored? && events[i].row.event.id == id
    && (events[i].row.room != room || events[i].row.inStateBlock)
  }

  /** What another call stores stays where it is. */
  lemma {:induction false} StaysOutside(events: seq<Slot>, room: RoomId, master: seq<Event>, k: nat, calls: seq<Call>,
                                        n: nat, id: EventId)
    returns (i: int)
    requires UniqueIds(events) && NoGaps(events, room, master, k, calls)
    requires n < |calls| && calls[n].Elsewhere? && Known(calls[n].slots, id)
    ensures StoredOutside(AfterCalls(events, room, master, k, calls), room, id, i)
    decreases calls
  {
    var c := calls[0];
    var next := AfterCall(events, room, master, c);
    CallUnique(events, room, master, k, c);
    if n > 0 {
      i := StaysOutside(next, room, master, Reached(k, c), calls[1..], n - 1, id);
    } else {
      var j :| 0 <= j < |c.slots| && c.slots[j].Stored? && c.slots[j].row.event.id == id;
      assert c.slots[j] in c.slots && next[|events| + j] == c.slots[j];
      CallsUnique(next, room, master, Reached(k, c), calls[1..]);
      i := |events| + j;
    }
  }

  lemma {:induction false} TimelineRow(events: seq<Slot>, room: RoomId, e: Event)
    requires e in StoredTimeline(events, room)
    ensures exists i :: 0 <= i < |events| && events[i] == Stored(Row(e, room, false))
  {
    var init := events[..|events| - 1];
    if events[|events| - 1] != Stored(Row(e, room, false)) {
      TimelineRow(init, room, e);
      var i :| 0 <= i < |init| && init[i] == Stored(Row(e, room, false));
      assert events[i] == init[i];
    }
  }

  /** One row per event, so an event stored elsewhere is missing from the timeline. */
  lemma MissingFromTimeline(events: seq<Slot>, room: RoomId, e: Event, i: int)
    requires UniqueIds(events) && StoredOutside(events, room, e.id, i)
    ensures e !in StoredTimeline(events, room)
  {
    if e in StoredTimeline(events, room) {
      TimelineRow(events, room, e);
    }
  }

  /**
   * Overlapping pollers linearise: whatever the order and overlap of deliveries, the stored timeline is the
   * master timeline as far as the furthest delivery, each event once and in order, if and only if no other call,
   * such as one with a state block, is the first to store one of those events.
   */
  lemma PollersLinearise(events: seq<Slot>, room: RoomId, master: seq<Event>, k: nat, calls: seq<Call>)
    requires StoredUpTo(events, room, master, k) && UniqueIds(events) && NoGaps(events, room, master, k, calls)
    ensures ReachedAll(k, calls) <= |master|
    ensures var r := ReachedAll(k, calls);
      StoredTimeline(AfterCalls(events, room, master, k, calls), room) == master[..r] <==> HoldsNone(calls, master, r)
  {
    ReachedBound(events, room, master, k, calls);
    var r, after := ReachedAll(k, calls), AfterCalls(events, room, master, k, calls);
    if HoldsNone(calls, master, r) {
      assert master[..r][..k] == master[..k];
      CallsKeep(events, room, master, k, r, calls);
      assert master[..r][..r] == master[..r];
    } else {
      var n, x :| 0 <= n < |calls| && calls[n].Elsewhere? && 0 <= x < r && Known(calls[n].slots, master[x].id);
      var i := StaysOutside(events, room, master, k, calls, n, master[x].id);
      CallsUnique(events, room, master, k, calls);
      MissingFromTimeline(after, room, master[x], i);
      assert master[..r][x] == master[x];
    }
  }

  /**
   * A state block that holds an event of the timeline hides everything before it: a later delivery of `a` and `b`
   * to a room that knows `b` from its state stores nothing, and the delivery after that leaves a hole.
   */
  lemma StateBlockLeavesHole(events: seq<Slot>, room: RoomId, a: Event, b: Event, c: Event)
    requires StoredUpTo(events, room, [a, b, c], 0)
    ensures var master, block := [a, b, c], [Stored(Row(b, room, true))];
      var delivered := AfterCall(events + block, room, master, Deliver(0, 2, false));
      && delivered == events + block
      && StoredTimeline(AfterCall(delivered, room, master, Deliver(1, 3, false)), room) == [c]
  {
    var master, all := [a, b, c], events + [Stored(Row(b, room, true))];
    BlockIsKnown(events, room, a, b, c);
    assert master[0..2] == [a, b] && master[1..3] == [b, c];
    OnlyPast(all, a, b);
    OnlyPast(all, b, c);
    NothingStored(all, room);
    AllNewSlots(all, [c], room);
    StoredTimelineAppend(all, NewSlots(all, [c], room, false), room);
  }

  lemma NothingStored(events: seq<Slot>, room: RoomId)
    ensures events + NewSlots(events, [], room, false) == events
  {
  }

  /** Of two events, what is left once those up to the last known one are dropped. */
  lemma OnlyPast(events: seq<Slot>, x: Event, y: Event)
    requires x.id != y.id
    ensures Known(events, y.id) ==> NewTimeline(events, Delivery([x, y])) == []
    ensures Known(events, x.id) && !Known(events, y.id) ==> NewTimeline(events, Delivery([x, y])) == [y]
  {
    SliceDistinct([x, y], 0, 2);
    assert [x, y][0..2] == [x, y];
    if Known(events, y.id) {
      UnknownTail(events, [x, y], 2);
    } else if Known(events, x.id) {
      UnknownTail(events, [x, y], 1);
    }
  }

  lemma BlockIsKnown(events: seq<Slot>, room: RoomId, a: Event, b: Event, c: Event)
    requires StoredUpTo(events, room, [a, b, c], 0)
    ensures var all := events + [Stored(Row(b, room, true))];
      StoredTimeline(all, room) == [] && Known(all, b.id) && !Known(all, c.id) && a.id != b.id && b.id != c.id
  {
    var master, block := [a, b, c], [Stored(Row(b, room, true))];
    StoredTimelineAppend(events, block, room);
    assert StoredTimeline(block, room) == [];
    assert master[0] == a && master[1] == b && master[2] == c;
    KnownAppend(events, block, b.id);
    KnownAppend(events, block, c.id);
    assert block[0].row.event.id == b.id;
  }
}
