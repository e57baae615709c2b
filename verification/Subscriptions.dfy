/** sync3/ops.go: which rooms are sent in full because an update brought them into the window. */
module Subscriptions {
  import opened Common
  import opened Ranges
  import opened MoveIndexes
  import opened RoomOrder
  import opened ListClient
  import opened ListOps
  import opened Replica

  /** The room was visible at some tracked index of the list. */
  ghost predicate Visible(rs: seq<Range>, list: seq<RoomId>, room: RoomId) {
    exists j :: 0 <= j < |list| && Tracked(rs, j) && list[j] == room
  }

  /** Every room now visible either was visible before or is sent in full. */
  ghost predicate Complete(rs: seq<Range>, before: seq<RoomId>, after: seq<RoomId>, subs: seq<RoomId>) {
    forall i :: 0 <= i < |after| && Tracked(rs, i) ==> Visible(rs, before, after[i]) || after[i] in subs
  }

  ghost predicate SubbedBy(rs: seq<Range>, u: Update, r: Range, single: bool, x: RoomId) {
    var p := PairOf(u, r);
    0 <= p.1 < |u.list| && x in PairSubs(rs, u, p, single)
  }

  lemma {:induction false} SubsFromPairs(rs: seq<Range>, u: Update, moved: seq<Range>, single: bool, x: RoomId)
    requires PairsOutcome(rs, u, ClampAll(moved, u.from, u.to), single).Done?
    ensures x in PairsOutcome(rs, u, ClampAll(moved, u.from, u.to), single).subs <==>
      exists r :: r in moved && SubbedBy(rs, u, r, single, x)
  {
    if moved != [] {
      var rest := moved[1..];
      assert ClampAll(moved, u.from, u.to)[1..] == ClampAll(rest, u.from, u.to);
      SubsFromPairs(rs, u, rest, single, x);
      assert moved[0] in moved && forall r :: r in rest ==> r in moved;
      var o := PairsOutcome(rs, u, ClampAll(rest, u.from, u.to), single);
      var here := PairSubs(rs, u, PairOf(u, moved[0]), single);
      assert x in here + o.subs <==> x in here || x in o.subs;
      assert forall r :: r in moved <==> r == moved[0] || r in rest;
    }
  }

  /** The rooms an update sends in full are those of the ranges it reaches. */
  lemma SubsByRange(rs: seq<Range>, u: Update, x: RoomId)
    requires Valid(rs) && UpdateOutcome(rs, u).Done?
    ensures x in UpdateOutcome(rs, u).subs <==>
      exists r :: r in rs && Meets(r, u.from, u.to) && SubbedBy(rs, u, r, |MovedRanges(rs, u.from, u.to)| == 1, x)
  {
    var moved := MovedRanges(rs, u.from, u.to);
    ClampAllLength(moved, u.from, u.to);
    MovedRangesExact(rs, u.from, u.to);
    SubsFromPairs(rs, u, moved, |moved| == 1, x);
  }

  // ---- exactly which rooms are sent ----

  /** The move shifts another room into the far end of a range that it reaches. */
  ghost predicate ShiftedIn(rs: seq<Range>, after: seq<RoomId>, from: int, to: int, x: RoomId) {
    exists r :: r in rs && Meets(r, from, to) && Clamp(r, to) != to &&
      0 <= Clamp(r, to) < |after| && after[Clamp(r, to)] == x
  }

  lemma MoveSubbedBy(rs: seq<Range>, list: seq<RoomId>, pre: seq<RoomId>, u: Update, single: bool, r: Range, x: RoomId)
    requires Valid(rs) && IsMove(rs, list, pre, u) && r in rs && Meets(r, u.from, u.to)
    ensures var t := Clamp(r, u.to);
      && 0 <= t < |u.list|
      && (SubbedBy(rs, u, r, single, x) <==> u.list[t] == x && if x == u.room then !u.wasInside else t != u.to)
  {
    ValidApart(rs, r, r);
  }

  lemma MoveSubsExactly(rs: seq<Range>, list: seq<RoomId>, pre: seq<RoomId>, u: Update, x: RoomId)
    requires Valid(rs) && IsMove(rs, list, pre, u) && UpdateOutcome(rs, u).Done?
    ensures x in UpdateOutcome(rs, u).subs <==>
      if x == u.room then Tracked(rs, u.to) && !u.wasInside else ShiftedIn(rs, u.list, u.from, u.to, x)
  {
    var single := |MovedRanges(rs, u.from, u.to)| == 1;
    SubsByRange(rs, u, x);
    forall r | r in rs && Meets(r, u.from, u.to)
      ensures 0 <= Clamp(r, u.to) < |u.list|
      ensures SubbedBy(rs, u, r, single, x) <==>
        u.list[Clamp(r, u.to)] == x && if x == u.room then !u.wasInside else Clamp(r, u.to) != u.to
    {
      MoveSubbedBy(rs, list, pre, u, single, r, x);
    }
    if x == u.room && Tracked(rs, u.to) {
      var r :| r in rs && In(r, u.to);
      assert Meets(r, u.from, u.to) && Clamp(r, u.to) == u.to;
    }
  }

  /**
   * An Add or a Change sends its own room in full exactly when the room is in the window now and is new or was
   * not there before, and any other room exactly when the move shifts it into a range from outside.
   */
  lemma SubsExactly(rs: seq<Range>, list: seq<RoomId>, op: ListOp, room: RoomId, keys: seq<SortKey>, finder: Finder,
                    x: RoomId)
    requires Valid(rs) && NoDup(list) && OthersSorted(list, room, keys, finder)
    requires op.Add? || (op.Change? && room in list)
    ensures var o, after := ServerOps(rs, list, op, room, keys, finder), ListAfter(list, op, room, keys, finder);
      && o.Done? && room in after
      && (x in o.subs <==>
          if x == room then Tracked(rs, IndexIn(after, room)) && (op.Add? || !Tracked(rs, IndexIn(list, room)))
          else ShiftedIn(rs, after, FromOf(list, room), IndexIn(after, room), x))
  {
    var after := ListAfter(list, op, room, keys, finder);
    UpdateIsMove(rs, list, op, room, keys, finder);
    AddOrChangeSubsComplete(rs, list, op, room, keys, finder);
    MoveSubsExactly(rs, list, Padded(list, room), UpdateOf(rs, list, op, room, after), x);
  }

  lemma {:induction false} SilentPairs(rs: seq<Range>, u: Update, moved: seq<Range>, single: bool)
    requires !u.op.Del? && PairsOutcome(rs, u, ClampAll(moved, u.from, u.to), single).Done?
    ensures PairsOutcome(rs, u, ClampAll(moved, u.from, u.to), single).ops == [] <==>
      forall r :: r in moved ==> 0 <= PairOf(u, r).1 < |u.list| && IsNoOp(u, PairOf(u, r), single)
  {
    if moved != [] {
      assert ClampAll(moved, u.from, u.to)[1..] == ClampAll(moved[1..], u.from, u.to);
      SilentPairs(rs, u, moved[1..], single);
      assert moved[0] in moved && forall r :: r in moved <==> r == moved[0] || r in moved[1..];
    }
  }

  /** No pair of a move to another index is taken for one that goes nowhere. */
  lemma MovesAreReported(rs: seq<Range>, list: seq<RoomId>, pre: seq<RoomId>, u: Update, r: Range)
    requires Valid(rs) && IsMove(rs, list, pre, u) && u.from != u.to && r in MovedRanges(rs, u.from, u.to)
    requires 0 <= PairOf(u, r).1 < |u.list|
    ensures !IsNoOp(u, PairOf(u, r), |MovedRanges(rs, u.from, u.to)| == 1)
  {
    MovedRangesExact(rs, u.from, u.to);
  }

  lemma MoveSilent(rs: seq<Range>, list: seq<RoomId>, pre: seq<RoomId>, u: Update)
    requires Valid(rs) && IsMove(rs, list, pre, u) && UpdateOutcome(rs, u).Done?
    ensures UpdateOutcome(rs, u).ops == [] <==>
      (u.op.Change? && u.from == u.to) || forall r :: r in rs ==> !Meets(r, u.from, u.to)
  {
    var moved := MovedRanges(rs, u.from, u.to);
    ClampAllLength(moved, u.from, u.to);
    MovedRangesExact(rs, u.from, u.to);
    SilentPairs(rs, u, moved, |moved| == 1);
    if moved != [] {
      assert moved[0] in moved;
      MoveReady(rs, list, pre, u, |moved| == 1, moved[0]);
      if u.from != u.to {
        MovesAreReported(rs, list, pre, u, moved[0]);
      } else {
        assert forall r :: r in moved ==> r == Inside(rs, u.from).value;
      }
    }
  }

  /** An Add or a Change sends no operation exactly when it reaches no range, or is a Change that moves nothing. */
  lemma SilentExactly(rs: seq<Range>, list: seq<RoomId>, op: ListOp, room: RoomId, keys: seq<SortKey>, finder: Finder)
    requires Valid(rs) && NoDup(list) && OthersSorted(list, room, keys, finder)
    requires op.Add? || (op.Change? && room in list)
    ensures var o, after := ServerOps(rs, list, op, room, keys, finder), ListAfter(list, op, room, keys, finder);
      && o.Done? && room in after
      && (o.ops == [] <==>
          (op.Change? && IndexIn(after, room) == IndexIn(list, room)) ||
          forall r :: r in rs ==> !Meets(r, FromOf(list, room), IndexIn(after, room)))
  {
    var after := ListAfter(list, op, room, keys, finder);
    UpdateIsMove(rs, list, op, room, keys, finder);
    AddOrChangeSubsComplete(rs, list, op, room, keys, finder);
    MoveSilent(rs, list, Padded(list, room), UpdateOf(rs, list, op, room, after));
  }

  /** The removal shifts the room into the last index of the range, which had not shown it. */
  ghost predicate ShiftsInto(rs: seq<Range>, list: seq<RoomId>, after: seq<RoomId>, from: int, r: Range, x: RoomId) {
    var t := Clamp(r, |list| - 2);
    && 0 <= t < |after| && after[t] == x
    && (t != |list| - 2 || (!Tracked(rs, from) && !Tracked(rs, |list| - 1)))
  }

  ghost predicate ShiftedInByDel(rs: seq<Range>, list: seq<RoomId>, after: seq<RoomId>, from: int, x: RoomId) {
    exists r :: r in rs && Meets(r, from, |list| - 2) && ShiftsInto(rs, list, after, from, r, x)
  }

  lemma RemovalSubbedBy(rs: seq<Range>, list: seq<RoomId>, u: Update, single: bool, r: Range, x: RoomId)
    requires Valid(rs) && IsRemoval(rs, list, u) && !Overruns(rs, list, u.from) && r in rs && Meets(r, u.from, u.to)
    ensures SubbedBy(rs, u, r, single, x) <==> ShiftsInto(rs, list, u.list, u.from, r, x)
  {
    RemovalReady(rs, list, u, r);
    assert u.list[Clamp(r, u.to)] != u.room;
  }

  lemma RemovalSubsExactly(rs: seq<Range>, list: seq<RoomId>, u: Update, x: RoomId)
    requires Valid(rs) && IsRemoval(rs, list, u) && !Overruns(rs, list, u.from) && UpdateOutcome(rs, u).Done?
    ensures x in UpdateOutcome(rs, u).subs <==> ShiftedInByDel(rs, list, u.list, u.from, x)
  {
    var single := |MovedRanges(rs, u.from, u.to)| == 1;
    SubsByRange(rs, u, x);
    forall r | r in rs && Meets(r, u.from, u.to)
      ensures SubbedBy(rs, u, r, single, x) <==> ShiftsInto(rs, list, u.list, u.from, r, x)
    {
      RemovalSubbedBy(rs, list, u, single, r, x);
    }
  }

  /** A Del sends exactly the rooms that it shifts into ranges, but for the last one where the client has it. */
  lemma DelSubsExactly(rs: seq<Range>, list: seq<RoomId>, room: RoomId, keys: seq<SortKey>, finder: Finder, x: RoomId)
    requires Valid(rs) && NoDup(list) && room in list && !DelFails(rs, list, room)
    ensures var o, after := ServerOps(rs, list, Del, room, keys, finder), ListAfter(list, Del, room, keys, finder);
      o.Done? && (x in o.subs <==> ShiftedInByDel(rs, list, after, IndexIn(list, room), x))
  {
    DelSubsComplete(rs, list, room, keys, finder);
    if 2 <= |list| {
      RemovalUpdate(rs, list, room, keys, finder);
      var after := ListAfter(list, Del, room, keys, finder);
      RemovalSubsExactly(rs, list, UpdateOf(rs, list, Del, room, after), x);
    }
  }

  // ---- every room that comes into view is sent ----

  /** A room that stays inside a swapped range was visible there before. */
  lemma ShiftedWasVisible(rs: seq<Range>, pre: seq<RoomId>, n: nat, post: seq<RoomId>, r: Range, p: Pair, i: nat)
    requires n <= |pre| && r in rs && SwapFits(pre, n, post, r, p)
    requires In(r, i) && i < |post| && i != p.1
    ensures Visible(rs, pre[..n], post[i])
  {
    assert SwapFitsAt(pre, n, post, p, i);
    var j := if p.1 < i <= p.0 then i - 1 else if p.0 <= i < p.1 then i + 1 else i;
    assert In(r, j) && pre[..n][j] == post[i];
  }

  /** The room inserted at a range's target index is sent in full, unless it is an updated room seen before. */
  lemma InsertedIsSubbed(rs: seq<Range>, u: Update, r: Range)
    requires Valid(rs) && UpdateOutcome(rs, u).Done?
    requires r in rs && Meets(r, u.from, u.to)
    requires 0 <= PairOf(u, r).1 < |u.list| && !IsLoneDelete(rs, u, PairOf(u, r))
    requires PairOf(u, r).1 != u.to || !u.wasInside
    requires u.op.Change? && u.list[PairOf(u, r).1] == u.room ==> PairOf(u, r).1 == u.to
    ensures u.list[PairOf(u, r).1] in UpdateOutcome(rs, u).subs
  {
    var x := u.list[PairOf(u, r).1];
    SubsByRange(rs, u, x);
    assert SubbedBy(rs, u, r, |MovedRanges(rs, u.from, u.to)| == 1, x);
  }

  lemma MoveSubsCompleteAt(rs: seq<Range>, list: seq<RoomId>, pre: seq<RoomId>, u: Update, o: Outcome, i: nat)
    requires Valid(rs) && IsMove(rs, list, pre, u)
    requires o == UpdateOutcome(rs, u) && o.Done?
    requires i < |u.list| && Tracked(rs, i)
    ensures Visible(rs, list, u.list[i]) || u.list[i] in o.subs
  {
    var r :| r in rs && In(r, i);
    ValidApart(rs, r, r);
    if !Meets(r, u.from, u.to) {
      MoveAt(pre, u.from, u.to, i);
      assert pre[..|list|][i] == list[i];
    } else {
      MoveFits(pre, |list|, u.from, u.to, r);
      if i != PairOf(u, r).1 {
        ShiftedWasVisible(rs, pre, |list|, u.list, r, PairOf(u, r), i);
      } else if i == u.to && u.wasInside {
        MoveAt(pre, u.from, u.to, u.to);
        assert list[u.from] == u.list[i];
      } else {
        InsertedIsSubbed(rs, u, r);
      }
    }
  }

  lemma MoveSubsComplete(rs: seq<Range>, list: seq<RoomId>, pre: seq<RoomId>, u: Update)
    requires Valid(rs) && IsMove(rs, list, pre, u)
    ensures var o := UpdateOutcome(rs, u);
      o.Done? && Complete(rs, list, u.list, o.subs)
  {
    var mirror: Slots := map i | 0 <= i < |list| :: Some(list[i]);
    MoveAgrees(rs, mirror, list, pre, u);
    var o := UpdateOutcome(rs, u);
    forall i | 0 <= i < |u.list| && Tracked(rs, i) ensures Visible(rs, list, u.list[i]) || u.list[i] in o.subs {
      MoveSubsCompleteAt(rs, list, pre, u, o, i);
    }
  }

  /** After an Add or a Change, every room that came into the window is sent in full. */
  lemma AddOrChangeSubsComplete(rs: seq<Range>, list: seq<RoomId>, op: ListOp, room: RoomId,
                                keys: seq<SortKey>, finder: Finder)
    requires Valid(rs) && NoDup(list) && OthersSorted(list, room, keys, finder) && !op.Del?
    ensures var o := ServerOps(rs, list, op, room, keys, finder);
      o.Done? && Complete(rs, list, ListAfter(list, op, room, keys, finder), o.subs)
  {
    if op.Add? || room in list {
      UpdateIsMove(rs, list, op, room, keys, finder);
      var after := ListAfter(list, op, room, keys, finder);
      MoveSubsComplete(rs, list, Padded(list, room), UpdateOf(rs, list, op, room, after));
    } else {
      assert ListAfter(list, op, room, keys, finder) == list;
    }
  }

  /**
   * A visible room is removed, the index that becomes the last one is tracked, and the room shifted
   * into it was not: that room is inserted on the client without its data.
   */
  ghost predicate InsertsUnseen(rs: seq<Range>, list: seq<RoomId>, from: int) {
    from < |list| - 1 && Tracked(rs, from) && Tracked(rs, |list| - 2) && !Tracked(rs, |list| - 1)
  }

  /** The room shifted into the last index of a range is sent in full. */
  lemma EdgeIsSubbed(rs: seq<Range>, list: seq<RoomId>, u: Update, r: Range, i: nat)
    requires Valid(rs) && IsRemoval(rs, list, u) && !Overruns(rs, list, u.from) && !InsertsUnseen(rs, list, u.from)
    requires UpdateOutcome(rs, u).Done? && u.from <= i < |u.list| && u.from < |list| - 1
    requires r in rs && In(r, i) && !Tracked(rs, i + 1)
    ensures u.list[i] in UpdateOutcome(rs, u).subs
  {
    ValidApart(rs, r, r);
    assert !In(r, i + 1);
    RemovalReady(rs, list, u, r);
    assert PairOf(u, r).1 == i;
    InsertedIsSubbed(rs, u, r);
  }

  lemma RemovalSubsComplete(rs: seq<Range>, list: seq<RoomId>, u: Update, o: Outcome, i: nat)
    requires Valid(rs) && IsRemoval(rs, list, u) && !Overruns(rs, list, u.from) && !InsertsUnseen(rs, list, u.from)
    requires o == UpdateOutcome(rs, u) && o.Done?
    requires i < |u.list| && Tracked(rs, i)
    ensures Visible(rs, list, u.list[i]) || u.list[i] in o.subs
  {
    var j := if i < u.from then i else i + 1;
    assert j < |list| && list[j] == u.list[i];
    if !Tracked(rs, j) {
      var r :| r in rs && In(r, i);
      EdgeIsSubbed(rs, list, u, r, i);
    }
  }

  /** After a Del the rooms sent in full are complete except in exactly that case. */
  lemma DelSubsComplete(rs: seq<Range>, list: seq<RoomId>, room: RoomId, keys: seq<SortKey>, finder: Finder)
    requires Valid(rs) && NoDup(list) && room in list && !DelFails(rs, list, room)
    ensures var o := ServerOps(rs, list, Del, room, keys, finder);
      && o.Done?
      && (Complete(rs, list, ListAfter(list, Del, room, keys, finder), o.subs)
          <==> !InsertsUnseen(rs, list, IndexIn(list, room)))
  {
    var mirror: Slots := map i | 0 <= i < |list| :: Some(list[i]);
    DelAgrees(rs, mirror, list, room, keys, finder);
    if 2 <= |list| {
      RemovalUpdate(rs, list, room, keys, finder);
      var after := ListAfter(list, Del, room, keys, finder);
      var u := UpdateOf(rs, list, Del, room, after);
      var o := ServerOps(rs, list, Del, room, keys, finder);
      if !InsertsUnseen(rs, list, u.from) {
        forall i | 0 <= i < |after| && Tracked(rs, i) ensures Visible(rs, list, after[i]) || after[i] in o.subs {
          RemovalSubsComplete(rs, list, u, o, i);
        }
      } else {
        UnseenIsMissing(rs, list, u, o);
      }
    }
  }

  lemma UnseenNotSubbed(rs: seq<Range>, list: seq<RoomId>, u: Update, single: bool, r: Range)
    requires Valid(rs) && IsRemoval(rs, list, u) && InsertsUnseen(rs, list, u.from)
    requires r in rs && Meets(r, u.from, u.to)
    ensures !SubbedBy(rs, u, r, single, u.list[u.to])
  {
    ValidApart(rs, r, r);
    var t := PairOf(u, r).1;
    assert 0 <= t <= u.to;
    assert t < u.to ==> u.list[t] == list[if t < u.from then t else t + 1];
  }

  lemma UnseenIsMissing(rs: seq<Range>, list: seq<RoomId>, u: Update, o: Outcome)
    requires Valid(rs) && IsRemoval(rs, list, u) && InsertsUnseen(rs, list, u.from)
    requires o == UpdateOutcome(rs, u) && o.Done?
    ensures Tracked(rs, u.to) && !Visible(rs, list, u.list[u.to]) && u.list[u.to] !in o.subs
  {
    assert u.list[u.to] == list[|list| - 1];
    SubsByRange(rs, u, u.list[u.to]);
    var single := |MovedRanges(rs, u.from, u.to)| == 1;
    forall r | r in rs && Meets(r, u.from, u.to) ensures !SubbedBy(rs, u, r, single, u.list[u.to]) {
      UnseenNotSubbed(rs, list, u, single, r);
    }
  }
}
