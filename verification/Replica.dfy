/** Replica agreement: replaying the server's operations keeps the client's window equal to the list. */
module Replica {
  import opened Common
  import opened Ranges
  import opened MoveIndexes
  import opened RoomOrder
  import opened Sorting
  import opened SortableRooms
  import opened ListClient
  import opened ListOps

  /** The client shows the server's room at every tracked index the list has. */
  ghost predicate Agrees(rs: seq<Range>, m: Slots, list: seq<RoomId>) {
    forall i :: 0 <= i < |list| && Tracked(rs, i) ==> At(m, i) == Some(list[i])
  }

  // ---- the effect of one operation ----

  /** Slot `i` after moving the entry at `f` to `t` and writing `x` there. */
  ghost function Swapped(m: Slots, f: int, t: int, x: RoomId, i: int): Option<RoomId> {
    if i == t then Some(x)
    else if t < i <= f then At(m, i - 1)
    else if f <= i < t then At(m, i + 1)
    else At(m, i)
  }

  lemma SwapEffect(rs: seq<Range>, m: Slots, r: Range, f: int, t: int, x: RoomId)
    requires r in rs && In(r, f) && In(r, t) && 0 <= f
    requires f != t ==> At(m, t).Some?
    ensures var s := Step(rs, Step(rs, State(m, -1), Delete(f)), Insert(t, x));
      s.gap == -1 && forall i :: At(s.slots, i) == Swapped(m, f, t, x, i)
  {
    assert forall i :: In(r, i) ==> Tracked(rs, i);
  }

  /** Closing a gap leaves what is below it and pulls tracked entries above it down by one. */
  lemma CloseEffect(rs: seq<Range>, m: Slots, g: int)
    requires 0 <= g
    ensures forall i :: i < g ==> At(WithoutEntry(rs, m, g), i) == At(m, i)
    ensures forall i, k :: g <= i < k && k in m && Tracked(rs, i) ==> At(WithoutEntry(rs, m, g), i) == At(m, i + 1)
  {
  }

  lemma CloseAt(rs: seq<Range>, m: Slots, g: int, i: int)
    requires 0 <= g
    ensures i < g ==> At(WithoutEntry(rs, m, g), i) == At(m, i)
    ensures g <= i && i + 1 in m && Tracked(rs, i) ==> At(WithoutEntry(rs, m, g), i) == At(m, i + 1)
  {
    CloseEffect(rs, m, g);
  }

  lemma CloseWithout(rs: seq<Range>, m: Slots, g: int, f: int)
    requires 0 <= f < g
    ensures WithoutEntry(rs, m - {f}, g) == WithoutEntry(rs, m, g) - {f}
  {
    var m', x := m - {f}, MaxKey(m);
    assert forall k :: k in m' ==> k in m;
    if 0 <= x && g <= x {
      assert x in m';
      assert MaxKey(m') == x;
      assert ShiftedLeft(rs, m', x, g) - {x} == (ShiftedLeft(rs, m, x, g) - {x}) - {f};
    }
  }

  /** Deleting below an open gap first, as the client does, is the same as closing the gap first. */
  lemma DeleteBelowGap(rs: seq<Range>, m: Slots, g: int, f: int)
    requires 0 <= f < g
    ensures Step(rs, State(m, g), Delete(f)) == Step(rs, State(WithoutEntry(rs, m, g), -1), Delete(f))
  {
    CloseWithout(rs, m, g, f);
  }

  // ---- one update, range by range ----

  function PairOf(u: Update, r: Range): Pair { ClampPair(r, u.from, u.to) }

  /**
   * Ranges still `pending` show the first `n` rooms of `pre`, except perhaps where their own DELETE will
   * be; the others already show the new list.
   */
  ghost predicate Mixed(rs: seq<Range>, m: Slots, pre: seq<RoomId>, n: nat, u: Update, pending: seq<Range>)
    requires n <= |pre|
  {
    forall r, i :: r in rs && In(r, i) && 0 <= i ==>
      if r in pending then i < n && i != PairOf(u, r).0 ==> At(m, i) == Some(pre[i])
      else i < |u.list| ==> At(m, i) == Some(u.list[i])
  }

  /** Within `r`, moving the entry at `p.0` to `p.1` turns the rooms of `pre` into those of `post`. */
  ghost predicate SwapFits(pre: seq<RoomId>, n: nat, post: seq<RoomId>, r: Range, p: Pair)
    requires n <= |pre|
  {
    && 0 <= p.0 && 0 <= p.1 < |post| && In(r, p.0) && In(r, p.1)
    && (p.0 != p.1 ==> p.1 < n)
    && forall i :: In(r, i) && 0 <= i < |post| && i != p.1 ==> SwapFitsAt(pre, n, post, p, i)
  }

  ghost predicate SwapFitsAt(pre: seq<RoomId>, n: nat, post: seq<RoomId>, p: Pair, i: nat)
    requires n <= |pre| && i < |post| && 0 <= p.1
  {
    if p.1 < i <= p.0 then i <= n && post[i] == pre[i - 1]
    else if p.0 <= i < p.1 then i + 1 < n && post[i] == pre[i + 1]
    else i < n && post[i] == pre[i]
  }

  /** Within `r`, dropping the entry at `f` turns the rooms of `pre` into those of `post`. */
  ghost predicate DropFits(pre: seq<RoomId>, n: nat, post: seq<RoomId>, r: Range, f: int)
    requires n <= |pre|
  {
    && 0 <= f && In(r, f) && 0 < n == |post| + 1
    && forall i :: In(r, i) && 0 <= i < |post| ==> DropFitsAt(pre, n, post, r, f, i)
  }

  ghost predicate DropFitsAt(pre: seq<RoomId>, n: nat, post: seq<RoomId>, r: Range, f: int, i: nat)
    requires n <= |pre| && n == |post| + 1 && i < |post|
  {
    if i < f then post[i] == pre[i]
    else post[i] == pre[i + 1] && (In(r, i + 1) || i + 1 == n - 1)
  }

  lemma SwapStep(rs: seq<Range>, m: Slots, pre: seq<RoomId>, n: nat, u: Update, r: Range, rest: seq<Range>)
    requires Valid(rs) && n <= |pre| && r in rs && r !in rest
    requires SwapFits(pre, n, u.list, r, PairOf(u, r))
    requires Mixed(rs, m, pre, n, u, [r] + rest)
    ensures var p := PairOf(u, r);
      var s := Step(rs, Step(rs, State(m, -1), Delete(p.0)), Insert(p.1, u.list[p.1]));
      s.gap == -1 && Mixed(rs, s.slots, pre, n, u, rest) && forall i :: !In(r, i) ==> At(s.slots, i) == At(m, i)
  {
    var p, post := PairOf(u, r), u.list;
    assert r in [r] + rest;
    assert p.1 < n && p.0 != p.1 ==> At(m, p.1) == Some(pre[p.1]);
    SwapEffect(rs, m, r, p.0, p.1, post[p.1]);
    var s := Step(rs, Step(rs, State(m, -1), Delete(p.0)), Insert(p.1, post[p.1])).slots;
    forall q, i | q in rs && In(q, i) && 0 <= i
      ensures
        if q in rest then i < n && i != PairOf(u, q).0 ==> At(s, i) == Some(pre[i])
        else i < |post| ==> At(s, i) == Some(post[i])
    {
      ValidApart(rs, q, r);
      assert q in [r] + rest <==> q == r || q in rest;
      if q == r && p.1 < i <= p.0 {
        assert In(r, i - 1);
      } else if q == r && p.0 <= i < p.1 {
        assert In(r, i + 1);
      }
    }
  }

  /** The range of a DELETE sent alone, once the client has closed the gap. */
  lemma DropInRange(rs: seq<Range>, m: Slots, pre: seq<RoomId>, n: nat, post: seq<RoomId>, r: Range, f: int, i: int)
    requires n <= |pre| && DropFits(pre, n, post, r, f) && r in rs && In(r, i) && 0 <= f && 0 <= i < |post|
    requires forall j :: In(r, j) && 0 <= j < n && j != f ==> At(m, j) == Some(pre[j])
    requires f < n - 1 ==> At(m, n - 1) == Some(pre[n - 1])
    ensures At(WithoutEntry(rs, m - {f}, f), i) == Some(post[i])
  {
    CloseAt(rs, m - {f}, f, i);
    assert DropFitsAt(pre, n, post, r, f, i);
    assert Tracked(rs, i);
    assert f <= i ==> i + 1 in m - {f};
  }

  lemma DropStep(rs: seq<Range>, m: Slots, pre: seq<RoomId>, n: nat, u: Update, r: Range, rest: seq<Range>)
    requires Valid(rs) && n <= |pre| && r in rs && r !in rest
    requires DropFits(pre, n, u.list, r, PairOf(u, r).0)
    requires forall q :: q in rs && q != r && q.lo < n - 1 ==> q.hi < PairOf(u, r).0
    requires forall q :: q in rest ==> q.lo < n - 1
    requires PairOf(u, r).0 < n - 1 ==> At(m, n - 1) == Some(pre[n - 1])
    requires Mixed(rs, m, pre, n, u, [r] + rest)
    ensures var f := PairOf(u, r).0;
      Mixed(rs, WithoutEntry(rs, m - {f}, f), pre, n, u, rest)
  {
    var f, post := PairOf(u, r).0, u.list;
    var c := WithoutEntry(rs, m - {f}, f);
    forall q, i | q in rs && In(q, i) && 0 <= i
      ensures
        if q in rest then i < n && i != PairOf(u, q).0 ==> At(c, i) == Some(pre[i])
        else i < |post| ==> At(c, i) == Some(post[i])
    {
      assert q in [r] + rest <==> q == r || q in rest;
      if q == r {
        if i < |post| {
          DropInRange(rs, m, pre, n, post, r, f, i);
        }
      } else {
        CloseAt(rs, m - {f}, f, i);
      }
    }
  }

  ghost predicate IsLone(rs: seq<Range>, u: Update, r: Range) {
    var p := PairOf(u, r);
    0 <= p.1 < |u.list| && IsLoneDelete(rs, u, p)
  }

  /** The pair sent for `r` fits, and a DELETE sent alone is above every other range the update reaches. */
  ghost predicate Ready(rs: seq<Range>, u: Update, pre: seq<RoomId>, n: nat, single: bool, r: Range)
    requires n <= |pre|
  {
    var p := PairOf(u, r);
    && r in rs && 0 <= p.1 < |u.list| && !IsNoOp(u, p, single)
    && if IsLone(rs, u, r)
       then p.0 < n && DropFits(pre, n, u.list, r, p.0) && forall q :: q in rs && q != r && q.lo < n - 1 ==> q.hi < p.0
       else SwapFits(pre, n, u.list, r, p)
  }

  /** What still has to hold of a client about to process the operations of the ranges in `moved`. */
  ghost predicate OnTrack(rs: seq<Range>, st: State, pre: seq<RoomId>, n: nat, u: Update, moved: seq<Range>)
    requires n <= |pre|
  {
    && Mixed(rs, Closed(rs, st), pre, n, u, moved)
    && (forall r :: r in moved && IsLone(rs, u, r) ==>
      0 < n && (PairOf(u, r).0 < n - 1 ==> At(Closed(rs, st), n - 1) == Some(pre[n - 1])))
    && (st.gap == -1 || (0 <= st.gap && forall r :: r in moved ==> r.hi < st.gap && !IsLone(rs, u, r)))
  }

  lemma LoneUnique(rs: seq<Range>, u: Update, r: Range, q: Range)
    requires Valid(rs) && r in rs && q in rs && IsLone(rs, u, r) && IsLone(rs, u, q)
    ensures r == q
  {
    ValidApart(rs, r, q);
    ValidApart(rs, q, r);
  }

  lemma SwapOnTrack(rs: seq<Range>, u: Update, pre: seq<RoomId>, n: nat, single: bool,
                    r: Range, rest: seq<Range>, st: State)
    requires Valid(rs) && n <= |pre| && r !in rest
    requires Ready(rs, u, pre, n, single, r) && !IsLone(rs, u, r)
    requires forall q :: q in rest ==> Ready(rs, u, pre, n, single, q)
    requires forall q, q' :: q in [r] + rest && q' in [r] + rest && IsLone(rs, u, q) ==> q'.lo < n - 1
    requires OnTrack(rs, st, pre, n, u, [r] + rest)
    ensures var p := PairOf(u, r);
      OnTrack(rs, Step(rs, Step(rs, st, Delete(p.0)), Insert(p.1, u.list[p.1])), pre, n, u, rest)
  {
    var p, m := PairOf(u, r), Closed(rs, st);
    assert r in [r] + rest;
    if st.gap != -1 {
      DeleteBelowGap(rs, st.slots, st.gap, p.0);
    }
    SwapStep(rs, m, pre, n, u, r, rest);
    forall q | q in rest && IsLone(rs, u, q) ensures !In(r, n - 1) {
      assert q in [r] + rest;
    }
  }

  lemma DropOnTrack(rs: seq<Range>, u: Update, pre: seq<RoomId>, n: nat, single: bool,
                    r: Range, rest: seq<Range>, st: State)
    requires Valid(rs) && n <= |pre| && r !in rest
    requires Ready(rs, u, pre, n, single, r) && IsLone(rs, u, r)
    requires forall q :: q in rest ==> Ready(rs, u, pre, n, single, q)
    requires forall q :: q in rest ==> q.lo < n - 1
    requires OnTrack(rs, st, pre, n, u, [r] + rest)
    ensures OnTrack(rs, Step(rs, st, Delete(PairOf(u, r).0)), pre, n, u, rest)
  {
    assert r in [r] + rest;
    DropStep(rs, st.slots, pre, n, u, r, rest);
    forall q | q in rest && IsLone(rs, u, q) ensures false {
      LoneUnique(rs, u, r, q);
    }
  }

  /** The operations for the first of the moved ranges. */
  lemma ReplayFirst(rs: seq<Range>, u: Update, pre: seq<RoomId>, n: nat, single: bool, moved: seq<Range>, st: State)
    requires Valid(rs) && n <= |pre| && NoDup(moved) && moved != []
    requires forall r :: r in moved ==> Ready(rs, u, pre, n, single, r)
    requires forall q, q' :: q in moved && q' in moved && IsLone(rs, u, q) ==> q'.lo < n - 1
    requires OnTrack(rs, st, pre, n, u, moved)
    ensures 0 <= PairOf(u, moved[0]).1 < |u.list|
    ensures var here := PairOps(rs, u, PairOf(u, moved[0]), single);
      Null !in here && OnTrack(rs, Steps(rs, st, here), pre, n, u, moved[1..])
  {
    var r, rest, p := moved[0], moved[1..], PairOf(u, moved[0]);
    assert moved == [r] + rest && r in moved;
    var here := PairOps(rs, u, p, single);
    if IsLone(rs, u, r) {
      DropOnTrack(rs, u, pre, n, single, r, rest, st);
      assert Tracked(rs, p.0);
      assert here == [Delete(p.0)];
      assert Steps(rs, st, here) == Step(rs, st, Delete(p.0));
    } else {
      SwapOnTrack(rs, u, pre, n, single, r, rest, st);
      assert here == [Delete(p.0), Insert(p.1, u.list[p.1])];
      StepsOfTwo(rs, st, Delete(p.0), Insert(p.1, u.list[p.1]));
    }
  }

  /** Processing the moved ranges in order brings every range from `pre` to the new list. */
  lemma {:induction false} ReplayMoved(rs: seq<Range>, u: Update, pre: seq<RoomId>, n: nat, single: bool,
                                       moved: seq<Range>, st: State)
    requires Valid(rs) && n <= |pre| && NoDup(moved)
    requires forall r :: r in moved ==> Ready(rs, u, pre, n, single, r)
    requires forall q, q' :: q in moved && q' in moved && IsLone(rs, u, q) ==> q'.lo < n - 1
    requires OnTrack(rs, st, pre, n, u, moved)
    ensures var o := PairsOutcome(rs, u, ClampAll(moved, u.from, u.to), single);
      o.Done? && Null !in o.ops && OnTrack(rs, Steps(rs, st, o.ops), pre, n, u, [])
    decreases moved
  {
    if moved != [] {
      var r, rest := moved[0], moved[1..];
      var p := PairOf(u, r);
      assert moved == [r] + rest;
      assert r in moved && forall q :: q in rest ==> q in moved;
      var here := PairOps(rs, u, p, single);
      ReplayFirst(rs, u, pre, n, single, moved, st);
      var next := Steps(rs, st, here);
      ReplayMoved(rs, u, pre, n, single, rest, next);
      var o := PairsOutcome(rs, u, ClampAll(rest, u.from, u.to), single);
      StepsAppend(rs, st, here, o.ops);
      assert ClampAll(moved, u.from, u.to)[1..] == ClampAll(rest, u.from, u.to);
    }
  }

  /** The client shows the list, except perhaps where the update's own DELETEs will be. */
  ghost predicate AgreesBut(rs: seq<Range>, m: Slots, list: seq<RoomId>, u: Update) {
    forall r, i :: r in rs && In(r, i) && 0 <= i < |list| ==>
      (Meets(r, u.from, u.to) && i == PairOf(u, r).0) || At(m, i) == Some(list[i])
  }

  lemma AgreesEnough(rs: seq<Range>, m: Slots, list: seq<RoomId>, u: Update)
    requires Agrees(rs, m, list)
    ensures AgreesBut(rs, m, list, u)
  {
    forall r, i | r in rs && In(r, i) && 0 <= i < |list|
      ensures At(m, i) == Some(list[i])
    {
      assert Tracked(rs, i);
    }
  }

  /** The operations of an update all of whose pairs are ready, replayed from a client on track. */
  lemma ReadyAgrees(rs: seq<Range>, st: State, pre: seq<RoomId>, n: nat, u: Update)
    requires Valid(rs) && n <= |pre|
    requires var moved := MovedRanges(rs, u.from, u.to);
      && (forall r :: r in moved ==> Ready(rs, u, pre, n, |moved| == 1, r))
      && (forall q, q' :: q in moved && q' in moved && IsLone(rs, u, q) ==> q'.lo < n - 1)
      && OnTrack(rs, st, pre, n, u, moved)
    ensures var o := UpdateOutcome(rs, u);
      && o.Done? && Null !in o.ops && Agrees(rs, Closed(rs, Steps(rs, st, o.ops)), u.list)
  {
    var moved := MovedRanges(rs, u.from, u.to);
    MovedRangesExact(rs, u.from, u.to);
    ClampAllLength(moved, u.from, u.to);
    ReplayMoved(rs, u, pre, n, |moved| == 1, moved, st);
    FinishedAgrees(rs, Steps(rs, st, UpdateOutcome(rs, u).ops), pre, n, u);
  }

  // ---- adding a room, or changing one ----

  /** The list the update starts from: with a new room appended, as the server does before sorting. */
  function Padded(list: seq<RoomId>, room: RoomId): seq<RoomId> {
    if room in list then list else list + [room]
  }

  function FromOf(list: seq<RoomId>, room: RoomId): nat {
    if room in list then IndexIn(list, room) else |list|
  }

  /** Every other room is still in order: only `room` can have changed since the last sort. */
  ghost predicate OthersSorted(list: seq<RoomId>, room: RoomId, keys: seq<SortKey>, finder: Finder) {
    || (exists k :: k in keys && k.UnknownOrder?)
    || SortedBy(Less(keys, finder), RemoveAt(Padded(list, room), FromOf(list, room)))
  }

  lemma MoveAt<T>(s: seq<T>, from: nat, to: nat, i: nat)
    requires from < |s| && to < |s| && i < |s|
    ensures |Move(s, from, to)| == |s|
    ensures Move(s, from, to)[i] ==
      if i == to then s[from] else if to < i <= from then s[i - 1] else if from <= i < to then s[i + 1] else s[i]
  {
    var rest := RemoveAt(s, from);
    assert forall j :: 0 <= j < |rest| ==> rest[j] == if j < from then s[j] else s[j + 1];
  }

  /** One key change, or one new room, moves exactly that room. */
  lemma AfterIsMove(list: seq<RoomId>, op: ListOp, room: RoomId, keys: seq<SortKey>, finder: Finder)
    requires NoDup(list) && OthersSorted(list, room, keys, finder)
    requires op.Add? || (op.Change? && room in list)
    ensures var after := ListAfter(list, op, room, keys, finder);
      && room in after && NoDup(after)
      && IndexIn(after, room) < |Padded(list, room)|
      && after == Move(Padded(list, room), FromOf(list, room), IndexIn(after, room))
  {
    var pre, from := Padded(list, room), FromOf(list, room);
    var after := ListAfter(list, op, room, keys, finder);
    RoomStays(list, op, room, keys, finder);
    ResortedKeeps(keys, finder, pre);
    NoDupFromMultiset(pre, after);
    var to := from;
    if exists k :: k in keys && k.UnknownOrder? {
      assert Move(pre, from, from) == pre;
    } else {
      to := SortMovesOne(Less(keys, finder), pre, from);
    }
    MoveAt(pre, from, to, to);
    IndexInUnique(after, to);
  }

  lemma MoveFits(pre: seq<RoomId>, n: nat, from: nat, to: nat, r: Range)
    requires from < |pre| && to < |pre| && n <= |pre| <= n + 1 && (n < |pre| ==> from == n)
    requires 0 <= r.lo <= r.hi && Meets(r, from, to)
    ensures SwapFits(pre, n, Move(pre, from, to), r, ClampPair(r, from, to))
  {
    var p, post := ClampPair(r, from, to), Move(pre, from, to);
    MoveAt(pre, from, to, 0);
    forall i | In(r, i) && 0 <= i < |post| && i != p.1 ensures SwapFitsAt(pre, n, post, p, i) {
      MoveAt(pre, from, to, i);
    }
  }

  /** The one case without operations: the room stays where it is, so the list does too. */
  lemma NoOpMeansUnmoved(rs: seq<Range>, list: seq<RoomId>, u: Update, r: Range)
    requires Valid(rs) && NoDup(u.list)
    requires 0 <= u.from < |list| && 0 <= u.to < |list| && u.list == Move(list, u.from, u.to)
    requires u.wasInside <==> Tracked(rs, u.from)
    requires MovedRanges(rs, u.from, u.to) == [r] && u.list[u.to] == u.room
    requires 0 <= PairOf(u, r).1 < |u.list| && IsNoOp(u, PairOf(u, r), true)
    ensures u.list == list
  {
    MovedRangesExact(rs, u.from, u.to);
    var own := Inside(rs, u.from).value;
    ValidApart(rs, own, own);
    assert own in [r];
  }

  /** What an Add or a Change does to the list, before any range is looked at. */
  ghost predicate IsMove(rs: seq<Range>, list: seq<RoomId>, pre: seq<RoomId>, u: Update) {
    && !u.op.Del? && NoDup(u.list)
    && |list| <= |pre| <= |list| + 1 && pre[..|list|] == list && (|list| < |pre| ==> u.op.Add? && u.from == |list|)
    && 0 <= u.from < |pre| && 0 <= u.to < |pre| && u.list == Move(pre, u.from, u.to)
    && |u.list| == |pre| && u.list[u.to] == u.room
    && (u.wasInside <==> u.op.Change? && Tracked(rs, u.from))
  }

  lemma MoveReady(rs: seq<Range>, list: seq<RoomId>, pre: seq<RoomId>, u: Update, single: bool, r: Range)
    requires Valid(rs) && IsMove(rs, list, pre, u)
    requires r in rs && Meets(r, u.from, u.to)
    ensures 0 <= PairOf(u, r).1 < |u.list|
    ensures IsNoOp(u, PairOf(u, r), single) || Ready(rs, u, pre, |list|, single, r)
  {
    ValidApart(rs, r, r);
    MoveFits(pre, |list|, u.from, u.to, r);
  }

  /** Whether some pair of the update is the no-op, in which case it is the only one. */
  ghost predicate Unreported(rs: seq<Range>, u: Update) {
    var moved := MovedRanges(rs, u.from, u.to);
    |moved| == 1 && 0 <= PairOf(u, moved[0]).1 < |u.list| && IsNoOp(u, PairOf(u, moved[0]), true)
  }

  lemma MoveAllReady(rs: seq<Range>, list: seq<RoomId>, pre: seq<RoomId>, u: Update)
    requires Valid(rs) && IsMove(rs, list, pre, u) && !Unreported(rs, u)
    ensures var moved := MovedRanges(rs, u.from, u.to);
      forall r :: r in moved ==> Ready(rs, u, pre, |list|, |moved| == 1, r)
  {
    var moved := MovedRanges(rs, u.from, u.to);
    MovedRangesExact(rs, u.from, u.to);
    forall r | r in moved ensures Ready(rs, u, pre, |list|, |moved| == 1, r) {
      MoveReady(rs, list, pre, u, |moved| == 1, r);
    }
  }

  /** A move every range of which is reported, replayed from a client that shows the list but for its DELETEs. */
  lemma ReportedMoveAgrees(rs: seq<Range>, m: Slots, list: seq<RoomId>, pre: seq<RoomId>, u: Update)
    requires Valid(rs) && IsMove(rs, list, pre, u) && AgreesBut(rs, m, list, u) && !Unreported(rs, u)
    ensures var o := UpdateOutcome(rs, u);
      && o.Done? && Null !in o.ops && Agrees(rs, Closed(rs, Steps(rs, State(m, -1), o.ops)), u.list)
  {
    MoveAllReady(rs, list, pre, u);
    MovedRangesExact(rs, u.from, u.to);
    StartOnTrack(rs, m, list, pre, u, MovedRanges(rs, u.from, u.to));
    ReadyAgrees(rs, State(m, -1), pre, |list|, u);
  }

  lemma UnreportedAgrees(rs: seq<Range>, list: seq<RoomId>, pre: seq<RoomId>, u: Update)
    requires Valid(rs) && IsMove(rs, list, pre, u) && Unreported(rs, u)
    ensures UpdateOutcome(rs, u) == Done([], []) && u.list == list
  {
    var moved := MovedRanges(rs, u.from, u.to);
    var r := moved[0];
    assert moved == [r] && pre[..|list|] == pre;
    NoOpMeansUnmoved(rs, list, u, r);
    assert ClampAll(moved, u.from, u.to) == [PairOf(u, r)];
    assert PairsOutcome(rs, u, [PairOf(u, r)], true) == Done([], []);
  }

  /** The operations of a move, replayed from an agreeing client. */
  lemma MoveAgrees(rs: seq<Range>, m: Slots, list: seq<RoomId>, pre: seq<RoomId>, u: Update)
    requires Valid(rs) && IsMove(rs, list, pre, u) && Agrees(rs, m, list)
    ensures var o := UpdateOutcome(rs, u);
      && o.Done? && Null !in o.ops && Agrees(rs, Closed(rs, Steps(rs, State(m, -1), o.ops)), u.list)
  {
    if Unreported(rs, u) {
      UnreportedAgrees(rs, list, pre, u);
    } else {
      AgreesEnough(rs, m, list, u);
      ReportedMoveAgrees(rs, m, list, pre, u);
    }
  }

  lemma UpdateIsMove(rs: seq<Range>, list: seq<RoomId>, op: ListOp, room: RoomId, keys: seq<SortKey>, finder: Finder)
    requires NoDup(list) && OthersSorted(list, room, keys, finder)
    requires op.Add? || (op.Change? && room in list)
    ensures var after := ListAfter(list, op, room, keys, finder);
      room in after && IsMove(rs, list, Padded(list, room), UpdateOf(rs, list, op, room, after))
  {
    AfterIsMove(list, op, room, keys, finder);
    var pre, after := Padded(list, room), ListAfter(list, op, room, keys, finder);
    MoveAt(pre, FromOf(list, room), IndexIn(after, room), 0);
  }

  /** After an Add or a Change, replaying the operations gives a client that agrees with the new list. */
  lemma AddOrChangeAgrees(rs: seq<Range>, m: Slots, list: seq<RoomId>, op: ListOp, room: RoomId,
                          keys: seq<SortKey>, finder: Finder)
    requires Valid(rs) && NoDup(list) && OthersSorted(list, room, keys, finder)
    requires !op.Del? && Agrees(rs, m, list)
    ensures var o := ServerOps(rs, list, op, room, keys, finder);
      && o.Done? && Null !in o.ops && Agrees(rs, Replay(rs, m, o.ops), ListAfter(list, op, room, keys, finder))
  {
    if op.Add? || room in list {
      UpdateIsMove(rs, list, op, room, keys, finder);
      var u := UpdateOf(rs, list, op, room, ListAfter(list, op, room, keys, finder));
      MoveAgrees(rs, m, list, Padded(list, room), u);
    }
  }

  lemma {:induction false} ClampAllLength(moved: seq<Range>, from: int, to: int)
    ensures |ClampAll(moved, from, to)| == |moved|
  {
    if moved != [] {
      ClampAllLength(moved[1..], from, to);
    }
  }

  lemma StartOnTrack(rs: seq<Range>, m: Slots, list: seq<RoomId>, pre: seq<RoomId>, u: Update, moved: seq<Range>)
    requires Valid(rs) && AgreesBut(rs, m, list, u) && IsMove(rs, list, pre, u)
    requires forall r :: r in moved <==> r in rs && Meets(r, u.from, u.to)
    ensures OnTrack(rs, State(m, -1), pre, |list|, u, moved)
  {
    forall r, i | r in rs && In(r, i) && 0 <= i
      ensures
        if r in moved then i < |list| && i != PairOf(u, r).0 ==> At(m, i) == Some(pre[i])
        else i < |u.list| ==> At(m, i) == Some(u.list[i])
    {
      if i < |pre| {
        MoveAt(pre, u.from, u.to, i);
      }
      assert i < |list| ==> pre[..|list|][i] == pre[i];
    }
  }

  lemma FinishedAgrees(rs: seq<Range>, st: State, pre: seq<RoomId>, n: nat, u: Update)
    requires n <= |pre| && OnTrack(rs, st, pre, n, u, [])
    ensures Agrees(rs, Closed(rs, st), u.list)
  {
    forall i | 0 <= i < |u.list| && Tracked(rs, i) ensures At(Closed(rs, st), i) == Some(u.list[i]) {
      var r :| r in rs && In(r, i);
    }
  }

  // ---- removing a room ----

  ghost predicate IsRemoval(rs: seq<Range>, list: seq<RoomId>, u: Update) {
    && u.op.Del? && NoDup(list) && 2 <= |list|
    && 0 <= u.from < |list| && list[u.from] == u.room
    && u.list == RemoveAt(list, u.from) && u.to == |list| - 2
    && (u.wasInside <==> Tracked(rs, u.from))
  }

  /** The last room is removed while some range starts exactly at its index. */
  ghost predicate Overruns(rs: seq<Range>, list: seq<RoomId>, from: int) {
    from == |list| - 1 && exists r :: r in rs && r.lo == from
  }

  lemma RemovalReady(rs: seq<Range>, list: seq<RoomId>, u: Update, r: Range)
    requires Valid(rs) && IsRemoval(rs, list, u) && !Overruns(rs, list, u.from)
    requires r in rs && Meets(r, u.from, u.to)
    ensures r.lo < |list| - 1
    ensures Ready(rs, u, list, |list|, false, r) && Ready(rs, u, list, |list|, true, r)
    ensures IsLone(rs, u, r) ==> Tracked(rs, |list| - 1)
  {
    var n, p := |list|, PairOf(u, r);
    ValidApart(rs, r, r);
    assert u.list[p.1] != u.room;
    if IsLone(rs, u, r) {
      assert DropFits(list, n, u.list, r, p.0);
      forall q | q in rs && q != r && q.lo < n - 1 ensures q.hi < p.0 {
        ValidApart(rs, q, r);
      }
    } else {
      InsideApart(rs, n - 1, r);
      assert SwapFits(list, n, u.list, r, p);
    }
  }

  lemma StartRemoval(rs: seq<Range>, m: Slots, list: seq<RoomId>, u: Update, moved: seq<Range>)
    requires Valid(rs) && AgreesBut(rs, m, list, u) && IsRemoval(rs, list, u) && !Overruns(rs, list, u.from)
    requires forall r :: r in moved <==> r in rs && Meets(r, u.from, u.to)
    ensures OnTrack(rs, State(m, -1), list, |list|, u, moved)
  {
    var last := |list| - 1;
    forall r, i | r in rs && In(r, i) && 0 <= i
      ensures
        if r in moved then i <= last && i != PairOf(u, r).0 ==> At(m, i) == Some(list[i])
        else i < |u.list| ==> At(m, i) == Some(u.list[i])
    {
    }
    forall r | r in moved && IsLone(rs, u, r) && PairOf(u, r).0 < last ensures At(m, last) == Some(list[last]) {
      RemovalReady(rs, list, u, r);
      var q :| q in rs && In(q, last);
      ValidApart(rs, q, r);
    }
  }

  lemma RemovalAgrees(rs: seq<Range>, m: Slots, list: seq<RoomId>, u: Update)
    requires Valid(rs) && IsRemoval(rs, list, u) && !Overruns(rs, list, u.from) && AgreesBut(rs, m, list, u)
    ensures var o := UpdateOutcome(rs, u);
      && o.Done? && Null !in o.ops && Agrees(rs, Replay(rs, m, o.ops), u.list)
  {
    var moved := MovedRanges(rs, u.from, u.to);
    MovedRangesExact(rs, u.from, u.to);
    forall r | r in moved ensures Ready(rs, u, list, |list|, |moved| == 1, r) && r.lo < |list| - 1 {
      RemovalReady(rs, list, u, r);
    }
    StartRemoval(rs, m, list, u, moved);
    ReadyAgrees(rs, State(m, -1), list, |list|, u);
  }

  lemma RemovalUpdate(rs: seq<Range>, list: seq<RoomId>, room: RoomId, keys: seq<SortKey>, finder: Finder)
    requires NoDup(list) && room in list && 2 <= |list|
    ensures var after := ListAfter(list, Del, room, keys, finder);
      after != [] && IsRemoval(rs, list, UpdateOf(rs, list, Del, room, after))
  {
  }

  /** When a removal cannot be answered, or is answered with a null operation. */
  ghost predicate DelFails(rs: seq<Range>, list: seq<RoomId>, room: RoomId) {
    room in list && if |list| == 1 then !Tracked(rs, 0) else Overruns(rs, list, IndexIn(list, room))
  }

  /** A Del whose operations end the response leaves the client in agreement, whatever was removed. */
  lemma DelAgrees(rs: seq<Range>, m: Slots, list: seq<RoomId>, room: RoomId, keys: seq<SortKey>, finder: Finder)
    requires Valid(rs) && NoDup(list) && Agrees(rs, m, list) && !DelFails(rs, list, room)
    ensures var o := ServerOps(rs, list, Del, room, keys, finder);
      && o.Done? && Null !in o.ops
      && Agrees(rs, Replay(rs, m, o.ops), ListAfter(list, Del, room, keys, finder))
  {
    if room in list && 2 <= |list| {
      RemovalUpdate(rs, list, room, keys, finder);
      var u := UpdateOf(rs, list, Del, room, ListAfter(list, Del, room, keys, finder));
      AgreesEnough(rs, m, list, u);
      RemovalAgrees(rs, m, list, u);
    }
  }

  lemma {:induction false} PanicsAt(rs: seq<Range>, u: Update, pairs: seq<Pair>, single: bool, k: nat)
    requires k < |pairs| && !(0 <= pairs[k].1 < |u.list|)
    ensures PairsOutcome(rs, u, pairs, single).Panic?
  {
    if k > 0 {
      PanicsAt(rs, u, pairs[1..], single, k - 1);
    }
  }

  lemma {:induction false} ClampAllAt(moved: seq<Range>, from: int, to: int, k: nat)
    requires k < |moved|
    ensures |ClampAll(moved, from, to)| == |moved| && ClampAll(moved, from, to)[k] == ClampPair(moved[k], from, to)
  {
    ClampAllLength(moved, from, to);
    if k > 0 {
      ClampAllAt(moved[1..], from, to, k - 1);
    }
  }

  /** The excluded removals are exactly those that fail: an index past the end, or a null operation. */
  lemma DelFailsExactly(rs: seq<Range>, list: seq<RoomId>, room: RoomId, keys: seq<SortKey>, finder: Finder)
    requires Valid(rs) && NoDup(list)
    ensures var o := ServerOps(rs, list, Del, room, keys, finder);
      o.Panic? || Null in o.ops <==> DelFails(rs, list, room)
  {
    var mirror: Slots := map i | 0 <= i < |list| :: Some(list[i]);
    if !DelFails(rs, list, room) {
      DelAgrees(rs, mirror, list, room, keys, finder);
    } else if 2 <= |list| {
      RemovalUpdate(rs, list, room, keys, finder);
      var u := UpdateOf(rs, list, Del, room, ListAfter(list, Del, room, keys, finder));
      var r :| r in rs && r.lo == u.from;
      var moved := MovedRanges(rs, u.from, u.to);
      var pairs := ClampAll(moved, u.from, u.to);
      MovedRangesExact(rs, u.from, u.to);
      ValidApart(rs, r, r);
      assert r in moved;
      var k :| 0 <= k < |moved| && moved[k] == r;
      ClampAllAt(moved, u.from, u.to, k);
      PanicsAt(rs, u, pairs, |pairs| == 1, k);
    }
  }
}
