/** state/receipt_table.go and sync3/extensions/receipts.go: packing receipts into one m.receipt event per room. */
module Receipts {
  import opened Common

  datatype EventId = EventId(token: nat)
  datatype UserId = UserId(token: nat)

  datatype Receipt = Receipt(room: RoomId, event: EventId, user: UserId, ts: int, thread: string, isPrivate: bool)

  datatype Info = Info(ts: int, thread: string)
  datatype Content = Content(read: map<UserId, Info>, readPrivate: map<UserId, Info>)
  type Edu = map<EventId, Content>

  /** One place in the packed event: at most one receipt of either kind for each event and user. */
  datatype Slot = Slot(event: EventId, user: UserId, isPrivate: bool)

  function SlotOf(r: Receipt): Slot { Slot(r.event, r.user, r.isPrivate) }

  function InfoOf(r: Receipt): Info { Info(r.ts, r.thread) }

  function ContentOf(edu: Edu, event: EventId): Content {
    if event in edu then edu[event] else Content(map[], map[])
  }

  function Half(c: Content, isPrivate: bool): map<UserId, Info> { if isPrivate then c.readPrivate else c.read }

  function WithHalf(c: Content, isPrivate: bool, half: map<UserId, Info>): Content {
    if isPrivate then c.(readPrivate := half) else c.(read := half)
  }

  function Lookup(edu: Edu, slot: Slot): Option<Info> {
    var half := Half(ContentOf(edu, slot.event), slot.isPrivate);
    if slot.user in half then Some(half[slot.user]) else None
  }

  // ---- packing ----

  function Place(edu: Edu, r: Receipt): Edu {
    var c := ContentOf(edu, r.event);
    var half := Half(c, r.isPrivate);
    edu[r.event := WithHalf(c, r.isPrivate,
                            if r.user !in half || r.thread == "" then half[r.user := InfoOf(r)] else half)]
  }

  function Pack(rs: seq<Receipt>): Edu {
    if rs == [] then map[] else Place(Pack(rs[..|rs| - 1]), rs[|rs| - 1])
  }

  /** No event is mentioned without a receipt. */
  ghost predicate Proper(edu: Edu) {
    forall e :: e in edu ==> edu[e].read != map[] || edu[e].readPrivate != map[]
  }

  lemma PlaceLookup(edu: Edu, r: Receipt, slot: Slot)
    ensures var was := Lookup(edu, slot);
      Lookup(Place(edu, r), slot) ==
      if slot == SlotOf(r) && (was.None? || r.thread == "") then Some(InfoOf(r)) else was
  {
  }

  lemma PlaceProper(edu: Edu, r: Receipt)
    requires Proper(edu)
    ensures Proper(Place(edu, r))
  {
    var half := Half(ContentOf(edu, r.event), r.isPrivate);
    assert r.user in Half(Place(edu, r)[r.event], r.isPrivate);
  }

  lemma {:induction false} PackProper(rs: seq<Receipt>)
    ensures Proper(Pack(rs))
  {
    if rs != [] {
      PackProper(rs[..|rs| - 1]);
      PlaceProper(Pack(rs[..|rs| - 1]), rs[|rs| - 1]);
    }
  }

  // ---- MSC4102: an unthreaded receipt wins over a threaded one ----

  function LastUnthreaded(rs: seq<Receipt>, slot: Slot): Option<Info> {
    if rs == [] then None
    else
      var last := rs[|rs| - 1];
      if SlotOf(last) == slot && last.thread == "" then Some(InfoOf(last)) else LastUnthreaded(rs[..|rs| - 1], slot)
  }

  function First(rs: seq<Receipt>, slot: Slot): Option<Info> {
    if rs == [] then None else if SlotOf(rs[0]) == slot then Some(InfoOf(rs[0])) else First(rs[1..], slot)
  }

  lemma {:induction false} FirstAppend(rs: seq<Receipt>, r: Receipt, slot: Slot)
    ensures First(rs + [r], slot) ==
      if First(rs, slot).Some? then First(rs, slot) else if SlotOf(r) == slot then Some(InfoOf(r)) else None
  {
    if rs == [] {
      assert rs + [r] == [r];
    } else {
      FirstAppend(rs[1..], r, slot);
      assert (rs + [r])[1..] == rs[1..] + [r];
    }
  }

  lemma {:induction false} UnthreadedHasFirst(rs: seq<Receipt>, slot: Slot)
    ensures LastUnthreaded(rs, slot).Some? ==> First(rs, slot).Some?
  {
    if rs != [] {
      var init := rs[..|rs| - 1];
      UnthreadedHasFirst(init, slot);
      FirstAppend(init, rs[|rs| - 1], slot);
      assert init + [rs[|rs| - 1]] == rs;
    }
  }

  /** Each slot holds the last unthreaded receipt for it, and the first one only if there is none. */
  lemma {:induction false} PackKeepsWinner(rs: seq<Receipt>, slot: Slot)
    ensures Lookup(Pack(rs), slot) ==
      if LastUnthreaded(rs, slot).Some? then LastUnthreaded(rs, slot) else First(rs, slot)
  {
    if rs != [] {
      var init, last := rs[..|rs| - 1], rs[|rs| - 1];
      PackKeepsWinner(init, slot);
      PlaceLookup(Pack(init), last, slot);
      FirstAppend(init, last, slot);
      UnthreadedHasFirst(init, slot);
      assert init + [last] == rs;
    }
  }

  ghost predicate Same(r: Receipt, s: Receipt) { r.event == s.event && r.user == s.user && r.isPrivate == s.isPrivate }

  /** The last unthreaded receipt of its kind for its event and user, or the first of all when all are threaded. */
  ghost predicate Wins(rs: seq<Receipt>, i: nat) {
    i < |rs| &&
    if rs[i].thread == "" then forall j :: i < j < |rs| && Same(rs[j], rs[i]) ==> rs[j].thread != ""
    else forall j :: 0 <= j < |rs| && Same(rs[j], rs[i]) ==> i <= j && rs[j].thread != ""
  }

  ghost predicate WonBy(rs: seq<Receipt>, i: nat, event: EventId, user: UserId, isPrivate: bool) {
    Wins(rs, i) && rs[i].event == event && rs[i].user == user && rs[i].isPrivate == isPrivate
  }

  ghost predicate Given(rs: seq<Receipt>, event: EventId, user: UserId, isPrivate: bool) {
    exists i :: 0 <= i < |rs| && rs[i].event == event && rs[i].user == user && rs[i].isPrivate == isPrivate
  }

  lemma WinsBefore(rs: seq<Receipt>, r: Receipt, i: nat)
    requires Wins(rs + [r], i) && i < |rs|
    ensures Wins(rs, i)
    ensures Same(r, rs[i]) ==> r.thread != ""
  {
    var more := rs + [r];
    assert more[|rs|] == r && more[i] == rs[i];
    forall j | 0 <= j < |rs|
      ensures more[j] == rs[j]
    {
    }
  }

  lemma {:induction false} PackedIsGiven(rs: seq<Receipt>, event: EventId, user: UserId)
    requires event in Pack(rs)
    ensures user in Pack(rs)[event].read ==> Given(rs, event, user, false)
    ensures user in Pack(rs)[event].readPrivate ==> Given(rs, event, user, true)
  {
    var n := |rs| - 1;
    assert rs[..n] + [rs[n]] == rs;
    if event in Pack(rs[..n]) {
      PackedIsGiven(rs[..n], event, user);
      assert forall i :: 0 <= i < n ==> rs[..n][i] == rs[i];
    }
  }

  /** A winning receipt is shown: a private one under m.read.private, any other under m.read. */
  lemma {:induction false} WinnerShown(rs: seq<Receipt>, i: nat)
    requires Wins(rs, i)
    ensures rs[i].event in Pack(rs)
    ensures var c, r := Pack(rs)[rs[i].event], rs[i];
      var shown := if r.isPrivate then c.readPrivate else c.read;
      r.user in shown && shown[r.user] == Info(r.ts, r.thread)
  {
    var n := |rs| - 1;
    var init, last := rs[..n], rs[n];
    assert init + [last] == rs;
    if i < n {
      WinsBefore(init, last, i);
      WinnerShown(init, i);
    } else if last.thread != "" && last.event in Pack(init) {
      PackedIsGiven(init, last.event, last.user);
      assert forall j :: 0 <= j < n ==> init[j] == rs[j];
    }
  }

  lemma {:induction false} SomeWinner(rs: seq<Receipt>, event: EventId, user: UserId, isPrivate: bool)
    requires Given(rs, event, user, isPrivate)
    ensures exists i :: WonBy(rs, i, event, user, isPrivate)
  {
    var n := |rs| - 1;
    var init, last := rs[..n], rs[n];
    assert forall j :: 0 <= j < n ==> init[j] == rs[j];
    var mine := last.event == event && last.user == user && last.isPrivate == isPrivate;
    if Given(init, event, user, isPrivate) && !(mine && last.thread == "") {
      SomeWinner(init, event, user, isPrivate);
      var i :| WonBy(init, i, event, user, isPrivate);
      assert WonBy(rs, i, event, user, isPrivate);
    } else {
      assert WonBy(rs, n, event, user, isPrivate);
    }
  }

  /** Nothing but winning receipts is shown. */
  lemma ShownHasWinner(rs: seq<Receipt>, event: EventId, user: UserId)
    requires event in Pack(rs)
    ensures user in Pack(rs)[event].read ==> exists i :: WonBy(rs, i, event, user, false)
    ensures user in Pack(rs)[event].readPrivate ==> exists i :: WonBy(rs, i, event, user, true)
  {
    PackedIsGiven(rs, event, user);
    if user in Pack(rs)[event].read {
      SomeWinner(rs, event, user, false);
    }
    if user in Pack(rs)[event].readPrivate {
      SomeWinner(rs, event, user, true);
    }
  }

  // ---- unpacking ----

  ghost predicate Distinct(rs: seq<Receipt>) {
    forall i, j :: 0 <= i < j < |rs| ==> SlotOf(rs[i]) != SlotOf(rs[j])
  }

  ghost predicate Fills(rs: seq<Receipt>, slot: Slot) { exists i :: 0 <= i < |rs| && SlotOf(rs[i]) == slot }

  /** The receipts of a packed event, each once, in any order. */
  ghost predicate Unpacked(edu: Edu, rs: seq<Receipt>) {
    && (forall i :: 0 <= i < |rs| ==> Lookup(edu, SlotOf(rs[i])) == Some(InfoOf(rs[i])))
    && Distinct(rs)
    && (forall slot :: Lookup(edu, slot).Some? ==> Fills(rs, slot))
  }

  lemma {:induction false} PackDistinct(rs: seq<Receipt>, slot: Slot)
    requires Distinct(rs)
    ensures Lookup(Pack(rs), slot).Some? ==>
      exists i :: 0 <= i < |rs| && SlotOf(rs[i]) == slot && Lookup(Pack(rs), slot) == Some(InfoOf(rs[i]))
    ensures forall i :: 0 <= i < |rs| && SlotOf(rs[i]) == slot ==> Lookup(Pack(rs), slot) == Some(InfoOf(rs[i]))
  {
    if rs != [] {
      var n := |rs| - 1;
      PackDistinct(rs[..n], slot);
      PlaceLookup(Pack(rs[..n]), rs[n], slot);
    }
  }

  lemma SameHalf(a: Edu, b: Edu, e: EventId, isPrivate: bool)
    requires forall slot :: Lookup(a, slot) == Lookup(b, slot)
    ensures Half(ContentOf(a, e), isPrivate) == Half(ContentOf(b, e), isPrivate)
  {
    var p, q := Half(ContentOf(a, e), isPrivate), Half(ContentOf(b, e), isPrivate);
    forall u
      ensures u in p <==> u in q
      ensures u in p && u in q ==> p[u] == q[u]
    {
      assert Lookup(a, Slot(e, u, isPrivate)) == Lookup(b, Slot(e, u, isPrivate));
    }
  }

  lemma SameLookups(a: Edu, b: Edu)
    requires Proper(a) && Proper(b) && (forall slot :: Lookup(a, slot) == Lookup(b, slot))
    ensures a == b
  {
    forall e
      ensures e in a <==> e in b
      ensures e in a && e in b ==> a[e] == b[e]
    {
      SameHalf(a, b, e, false);
      SameHalf(a, b, e, true);
      assert ContentOf(a, e) == ContentOf(b, e);
    }
  }

  /** Unpacking and packing again is the identity, whatever order the receipts come out in. */
  lemma RoundTrip(edu: Edu, rs: seq<Receipt>)
    requires Proper(edu) && Unpacked(edu, rs)
    ensures Pack(rs) == edu
  {
    forall slot
      ensures Lookup(Pack(rs), slot) == Lookup(edu, slot)
    {
      PackDistinct(rs, slot);
    }
    PackProper(rs);
    SameLookups(Pack(rs), edu);
  }

  /** So a live receipt can be added by unpacking, appending and packing. */
  lemma RepackIsPlace(edu: Edu, rs: seq<Receipt>, r: Receipt)
    requires Proper(edu) && Unpacked(edu, rs)
    ensures Pack(rs + [r]) == Place(edu, r)
  {
    RoundTrip(edu, rs);
    assert (rs + [r])[..|rs|] == rs;
  }

  method PackReceiptsIntoEdu(receipts: seq<Receipt>) returns (edu: Edu)
    ensures edu == Pack(receipts) && Proper(edu)
  {
    PackProper(receipts);
    edu := map[];
    for i := 0 to |receipts|
      invariant edu == Pack(receipts[..i])
    {
      assert receipts[..i + 1][..i] == receipts[..i];
      var r := receipts[i];
      var forEvent := if r.event in edu then edu[r.event] else Content(map[], map[]);
      if r.isPrivate {
        var exists_ := r.user in forEvent.readPrivate;
        if !exists_ || (exists_ && r.thread == "") {
          forEvent := forEvent.(readPrivate := forEvent.readPrivate[r.user := Info(r.ts, r.thread)]);
        }
      } else {
        var exists_ := r.user in forEvent.read;
        if !exists_ || (exists_ && r.thread == "") {
          forEvent := forEvent.(read := forEvent.read[r.user := Info(r.ts, r.thread)]);
        }
      }
      edu := edu[r.event := forEvent];
    }
    assert receipts[..|receipts|] == receipts;
  }

  /** The receipts of one half of one event's content, in the arbitrary order of a map. */
  method UnpackHalf(room: RoomId, event: EventId, half: map<UserId, Info>, isPrivate: bool) returns (rs: seq<Receipt>)
    ensures IsHalf(room, event, half, isPrivate, rs)
  {
    rs := [];
    var left := half.Keys;
    while left != {}
      invariant left <= half.Keys
      invariant IsHalf(room, event, Without(half, left), isPrivate, rs)
      decreases |left|
    {
      var u :| u in left;
      MoreHalf(room, event, half, left, isPrivate, rs, u);
      rs := rs + [Receipt(room, event, u, half[u].ts, half[u].thread, isPrivate)];
      left := left - {u};
    }
    assert Without(half, {}) == half;
  }

  ghost function Without(half: map<UserId, Info>, users: set<UserId>): map<UserId, Info> { half - users }

  ghost predicate IsHalf(room: RoomId, event: EventId, half: map<UserId, Info>, isPrivate: bool, rs: seq<Receipt>) {
    && (forall i :: 0 <= i < |rs| ==>
      && rs[i].user in half
      && rs[i] == Receipt(room, event, rs[i].user, half[rs[i].user].ts, half[rs[i].user].thread, isPrivate))
    && (forall i, j :: 0 <= i < j < |rs| ==> rs[i].user != rs[j].user)
    && (forall u :: u in half ==> exists i :: 0 <= i < |rs| && rs[i].user == u)
  }

  lemma MoreHalf(room: RoomId, event: EventId, half: map<UserId, Info>, left: set<UserId>, isPrivate: bool,
                 rs: seq<Receipt>, u: UserId)
    requires left <= half.Keys && u in left && IsHalf(room, event, Without(half, left), isPrivate, rs)
    ensures IsHalf(room, event, Without(half, left - {u}), isPrivate,
                   rs + [Receipt(room, event, u, half[u].ts, half[u].thread, isPrivate)])
  {
    var more := rs + [Receipt(room, event, u, half[u].ts, half[u].thread, isPrivate)];
    forall v | v in Without(half, left - {u})
      ensures exists i :: 0 <= i < |more| && more[i].user == v
    {
      if v == u {
        assert more[|rs|].user == v;
      } else {
        assert v in Without(half, left);
        var i :| 0 <= i < |rs| && rs[i].user == v;
        assert more[i].user == v;
      }
    }
  }

  /** Every receipt is one of the packed event's, of the given kind. */
  ghost predicate Right(room: RoomId, edu: Edu, isPrivate: bool, rs: seq<Receipt>) {
    forall i :: 0 <= i < |rs| ==> RightAt(room, edu, isPrivate, rs[i])
  }

  ghost predicate RightAt(room: RoomId, edu: Edu, isPrivate: bool, r: Receipt) {
    r.isPrivate == isPrivate && r.room == room && Lookup(edu, SlotOf(r)) == Some(InfoOf(r))
  }

  ghost predicate Covers(edu: Edu, isPrivate: bool, rs: seq<Receipt>) {
    forall slot: Slot :: slot.isPrivate == isPrivate && Lookup(edu, slot).Some? ==> Fills(rs, slot)
  }

  /** All receipts of one kind, each once. */
  ghost predicate IsKind(room: RoomId, edu: Edu, isPrivate: bool, rs: seq<Receipt>) {
    Right(room, edu, isPrivate, rs) && Distinct(rs) && Covers(edu, isPrivate, rs)
  }

  lemma FillsAppend(rs: seq<Receipt>, more: seq<Receipt>, slot: Slot)
    requires Fills(rs, slot) || Fills(more, slot)
    ensures Fills(rs + more, slot)
  {
    if Fills(rs, slot) {
      var i :| 0 <= i < |rs| && SlotOf(rs[i]) == slot;
      assert SlotOf((rs + more)[i]) == slot;
    } else {
      var i :| 0 <= i < |more| && SlotOf(more[i]) == slot;
      assert SlotOf((rs + more)[|rs| + i]) == slot;
    }
  }

  lemma DistinctAppend(rs: seq<Receipt>, more: seq<Receipt>)
    requires Distinct(rs) && Distinct(more)
    requires forall i, j :: 0 <= i < |rs| && 0 <= j < |more| ==> SlotOf(rs[i]) != SlotOf(more[j])
    ensures Distinct(rs + more)
  {
    var all := rs + more;
    forall i, j | 0 <= i < j < |all|
      ensures SlotOf(all[i]) != SlotOf(all[j])
    {
      assert j >= |rs| ==> all[j] == more[j - |rs|];
      assert i >= |rs| ==> all[i] == more[i - |rs|];
    }
  }

  lemma HalfRight(room: RoomId, edu: Edu, event: EventId, c: Content, isPrivate: bool, rs: seq<Receipt>,
                  half: seq<Receipt>)
    requires event !in edu && Right(room, edu, isPrivate, rs)
    requires IsHalf(room, event, Half(c, isPrivate), isPrivate, half)
    ensures Right(room, edu[event := c], isPrivate, rs + half)
  {
    var all := rs + half;
    forall i | 0 <= i < |all|
      ensures RightAt(room, edu[event := c], isPrivate, all[i])
    {
      if i < |rs| {
        assert RightAt(room, edu, isPrivate, rs[i]) && rs[i].event in edu;
      } else {
        assert all[i] == half[i - |rs|];
      }
    }
  }

  lemma HalfDistinct(room: RoomId, edu: Edu, event: EventId, c: Content, isPrivate: bool, rs: seq<Receipt>,
                     half: seq<Receipt>)
    requires event !in edu && Right(room, edu, isPrivate, rs)
    requires IsHalf(room, event, Half(c, isPrivate), isPrivate, half)
    requires Distinct(rs)
    ensures Distinct(rs + half)
  {
    forall i | 0 <= i < |rs|
      ensures rs[i].event != event
    {
      assert RightAt(room, edu, isPrivate, rs[i]);
    }
    DistinctAppend(rs, half);
  }

  lemma HalfCovers(room: RoomId, edu: Edu, event: EventId, c: Content, isPrivate: bool, rs: seq<Receipt>,
                   half: seq<Receipt>)
    requires Covers(edu, isPrivate, rs) && IsHalf(room, event, Half(c, isPrivate), isPrivate, half)
    ensures Covers(edu[event := c], isPrivate, rs + half)
  {
    var more := edu[event := c];
    forall slot: Slot | slot.isPrivate == isPrivate && Lookup(more, slot).Some?
      ensures Fills(rs + half, slot)
    {
      if slot.event == event {
        var i :| 0 <= i < |half| && half[i].user == slot.user;
        assert SlotOf(half[i]) == slot;
      } else {
        assert Lookup(edu, slot).Some?;
      }
      FillsAppend(rs, half, slot);
    }
  }

  lemma MoreKind(room: RoomId, edu: Edu, event: EventId, c: Content, isPrivate: bool, rs: seq<Receipt>,
                 half: seq<Receipt>)
    requires event !in edu && IsKind(room, edu, isPrivate, rs)
    requires IsHalf(room, event, Half(c, isPrivate), isPrivate, half)
    ensures IsKind(room, edu[event := c], isPrivate, rs + half)
  {
    HalfRight(room, edu, event, c, isPrivate, rs, half);
    HalfDistinct(room, edu, event, c, isPrivate, rs, half);
    HalfCovers(room, edu, event, c, isPrivate, rs, half);
  }

  lemma BothKinds(room: RoomId, edu: Edu, read: seq<Receipt>, readPrivate: seq<Receipt>)
    requires IsKind(room, edu, false, read) && IsKind(room, edu, true, readPrivate)
    ensures Unpacked(edu, read + readPrivate)
  {
    var all := read + readPrivate;
    forall i | 0 <= i < |all|
      ensures Lookup(edu, SlotOf(all[i])) == Some(InfoOf(all[i]))
    {
      if i < |read| {
        assert RightAt(room, edu, false, read[i]);
      } else {
        assert RightAt(room, edu, true, readPrivate[i - |read|]);
      }
    }
    assert forall i :: 0 <= i < |read| ==> RightAt(room, edu, false, read[i]);
    assert forall i :: 0 <= i < |readPrivate| ==> RightAt(room, edu, true, readPrivate[i]);
    DistinctAppend(read, readPrivate);
    forall slot | Lookup(edu, slot).Some?
      ensures Fills(all, slot)
    {
      FillsAppend(read, readPrivate, slot);
    }
  }

  ghost predicate Parts(edu: Edu, done: Edu, left: Edu) { done.Keys !! left.Keys && done + left == edu }

  /** One event's receipts, of both kinds. */
  method UnpackContent(room: RoomId, event: EventId, c: Content, read: seq<Receipt>, readPrivate: seq<Receipt>,
                       ghost done: Edu)
    returns (read': seq<Receipt>, readPrivate': seq<Receipt>)
    requires event !in done && IsKind(room, done, false, read) && IsKind(room, done, true, readPrivate)
    ensures IsKind(room, done[event := c], false, read') && IsKind(room, done[event := c], true, readPrivate')
  {
    var pub := UnpackHalf(room, event, c.read, false);
    var priv := UnpackHalf(room, event, c.readPrivate, true);
    MoreKind(room, done, event, c, false, read, pub);
    MoreKind(room, done, event, c, true, readPrivate, priv);
    return read + pub, readPrivate + priv;
  }

  method UnpackReceiptsFromEdu(room: RoomId, edu: Edu) returns (read: seq<Receipt>, readPrivate: seq<Receipt>)
    ensures IsKind(room, edu, false, read) && IsKind(room, edu, true, readPrivate)
    ensures Unpacked(edu, read + readPrivate)
  {
    read, readPrivate := [], [];
    ghost var done: Edu := map[];
    var left := edu;
    while left.Keys != {}
      invariant Parts(edu, done, left)
      invariant IsKind(room, done, false, read) && IsKind(room, done, true, readPrivate)
      decreases |left.Keys|
    {
      var event :| event in left.Keys;
      read, readPrivate := UnpackContent(room, event, left[event], read, readPrivate, done);
      PartsMoved(edu, done, left, event);
      done, left := done[event := left[event]], left - {event};
    }
    assert done == edu;
    BothKinds(room, edu, read, readPrivate);
  }

  lemma PartsMoved(edu: Edu, done: Edu, left: Edu, event: EventId)
    requires Parts(edu, done, left) && event in left
    ensures Parts(edu, done[event := left[event]], left - {event}) && (left - {event}).Keys == left.Keys - {event}
  {
  }

  // ---- live receipts ----

  /** The packed event of each room with receipts in the response. */
  function Added(rooms: map<RoomId, Edu>, r: Receipt): map<RoomId, Edu> {
    rooms[r.room := Place(if r.room in rooms then rooms[r.room] else map[], r)]
  }

  function AddedAll(rs: seq<Receipt>): map<RoomId, Edu> {
    if rs == [] then map[] else Added(AddedAll(rs[..|rs| - 1]), rs[|rs| - 1])
  }

  function InRoom(rs: seq<Receipt>, room: RoomId): seq<Receipt> {
    if rs == [] then []
    else InRoom(rs[..|rs| - 1], room) + if rs[|rs| - 1].room == room then [rs[|rs| - 1]] else []
  }

  /** Live receipts added one at a time leave each room the packing of all its receipts at once. */
  lemma {:induction false} LiveIsBatch(rs: seq<Receipt>, room: RoomId)
    ensures room in AddedAll(rs) <==> InRoom(rs, room) != []
    ensures room in AddedAll(rs) ==> AddedAll(rs)[room] == Pack(InRoom(rs, room))
  {
    if rs != [] {
      var n := |rs| - 1;
      LiveIsBatch(rs[..n], room);
      if rs[n].room == room {
        assert InRoom(rs, room)[..|InRoom(rs, room)| - 1] == InRoom(rs[..n], room);
      } else {
        assert InRoom(rs, room) == InRoom(rs[..n], room);
      }
    }
  }

  class ReceiptsResponse {
    var rooms: map<RoomId, Edu>

    ghost predicate Valid()
      reads this
    {
      forall room :: room in rooms ==> Proper(rooms[room])
    }

    constructor ()
      ensures Valid() && rooms == map[]
    {
      rooms := map[];
    }

    method AppendLive(receipt: Receipt, inScope: bool)
      requires Valid()
      modifies this
      ensures Valid()
      ensures rooms == if inScope then Added(old(rooms), receipt) else old(rooms)
    {
      if !inScope {
        return;
      }
      if receipt.room !in rooms {
        assert [receipt][..0] == [];
        var edu := PackReceiptsIntoEdu([receipt]);
        rooms := rooms[receipt.room := edu];
      } else {
        var pub, priv := UnpackReceiptsFromEdu(receipt.room, rooms[receipt.room]);
        RepackIsPlace(rooms[receipt.room], pub + priv, receipt);
        var edu := PackReceiptsIntoEdu(pub + priv + [receipt]);
        rooms := rooms[receipt.room := edu];
      }
    }
  }
}
