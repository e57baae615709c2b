/** state/storage.go: the two folds over a user's membership log, and the NID ranges they may see. */
module Visibility {
  import opened Common

  datatype Membership = Join | Leave | Ban | Invite | Knock

  /** A membership event of the user. */
  datatype Change = Change(room: RoomId, nid: int, membership: Membership)

  datatype NidRange = NidRange(first: int, last: int)

  predicate Removes(m: Membership) { m == Leave || m == Ban }

  // ---- the joined rooms ----

  /** The NID of the join under which the user is still joined to the room. */
  function JoinNid(log: seq<Change>, room: RoomId): Option<int> {
    if log == [] then None
    else
      var last := log[|log| - 1];
      var before := JoinNid(log[..|log| - 1], room);
      if last.room != room then before
      else if last.membership == Join then (if before.Some? then before else Some(last.nid))
      else if Removes(last.membership) then None
      else before
  }

  ghost predicate JoinsRoom(log: seq<Change>, room: RoomId, i: int) {
    0 <= i < |log| && log[i].room == room && log[i].membership == Join
  }

  ghost predicate LeavesRoom(log: seq<Change>, room: RoomId, i: int) {
    0 <= i < |log| && log[i].room == room && (log[i].membership == Leave || log[i].membership == Ban)
  }

  /** The user joined at `i` and has not left or been banned since, nor had they been joined already. */
  ghost predicate JoinedSince(log: seq<Change>, room: RoomId, i: int) {
    && JoinsRoom(log, room, i) && (forall j :: i < j ==> !LeavesRoom(log, room, j))
    && forall j :: j < i && JoinsRoom(log, room, j) ==> exists k :: j < k < i && LeavesRoom(log, room, k)
  }

  /** The user is joined exactly since the first join after they last left or were banned, if there is one. */
  lemma {:induction false} JoinedExactly(log: seq<Change>, room: RoomId)
    ensures forall i :: JoinedSince(log, room, i) ==> JoinNid(log, room) == Some(log[i].nid)
    ensures JoinNid(log, room).Some? ==> exists i :: JoinedSince(log, room, i)
  {
    if log != [] {
      var n := |log| - 1;
      var init := log[..n];
      JoinedExactly(init, room);
      forall i | i < n ensures JoinedSince(log, room, i) <==> JoinedSince(init, room, i) && !LeavesRoom(log, room, n) {
        JoinedSinceLonger(log, room, i);
      }
      if JoinNid(init, room).None? && JoinsRoom(log, room, n) {
        NotJoinedBefore(log, room);
      } else if JoinedSince(log, room, n) && JoinNid(init, room).Some? {
        var i :| JoinedSince(init, room, i);
        assert JoinsRoom(log, room, i);
      }
    }
  }

  lemma JoinedSinceLonger(log: seq<Change>, room: RoomId, i: int)
    requires log != [] && i < |log| - 1
    ensures JoinedSince(log, room, i) <==>
      JoinedSince(log[..|log| - 1], room, i) && !LeavesRoom(log, room, |log| - 1)
  {
    var init := log[..|log| - 1];
    assert forall j :: j < |init| ==> (JoinsRoom(log, room, j) <==> JoinsRoom(init, room, j));
    assert forall j :: j < |init| ==> (LeavesRoom(log, room, j) <==> LeavesRoom(init, room, j));
  }

  /** If nobody counts as joined, every earlier join has a leave behind it. */
  lemma {:induction false} NotJoinedBefore(log: seq<Change>, room: RoomId)
    requires log != [] && JoinsRoom(log, room, |log| - 1) && JoinNid(log[..|log| - 1], room).None?
    ensures JoinedSince(log, room, |log| - 1)
  {
    forall j | j < |log| - 1 && JoinsRoom(log, room, j)
      ensures exists k :: j < k < |log| - 1 && LeavesRoom(log, room, k)
    {
      LeftAfterJoin(log[..|log| - 1], room, j);
      var k :| j < k < |log| - 1 && LeavesRoom(log[..|log| - 1], room, k);
      assert LeavesRoom(log, room, k);
    }
  }

  lemma {:induction false} LeftAfterJoin(log: seq<Change>, room: RoomId, j: int)
    requires JoinNid(log, room).None? && JoinsRoom(log, room, j)
    ensures exists k :: j < k < |log| && LeavesRoom(log, room, k)
  {
    var n := |log| - 1;
    if LeavesRoom(log, room, n) {
      assert j < n;
    } else {
      assert j < n && JoinsRoom(log[..n], room, j);
      LeftAfterJoin(log[..n], room, j);
      var k :| j < k < n && LeavesRoom(log[..n], room, k);
      assert LeavesRoom(log, room, k);
    }
  }

  // ---- one room's visible range ----

  /** The scan's variables: whether joined, since when, and the last range it has closed. */
  datatype Scan = Scan(joined: bool, start: int, closed: Option<NidRange>)

  function Scanned(joined: bool, from: int, log: seq<Change>): Scan {
    if log == [] then Scan(joined, if joined then from else -1, None)
    else
      var s := Scanned(joined, from, log[..|log| - 1]);
      var last := log[|log| - 1];
      if s.joined && Removes(last.membership) then
        Scan(false, s.start, Some(NidRange(s.start, last.nid)))
      else if !s.joined && last.membership == Join then Scan(true, last.nid, s.closed)
      else if !s.joined && last.membership == Invite then s.(closed := Some(NidRange(last.nid, last.nid)))
      else s
  }

  function Visible(joined: bool, from: int, to: int, log: seq<Change>): NidRange {
    var s := Scanned(joined, from, log);
    if log == [] then NidRange(from, to)
    else if s.joined then NidRange(s.start, to)
    else if s.closed.Some? then s.closed.value
    else NidRange(0, 0)
  }

  method CalculateVisibleEventNids(joined: bool, from: int, to: int, log: seq<Change>) returns (range: NidRange)
    ensures range == Visible(joined, from, to, log)
  {
    if |log| == 0 {
      return NidRange(from, to);
    }
    var result: seq<NidRange> := [];
    var isJoined := joined;
    var start := -1;
    if isJoined {
      start := from;
    }
    for i := 0 to |log|
      invariant
        var s := Scanned(joined, from, log[..i]);
        && s.joined == isJoined && (isJoined ==> s.start == start)
        && s.closed == if result == [] then None else Some(result[|result| - 1])
    {
      assert log[..i + 1][..i] == log[..i];
      var valid := false;
      if isJoined && (log[i].membership == Leave || log[i].membership == Ban) {
        valid := true;
      } else if !isJoined && log[i].membership == Join {
        valid := true;
      } else if !isJoined && log[i].membership == Invite {
        result := result + [NidRange(log[i].nid, log[i].nid)];
        continue;
      }
      if !valid {
        continue;
      }
      if isJoined {
        result := result + [NidRange(start, log[i].nid)];
        isJoined := false;
      } else {
        start := log[i].nid;
        isJoined := true;
      }
    }
    assert log[..|log|] == log;
    if isJoined {
      result := result + [NidRange(start, to)];
    }
    if |result| == 0 {
      return NidRange(0, 0);
    }
    return result[|result| - 1];
  }

  method DetermineJoinedRooms(log: seq<Change>) returns (timings: map<RoomId, int>)
    ensures forall room :: room in timings <==> JoinNid(log, room).Some?
    ensures forall room :: room in timings ==> JoinNid(log, room) == Some(timings[room])
  {
    timings := map[];
    for i := 0 to |log|
      invariant forall room :: room in timings <==> JoinNid(log[..i], room).Some?
      invariant forall room :: room in timings ==> JoinNid(log[..i], room) == Some(timings[room])
    {
      assert log[..i + 1][..i] == log[..i];
      if log[i].membership == Join {
        if log[i].room !in timings {
          timings := timings[log[i].room := log[i].nid];
        }
      } else if log[i].membership == Ban || log[i].membership == Leave {
        timings := timings - {log[i].room};
      }
    }
    assert log[..|log|] == log;
  }

  // ---- the folds agree ----

  function OfRoom(log: seq<Change>, room: RoomId): seq<Change> {
    if log == [] then []
    else OfRoom(log[..|log| - 1], room) + if log[|log| - 1].room == room then [log[|log| - 1]] else []
  }

  /** A log up to `from` and the changes after it. */
  ghost predicate SplitAt(before: seq<Change>, delta: seq<Change>, from: int) {
    && (forall i :: 0 <= i < |before| ==> before[i].nid <= from)
    && (forall i :: 0 <= i < |delta| ==> from < delta[i].nid)
  }

  lemma {:induction false} JoinNidBound(log: seq<Change>, room: RoomId, from: int)
    requires forall i :: 0 <= i < |log| ==> log[i].nid <= from
    ensures JoinNid(log, room).Some? ==> JoinNid(log, room).value <= from
  {
    if log != [] {
      JoinNidBound(log[..|log| - 1], room, from);
    }
  }

  /**
   * The range last closed, said with the other fold: the last change in the delta that removed a joined user,
   * from their join or from `from` on, or that invited a user who was not joined.
   */
  function LastClosed(before: seq<Change>, delta: seq<Change>, from: int, room: RoomId): Option<NidRange> {
    if delta == [] then None
    else
      var init, last := delta[..|delta| - 1], delta[|delta| - 1];
      var join := JoinNid(before + init, room);
      if last.room == room && join.Some? && Removes(last.membership) then
        Some(NidRange(Max(from, join.value), last.nid))
      else if last.room == room && join.None? && last.membership == Invite then Some(NidRange(last.nid, last.nid))
      else LastClosed(before, init, from, room)
  }

  lemma {:induction false} ScanTracksJoins(before: seq<Change>, delta: seq<Change>, from: int, room: RoomId)
    requires SplitAt(before, delta, from)
    ensures var s := Scanned(JoinNid(before, room).Some?, from, OfRoom(delta, room));
      var join := JoinNid(before + delta, room);
      && (s.joined <==> join.Some?)
      && (join.Some? ==> s.start == Max(from, join.value))
      && s.closed == LastClosed(before, delta, from, room)
  {
    if delta == [] {
      assert before + delta == before;
      JoinNidBound(before, room, from);
    } else {
      var n := |delta| - 1;
      ScanTracksJoins(before, delta[..n], from, room);
      assert (before + delta)[..|before| + n] == before + delta[..n];
      assert (before + delta)[|before| + n] == delta[n];
      if delta[n].room == room {
        assert OfRoom(delta, room)[..|OfRoom(delta, room)| - 1] == OfRoom(delta[..n], room);
      } else {
        assert OfRoom(delta, room) == OfRoom(delta[..n], room);
      }
    }
  }

  /** What the user may see of the room up to `to`, said with the fold that finds the joined rooms. */
  function VisibleAt(before: seq<Change>, delta: seq<Change>, from: int, to: int, room: RoomId): NidRange {
    var join := JoinNid(before + delta, room);
    var closed := LastClosed(before, delta, from, room);
    if join.Some? then NidRange(Max(from, join.value), to) else if closed.Some? then closed.value else NidRange(0, 0)
  }

  predicate HasRange(before: seq<Change>, delta: seq<Change>, room: RoomId) {
    JoinNid(before, room).Some? || OfRoom(delta, room) != []
  }

  /** The incremental range, computed from the rooms joined at `from`, is the one the whole log determines. */
  lemma VisibleAgrees(before: seq<Change>, delta: seq<Change>, from: int, to: int, room: RoomId)
    requires SplitAt(before, delta, from) && HasRange(before, delta, room)
    ensures Visible(JoinNid(before, room).Some?, from, to, OfRoom(delta, room)) ==
      VisibleAt(before, delta, from, to, room)
  {
    ScanTracksJoins(before, delta, from, room);
  }

  lemma {:induction false} ClosedByChange(before: seq<Change>, delta: seq<Change>, from: int, to: int, room: RoomId)
    requires forall i :: 0 <= i < |delta| ==> delta[i].nid < to
    ensures LastClosed(before, delta, from, room).Some? ==> LastClosed(before, delta, from, room).value.last < to
  {
    if delta != [] {
      ClosedByChange(before, delta[..|delta| - 1], from, to, room);
    }
  }

  lemma {:induction false} JoinNidAbove(log: seq<Change>, room: RoomId, from: int)
    requires forall i :: 0 <= i < |log| ==> from < log[i].nid
    ensures JoinNid(log, room).Some? ==> from < JoinNid(log, room).value
  {
    if log != [] {
      JoinNidAbove(log[..|log| - 1], room, from);
    }
  }

  /** The last change is at `to`, and ends what the user may see of the room: a removal, or an invite from outside. */
  predicate EndsAt(log: seq<Change>, to: int, room: RoomId) {
    && log != []
    && var init, last := log[..|log| - 1], log[|log| - 1];
      last.nid == to && last.room == room &&
      if JoinNid(init, room).Some? then Removes(last.membership) else last.membership == Invite
  }

  lemma ClosedAtEnd(log: seq<Change>, to: int, room: RoomId)
    requires log != [] && log[|log| - 1].nid <= to && forall i :: 0 <= i < |log| - 1 ==> log[i].nid < to
    ensures var closed := LastClosed([], log, 0, room);
      closed.Some? && closed.value.last == to <==> EndsAt(log, to, room)
  {
    assert [] + log[..|log| - 1] == log[..|log| - 1];
    ClosedByChange([], log[..|log| - 1], 0, to, room);
  }

  lemma EndsNotJoined(log: seq<Change>, to: int, room: RoomId)
    requires EndsAt(log, to, room)
    ensures JoinNid(log, room).None?
  {
  }

  /**
   * Read from position 0, the range runs up to `to` exactly when the log says the user is joined, and it then
   * starts at the join, or when a change at `to` itself ends the range there.
   */
  lemma JoinedExactlyWhenOpen(log: seq<Change>, to: int, room: RoomId)
    requires forall i, j :: 0 <= i < j < |log| ==> log[i].nid < log[j].nid
    requires 0 < to && (forall i :: 0 <= i < |log| ==> 0 < log[i].nid <= to) && OfRoom(log, room) != []
    ensures var range := Visible(false, 0, to, OfRoom(log, room));
      && (range.last == to <==> JoinNid(log, room).Some? || EndsAt(log, to, room))
      && (JoinNid(log, room).Some? ==> range == NidRange(JoinNid(log, room).value, to))
  {
    VisibleAgrees([], log, 0, to, room);
    ClosedAtEnd(log, to, room);
    JoinNidAbove(log, room, 0);
    assert [] + log == log;
    if EndsAt(log, to, room) {
      EndsNotJoined(log, to, room);
    }
  }

  // ---- all rooms ----

  method BucketByRoom(delta: seq<Change>) returns (logs: map<RoomId, seq<Change>>)
    ensures forall room :: room in logs <==> OfRoom(delta, room) != []
    ensures forall room :: room in logs ==> logs[room] == OfRoom(delta, room)
  {
    logs := map[];
    for i := 0 to |delta|
      invariant forall room :: room in logs <==> OfRoom(delta[..i], room) != []
      invariant forall room :: room in logs ==> logs[room] == OfRoom(delta[..i], room)
    {
      assert delta[..i + 1][..i] == delta[..i];
      var log := if delta[i].room in logs then logs[delta[i].room] else [];
      logs := logs[delta[i].room := log + [delta[i]]];
    }
    assert delta[..|delta|] == delta;
  }

  /** One range for each room of a set of rooms. */
  method RangesOf(rooms: set<RoomId>, joined: bool, from: int, to: int, logs: map<RoomId, seq<Change>>)
    returns (result: map<RoomId, NidRange>)
    ensures result.Keys == rooms
    ensures forall room :: room in rooms ==>
      result[room] == Visible(joined, from, to, if room in logs then logs[room] else [])
  {
    result := map[];
    var left := rooms;
    while left != {}
      invariant left <= rooms && result.Keys == rooms - left
      invariant forall room :: room in result ==>
        result[room] == Visible(joined, from, to, if room in logs then logs[room] else [])
      decreases |left|
    {
      var room :| room in left;
      var range := CalculateVisibleEventNids(joined, from, to, if room in logs then logs[room] else []);
      result := result[room := range];
      left := left - {room};
    }
  }

  /**
   * The rooms joined at `from` and the rooms with changes since, each with its range; `before` and `delta` are
   * the user's membership events up to `from` and from there to `to`.
   */
  method VisibleEventNidsBetween(before: seq<Change>, delta: seq<Change>, from: int, to: int)
    returns (result: map<RoomId, NidRange>)
    requires SplitAt(before, delta, from)
    ensures forall room :: room in result <==> HasRange(before, delta, room)
    ensures forall room :: room in result ==> result[room] == VisibleAt(before, delta, from, to, room)
  {
    var timings := DetermineJoinedRooms(before);
    var logs := BucketByRoom(delta);
    var joined := RangesOf(timings.Keys, true, from, to, logs);
    var others := RangesOf(logs.Keys - timings.Keys, false, from, to, logs);
    result := joined + others;
    forall room | room in result
      ensures result[room] == VisibleAt(before, delta, from, to, room)
    {
      VisibleAgrees(before, delta, from, to, room);
    }
  }
}
