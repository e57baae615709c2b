/** sync3/tracker.go: who is joined and invited to which rooms. */
module Tracker {
  import opened Common

  /** Users, and the pseudo user under which the global listener registers. */
  datatype UserId = AllUsers | User(token: nat)

  datatype Tracker = Tracker(joined: map<RoomId, set<UserId>>, rooms: map<UserId, set<RoomId>>,
                             invited: map<RoomId, set<UserId>>)

  const NOBODY := Tracker(map[], map[], map[])

  function JoinedIn(t: Tracker, room: RoomId): set<UserId> { if room in t.joined then t.joined[room] else {} }

  function InvitedIn(t: Tracker, room: RoomId): set<UserId> { if room in t.invited then t.invited[room] else {} }

  function RoomsOf(t: Tracker, user: UserId): set<RoomId> { if user in t.rooms then t.rooms[user] else {} }

  /** The room added to each of the users' joined rooms. */
  function WithRoom(rooms: map<UserId, set<RoomId>>, users: seq<UserId>, room: RoomId): map<UserId, set<RoomId>> {
    map u | u in rooms.Keys + Members(users) ::
      (if u in rooms then rooms[u] else {}) + (if u in users then {room} else {})
  }

  /** The room taken from each of the users' joined rooms. */
  function WithoutRoom(rooms: map<UserId, set<RoomId>>, users: set<UserId>, room: RoomId): map<UserId, set<RoomId>> {
    map u | u in rooms :: if u in users then rooms[u] - {room} else rooms[u]
  }

  function Members(users: seq<UserId>): set<UserId> { set u | u in users }

  // ---- the calls ----

  datatype Call =
    | Started(members: map<RoomId, seq<UserId>>)
    | Joined(users: seq<UserId>, room: RoomId)
    | Left(user: UserId, room: RoomId)
    | Invited(users: seq<UserId>, room: RoomId)
    | Reloaded(room: RoomId, joined: seq<UserId>, invited: seq<UserId>)

  predicate CanStart(t: Tracker) { t.joined == map[] && t.rooms == map[] }

  function StartedRooms(members: map<RoomId, seq<UserId>>, user: UserId): set<RoomId> {
    set r | r in members && user in members[r]
  }

  function AllMembers(members: map<RoomId, seq<UserId>>): set<UserId> {
    set r, u | r in members && u in members[r] :: u
  }

  function StartedTracker(t: Tracker, members: map<RoomId, seq<UserId>>): Tracker {
    Tracker(map r | r in members :: Members(members[r]),
            map u | u in AllMembers(members) :: StartedRooms(members, u), t.invited)
  }

  /** None when the call panics. */
  function Next(t: Tracker, call: Call): Option<Tracker> {
    match call
    case Started(members) =>
      if !CanStart(t) then None
      else Some(StartedTracker(t, members))
    case Joined(users, room) =>
      Some(Tracker(t.joined[room := JoinedIn(t, room) + Members(users)],
                   WithRoom(t.rooms, users, room), t.invited[room := InvitedIn(t, room) - Members(users)]))
    case Left(user, room) =>
      Some(Tracker(t.joined[room := JoinedIn(t, room) - {user}], t.rooms[user := RoomsOf(t, user) - {room}],
                   t.invited[room := InvitedIn(t, room) - {user}]))
    case Invited(users, room) => Some(t.(invited := t.invited[room := InvitedIn(t, room) + Members(users)]))
    case Reloaded(room, joined, invited) =>
      Some(Tracker(t.joined[room := Members(joined)],
                   WithoutRoom(WithRoom(t.rooms, joined, room), JoinedIn(t, room) - Members(joined), room),
                   t.invited[room := Members(invited)]))
  }

  function Run(calls: seq<Call>): Option<Tracker> {
    if calls == [] then Some(NOBODY)
    else
      var t := Run(calls[..|calls| - 1]);
      if t.None? then None else Next(t.value, calls[|calls| - 1])
  }

  // ---- the meaning: one user and one room at a time ----

  /** Whether the last call about this user and room left them joined. */
  predicate IsJoined(calls: seq<Call>, user: UserId, room: RoomId) {
    if calls == [] then false
    else
      var before := IsJoined(calls[..|calls| - 1], user, room);
      match calls[|calls| - 1]
      case Started(members) => room in members && user in members[room]
      case Joined(users, r) => before || (r == room && user in users)
      case Left(u, r) => before && !(r == room && u == user)
      case Invited(_, _) => before
      case Reloaded(r, joined, _) => if r == room then user in joined else before
  }

  /** Whether the last call about this user and room left them invited. */
  predicate IsInvited(calls: seq<Call>, user: UserId, room: RoomId) {
    if calls == [] then false
    else
      var before := IsInvited(calls[..|calls| - 1], user, room);
      match calls[|calls| - 1]
      case Started(_) => before
      case Joined(users, r) => before && !(r == room && user in users)
      case Left(u, r) => before && !(r == room && u == user)
      case Invited(users, r) => before || (r == room && user in users)
      case Reloaded(r, _, invited) => if r == room then user in invited else before
  }

  /** The two directions of the joined relation, of which the tracker keeps both. */
  ghost predicate Inverse(t: Tracker) {
    forall user, room :: user in JoinedIn(t, room) <==> room in RoomsOf(t, user)
  }

  lemma NextKeepsInverse(t: Tracker, call: Call)
    requires Inverse(t) && Next(t, call).Some?
    ensures Inverse(Next(t, call).value)
  {
    var t' := Next(t, call).value;
    forall user, room
      ensures user in JoinedIn(t', room) <==> room in RoomsOf(t', user)
    {
      assert user in JoinedIn(t, room) <==> room in RoomsOf(t, user);
    }
  }

  /** What one call says of one user and room. */
  lemma NextExactly(t: Tracker, call: Call, user: UserId, room: RoomId)
    requires Next(t, call).Some? && Inverse(t)
    ensures var t' := Next(t, call).value;
      && (user in JoinedIn(t', room) <==>
          match call
          case Started(members) => room in members && user in members[room]
          case Joined(users, r) => user in JoinedIn(t, room) || (r == room && user in users)
          case Left(u, r) => user in JoinedIn(t, room) && !(r == room && u == user)
          case Invited(_, _) => user in JoinedIn(t, room)
          case Reloaded(r, joined, _) => if r == room then user in joined else user in JoinedIn(t, room))
      && (user in InvitedIn(t', room) <==>
          match call
          case Started(_) => user in InvitedIn(t, room)
          case Joined(users, r) => user in InvitedIn(t, room) && !(r == room && user in users)
          case Left(u, r) => user in InvitedIn(t, room) && !(r == room && u == user)
          case Invited(users, r) => user in InvitedIn(t, room) || (r == room && user in users)
          case Reloaded(r, _, invited) => if r == room then user in invited else user in InvitedIn(t, room))
  {
  }

  /**
   * After any run of calls that does not panic, all three maps say exactly what the last call about each
   * user and room said.
   */
  lemma {:induction false} TracksLastCall(calls: seq<Call>, user: UserId, room: RoomId)
    requires Run(calls).Some?
    ensures Inverse(Run(calls).value)
    ensures user in JoinedIn(Run(calls).value, room) <==> IsJoined(calls, user, room)
    ensures room in RoomsOf(Run(calls).value, user) <==> IsJoined(calls, user, room)
    ensures user in InvitedIn(Run(calls).value, room) <==> IsInvited(calls, user, room)
  {
    if calls != [] {
      var init := calls[..|calls| - 1];
      TracksLastCall(init, user, room);
      NextKeepsInverse(Run(init).value, calls[|calls| - 1]);
      NextExactly(Run(init).value, calls[|calls| - 1], user, room);
    }
  }

  // ---- the tracker as it is written ----

  lemma WithRoomAppend(rooms: map<UserId, set<RoomId>>, users: seq<UserId>, u: UserId, room: RoomId)
    ensures var done := WithRoom(rooms, users, room);
      WithRoom(rooms, users + [u], room) == done[u := (if u in done then done[u] else {}) + {room}]
  {
    assert Members(users + [u]) == Members(users) + {u};
    var done, more := WithRoom(rooms, users, room), WithRoom(rooms, users + [u], room);
    var next := done[u := (if u in done then done[u] else {}) + {room}];
    assert more.Keys == next.Keys;
    forall v | v in more
      ensures more[v] == next[v]
    {
    }
  }

  lemma WithRoomNobody(rooms: map<UserId, set<RoomId>>, room: RoomId)
    ensures WithRoom(rooms, [], room) == rooms
  {
    var same := WithRoom(rooms, [], room);
    assert same.Keys == rooms.Keys;
    forall u | u in rooms
      ensures same[u] == rooms[u]
    {
    }
  }

  lemma WithoutRoomOne(rooms: map<UserId, set<RoomId>>, users: set<UserId>, u: UserId, room: RoomId)
    ensures var done := WithoutRoom(rooms, users, room);
      WithoutRoom(rooms, users + {u}, room) == if u in done then done[u := done[u] - {room}] else done
  {
    var done, more := WithoutRoom(rooms, users, room), WithoutRoom(rooms, users + {u}, room);
    var next := if u in done then done[u := done[u] - {room}] else done;
    assert more.Keys == next.Keys;
    forall v | v in more
      ensures more[v] == next[v]
    {
    }
  }

  lemma WithoutRoomNobody(rooms: map<UserId, set<RoomId>>, room: RoomId)
    ensures WithoutRoom(rooms, {}, room) == rooms
  {
  }

  lemma AllMembersMore(members: map<RoomId, seq<UserId>>, room: RoomId, users: seq<UserId>)
    requires room !in members
    ensures AllMembers(members[room := users]) == AllMembers(members) + Members(users)
  {
    var more := members[room := users];
    forall u
      ensures u in AllMembers(more) <==> u in AllMembers(members) + Members(users)
    {
      if u in users {
        assert u in more[room];
      } else if u in AllMembers(members) {
        var r :| r in members && u in members[r];
        assert u in more[r];
      }
    }
  }

  lemma StartedRoomsMore(members: map<RoomId, seq<UserId>>, room: RoomId, users: seq<UserId>, u: UserId)
    requires room !in members
    ensures StartedRooms(members[room := users], u) == StartedRooms(members, u) + if u in users then {room} else {}
    ensures u !in AllMembers(members) ==> StartedRooms(members, u) == {}
  {
  }

  lemma StartedMore(t: Tracker, members: map<RoomId, seq<UserId>>, room: RoomId, users: seq<UserId>)
    requires room !in members
    ensures var done := StartedTracker(t, members);
      StartedTracker(t, members[room := users]) ==
      Tracker(done.joined[room := Members(users)], WithRoom(done.rooms, users, room), t.invited)
  {
    var done, next := StartedTracker(t, members), StartedTracker(t, members[room := users]);
    var rooms := WithRoom(done.rooms, users, room);
    AllMembersMore(members, room, users);
    assert next.rooms.Keys == rooms.Keys;
    forall u | u in rooms
      ensures next.rooms[u] == rooms[u]
    {
      StartedRoomsMore(members, room, users, u);
    }
    assert next.rooms == rooms;
    assert next.joined == done.joined[room := Members(users)];
  }

  lemma StartedNone(t: Tracker)
    requires CanStart(t)
    ensures StartedTracker(t, map[]) == t
  {
  }

  ghost predicate PartedBy(all: map<RoomId, seq<UserId>>, done: map<RoomId, seq<UserId>>,
                           left: map<RoomId, seq<UserId>>) {
    done.Keys !! left.Keys && done + left == all
  }

  lemma MovedOver(all: map<RoomId, seq<UserId>>, done: map<RoomId, seq<UserId>>, left: map<RoomId, seq<UserId>>,
                  r: RoomId)
    requires PartedBy(all, done, left) && r in left
    ensures PartedBy(all, done[r := left[r]], left - {r}) && (left - {r}).Keys == left.Keys - {r}
  {
  }

  class JoinedRoomsTracker {
    var joined: map<RoomId, set<UserId>>
    var rooms: map<UserId, set<RoomId>>
    var invited: map<RoomId, set<UserId>>

    function Contents(): Tracker
      reads this
    {
      Tracker(joined, rooms, invited)
    }

    constructor ()
      ensures Contents() == NOBODY && Inverse(Contents())
    {
      joined, rooms, invited := map[], map[], map[];
    }

    /** Looks through the room's users; the answer is also whether the user's own rooms have this one. */
    method IsUserJoined(user: UserId, room: RoomId) returns (yes: bool)
      ensures yes <==> user in JoinedIn(Contents(), room)
      ensures Inverse(Contents()) ==> (yes <==> room in RoomsOf(Contents(), user))
    {
      var left := if room in joined then joined[room] else {};
      while left != {}
        invariant left <= JoinedIn(Contents(), room) && (user in JoinedIn(Contents(), room) ==> user in left)
        decreases |left|
      {
        var u :| u in left;
        if u == user {
          return true;
        }
        left := left - {u};
      }
      return false;
    }

    /** The per-user half of marking users as joined. */
    method MarkJoined(users: seq<UserId>, room: RoomId)
      modifies this`rooms
      ensures rooms == WithRoom(old(rooms), users, room)
    {
      WithRoomNobody(rooms, room);
      for i := 0 to |users|
        invariant rooms == WithRoom(old(rooms), users[..i], room)
      {
        WithRoomAppend(old(rooms), users[..i], users[i], room);
        assert users[..i + 1] == users[..i] + [users[i]];
        rooms := rooms[users[i] := (if users[i] in rooms then rooms[users[i]] else {}) + {room}];
      }
      assert users[..|users|] == users;
    }

    method AllJoined(users: seq<UserId>, room: RoomId) returns (all: bool)
      ensures all <==> forall u :: u in users ==> u in JoinedIn(Contents(), room)
    {
      for i := 0 to |users|
        invariant forall j :: 0 <= j < i ==> users[j] in JoinedIn(Contents(), room)
      {
        if room !in joined || users[i] !in joined[room] {
          assert users[i] in users;
          return false;
        }
      }
      return true;
    }

    method UsersJoinedRoom(users: seq<UserId>, room: RoomId) returns (newly: bool)
      requires Inverse(Contents())
      modifies this
      ensures Some(Contents()) == Next(old(Contents()), Call.Joined(users, room)) && Inverse(Contents())
      ensures newly <==> exists u :: u in users && u !in JoinedIn(old(Contents()), room)
    {
      NextKeepsInverse(Contents(), Call.Joined(users, room));
      var wasJoined := AllJoined(users, room);
      var joinedUsers := if room in joined then joined[room] else {};
      var invitedUsers := if room in invited then invited[room] else {};
      MarkJoined(users, room);
      for i := 0 to |users|
        invariant joinedUsers == JoinedIn(old(Contents()), room) + Members(users[..i])
        invariant invitedUsers == InvitedIn(old(Contents()), room) - Members(users[..i])
      {
        assert users[..i + 1] == users[..i] + [users[i]];
        invitedUsers := invitedUsers - {users[i]};
        joinedUsers := joinedUsers + {users[i]};
      }
      assert users[..|users|] == users;
      joined := joined[room := joinedUsers];
      invited := invited[room := invitedUsers];
      return !wasJoined;
    }

    method UserLeftRoom(user: UserId, room: RoomId) returns (wasAware: bool)
      requires Inverse(Contents())
      modifies this
      ensures Some(Contents()) == Next(old(Contents()), Call.Left(user, room)) && Inverse(Contents())
      ensures wasAware <==> user in JoinedIn(old(Contents()), room) + InvitedIn(old(Contents()), room)
    {
      NextKeepsInverse(Contents(), Call.Left(user, room));
      var joinedRooms := if user in rooms then rooms[user] else {};
      var joinedUsers := if room in joined then joined[room] else {};
      var invitedUsers := if room in invited then invited[room] else {};
      wasAware := user in joinedUsers || user in invitedUsers;
      rooms := rooms[user := joinedRooms - {room}];
      joined := joined[room := joinedUsers - {user}];
      invited := invited[room := invitedUsers - {user}];
    }

    method UsersInvitedToRoom(users: seq<UserId>, room: RoomId)
      requires Inverse(Contents())
      modifies this
      ensures Some(Contents()) == Next(old(Contents()), Call.Invited(users, room)) && Inverse(Contents())
    {
      NextKeepsInverse(Contents(), Call.Invited(users, room));
      var invitedUsers := if room in invited then invited[room] else {};
      for i := 0 to |users|
        invariant invitedUsers == InvitedIn(old(Contents()), room) + Members(users[..i])
      {
        assert users[..i + 1] == users[..i] + [users[i]];
        invitedUsers := invitedUsers + {users[i]};
      }
      assert users[..|users|] == users;
      invited := invited[room := invitedUsers];
    }

    /** The users who were joined before a reload and are not any more. */
    method MarkLeft(users: set<UserId>, room: RoomId)
      modifies this`rooms
      ensures rooms == WithoutRoom(old(rooms), users, room)
    {
      WithoutRoomNobody(rooms, room);
      var done: set<UserId> := {};
      while users - done != {}
        invariant done <= users
        invariant rooms == WithoutRoom(old(rooms), done, room)
        decreases |users - done|
      {
        var u :| u in users - done;
        WithoutRoomOne(old(rooms), done, u, room);
        if u in rooms {
          rooms := rooms[u := rooms[u] - {room}];
        }
        assert users - (done + {u}) == (users - done) - {u};
        done := done + {u};
      }
      assert done == users;
    }

    method ReloadMembershipsForRoom(room: RoomId, newJoined: seq<UserId>, newInvited: seq<UserId>)
      requires Inverse(Contents())
      modifies this
      ensures Some(Contents()) == Next(old(Contents()), Call.Reloaded(room, newJoined, newInvited))
      ensures Inverse(Contents())
    {
      NextKeepsInverse(Contents(), Call.Reloaded(room, newJoined, newInvited));
      var oldJoined := if room in joined then joined[room] else {};
      joined := joined[room := Members(newJoined)];
      invited := invited[room := Members(newInvited)];
      MarkJoined(newJoined, room);
      MarkLeft(oldJoined - Members(newJoined), room);
    }

    method LoadRoom(room: RoomId, users: seq<UserId>, ghost t: Tracker, ghost done: map<RoomId, seq<UserId>>)
      requires room !in done && Contents() == StartedTracker(t, done)
      modifies this`joined, this`rooms
      ensures Contents() == StartedTracker(t, done[room := users])
    {
      StartedMore(t, done, room, users);
      MarkJoined(users, room);
      joined := joined[room := Members(users)];
    }

    method LoadMembers(members: map<RoomId, seq<UserId>>)
      requires CanStart(Contents())
      modifies this`joined, this`rooms
      ensures Contents() == StartedTracker(old(Contents()), members)
    {
      StartedNone(Contents());
      ghost var done: map<RoomId, seq<UserId>> := map[];
      var left := members;
      while left.Keys != {}
        invariant PartedBy(members, done, left)
        invariant Contents() == StartedTracker(old(Contents()), done)
        decreases |left.Keys|
      {
        var r :| r in left.Keys;
        LoadRoom(r, left[r], old(Contents()), done);
        MovedOver(members, done, left, r);
        done := done[r := left[r]];
        left := left - {r};
      }
      assert done == members;
    }

    /** Refused, as a panic, on a tracker that already tracks something. */
    method Startup(members: map<RoomId, seq<UserId>>) returns (panics: bool)
      requires Inverse(Contents())
      modifies this
      ensures panics <==> Next(old(Contents()), Call.Started(members)).None?
      ensures panics ==> Contents() == old(Contents())
      ensures !panics ==> Some(Contents()) == Next(old(Contents()), Call.Started(members)) && Inverse(Contents())
    {
      if joined != map[] || rooms != map[] {
        return true;
      }
      NextKeepsInverse(Contents(), Call.Started(members));
      LoadMembers(members);
      return false;
    }
  }
}
