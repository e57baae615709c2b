/** sync3/dispatcher.go: which receivers hear of a live event. */
module Dispatcher {
  import opened Common
  import opened Tracker

  datatype Membership = Invite | Join | Leave | Ban | Otherwise
  datatype Member = Member(target: UserId, membership: Membership)

  /** A live event; `member` is set for an m.room.member event with a state key. */
  datatype Event = Event(room: RoomId, id: nat, member: Option<Member>)

  datatype Delivery = Delivery(user: UserId, event: Event, forceInitial: bool, joinCount: nat, inviteCount: nat)

  /** What the event does to the tracker. */
  function CallOf(e: Event): Option<Call> {
    if e.member.None? then None
    else
      match e.member.value.membership
      case Invite => Some(Call.Invited([e.member.value.target], e.room))
      case Join => Some(Call.Joined([e.member.value.target], e.room))
      case Leave => Some(Call.Left(e.member.value.target, e.room))
      case Ban => Some(Call.Left(e.member.value.target, e.room))
      case Otherwise => None
  }

  function CallsOf(e: Event): seq<Call> { if CallOf(e).Some? then [CallOf(e).value] else [] }

  function After(t: Tracker, e: Event): Tracker {
    if CallOf(e).None? then t else Next(t, CallOf(e).value).value
  }

  predicate Leaves(e: Event, user: UserId) { CallOf(e) == Some(Call.Left(user, e.room)) }

  predicate Joins(e: Event, user: UserId) { CallOf(e) == Some(Call.Joined([user], e.room)) }

  /** A leaving user is told only if they knew of the room. */
  predicate LeavesAware(t: Tracker, e: Event, user: UserId) {
    Leaves(e, user) && user in JoinedIn(t, e.room) + InvitedIn(t, e.room)
  }

  predicate Hears(t: Tracker, receivers: set<UserId>, e: Event, user: UserId) {
    user in receivers &&
    ((user in JoinedIn(After(t, e), e.room) && user != AllUsers) || LeavesAware(t, e, user))
  }

  predicate JoinsNewly(t: Tracker, e: Event, user: UserId) { Joins(e, user) && user !in JoinedIn(t, e.room) }

  function DeliveryTo(t: Tracker, e: Event, user: UserId): Delivery {
    var t' := After(t, e);
    Delivery(user, e, JoinsNewly(t, e, user), |JoinedIn(t', e.room)|,
             if e.member.Some? then |InvitedIn(t', e.room)| else 0)
  }

  /** The per-user deliveries: everyone who hears of the event once, in no particular order. */
  ghost predicate ExactlyOnce(t: Tracker, receivers: set<UserId>, e: Event, out: seq<Delivery>) {
    && (forall i :: 0 <= i < |out| ==> out[i] == DeliveryTo(t, e, out[i].user) && Hears(t, receivers, e, out[i].user))
    && (forall i, j :: 0 <= i < j < |out| ==> out[i].user != out[j].user)
    && (forall u :: Hears(t, receivers, e, u) ==> exists i :: 0 <= i < |out| && out[i].user == u)
  }

  /** The global listener comes first, without a forced initial, if it is registered. */
  ghost predicate Dispatched(t: Tracker, receivers: set<UserId>, e: Event, out: seq<Delivery>) {
    var first := DeliveryTo(t, e, AllUsers).(forceInitial := false);
    if AllUsers in receivers then out != [] && out[0] == first && ExactlyOnce(t, receivers, e, out[1..])
    else ExactlyOnce(t, receivers, e, out)
  }

  // ---- what a run of calls means for one user ----

  predicate Is(e: Event, user: UserId, m: Membership) { e.member == Some(Member(user, m)) }

  predicate Removes(e: Event, user: UserId) { Is(e, user, Leave) || Is(e, user, Ban) }

  /** The user is joined to the event's room once the event has happened. */
  predicate JoinedWith(calls: seq<Call>, e: Event, user: UserId) {
    Is(e, user, Join) || (IsJoined(calls, user, e.room) && !Removes(e, user))
  }

  predicate InvitedWith(calls: seq<Call>, e: Event, user: UserId) {
    Is(e, user, Invite) || (IsInvited(calls, user, e.room) && !Is(e, user, Join) && !Removes(e, user))
  }

  /**
   * After any run, a delivery forces an initial exactly for the target of a join who was not joined, and counts the
   * users joined to the room, and invited if the event is about a member, with the event.
   */
  lemma DeliversExactly(calls: seq<Call>, e: Event, user: UserId, joined: set<UserId>, invited: set<UserId>)
    requires Run(calls).Some?
    requires forall u :: u in joined <==> JoinedWith(calls, e, u)
    requires forall u :: u in invited <==> InvitedWith(calls, e, u)
    ensures DeliveryTo(Run(calls).value, e, user) ==
      Delivery(user, e, Is(e, user, Join) && !IsJoined(calls, user, e.room), |joined|,
               if e.member.Some? then |invited| else 0)
  {
    var t := Run(calls).value;
    MembersWith(calls, e, joined, invited);
    TracksLastCall(calls, user, e.room);
    assert JoinsNewly(t, e, user) <==> Is(e, user, Join) && user !in JoinedIn(t, e.room);
  }

  lemma MembersWith(calls: seq<Call>, e: Event, joined: set<UserId>, invited: set<UserId>)
    requires Run(calls).Some?
    requires forall u :: u in joined <==> JoinedWith(calls, e, u)
    requires forall u :: u in invited <==> InvitedWith(calls, e, u)
    ensures var t := After(Run(calls).value, e); JoinedIn(t, e.room) == joined && InvitedIn(t, e.room) == invited
  {
    var t := After(Run(calls).value, e);
    forall u ensures u in JoinedIn(t, e.room) <==> u in joined {
      MemberWith(calls, e, u);
    }
    forall u ensures u in InvitedIn(t, e.room) <==> u in invited {
      MemberWith(calls, e, u);
    }
  }

  lemma MemberWith(calls: seq<Call>, e: Event, user: UserId)
    requires Run(calls).Some?
    ensures var t := After(Run(calls).value, e);
      && (user in JoinedIn(t, e.room) <==> JoinedWith(calls, e, user))
      && (user in InvitedIn(t, e.room) <==> InvitedWith(calls, e, user))
  {
    TracksLastCall(calls, user, e.room);
    AfterExactly(Run(calls).value, e, user);
  }

  /**
   * After any run, an event reaches a registered user exactly when the last call about them in its room,
   * the event included, leaves them joined, or when it removes them and they were joined or invited.
   */
  lemma HearsExactly(calls: seq<Call>, receivers: set<UserId>, e: Event, user: UserId)
    requires Run(calls).Some?
    ensures Run(calls + CallsOf(e)) == Some(After(Run(calls).value, e))
    ensures IsJoined(calls + CallsOf(e), user, e.room) <==> JoinedWith(calls, e, user)
    ensures Hears(Run(calls).value, receivers, e, user) <==>
      user in receivers &&
      ((user != AllUsers && JoinedWith(calls, e, user)) ||
       (Removes(e, user) && (IsJoined(calls, user, e.room) || IsInvited(calls, user, e.room))))
  {
    var all := calls + CallsOf(e);
    if CallOf(e).Some? {
      assert all[..|all| - 1] == calls;
    } else {
      assert all == calls;
    }
    TracksLastCall(calls, user, e.room);
    TracksLastCall(all, user, e.room);
  }

  /** Nobody hears of an event twice, except that the global listener does exactly when it is removed from a room. */
  lemma HeardTwiceExactly(t: Tracker, receivers: set<UserId>, e: Event, out: seq<Delivery>)
    requires Dispatched(t, receivers, e, out)
    ensures (exists i, j :: 0 <= i < j < |out| && out[i].user == out[j].user) <==>
      AllUsers in receivers && LeavesAware(t, e, AllUsers)
  {
    if AllUsers in receivers {
      if LeavesAware(t, e, AllUsers) {
        assert Hears(t, receivers, e, AllUsers);
        var i :| 0 <= i < |out[1..]| && out[1..][i].user == AllUsers;
        assert out[0].user == AllUsers && out[i + 1].user == AllUsers;
      } else {
        forall i, j | 0 <= i < j < |out|
          ensures out[i].user != out[j].user
        {
          assert out[j] == out[1..][j - 1];
          assert i > 0 ==> out[i] == out[1..][i - 1];
        }
      }
    }
  }

  // ---- the bulk path for a room's first state block ----

  function Live(t: Tracker, state: seq<Event>): Tracker {
    if state == [] then t else After(Live(t, state[..|state| - 1]), state[|state| - 1])
  }

  function Targets(state: seq<Event>, m: Membership): seq<UserId> {
    if state == [] then []
    else
      var last := state[|state| - 1];
      Targets(state[..|state| - 1], m) +
      if last.member.Some? && last.member.value.membership == m then [last.member.value.target] else []
  }

  function Bulk(t: Tracker, state: seq<Event>, room: RoomId): Tracker {
    var joined := Next(t, Call.Joined(Targets(state, Join), room)).value;
    Next(joined, Call.Invited(Targets(state, Invite), room)).value
  }

  /** A state block: events of one room, one at most for each member. */
  ghost predicate IsStateBlock(state: seq<Event>, room: RoomId) {
    && (forall i :: 0 <= i < |state| ==> state[i].room == room)
    && (forall i, j :: 0 <= i < j < |state| && state[i].member.Some? && state[j].member.Some? ==>
      state[i].member.value.target != state[j].member.value.target)
  }

  predicate Gone(state: seq<Event>, user: UserId) { user in Targets(state, Leave) || user in Targets(state, Ban) }

  lemma {:induction false} TargetsExactly(state: seq<Event>, m: Membership, user: UserId)
    ensures user in Targets(state, m) <==>
      exists i :: 0 <= i < |state| && state[i].member == Some(Member(user, m))
  {
    if state != [] {
      var n := |state| - 1;
      TargetsExactly(state[..n], m, user);
      if user in Targets(state[..n], m) {
        var i :| 0 <= i < |state[..n]| && state[..n][i].member == Some(Member(user, m));
        assert state[i].member == Some(Member(user, m));
      } else if user in Targets(state, m) {
        assert state[n].member == Some(Member(user, m));
      } else {
        forall i | 0 <= i < |state|
          ensures state[i].member != Some(Member(user, m))
        {
          assert i < n ==> state[..n][i] == state[i];
        }
      }
    }
  }

  /** In a block, the last event's member has no other event. */
  lemma LastIsNew(state: seq<Event>, room: RoomId, m: Membership)
    requires IsStateBlock(state, room) && state != [] && state[|state| - 1].member.Some?
    ensures state[|state| - 1].member.value.target !in Targets(state[..|state| - 1], m)
  {
    TargetsExactly(state[..|state| - 1], m, state[|state| - 1].member.value.target);
  }

  lemma AfterExactly(t: Tracker, e: Event, user: UserId)
    ensures user in JoinedIn(After(t, e), e.room) <==>
      Is(e, user, Join) || (user in JoinedIn(t, e.room) && !Removes(e, user))
    ensures user in InvitedIn(After(t, e), e.room) <==>
      Is(e, user, Invite) || (user in InvitedIn(t, e.room) && !Is(e, user, Join) && !Removes(e, user))
  {
  }

  lemma TargetsLast(state: seq<Event>, room: RoomId, m: Membership, user: UserId)
    requires IsStateBlock(state, room) && state != []
    ensures user in Targets(state, m) <==> user in Targets(state[..|state| - 1], m) || Is(state[|state| - 1], user, m)
    ensures state[|state| - 1].member.Some? && state[|state| - 1].member.value.target == user ==>
      user !in Targets(state[..|state| - 1], m)
  {
    if state[|state| - 1].member.Some? && state[|state| - 1].member.value.target == user {
      LastIsNew(state, room, m);
    }
  }

  lemma {:induction false} LiveJoined(t: Tracker, state: seq<Event>, room: RoomId, user: UserId)
    requires IsStateBlock(state, room)
    ensures user in JoinedIn(Live(t, state), room) <==>
      user in Targets(state, Join) || (user in JoinedIn(t, room) && !Gone(state, user))
  {
    if state != [] {
      var n := |state| - 1;
      LiveJoined(t, state[..n], room, user);
      AfterExactly(Live(t, state[..n]), state[n], user);
      TargetsLast(state, room, Join, user);
      TargetsLast(state, room, Leave, user);
      TargetsLast(state, room, Ban, user);
    }
  }

  lemma {:induction false} LiveInvited(t: Tracker, state: seq<Event>, room: RoomId, user: UserId)
    requires IsStateBlock(state, room)
    ensures user in InvitedIn(Live(t, state), room) <==>
      user in Targets(state, Invite) ||
      (user in InvitedIn(t, room) && user !in Targets(state, Join) && !Gone(state, user))
  {
    if state != [] {
      var n := |state| - 1;
      LiveInvited(t, state[..n], room, user);
      AfterExactly(Live(t, state[..n]), state[n], user);
      TargetsLast(state, room, Join, user);
      TargetsLast(state, room, Invite, user);
      TargetsLast(state, room, Leave, user);
      TargetsLast(state, room, Ban, user);
    }
  }

  /**
   * The bulk path leaves the same members joined as one event at a time would. It leaves the same members
   * invited exactly when no member whom the block says has left had been invited before.
   */
  lemma BulkMatchesLive(t: Tracker, state: seq<Event>, room: RoomId)
    requires IsStateBlock(state, room) && JoinedIn(t, room) == {}
    ensures JoinedIn(Bulk(t, state, room), room) == JoinedIn(Live(t, state), room)
    ensures InvitedIn(Bulk(t, state, room), room) == InvitedIn(Live(t, state), room) <==>
      !exists u :: u in InvitedIn(t, room) && Gone(state, u)
  {
    forall u
      ensures u in JoinedIn(Bulk(t, state, room), room) <==> u in JoinedIn(Live(t, state), room)
      ensures u in InvitedIn(Bulk(t, state, room), room) <==>
        u in InvitedIn(Live(t, state), room) || (u in InvitedIn(t, room) && Gone(state, u))
      ensures Gone(state, u) ==> u !in InvitedIn(Live(t, state), room)
    {
      LiveJoined(t, state, room, u);
      LiveInvited(t, state, room, u);
      OneMembership(state, room, u);
    }
  }

  lemma OneMembership(state: seq<Event>, room: RoomId, user: UserId)
    requires IsStateBlock(state, room)
    ensures Gone(state, user) ==> user !in Targets(state, Join) && user !in Targets(state, Invite)
  {
    TargetsExactly(state, Join, user);
    TargetsExactly(state, Invite, user);
    TargetsExactly(state, Leave, user);
    TargetsExactly(state, Ban, user);
  }

  // ---- the dispatcher as it is written ----

  ghost function Notices(e: Event, users: seq<UserId>, receivers: set<UserId>, target: Option<UserId>, force: bool,
                         joinCount: nat, inviteCount: nat): seq<Delivery>
  {
    if users == [] then []
    else
      var last := users[|users| - 1];
      Notices(e, users[..|users| - 1], receivers, target, force, joinCount, inviteCount) +
      if last in receivers then [Delivery(last, e, target == Some(last) && force, joinCount, inviteCount)] else []
  }

  ghost predicate NoticesOk(e: Event, users: seq<UserId>, receivers: set<UserId>, target: Option<UserId>, force: bool,
                            joinCount: nat, inviteCount: nat, out: seq<Delivery>)
  {
    && (forall i :: 0 <= i < |out| ==>
      && out[i] == Delivery(out[i].user, e, target == Some(out[i].user) && force, joinCount, inviteCount)
      && out[i].user in users && out[i].user in receivers)
    && (forall i, j :: 0 <= i < j < |out| ==> out[i].user != out[j].user)
    && (forall u :: u in users && u in receivers ==> exists i :: 0 <= i < |out| && out[i].user == u)
  }

  lemma {:induction false} NoticesAreOk(e: Event, users: seq<UserId>, receivers: set<UserId>, target: Option<UserId>,
                                        force: bool, joinCount: nat, inviteCount: nat)
    requires NoDup(users)
    ensures NoticesOk(e, users, receivers, target, force, joinCount, inviteCount,
                      Notices(e, users, receivers, target, force, joinCount, inviteCount))
  {
    if users != [] {
      var n := |users| - 1;
      var init := Notices(e, users[..n], receivers, target, force, joinCount, inviteCount);
      var out := Notices(e, users, receivers, target, force, joinCount, inviteCount);
      NoticesAreOk(e, users[..n], receivers, target, force, joinCount, inviteCount);
      assert users[n] !in users[..n];
      forall u | u in users && u in receivers
        ensures exists i :: 0 <= i < |out| && out[i].user == u
      {
        if u == users[n] {
          assert out[|init|].user == u;
        } else {
          assert u in users[..n];
          var i :| 0 <= i < |init| && init[i].user == u;
          assert out[i].user == u;
        }
      }
    }
  }

  /** What notifyListeners has to be given for each of its deliveries to be right. */
  lemma NoticesExactlyOnce(t: Tracker, receivers: set<UserId>, e: Event, users: seq<UserId>, target: Option<UserId>,
                           force: bool, joinCount: nat, inviteCount: nat)
    requires NoDup(users)
    requires forall u :: u in users && u in receivers <==> Hears(t, receivers, e, u)
    requires forall u :: u in users ==>
      DeliveryTo(t, e, u) == Delivery(u, e, target == Some(u) && force, joinCount, inviteCount)
    ensures ExactlyOnce(t, receivers, e, Notices(e, users, receivers, target, force, joinCount, inviteCount))
  {
    NoticesAreOk(e, users, receivers, target, force, joinCount, inviteCount);
  }

  /** The joined users with a receiver, and behind them a member who left, are those who hear of the event. */
  lemma UsersAreRight(t: Tracker, receivers: set<UserId>, e: Event, joined: seq<UserId>, users: seq<UserId>)
    requires NoDup(joined)
    requires forall u :: u in joined <==> u in JoinedIn(After(t, e), e.room) && u != AllUsers && u in receivers
    requires users == joined + if e.member.Some? && LeavesAware(t, e, e.member.value.target) then
        [e.member.value.target]
      else []
    ensures NoDup(users)
    ensures forall u :: u in users && u in receivers <==> Hears(t, receivers, e, u)
  {
    if e.member.Some? {
      AfterExactly(t, e, e.member.value.target);
    }
  }

  lemma FieldsAreRight(t: Tracker, e: Event, target: Option<UserId>, force: bool, joinCount: nat, inviteCount: nat)
    requires target == if e.member.Some? then Some(e.member.value.target) else None
    requires force <==> e.member.Some? && JoinsNewly(t, e, e.member.value.target)
    requires joinCount == |JoinedIn(After(t, e), e.room)|
    requires inviteCount == if e.member.Some? then |InvitedIn(After(t, e), e.room)| else 0
    ensures forall u :: DeliveryTo(t, e, u) == Delivery(u, e, target == Some(u) && force, joinCount, inviteCount)
  {
  }

  /** The global listener first, then the notices. */
  lemma GlobalFirst(t: Tracker, receivers: set<UserId>, e: Event, notices: seq<Delivery>, out: seq<Delivery>)
    requires ExactlyOnce(t, receivers, e, notices)
    requires out ==
      (if AllUsers in receivers then [DeliveryTo(t, e, AllUsers).(forceInitial := false)] else []) + notices
    ensures Dispatched(t, receivers, e, out)
  {
    assert if AllUsers in receivers then out[1..] == notices else out == notices;
  }

  /** Each event of a block dispatched with the tracker as the events before it left it. */
  ghost predicate LiveDispatched(t: Tracker, receivers: set<UserId>, state: seq<Event>, outs: seq<seq<Delivery>>) {
    && |outs| == |state|
    && (forall i :: 0 <= i < |state| ==> Dispatched(Live(t, state[..i]), receivers, state[i], outs[i]))
  }

  lemma LiveDispatchedMore(t: Tracker, receivers: set<UserId>, state: seq<Event>, outs: seq<seq<Delivery>>, e: Event,
                           out: seq<Delivery>)
    requires LiveDispatched(t, receivers, state, outs) && Dispatched(Live(t, state), receivers, e, out)
    ensures LiveDispatched(t, receivers, state + [e], outs + [out])
  {
    forall i | 0 <= i < |state + [e]|
      ensures Dispatched(Live(t, (state + [e])[..i]), receivers, (state + [e])[i], (outs + [out])[i])
    {
      assert i < |state| ==> (state + [e])[..i] == state[..i];
      assert i == |state| ==> (state + [e])[..i] == state;
    }
  }

  /** In bulk everybody joined once the whole block is in hears of each event, none with a forced initial. */
  ghost predicate BulkHeard(t: Tracker, receivers: set<UserId>, room: RoomId, e: Event, out: seq<Delivery>) {
    && (forall i :: 0 <= i < |out| ==>
      && out[i] == Delivery(out[i].user, e, false, |JoinedIn(t, room)|, |InvitedIn(t, room)|)
      && out[i].user in JoinedIn(t, room) && out[i].user != AllUsers && out[i].user in receivers)
    && (forall i, j :: 0 <= i < j < |out| ==> out[i].user != out[j].user)
    && (forall u :: u in JoinedIn(t, room) && u != AllUsers && u in receivers ==>
      exists i :: 0 <= i < |out| && out[i].user == u)
  }

  ghost predicate BulkDispatched(t: Tracker, receivers: set<UserId>, room: RoomId, e: Event, out: seq<Delivery>) {
    if AllUsers in receivers then
      && out != [] && BulkHeard(t, receivers, room, e, out[1..])
      && out[0] == Delivery(AllUsers, e, false, |JoinedIn(t, room)|, |InvitedIn(t, room)|)
    else BulkHeard(t, receivers, room, e, out)
  }

  lemma NoticesHeard(t: Tracker, receivers: set<UserId>, room: RoomId, e: Event, users: seq<UserId>, force: bool)
    requires NoDup(users)
    requires forall u :: u in users <==> u in JoinedIn(t, room) && u != AllUsers && u in receivers
    ensures BulkHeard(t, receivers, room, e,
                      Notices(e, users, receivers, None, force, |JoinedIn(t, room)|, |InvitedIn(t, room)|))
  {
    NoticesAreOk(e, users, receivers, None, force, |JoinedIn(t, room)|, |InvitedIn(t, room)|);
  }

  lemma GlobalFirstInBulk(t: Tracker, receivers: set<UserId>, room: RoomId, e: Event, notices: seq<Delivery>,
                          out: seq<Delivery>)
    requires BulkHeard(t, receivers, room, e, notices)
    requires var first := Delivery(AllUsers, e, false, |JoinedIn(t, room)|, |InvitedIn(t, room)|);
      out == (if AllUsers in receivers then [first] else []) + notices
    ensures BulkDispatched(t, receivers, room, e, out)
  {
    assert if AllUsers in receivers then out[1..] == notices else out == notices;
  }

  class EventDispatcher {
    const jrt: JoinedRoomsTracker
    var receivers: set<UserId>

    constructor ()
      ensures fresh(jrt) && jrt.Contents() == NOBODY && receivers == {}
    {
      jrt := new JoinedRoomsTracker();
      receivers := {};
    }

    /** The joined users who have a receiver, in the arbitrary order of a map, with the join count. */
    method JoinedUsersForRoom(room: RoomId) returns (users: seq<UserId>, joinCount: nat)
      ensures joinCount == |JoinedIn(jrt.Contents(), room)|
      ensures NoDup(users)
      ensures forall u :: u in users <==> u in JoinedIn(jrt.Contents(), room) && u != AllUsers && u in receivers
    {
      var all := if room in jrt.joined then jrt.joined[room] else {};
      var left := all;
      users := [];
      while left != {}
        invariant left <= all && NoDup(users)
        invariant forall u :: u in users <==> u in all - left && u != AllUsers && u in receivers
        decreases |left|
      {
        var u :| u in left;
        left := left - {u};
        if u != AllUsers && u in receivers {
          users := users + [u];
        }
      }
      joinCount := |all|;
    }

    method NotifyListeners(e: Event, users: seq<UserId>, target: Option<UserId>, force: bool, joinCount: nat,
                           inviteCount: nat)
      returns (out: seq<Delivery>)
      ensures out == (if AllUsers in receivers then [Delivery(AllUsers, e, false, joinCount, inviteCount)] else []) +
        Notices(e, users, receivers, target, force, joinCount, inviteCount)
    {
      out := [];
      if AllUsers in receivers {
        out := [Delivery(AllUsers, e, false, joinCount, inviteCount)];
      }
      ghost var first := out;
      for i := 0 to |users|
        invariant out == first + Notices(e, users[..i], receivers, target, force, joinCount, inviteCount)
      {
        assert users[..i + 1][..i] == users[..i];
        if users[i] in receivers {
          var edd := Delivery(users[i], e, false, joinCount, inviteCount);
          if target == Some(users[i]) {
            if force {
              edd := edd.(forceInitial := true);
            }
          }
          out := out + [edd];
        }
      }
      assert users[..|users|] == users;
    }

    method UpdateTracker(e: Event) returns (force: bool, leaveAware: bool)
      requires Inverse(jrt.Contents())
      modifies jrt
      ensures jrt.Contents() == After(old(jrt.Contents()), e) && Inverse(jrt.Contents())
      ensures force <==> e.member.Some? && JoinsNewly(old(jrt.Contents()), e, e.member.value.target)
      ensures leaveAware <==> e.member.Some? && LeavesAware(old(jrt.Contents()), e, e.member.value.target)
    {
      force, leaveAware := false, false;
      if e.member.Some? {
        var user := e.member.value.target;
        match e.member.value.membership {
          case Invite => jrt.UsersInvitedToRoom([user], e.room);
          case Join => force := jrt.UsersJoinedRoom([user], e.room);
          case Leave => leaveAware := jrt.UserLeftRoom(user, e.room);
          case Ban => leaveAware := jrt.UserLeftRoom(user, e.room);
          case Otherwise =>
        }
      }
    }

    method NumInvitedUsersForRoom(room: RoomId) returns (n: nat)
      ensures n == |InvitedIn(jrt.Contents(), room)|
    {
      return if room in jrt.invited then |jrt.invited[room]| else 0;
    }

    method OnNewEvent(e: Event) returns (out: seq<Delivery>)
      requires Inverse(jrt.Contents())
      modifies jrt
      ensures jrt.Contents() == After(old(jrt.Contents()), e) && Inverse(jrt.Contents())
      ensures Dispatched(old(jrt.Contents()), receivers, e, out)
    {
      ghost var t := jrt.Contents();
      var target := if e.member.Some? then Some(e.member.value.target) else None;
      var force, leaveAware := UpdateTracker(e);
      var inviteCount := 0;
      if e.member.Some? {
        inviteCount := NumInvitedUsersForRoom(e.room);
      }
      var users, joinCount := JoinedUsersForRoom(e.room);
      ghost var joined := users;
      if leaveAware {
        users := users + [target.value];
      }
      out := NotifyListeners(e, users, target, force, joinCount, inviteCount);
      UsersAreRight(t, receivers, e, joined, users);
      FieldsAreRight(t, e, target, force, joinCount, inviteCount);
      NoticesExactlyOnce(t, receivers, e, users, target, force, joinCount, inviteCount);
      ghost var notices := Notices(e, users, receivers, target, force, joinCount, inviteCount);
      GlobalFirst(t, receivers, e, notices, out);
    }

    /** A state block one event at a time. */
    method OnNewEvents(state: seq<Event>) returns (outs: seq<seq<Delivery>>)
      requires Inverse(jrt.Contents())
      modifies jrt
      ensures Inverse(jrt.Contents()) && jrt.Contents() == Live(old(jrt.Contents()), state)
      ensures LiveDispatched(old(jrt.Contents()), receivers, state, outs)
    {
      outs := [];
      for i := 0 to |state|
        invariant Inverse(jrt.Contents()) && jrt.Contents() == Live(old(jrt.Contents()), state[..i])
        invariant LiveDispatched(old(jrt.Contents()), receivers, state[..i], outs)
      {
        assert state[..i + 1][..i] == state[..i];
        var out := OnNewEvent(state[i]);
        LiveDispatchedMore(old(jrt.Contents()), receivers, state[..i], outs, state[i], out);
        assert state[..i] + [state[i]] == state[..i + 1];
        outs := outs + [out];
      }
      assert state[..|state|] == state;
    }

    /** The members a state block says have joined and been invited. */
    method MembersOf(state: seq<Event>) returns (joined: seq<UserId>, invited: seq<UserId>)
      ensures joined == Targets(state, Join) && invited == Targets(state, Invite)
    {
      joined, invited := [], [];
      for i := 0 to |state|
        invariant joined == Targets(state[..i], Join) && invited == Targets(state[..i], Invite)
      {
        assert state[..i + 1][..i] == state[..i];
        if state[i].member.Some? {
          match state[i].member.value.membership {
            case Invite => invited := invited + [state[i].member.value.target];
            case Join => joined := joined + [state[i].member.value.target];
            case _ =>
          }
        }
      }
      assert state[..|state|] == state;
    }

    /** Tells everybody now joined of every event of the block. */
    method NotifyOfBlock(room: RoomId, state: seq<Event>, force: bool) returns (outs: seq<seq<Delivery>>)
      ensures |outs| == |state|
      ensures forall i :: 0 <= i < |state| ==> BulkDispatched(jrt.Contents(), receivers, room, state[i], outs[i])
    {
      var inviteCount := NumInvitedUsersForRoom(room);
      var users, joinCount := JoinedUsersForRoom(room);
      outs := [];
      for i := 0 to |state|
        invariant |outs| == i
        invariant forall j :: 0 <= j < i ==> BulkDispatched(jrt.Contents(), receivers, room, state[j], outs[j])
      {
        var out := NotifyListeners(state[i], users, None, force, joinCount, inviteCount);
        NoticesHeard(jrt.Contents(), receivers, room, state[i], users, force);
        GlobalFirstInBulk(jrt.Contents(), receivers, room, state[i],
                          Notices(state[i], users, receivers, None, force, joinCount, inviteCount), out);
        outs := outs + [out];
      }
    }

    /** A room's first state block: in bulk, or one event at a time if the room has joined members already. */
    method OnNewInitialRoomState(room: RoomId, state: seq<Event>) returns (outs: seq<seq<Delivery>>)
      requires Inverse(jrt.Contents())
      modifies jrt
      ensures Inverse(jrt.Contents())
      ensures JoinedIn(old(jrt.Contents()), room) != {} ==>
        && jrt.Contents() == Live(old(jrt.Contents()), state)
        && LiveDispatched(old(jrt.Contents()), receivers, state, outs)
      ensures JoinedIn(old(jrt.Contents()), room) == {} ==>
        && jrt.Contents() == Bulk(old(jrt.Contents()), state, room)
        && |outs| == |state|
        && forall i :: 0 <= i < |state| ==> BulkDispatched(jrt.Contents(), receivers, room, state[i], outs[i])
    {
      var joinCount := if room in jrt.joined then |jrt.joined[room]| else 0;
      if joinCount > 0 {
        outs := OnNewEvents(state);
        return;
      }
      var joined, invited := MembersOf(state);
      var force := jrt.UsersJoinedRoom(joined, room);
      jrt.UsersInvitedToRoom(invited, room);
      outs := NotifyOfBlock(room, state, force);
    }
  }
}
