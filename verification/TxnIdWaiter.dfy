/** sync3/handler/txn_id_waiter.go: holding back a user's own events until their transaction ID may be known. */
module TxnIdWaiter {
  import opened Common

  type UserId = nat

  datatype Event = Event(room: RoomId, nid: int, isState: bool, sender: UserId, transactionId: string)
  datatype Update = Other | RoomEvent(event: Event)

  /** Updates are told apart by their number in the order of ingestion. */
  datatype Queued = Queued(serial: nat, event: Event)
  datatype Publication = Publication(delayed: bool, serial: nat, update: Update)

  /** `pending` are the timers not yet fired, by the number of the update that started them. */
  datatype State = State(ingested: seq<Update>, published: seq<Publication>, queues: map<RoomId, seq<Queued>>,
                         pending: set<nat>)

  const EMPTY := State([], [], map[], {})

  /** The waiter's two parameters: whose connection it is, and whether its maximum delay is above zero. */
  datatype Config = Config(user: UserId, delays: bool)

  predicate MissingTxnId(c: Config, e: Event) { !e.isState && e.sender == c.user && e.transactionId == "" }

  predicate Holds(c: Config, queues: map<RoomId, seq<Queued>>, u: Update) {
    c.delays && u.RoomEvent? && (MissingTxnId(c, u.event) || u.event.room in queues)
  }

  function QueueOf(queues: map<RoomId, seq<Queued>>, room: RoomId): seq<Queued> {
    if room in queues then queues[room] else []
  }

  function Ingest(c: Config, s: State, u: Update): State {
    var serial := |s.ingested|;
    if !Holds(c, s.queues, u) then
      s.(ingested := s.ingested + [u], published := s.published + [Publication(false, serial, u)])
    else
      var room := u.event.room;
      s.(ingested := s.ingested + [u],
         queues := s.queues[room := QueueOf(s.queues, room) + [Queued(serial, u.event)]],
         pending := s.pending + {serial})
  }

  /** How many events at the head of a queue have a NID up to the given one. */
  function Due(queue: seq<Queued>, nid: int): (n: nat)
    ensures n <= |queue|
    ensures forall i :: 0 <= i < n ==> queue[i].event.nid <= nid
    ensures n < |queue| ==> queue[n].event.nid > nid
  {
    if queue == [] || queue[0].event.nid > nid then 0 else 1 + Due(queue[1..], nid)
  }

  function WithQueue(queues: map<RoomId, seq<Queued>>, room: RoomId, queue: seq<Queued>): map<RoomId, seq<Queued>> {
    if queue == [] then queues - {room} else queues[room := queue]
  }

  function Delayed(queue: seq<Queued>): seq<Publication> {
    if queue == [] then []
    else
      var last := queue[|queue| - 1];
      Delayed(queue[..|queue| - 1]) + [Publication(true, last.serial, RoomEvent(last.event))]
  }

  function PublishUpTo(s: State, room: RoomId, nid: int): State {
    if room !in s.queues then s
    else
      var queue := s.queues[room];
      var due := Due(queue, nid);
      s.(published := s.published + Delayed(queue[..due]), queues := WithQueue(s.queues, room, queue[due..]))
  }

  datatype Step = Ingested(update: Update) | TimerFired(serial: nat) | TxnIdSeen(room: RoomId, nid: int)

  function Next(c: Config, s: State, step: Step): State {
    match step
    case Ingested(u) => Ingest(c, s, u)
    case TxnIdSeen(room, nid) => PublishUpTo(s, room, nid)
    case TimerFired(serial) =>
      if serial < |s.ingested| && serial in s.pending && s.ingested[serial].RoomEvent? then
        var e := s.ingested[serial].event;
        PublishUpTo(s.(pending := s.pending - {serial}), e.room, e.nid)
      else s
  }

  /**
   * An update waits exactly if delays are on and it is a room event that is the user's own, is no state and has no
   * transaction ID yet, or one behind which such an event waits in its room; everything else goes out at once.
   */
  lemma WaitsExactly(c: Config, s: State, u: Update)
    ensures var t := Ingest(c, s, u);
      var waits := c.delays && u.RoomEvent? &&
        ((!u.event.isState && u.event.sender == c.user && u.event.transactionId == "") || u.event.room in s.queues);
      if waits then
        && t.published == s.published && |s.ingested| in t.pending && u.event.room in t.queues
        && t.queues[u.event.room] == QueueOf(s.queues, u.event.room) + [Queued(|s.ingested|, u.event)]
      else
        && t.published == s.published + [Publication(false, |s.ingested|, u)]
        && t.queues == s.queues && t.pending == s.pending
  {
  }

  // ---- per room, nothing is lost, repeated or reordered ----

  function RoomOf(u: Update): Option<RoomId> { if u.RoomEvent? then Some(u.event.room) else None }

  function IngestedOf(us: seq<Update>, k: Option<RoomId>): seq<nat> {
    if us == [] then []
    else IngestedOf(us[..|us| - 1], k) + if RoomOf(us[|us| - 1]) == k then [|us| - 1] else []
  }

  function PublishedOf(ps: seq<Publication>, k: Option<RoomId>): seq<nat> {
    if ps == [] then []
    else
      var last := ps[|ps| - 1];
      PublishedOf(ps[..|ps| - 1], k) + if RoomOf(last.update) == k then [last.serial] else []
  }

  function Serials(queue: seq<Queued>): seq<nat> {
    if queue == [] then [] else Serials(queue[..|queue| - 1]) + [queue[|queue| - 1].serial]
  }

  function WaitingOf(queues: map<RoomId, seq<Queued>>, k: Option<RoomId>): seq<nat> {
    if k.Some? then Serials(QueueOf(queues, k.value)) else []
  }

  ghost predicate Conserved(s: State, k: Option<RoomId>) {
    PublishedOf(s.published, k) + WaitingOf(s.queues, k) == IngestedOf(s.ingested, k)
  }

  /** Every held event has its own timer pending, or stands behind one with a larger NID that has. */
  predicate Covered(queue: seq<Queued>, pending: set<nat>, i: nat)
    requires i < |queue|
  {
    || queue[i].serial in pending
    || exists j :: 0 <= j < i && queue[j].serial in pending && queue[j].event.nid > queue[i].event.nid
  }

  ghost predicate AllCovered(queue: seq<Queued>, pending: set<nat>) {
    forall i :: 0 <= i < |queue| ==> Covered(queue, pending, i)
  }

  ghost predicate Placed(ingested: seq<Update>, queue: seq<Queued>, room: RoomId) {
    && queue != []
    && (forall i :: 0 <= i < |queue| ==>
      && queue[i].serial < |ingested|
      && ingested[queue[i].serial] == RoomEvent(queue[i].event)
      && queue[i].event.room == room)
  }

  ghost predicate QueueOk(s: State, room: RoomId)
    requires room in s.queues
  {
    Placed(s.ingested, s.queues[room], room) && AllCovered(s.queues[room], s.pending)
  }

  ghost predicate Inv(c: Config, s: State) {
    && (!c.delays ==> s.queues == map[])
    && (forall k :: Conserved(s, k))
    && (forall room :: room in s.queues ==> QueueOk(s, room))
    && (forall i :: 0 <= i < |s.published| ==>
      s.published[i].serial < |s.ingested| && s.published[i].update == s.ingested[s.published[i].serial])
  }

  lemma PublishedOfAppend(ps: seq<Publication>, p: Publication, k: Option<RoomId>)
    ensures PublishedOf(ps + [p], k) == PublishedOf(ps, k) + if RoomOf(p.update) == k then [p.serial] else []
  {
    assert (ps + [p])[..|ps|] == ps;
  }

  lemma DelayedLast(queue: seq<Queued>)
    requires queue != []
    ensures var n := |queue| - 1;
      Delayed(queue) == Delayed(queue[..n]) + [Publication(true, queue[n].serial, RoomEvent(queue[n].event))]
  {
  }

  lemma SerialsLast(queue: seq<Queued>)
    requires queue != []
    ensures Serials(queue) == Serials(queue[..|queue| - 1]) + [queue[|queue| - 1].serial]
  {
  }

  lemma {:induction false} DelayedIn(ps: seq<Publication>, queue: seq<Queued>, k: Option<RoomId>, room: RoomId)
    requires forall i :: 0 <= i < |queue| ==> queue[i].event.room == room
    ensures PublishedOf(ps + Delayed(queue), k) == PublishedOf(ps, k) + if k == Some(room) then Serials(queue) else []
  {
    if queue == [] {
      assert ps + Delayed(queue) == ps;
    } else {
      var n := |queue| - 1;
      var init, last := queue[..n], Publication(true, queue[n].serial, RoomEvent(queue[n].event));
      DelayedIn(ps, init, k, room);
      DelayedLast(queue);
      SerialsLast(queue);
      PublishedOfAppend(ps + Delayed(init), last, k);
      assert ps + Delayed(queue) == (ps + Delayed(init)) + [last];
      Regrouped(PublishedOf(ps, k), Serials(init), [queue[n].serial]);
    }
  }

  lemma IngestedOfAppend(us: seq<Update>, u: Update, k: Option<RoomId>)
    ensures IngestedOf(us + [u], k) == IngestedOf(us, k) + if RoomOf(u) == k then [|us|] else []
  {
    assert (us + [u])[..|us|] == us;
  }

  lemma WaitingAfterHold(c: Config, s: State, u: Update, k: Option<RoomId>)
    requires Holds(c, s.queues, u)
    ensures WaitingOf(Ingest(c, s, u).queues, k) ==
      WaitingOf(s.queues, k) + if RoomOf(u) == k then [|s.ingested|] else []
  {
    if RoomOf(u) == k && k.Some? {
      SerialsLast(Ingest(c, s, u).queues[k.value]);
    }
  }

  lemma HeldConserves(c: Config, s: State, u: Update, k: Option<RoomId>)
    requires Conserved(s, k) && Holds(c, s.queues, u)
    ensures Conserved(Ingest(c, s, u), k)
  {
    IngestedOfAppend(s.ingested, u, k);
    WaitingAfterHold(c, s, u, k);
    Regrouped(PublishedOf(s.published, k), WaitingOf(s.queues, k), if RoomOf(u) == k then [|s.ingested|] else []);
  }

  /** An update published at once finds nothing of its room waiting, or it would wait too. */
  lemma PassedConserves(c: Config, s: State, u: Update, k: Option<RoomId>)
    requires Conserved(s, k) && !Holds(c, s.queues, u) && (c.delays || s.queues == map[])
    ensures Conserved(Ingest(c, s, u), k)
  {
    var t := Ingest(c, s, u);
    IngestedOfAppend(s.ingested, u, k);
    assert t.published[..|s.published|] == s.published;
    assert k == RoomOf(u) ==> WaitingOf(s.queues, k) == [];
  }

  lemma MoreCovered(queue: seq<Queued>, pending: set<nat>, longer: seq<Queued>, more: set<nat>, i: nat)
    requires queue <= longer && pending <= more && i < |queue| && Covered(queue, pending, i)
    ensures Covered(longer, more, i)
  {
    if queue[i].serial !in pending {
      var j :| 0 <= j < i && queue[j].serial in pending && queue[j].event.nid > queue[i].event.nid;
      assert longer[j].serial in more;
    }
  }

  lemma IngestKeepsInv(c: Config, s: State, u: Update)
    requires Inv(c, s)
    ensures Inv(c, Ingest(c, s, u))
  {
    var t := Ingest(c, s, u);
    forall k
      ensures Conserved(t, k)
    {
      assert Conserved(s, k);
      if Holds(c, s.queues, u) {
        HeldConserves(c, s, u, k);
      } else {
        PassedConserves(c, s, u, k);
      }
    }
    forall room | room in t.queues
      ensures QueueOk(t, room)
    {
      assert room in s.queues ==> QueueOk(s, room);
      forall i | 0 <= i < |t.queues[room]|
        ensures Covered(t.queues[room], t.pending, i)
      {
        if room in s.queues && i < |s.queues[room]| {
          MoreCovered(s.queues[room], s.pending, t.queues[room], t.pending, i);
        }
      }
    }
  }

  /**
   * Publishing up to a NID, with at most the timers of events with that NID gone, leaves every held event
   * covered: the new head has a larger NID, so it was not standing behind anything and its timer is pending.
   */
  lemma StaysCovered(queue: seq<Queued>, pending: set<nat>, after: set<nat>, nid: int, i: nat)
    requires AllCovered(queue, pending)
    requires forall j :: 0 <= j < |queue| && queue[j].serial in pending && queue[j].event.nid != nid ==>
      queue[j].serial in after
    requires Due(queue, nid) <= i < |queue|
    ensures Covered(queue[Due(queue, nid)..], after, i - Due(queue, nid))
  {
    var due := Due(queue, nid);
    var rest := queue[due..];
    assert Covered(queue, pending, due) && Covered(queue, pending, i);
    assert rest[0].serial in after;
    if queue[i].serial !in after && queue[i].event.nid >= queue[due].event.nid {
      var j :| 0 <= j < i && queue[j].serial in pending && queue[j].event.nid > queue[i].event.nid;
      assert rest[j - due].serial in after;
    }
  }

  lemma {:induction false} SerialsAppend(head: seq<Queued>, tail: seq<Queued>)
    ensures Serials(head + tail) == Serials(head) + Serials(tail)
  {
    if tail == [] {
      assert head + tail == head;
    } else {
      var n := |tail| - 1;
      SerialsAppend(head, tail[..n]);
      assert (head + tail)[..|head| + n] == head + tail[..n];
    }
  }

  lemma WaitingWithQueue(queues: map<RoomId, seq<Queued>>, room: RoomId, queue: seq<Queued>, k: Option<RoomId>)
    ensures WaitingOf(WithQueue(queues, room, queue), k) ==
      if k == Some(room) then Serials(queue) else WaitingOf(queues, k)
  {
  }

  lemma PublishConserves(s: State, room: RoomId, nid: int, k: Option<RoomId>)
    requires Conserved(s, k)
    requires room in s.queues ==> Placed(s.ingested, s.queues[room], room)
    ensures Conserved(PublishUpTo(s, room, nid), k)
  {
    if room in s.queues {
      var queue := s.queues[room];
      var due := Due(queue, nid);
      PublishQueueConserves(s, room, queue[..due], queue[due..], k);
      assert queue == queue[..due] + queue[due..];
    }
  }

  lemma PublishQueueConserves(s: State, room: RoomId, head: seq<Queued>, tail: seq<Queued>, k: Option<RoomId>)
    requires room in s.queues && s.queues[room] == head + tail
    requires forall i :: 0 <= i < |head| ==> head[i].event.room == room
    ensures PublishedOf(s.published + Delayed(head), k) + WaitingOf(WithQueue(s.queues, room, tail), k) ==
      PublishedOf(s.published, k) + WaitingOf(s.queues, k)
  {
    DelayedIn(s.published, head, k, room);
    WaitingWithQueue(s.queues, room, tail, k);
    SerialsAppend(head, tail);
    Regrouped(PublishedOf(s.published, k), if k == Some(room) then Serials(head) else [],
              if k == Some(room) then Serials(tail) else WaitingOf(s.queues, k));
  }

  lemma Regrouped(a: seq<nat>, b: seq<nat>, c: seq<nat>)
    ensures (a + b) + c == a + (b + c) && [] + c == c
  {
  }

  lemma {:induction false} DelayedAt(queue: seq<Queued>, i: nat)
    requires i < |queue|
    ensures |Delayed(queue)| == |queue|
    ensures Delayed(queue)[i] == Publication(true, queue[i].serial, RoomEvent(queue[i].event))
  {
    var n := |queue| - 1;
    if n > 0 {
      DelayedAt(queue[..n], if i < n then i else 0);
    }
  }

  lemma DelayedUpdates(ingested: seq<Update>, queue: seq<Queued>)
    requires forall i :: 0 <= i < |queue| ==>
      queue[i].serial < |ingested| && ingested[queue[i].serial] == RoomEvent(queue[i].event)
    ensures |Delayed(queue)| == |queue|
    ensures forall i :: 0 <= i < |queue| ==>
      Delayed(queue)[i].serial < |ingested| && Delayed(queue)[i].update == ingested[Delayed(queue)[i].serial]
  {
    forall i | 0 <= i < |queue|
      ensures |Delayed(queue)| == |queue| && Delayed(queue)[i].serial < |ingested|
      ensures Delayed(queue)[i].update == ingested[Delayed(queue)[i].serial]
    {
      DelayedAt(queue, i);
    }
    if queue != [] {
      DelayedAt(queue, 0);
    }
  }

  /** The queue of the room published to. */
  lemma RestOk(s: State, after: set<nat>, room: RoomId, nid: int)
    requires room in s.queues && QueueOk(s, room) && OnlyAt(s, after, room, nid)
    requires room in PublishUpTo(s.(pending := after), room, nid).queues
    ensures QueueOk(PublishUpTo(s.(pending := after), room, nid), room)
  {
    var queue := s.queues[room];
    var due := Due(queue, nid);
    forall i | 0 <= i < |queue[due..]|
      ensures Covered(queue[due..], after, i)
    {
      StaysCovered(queue, s.pending, after, nid, i + due);
    }
  }

  /** The queue of any other room, whose timers are untouched. */
  lemma OtherOk(s: State, after: set<nat>, room: RoomId, nid: int, other: RoomId)
    requires other in s.queues && QueueOk(s, other) && OnlyAt(s, after, room, nid) && other != room
    ensures AllCovered(s.queues[other], after)
  {
    var queue := s.queues[other];
    forall i | 0 <= i < |queue|
      ensures Covered(queue, after, i)
    {
      assert Covered(queue, s.pending, i);
    }
  }

  /** Only timers of events in the room with that NID are gone. */
  ghost predicate OnlyAt(s: State, after: set<nat>, room: RoomId, nid: int) {
    forall x :: x in s.pending && x !in after ==>
      x < |s.ingested| && s.ingested[x].RoomEvent? && s.ingested[x].event.room == room && s.ingested[x].event.nid == nid
  }

  /** The shape shared by a fired timer and a transaction ID coming in. */
  lemma PublishKeepsInv(c: Config, s: State, after: set<nat>, room: RoomId, nid: int)
    requires Inv(c, s) && OnlyAt(s, after, room, nid)
    ensures Inv(c, PublishUpTo(s.(pending := after), room, nid))
  {
    var s' := s.(pending := after);
    var t := PublishUpTo(s', room, nid);
    assert room in s.queues ==> QueueOk(s, room);
    if room in s.queues {
      DelayedUpdates(s.ingested, s.queues[room][..Due(s.queues[room], nid)]);
    }
    forall k
      ensures Conserved(t, k)
    {
      assert Conserved(s, k);
      PublishConserves(s', room, nid, k);
    }
    forall r | r in t.queues
      ensures QueueOk(t, r)
    {
      assert QueueOk(s, r);
      if r == room {
        RestOk(s, after, room, nid);
      } else {
        OtherOk(s, after, room, nid, r);
      }
    }
  }

  lemma NextKeepsInv(c: Config, s: State, step: Step)
    requires Inv(c, s)
    ensures Inv(c, Next(c, s, step))
  {
    match step
    case Ingested(u) => IngestKeepsInv(c, s, u);
    case TxnIdSeen(room, nid) => PublishKeepsInv(c, s, s.pending, room, nid);
    case TimerFired(serial) =>
      if serial < |s.ingested| && serial in s.pending && s.ingested[serial].RoomEvent? {
        var e := s.ingested[serial].event;
        PublishKeepsInv(c, s, s.pending - {serial}, e.room, e.nid);
      }
  }

  ghost function Run(c: Config, s: State, steps: seq<Step>): State
    decreases steps
  {
    if steps == [] then s else Run(c, Next(c, s, steps[0]), steps[1..])
  }

  lemma {:induction false} RunKeepsInv(c: Config, s: State, steps: seq<Step>)
    requires Inv(c, s)
    ensures Inv(c, Run(c, s, steps))
    decreases steps
  {
    if steps != [] {
      NextKeepsInv(c, s, steps[0]);
      RunKeepsInv(c, Next(c, s, steps[0]), steps[1..]);
    }
  }

  /** A queue whose timers have all fired is empty: its first event has nothing to stand behind. */
  lemma NoTimerNoQueue(c: Config, s: State, room: RoomId)
    requires Inv(c, s) && (forall x :: x in s.pending && x < |s.ingested| ==> RoomOf(s.ingested[x]) != Some(room))
    ensures room !in s.queues
  {
    assert room in s.queues ==> QueueOk(s, room) && Covered(s.queues[room], s.pending, 0);
  }

  /**
   * Whatever the NIDs, and in whatever order timers fire and transaction IDs come in, each room's updates
   * are published in the order of ingestion, and all of them once the room's timers have fired.
   */
  lemma AllPublishedInOrder(c: Config, steps: seq<Step>, k: Option<RoomId>)
    ensures var s := Run(c, EMPTY, steps);
      PublishedOf(s.published, k) <= IngestedOf(s.ingested, k)
    ensures var s := Run(c, EMPTY, steps);
      (forall x :: x in s.pending && x < |s.ingested| ==> RoomOf(s.ingested[x]) != k) ==>
        PublishedOf(s.published, k) == IngestedOf(s.ingested, k)
  {
    EmptyOk(c);
    RunKeepsInv(c, EMPTY, steps);
    var s := Run(c, EMPTY, steps);
    assert Conserved(s, k);
    if k.Some? && forall x :: x in s.pending && x < |s.ingested| ==> RoomOf(s.ingested[x]) != k {
      NoTimerNoQueue(c, s, k.value);
    }
  }

  lemma EmptyOk(c: Config)
    ensures Inv(c, EMPTY)
  {
    forall k
      ensures Conserved(EMPTY, k)
    {
    }
  }

  lemma {:induction false} IngestedOfExactly(us: seq<Update>, k: Option<RoomId>)
    ensures forall x: nat :: x in IngestedOf(us, k) <==> x < |us| && RoomOf(us[x]) == k
    ensures forall i, j :: 0 <= i < j < |IngestedOf(us, k)| ==> IngestedOf(us, k)[i] < IngestedOf(us, k)[j]
  {
    if us != [] {
      var n := |us| - 1;
      var init := IngestedOf(us[..n], k);
      IngestedOfExactly(us[..n], k);
      assert forall i :: 0 <= i < |init| ==> init[i] in init;
    }
  }

  lemma {:induction false} SerialAt(queue: seq<Queued>, i: nat)
    requires i < |queue|
    ensures |Serials(queue)| == |queue| && Serials(queue)[i] == queue[i].serial
  {
    var n := |queue| - 1;
    if n > 0 {
      SerialAt(queue[..n], if i < n then i else 0);
    }
  }

  /** In one room, the later of two waiting events was ingested later. */
  lemma QueueIncreases(c: Config, s: State, room: RoomId, i: nat, j: nat)
    requires Inv(c, s) && room in s.queues && j < i < |s.queues[room]|
    ensures s.queues[room][j].serial < s.queues[room][i].serial
  {
    var queue := s.queues[room];
    var done := PublishedOf(s.published, Some(room));
    SerialAt(queue, i);
    SerialAt(queue, j);
    IngestedOfExactly(s.ingested, Some(room));
    assert Conserved(s, Some(room));
    assert (done + Serials(queue))[|done| + i] == queue[i].serial;
    assert (done + Serials(queue))[|done| + j] == queue[j].serial;
  }

  /**
   * No event waits longer than the maximum delay when timers fire in the order they were started: with no
   * timer of its room pending up to its own, an event has been published.
   */
  lemma PublishedInTime(c: Config, s: State, x: nat)
    requires Inv(c, s) && x < |s.ingested|
    requires forall y :: y in s.pending && y < |s.ingested| && RoomOf(s.ingested[y]) == RoomOf(s.ingested[x]) ==> y > x
    ensures x in PublishedOf(s.published, RoomOf(s.ingested[x]))
  {
    var k := RoomOf(s.ingested[x]);
    IngestedOfExactly(s.ingested, k);
    assert Conserved(s, k);
    if x in WaitingOf(s.queues, k) {
      var queue := s.queues[k.value];
      assert QueueOk(s, k.value);
      var i :| 0 <= i < |Serials(queue)| && Serials(queue)[i] == x;
      SerialAt(queue, 0);
      SerialAt(queue, i);
      assert Covered(queue, s.pending, i);
      var j :| 0 <= j < i && queue[j].serial in s.pending;
      QueueIncreases(c, s, k.value, i, j);
    }
  }

  // ---- the waiter itself ----

  class Waiter {
    const config: Config
    var ingested: seq<Update>
    var published: seq<Publication>
    var queues: map<RoomId, seq<Queued>>
    var pending: set<nat>

    ghost function Contents(): State
      reads this
    {
      State(ingested, published, queues, pending)
    }

    constructor (config: Config)
      ensures this.config == config && Contents() == EMPTY && Inv(config, Contents())
    {
      this.config := config;
      ingested, published, queues, pending := [], [], map[], {};
      new;
      EmptyOk(config);
    }

    method IngestUpdate(u: Update)
      requires Inv(config, Contents())
      modifies this
      ensures Contents() == Ingest(config, old(Contents()), u) && Inv(config, Contents())
    {
      IngestKeepsInv(config, Contents(), u);
      var serial := |ingested|;
      ingested := ingested + [u];
      if !config.delays {
        published := published + [Publication(false, serial, u)];
        return;
      }
      if !u.RoomEvent? {
        published := published + [Publication(false, serial, u)];
        return;
      }
      var roomQueued := u.event.room in queues;
      var missingTxnId := !u.event.isState && u.event.sender == config.user && u.event.transactionId == "";
      if !(missingTxnId || roomQueued) {
        published := published + [Publication(false, serial, u)];
        return;
      }
      var queue: seq<Queued> := [];
      if roomQueued {
        queue := queues[u.event.room];
      }
      queues := queues[u.event.room := queue + [Queued(serial, u.event)]];
      pending := pending + {serial};
    }

    method PublishUpToNid(room: RoomId, nid: int)
      modifies this`published, this`queues
      ensures Contents() == PublishUpTo(old(Contents()), room, nid)
    {
      if room !in queues {
        return;
      }
      var queue := queues[room];
      var i := 0;
      while i < |queue|
        invariant 0 <= i <= |queue|
        invariant i + Due(queue[i..], nid) == Due(queue, nid)
      {
        assert queue[i..][1..] == queue[i + 1..];
        if queue[i].event.nid > nid {
          break;
        }
        i := i + 1;
      }
      assert i == Due(queue, nid);
      var toPublish, rest := queue[..i], queue[i..];
      if |rest| == 0 {
        queues := queues - {room};
      } else {
        queues := queues[room := rest];
      }
      ghost var before := published;
      assert before + [] == before;
      for j := 0 to |toPublish|
        modifies this`published
        invariant published == before + Delayed(toPublish[..j])
      {
        assert toPublish[..j + 1][..j] == toPublish[..j];
        published := published + [Publication(true, toPublish[j].serial, RoomEvent(toPublish[j].event))];
      }
      assert toPublish[..|toPublish|] == toPublish;
    }
  }
}
