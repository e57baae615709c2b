/** state/accumulator.go: what a state block, inserted as a batch, does to the room state. */
module StateBlocks {
  import opened Common
  import opened EventLog
  import opened RoomTables

  ghost function FirstOf(es: seq<Event>, id: EventId): (f: nat)
    requires Seen(es, id)
    ensures f < |es| && es[f].id == id && forall j :: 0 <= j < f ==> es[j].id != id
  {
    if es[0].id == id then 0
    else
      assert Seen(es[1..], id) by {
        var i :| 0 <= i < |es| && es[i].id == id;
        assert es[1..][i - 1] == es[i];
      }
      1 + FirstOf(es[1..], id)
  }

  // ---- a batch of inserted events ----

  /** Event `i` got the next row number if its id was new then, and wasted it otherwise. */
  ghost predicate InsertedAt(events: seq<Slot>, base: nat, es: seq<Event>, nids: map<EventId, Nid>, room: RoomId,
                             inStateBlock: bool, i: nat)
    requires i < |es| && |events| == base + |es|
  {
    if es[i].id in nids && FirstOf(es, es[i].id) == i
    then nids[es[i].id] == base + 1 + i && events[base + i] == Stored(Row(es[i], room, inStateBlock))
    else events[base + i].Burned?
  }

  ghost predicate AllInserted(events: seq<Slot>, base: nat, es: seq<Event>, nids: map<EventId, Nid>, room: RoomId,
                              inStateBlock: bool) {
    && |events| == base + |es|
    && forall i :: 0 <= i < |es| ==> InsertedAt(events, base, es, nids, room, inStateBlock, i)
  }

  /** `events` is `table` with the batch inserted, and `nids` has the row numbers of the ids that were new. */
  ghost predicate Batch(table: seq<Slot>, events: seq<Slot>, es: seq<Event>, nids: map<EventId, Nid>, room: RoomId,
                        inStateBlock: bool) {
    && (forall i :: 0 <= i < |es| ==> (es[i].id in nids <==> !Known(table, es[i].id)))
    && AllInserted(events, |table|, es, nids, room, inStateBlock)
  }

  /** `nids` has the row numbers of the ids that were new among the first `i` events. */
  ghost predicate NumbersUpTo(table: seq<Slot>, es: seq<Event>, nids: map<EventId, Nid>, i: nat)
    requires i <= |es|
  {
    && (forall id :: id in nids ==> exists j :: 0 <= j < i && es[j].id == id)
    && (forall j :: 0 <= j < i ==>
         (es[j].id in nids <==> !Known(table, es[j].id)) &&
         (es[j].id in nids ==> nids[es[j].id] == |table| + 1 + FirstOf(es, es[j].id)))
  }

  /** An id that is in the table, or came earlier in the batch, has its row number already if it is new. */
  lemma {:induction false} NumbersKnown(table: seq<Slot>, es: seq<Event>, nids: map<EventId, Nid>, i: nat)
    requires i < |es| && NumbersUpTo(table, es, nids, i)
    requires Known(table, es[i].id) || Seen(es[..i], es[i].id)
    ensures NumbersUpTo(table, es, nids, i + 1)
  {
    if Seen(es[..i], es[i].id) {
      var j :| 0 <= j < i && es[..i][j].id == es[i].id;
      assert es[j].id == es[i].id;
    }
  }

  lemma {:induction false} NumbersNew(table: seq<Slot>, es: seq<Event>, nids: map<EventId, Nid>, i: nat)
    requires i < |es| && NumbersUpTo(table, es, nids, i)
    requires !Known(table, es[i].id) && !Seen(es[..i], es[i].id)
    ensures NumbersUpTo(table, es, nids[es[i].id := |table| + 1 + i], i + 1)
  {
    assert forall j :: 0 <= j < i ==> es[..i][j] == es[j];
    assert forall j :: 0 <= j < i ==> es[j].id != es[i].id;
    assert FirstOf(es, es[i].id) == i;
  }

  /** One insert: the event's id is in the table by now, or the event takes the next row. */
  lemma {:induction false} InsertStep(table: seq<Slot>, events: seq<Slot>, es: seq<Event>, room: RoomId,
                                      inStateBlock: bool, i: nat)
    requires i < |es| && events == table + NewSlots(table, es[..i], room, inStateBlock)
    ensures table + NewSlots(table, es[..i + 1], room, inStateBlock) ==
      events + [if Known(events, es[i].id) then Burned else Stored(Row(es[i], room, inStateBlock))]
  {
    NewSlotsNext(table, es, room, inStateBlock, i);
  }

  lemma {:induction false} NumbersStep(table: seq<Slot>, events: seq<Slot>, es: seq<Event>, room: RoomId,
                                       inStateBlock: bool, nids: map<EventId, Nid>, i: nat)
    requires i < |es| && NumbersUpTo(table, es, nids, i)
    requires events == table + NewSlots(table, es[..i], room, inStateBlock)
    ensures if Known(events, es[i].id) then NumbersUpTo(table, es, nids, i + 1)
      else NumbersUpTo(table, es, nids[es[i].id := |events| + 1], i + 1)
  {
    KnownAfter(table, es[..i], room, inStateBlock, es[i].id);
    if Known(events, es[i].id) {
      NumbersKnown(table, es, nids, i);
    } else {
      NumbersNew(table, es, nids, i);
    }
  }

  /** Row by row: an id that is in the table by then wastes its row number. */
  method InsertInto(table: seq<Slot>, es: seq<Event>, room: RoomId, inStateBlock: bool)
    returns (all: seq<Slot>, nids: map<EventId, Nid>)
    ensures all == table + NewSlots(table, es, room, inStateBlock) && NumbersUpTo(table, es, nids, |es|)
  {
    all, nids := table, map[];
    for i := 0 to |es|
      invariant all == table + NewSlots(table, es[..i], room, inStateBlock)
      invariant NumbersUpTo(table, es, nids, i)
    {
      InsertStep(table, all, es, room, inStateBlock, i);
      NumbersStep(table, all, es, room, inStateBlock, nids, i);
      if Known(all, es[i].id) {
        all := all + [Burned];
      } else {
        all := all + [Stored(Row(es[i], room, inStateBlock))];
        nids := nids[es[i].id := |all|];
      }
    }
    assert es[..|es|] == es;
  }

  lemma {:induction false} BatchInserted(table: seq<Slot>, es: seq<Event>, room: RoomId, inStateBlock: bool,
                                         nids: map<EventId, Nid>)
    requires NumbersUpTo(table, es, nids, |es|)
    ensures Batch(table, table + NewSlots(table, es, room, inStateBlock), es, nids, room, inStateBlock)
  {
    var events := table + NewSlots(table, es, room, inStateBlock);
    forall i | 0 <= i < |es| ensures InsertedAt(events, |table|, es, nids, room, inStateBlock, i) {
      NewSlotAt(table, es, room, inStateBlock, i);
      assert FirstOf(es, es[i].id) <= i;
      assert Seen(es[..i], es[i].id) <==> FirstOf(es, es[i].id) < i by {
        if Seen(es[..i], es[i].id) {
          var j :| 0 <= j < i && es[..i][j].id == es[i].id;
        }
        assert FirstOf(es, es[i].id) < i ==> es[..i][FirstOf(es, es[i].id)].id == es[i].id;
      }
    }
  }

  /** The row of an event that was new is that of its first copy. */
  lemma {:induction false} RowOfNew(table: seq<Slot>, events: seq<Slot>, es: seq<Event>, nids: map<EventId, Nid>,
                                    room: RoomId, inStateBlock: bool, i: nat)
    requires Batch(table, events, es, nids, room, inStateBlock) && i < |es| && es[i].id in nids
    ensures var f := FirstOf(es, es[i].id);
      nids[es[i].id] == |table| + 1 + f && events[|table| + f] == Stored(Row(es[f], room, inStateBlock))
  {
    var f := FirstOf(es, es[i].id);
    assert InsertedAt(events, |table|, es, nids, room, inStateBlock, f);
  }

  /** A row of the batch is the first copy of an event that was new. */
  lemma {:induction false} NewOfRow(table: seq<Slot>, events: seq<Slot>, es: seq<Event>, nids: map<EventId, Nid>,
                                    room: RoomId, inStateBlock: bool, n: Nid)
    requires Batch(table, events, es, nids, room, inStateBlock) && |table| < n && HasRow(events, n)
    ensures var f := n - 1 - |table|;
      f < |es| && es[f].id in nids && FirstOf(es, es[f].id) == f && RowAt(events, n) == Row(es[f], room, inStateBlock)
  {
    assert InsertedAt(events, |table|, es, nids, room, inStateBlock, n - 1 - |table|);
  }

  // ---- ingesting a state block ----

  /** The state map once every new event of the block, copies included, has been put under its key. */
  ghost function Ingested(current: State, es: seq<Event>, nids: map<EventId, Nid>): State {
    if es == [] then current
    else
      var e := es[|es| - 1];
      var m := Ingested(current, es[..|es| - 1], nids);
      if e.id in nids then m[KeyOf(e) := nids[e.id]] else m
  }

  method IngestAll(current: State, es: seq<Event>, nids: map<EventId, Nid>) returns (m: State)
    ensures m == Ingested(current, es, nids)
  {
    m := current;
    for i := 0 to |es|
      invariant m == Ingested(current, es[..i], nids)
    {
      assert es[..i + 1][..i] == es[..i];
      if es[i].id in nids {
        m := m[KeyOf(es[i]) := nids[es[i].id]];
      }
    }
    assert es[..|es|] == es;
  }

  lemma {:induction false} IngestedNone(current: State, es: seq<Event>, nids: map<EventId, Nid>, k: Key)
    requires forall i :: 0 <= i < |es| && es[i].id in nids ==> KeyOf(es[i]) != k
    ensures var m := Ingested(current, es, nids); (k in m <==> k in current) && (k in m ==> m[k] == current[k])
  {
    if es != [] {
      IngestedNone(current, es[..|es| - 1], nids, k);
    }
  }

  lemma {:induction false} IngestedLast(current: State, es: seq<Event>, nids: map<EventId, Nid>, i: nat)
    requires i < |es| && es[i].id in nids
    requires forall j :: i < j < |es| && es[j].id in nids ==> KeyOf(es[j]) != KeyOf(es[i])
    ensures var m := Ingested(current, es, nids); KeyOf(es[i]) in m && m[KeyOf(es[i])] == nids[es[i].id]
  {
    if i < |es| - 1 {
      IngestedLast(current, es[..|es| - 1], nids, i);
    }
  }

  /** A map from keys to rows with those keys. */
  ghost predicate Keyed(events: seq<Slot>, m: State) {
    forall k :: k in m ==> HasRow(events, m[k]) && KeyAt(events, m[k]) == k
  }

  lemma FoldKeyed(events: seq<Slot>, room: RoomId, n: nat)
    requires n <= |events|
    ensures Keyed(events, Fold(events, room, n))
  {
    forall k | k in Fold(events, room, n)
      ensures HasRow(events, Fold(events, room, n)[k]) && KeyAt(events, Fold(events, room, n)[k]) == k
    {
      FoldValues(events, room, n, k);
    }
  }

  /** Under different keys `m` has different rows, and they are the rows that `s` has, under whatever keys. */
  ghost predicate SameRows(m: State, s: State) {
    && (forall k, l :: k in m && l in m && m[k] == m[l] ==> k == l)
    && (forall k :: k in m ==> HasValue(s, m[k]))
    && (forall l :: l in s ==> HasValue(m, s[l]))
  }

  ghost predicate HasValue(m: State, n: Nid) { exists k :: k in m && m[k] == n }

  /** `nids` are the values of `m`, one for each of its keys. */
  ghost predicate Enumerates(m: State, keys: seq<Key>, nids: seq<Nid>) {
    && NoDup(keys) && |nids| == |keys| && (forall k :: k in m <==> k in keys)
    && (forall i :: 0 <= i < |keys| ==> keys[i] in m && nids[i] == m[keys[i]])
  }

  lemma PlaceOf(m: State, keys: seq<Key>, nids: seq<Nid>, k: Key) returns (i: nat)
    requires Enumerates(m, keys, nids) && k in m
    ensures i < |keys| && keys[i] == k && nids[i] == m[k]
  {
    i :| 0 <= i < |keys| && keys[i] == k;
  }

  /** The values of a map hold a state exactly when they are that state's rows, each once. */
  lemma EnumeratedExactly(events: seq<Slot>, m: State, keys: seq<Key>, nids: seq<Nid>, s: State)
    requires Enumerates(m, keys, nids) && Keyed(events, s)
    ensures Represents(events, nids, s) <==> SameRows(m, s)
  {
    if SameRows(m, s) {
      EnumeratesHeld(events, m, keys, nids, s);
    } else if Represents(events, nids, s) {
      EnumeratesApart(m, keys, nids);
      EnumeratesSame(events, m, keys, nids, s);
    }
  }

  lemma EnumeratesHeld(events: seq<Slot>, m: State, keys: seq<Key>, nids: seq<Nid>, s: State)
    requires Enumerates(m, keys, nids) && Keyed(events, s) && SameRows(m, s)
    ensures Represents(events, nids, s)
  {
    forall n | n in nids ensures Holds(events, s, n) {
      var i :| 0 <= i < |nids| && nids[i] == n;
      assert HasValue(s, m[keys[i]]);
    }
    forall k | k in s ensures s[k] in nids {
      assert HasValue(m, s[k]);
      var l :| l in m && m[l] == s[k];
      var i := PlaceOf(m, keys, nids, l);
    }
  }

  lemma EnumeratesApart(m: State, keys: seq<Key>, nids: seq<Nid>)
    requires Enumerates(m, keys, nids) && NoDup(nids)
    ensures forall k, l :: k in m && l in m && m[k] == m[l] ==> k == l
  {
    forall k, l | k in m && l in m && m[k] == m[l] ensures k == l {
      var i := PlaceOf(m, keys, nids, k);
      var j := PlaceOf(m, keys, nids, l);
    }
  }

  lemma EnumeratesSame(events: seq<Slot>, m: State, keys: seq<Key>, nids: seq<Nid>, s: State)
    requires Enumerates(m, keys, nids) && Represents(events, nids, s)
    ensures (forall k :: k in m ==> HasValue(s, m[k])) && (forall l :: l in s ==> HasValue(m, s[l]))
  {
    forall k | k in m ensures HasValue(s, m[k]) {
      var i := PlaceOf(m, keys, nids, k);
      assert nids[i] in nids && Holds(events, s, nids[i]);
    }
    forall l | l in s ensures HasValue(m, s[l]) {
      var i :| 0 <= i < |nids| && nids[i] == s[l];
      assert m[keys[i]] == s[l];
    }
  }

  // ---- blocks that repeat an event ID ----

  /** No later new event of the block has this one's type and state key. */
  ghost predicate IsLast(table: seq<Slot>, es: seq<Event>, i: int) {
    && 0 <= i < |es| && !Known(table, es[i].id)
    && forall j :: i < j < |es| && !Known(table, es[j].id) ==> KeyOf(es[j]) != KeyOf(es[i])
  }

  /** The event is stored: it is new, and the first with its ID. */
  ghost predicate IsFirst(table: seq<Slot>, es: seq<Event>, i: int) {
    0 <= i < |es| && !Known(table, es[i].id) && FirstOf(es, es[i].id) == i
  }

  /** No later stored event has this one's type and state key. */
  ghost predicate IsNewest(table: seq<Slot>, es: seq<Event>, f: int)
    requires 0 <= f < |es|
  {
    forall j :: f < j && IsFirst(table, es, j) ==> KeyOf(es[j]) != KeyOf(es[f])
  }

  /**
   * For every type and state key, the last new event with them has an ID whose first copy is the newest stored
   * event of its own type and state key, and no two of these last events share an ID.
   */
  ghost predicate CopiesInOrder(table: seq<Slot>, es: seq<Event>) {
    && (forall i :: IsLast(table, es, i) ==> IsNewest(table, es, FirstOf(es, es[i].id)))
    && (forall i, j :: IsLast(table, es, i) && IsLast(table, es, j) && es[i].id == es[j].id ==> i == j)
  }

  /** A block without repeated IDs is always in order. */
  lemma {:induction false} DistinctInOrder(table: seq<Slot>, es: seq<Event>)
    requires DistinctIds(es)
    ensures CopiesInOrder(table, es)
  {
    assert forall i :: 0 <= i < |es| ==> FirstOf(es, es[i].id) == i;
  }

  lemma {:induction false} SomeLast(table: seq<Slot>, es: seq<Event>, i: int) returns (l: int)
    requires 0 <= i < |es| && !Known(table, es[i].id)
    ensures IsLast(table, es, l) && KeyOf(es[l]) == KeyOf(es[i])
    decreases |es| - i
  {
    if j :| i < j < |es| && !Known(table, es[j].id) && KeyOf(es[j]) == KeyOf(es[i]) {
      l := SomeLast(table, es, j);
    } else {
      l := i;
    }
  }

  lemma LastUnique(table: seq<Slot>, es: seq<Event>, i: int, j: int)
    requires IsLast(table, es, i) && IsLast(table, es, j) && KeyOf(es[i]) == KeyOf(es[j])
    ensures i == j
  {
  }

  /** The key under which the last event with key `k` is stored. */
  ghost predicate StoredUnder(table: seq<Slot>, es: seq<Event>, k: Key, l: Key) {
    exists i :: IsLast(table, es, i) && KeyOf(es[i]) == k && KeyOf(es[FirstOf(es, es[i].id)]) == l
  }

  lemma {:induction false} StoredOnce(table: seq<Slot>, es: seq<Event>, k: Key, k': Key, l: Key)
    requires CopiesInOrder(table, es) && StoredUnder(table, es, k, l) && StoredUnder(table, es, k', l)
    ensures k == k'
  {
    var i :| IsLast(table, es, i) && KeyOf(es[i]) == k && KeyOf(es[FirstOf(es, es[i].id)]) == l;
    var j :| IsLast(table, es, j) && KeyOf(es[j]) == k' && KeyOf(es[FirstOf(es, es[j].id)]) == l;
    var f, g := FirstOf(es, es[i].id), FirstOf(es, es[j].id);
    assert IsFirst(table, es, f) && IsFirst(table, es, g);
    assert f == g;
  }

  ghost function NewKeys(table: seq<Slot>, es: seq<Event>): set<Key> {
    set j | 0 <= j < |es| && !Known(table, es[j].id) :: KeyOf(es[j])
  }

  lemma {:induction false} IsStoredUnder(table: seq<Slot>, es: seq<Event>, k: Key)
    requires k in NewKeys(table, es)
    ensures exists l :: StoredUnder(table, es, k, l)
  {
    var j :| 0 <= j < |es| && !Known(table, es[j].id) && KeyOf(es[j]) == k;
    var last := SomeLast(table, es, j);
    assert StoredUnder(table, es, k, KeyOf(es[FirstOf(es, es[last].id)]));
  }

  lemma {:induction false} StoredIsNew(table: seq<Slot>, es: seq<Event>, k: Key, l: Key)
    requires StoredUnder(table, es, k, l)
    ensures l in NewKeys(table, es)
  {
    var i :| IsLast(table, es, i) && KeyOf(es[i]) == k && KeyOf(es[FirstOf(es, es[i].id)]) == l;
    var f := FirstOf(es, es[i].id);
    assert !Known(table, es[f].id);
  }

  ghost function UnderOf(table: seq<Slot>, es: seq<Event>, k: Key): (l: Key)
    requires k in NewKeys(table, es)
    ensures StoredUnder(table, es, k, l)
  {
    IsStoredUnder(table, es, k);
    var l :| StoredUnder(table, es, k, l);
    l
  }

  lemma UnderMap(table: seq<Slot>, es: seq<Event>) returns (under: map<Key, Key>)
    ensures under.Keys == NewKeys(table, es) && forall k :: k in under.Keys ==> StoredUnder(table, es, k, under[k])
  {
    under := map k | k in NewKeys(table, es) :: UnderOf(table, es, k);
  }

  lemma {:induction false} UnderInjective(table: seq<Slot>, es: seq<Event>, under: map<Key, Key>, image: set<Key>)
    requires CopiesInOrder(table, es) && image == set j | j in under.Keys :: under[j]
    requires under.Keys == NewKeys(table, es) && forall k :: k in under.Keys ==> StoredUnder(table, es, k, under[k])
    ensures image <= under.Keys
    ensures forall i, j :: i in under.Keys && j in under.Keys && under[i] == under[j] ==> i == j
  {
    forall y | y in image ensures y in under.Keys {
      var j :| j in under.Keys && under[j] == y;
      StoredIsNew(table, es, j, y);
    }
    forall i, j | i in under.Keys && j in under.Keys && under[i] == under[j] ensures i == j {
      StoredOnce(table, es, i, j, under[i]);
    }
  }

  lemma {:induction false} SomeStoredUnder(table: seq<Slot>, es: seq<Event>, k: Key) returns (j: Key)
    requires CopiesInOrder(table, es) && k in NewKeys(table, es)
    ensures StoredUnder(table, es, j, k)
  {
    var under := UnderMap(table, es);
    var image := set i | i in under.Keys :: under[i];
    UnderInjective(table, es, under, image);
    j := Preimage(under, image, k);
  }

  /** In a block in order, every key that an event has is a key that some last event is stored under. */
  lemma {:induction false} EveryKeyStored(table: seq<Slot>, es: seq<Event>, k: Key) returns (l: int)
    requires CopiesInOrder(table, es) && k in NewKeys(table, es)
    ensures IsLast(table, es, l) && KeyOf(es[FirstOf(es, es[l].id)]) == k
  {
    var j := SomeStoredUnder(table, es, k);
    l :| IsLast(table, es, l) && KeyOf(es[l]) == j && KeyOf(es[FirstOf(es, es[l].id)]) == k;
  }

  // ---- what a block leaves under one key ----

  /** A key without new events keeps what it had. */
  lemma {:induction false} KeptAtKey(table: seq<Slot>, events: seq<Slot>, es: seq<Event>, nids: map<EventId, Nid>,
                                     room: RoomId, k: Key)
    requires Batch(table, events, es, nids, room, true)
    requires forall i :: 0 <= i < |es| && es[i].id in nids ==> KeyOf(es[i]) != k
    ensures var m, s := Ingested(Fold(events, room, |table|), es, nids), Fold(events, room, |events|);
      (k in m <==> k in s) && (k in m ==> m[k] == s[k] <= |table|)
  {
    IngestedNone(Fold(events, room, |table|), es, nids, k);
    forall n | |table| < n <= |events| && IsStateIn(events, room, n) ensures KeyAt(events, n) != k {
      NewOfRow(table, events, es, nids, room, true, n);
    }
    FoldKeyStable(events, room, |table|, |events|, k);
    if k in Fold(events, room, |table|) {
      FoldValues(events, room, |table|, k);
    }
  }

  /** A key with new events gets the row of the last of them. */
  lemma {:induction false} IngestedAtKey(table: seq<Slot>, events: seq<Slot>, es: seq<Event>, nids: map<EventId, Nid>,
                                         room: RoomId, i: int)
    requires Batch(table, events, es, nids, room, true) && IsLast(table, es, i)
    ensures var k, m := KeyOf(es[i]), Ingested(Fold(events, room, |table|), es, nids);
      k in m && m[k] == |table| + 1 + FirstOf(es, es[i].id)
  {
    IngestedLast(Fold(events, room, |table|), es, nids, i);
    RowOfNew(table, events, es, nids, room, true, i);
  }

  /** The fold has under a key the row of the newest event stored with it. */
  lemma {:induction false} FoldedAtKey(table: seq<Slot>, events: seq<Slot>, es: seq<Event>, nids: map<EventId, Nid>,
                                       room: RoomId, f: int)
    requires Batch(table, events, es, nids, room, true) && IsFirst(table, es, f)
    ensures var k, s := KeyOf(es[f]), Fold(events, room, |events|);
      k in s && s[k] >= |table| + 1 + f && (s[k] == |table| + 1 + f <==> IsNewest(table, es, f))
  {
    var k, s, n := KeyOf(es[f]), Fold(events, room, |events|), |table| + 1 + f;
    RowOfNew(table, events, es, nids, room, true, f);
    FoldAtLeast(events, room, n, |events|);
    if s[k] == n {
      forall j | f < j && IsFirst(table, es, j) ensures KeyOf(es[j]) != k {
        RowOfNew(table, events, es, nids, room, true, j);
        FoldAtLeast(events, room, |table| + 1 + j, |events|);
      }
    } else {
      FoldValues(events, room, |events|, k);
      NewOfRow(table, events, es, nids, room, true, s[k]);
      assert IsFirst(table, es, s[k] - 1 - |table|);
    }
  }

  /** The last event with a key, if it is in order, is what the fold has under the key it is stored with. */
  lemma {:induction false} LastInFold(table: seq<Slot>, events: seq<Slot>, es: seq<Event>, nids: map<EventId, Nid>,
                                      room: RoomId, i: int)
    requires Batch(table, events, es, nids, room, true) && IsLast(table, es, i)
    ensures var f, s := FirstOf(es, es[i].id), Fold(events, room, |events|);
      HasValue(s, |table| + 1 + f) <==> IsNewest(table, es, f)
  {
    var f, s := FirstOf(es, es[i].id), Fold(events, room, |events|);
    assert IsFirst(table, es, f);
    FoldedAtKey(table, events, es, nids, room, f);
    if HasValue(s, |table| + 1 + f) {
      var l :| l in s && s[l] == |table| + 1 + f;
      FoldValues(events, room, |events|, l);
      RowOfNew(table, events, es, nids, room, true, f);
    }
  }

  // ---- when a block is ingested right ----

  lemma {:induction false} IngestedApart(table: seq<Slot>, events: seq<Slot>, es: seq<Event>, nids: map<EventId, Nid>,
                                         room: RoomId, k: Key, l: Key)
    requires Batch(table, events, es, nids, room, true) && CopiesInOrder(table, es)
    requires var m := Ingested(Fold(events, room, |table|), es, nids); k in m && l in m && m[k] == m[l]
    ensures k == l
  {
    if i :| 0 <= i < |es| && es[i].id in nids && KeyOf(es[i]) == k {
      var a := SomeLast(table, es, i);
      IngestedAtKey(table, events, es, nids, room, a);
      if j :| 0 <= j < |es| && es[j].id in nids && KeyOf(es[j]) == l {
        var b := SomeLast(table, es, j);
        IngestedAtKey(table, events, es, nids, room, b);
      } else {
        KeptAtKey(table, events, es, nids, room, l);
      }
    } else {
      KeptAtKey(table, events, es, nids, room, k);
      if j :| 0 <= j < |es| && es[j].id in nids && KeyOf(es[j]) == l {
        var b := SomeLast(table, es, j);
        IngestedAtKey(table, events, es, nids, room, b);
      } else {
        KeptAtKey(table, events, es, nids, room, l);
        FoldKeyed(events, room, |events|);
      }
    }
  }

  lemma {:induction false} LastIsFolded(table: seq<Slot>, events: seq<Slot>, es: seq<Event>, nids: map<EventId, Nid>,
                                        room: RoomId, i: int)
    requires Batch(table, events, es, nids, room, true) && IsLast(table, es, i)
    requires IsNewest(table, es, FirstOf(es, es[i].id))
    ensures var k, m := KeyOf(es[i]), Ingested(Fold(events, room, |table|), es, nids);
      k in m && HasValue(Fold(events, room, |events|), m[k])
  {
    IngestedAtKey(table, events, es, nids, room, i);
    LastInFold(table, events, es, nids, room, i);
  }

  lemma {:induction false} IngestedInFold(table: seq<Slot>, events: seq<Slot>, es: seq<Event>,
                                          nids: map<EventId, Nid>, room: RoomId, k: Key)
    requires Batch(table, events, es, nids, room, true) && CopiesInOrder(table, es)
    requires k in Ingested(Fold(events, room, |table|), es, nids)
    ensures HasValue(Fold(events, room, |events|), Ingested(Fold(events, room, |table|), es, nids)[k])
  {
    if i :| 0 <= i < |es| && es[i].id in nids && KeyOf(es[i]) == k {
      var a := SomeLast(table, es, i);
      LastIsFolded(table, events, es, nids, room, a);
    } else {
      KeptAtKey(table, events, es, nids, room, k);
    }
  }

  lemma {:induction false} FoldInIngested(table: seq<Slot>, events: seq<Slot>, es: seq<Event>,
                                          nids: map<EventId, Nid>, room: RoomId, l: Key)
    requires Batch(table, events, es, nids, room, true) && CopiesInOrder(table, es)
    requires l in Fold(events, room, |events|)
    ensures HasValue(Ingested(Fold(events, room, |table|), es, nids), Fold(events, room, |events|)[l])
  {
    if i :| 0 <= i < |es| && es[i].id in nids && KeyOf(es[i]) == l {
      var a := EveryKeyStored(table, es, l);
      var f := FirstOf(es, es[a].id);
      assert IsFirst(table, es, f) && IsNewest(table, es, f);
      FoldedAtKey(table, events, es, nids, room, f);
      IngestedAtKey(table, events, es, nids, room, a);
    } else {
      KeptAtKey(table, events, es, nids, room, l);
    }
  }

  lemma {:induction false} OnlyInOrder(table: seq<Slot>, events: seq<Slot>, es: seq<Event>, nids: map<EventId, Nid>,
                                       room: RoomId)
    requires Batch(table, events, es, nids, room, true)
    requires SameRows(Ingested(Fold(events, room, |table|), es, nids), Fold(events, room, |events|))
    ensures CopiesInOrder(table, es)
  {
    forall i | IsLast(table, es, i) ensures IsNewest(table, es, FirstOf(es, es[i].id)) {
      IngestedAtKey(table, events, es, nids, room, i);
      LastInFold(table, events, es, nids, room, i);
    }
    forall i, j | IsLast(table, es, i) && IsLast(table, es, j) && es[i].id == es[j].id ensures i == j {
      IngestedAtKey(table, events, es, nids, room, i);
      IngestedAtKey(table, events, es, nids, room, j);
      LastUnique(table, es, i, j);
    }
  }

  /**
   * Ingesting a block gives the rows of the state that its rows fold to if and only if its copies are in order: a
   * copy is ingested again under the old row number, and may put it over a newer event or under another key.
   */
  lemma {:induction false} IngestsExactly(table: seq<Slot>, events: seq<Slot>, es: seq<Event>,
                                          nids: map<EventId, Nid>, room: RoomId)
    requires Batch(table, events, es, nids, room, true)
    ensures SameRows(Ingested(Fold(events, room, |table|), es, nids), Fold(events, room, |events|)) <==>
      CopiesInOrder(table, es)
  {
    var m, s := Ingested(Fold(events, room, |table|), es, nids), Fold(events, room, |events|);
    if CopiesInOrder(table, es) {
      forall k, l | k in m && l in m && m[k] == m[l] ensures k == l {
        IngestedApart(table, events, es, nids, room, k, l);
      }
      forall k | k in m ensures HasValue(s, m[k]) {
        IngestedInFold(table, events, es, nids, room, k);
      }
      forall l | l in s ensures HasValue(m, s[l]) {
        FoldInIngested(table, events, es, nids, room, l);
      }
    } else if SameRows(m, s) {
      OnlyInOrder(table, events, es, nids, room);
    }
  }
}
