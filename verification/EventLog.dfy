/** state/event_table.go: the events table, and the room state that its rows add up to. */
module EventLog {
  import opened Common

  datatype EventId = EventId(token: nat)

  /** An event with its fields parsed. Only state events have a state key. */
  datatype Event = Event(id: EventId, kind: string, stateKey: Option<string>)

  /** `inStateBlock`: the row came from the state section of a sync response, not from a timeline. */
  datatype Row = Row(event: Event, room: RoomId, inStateBlock: bool)

  /** Row numbers (NIDs) are handed out in order, and an insert that hits a known event ID wastes one. */
  datatype Slot = Burned | Stored(row: Row)

  type Nid = int
  type Key = (string, string)
  type State = map<Key, Nid>

  function KeyOf(e: Event): Key { (e.kind, if e.stateKey.Some? then e.stateKey.value else "") }

  /** Everything in a state block is state, whether or not it has a state key. */
  predicate IsState(row: Row) { row.inStateBlock || row.event.stateKey.Some? }

  predicate HasRow(events: seq<Slot>, n: Nid) { 1 <= n <= |events| && events[n - 1].Stored? }

  function RowAt(events: seq<Slot>, n: Nid): Row
    requires HasRow(events, n)
  {
    events[n - 1].row
  }

  function KeyAt(events: seq<Slot>, n: Nid): Key {
    if HasRow(events, n) then KeyOf(RowAt(events, n).event) else ("", "")
  }

  predicate InRoom(events: seq<Slot>, room: RoomId, n: Nid) { HasRow(events, n) && RowAt(events, n).room == room }

  predicate IsStateIn(events: seq<Slot>, room: RoomId, n: Nid) {
    InRoom(events, room, n) && IsState(RowAt(events, n))
  }

  /** The state of a room once its first `n` row numbers have happened: the plain fold over history. */
  ghost function Fold(events: seq<Slot>, room: RoomId, n: nat): State
    requires n <= |events|
  {
    if n == 0 then map[]
    else if IsStateIn(events, room, n) then Fold(events, room, n - 1)[KeyAt(events, n) := n]
    else Fold(events, room, n - 1)
  }

  lemma {:induction false} FoldPrefix(events: seq<Slot>, more: seq<Slot>, room: RoomId, n: nat)
    requires n <= |events|
    ensures Fold(events + more, room, n) == Fold(events, room, n)
  {
    if n > 0 {
      FoldPrefix(events, more, room, n - 1);
      assert (events + more)[n - 1] == events[n - 1];
    }
  }

  lemma {:induction false} FoldValues(events: seq<Slot>, room: RoomId, n: nat, k: Key)
    requires n <= |events| && k in Fold(events, room, n)
    ensures var v := Fold(events, room, n)[k];
      v <= n && IsStateIn(events, room, v) && KeyAt(events, v) == k
  {
    if !IsStateIn(events, room, n) || KeyAt(events, n) != k {
      FoldValues(events, room, n - 1, k);
    }
  }

  /** Rows that are not state of the room leave its state alone. */
  lemma {:induction false} FoldStable(events: seq<Slot>, room: RoomId, m: nat, n: nat)
    requires m <= n <= |events| && forall i :: m < i <= n ==> !IsStateIn(events, room, i)
    ensures Fold(events, room, n) == Fold(events, room, m)
  {
    if m < n {
      FoldStable(events, room, m, n - 1);
    }
  }

  /** Rows that are not state of the room under a key leave what the state has there alone. */
  lemma {:induction false} FoldKeyStable(events: seq<Slot>, room: RoomId, m: nat, n: nat, k: Key)
    requires m <= n <= |events| && forall i :: m < i <= n && IsStateIn(events, room, i) ==> KeyAt(events, i) != k
    ensures var s, t := Fold(events, room, m), Fold(events, room, n);
      (k in s <==> k in t) && (k in s ==> s[k] == t[k])
  {
    if m < n {
      FoldKeyStable(events, room, m, n - 1, k);
    }
  }

  /** What the state has under a key is never older than any row seen there. */
  lemma {:induction false} FoldAtLeast(events: seq<Slot>, room: RoomId, i: Nid, n: nat)
    requires i <= n <= |events| && IsStateIn(events, room, i)
    ensures KeyAt(events, i) in Fold(events, room, n) && i <= Fold(events, room, n)[KeyAt(events, i)]
  {
    if i < n {
      FoldAtLeast(events, room, i, n - 1);
    }
  }

  /** Row `n` is state of the room under this type and state key. */
  ghost predicate Sets(events: seq<Slot>, room: RoomId, kind: string, key: string, n: Nid) {
    && 1 <= n <= |events| && events[n - 1].Stored?
    && events[n - 1].row.room == room && SetsKey(events[n - 1].row, kind, key)
  }

  /** An event of a state block without a state key counts as having the empty one. */
  ghost predicate SetsKey(row: Row, kind: string, key: string) {
    && row.event.kind == kind
    && (row.event.stateKey == Some(key) || (row.event.stateKey == None && row.inStateBlock && key == ""))
  }

  /** The state has, under every type and state key, the last row that set it, and nothing else. */
  lemma FoldExactly(events: seq<Slot>, room: RoomId, n: nat, kind: string, key: string, v: Nid)
    requires n <= |events|
    ensures (kind, key) in Fold(events, room, n) && Fold(events, room, n)[(kind, key)] == v <==>
      v <= n && Sets(events, room, kind, key, v) && forall i :: v < i <= n ==> !Sets(events, room, kind, key, i)
  {
    var k := (kind, key);
    forall i
      ensures Sets(events, room, kind, key, i) <==> IsStateIn(events, room, i) && KeyAt(events, i) == k
    {
    }
    if k in Fold(events, room, n) {
      FoldValues(events, room, n, k);
    }
    forall i | i <= n && Sets(events, room, kind, key, i)
      ensures k in Fold(events, room, n) && i <= Fold(events, room, n)[k]
    {
      FoldAtLeast(events, room, i, n);
    }
  }

  /** The last state event of a room is part of its state, and has the highest row number there. */
  lemma FoldLast(events: seq<Slot>, room: RoomId, n: Nid)
    requires IsStateIn(events, room, n) && forall i :: n < i <= |events| ==> !IsStateIn(events, room, i)
    ensures var s := Fold(events, room, |events|);
      KeyAt(events, n) in s && s[KeyAt(events, n)] == n && forall k :: k in s ==> s[k] <= n
  {
    FoldStable(events, room, n, |events|);
    forall k | k in Fold(events, room, n) ensures Fold(events, room, n)[k] <= n {
      FoldValues(events, room, n, k);
    }
  }

  /** A list of row numbers holds a state: its values, each once, and so one event per type and state key. */
  ghost predicate Represents(events: seq<Slot>, nids: seq<Nid>, s: State) {
    && NoDup(nids)
    && (forall k :: k in s ==> s[k] in nids && HasRow(events, s[k]) && KeyAt(events, s[k]) == k)
    && (forall n :: n in nids ==> Holds(events, s, n))
  }

  ghost predicate Holds(events: seq<Slot>, s: State, n: Nid) {
    && HasRow(events, n)
    && KeyAt(events, n) in s && s[KeyAt(events, n)] == n
  }

  /** The rows exist, and no two of them have the same type and state key. */
  ghost predicate OnePerKey(events: seq<Slot>, nids: seq<Nid>) {
    && (forall i :: 0 <= i < |nids| ==> HasRow(events, nids[i]))
    && (forall i, j :: 0 <= i < j < |nids| ==> KeyAt(events, nids[i]) != KeyAt(events, nids[j]))
  }

  lemma RepresentsOnePerKey(events: seq<Slot>, nids: seq<Nid>, s: State)
    requires Represents(events, nids, s)
    ensures OnePerKey(events, nids)
  {
    assert forall i :: 0 <= i < |nids| ==> nids[i] in nids && Holds(events, s, nids[i]);
  }

  /** The state is determined by the row numbers that hold it. */
  lemma RepresentsOneState(events: seq<Slot>, nids: seq<Nid>, s: State, t: State)
    requires Represents(events, nids, s) && Represents(events, nids, t)
    ensures s == t
  {
    assert forall k :: k in s ==> Holds(events, t, s[k]);
    assert forall k :: k in t ==> Holds(events, s, t[k]);
  }

  /** A snapshot keeps its meaning as rows are appended. */
  lemma RepresentsPrefix(events: seq<Slot>, more: seq<Slot>, nids: seq<Nid>, s: State)
    requires Represents(events, nids, s)
    ensures Represents(events + more, nids, s)
  {
    forall n | HasRow(events, n) ensures HasRow(events + more, n) && RowAt(events + more, n) == RowAt(events, n) {
    }
    forall n | n in nids ensures Holds(events + more, s, n) {
      assert Holds(events, s, n);
    }
  }

  // ---- reading rows back ----

  /** SELECT ... WHERE event_nid = ANY(nids) ORDER BY event_nid ASC, over the first `n` row numbers. */
  function Selected(events: seq<Slot>, nids: seq<Nid>, n: nat): seq<Nid>
    requires n <= |events|
  {
    if n == 0 then []
    else Selected(events, nids, n - 1) + if HasRow(events, n) && n in nids then [n] else []
  }

  lemma {:induction false} SelectedExactly(events: seq<Slot>, nids: seq<Nid>, n: nat)
    requires n <= |events|
    ensures forall x :: x in Selected(events, nids, n) <==> x in nids && HasRow(events, x) && x <= n
    ensures forall i, j :: 0 <= i < j < |Selected(events, nids, n)| ==>
      Selected(events, nids, n)[i] < Selected(events, nids, n)[j]
  {
    if n > 0 {
      SelectedExactly(events, nids, n - 1);
      var prev := Selected(events, nids, n - 1);
      assert forall i :: 0 <= i < |prev| ==> prev[i] in prev;
    }
  }

  lemma {:induction false} NotLonger(s: seq<Nid>, t: seq<Nid>)
    requires NoDup(s) && forall i :: 0 <= i < |s| ==> s[i] in t
    ensures |s| <= |t|
  {
    if s != [] {
      var k :| 0 <= k < |t| && t[k] == s[0];
      var t' := RemoveAt(t, k);
      forall i | 0 <= i < |s[1..]| ensures s[1..][i] in t' {
        assert s[i + 1] in t;
        var j :| 0 <= j < |t| && t[j] == s[i + 1];
        assert t'[if j < k then j else j - 1] == s[i + 1];
      }
      NotLonger(s[1..], t');
    }
  }

  /** Reading rows back comes up short exactly when a row is missing or asked for twice. */
  lemma SelectedShort(events: seq<Slot>, nids: seq<Nid>)
    ensures |Selected(events, nids, |events|)| == |nids| <==>
      NoDup(nids) && forall i :: 0 <= i < |nids| ==> HasRow(events, nids[i])
  {
    var r := Selected(events, nids, |events|);
    SelectedExactly(events, nids, |events|);
    assert forall i :: 0 <= i < |r| ==> r[i] in r;
    if !NoDup(nids) {
      var i, j :| 0 <= i < j < |nids| && nids[i] == nids[j];
      ShorterWithout(r, nids, j, i);
    } else if i :| 0 <= i < |nids| && !HasRow(events, nids[i]) {
      ShorterWithout(r, nids, i, i);
    } else {
      NotLonger(r, nids);
      forall i | 0 <= i < |nids| ensures nids[i] in r {
        assert nids[i] in nids;
      }
      NotLonger(nids, r);
    }
  }

  /** Something in `t` that `s` lacks, or that `t` has twice, makes `s` shorter. */
  lemma ShorterWithout(s: seq<Nid>, t: seq<Nid>, j: nat, i: nat)
    requires NoDup(s) && (forall x :: 0 <= x < |s| ==> s[x] in t)
    requires i <= j < |t| && t[i] == t[j] && (i == j ==> t[j] !in s)
    ensures |s| < |t|
  {
    var t' := RemoveAt(t, j);
    forall x | 0 <= x < |s| ensures s[x] in t' {
      assert s[x] in s && s[x] in t;
      var y :| 0 <= y < |t| && t[y] == s[x];
      var z := if y == j then i else y;
      assert t'[if z < j then z else z - 1] == s[x];
    }
    NotLonger(s, t');
  }

  /** Reading a stored snapshot back never comes up short, and holds the same state in ascending order. */
  lemma SelectedRepresents(events: seq<Slot>, nids: seq<Nid>, s: State)
    requires Represents(events, nids, s)
    ensures |Selected(events, nids, |events|)| == |nids|
    ensures Represents(events, Selected(events, nids, |events|), s)
  {
    SelectedExactly(events, nids, |events|);
    forall i | 0 <= i < |nids| ensures HasRow(events, nids[i]) {
      assert nids[i] in nids && Holds(events, s, nids[i]);
    }
    SelectedShort(events, nids);
  }
}
