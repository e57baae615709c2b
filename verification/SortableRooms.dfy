/** sync3/sort.go: a room list with an index of where each room sits. */
module SortableRooms {
  import opened Common
  import opened Sorting
  import opened RoomOrder

  /** `index` is the exact inverse of `rooms`. */
  ghost predicate IndexedBy(rooms: seq<RoomId>, index: map<RoomId, int>) {
    && (forall i :: 0 <= i < |rooms| ==> rooms[i] in index && index[rooms[i]] == i)
    && (forall x :: x in index ==> x in rooms)
  }

  /** The list after Sort, or the list itself when a sort order is not known. */
  function Resorted(keys: seq<SortKey>, finder: Finder, rooms: seq<RoomId>): seq<RoomId> {
    if exists k :: k in keys && k.UnknownOrder? then rooms else StableSort(Less(keys, finder), rooms)
  }

  lemma ResortedKeeps(keys: seq<SortKey>, finder: Finder, rooms: seq<RoomId>)
    ensures multiset(Resorted(keys, finder, rooms)) == multiset(rooms)
    ensures |Resorted(keys, finder, rooms)| == |rooms|
    ensures forall x :: x in Resorted(keys, finder, rooms) <==> x in rooms
  {
    SortIsPermutation(Less(keys, finder), rooms);
    PermutationFacts(Resorted(keys, finder, rooms), rooms);
  }

  /** The rooms tie under every sort order. */
  ghost predicate TieThroughout(keys: seq<SortKey>, a: RoomMeta, b: RoomMeta) {
    forall n :: 0 <= n < |keys| ==> Ties(keys[n], a, b)
  }

  /** Key `n` is the first under which the rooms do not tie. */
  ghost predicate PartAt(keys: seq<SortKey>, a: RoomMeta, b: RoomMeta, n: nat) {
    n < |keys| && !Ties(keys[n], a, b) && forall m :: 0 <= m < n ==> Ties(keys[m], a, b)
  }

  /**
   * The sorted list, said with the rooms' own fields: of two rooms the one further up comes first under the
   * first sort order on which they do not tie; and rooms that tie throughout stay in the order they were in.
   */
  lemma ResortedOrder(keys: seq<SortKey>, finder: Finder, rooms: seq<RoomId>, i: nat, j: nat)
    requires NoDup(rooms) && i < j < |rooms| && forall k :: k in keys ==> !k.UnknownOrder?
    ensures |Resorted(keys, finder, rooms)| == |rooms|
    ensures var a, b := Resorted(keys, finder, rooms)[i], Resorted(keys, finder, rooms)[j];
      && (forall n: nat :: PartAt(keys, finder(a), finder(b), n) ==> ComesFirst(keys[n], finder(a), finder(b)))
      && (TieThroughout(keys, finder(a), finder(b)) ==> Before(rooms, a, b))
  {
    var less, sorted := Less(keys, finder), Resorted(keys, finder, rooms);
    ResortedKeeps(keys, finder, rooms);
    var a, b := sorted[i], sorted[j];
    LessIsStrictWeakOrder(keys, finder);
    SortSorts(less, rooms);
    assert !less(b, a);
    CompareAllIsPreorder(keys, finder(a), finder(b), finder(b));
    forall n: nat | PartAt(keys, finder(a), finder(b), n) ensures ComesFirst(keys[n], finder(a), finder(b)) {
      FirstKeyDecides(keys, finder(a), finder(b), n);
    }
    if TieThroughout(keys, finder(a), finder(b)) {
      AllTies(keys, finder(a), finder(b));
      TiedStay(less, rooms, sorted, i, j);
    }
  }

  lemma TiedStay(less: (RoomId, RoomId) -> bool, rooms: seq<RoomId>, sorted: seq<RoomId>, i: nat, j: nat)
    requires NoDup(rooms) && sorted == StableSort(less, rooms) && i < j < |sorted|
    requires !less(sorted[i], sorted[j])
    ensures Before(rooms, sorted[i], sorted[j])
  {
    var a, b := sorted[i], sorted[j];
    SortIsPermutation(less, rooms);
    NoDupFromMultiset(rooms, sorted);
    PermutationFacts(sorted, rooms);
    assert a in rooms && b in rooms;
    var p :| 0 <= p < |rooms| && rooms[p] == a;
    var q :| 0 <= q < |rooms| && rooms[q] == b;
    if q < p {
      SortIsStable(less, rooms, b, a);
    }
  }

  /** With a room spliced out at `at`, rooms from `i` on are still indexed one too high. */
  ghost predicate PlacedUpTo(rooms: seq<RoomId>, index: map<RoomId, int>, at: nat, i: nat) {
    forall x :: x in index ==>
      || (0 <= index[x] < i && index[x] < |rooms| && rooms[index[x]] == x)
      || (at <= i <= index[x] - 1 < |rooms| && rooms[index[x] - 1] == x)
  }

  ghost predicate IndexedUpTo(rooms: seq<RoomId>, index: map<RoomId, int>, i: nat) {
    && (forall k :: 0 <= k < |rooms| ==> rooms[k] in index && index[rooms[k]] == if k < i then k else k + 1)
    && (forall x :: x in index ==> x in rooms)
  }

  lemma PlacedStep(rooms: seq<RoomId>, index: map<RoomId, int>, at: nat, i: nat)
    requires at <= i < |rooms| && PlacedUpTo(rooms, index, at, i)
    ensures var j := i + 1; PlacedUpTo(rooms, index[rooms[i] := i], at, j)
  {
    forall x | x in index && x != rooms[i] && i <= index[x] - 1
      ensures i + 1 <= index[x] - 1
    {
    }
  }

  lemma IndexedStep(rooms: seq<RoomId>, index: map<RoomId, int>, i: nat)
    requires i < |rooms| && IndexedUpTo(rooms, index, i)
    ensures var j := i + 1; IndexedUpTo(rooms, index[rooms[i] := i], j)
  {
    forall k | 0 <= k < |rooms| && k != i
      ensures rooms[k] != rooms[i]
    {
      assert index[rooms[k]] != index[rooms[i]];
    }
  }

  /** The list and the index right after a room has been spliced out. */
  lemma SplicedOut(rooms: seq<RoomId>, index: map<RoomId, int>, room: RoomId)
    requires room in index
    requires forall x :: x in index ==> 0 <= index[x] < |rooms| && rooms[index[x]] == x
    ensures var at, rest := index[room], RemoveAt(rooms, index[room]);
      && PlacedUpTo(rest, index - {room}, at, at)
      && (IndexedBy(rooms, index) ==> IndexedUpTo(rest, index - {room}, at))
  {
    var at, rest := index[room], RemoveAt(rooms, index[room]);
    assert forall k :: 0 <= k < |rest| ==> rest[k] == rooms[if k < at then k else k + 1];
    forall x | x in index && x != room
      ensures index[x] != at && rest[if index[x] < at then index[x] else index[x] - 1] == x
    {
    }
  }

  class RoomList {
    var roomIDs: seq<RoomId>
    var roomIDToIndex: map<RoomId, int>

    /** What holds from construction on: an indexed room is where the index says. */
    ghost predicate Placed()
      reads this
    {
      forall x :: x in roomIDToIndex ==> 0 <= roomIDToIndex[x] < |roomIDs| && roomIDs[roomIDToIndex[x]] == x
    }

    ghost predicate Valid()
      reads this
    {
      NoDup(roomIDs) && Placed()
    }

    /** What holds once Sort has succeeded: the index is the exact inverse of the list. */
    ghost predicate Indexed()
      reads this
    {
      IndexedBy(roomIDs, roomIDToIndex)
    }

    constructor (rooms: seq<RoomId>)
      requires NoDup(rooms)
      ensures Valid() && roomIDs == rooms && roomIDToIndex == map[]
    {
      roomIDs := rooms;
      roomIDToIndex := map[];
    }

    /** Before the first Sort nothing is found; after it, everything in the list and nothing else. */
    method IndexOf(room: RoomId) returns (at: Option<int>)
      requires Placed()
      ensures at.Some? ==> 0 <= at.value < |roomIDs| && roomIDs[at.value] == room
      ensures Indexed() ==> (at.Some? <==> room in roomIDs)
      ensures roomIDToIndex == map[] ==> at.None?
    {
      at := if room in roomIDToIndex then Some(roomIDToIndex[room]) else None;
    }

    /** A room that is in the list but not indexed is added a second time. */
    method Add(room: RoomId) returns (added: bool)
      requires Placed()
      modifies this
      ensures Placed() && (old(Indexed()) ==> Indexed())
      ensures added <==> room !in old(roomIDToIndex)
      ensures old(Indexed()) ==> (added <==> room !in old(roomIDs))
      ensures roomIDs == if added then old(roomIDs) + [room] else old(roomIDs)
    {
      if room in roomIDToIndex {
        return false;
      }
      roomIDs := roomIDs + [room];
      roomIDToIndex := roomIDToIndex[room := |roomIDs| - 1];
      return true;
    }

    /** A room that is in the list but not indexed stays. */
    method Remove(room: RoomId) returns (at: int)
      requires Placed()
      modifies this
      ensures Placed() && (old(Indexed()) ==> Indexed())
      ensures old(Indexed()) ==> (at == -1 <==> room !in old(roomIDs))
      ensures at == -1 <==> room !in old(roomIDToIndex)
      ensures at == -1 ==> roomIDs == old(roomIDs)
      ensures at != -1 ==>
        0 <= at < |old(roomIDs)| && old(roomIDs)[at] == room && roomIDs == RemoveAt(old(roomIDs), at)
    {
      if room !in roomIDToIndex {
        return -1;
      }
      at := roomIDToIndex[room];
      SplicedOut(roomIDs, roomIDToIndex, room);
      roomIDToIndex := roomIDToIndex - {room};
      roomIDs := roomIDs[..at] + roomIDs[at + 1..];
      Reindex(at);
    }

    /** Brings the index up to date from a spliced position on. */
    method Reindex(at: nat)
      requires at <= |roomIDs| && PlacedUpTo(roomIDs, roomIDToIndex, at, at)
      modifies this`roomIDToIndex
      ensures Placed()
      ensures old(IndexedUpTo(roomIDs, roomIDToIndex, at)) ==> Indexed()
    {
      for i := at to |roomIDs|
        invariant PlacedUpTo(roomIDs, roomIDToIndex, at, i)
        invariant old(IndexedUpTo(roomIDs, roomIDToIndex, at)) ==> IndexedUpTo(roomIDs, roomIDToIndex, i)
      {
        PlacedStep(roomIDs, roomIDToIndex, at, i);
        if IndexedUpTo(roomIDs, roomIDToIndex, i) {
          IndexedStep(roomIDs, roomIDToIndex, i);
        }
        roomIDToIndex := roomIDToIndex[roomIDs[i] := i];
      }
    }

    method Sort(keys: seq<SortKey>, finder: Finder) returns (ok: bool)
      requires Valid()
      modifies this
      ensures ok <==> forall k :: k in keys ==> !k.UnknownOrder?
      ensures roomIDs == Resorted(keys, finder, old(roomIDs))
      ensures ok ==> Indexed()
      ensures !ok ==> roomIDToIndex == old(roomIDToIndex)
      ensures Valid() && multiset(roomIDs) == multiset(old(roomIDs))
    {
      ResortedKeeps(keys, finder, roomIDs);
      for k := 0 to |keys|
        invariant forall j :: 0 <= j < k ==> !keys[j].UnknownOrder?
      {
        if keys[k].UnknownOrder? {
          return false;
        }
      }
      NoDupFromMultiset(roomIDs, StableSort(Less(keys, finder), roomIDs));
      roomIDs := StableSort(Less(keys, finder), roomIDs);
      IndexAll();
      return true;
    }

    method IndexAll()
      requires NoDup(roomIDs) && forall x :: x in roomIDToIndex ==> x in roomIDs
      modifies this`roomIDToIndex
      ensures Indexed() && Valid()
    {
      for i := 0 to |roomIDs|
        invariant forall k :: 0 <= k < i ==> roomIDs[k] in roomIDToIndex && roomIDToIndex[roomIDs[k]] == k
        invariant forall x :: x in roomIDToIndex ==> x in roomIDs
      {
        roomIDToIndex := roomIDToIndex[roomIDs[i] := i];
      }
    }
  }
}
