/** sync3/sort.go: the five room comparators and their lexicographic combination. */
module RoomOrder {
  import opened Common
  import opened Sorting

  datatype RoomMeta = RoomMeta(
    canonicalisedName: string,
    lastInterestedTs: nat,
    highlightCount: int,
    notificationCount: int,
    encrypted: bool)

  datatype SortKey =
    | ByName
    | ByRecency
    | ByNotificationLevel
    | ByNotificationCount
    | ByHighlightCount
    | UnknownOrder(name: string)

  /** What the sort can look up about a room; a room without an entry cannot be compared. */
  type Finder = RoomId -> RoomMeta

  /** Byte order on names: 1 when `a` comes first, -1 when `b` does, 0 on a match. */
  function CompareNames(a: string, b: string): int {
    if a == b then 0
    else if a == [] then 1
    else if b == [] then -1
    else if a[0] < b[0] then 1
    else if a[0] > b[0] then -1
    else CompareNames(a[1..], b[1..])
  }

  function Larger(a: int, b: int): int {
    if a == b then 0 else if a > b then 1 else -1
  }

  function CompareLevels(a: RoomMeta, b: RoomMeta): int {
    if a.highlightCount > 0 && b.highlightCount > 0 then 0
    else if a.highlightCount > 0 then 1
    else if b.highlightCount > 0 then -1
    else if a.notificationCount > 0 && b.notificationCount > 0 then
      if a.encrypted && !b.encrypted then 1
      else if b.encrypted && !a.encrypted then -1
      else 0
    else if a.notificationCount > 0 then 1
    else if b.notificationCount > 0 then -1
    else 0
  }

  /** One comparator: 1 = `a` first, -1 = `b` first, 0 = match. An unknown order is never consulted. */
  function Compare(key: SortKey, a: RoomMeta, b: RoomMeta): int {
    match key
    case ByName => CompareNames(a.canonicalisedName, b.canonicalisedName)
    case ByRecency => Larger(a.lastInterestedTs, b.lastInterestedTs)
    case ByNotificationLevel => CompareLevels(a, b)
    case ByNotificationCount => Larger(a.notificationCount, b.notificationCount)
    case ByHighlightCount => Larger(a.highlightCount, b.highlightCount)
    case UnknownOrder(_) => 0
  }

  /** The comparators in turn, the first one that separates the rooms deciding. */
  function CompareAll(keys: seq<SortKey>, a: RoomMeta, b: RoomMeta): int {
    if keys == [] then 0
    else if Compare(keys[0], a, b) != 0 then Compare(keys[0], a, b)
    else CompareAll(keys[1..], a, b)
  }

  function Less(keys: seq<SortKey>, finder: Finder): (RoomId, RoomId) -> bool {
    (a, b) => CompareAll(keys, finder(a), finder(b)) == 1
  }

  /** `ByNotificationLevel` is a comparison of four classes: highlighted, notified and encrypted, notified, quiet. */
  function LevelClass(m: RoomMeta): nat {
    if m.highlightCount > 0 then 3
    else if m.notificationCount > 0 then if m.encrypted then 2 else 1
    else 0
  }

  lemma LevelsAreClasses(a: RoomMeta, b: RoomMeta)
    ensures CompareLevels(a, b) == Larger(LevelClass(a), LevelClass(b))
  {
  }

  lemma {:induction false} NamesAntisymmetric(a: string, b: string)
    ensures -1 <= CompareNames(a, b) <= 1
    ensures CompareNames(b, a) == -CompareNames(a, b)
    ensures CompareNames(a, b) == 0 <==> a == b
  {
    if a != [] && b != [] {
      NamesAntisymmetric(a[1..], b[1..]);
      assert a == [a[0]] + a[1..] && b == [b[0]] + b[1..];
    }
  }

  lemma {:induction false} NamesTransitive(a: string, b: string, c: string)
    requires CompareNames(a, b) >= 0 && CompareNames(b, c) >= 0
    ensures CompareNames(a, c) >= 0
  {
    if a != [] && b != [] && c != [] && a[0] == b[0] == c[0] && a != b && b != c {
      NamesTransitive(a[1..], b[1..], c[1..]);
    }
  }

  lemma CompareIsPreorder(key: SortKey, a: RoomMeta, b: RoomMeta, c: RoomMeta)
    ensures -1 <= Compare(key, a, b) <= 1 && Compare(key, b, a) == -Compare(key, a, b)
    ensures Compare(key, a, b) >= 0 && Compare(key, b, c) >= 0 ==> Compare(key, a, c) >= 0
  {
    NamesAntisymmetric(a.canonicalisedName, b.canonicalisedName);
    if key == ByName && Compare(key, a, b) >= 0 && Compare(key, b, c) >= 0 {
      NamesTransitive(a.canonicalisedName, b.canonicalisedName, c.canonicalisedName);
    }
  }

  /** Every list of sort orders is a total preorder on rooms. */
  lemma {:induction false} CompareAllIsPreorder(keys: seq<SortKey>, a: RoomMeta, b: RoomMeta, c: RoomMeta)
    ensures -1 <= CompareAll(keys, a, b) <= 1 && CompareAll(keys, b, a) == -CompareAll(keys, a, b)
    ensures CompareAll(keys, a, b) >= 0 && CompareAll(keys, b, c) >= 0 ==> CompareAll(keys, a, c) >= 0
  {
    if keys != [] {
      CompareAllIsPreorder(keys[1..], a, b, c);
      CompareIsPreorder(keys[0], a, b, c);
      CompareIsPreorder(keys[0], b, c, a);
      CompareIsPreorder(keys[0], c, a, b);
    }
  }

  lemma LessIsStrictWeakOrder(keys: seq<SortKey>, finder: Finder)
    ensures StrictWeakOrder(Less(keys, finder))
  {
    var less := Less(keys, finder);
    forall x, y ensures less(x, y) ==> !less(y, x) {
      CompareAllIsPreorder(keys, finder(x), finder(y), finder(y));
    }
    forall x, y, z | !less(y, x) && !less(z, y) ensures !less(z, x) {
      CompareAllIsPreorder(keys, finder(x), finder(y), finder(z));
      CompareAllIsPreorder(keys, finder(y), finder(z), finder(x));
      CompareAllIsPreorder(keys, finder(z), finder(x), finder(y));
    }
  }

  // ---- which order it is ----

  /** The first difference decides: a smaller character, or the end of the shorter name. */
  ghost predicate NameBefore(a: string, b: string) {
    exists n :: 0 <= n <= |a| && n < |b| && a[..n] == b[..n] && (n == |a| || a[n] < b[n])
  }

  /** The two rooms are the same as far as the sort order looks. */
  predicate Ties(key: SortKey, a: RoomMeta, b: RoomMeta) {
    match key
    case ByName => a.canonicalisedName == b.canonicalisedName
    case ByRecency => a.lastInterestedTs == b.lastInterestedTs
    case ByNotificationLevel =>
      && (a.highlightCount > 0 <==> b.highlightCount > 0)
      && (a.highlightCount <= 0 ==>
           (a.notificationCount > 0 <==> b.notificationCount > 0) &&
           (a.notificationCount > 0 ==> a.encrypted == b.encrypted))
    case ByNotificationCount => a.notificationCount == b.notificationCount
    case ByHighlightCount => a.highlightCount == b.highlightCount
    case UnknownOrder(_) => true
  }

  /** What it means for `a` to come first under one sort order. */
  ghost predicate ComesFirst(key: SortKey, a: RoomMeta, b: RoomMeta) {
    match key
    case ByName => NameBefore(a.canonicalisedName, b.canonicalisedName)
    case ByRecency => a.lastInterestedTs > b.lastInterestedTs
    case ByNotificationLevel =>
      if a.highlightCount > 0 then b.highlightCount <= 0
      else b.highlightCount <= 0 && a.notificationCount > 0 && (b.notificationCount > 0 ==> a.encrypted && !b.encrypted)
    case ByNotificationCount => a.notificationCount > b.notificationCount
    case ByHighlightCount => a.highlightCount > b.highlightCount
    case UnknownOrder(_) => false
  }

  lemma {:induction false} NamesExactly(a: string, b: string)
    ensures CompareNames(a, b) == 1 <==> NameBefore(a, b)
  {
    if a == b {
      assert forall n :: 0 <= n < |a| ==> a[n] == b[n];
    } else if a == [] {
      assert a[..0] == b[..0];
    } else if b != [] {
      if a[0] == b[0] {
        NamesExactly(a[1..], b[1..]);
        NameBeforeTail(a, b);
      } else {
        assert a[..0] == b[..0];
        forall n | 0 < n <= |a| && n < |b| ensures a[..n] != b[..n] {
          assert a[..n][0] != b[..n][0];
        }
      }
    }
  }

  lemma NameBeforeTail(a: string, b: string)
    requires a != [] && b != [] && a[0] == b[0]
    ensures NameBefore(a, b) <==> NameBefore(a[1..], b[1..])
  {
    if NameBefore(a, b) {
      var n :| 0 <= n <= |a| && n < |b| && a[..n] == b[..n] && (n == |a| || a[n] < b[n]);
      assert n > 0;
      assert a[1..][..n - 1] == a[..n][1..] == b[..n][1..] == b[1..][..n - 1];
    }
    if NameBefore(a[1..], b[1..]) {
      var c, d := a[1..], b[1..];
      var n :| 0 <= n <= |c| && n < |d| && c[..n] == d[..n] && (n == |c| || c[n] < d[n]);
      assert a[..n + 1] == [a[0]] + c[..n] == b[..n + 1];
    }
  }

  /** Each comparator decides as its sort order says, on the rooms' own fields. */
  lemma CompareExactly(key: SortKey, a: RoomMeta, b: RoomMeta)
    ensures Compare(key, a, b) == 0 <==> Ties(key, a, b)
    ensures Compare(key, a, b) == 1 <==> ComesFirst(key, a, b)
  {
    NamesAntisymmetric(a.canonicalisedName, b.canonicalisedName);
    NamesExactly(a.canonicalisedName, b.canonicalisedName);
  }

  /** The first sort order on which the rooms do not tie decides. */
  lemma {:induction false} FirstKeyDecides(keys: seq<SortKey>, a: RoomMeta, b: RoomMeta, n: nat)
    requires n < |keys| && !Ties(keys[n], a, b) && forall m :: 0 <= m < n ==> Ties(keys[m], a, b)
    ensures CompareAll(keys, a, b) != 0 && (CompareAll(keys, a, b) == 1 <==> ComesFirst(keys[n], a, b))
  {
    CompareExactly(keys[0], a, b);
    if n > 0 {
      FirstKeyDecides(keys[1..], a, b, n - 1);
    }
  }

  lemma {:induction false} AllTies(keys: seq<SortKey>, a: RoomMeta, b: RoomMeta)
    requires forall m :: 0 <= m < |keys| ==> Ties(keys[m], a, b)
    ensures CompareAll(keys, a, b) == 0
  {
    if keys != [] {
      CompareExactly(keys[0], a, b);
      AllTies(keys[1..], a, b);
    }
  }
}
