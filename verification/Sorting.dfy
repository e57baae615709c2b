/**
 * Sorting by a strict weak order, as Go's sort package does it. `StableSort` stands for
 * sort.SliceStable, and for sort.Slice where no two elements are equivalent.
 */
module Sorting {
  import opened Common

  ghost predicate StrictWeakOrder<T(!new)>(less: (T, T) -> bool) {
    && (forall x, y :: less(x, y) ==> !less(y, x))
    && (forall x, y, z :: !less(y, x) && !less(z, y) ==> !less(z, x))
  }

  ghost predicate SortedBy<T>(less: (T, T) -> bool, s: seq<T>) {
    forall i, j :: 0 <= i < j < |s| ==> !less(s[j], s[i])
  }

  function Insert<T>(less: (T, T) -> bool, x: T, s: seq<T>): seq<T> {
    if s == [] || !less(s[0], x) then [x] + s else [s[0]] + Insert(less, x, s[1..])
  }

  function StableSort<T>(less: (T, T) -> bool, s: seq<T>): seq<T> {
    if s == [] then [] else Insert(less, s[0], StableSort(less, s[1..]))
  }

  lemma {:induction false} InsertIsPermutation<T>(less: (T, T) -> bool, x: T, s: seq<T>)
    ensures multiset(Insert(less, x, s)) == multiset([x] + s)
  {
    if s != [] && less(s[0], x) {
      InsertIsPermutation(less, x, s[1..]);
      assert s == [s[0]] + s[1..];
    }
  }

  lemma {:induction false} SortIsPermutation<T>(less: (T, T) -> bool, s: seq<T>)
    ensures multiset(StableSort(less, s)) == multiset(s)
  {
    if s != [] {
      SortIsPermutation(less, s[1..]);
      InsertIsPermutation(less, s[0], StableSort(less, s[1..]));
      assert s == [s[0]] + s[1..];
    }
  }

  lemma PermutationFacts<T>(s: seq<T>, t: seq<T>)
    requires multiset(s) == multiset(t)
    ensures |s| == |t|
    ensures forall x :: x in s <==> x in t
  {
    assert |multiset(s)| == |multiset(t)|;
    assert forall x :: x in s <==> x in multiset(s);
    assert forall x :: x in t <==> x in multiset(t);
  }

  lemma {:induction false} InsertSorted<T(!new)>(less: (T, T) -> bool, x: T, s: seq<T>)
    requires StrictWeakOrder(less) && SortedBy(less, s)
    ensures SortedBy(less, Insert(less, x, s))
  {
    if s != [] && less(s[0], x) {
      InsertSorted(less, x, s[1..]);
      var r := Insert(less, x, s[1..]);
      InsertIsPermutation(less, x, s[1..]);
      PermutationFacts(r, [x] + s[1..]);
      forall j | 0 <= j < |r| ensures !less(r[j], s[0]) {
        assert r[j] in r;
        assert r[j] in [x] + s[1..];
      }
    } else if s != [] {
      forall j | 0 <= j < |s| ensures !less(s[j], x) {
        assert !less(s[0], x);
      }
    }
  }

  lemma {:induction false} SortSorts<T(!new)>(less: (T, T) -> bool, s: seq<T>)
    requires StrictWeakOrder(less)
    ensures SortedBy(less, StableSort(less, s))
  {
    if s != [] {
      SortSorts(less, s[1..]);
      InsertSorted(less, s[0], StableSort(less, s[1..]));
    }
  }

  /** A sorted sequence is a fixed point: equivalent neighbours keep their order. */
  lemma {:induction false} SortedIsFixedPoint<T>(less: (T, T) -> bool, s: seq<T>)
    requires SortedBy(less, s)
    ensures StableSort(less, s) == s
  {
    if s != [] {
      SortedIsFixedPoint(less, s[1..]);
    }
  }

  lemma {:induction false} InsertSplits<T>(less: (T, T) -> bool, x: T, s: seq<T>) returns (k: nat)
    ensures k <= |s| && Insert(less, x, s) == InsertAt(s, k, x)
  {
    if s == [] || !less(s[0], x) {
      k := 0;
    } else {
      var k' := InsertSplits(less, x, s[1..]);
      k := k' + 1;
      assert s[..k] == [s[0]] + s[1..][..k'];
    }
  }

  /**
   * Re-sorting after one element was displaced moves that element and nothing else:
   * the remaining elements, already in order, keep their relative order.
   */
  lemma {:induction false} SortMovesOne<T>(less: (T, T) -> bool, s: seq<T>, k: nat) returns (to: nat)
    requires k < |s| && SortedBy(less, RemoveAt(s, k))
    ensures to < |s| && StableSort(less, s) == Move(s, k, to)
  {
    if k == 0 {
      assert RemoveAt(s, 0) == s[1..];
      SortedIsFixedPoint(less, s[1..]);
      to := InsertSplits(less, s[0], s[1..]);
      assert Move(s, 0, to) == InsertAt(s[1..], to, s[0]);
    } else {
      var tail, a := s[1..], s[0];
      var rest := RemoveAt(tail, k - 1);
      SortedTail(less, s, k);
      var t := SortMovesOne(less, tail, k - 1);
      assert StableSort(less, tail) == InsertAt(rest, t, s[k]);
      to := InsertPast(less, a, rest, t, s[k]);
      assert RemoveAt(s, k) == [a] + rest;
    }
  }

  lemma SortedTail<T>(less: (T, T) -> bool, s: seq<T>, k: nat)
    requires 0 < k < |s| && SortedBy(less, RemoveAt(s, k))
    ensures var rest := RemoveAt(s[1..], k - 1);
      RemoveAt(s, k) == [s[0]] + rest && SortedBy(less, rest) && (rest != [] ==> !less(rest[0], s[0]))
  {
    var rest := RemoveAt(s[1..], k - 1);
    assert RemoveAt(s, k) == [s[0]] + rest;
    assert forall i :: 0 <= i < |rest| ==> rest[i] == RemoveAt(s, k)[i + 1];
    assert rest != [] ==> RemoveAt(s, k)[0] == s[0] && RemoveAt(s, k)[1] == rest[0];
  }

  /** An element that belongs in front of `rest` stays in front, but perhaps for the one put among them. */
  lemma InsertPast<T>(less: (T, T) -> bool, a: T, rest: seq<T>, t: nat, x: T) returns (to: nat)
    requires t <= |rest| && (rest != [] ==> !less(rest[0], a))
    ensures to <= |rest| + 1 && Insert(less, a, InsertAt(rest, t, x)) == InsertAt([a] + rest, to, x)
  {
    var put := InsertAt(rest, t, x);
    if t > 0 {
      assert put[0] == rest[0];
      to := t + 1;
      assert InsertAt([a] + rest, t + 1, x) == [a] + put;
    } else if !less(x, a) {
      to := 1;
      assert InsertAt([a] + rest, 1, x) == [a] + put;
    } else {
      to := 0;
      assert put == [x] + rest && put[1..] == rest;
      assert Insert(less, a, rest) == [a] + rest;
    }
  }

  lemma NoDupFromMultiset<T>(s: seq<T>, t: seq<T>)
    requires multiset(s) == multiset(t) && NoDup(s)
    ensures NoDup(t)
  {
    forall i, j | 0 <= i < j < |t| ensures t[i] != t[j] {
      if t[i] == t[j] {
        assert t == t[..i] + [t[i]] + t[i + 1..j] + [t[j]] + t[j + 1..];
        assert multiset(s)[t[i]] >= 2;
        AtMostOnce(s, t[i]);
      }
    }
  }

  lemma {:induction false} AtMostOnce<T>(s: seq<T>, x: T)
    requires NoDup(s)
    ensures multiset(s)[x] <= 1
  {
    if s != [] {
      AtMostOnce(s[1..], x);
      assert s == [s[0]] + s[1..];
      if s[0] == x {
        assert x !in s[1..];
      }
    }
  }

  /** `a` stands before `b`. */
  ghost predicate Before<T>(s: seq<T>, a: T, b: T) { exists i, j :: 0 <= i < j < |s| && s[i] == a && s[j] == b }

  lemma {:induction false} InsertKeepsBefore<T>(less: (T, T) -> bool, x: T, s: seq<T>, a: T, b: T)
    requires Before(s, a, b)
    ensures Before(Insert(less, x, s), a, b)
  {
    var t := Insert(less, x, s);
    var i, j :| 0 <= i < j < |s| && s[i] == a && s[j] == b;
    var k := InsertSplits(less, x, s);
    assert t[if i < k then i else i + 1] == a && t[if j < k then j else j + 1] == b;
  }

  /** The element inserted stands before everything that is not less than it. */
  lemma {:induction false} InsertedBefore<T>(less: (T, T) -> bool, x: T, s: seq<T>, b: T)
    requires b in s && !less(b, x)
    ensures Before(Insert(less, x, s), x, b)
  {
    var t := Insert(less, x, s);
    if less(s[0], x) {
      InsertedBefore(less, x, s[1..], b);
      var i, j :| 0 <= i < j < |t[1..]| && t[1..][i] == x && t[1..][j] == b;
      assert t[i + 1] == x && t[j + 1] == b;
    } else {
      var j :| 0 <= j < |s| && s[j] == b;
      assert t[0] == x && t[j + 1] == b;
    }
  }

  /** Elements keep their places relative to each other unless the order asks for the later one first. */
  lemma {:induction false} SortIsStable<T(!new)>(less: (T, T) -> bool, s: seq<T>, a: T, b: T)
    requires Before(s, a, b) && !less(b, a)
    ensures Before(StableSort(less, s), a, b)
  {
    var i, j :| 0 <= i < j < |s| && s[i] == a && s[j] == b;
    var rest := StableSort(less, s[1..]);
    if i == 0 {
      SortIsPermutation(less, s[1..]);
      assert s[1..][j - 1] == b;
      assert b in multiset(s[1..]);
      InsertedBefore(less, a, rest, b);
    } else {
      assert s[1..][i - 1] == a && s[1..][j - 1] == b;
      SortIsStable(less, s[1..], a, b);
      InsertKeepsBefore(less, s[0], rest, a, b);
    }
  }
}
