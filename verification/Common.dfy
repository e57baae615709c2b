/** Small vocabulary shared by the whole model. */
module Common {
  datatype Option<+T> = None | Some(value: T)

  /** Room identifiers are opaque: the server and the client only compare them for equality. */
  datatype RoomId = RoomId(token: nat)

  ghost predicate NoDup<T>(s: seq<T>) {
    forall i, j :: 0 <= i < j < |s| ==> s[i] != s[j]
  }

  function Min(a: int, b: int): int { if a <= b then a else b }

  function Max(a: int, b: int): int { if a <= b then b else a }

  /** The element taken out of position `k`. */
  function RemoveAt<T>(s: seq<T>, k: nat): seq<T>
    requires k < |s|
  {
    s[..k] + s[k + 1..]
  }

  function InsertAt<T>(s: seq<T>, k: nat, x: T): seq<T>
    requires k <= |s|
  {
    s[..k] + [x] + s[k..]
  }

  /** The element at `from` moved to position `to`, everything else kept in order. */
  function Move<T>(s: seq<T>, from: nat, to: nat): seq<T>
    requires from < |s| && to < |s|
  {
    InsertAt(RemoveAt(s, from), to, s[from])
  }

  // ---- finite maps ----

  lemma SomeMember<T>(s: set<T>)
    requires s != {}
    ensures exists x :: x in s
  {
  }

  lemma {:induction false} ImageSize<T>(keys: set<T>, f: map<T, T>, image: set<T>)
    requires keys <= f.Keys && image == set x | x in keys :: f[x]
    requires forall x, y :: x in keys && y in keys && f[x] == f[y] ==> x == y
    ensures |image| == |keys|
  {
    if keys != {} {
      SomeMember(keys);
      var x :| x in keys;
      var rest := set y | y in keys - {x} :: f[y];
      ImageSize(keys - {x}, f, rest);
      assert image == rest + {f[x]};
    }
  }

  lemma SubsetOfSameSize<T>(s: set<T>, t: set<T>, x: T)
    requires s <= t && |s| == |t| && x in t
    ensures x in s
  {
    assert |t - s| == |t| - |s|;
    assert x !in t - s;
  }

  /** A finite map into its own keys that never takes a value twice takes every one of them. */
  lemma Preimage<T>(f: map<T, T>, image: set<T>, y: T) returns (x: T)
    requires image == (set k | k in f.Keys :: f[k]) && image <= f.Keys && y in f.Keys
    requires forall k, l :: k in f.Keys && l in f.Keys && f[k] == f[l] ==> k == l
    ensures x in f.Keys && f[x] == y
  {
    ImageSize(f.Keys, f, image);
    SubsetOfSameSize(image, f.Keys, y);
    x :| x in f.Keys && f[x] == y;
  }
}
