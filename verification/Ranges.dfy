/** sync3/range.go: the closed index intervals a client tracks on a list. */
module Ranges {
  import opened Common

  datatype Range = Range(lo: int, hi: int)

  predicate In(r: Range, i: int) { r.lo <= i <= r.hi }

  predicate Apart(r: Range, s: Range) { r.hi < s.lo || s.hi < r.lo }

  /** Well-formed ranges: proper, non-negative, and pairwise without a common integer. */
  ghost predicate Valid(rs: seq<Range>) {
    && (forall i :: 0 <= i < |rs| ==> 0 <= rs[i].lo <= rs[i].hi)
    && (forall i, j :: 0 <= i < j < |rs| ==> Apart(rs[i], rs[j]))
  }

  /** The set of integers a slice of ranges stands for. */
  ghost predicate Tracked(rs: seq<Range>, i: int) {
    exists r :: r in rs && In(r, i)
  }

  /** The endpoint comparison of `SliceRanges.Valid` decides semantic well-formedness. */
  method IsValid(rs: seq<Range>) returns (ok: bool)
    ensures ok <==> Valid(rs)
  {
    for i := 0 to |rs|
      invariant forall k :: 0 <= k < i ==> 0 <= rs[k].lo <= rs[k].hi
      invariant forall k, j :: 0 <= k < i && k < j < |rs| ==> Apart(rs[k], rs[j]) || rs[j].hi < rs[j].lo
    {
      var sr := rs[i];
      if sr.hi < sr.lo || sr.lo < 0 {
        return false;
      }
      for j := i + 1 to |rs|
        invariant forall k :: i < k < j ==> Apart(sr, rs[k]) || rs[k].hi < rs[k].lo
      {
        var test := rs[j];
        if In(test, sr.lo) || In(test, sr.hi) || In(sr, test.lo) || In(sr, test.hi) {
          assert !Apart(rs[i], rs[j]) || rs[j].hi < rs[j].lo;
          return false;
        }
      }
    }
    return true;
  }

  /** The first range containing `i`. */
  function Inside(rs: seq<Range>, i: int): (found: Option<Range>)
    ensures found.Some? <==> Tracked(rs, i)
    ensures found.Some? ==> found.value in rs && In(found.value, i)
  {
    if rs == [] then None
    else if In(rs[0], i) then Some(rs[0])
    else
      assert forall r :: r in rs <==> r == rs[0] || r in rs[1..];
      Inside(rs[1..], i)
  }

  lemma ValidApart(rs: seq<Range>, r: Range, s: Range)
    requires Valid(rs) && r in rs && s in rs
    ensures 0 <= r.lo <= r.hi
    ensures r == s || Apart(r, s)
  {
    var i :| 0 <= i < |rs| && rs[i] == r;
    var j :| 0 <= j < |rs| && rs[j] == s;
    if i < j {
      assert Apart(rs[i], rs[j]);
    } else if j < i {
      assert Apart(rs[j], rs[i]);
    }
  }

  /** Disjointness makes the containing range unique, so `Inside` does not depend on slice order. */
  lemma InsideUnique(rs: seq<Range>, r: Range, i: int)
    requires Valid(rs) && r in rs && In(r, i)
    ensures Inside(rs, i) == Some(r)
  {
    assert Tracked(rs, i);
    ValidApart(rs, r, Inside(rs, i).value);
  }

  lemma InsideApart(rs: seq<Range>, i: int, r: Range)
    requires Valid(rs) && r in rs
    ensures Inside(rs, i).Some? ==> Inside(rs, i).value == r || Apart(Inside(rs, i).value, r)
  {
    if Inside(rs, i).Some? {
      ValidApart(rs, Inside(rs, i).value, r);
    }
  }
}
