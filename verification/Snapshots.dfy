/** state/accumulator.go: rolling a state snapshot forward by one event. */
module Snapshots {
  import opened Common
  import opened EventLog

  /** U+001F, the separator between an event type and its state key. */
  const UNIT_SEPARATOR: char := '\U{1F}'

  function TupleKey(k: Key): string { k.0 + [UNIT_SEPARATOR] + k.1 }

  /** Event types do not contain the separator; state keys may. */
  predicate Separable(k: Key) { UNIT_SEPARATOR !in k.0 }

  lemma FirstSeparator(k: Key)
    requires Separable(k)
    ensures TupleKey(k)[|k.0|] == UNIT_SEPARATOR
    ensures forall i :: 0 <= i < |k.0| ==> TupleKey(k)[i] != UNIT_SEPARATOR
    ensures TupleKey(k)[..|k.0|] == k.0 && TupleKey(k)[|k.0| + 1..] == k.1
  {
    assert forall i :: 0 <= i < |k.0| ==> TupleKey(k)[i] == k.0[i];
  }

  lemma TupleKeyInjective(k: Key, l: Key)
    requires Separable(k) && Separable(l) && TupleKey(k) == TupleKey(l)
    ensures k == l
  {
    FirstSeparator(k);
    FirstSeparator(l);
  }

  /** With the separator inside a type, two different keys share one tuple. */
  lemma TupleKeyCollides()
    ensures TupleKey(("a\U{1F}b", "c")) == TupleKey(("a", "b\U{1F}c"))
    ensures ("a\U{1F}b", "c") != ("a", "b\U{1F}c")
  {
    assert |"a\U{1F}b"| == 3 && |"a"| == 1;
    assert TupleKey(("a\U{1F}b", "c")) == TupleKey(("a", "b\U{1F}c"));
  }

  /** No two keys of the state have the same tuple. */
  ghost predicate TuplesApart(s: State) {
    forall k, l :: k in s && l in s && TupleKey(k) == TupleKey(l) ==> k == l
  }

  lemma SeparableApart(s: State)
    requires forall k :: k in s ==> Separable(k)
    ensures TuplesApart(s)
  {
    forall k, l | k in s && l in s && TupleKey(k) == TupleKey(l) ensures k == l {
      TupleKeyInjective(k, l);
    }
  }

  function TupleAt(events: seq<Slot>, n: Nid): string { TupleKey(KeyAt(events, n)) }

  ghost predicate DistinctTuples(events: seq<Slot>, nids: seq<Nid>) {
    forall i, j :: 0 <= i < j < |nids| ==> TupleAt(events, nids[i]) != TupleAt(events, nids[j])
  }

  /** A snapshot has distinct tuples exactly when the state it holds has. */
  lemma DistinctExactly(events: seq<Slot>, nids: seq<Nid>, s: State)
    requires Represents(events, nids, s)
    ensures DistinctTuples(events, nids) <==> TuplesApart(s)
  {
    forall i | 0 <= i < |nids| ensures Holds(events, s, nids[i]) {
      assert nids[i] in nids;
    }
    if DistinctTuples(events, nids) {
      forall k, l | k in s && l in s && TupleKey(k) == TupleKey(l) ensures k == l {
        var i :| 0 <= i < |nids| && nids[i] == s[k];
        var j :| 0 <= j < |nids| && nids[j] == s[l];
        assert TupleAt(events, nids[i]) == TupleAt(events, nids[j]);
      }
    } else {
      var i, j :| 0 <= i < j < |nids| && TupleAt(events, nids[i]) == TupleAt(events, nids[j]);
      assert KeyAt(events, nids[i]) in s && KeyAt(events, nids[j]) in s;
    }
  }

  /** Replacing the entry with the new event's key, or appending it, represents the updated state. */
  lemma RolledForward(events: seq<Slot>, old_: seq<Nid>, s: State, new_: Nid, h: nat)
    requires Represents(events, old_, s) && HasRow(events, new_) && new_ !in old_ && h <= |old_|
    requires var k := KeyAt(events, new_); k in s <==> h < |old_|
    requires h < |old_| ==> s[KeyAt(events, new_)] == old_[h]
    ensures var next := if h < |old_| then old_[h := new_] else old_ + [new_];
      Represents(events, next, s[KeyAt(events, new_) := new_])
  {
    var k := KeyAt(events, new_);
    var next, t := if h < |old_| then old_[h := new_] else old_ + [new_], s[k := new_];
    forall l | l in t ensures t[l] in next && HasRow(events, t[l]) && KeyAt(events, t[l]) == l {
      if l == k {
        assert next[h] == new_;
      } else {
        assert s[l] in old_;
        var i :| 0 <= i < |old_| && old_[i] == s[l];
        assert next[i] == s[l];
      }
    }
    forall n | n in next ensures Holds(events, t, n) {
      if n != new_ {
        var i :| 0 <= i < |next| && next[i] == n;
        assert i < |old_| && old_[i] == n;
        assert Holds(events, s, n);
      }
    }
  }

  /** Where in the snapshot the tuple is, or the snapshot's length. */
  ghost function TupleIndex(events: seq<Slot>, nids: seq<Nid>, t: string): (h: nat)
    ensures h <= |nids| && (h < |nids| ==> TupleAt(events, nids[h]) == t)
    ensures forall i :: 0 <= i < h ==> TupleAt(events, nids[i]) != t
  {
    if nids == [] || TupleAt(events, nids[0]) == t then 0 else 1 + TupleIndex(events, nids[1..], t)
  }

  /** The snapshot with the new event in place of the one with its tuple, or at the end. */
  ghost function Rolled(events: seq<Slot>, old_: seq<Nid>, new_: Nid): seq<Nid> {
    var h := TupleIndex(events, old_, TupleAt(events, new_));
    if h < |old_| then old_[h := new_] else old_ + [new_]
  }

  ghost function ReplacedBy(events: seq<Slot>, old_: seq<Nid>, new_: Nid): Nid {
    var h := TupleIndex(events, old_, TupleAt(events, new_));
    if h < |old_| then old_[h] else 0
  }

  /**
   * The snapshot with the new event in it and the row number it replaces, or nothing if a tuple is repeated.
   * Whatever comes out has no tuple twice.
   */
  method CalculateNewSnapshot(events: seq<Slot>, old_: seq<Nid>, new_: Nid) returns (r: Option<(seq<Nid>, Nid)>)
    ensures r.Some? <==> DistinctTuples(events, old_)
    ensures r.Some? ==> r.value == (Rolled(events, old_, new_), ReplacedBy(events, old_, new_))
    ensures r.Some? ==> DistinctTuples(events, r.value.0)
  {
    var newTuple := TupleKey(KeyAt(events, new_));
    var added, replacedNid := false, 0;
    var seenTuples: set<string> := {};
    var result: seq<Nid> := [];
    ghost var h := TupleIndex(events, old_, newTuple);
    for i := 0 to |old_|
      invariant DistinctTuples(events, old_[..i]) && (added <==> h < i)
      invariant replacedNid == if h < i then old_[h] else 0
      invariant result == if h < i then old_[..i][h := new_] else old_[..i]
      invariant forall t :: t in seenTuples <==> exists j :: 0 <= j < i && t == TupleAt(events, old_[j])
      invariant h < i ==> newTuple in seenTuples
    {
      var e := old_[i];
      var existingTuple := TupleKey(KeyAt(events, e));
      if existingTuple in seenTuples {
        return None;
      }
      DistinctMore(events, old_, i);
      seenTuples := seenTuples + {existingTuple};
      if e == new_ && existingTuple != newTuple {
        return None;
      }
      if existingTuple == newTuple {
        result := result + [new_];
        added := true;
        replacedNid := e;
        continue;
      }
      result := result + [e];
    }
    assert old_[..|old_|] == old_;
    RolledDistinct(events, old_, new_);
    if !added {
      result := result + [new_];
    }
    return Some((result, replacedNid));
  }

  lemma DistinctMore(events: seq<Slot>, nids: seq<Nid>, i: nat)
    requires i < |nids| && DistinctTuples(events, nids[..i])
    requires forall j :: 0 <= j < i ==> TupleAt(events, nids[j]) != TupleAt(events, nids[i])
    ensures DistinctTuples(events, nids[..i + 1])
  {
  }

  lemma RolledDistinct(events: seq<Slot>, old_: seq<Nid>, new_: Nid)
    requires DistinctTuples(events, old_)
    ensures DistinctTuples(events, Rolled(events, old_, new_))
  {
  }

  /**
   * Rolling a snapshot forward succeeds, and gives the state with the event in it, if and only if no two keys
   * of that state share a tuple.
   */
  lemma RollsExactly(events: seq<Slot>, old_: seq<Nid>, s: State, new_: Nid)
    requires Represents(events, old_, s) && HasRow(events, new_) && new_ !in old_
    ensures var k := KeyAt(events, new_);
      && (DistinctTuples(events, old_) && Represents(events, Rolled(events, old_, new_), s[k := new_])
          <==> TuplesApart(s[k := new_]))
      && (TuplesApart(s[k := new_]) ==> ReplacedBy(events, old_, new_) == if k in s then s[k] else 0)
  {
    var k, t := KeyAt(events, new_), TupleAt(events, new_);
    var h := TupleIndex(events, old_, t);
    DistinctExactly(events, old_, s);
    if TuplesApart(s[k := new_]) {
      assert TuplesApart(s);
      FoundTuple(events, old_, s, new_);
      RolledForward(events, old_, s, new_, h);
    } else if DistinctTuples(events, old_) && Represents(events, Rolled(events, old_, new_), s[k := new_]) {
      RolledDistinct(events, old_, new_);
      DistinctExactly(events, Rolled(events, old_, new_), s[k := new_]);
    }
  }

  /** With tuples apart, the tuple is found exactly where the key is. */
  lemma FoundTuple(events: seq<Slot>, old_: seq<Nid>, s: State, new_: Nid)
    requires Represents(events, old_, s) && HasRow(events, new_) && TuplesApart(s[KeyAt(events, new_) := new_])
    ensures var k, h := KeyAt(events, new_), TupleIndex(events, old_, TupleAt(events, new_));
      (k in s <==> h < |old_|) && (h < |old_| ==> s[k] == old_[h])
  {
    var k, h := KeyAt(events, new_), TupleIndex(events, old_, TupleAt(events, new_));
    var t := s[k := new_];
    if h < |old_| {
      assert old_[h] in old_ && Holds(events, s, old_[h]);
      assert KeyAt(events, old_[h]) in t && k in t;
    }
    if k in s {
      var i :| 0 <= i < |old_| && old_[i] == s[k];
    }
  }
}
