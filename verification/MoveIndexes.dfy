/** sync3/request.go: splitting one list move into a move per tracked range. */
module MoveIndexes {
  import opened Common
  import opened Ranges
  import opened ClosestBound

  type Pair = (int, int)

  function Clamp(r: Range, i: int): int {
    if i < r.lo then r.lo else if i > r.hi then r.hi else i
  }

  /** What one range sees of a move: both ends pulled to the nearest index of the range. */
  function ClampPair(r: Range, from: int, to: int): Pair { (Clamp(r, from), Clamp(r, to)) }

  /** The range has an index between `from` and `to`, both included. */
  predicate Meets(r: Range, from: int, to: int) {
    r.lo <= Max(from, to) && Min(from, to) <= r.hi
  }

  predicate JumpedOver(r: Range, from: int, to: int) {
    Min(from, to) < r.lo < Max(from, to) && Min(from, to) < r.hi < Max(from, to)
  }

  function Jumped(rs: seq<Range>, from: int, to: int): seq<Range> {
    if rs == [] then []
    else (if JumpedOver(rs[0], from, to) then [rs[0]] else []) + Jumped(rs[1..], from, to)
  }

  /** The ranges a move touches, in the order the server reports them. */
  function MovedRanges(rs: seq<Range>, from: int, to: int): seq<Range> {
    match (Inside(rs, from), Inside(rs, to))
    case (Some(r), Some(s)) => if r == s then [r] else [r, s] + Jumped(rs, from, to)
    case (Some(r), None) => [r] + Jumped(rs, from, to)
    case (None, Some(s)) => [s] + Jumped(rs, from, to)
    case (None, None) => Jumped(rs, from, to)
  }

  function ClampAll(moved: seq<Range>, from: int, to: int): seq<Pair> {
    if moved == [] then [] else [ClampPair(moved[0], from, to)] + ClampAll(moved[1..], from, to)
  }

  lemma {:induction false} JumpedExact(rs: seq<Range>, from: int, to: int)
    requires Valid(rs)
    ensures forall r :: r in Jumped(rs, from, to) <==> r in rs && JumpedOver(r, from, to)
    ensures NoDup(Jumped(rs, from, to))
  {
    if rs != [] {
      JumpedExact(rs[1..], from, to);
      assert rs == [rs[0]] + rs[1..];
      forall x | x in rs[1..] ensures x != rs[0] {
        var j :| 0 <= j < |rs[1..]| && rs[1..][j] == x;
        assert Apart(rs[0], rs[j + 1]);
      }
    }
  }

  /**
   * A move is reported to exactly the tracked ranges that have an index between its two ends,
   * each of them once, whichever of the three cases of the algorithm applies.
   */
  lemma MovedRangesExact(rs: seq<Range>, from: int, to: int)
    requires Valid(rs)
    ensures forall r :: r in MovedRanges(rs, from, to) <==> r in rs && Meets(r, from, to)
    ensures NoDup(MovedRanges(rs, from, to))
  {
    JumpedExact(rs, from, to);
    var moved := MovedRanges(rs, from, to);
    forall r | r in rs ensures r in moved <==> Meets(r, from, to) {
      ValidApart(rs, r, r);
      if In(r, from) {
        InsideUnique(rs, r, from);
      } else if In(r, to) {
        InsideUnique(rs, r, to);
      }
      if Inside(rs, from).Some? {
        ValidApart(rs, r, Inside(rs, from).value);
      }
      if Inside(rs, to).Some? {
        ValidApart(rs, r, Inside(rs, to).value);
      }
    }
  }

  lemma JumpedNext(rs: seq<Range>, k: nat, head: seq<Range>, from: int, to: int)
    requires k < |rs|
    ensures head + Jumped(rs[k..], from, to) ==
      (if JumpedOver(rs[k], from, to) then head + [rs[k]] else head) + Jumped(rs[k + 1..], from, to)
  {
    assert rs[k..][1..] == rs[k + 1..];
  }

  method JumpedOverRanges(rs: seq<Range>, from: int, to: int) returns (jumped: seq<Range>)
    ensures jumped == Jumped(rs, from, to)
  {
    var hi, lo := from, to;
    if from < to {
      hi, lo := to, from;
    }
    jumped := [];
    for k := 0 to |rs|
      invariant jumped + Jumped(rs[k..], from, to) == Jumped(rs, from, to)
    {
      JumpedNext(rs, k, jumped, from, to);
      var r := rs[k];
      if r.lo > lo && r.lo < hi && r.hi > lo && r.hi < hi {
        jumped := jumped + [r];
      }
    }
  }

  lemma {:induction false} ClampAllAppend(s: seq<Range>, r: Range, from: int, to: int)
    ensures ClampAll(s + [r], from, to) == ClampAll(s, from, to) + [ClampPair(r, from, to)]
  {
    if s != [] {
      ClampAllAppend(s[1..], r, from, to);
      assert (s + [r])[1..] == s[1..] + [r];
    }
  }

  /** With one end inside a range and the other outside it, the closest bound is the clamp of the other end. */
  lemma ClosestIsClamp(rs: seq<Range>, i: int, other: int, c: int)
    requires Valid(rs) && Inside(rs, i).Some? && Inside(rs, i) != Inside(rs, other)
    requires IsClosest(rs, i, other < i, c)
    ensures c == Clamp(Inside(rs, i).value, other)
  {
    var r := Inside(rs, i).value;
    if In(r, other) {
      InsideUnique(rs, r, other);
    }
  }

  method AppendJumped(fromTos: seq<Pair>, ghost moved: seq<Range>, jumped: seq<Range>, from: int, to: int)
    returns (all: seq<Pair>)
    requires fromTos == ClampAll(moved, from, to)
    requires forall r :: r in jumped ==> JumpedOver(r, from, to)
    ensures all == ClampAll(moved + jumped, from, to)
  {
    all := fromTos;
    assert moved + jumped[..0] == moved;
    for k := 0 to |jumped|
      invariant all == ClampAll(moved + jumped[..k], from, to)
    {
      assert jumped[k] in jumped;
      ClampAllAppend(moved + jumped[..k], jumped[k], from, to);
      assert moved + jumped[..k + 1] == (moved + jumped[..k]) + [jumped[k]];
      if from > to {
        all := all + [(jumped[k].hi, jumped[k].lo)];
      } else {
        all := all + [(jumped[k].lo, jumped[k].hi)];
      }
    }
    assert jumped[..|jumped|] == jumped;
  }

  /** The ranges that the two ends of a move are in. */
  function Ends(rs: seq<Range>, from: int, to: int): seq<Range> {
    (if Inside(rs, from).Some? then [Inside(rs, from).value] else [])
    + if Inside(rs, to).Some? then [Inside(rs, to).value] else []
  }

  lemma MovedParts(rs: seq<Range>, from: int, to: int)
    requires Inside(rs, from).None? || Inside(rs, from) != Inside(rs, to)
    ensures MovedRanges(rs, from, to) == Ends(rs, from, to) + Jumped(rs, from, to)
  {
    match (Inside(rs, from), Inside(rs, to)) {
      case (Some(r), Some(s)) => assert Ends(rs, from, to) == [r] + [s] == [r, s];
      case (Some(r), None) => assert Ends(rs, from, to) == [r] + [] == [r];
      case (None, Some(s)) => assert Ends(rs, from, to) == [] + [s] == [s];
      case (None, None) => assert Ends(rs, from, to) == [] + [] == [];
    }
  }

  lemma MovedInside(rs: seq<Range>, from: int, to: int)
    requires Inside(rs, from).Some? && Inside(rs, from) == Inside(rs, to)
    ensures MovedRanges(rs, from, to) == [Inside(rs, to).value]
  {
  }

  lemma ClampTwo(r: Range, s: Range, from: int, to: int)
    ensures ClampAll([r], from, to) == [ClampPair(r, from, to)]
    ensures ClampAll([r, s], from, to) == [ClampPair(r, from, to), ClampPair(s, from, to)]
  {
    assert [r] + [s] == [r, s];
    ClampAllAppend([r], s, from, to);
  }

  /** The pairs of the ranges that one end of the move is in and the other is not. */
  method EndPairs(rs: seq<Range>, from: int, to: int) returns (fromTos: seq<Pair>)
    requires Valid(rs) && (Inside(rs, from).None? || Inside(rs, from) != Inside(rs, to))
    ensures fromTos == ClampAll(Ends(rs, from, to), from, to)
  {
    fromTos := [];
    var fromRng := Inside(rs, from);
    var toRng := Inside(rs, to);
    if fromRng.Some? {
      var c := ClosestInDirection(rs, from, to < from);
      ClosestIsClamp(rs, from, to, c);
      ClampTwo(fromRng.value, fromRng.value, from, to);
      fromTos := [(from, c)];
    }
    if toRng.Some? {
      var c := ClosestInDirection(rs, to, from < to);
      ClosestIsClamp(rs, to, from, c);
      ClampTwo(if fromRng.Some? then fromRng.value else toRng.value, toRng.value, from, to);
      fromTos := fromTos + [(c, to)];
    }
  }

  /**
   * Rules A, B and C of the server: both ends in one range, an end inside a range the other is
   * not in, both ends outside. The result is the pair of clamped ends for each moved range.
   */
  method CalculateMoveIndexes(rs: seq<Range>, from: int, to: int) returns (fromTos: seq<Pair>)
    requires Valid(rs)
    ensures fromTos == ClampAll(MovedRanges(rs, from, to), from, to)
  {
    var fromRng := Inside(rs, from);
    var toRng := Inside(rs, to);
    if fromRng.Some? && toRng.Some? && fromRng == toRng {
      ClampTwo(fromRng.value, fromRng.value, from, to);
      return [(from, to)];
    }
    MovedParts(rs, from, to);
    JumpedExact(rs, from, to);
    fromTos := EndPairs(rs, from, to);
    var jumped := JumpedOverRanges(rs, from, to);
    fromTos := AppendJumped(fromTos, Ends(rs, from, to), jumped, from, to);
  }
}
