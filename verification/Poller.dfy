/** sync2/poller.go: one device's poll loop, its retries and its since token. */
module Poller {
  import opened Common

  // ---- which errors are worth a retry ----

  /** An error as errors.As sees it: a chain of wrappings and joins. */
  datatype Error = DataError | OtherError | Wrapped(inner: Error) | Joined(errors: seq<Error>)

  predicate HasDataError(e: Error) {
    match e
    case DataError => true
    case OtherError => false
    case Wrapped(inner) => HasDataError(inner)
    case Joined(errors) => exists i :: 0 <= i < |errors| && HasDataError(errors[i])
  }

  /** What the error comes down to once its wrappings and joins are taken off. */
  ghost function Leaves(e: Error): set<Error> {
    match e
    case Wrapped(inner) => Leaves(inner)
    case Joined(errors) => set i, l | 0 <= i < |errors| && l in Leaves(errors[i]) :: l
    case _ => {e}
  }

  /** Nothing in the error says that the data itself is bad. */
  ghost predicate Transient(e: Error) { DataError !in Leaves(e) }

  lemma {:induction false} DataErrorExactly(e: Error)
    ensures HasDataError(e) <==> !Transient(e)
  {
    match e
    case DataError =>
    case OtherError =>
    case Wrapped(inner) => DataErrorExactly(inner);
    case Joined(errors) =>
      forall i | 0 <= i < |errors| ensures HasDataError(errors[i]) <==> DataError in Leaves(errors[i]) {
        DataErrorExactly(errors[i]);
      }
  }

  /** Every error except a data error, which a retry would not cure. */
  predicate ShouldRetry(e: Option<Error>) { e.Some? && !HasDataError(e.value) }

  function Retriable(errs: seq<Error>): seq<Error> {
    if errs == [] then []
    else (if HasDataError(errs[0]) then [] else [errs[0]]) + Retriable(errs[1..])
  }

  /** The single error a response's rooms amount to. */
  function RoomsError(errs: seq<Error>): Option<Error> {
    if |errs| == 0 then None
    else if |errs| == 1 then Some(errs[0])
    else if Retriable(errs) != [] then Some(Joined(Retriable(errs)))
    else Some(Joined(errs))
  }

  lemma {:induction false} RetriableExactly(errs: seq<Error>)
    ensures forall e :: e in Retriable(errs) <==> e in errs && !HasDataError(e)
  {
    if errs != [] {
      RetriableExactly(errs[1..]);
      assert errs == [errs[0]] + errs[1..];
    }
  }

  lemma {:induction false} RetriableAppend(errs: seq<Error>, e: Error)
    ensures Retriable(errs + [e]) == Retriable(errs) + if HasDataError(e) then [] else [e]
  {
    if errs == [] {
      assert errs + [e] == [e];
    } else {
      RetriableAppend(errs[1..], e);
      assert (errs + [e])[1..] == errs[1..] + [e];
    }
  }

  /** A mix of room errors is retried exactly when some one of them is worth a retry. */
  lemma RoomsErrorRetries(errs: seq<Error>)
    ensures ShouldRetry(RoomsError(errs)) <==> exists e :: e in errs && Transient(e)
  {
    RetriableExactly(errs);
    forall e ensures HasDataError(e) <==> !Transient(e) {
      DataErrorExactly(e);
    }
    var kept := Retriable(errs);
    if |errs| > 1 && kept != [] {
      assert kept[0] in kept;
      assert forall i :: 0 <= i < |kept| ==> kept[i] in kept;
    } else if |errs| > 1 {
      assert errs[0] in errs;
      assert HasDataError(errs[0]);
    }
  }

  method MergeRoomErrors(lastErrs: seq<Error>) returns (merged: Option<Error>)
    ensures merged == RoomsError(lastErrs)
  {
    if |lastErrs| == 0 {
      return None;
    }
    if |lastErrs| == 1 {
      return Some(lastErrs[0]);
    }
    var retriableOnly: seq<Error> := [];
    for i := 0 to |lastErrs|
      invariant retriableOnly == Retriable(lastErrs[..i])
    {
      RetriableAppend(lastErrs[..i], lastErrs[i]);
      assert lastErrs[..i] + [lastErrs[i]] == lastErrs[..i + 1];
      if ShouldRetry(Some(lastErrs[i])) {
        retriableOnly := retriableOnly + [lastErrs[i]];
      }
    }
    assert lastErrs[..|lastErrs|] == lastErrs;
    if |retriableOnly| > 0 {
      return Some(Joined(retriableOnly));
    }
    return Some(Joined(lastErrs));
  }

  // ---- one poll ----

  type Token = nat

  /** What the callbacks would return for each section of a response. */
  datatype Response = Response(nextBatch: Token, toDevice: seq<nat>, e2ee: Option<Error>, accountData: Option<Error>,
                               rooms: seq<Error>, addToDevice: Option<Error>)

  /**
   * What happens around one poll: termination from outside, seen at the head of the loop (`Stopped`) or inside
   * the poll, the answer and the clock, or a panic, in the request or a callback before the token moves or in
   * the callback that stores the new token.
   */
  datatype Sync =
    | Stopped
    | Terminated
    | RequestError(status: int)
    | Answered(response: Response, minutePassed: bool)
    | Panics
    | PanicsStoring(response: Response)

  /**
   * The loop's variables and its effects. `tokens` are the since tokens in order, the last one current, and
   * `answers` the responses that led from each to the next; `persisted` says which token was last stored;
   * `batches` are the token numbers from which a non-empty to-device batch was fetched and accepted;
   * `released` counts wg.Done calls.
   */
  datatype Loop = Loop(tokens: seq<Token>, answers: seq<Response>, persisted: nat, batches: seq<nat>,
                       failCount: nat, firstTime: bool, released: nat, expired: bool, halted: bool, panicked: bool)

  function Starting(since: Token): Loop { Loop([since], [], 0, [], 0, true, 0, false, false, false) }

  /** The first section in order that asks for a retry. */
  predicate SomeSectionRetries(r: Response) {
    || ShouldRetry(r.e2ee) || ShouldRetry(r.accountData) || ShouldRetry(RoomsError(r.rooms))
    || (r.toDevice != [] && ShouldRetry(r.addToDevice))
  }

  /** The sections before the to-device messages, which are only handed over when none of them retries. */
  predicate EarlierSectionRetries(r: Response) {
    ShouldRetry(r.e2ee) || ShouldRetry(r.accountData) || ShouldRetry(RoomsError(r.rooms))
  }

  predicate AcceptsBatch(r: Response) { !EarlierSectionRetries(r) && r.toDevice != [] && r.addToDevice.None? }

  /** Moved on to the next token, which is stored if `stores`, or would be but for a panic. */
  function MovedOn(l: Loop, r: Response, stores: bool, panics: bool): Loop {
    var moved := l.(tokens := l.tokens + [r.nextBatch], answers := l.answers + [r]);
    if panics then moved.(halted := true, panicked := true)
    else
      moved.(persisted := if stores || r.toDevice != [] then |l.tokens| else l.persisted,
             firstTime := false, released := if l.firstTime then l.released + 1 else l.released)
  }

  /** After an answer, whose sections may ask for a retry. */
  function AfterAnswer(l: Loop, r: Response, stores: bool, panics: bool): Loop
    requires l.tokens != []
  {
    var batches := if AcceptsBatch(r) then l.batches + [|l.tokens| - 1] else l.batches;
    if SomeSectionRetries(r) then l.(batches := batches, failCount := 1)
    else MovedOn(l.(batches := batches, failCount := 0), r, stores, panics)
  }

  function Poll(l: Loop, s: Sync): Loop
    requires l.tokens != [] && !l.halted
  {
    if s.Stopped? then l.(halted := true)
    else if s.Panics? then l.(halted := true, panicked := true)
    else if l.failCount > 1000 then l.(expired := true, halted := true)
    else match s
      case Terminated => l.(halted := true)
      case RequestError(status) =>
        if status == 401 || status == 403 then l.(expired := true, halted := true)
        else l.(failCount := l.failCount + 1)
      case Answered(r, minutePassed) => AfterAnswer(l, r, minutePassed, false)
      case PanicsStoring(r) => AfterAnswer(l, r, true, true)
  }

  /** What became of the answer that led from token i to the next. */
  ghost predicate AnswerOk(l: Loop, i: nat)
    requires |l.answers| + 1 == |l.tokens| && i < |l.answers|
  {
    var r := l.answers[i];
    && l.tokens[i + 1] == r.nextBatch
    && !SomeSectionRetries(r)
    && (i in l.batches <==> r.toDevice != [] && r.addToDevice.None?)
    && (i in l.batches ==> i < l.persisted || (l.panicked && i == |l.answers| - 1))
  }

  /**
   * Every answer the token moved past was handled without a retry, its to-device batch accepted exactly once
   * and, but for a panic, only with the token after it stored; one release per first sync.
   */
  ghost predicate Inv(l: Loop) {
    && |l.answers| + 1 == |l.tokens|
    && l.persisted < |l.tokens|
    && (forall i :: 0 <= i < |l.answers| ==> AnswerOk(l, i))
    && (forall i :: 0 <= i < |l.batches| ==> l.batches[i] < |l.answers|)
    && (forall i, j :: 0 <= i < j < |l.batches| ==> l.batches[i] < l.batches[j])
    && l.released == (if l.firstTime then 0 else 1)
    && (l.panicked ==> l.halted)
  }

  /** The poll moves the token on. */
  predicate Advances(l: Loop, s: Sync) {
    l.failCount <= 1000 && (s.Answered? || s.PanicsStoring?) && !SomeSectionRetries(s.response)
  }

  lemma PollKeepsInv(l: Loop, s: Sync)
    requires Inv(l) && !l.halted
    ensures Inv(Poll(l, s))
  {
    if Advances(l, s) {
      AdvanceKeepsInv(l, s);
    } else {
      var r := Poll(l, s);
      assert r.answers == l.answers && r.tokens == l.tokens && r.batches == l.batches && r.persisted == l.persisted;
      forall i | 0 <= i < |r.answers|
        ensures AnswerOk(r, i)
      {
        assert AnswerOk(l, i);
      }
    }
  }

  lemma AdvanceKeepsInv(l: Loop, s: Sync)
    requires Inv(l) && !l.halted && Advances(l, s)
    ensures Inv(Poll(l, s))
  {
    var r := Poll(l, s);
    forall i | 0 <= i < |r.answers|
      ensures AnswerOk(r, i)
    {
      assert i < |l.answers| ==> AnswerOk(l, i);
    }
  }

  /** Some error of the response, each room's taken alone, is transient; to-device errors need messages to arise. */
  ghost predicate SomeTransient(r: Response) {
    || (r.e2ee.Some? && Transient(r.e2ee.value)) || (r.accountData.Some? && Transient(r.accountData.value))
    || (exists e :: e in r.rooms && Transient(e))
    || (r.toDevice != [] && r.addToDevice.Some? && Transient(r.addToDevice.value))
  }

  lemma RetriesExactly(r: Response)
    ensures SomeSectionRetries(r) <==> SomeTransient(r)
  {
    RoomsErrorRetries(r.rooms);
    forall e ensures HasDataError(e) <==> !Transient(e) {
      DataErrorExactly(e);
    }
  }

  /**
   * The token advances exactly when an answer came and every error it met has bad data behind it, and then to the
   * answer's own; it is stored exactly if a minute has passed or there were to-device messages, but for a panic.
   * Either way earlier failures are forgotten: the next poll waits only if this answer is to be asked for again.
   */
  lemma AdvancesExactly(l: Loop, s: Sync)
    requires Inv(l) && !l.halted
    ensures var r := Poll(l, s);
      && (r.tokens != l.tokens <==>
          l.failCount <= 1000 && (s.Answered? || s.PanicsStoring?) && !SomeTransient(s.response))
      && (r.tokens != l.tokens ==> r.tokens == l.tokens + [s.response.nextBatch])
      && (r.persisted != l.persisted <==>
          r.tokens != l.tokens && s.Answered? && (s.minutePassed || s.response.toDevice != []))
      && (r.persisted != l.persisted ==> r.persisted == |l.tokens|)
      && (l.failCount <= 1000 && (s.Answered? || s.PanicsStoring?) ==>
          r.failCount == if SomeTransient(s.response) then 1 else 0)
  {
    if s.Answered? || s.PanicsStoring? {
      RetriesExactly(s.response);
    }
  }

  predicate IsTemporary(s: Sync) { s.RequestError? && s.status != 401 && s.status != 403 }

  /** Failed requests are counted, and the poll after the first 1001 in a row reports the token as expired. */
  lemma {:induction false} TemporaryErrorsExpire(l: Loop, ss: seq<Sync>)
    requires l.tokens != [] && !l.halted && !l.expired && l.failCount <= 1001
    requires forall i :: 0 <= i < |ss| ==> IsTemporary(ss[i])
    ensures var r := PollAll(l, ss);
      if l.failCount + |ss| <= 1001 then r == l.(failCount := l.failCount + |ss|)
      else r == l.(failCount := 1001, expired := true, halted := true)
    decreases ss
  {
    if ss != [] {
      var t := Poll(l, ss[0]);
      if l.failCount <= 1000 {
        assert t == l.(failCount := l.failCount + 1);
        TemporaryErrorsExpire(t, ss[1..]);
      }
    }
  }

  /** A token that the homeserver refuses is reported as expired at once. */
  lemma RefusalExpires(l: Loop, status: int)
    requires l.tokens != [] && !l.halted && !l.expired && l.failCount <= 1000
    ensures Poll(l, RequestError(status)).expired <==> status == 401 || status == 403
    ensures Poll(l, RequestError(status)).halted <==> status == 401 || status == 403
  {
  }

  ghost function PollAll(l: Loop, ss: seq<Sync>): Loop
    requires l.tokens != []
    decreases ss
  {
    if ss == [] || l.halted then l else PollAll(Poll(l, ss[0]), ss[1..])
  }

  /** What follows the loop, unless a panic has skipped it. */
  function Released(l: Loop): Loop {
    if l.firstTime && !l.panicked then l.(firstTime := false, released := l.released + 1) else l
  }

  lemma ReleasedKeepsInv(l: Loop)
    requires Inv(l)
    ensures Inv(Released(l)) && (Released(l).released == 1 <==> !(l.panicked && l.firstTime))
  {
    forall i | 0 <= i < |l.answers|
      ensures AnswerOk(Released(l), i)
    {
      assert AnswerOk(l, i);
    }
  }

  /** Sections that keep failing are retried for ever: only failed requests count towards the limit. */
  lemma {:induction false} SectionErrorsNeverExpire(l: Loop, ss: seq<Sync>)
    requires l.tokens != [] && l.failCount <= 1 && !l.expired && !l.halted
    requires forall i :: 0 <= i < |ss| ==> ss[i].Answered?
    ensures !PollAll(l, ss).halted && !PollAll(l, ss).expired
    decreases ss
  {
    if ss != [] {
      SectionErrorsNeverExpire(Poll(l, ss[0]), ss[1..]);
    }
  }

  /** Nothing is taken back. */
  ghost predicate Extends(l: Loop, r: Loop) {
    l.tokens <= r.tokens && l.answers <= r.answers && l.persisted <= r.persisted && l.batches <= r.batches
  }

  lemma PollExtends(l: Loop, s: Sync)
    requires Inv(l) && !l.halted
    ensures Extends(l, Poll(l, s))
  {
  }

  lemma {:induction false} RunsKeepInv(l: Loop, ss: seq<Sync>)
    requires Inv(l)
    ensures Inv(PollAll(l, ss)) && Extends(l, PollAll(l, ss))
    decreases ss
  {
    if ss != [] && !l.halted {
      PollKeepsInv(l, ss[0]);
      PollExtends(l, ss[0]);
      RunsKeepInv(Poll(l, ss[0]), ss[1..]);
    }
  }

  // ---- what a panic can do ----

  predicate Dies(l: Loop, s: Sync) { s.Panics? || (s.PanicsStoring? && Advances(l, s)) }

  /** The run ends in a panic before any first sync was completed. */
  ghost predicate DiesFirst(l: Loop, ss: seq<Sync>)
    requires l.tokens != []
    decreases ss
  {
    ss != [] && !l.halted && (if Dies(l, ss[0]) then l.firstTime else DiesFirst(Poll(l, ss[0]), ss[1..]))
  }

  /** The run ends in a panic while storing the token after an accepted to-device batch. */
  ghost predicate DiesStoring(l: Loop, ss: seq<Sync>)
    requires l.tokens != []
    decreases ss
  {
    ss != [] && !l.halted &&
    (if Dies(l, ss[0]) then ss[0].PanicsStoring? && AcceptsBatch(ss[0].response)
     else DiesStoring(Poll(l, ss[0]), ss[1..]))
  }

  /** Whoever waits for the first sync is released exactly once, unless a panic ends the loop before it. */
  lemma {:induction false} ReleasedExactly(l: Loop, ss: seq<Sync>)
    requires Inv(l) && !l.panicked
    ensures Released(PollAll(l, ss)).released == if DiesFirst(l, ss) then 0 else 1
    decreases ss
  {
    if ss != [] && !l.halted {
      PollKeepsInv(l, ss[0]);
      if !Dies(l, ss[0]) {
        ReleasedExactly(Poll(l, ss[0]), ss[1..]);
      }
    }
  }

  /** A batch that was accepted would be fetched again from the stored token. */
  ghost predicate Refetches(l: Loop) { exists i :: 0 <= i < |l.batches| && l.batches[i] >= l.persisted }

  lemma RefetchesOnlyAfterPanic(l: Loop)
    requires Inv(l) && !l.panicked
    ensures !Refetches(l)
  {
    forall i | 0 <= i < |l.batches|
      ensures l.batches[i] < l.persisted
    {
      assert AnswerOk(l, l.batches[i]);
    }
  }

  lemma DiedStoring(l: Loop, s: Sync)
    requires Inv(l) && !l.halted && Dies(l, s)
    ensures Refetches(Poll(l, s)) <==> s.PanicsStoring? && AcceptsBatch(s.response)
  {
    RefetchesOnlyAfterPanic(l);
    var r := Poll(l, s);
    if s.PanicsStoring? && AcceptsBatch(s.response) {
      assert r.batches[|l.batches|] >= r.persisted;
    } else {
      assert r.batches == l.batches && r.persisted == l.persisted;
    }
  }

  /**
   * Since-token safety over any run: a restart from the stored token fetches an accepted batch again if and
   * only if a panic ended the run while the token after that batch was being stored.
   */
  lemma {:induction false} RefetchesExactly(l: Loop, ss: seq<Sync>)
    requires Inv(l) && !l.panicked
    ensures Refetches(PollAll(l, ss)) <==> DiesStoring(l, ss)
    decreases ss
  {
    if ss == [] || l.halted {
      RefetchesOnlyAfterPanic(l);
    } else {
      PollKeepsInv(l, ss[0]);
      if Dies(l, ss[0]) {
        DiedStoring(l, ss[0]);
      } else {
        RefetchesExactly(Poll(l, ss[0]), ss[1..]);
      }
    }
  }

  class PollLoop {
    var tokens: seq<Token>
    var answers: seq<Response>
    var persisted: nat
    var batches: seq<nat>
    var failCount: nat
    var firstTime: bool
    var released: nat
    var expired: bool
    var halted: bool
    var panicked: bool

    ghost function Contents(): Loop
      reads this
    {
      Loop(tokens, answers, persisted, batches, failCount, firstTime, released, expired, halted, panicked)
    }

    constructor (since: Token)
      ensures Contents() == Starting(since) && Inv(Contents())
    {
      tokens, answers, persisted, batches := [since], [], 0, [];
      failCount, firstTime, released, expired, halted, panicked := 0, true, 0, false, false, false;
    }

    /** AddToDeviceMessages is called only with something to add. */
    method ParseToDevice(r: Response) returns (e: Option<Error>)
      requires tokens != []
      modifies this`batches
      ensures e == if r.toDevice == [] then None else r.addToDevice
      ensures batches == if r.toDevice != [] && r.addToDevice.None? then old(batches) + [|tokens| - 1] else old(batches)
    {
      if |r.toDevice| == 0 {
        return None;
      }
      if r.addToDevice.None? {
        batches := batches + [|tokens| - 1];
      }
      return r.addToDevice;
    }

    /** The sections in order, stopping at the first that asks for a retry; the to-device messages come last. */
    method HandleSections(r: Response) returns (retry: bool)
      requires tokens != []
      modifies this`batches
      ensures retry == SomeSectionRetries(r)
      ensures batches == if AcceptsBatch(r) then old(batches) + [|tokens| - 1] else old(batches)
    {
      if ShouldRetry(r.e2ee) {
        return true;
      }
      if ShouldRetry(r.accountData) {
        return true;
      }
      var roomsErr := MergeRoomErrors(r.rooms);
      if ShouldRetry(roomsErr) {
        return true;
      }
      var toDeviceErr := ParseToDevice(r);
      return ShouldRetry(toDeviceErr);
    }

    /** One poll; a panic unwinds it at once. */
    method PollOnce(s: Sync)
      requires Inv(Contents()) && !halted && !s.Stopped?
      modifies this
      ensures Contents() == Poll(old(Contents()), s) && Inv(Contents())
    {
      PollKeepsInv(Contents(), s);
      if s.Panics? {
        halted, panicked := true, true;
        return;
      }
      if failCount > 0 {
        if failCount > 1000 {
          expired, halted := true, true;
          return;
        }
      }
      if s.Terminated? {
        halted := true;
        return;
      }
      if s.RequestError? {
        if s.status == 401 || s.status == 403 {
          expired, halted := true, true;
          return;
        }
        failCount := failCount + 1;
        return;
      }
      HandleAnswer(s.response, s.PanicsStoring? || s.minutePassed, s.PanicsStoring?);
    }

    method HandleAnswer(r: Response, stores: bool, panics: bool)
      requires tokens != [] && !halted && !panicked && failCount <= 1000 && (panics ==> stores)
      modifies this
      ensures Contents() == AfterAnswer(old(Contents()), r, stores, panics)
    {
      failCount := 0;
      var retry := HandleSections(r);
      if retry {
        failCount := failCount + 1;
        return;
      }
      MoveOn(r, stores, panics);
    }

    method MoveOn(r: Response, stores: bool, panics: bool)
      requires panics ==> stores
      modifies this
      ensures Contents() == MovedOn(old(Contents()), r, stores, panics)
    {
      tokens, answers := tokens + [r.nextBatch], answers + [r];
      if stores || |r.toDevice| > 0 {
        if panics {
          halted, panicked := true, true;
          return;
        }
        persisted := |tokens| - 1;
      }
      if firstTime {
        firstTime := false;
        released := released + 1;
      }
    }

    /** The loop ends by releasing whoever waits for the first sync, if that has not happened yet. */
    method Run(ss: seq<Sync>)
      requires Inv(Contents()) && !halted
      modifies this
      ensures Contents() == Released(PollAll(old(Contents()), ss)) && Inv(Contents())
      ensures released == if DiesFirst(old(Contents()), ss) then 0 else 1
    {
      ReleasedExactly(Contents(), ss);
      var i := 0;
      while i < |ss| && !halted
        invariant 0 <= i <= |ss| && Inv(Contents())
        invariant PollAll(Contents(), ss[i..]) == PollAll(old(Contents()), ss)
      {
        assert ss[i..][0] == ss[i] && ss[i..][1..] == ss[i + 1..];
        PollKeepsInv(Contents(), ss[i]);
        if ss[i].Stopped? {
          halted := true;
        } else {
          PollOnce(ss[i]);
        }
        i := i + 1;
      }
      ReleasedKeepsInv(Contents());
      if panicked {
        return;
      }
      if firstTime {
        firstTime := false;
        released := released + 1;
      }
    }
  }
}
