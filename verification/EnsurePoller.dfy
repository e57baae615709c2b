/** sync3/handler/ensure_polling.go: waiting for a device's poller, with one channel per wait to be closed. */
module EnsurePoller {
  import opened Common

  datatype PollerId = PollerId(user: nat, device: nat)
  datatype Channel = Channel(number: nat)

  datatype Info = Info(done: bool, expired: bool, ch: Option<Channel>)

  const ABSENT := Info(false, false, None)

  /**
   * What the mutex guards, with the channels made so far. A closed channel is in `completed` when the end of
   * an initial sync closed it and in `replaced` when a later request did. Closing nil or twice panics.
   */
  datatype Core = Core(pending: map<PollerId, Info>, made: nat, completed: set<Channel>, replaced: set<Channel>,
                       panicked: bool)

  function InfoOf(c: Core, pid: PollerId): Info { if pid in c.pending then c.pending[pid] else ABSENT }

  predicate IsClosed(c: Core, ch: Channel) { ch in c.completed || ch in c.replaced }

  // ---- the three locked sections ----

  /** What EnsurePolling does before it blocks: answer at once, or wait on a channel, perhaps one it just made. */
  datatype Begun = Ready | Listen(ch: Channel) | Ask(ch: Channel)

  predicate Superseding(c: Core, pid: PollerId) { InfoOf(c, pid).expired && InfoOf(c, pid).ch.Some? }

  function Begin(c: Core, pid: PollerId): (Core, Begun) {
    var info := InfoOf(c, pid);
    if !info.expired && info.done then (c, Ready)
    else if !info.expired && info.ch.Some? then (c, Listen(info.ch.value))
    else
      var c' := c.(pending := c.pending[pid := Info(false, false, Some(Channel(c.made)))], made := c.made + 1);
      if Superseding(c, pid) then
        (c'.(replaced := c.replaced + {info.ch.value}, panicked := c.panicked || IsClosed(c, info.ch.value)),
         Ask(Channel(c.made)))
      else (c', Ask(Channel(c.made)))
  }

  function Complete(c: Core, pid: PollerId, success: bool): Core {
    if pid !in c.pending then c.(pending := c.pending[pid := Info(true, !success, None)])
    else
      var info := c.pending[pid];
      if info.done then c
      else
        var c' := c.(pending := c.pending[pid := Info(true, info.expired || !success, None)]);
        match info.ch
        case None => c'.(panicked := true)
        case Some(ch) => c'.(completed := c.completed + {ch}, panicked := c.panicked || IsClosed(c, ch))
  }

  function Expire(c: Core, pid: PollerId): Core {
    if pid !in c.pending then c else c.(pending := c.pending[pid := c.pending[pid].(expired := true)])
  }

  // ---- everything that can be interleaved ----

  /** A request in flight: still to notify the pollers, or listening for its channel to close. */
  datatype Waiter = Waiter(pid: PollerId, ch: Channel, asking: bool)
  datatype Return = Return(pid: PollerId, ch: Option<Channel>, expired: bool)

  datatype State = State(core: Core, waiters: seq<Waiter>, asked: seq<Channel>, returned: seq<Return>)

  const START := State(Core(map[], 0, {}, {}, false), [], [], [])

  datatype Step =
    | Requested(pid: PollerId)
    | Notified(i: nat)
    | Woken(i: nat)
    | SyncCompleted(pid: PollerId, success: bool)
    | TokenExpired(pid: PollerId)

  function Next(s: State, step: Step): State {
    match step
    case Requested(pid) =>
      var (core, begun) := Begin(s.core, pid);
      (match begun
       case Ready => s.(core := core, returned := s.returned + [Return(pid, None, false)])
       case Listen(ch) => s.(core := core, waiters := s.waiters + [Waiter(pid, ch, false)])
       case Ask(ch) => s.(core := core, waiters := s.waiters + [Waiter(pid, ch, true)]))
    case Notified(i) =>
      if i < |s.waiters| && s.waiters[i].asking then
        var w := s.waiters[i];
        s.(waiters := s.waiters[i := w.(asking := false)], asked := s.asked + [w.ch])
      else s
    case Woken(i) =>
      if i < |s.waiters| && !s.waiters[i].asking && IsClosed(s.core, s.waiters[i].ch) then
        var w := s.waiters[i];
        s.(waiters := RemoveAt(s.waiters, i),
           returned := s.returned + [Return(w.pid, Some(w.ch), InfoOf(s.core, w.pid).expired)])
      else s
    case SyncCompleted(pid, success) => s.(core := Complete(s.core, pid, success))
    case TokenExpired(pid) => s.(core := Expire(s.core, pid))
  }

  // ---- no double close ----

  ghost predicate InfoOk(c: Core, pid: PollerId)
    requires pid in c.pending
  {
    var info := c.pending[pid];
    && (info.ch.None? <==> info.done)
    && (info.ch.Some? ==> info.ch.value.number < c.made && !IsClosed(c, info.ch.value))
  }

  ghost predicate CoreInv(c: Core) {
    && !c.panicked
    && (forall pid :: pid in c.pending ==> InfoOk(c, pid))
    && (forall p, q :: p in c.pending && q in c.pending && p != q && c.pending[p].ch.Some? ==>
      c.pending[p].ch != c.pending[q].ch)
    && (forall ch :: IsClosed(c, ch) ==> ch.number < c.made)
    && c.completed !! c.replaced
  }

  lemma BeginKeepsInv(c: Core, pid: PollerId)
    requires CoreInv(c)
    ensures CoreInv(Begin(c, pid).0)
  {
    var c' := Begin(c, pid).0;
    assert pid in c.pending ==> InfoOk(c, pid);
    forall p | p in c'.pending
      ensures InfoOk(c', p)
    {
      assert p in c.pending ==> InfoOk(c, p);
    }
  }

  lemma CompleteKeepsInv(c: Core, pid: PollerId, success: bool)
    requires CoreInv(c)
    ensures CoreInv(Complete(c, pid, success))
  {
    var c' := Complete(c, pid, success);
    assert pid in c.pending ==> InfoOk(c, pid);
    forall p | p in c'.pending
      ensures InfoOk(c', p)
    {
      assert p in c.pending ==> InfoOk(c, p);
    }
  }

  lemma ExpireKeepsInv(c: Core, pid: PollerId)
    requires CoreInv(c)
    ensures CoreInv(Expire(c, pid))
  {
    var c' := Expire(c, pid);
    forall p | p in c'.pending
      ensures InfoOk(c', p)
    {
      assert InfoOk(c, p);
    }
  }

  // ---- no lost wakeup ----

  /** A waiter's channel is closed, or is the one stored for its device. */
  predicate Reachable(c: Core, w: Waiter) {
    w.ch.number < c.made && (IsClosed(c, w.ch) || InfoOf(c, w.pid).ch == Some(w.ch))
  }

  /** Somebody has asked the pollers about the channel, or is about to. */
  ghost predicate AskedFor(s: State, ch: Channel) {
    ch in s.asked || exists i :: 0 <= i < |s.waiters| && s.waiters[i].asking && s.waiters[i].ch == ch
  }

  ghost predicate Inv(s: State) {
    && CoreInv(s.core)
    && (forall i :: 0 <= i < |s.waiters| ==> Reachable(s.core, s.waiters[i]))
    && (forall n :: 0 <= n < s.core.made ==> AskedFor(s, Channel(n)))
    && (forall i :: 0 <= i < |s.returned| && s.returned[i].ch.Some? ==> IsClosed(s.core, s.returned[i].ch.value))
  }

  /** Channels stay closed, and a stored channel is only ever dropped by closing it. */
  ghost predicate Carries(c: Core, c': Core) {
    && c.made <= c'.made
    && (forall ch :: IsClosed(c, ch) ==> IsClosed(c', ch))
    && (forall pid :: pid in c.pending && c.pending[pid].ch.Some? ==>
      IsClosed(c', c.pending[pid].ch.value) || (pid in c'.pending && c'.pending[pid].ch == c.pending[pid].ch))
  }

  lemma WaitersCarry(s: State, c': Core)
    requires Inv(s) && Carries(s.core, c')
    ensures forall i :: 0 <= i < |s.waiters| ==> Reachable(c', s.waiters[i])
  {
    forall i | 0 <= i < |s.waiters|
      ensures Reachable(c', s.waiters[i])
    {
      assert Reachable(s.core, s.waiters[i]);
    }
  }

  lemma BeginCarries(c: Core, pid: PollerId)
    requires CoreInv(c)
    ensures Carries(c, Begin(c, pid).0)
    ensures var (c', begun) := Begin(c, pid);
      !begun.Ready? ==> Reachable(c', Waiter(pid, begun.ch, begun.Ask?))
  {
    assert pid in c.pending ==> InfoOk(c, pid);
  }

  lemma CompleteCarries(c: Core, pid: PollerId, success: bool)
    requires CoreInv(c)
    ensures Carries(c, Complete(c, pid, success))
  {
    assert pid in c.pending ==> InfoOk(c, pid);
  }

  lemma RequestedKeepsInv(s: State, pid: PollerId)
    requires Inv(s)
    ensures Inv(Next(s, Requested(pid)))
  {
    var t := Next(s, Requested(pid));
    BeginKeepsInv(s.core, pid);
    BeginCarries(s.core, pid);
    WaitersCarry(s, t.core);
    forall n | 0 <= n < t.core.made
      ensures AskedFor(t, Channel(n))
    {
      if n < s.core.made {
        assert AskedFor(s, Channel(n));
        StillAskedFor(s, t, Channel(n));
      } else {
        assert t.waiters[|s.waiters|].asking && t.waiters[|s.waiters|].ch == Channel(n);
      }
    }
  }

  lemma StillAskedFor(s: State, t: State, ch: Channel)
    requires AskedFor(s, ch) && s.asked <= t.asked && s.waiters <= t.waiters
    ensures AskedFor(t, ch)
  {
    if ch !in s.asked {
      var i :| 0 <= i < |s.waiters| && s.waiters[i].asking && s.waiters[i].ch == ch;
      assert t.waiters[i].asking && t.waiters[i].ch == ch;
    }
  }

  lemma NotifiedKeepsInv(s: State, i: nat)
    requires Inv(s)
    ensures Inv(Next(s, Notified(i)))
  {
    var t := Next(s, Notified(i));
    forall n | 0 <= n < t.core.made
      ensures AskedFor(t, Channel(n))
    {
      assert AskedFor(s, Channel(n));
      if Channel(n) !in t.asked {
        var j :| 0 <= j < |s.waiters| && s.waiters[j].asking && s.waiters[j].ch == Channel(n);
        assert t.waiters[j].asking && t.waiters[j].ch == Channel(n);
      }
    }
    forall j | 0 <= j < |t.waiters|
      ensures Reachable(t.core, t.waiters[j])
    {
      assert Reachable(s.core, s.waiters[j]);
    }
  }

  lemma WokenKeepsInv(s: State, i: nat)
    requires Inv(s)
    ensures Inv(Next(s, Woken(i)))
  {
    var t := Next(s, Woken(i));
    forall n | 0 <= n < t.core.made
      ensures AskedFor(t, Channel(n))
    {
      assert AskedFor(s, Channel(n));
      if Channel(n) !in t.asked && t != s {
        var j :| 0 <= j < |s.waiters| && s.waiters[j].asking && s.waiters[j].ch == Channel(n);
        var j' := if j < i then j else j - 1;
        assert t.waiters[j'].asking && t.waiters[j'].ch == Channel(n);
      }
    }
  }

  lemma CoreStepKeepsInv(s: State, c': Core)
    requires Inv(s) && CoreInv(c') && Carries(s.core, c') && c'.made == s.core.made
    ensures Inv(s.(core := c'))
  {
    var t := s.(core := c');
    WaitersCarry(s, c');
    forall n | 0 <= n < t.core.made
      ensures AskedFor(t, Channel(n))
    {
      assert AskedFor(s, Channel(n));
      StillAskedFor(s, t, Channel(n));
    }
  }

  lemma NextKeepsInv(s: State, step: Step)
    requires Inv(s)
    ensures Inv(Next(s, step))
  {
    match step
    case Requested(pid) => RequestedKeepsInv(s, pid);
    case Notified(i) => NotifiedKeepsInv(s, i);
    case Woken(i) => WokenKeepsInv(s, i);
    case SyncCompleted(pid, success) =>
      CompleteKeepsInv(s.core, pid, success);
      CompleteCarries(s.core, pid, success);
      CoreStepKeepsInv(s, Complete(s.core, pid, success));
    case TokenExpired(pid) =>
      ExpireKeepsInv(s.core, pid);
      CoreStepKeepsInv(s, Expire(s.core, pid));
  }

  ghost function Run(s: State, steps: seq<Step>): State
    decreases steps
  {
    if steps == [] then s else Run(Next(s, steps[0]), steps[1..])
  }

  /** However requests, wakeups, completions and expiries interleave: no panic, no lost wakeup. */
  lemma {:induction false} RunsKeepInv(s: State, steps: seq<Step>)
    requires Inv(s)
    ensures Inv(Run(s, steps))
    decreases steps
  {
    if steps != [] {
      NextKeepsInv(s, steps[0]);
      RunsKeepInv(Next(s, steps[0]), steps[1..]);
    }
  }

  /** The end of an initial sync frees every request waiting for the device. */
  lemma CompletionFreesAll(s: State, pid: PollerId, success: bool, i: nat)
    requires Inv(s) && i < |s.waiters| && s.waiters[i].pid == pid
    ensures IsClosed(Next(s, SyncCompleted(pid, success)).core, s.waiters[i].ch)
  {
    assert Reachable(s.core, s.waiters[i]);
    assert pid in s.core.pending ==> InfoOk(s.core, pid);
  }

  /** Expiry latches: whatever else happens, the device's next request makes and asks for a new channel. */
  lemma {:induction false} ExpiryLatches(s: State, pid: PollerId, steps: seq<Step>)
    requires InfoOf(s.core, pid).expired && Requested(pid) !in steps
    ensures InfoOf(Run(s, steps).core, pid).expired
    ensures Begin(Run(s, steps).core, pid).1 == Ask(Channel(Run(s, steps).core.made))
    decreases steps
  {
    if steps != [] {
      ExpiryLatches(Next(s, steps[0]), pid, steps[1..]);
    }
  }

  lemma {:induction false} RunAppend(s: State, steps: seq<Step>, step: Step)
    ensures Run(s, steps + [step]) == Next(Run(s, steps), step)
    decreases steps
  {
    if steps == [] {
      assert steps + [step] == [step] && [step][1..] == [];
    } else {
      assert (steps + [step])[1..] == steps[1..] + [step];
      RunAppend(Next(s, steps[0]), steps[1..], step);
    }
  }

  lemma RunLast(s: State, steps: seq<Step>)
    requires steps != []
    ensures Run(s, steps) == Next(Run(s, steps[..|steps| - 1]), steps[|steps| - 1])
  {
    assert steps == steps[..|steps| - 1] + [steps[|steps| - 1]];
    RunAppend(s, steps[..|steps| - 1], steps[|steps| - 1]);
  }

  // ---- which devices are expired ----

  /** A token of a known device expired, or an initial sync that was waited for, or that nobody asked for, failed. */
  predicate Expires(c: Core, pid: PollerId, step: Step) {
    (step == TokenExpired(pid) && pid in c.pending) || (step == SyncCompleted(pid, false) && !InfoOf(c, pid).done)
  }

  /** Step `i` expired the device, and no request for it has come since. */
  ghost predicate ExpiredBy(steps: seq<Step>, pid: PollerId, i: int) {
    && 0 <= i < |steps| && Expires(Run(START, steps[..i]).core, pid, steps[i])
    && forall j :: i < j < |steps| ==> steps[j] != Requested(pid)
  }

  lemma {:induction false} ExpiredByLonger(steps: seq<Step>, step: Step, pid: PollerId, i: int)
    ensures 0 <= i < |steps| ==>
      (ExpiredBy(steps + [step], pid, i) <==> ExpiredBy(steps, pid, i) && step != Requested(pid))
    ensures ExpiredBy(steps + [step], pid, |steps|) <==> Expires(Run(START, steps).core, pid, step)
  {
    var more := steps + [step];
    assert more[..|steps|] == steps && more[|steps|] == step;
    if 0 <= i < |steps| {
      assert more[..i] == steps[..i] && more[i] == steps[i];
      assert forall j :: i < j < |steps| ==> more[j] == steps[j];
    }
  }

  lemma SomeExpiredBy(steps: seq<Step>, step: Step, pid: PollerId)
    ensures (exists i :: ExpiredBy(steps + [step], pid, i)) <==>
      Expires(Run(START, steps).core, pid, step) || ((exists i :: ExpiredBy(steps, pid, i)) && step != Requested(pid))
  {
    ExpiredByLonger(steps, step, pid, 0);
    if i :| ExpiredBy(steps + [step], pid, i) {
      ExpiredByLonger(steps, step, pid, i);
    }
    if i :| ExpiredBy(steps, pid, i) {
      ExpiredByLonger(steps, step, pid, i);
    }
  }

  /** What one step says of one device. */
  lemma NextInfo(s: State, step: Step, pid: PollerId)
    ensures var was, now := InfoOf(s.core, pid), InfoOf(Next(s, step).core, pid);
      && (now.expired <==> Expires(s.core, pid, step) || (was.expired && step != Requested(pid)))
      && (now.done <==>
          || step == SyncCompleted(pid, true) || step == SyncCompleted(pid, false)
          || (was.done && !(step == Requested(pid) && was.expired)))
  {
  }

  /** A device is expired exactly if some step expired it and no request for it has come since. */
  lemma {:induction false} ExpiredExactly(steps: seq<Step>, pid: PollerId)
    ensures InfoOf(Run(START, steps).core, pid).expired <==> exists i :: ExpiredBy(steps, pid, i)
  {
    if steps != [] {
      var init, step := steps[..|steps| - 1], steps[|steps| - 1];
      assert steps == init + [step];
      ExpiredExactly(init, pid);
      RunLast(START, steps);
      SomeExpiredBy(init, step, pid);
      NextInfo(Run(START, init), step, pid);
    }
  }

  /** A device is known exactly if a request for it has come, or the end of its initial sync. */
  lemma {:induction false} KnownExactly(steps: seq<Step>, pid: PollerId)
    ensures pid in Run(START, steps).core.pending <==>
      Requested(pid) in steps || SyncCompleted(pid, true) in steps || SyncCompleted(pid, false) in steps
  {
    if steps != [] {
      assert steps == steps[..|steps| - 1] + [steps[|steps| - 1]];
      KnownExactly(steps[..|steps| - 1], pid);
      RunLast(START, steps);
    }
  }

  /** Step `j` is a request for the device that finds it expired. */
  ghost predicate FindsExpired(steps: seq<Step>, pid: PollerId, j: int) {
    0 <= j < |steps| && steps[j] == Requested(pid) && InfoOf(Run(START, steps[..j]).core, pid).expired
  }

  lemma {:induction false} FindsExpiredLonger(steps: seq<Step>, step: Step, pid: PollerId, j: int)
    ensures 0 <= j < |steps| ==> (FindsExpired(steps + [step], pid, j) <==> FindsExpired(steps, pid, j))
    ensures FindsExpired(steps + [step], pid, |steps|) <==>
      step == Requested(pid) && InfoOf(Run(START, steps).core, pid).expired
  {
    var more := steps + [step];
    assert more[..|steps|] == steps && more[|steps|] == step;
    if 0 <= j < |steps| {
      assert more[..j] == steps[..j] && more[j] == steps[j];
    }
  }

  /** Step `i` ended the device's initial sync, and no request since has found the device expired. */
  ghost predicate DoneSince(steps: seq<Step>, pid: PollerId, i: int) {
    && 0 <= i < |steps| && (steps[i] == SyncCompleted(pid, true) || steps[i] == SyncCompleted(pid, false))
    && forall j :: i < j ==> !FindsExpired(steps, pid, j)
  }

  lemma {:induction false} DoneSinceLonger(steps: seq<Step>, step: Step, pid: PollerId, i: int)
    ensures 0 <= i < |steps| ==> (DoneSince(steps + [step], pid, i) <==>
      DoneSince(steps, pid, i) && (step == Requested(pid) ==> !InfoOf(Run(START, steps).core, pid).expired))
    ensures DoneSince(steps + [step], pid, |steps|) <==>
      step == SyncCompleted(pid, true) || step == SyncCompleted(pid, false)
  {
    var more := steps + [step];
    assert more[|steps|] == step && (0 <= i < |steps| ==> more[i] == steps[i]);
    FindsExpiredLonger(steps, step, pid, 0);
    forall j | 0 <= j < |steps| ensures FindsExpired(more, pid, j) <==> FindsExpired(steps, pid, j) {
      FindsExpiredLonger(steps, step, pid, j);
    }
  }

  lemma SomeDoneSince(steps: seq<Step>, step: Step, pid: PollerId)
    ensures (exists i :: DoneSince(steps + [step], pid, i)) <==>
      || step == SyncCompleted(pid, true) || step == SyncCompleted(pid, false)
      || ((exists i :: DoneSince(steps, pid, i)) &&
          !(step == Requested(pid) && InfoOf(Run(START, steps).core, pid).expired))
  {
    DoneSinceLonger(steps, step, pid, 0);
    if i :| DoneSince(steps + [step], pid, i) {
      DoneSinceLonger(steps, step, pid, i);
    }
    if i :| DoneSince(steps, pid, i) {
      DoneSinceLonger(steps, step, pid, i);
    }
  }

  /** A device's initial sync is done exactly if it has ended and no request since has found the device expired. */
  lemma {:induction false} DoneExactly(steps: seq<Step>, pid: PollerId)
    ensures InfoOf(Run(START, steps).core, pid).done <==> exists i :: DoneSince(steps, pid, i)
  {
    if steps != [] {
      var init, step := steps[..|steps| - 1], steps[|steps| - 1];
      assert steps == init + [step];
      DoneExactly(init, pid);
      RunLast(START, steps);
      SomeDoneSince(init, step, pid);
      NextInfo(Run(START, init), step, pid);
    }
  }

  lemma {:induction false} ReturnedExpired(steps: seq<Step>, n: nat)
    requires n < |Run(START, steps).returned| && Run(START, steps).returned[n].expired
    ensures var pid := Run(START, steps).returned[n].pid;
      exists i :: 0 <= i <= |steps| && InfoOf(Run(START, steps[..i]).core, pid).expired
  {
    if steps != [] {
      var init := steps[..|steps| - 1];
      RunLast(START, steps);
      if n < |Run(START, init).returned| {
        ReturnedExpired(init, n);
        var i :| 0 <= i <= |init| && InfoOf(Run(START, init[..i]).core, Run(START, init).returned[n].pid).expired;
        assert init[..i] == steps[..i];
      }
    }
  }

  /** Without an expired token or a failed initial sync of its device no request returns as expired. */
  lemma ExpiredForAReason(steps: seq<Step>, n: nat)
    requires n < |Run(START, steps).returned| && Run(START, steps).returned[n].expired
    ensures var pid := Run(START, steps).returned[n].pid;
      TokenExpired(pid) in steps || SyncCompleted(pid, false) in steps
  {
    var pid := Run(START, steps).returned[n].pid;
    ReturnedExpired(steps, n);
    var i :| 0 <= i <= |steps| && InfoOf(Run(START, steps[..i]).core, pid).expired;
    ExpiredExactly(steps[..i], pid);
    var j :| ExpiredBy(steps[..i], pid, j);
    assert steps[j] == steps[..i][j];
  }

  /**
   * How a wait ends: as expired exactly if the sync failed or the token expired meanwhile; and the next request is
   * then answered at once if not, and asks for a new sync if so.
   */
  lemma WaitEnds(s: State, pid: PollerId, success: bool, i: nat)
    requires Inv(s) && i < |s.waiters| && !s.waiters[i].asking && s.waiters[i].pid == pid
    requires InfoOf(s.core, pid).ch == Some(s.waiters[i].ch)
    ensures var t := Next(Next(s, SyncCompleted(pid, success)), Woken(i));
      var expired := InfoOf(s.core, pid).expired || !success;
      && t.returned == s.returned + [Return(pid, Some(s.waiters[i].ch), expired)]
      && Next(t, Requested(pid)) ==
         (if expired then
            t.(core := Begin(t.core, pid).0, waiters := t.waiters + [Waiter(pid, Channel(s.core.made), true)])
          else t.(returned := t.returned + [Return(pid, None, false)]))
  {
    assert InfoOk(s.core, pid);
  }

  // ---- returning only after an initial sync ----

  ghost predicate Held(s: State, ch: Channel) { exists i :: 0 <= i < |s.waiters| && s.waiters[i].ch == ch }

  ghost predicate ReturnedOn(s: State, ch: Channel) {
    exists i :: 0 <= i < |s.returned| && s.returned[i].ch == Some(ch)
  }

  /** Some request waits on every stored channel, and has waited on every replaced one. */
  ghost predicate Accounted(s: State) {
    && (forall pid :: pid in s.core.pending && s.core.pending[pid].ch.Some? ==> Held(s, s.core.pending[pid].ch.value))
    && (forall ch :: ch in s.core.replaced ==> Held(s, ch) || ReturnedOn(s, ch))
  }

  lemma HeldMore(s: State, t: State, ch: Channel)
    requires s.waiters <= t.waiters && s.returned <= t.returned
    ensures Held(s, ch) ==> Held(t, ch)
    ensures ReturnedOn(s, ch) ==> ReturnedOn(t, ch)
  {
    if Held(s, ch) {
      var i :| 0 <= i < |s.waiters| && s.waiters[i].ch == ch;
      assert t.waiters[i].ch == ch;
    }
    if ReturnedOn(s, ch) {
      var i :| 0 <= i < |s.returned| && s.returned[i].ch == Some(ch);
      assert t.returned[i].ch == Some(ch);
    }
  }

  lemma RequestedAccounted(s: State, pid: PollerId)
    requires Inv(s) && Accounted(s)
    ensures Accounted(Next(s, Requested(pid)))
  {
    var t := Next(s, Requested(pid));
    forall p | p in t.core.pending && t.core.pending[p].ch.Some? ensures Held(t, t.core.pending[p].ch.value) {
      var ch := t.core.pending[p].ch.value;
      if p in s.core.pending && s.core.pending[p].ch == Some(ch) {
        HeldMore(s, t, ch);
      } else {
        assert t.waiters[|s.waiters|].ch == ch;
      }
    }
    forall ch | ch in t.core.replaced ensures Held(t, ch) || ReturnedOn(t, ch) {
      HeldMore(s, t, ch);
    }
  }

  lemma NotifiedAccounted(s: State, i: nat)
    requires Inv(s) && Accounted(s)
    ensures Accounted(Next(s, Notified(i)))
  {
    var t := Next(s, Notified(i));
    forall ch | Held(s, ch) ensures Held(t, ch) {
      var j :| 0 <= j < |s.waiters| && s.waiters[j].ch == ch;
      assert t.waiters[j].ch == ch;
    }
    forall ch | ReturnedOn(s, ch) ensures ReturnedOn(t, ch) {
    }
  }

  /** A woken waiter's channel is closed, so it is not stored; if it was replaced, the return accounts for it. */
  lemma WokenAccounted(s: State, i: nat)
    requires Inv(s) && Accounted(s)
    ensures Accounted(Next(s, Woken(i)))
  {
    var t := Next(s, Woken(i));
    if t != s {
      forall ch | Held(s, ch) ensures Held(t, ch) || ch == s.waiters[i].ch {
        var j :| 0 <= j < |s.waiters| && s.waiters[j].ch == ch;
        if j != i {
          var j' := if j < i then j else j - 1;
          assert t.waiters[j'].ch == ch;
        }
      }
      assert t.returned[|s.returned|].ch == Some(s.waiters[i].ch);
      forall ch | ReturnedOn(s, ch) ensures ReturnedOn(t, ch) {
        var j :| 0 <= j < |s.returned| && s.returned[j].ch == Some(ch);
        assert t.returned[j].ch == Some(ch);
      }
      forall p | p in t.core.pending && t.core.pending[p].ch.Some? ensures Held(t, t.core.pending[p].ch.value) {
        assert InfoOk(s.core, p);
      }
    }
  }

  lemma NextAccounted(s: State, step: Step)
    requires Inv(s) && Accounted(s)
    ensures Accounted(Next(s, step))
  {
    match step
    case Requested(pid) => RequestedAccounted(s, pid);
    case Notified(i) => NotifiedAccounted(s, i);
    case Woken(i) => WokenAccounted(s, i);
    case SyncCompleted(pid, success) =>
      forall ch ensures Held(s, ch) ==> Held(Next(s, step), ch) {
        HeldMore(s, Next(s, step), ch);
      }
      forall ch ensures ReturnedOn(s, ch) ==> ReturnedOn(Next(s, step), ch) {
        HeldMore(s, Next(s, step), ch);
      }
    case TokenExpired(pid) =>
      forall ch ensures Held(s, ch) ==> Held(Next(s, step), ch) {
        HeldMore(s, Next(s, step), ch);
      }
      forall ch ensures ReturnedOn(s, ch) ==> ReturnedOn(Next(s, step), ch) {
        HeldMore(s, Next(s, step), ch);
      }
  }

  lemma {:induction false} RunsAccounted(s: State, steps: seq<Step>)
    requires Inv(s) && Accounted(s)
    ensures Accounted(Run(s, steps))
    decreases steps
  {
    if steps != [] {
      NextKeepsInv(s, steps[0]);
      NextAccounted(s, steps[0]);
      RunsAccounted(Next(s, steps[0]), steps[1..]);
    }
  }

  /** Some request of the run finds its device expired with a channel still open. */
  ghost predicate SomeSuperseding(s: State, steps: seq<Step>)
    decreases steps
  {
    steps != [] &&
    ((steps[0].Requested? && Superseding(s.core, steps[0].pid)) || SomeSuperseding(Next(s, steps[0]), steps[1..]))
  }

  lemma {:induction false} ReplacedExactly(s: State, steps: seq<Step>)
    requires Inv(s)
    ensures s.core.replaced <= Run(s, steps).core.replaced
    ensures Run(s, steps).core.replaced == s.core.replaced <==> !SomeSuperseding(s, steps)
    decreases steps
  {
    if steps != [] {
      var t := Next(s, steps[0]);
      NextKeepsInv(s, steps[0]);
      ReplacedExactly(t, steps[1..]);
      if steps[0].Requested? && Superseding(s.core, steps[0].pid) {
        var pid := steps[0].pid;
        assert InfoOk(s.core, pid);
        assert s.core.pending[pid].ch.value in t.core.replaced;
      } else {
        assert t.core.replaced == s.core.replaced;
      }
    }
  }

  // ---- which syncs have been completed ----

  /** Everything that looks like a completed sync is the sync of a device in `done`. */
  ghost predicate DoneBy(s: State, done: set<PollerId>) {
    && (forall pid :: pid in s.core.pending && s.core.pending[pid].done ==> pid in done)
    && (forall i :: 0 <= i < |s.waiters| && s.waiters[i].ch in s.core.completed ==> s.waiters[i].pid in done)
    && (forall i :: 0 <= i < |s.returned| && OnCompleted(s.core, s.returned[i]) ==> s.returned[i].pid in done)
  }

  /** The request returned at once, or on a channel that the end of an initial sync closed. */
  predicate OnCompleted(c: Core, r: Return) { r.ch.None? || r.ch.value in c.completed }

  function DoneAfter(done: set<PollerId>, step: Step): set<PollerId> {
    if step.SyncCompleted? then done + {step.pid} else done
  }

  /** Only requests for the device itself wait on the channel that a completed sync closes. */
  lemma CompletedDone(s: State, pid: PollerId, success: bool, done: set<PollerId>)
    requires Inv(s) && DoneBy(s, done)
    ensures DoneBy(Next(s, SyncCompleted(pid, success)), done + {pid})
  {
    var t := Next(s, SyncCompleted(pid, success));
    assert pid in s.core.pending ==> InfoOk(s.core, pid);
    forall i | 0 <= i < |t.waiters| && t.waiters[i].ch in t.core.completed ensures t.waiters[i].pid in done + {pid} {
      assert Reachable(s.core, s.waiters[i]);
    }
  }

  lemma RequestedDone(s: State, pid: PollerId, done: set<PollerId>)
    requires Inv(s) && DoneBy(s, done)
    ensures DoneBy(Next(s, Requested(pid)), done)
  {
    var t := Next(s, Requested(pid));
    assert pid in s.core.pending ==> InfoOk(s.core, pid);
    assert forall ch :: ch in s.core.completed ==> IsClosed(s.core, ch);
    assert t.core.completed == s.core.completed;
  }

  lemma NextDone(s: State, step: Step, done: set<PollerId>)
    requires Inv(s) && DoneBy(s, done)
    ensures DoneBy(Next(s, step), DoneAfter(done, step))
  {
    match step
    case Requested(pid) => RequestedDone(s, pid, done);
    case SyncCompleted(pid, success) => CompletedDone(s, pid, success, done);
    case Notified(i) =>
    case Woken(i) =>
    case TokenExpired(pid) =>
  }

  ghost function CompletedIn(steps: seq<Step>): set<PollerId>
    decreases steps
  {
    if steps == [] then {} else DoneAfter({}, steps[0]) + CompletedIn(steps[1..])
  }

  lemma {:induction false} RunsDone(s: State, steps: seq<Step>, done: set<PollerId>)
    requires Inv(s) && DoneBy(s, done)
    ensures DoneBy(Run(s, steps), done + CompletedIn(steps))
    decreases steps
  {
    if steps == [] {
      assert done + CompletedIn(steps) == done;
    } else {
      NextKeepsInv(s, steps[0]);
      NextDone(s, steps[0], done);
      RunsDone(Next(s, steps[0]), steps[1..], DoneAfter(done, steps[0]));
      assert DoneAfter(done, steps[0]) + CompletedIn(steps[1..]) == done + CompletedIn(steps);
    }
  }

  lemma {:induction false} CompletedInExactly(steps: seq<Step>, pid: PollerId)
    ensures pid in CompletedIn(steps) <==>
      SyncCompleted(pid, true) in steps || SyncCompleted(pid, false) in steps
  {
    if steps != [] {
      CompletedInExactly(steps[1..], pid);
      assert steps == [steps[0]] + steps[1..];
    }
  }

  // ---- the promise to block until the initial sync is complete ----

  /** A request has returned, or can be woken, though no completed sync closed its channel. */
  ghost predicate SomeEarly(s: State) {
    || (exists i :: 0 <= i < |s.returned| && !OnCompleted(s.core, s.returned[i]))
    || (exists i :: 0 <= i < |s.waiters| && IsClosed(s.core, s.waiters[i].ch) && s.waiters[i].ch !in s.core.completed)
  }

  /**
   * Some request returns, or can return, before an initial sync is complete exactly when a request finds its
   * device expired with a channel still open. Every other return, those at once included, comes after a
   * completed sync of its own device.
   */
  lemma WaitsForSyncExactly(steps: seq<Step>)
    ensures SomeEarly(Run(START, steps)) <==> SomeSuperseding(START, steps)
    ensures var s := Run(START, steps);
      forall i :: 0 <= i < |s.returned| && OnCompleted(s.core, s.returned[i]) ==>
        SyncCompleted(s.returned[i].pid, true) in steps || SyncCompleted(s.returned[i].pid, false) in steps
  {
    var s := Run(START, steps);
    ReplacedExactly(START, steps);
    RunsKeepInv(START, steps);
    RunsAccounted(START, steps);
    RunsDone(START, steps, {});
    EarlyIsReplaced(s);
    forall i | 0 <= i < |s.returned| && OnCompleted(s.core, s.returned[i])
      ensures SyncCompleted(s.returned[i].pid, true) in steps || SyncCompleted(s.returned[i].pid, false) in steps
    {
      CompletedInExactly(steps, s.returned[i].pid);
    }
  }

  lemma EarlyIsReplaced(s: State)
    requires Inv(s) && Accounted(s)
    ensures SomeEarly(s) <==> s.core.replaced != {}
  {
    if s.core.replaced != {} {
      var ch :| ch in s.core.replaced;
      assert ch !in s.core.completed && IsClosed(s.core, ch);
      if Held(s, ch) {
        var i :| 0 <= i < |s.waiters| && s.waiters[i].ch == ch;
      } else {
        var i :| 0 <= i < |s.returned| && s.returned[i].ch == Some(ch);
        assert !OnCompleted(s.core, s.returned[i]);
      }
    }
  }

  /**
   * In whatever state it happens, a superseding request lets an earlier one return as unexpired while the
   * device's sync is not done.
   */
  lemma SupersededReturnsEarly(s: State, pid: PollerId) returns (i: nat)
    requires Inv(s) && Accounted(s) && Superseding(s.core, pid)
    ensures i < |s.waiters| && s.waiters[i].pid == pid
    ensures var t := Next(Next(Next(s, Requested(pid)), Notified(i)), Woken(i));
      && t.returned == s.returned + [Return(pid, Some(s.waiters[i].ch), false)]
      && !InfoOf(t.core, pid).done && s.waiters[i].ch !in t.core.completed
  {
    var ch := s.core.pending[pid].ch.value;
    assert InfoOk(s.core, pid) && Held(s, ch);
    i :| 0 <= i < |s.waiters| && s.waiters[i].ch == ch;
    assert Reachable(s.core, s.waiters[i]);
  }

  /** The shortest such run. */
  lemma SupersededRun(pid: PollerId)
    ensures var s := Run(START, [Requested(pid), Notified(0), TokenExpired(pid), Requested(pid), Woken(0)]);
      && s.returned == [Return(pid, Some(Channel(0)), false)]
      && s.core.completed == {} && !InfoOf(s.core, pid).done
  {
    var s1 := Next(START, Requested(pid));
    var s2 := Next(s1, Notified(0));
    var s3 := Next(s2, TokenExpired(pid));
    var s4 := Next(s3, Requested(pid));
    var s5 := Next(s4, Woken(0));
    assert s5.returned == [Return(pid, Some(Channel(0)), false)];
    assert Run(s4, [Woken(0)]) == s5;
    assert Run(s3, [Requested(pid), Woken(0)]) == s5;
    assert Run(s2, [TokenExpired(pid), Requested(pid), Woken(0)]) == s5;
    assert Run(s1, [Notified(0), TokenExpired(pid), Requested(pid), Woken(0)]) == s5;
  }

  // ---- the locked sections as they are written ----

  class Poller {
    var pending: map<PollerId, Info>
    var made: nat
    var completed: set<Channel>
    var replaced: set<Channel>

    ghost function Contents(): Core
      reads this
    {
      Core(pending, made, completed, replaced, false)
    }

    constructor ()
      ensures Contents() == START.core && CoreInv(Contents())
    {
      pending, made, completed, replaced := map[], 0, {}, {};
    }

    method EnsurePolling(pid: PollerId) returns (begun: Begun)
      requires CoreInv(Contents())
      modifies this
      ensures (Contents(), begun) == Begin(old(Contents()), pid) && CoreInv(Contents())
    {
      BeginKeepsInv(Contents(), pid);
      var info := if pid in pending then pending[pid] else ABSENT;
      var expired := info.expired;
      if !expired && info.done {
        return Ready;
      }
      if expired {
        if info.ch.Some? {
          assert InfoOk(Contents(), pid);
          replaced := replaced + {info.ch.value};
        }
        pending := pending - {pid};
        info := ABSENT;
      }
      if info.ch.Some? {
        return Listen(info.ch.value);
      }
      var ch := Channel(made);
      made := made + 1;
      pending := pending[pid := Info(false, false, Some(ch))];
      assert pending == old(pending)[pid := Info(false, false, Some(ch))];
      return Ask(ch);
    }

    method OnInitialSyncComplete(pid: PollerId, success: bool)
      requires CoreInv(Contents())
      modifies this
      ensures Contents() == Complete(old(Contents()), pid, success) && CoreInv(Contents())
    {
      CompleteKeepsInv(Contents(), pid, success);
      if pid !in pending {
        pending := pending[pid := Info(true, !success, None)];
        return;
      }
      var info := pending[pid];
      if info.done {
        return;
      }
      assert InfoOk(Contents(), pid);
      var ch := info.ch;
      info := info.(done := true, ch := None);
      if !info.expired {
        info := info.(expired := !success);
      }
      pending := pending[pid := info];
      completed := completed + {ch.value};
    }

    method OnExpiredToken(pid: PollerId)
      requires CoreInv(Contents())
      modifies this
      ensures Contents() == Expire(old(Contents()), pid) && CoreInv(Contents())
    {
      ExpireKeepsInv(Contents(), pid);
      if pid !in pending {
        return;
      }
      pending := pending[pid := pending[pid].(expired := true)];
    }
  }
}
