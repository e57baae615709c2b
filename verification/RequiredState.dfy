/** sync3/request.go and internal/required_state_map.go: which state events a subscription asks for. */
module RequiredState {
  const WILDCARD := "*"
  const ME := "$ME"
  const LAZY := "$LAZY"
  const MEMBER := "m.room.member"

  /** An entry of required_state: an event type and a state key, either of them perhaps a wildcard. */
  datatype Entry = Entry(kind: string, key: string)

  datatype Required = Required(kindsWithAnyKey: set<string>, keysWithAnyKind: seq<string>,
                               kindToKeys: map<string, seq<string>>, allState: bool, lazy: bool)

  function KeyFor(e: Entry, user: string): string { if e.key == ME then user else e.key }

  function Add(m: Required, e: Entry, user: string): Required {
    var key := KeyFor(e, user);
    if e.kind == WILDCARD && key == WILDCARD then m.(allState := true)
    else if e.kind == WILDCARD then m.(keysWithAnyKind := m.keysWithAnyKind + [key])
    else if key == WILDCARD then m.(kindsWithAnyKey := m.kindsWithAnyKey + {e.kind})
    else m.(kindToKeys := m.kindToKeys[e.kind := KeysOf(m, e.kind) + [key]])
  }

  function KeysOf(m: Required, kind: string): seq<string> { if kind in m.kindToKeys then m.kindToKeys[kind] else [] }

  function Built(entries: seq<Entry>, user: string): Required {
    if entries == [] then Required({}, [], map[], false, false)
    else
      var last := entries[|entries| - 1];
      var m := Add(Built(entries[..|entries| - 1], user), last, user);
      m.(lazy := m.lazy || last == Entry(MEMBER, LAZY))
  }

  predicate Include(m: Required, kind: string, key: string) {
    if m.allState then KeysOf(m, kind) == [] || key in KeysOf(m, kind)
    else
      || key in m.keysWithAnyKind || WILDCARD in m.keysWithAnyKind
      || kind in m.kindsWithAnyKey
      || key in KeysOf(m, kind)
  }

  // ---- what the entries mean ----

  /** The entry asks for the state key: its own, the user's for $ME, or any. */
  predicate Names(e: Entry, user: string, key: string) { if e.key == "$ME" then key == user else key == e.key }

  predicate IsAll(e: Entry, user: string) { e.kind == "*" && Names(e, user, "*") }

  predicate IsExact(e: Entry, user: string, kind: string) {
    e.kind == kind && kind != "*" && !Names(e, user, "*")
  }

  predicate Matches(e: Entry, user: string, kind: string, key: string) {
    (e.kind == "*" || e.kind == kind) && (Names(e, user, "*") || Names(e, user, key))
  }

  ghost predicate SomeAll(es: seq<Entry>, user: string) { exists i :: 0 <= i < |es| && IsAll(es[i], user) }

  ghost predicate SomeMatch(es: seq<Entry>, user: string, kind: string, key: string) {
    exists i :: 0 <= i < |es| && Matches(es[i], user, kind, key)
  }

  ghost predicate SomeExact(es: seq<Entry>, user: string, kind: string) {
    exists i :: 0 <= i < |es| && IsExact(es[i], user, kind)
  }

  ghost predicate SomeExactKey(es: seq<Entry>, user: string, kind: string, key: string) {
    exists i :: 0 <= i < |es| && IsExact(es[i], user, kind) && Names(es[i], user, key)
  }

  ghost predicate SomeLazy(es: seq<Entry>) { Entry("m.room.member", "$LAZY") in es }

  /** The last entry, or one before it. */
  lemma LastOrBefore(es: seq<Entry>, user: string, kind: string, key: string)
    requires es != []
    ensures var init, last := es[..|es| - 1], es[|es| - 1];
      && (SomeAll(es, user) <==> SomeAll(init, user) || IsAll(last, user))
      && (SomeExact(es, user, kind) <==> SomeExact(init, user, kind) || IsExact(last, user, kind))
      && (SomeExactKey(es, user, kind, key) <==>
          SomeExactKey(init, user, kind, key) || (IsExact(last, user, kind) && Names(last, user, key)))
  {
    var init := es[..|es| - 1];
    assert forall i :: 0 <= i < |init| ==> init[i] == es[i];
  }

  lemma MatchLastOrBefore(es: seq<Entry>, user: string, kind: string, key: string)
    requires es != []
    ensures SomeMatch(es, user, kind, key) <==>
      SomeMatch(es[..|es| - 1], user, kind, key) || Matches(es[|es| - 1], user, kind, key)
  {
    var init := es[..|es| - 1];
    assert forall i :: 0 <= i < |init| ==> init[i] == es[i];
  }

  lemma AddExactly(m: Required, e: Entry, user: string, kind: string, key: string)
    ensures var m' := Add(m, e, user);
      && (m'.allState <==> m.allState || IsAll(e, user)) && m'.lazy == m.lazy
      && (KeysOf(m', kind) != [] <==> KeysOf(m, kind) != [] || IsExact(e, user, kind))
      && (key in KeysOf(m', kind) <==> key in KeysOf(m, kind) || (IsExact(e, user, kind) && Names(e, user, key)))
      && (WILDCARD in m'.keysWithAnyKind <==> WILDCARD in m.keysWithAnyKind)
  {
  }

  lemma LazyLastOrBefore(es: seq<Entry>)
    requires es != []
    ensures SomeLazy(es) <==> SomeLazy(es[..|es| - 1]) || es[|es| - 1] == Entry(MEMBER, LAZY)
  {
    assert es == es[..|es| - 1] + [es[|es| - 1]];
  }

  lemma {:induction false} BuiltExactly(es: seq<Entry>, user: string, kind: string, key: string)
    ensures var m := Built(es, user);
      && (m.allState <==> SomeAll(es, user))
      && (m.lazy <==> SomeLazy(es))
      && (KeysOf(m, kind) != [] <==> SomeExact(es, user, kind))
      && (key in KeysOf(m, kind) <==> SomeExactKey(es, user, kind, key))
      && WILDCARD !in m.keysWithAnyKind
  {
    if es != [] {
      BuiltExactly(es[..|es| - 1], user, kind, key);
      AddExactly(Built(es[..|es| - 1], user), es[|es| - 1], user, kind, key);
      LastOrBefore(es, user, kind, key);
      LazyLastOrBefore(es);
    }
  }

  lemma {:induction false} MatchedExactly(es: seq<Entry>, user: string, kind: string, key: string)
    ensures var m := Built(es, user);
      SomeMatch(es, user, kind, key) <==>
      m.allState || key in m.keysWithAnyKind || kind in m.kindsWithAnyKey || key in KeysOf(m, kind)
  {
    if es != [] {
      MatchedExactly(es[..|es| - 1], user, kind, key);
      MatchLastOrBefore(es, user, kind, key);
    }
  }

  /**
   * Without an entry for all state, exactly the events some entry matches are included. With one, exact
   * entries for an event's type narrow it down instead.
   */
  lemma IncludeExactly(es: seq<Entry>, user: string, kind: string, key: string)
    ensures Include(Built(es, user), kind, key) <==>
      if SomeAll(es, user) then !SomeExact(es, user, kind) || SomeExactKey(es, user, kind, key)
      else SomeMatch(es, user, kind, key)
  {
    BuiltExactly(es, user, kind, key);
    MatchedExactly(es, user, kind, key);
  }

  // ---- what is asked of the storage layer ----

  /** A map from event types to state keys; no types ask for all state and no keys for all of a type. */
  function Query(m: Required): map<string, seq<string>> {
    if m.allState || m.keysWithAnyKind != [] then map[]
    else
      map kind | kind in m.kindToKeys.Keys + m.kindsWithAnyKey ::
        if kind in m.kindsWithAnyKey || (kind == MEMBER && m.lazy) then [] else m.kindToKeys[kind]
  }

  predicate Fetched(query: map<string, seq<string>>, kind: string, key: string) {
    query == map[] || (kind in query && (query[kind] == [] || key in query[kind]))
  }

  /** Nothing the filter would include is left out of the query, nor any member when they are lazily loaded. */
  lemma QueryCovers(es: seq<Entry>, user: string, kind: string, key: string)
    ensures Include(Built(es, user), kind, key) ==> Fetched(Query(Built(es, user)), kind, key)
    ensures SomeLazy(es) ==> Fetched(Query(Built(es, user)), "m.room.member", key)
  {
    BuiltExactly(es, user, kind, key);
    BuiltExactly(es, user, MEMBER, key);
    if SomeLazy(es) {
      var i :| 0 <= i < |es| && es[i] == Entry(MEMBER, LAZY);
      assert IsExact(es[i], user, MEMBER);
    }
  }

  /** Some entry asks for a state key whatever the type. */
  ghost predicate SomeAnyKind(es: seq<Entry>) { exists i :: 0 <= i < |es| && es[i].kind == "*" }

  ghost predicate OnlyAnyKind(es: seq<Entry>) { forall i :: 0 <= i < |es| ==> es[i].kind == "*" }

  ghost predicate SomeAnyKey(es: seq<Entry>, user: string, kind: string) {
    exists i :: 0 <= i < |es| && es[i].kind == kind && Names(es[i], user, "*")
  }

  lemma KindsLastOrBefore(es: seq<Entry>, user: string, kind: string)
    requires es != []
    ensures var init, last := es[..|es| - 1], es[|es| - 1];
      && (SomeAnyKind(es) <==> SomeAnyKind(init) || last.kind == "*")
      && (SomeAnyKey(es, user, kind) <==> SomeAnyKey(init, user, kind) || (last.kind == kind && Names(last, user, "*")))
      && (OnlyAnyKind(es) <==> OnlyAnyKind(init) && last.kind == "*")
  {
    var init := es[..|es| - 1];
    assert forall i :: 0 <= i < |init| ==> init[i] == es[i];
  }

  /** What one entry adds for one type. */
  lemma AddKinds(m: Required, e: Entry, user: string, kind: string)
    requires kind != "*" && (kind in m.kindToKeys ==> m.kindToKeys[kind] != [])
    ensures var m' := Add(m, e, user);
      && (m'.allState || m'.keysWithAnyKind != [] <==> m.allState || m.keysWithAnyKind != [] || e.kind == "*")
      && (kind in m'.kindsWithAnyKey <==> kind in m.kindsWithAnyKey || (e.kind == kind && Names(e, user, "*")))
      && (m'.kindToKeys.Keys + m'.kindsWithAnyKey == {} ==>
          m.kindToKeys.Keys + m.kindsWithAnyKey == {} && e.kind == "*")
      && (kind in m'.kindToKeys ==> m'.kindToKeys[kind] != [])
  {
    var m' := Add(m, e, user);
    assert e.kind != "*" ==> e.kind in m'.kindToKeys.Keys + m'.kindsWithAnyKey;
    assert m.kindToKeys.Keys + m.kindsWithAnyKey <= m'.kindToKeys.Keys + m'.kindsWithAnyKey;
  }

  lemma {:induction false} BuiltKinds(es: seq<Entry>, user: string, kind: string)
    requires kind != "*"
    ensures var m := Built(es, user);
      && (m.allState || m.keysWithAnyKind != [] <==> SomeAnyKind(es))
      && (kind in m.kindsWithAnyKey <==> SomeAnyKey(es, user, kind))
      && (m.kindToKeys.Keys + m.kindsWithAnyKey == {} ==> OnlyAnyKind(es))
      && (kind in m.kindToKeys ==> m.kindToKeys[kind] != [])
  {
    if es != [] {
      var init, last := es[..|es| - 1], es[|es| - 1];
      BuiltKinds(init, user, kind);
      KindsLastOrBefore(es, user, kind);
      AddKinds(Built(init, user), last, user, kind);
    }
  }

  /**
   * The query asks for everything exactly if there are no entries or one has a wildcard for its type; otherwise for
   * a whole type exactly if an entry asks for any key of it, or for members when they are lazily loaded, and else
   * for the keys that the entries name.
   */
  lemma QueryExactly(es: seq<Entry>, user: string, kind: string, key: string)
    requires kind != "*"
    ensures Fetched(Query(Built(es, user)), kind, key) <==>
      || es == [] || SomeAnyKind(es) || SomeAnyKey(es, user, kind)
      || (kind == "m.room.member" && SomeLazy(es)) || SomeExactKey(es, user, kind, key)
  {
    var m := Built(es, user);
    BuiltExactly(es, user, kind, key);
    BuiltKinds(es, user, kind);
    if SomeLazy(es) && kind == "m.room.member" {
      QueryCovers(es, user, kind, key);
    }
    if es != [] && !SomeAnyKind(es) {
      assert es[0].kind != "*";
      assert m.kindToKeys.Keys + m.kindsWithAnyKey != {};
      assert Query(m) != map[] by {
        assert Query(m).Keys == m.kindToKeys.Keys + m.kindsWithAnyKey;
      }
    }
  }

  datatype Event = Event(id: nat, kind: string, key: string)

  /** Included outright, or as the member event, or any other state, of somebody in the timeline. */
  predicate Kept(m: Required, timeline: set<string>, e: Event) {
    Include(m, e.kind, e.key) || (m.lazy && e.key in timeline)
  }

  function KeptOf(m: Required, timeline: set<string>, state: seq<Event>): seq<Event> {
    if state == [] then []
    else (if Kept(m, timeline, state[0]) then [state[0]] else []) + KeptOf(m, timeline, state[1..])
  }

  function FetchedOf(query: map<string, seq<string>>, state: seq<Event>): seq<Event> {
    if state == [] then []
    else (if Fetched(query, state[0].kind, state[0].key) then [state[0]] else []) + FetchedOf(query, state[1..])
  }

  /** State of somebody in the timeline that is neither included nor fetched. */
  ghost predicate Missed(m: Required, timeline: set<string>, e: Event) {
    m.lazy && e.key in timeline && !Fetched(Query(m), e.kind, e.key)
  }

  ghost predicate Lost(m: Required, timeline: set<string>, e: Event) {
    Kept(m, timeline, e) && !Fetched(Query(m), e.kind, e.key)
  }

  /** What is kept of an event that is fetched in front of others, and of one that is not. */
  lemma FetchedFirst(m: Required, timeline: set<string>, e: Event, some: seq<Event>)
    ensures KeptOf(m, timeline, [e] + some) ==
      (if Kept(m, timeline, e) then [e] else []) + KeptOf(m, timeline, some)
    ensures [] + some == some
  {
    assert ([e] + some)[1..] == some;
  }

  lemma SameTails(e: Event, a: seq<Event>, b: seq<Event>)
    ensures [e] + a == [e] + b <==> a == b
    ensures [] + a == a && [] + b == b
  {
    assert ([e] + a)[1..] == a && ([e] + b)[1..] == b;
  }

  lemma {:induction false} FilterTwice(m: Required, timeline: set<string>, state: seq<Event>)
    ensures var all, some := KeptOf(m, timeline, state), KeptOf(m, timeline, FetchedOf(Query(m), state));
      |some| <= |all| && (some == all <==> forall i :: 0 <= i < |state| ==> !Lost(m, timeline, state[i]))
  {
    if state != [] {
      var e, rest := state[0], state[1..];
      FilterTwice(m, timeline, rest);
      LostFirstOrLater(m, timeline, state);
      FetchedFirst(m, timeline, e, FetchedOf(Query(m), rest));
      SameTails(e, KeptOf(m, timeline, FetchedOf(Query(m), rest)), KeptOf(m, timeline, rest));
    }
  }

  lemma LostFirstOrLater(m: Required, timeline: set<string>, state: seq<Event>)
    requires state != []
    ensures (forall i :: 0 <= i < |state| ==> !Lost(m, timeline, state[i])) <==>
      !Lost(m, timeline, state[0]) && forall i :: 0 <= i < |state[1..]| ==> !Lost(m, timeline, state[1..][i])
  {
    assert forall i :: 0 < i < |state| ==> state[i] == state[1..][i - 1];
  }

  /**
   * Fetching with the query and then filtering keeps what filtering the whole state would, exactly when the
   * state holds nothing missed; member events never are.
   */
  lemma FetchThenFilter(es: seq<Entry>, user: string, timeline: set<string>, state: seq<Event>)
    ensures var m := Built(es, user);
      KeptOf(m, timeline, FetchedOf(Query(m), state)) == KeptOf(m, timeline, state) <==>
      forall i :: 0 <= i < |state| ==> !Missed(m, timeline, state[i])
    ensures forall e: Event :: e.kind == MEMBER ==> !Missed(Built(es, user), timeline, e)
  {
    var m := Built(es, user);
    FilterTwice(m, timeline, state);
    forall e: Event
      ensures Lost(m, timeline, e) <==> Missed(m, timeline, e)
      ensures e.kind == MEMBER ==> !Missed(m, timeline, e)
    {
      BuiltExactly(es, user, e.kind, e.key);
      QueryCovers(es, user, e.kind, e.key);
    }
  }

  // ---- the maps as they are built ----

  method RequiredStateMap(entries: seq<Entry>, user: string) returns (m: Required)
    ensures m == Built(entries, user)
  {
    m := Required({}, [], map[], false, false);
    for i := 0 to |entries|
      invariant m == Built(entries[..i], user)
    {
      assert entries[..i + 1][..i] == entries[..i];
      var kind, key := entries[i].kind, entries[i].key;
      if kind == MEMBER && key == LAZY {
        m := m.(lazy := true);
      }
      if key == ME {
        key := user;
      }
      if kind == WILDCARD {
        if key == WILDCARD {
          m := m.(allState := true);
          continue;
        }
        m := m.(keysWithAnyKind := m.keysWithAnyKind + [key]);
        continue;
      }
      if key == WILDCARD {
        m := m.(kindsWithAnyKey := m.kindsWithAnyKey + {kind});
      } else {
        var keys := if kind in m.kindToKeys then m.kindToKeys[kind] else [];
        m := m.(kindToKeys := m.kindToKeys[kind := keys + [key]]);
      }
    }
    assert entries[..|entries|] == entries;
  }

  method Contains(keys: seq<string>, key: string) returns (found: bool)
    ensures found <==> key in keys
  {
    for i := 0 to |keys|
      invariant key !in keys[..i]
    {
      if keys[i] == key {
        return true;
      }
    }
    return false;
  }

  method IncludeEvent(m: Required, kind: string, key: string) returns (included: bool)
    ensures included <==> Include(m, kind, key)
  {
    var keys := if kind in m.kindToKeys then m.kindToKeys[kind] else [];
    if m.allState {
      if |keys| > 0 {
        included := Contains(keys, key);
        return;
      }
      return true;
    }
    for i := 0 to |m.keysWithAnyKind|
      invariant key !in m.keysWithAnyKind[..i] && WILDCARD !in m.keysWithAnyKind[..i]
    {
      if m.keysWithAnyKind[i] == key || m.keysWithAnyKind[i] == WILDCARD {
        return true;
      }
    }
    if kind in m.kindsWithAnyKey {
      return true;
    }
    included := Contains(keys, key);
  }

  lemma SomeKind(kinds: set<string>)
    ensures kinds == {} || exists kind :: kind in kinds
  {
  }

  ghost function ExactQuery(m: Required): map<string, seq<string>> {
    map kind | kind in m.kindToKeys :: if kind == MEMBER && m.lazy then [] else m.kindToKeys[kind]
  }

  method QueryExactEntries(m: Required) returns (query: map<string, seq<string>>)
    ensures query == ExactQuery(m)
  {
    query := map[];
    var left := m.kindToKeys.Keys;
    while left != {}
      invariant left <= m.kindToKeys.Keys && query.Keys == m.kindToKeys.Keys - left
      invariant forall kind :: kind in query ==> query[kind] == ExactQuery(m)[kind]
      decreases |left|
    {
      SomeKind(left);
      var kind :| kind in left;
      if kind == MEMBER && m.lazy {
        query := query[kind := []];
      } else {
        query := query[kind := m.kindToKeys[kind]];
      }
      left := left - {kind};
    }
  }

  ghost function WithAnyKey(exact: map<string, seq<string>>, kinds: set<string>): map<string, seq<string>> {
    map kind | kind in exact.Keys + kinds :: if kind in kinds then [] else exact[kind]
  }

  lemma WithAnyKeyMore(exact: map<string, seq<string>>, kinds: set<string>, kind: string)
    ensures WithAnyKey(exact, kinds + {kind}) == WithAnyKey(exact, kinds)[kind := []]
    ensures WithAnyKey(exact, {}) == exact
  {
  }

  ghost predicate Filled(exact: map<string, seq<string>>, kinds: set<string>, left: set<string>,
                         query: map<string, seq<string>>)
  {
    left <= kinds && query == WithAnyKey(exact, kinds - left)
  }

  lemma FilledMore(exact: map<string, seq<string>>, kinds: set<string>, left: set<string>,
                   query: map<string, seq<string>>, kind: string)
    requires Filled(exact, kinds, left, query) && kind in left
    ensures Filled(exact, kinds, left - {kind}, query[kind := []])
  {
    WithAnyKeyMore(exact, kinds - left, kind);
    assert kinds - (left - {kind}) == (kinds - left) + {kind};
  }

  method QueryAnyKey(exact: map<string, seq<string>>, kinds: set<string>) returns (query: map<string, seq<string>>)
    ensures query == WithAnyKey(exact, kinds)
  {
    WithAnyKeyMore(exact, {}, "");
    assert kinds - kinds == {};
    query := exact;
    var left := kinds;
    while left != {}
      invariant Filled(exact, kinds, left, query)
      decreases |left|
    {
      SomeKind(left);
      var kind :| kind in left;
      FilledMore(exact, kinds, left, query, kind);
      query := query[kind := []];
      left := left - {kind};
    }
    assert kinds - {} == kinds;
  }

  /** The query is filled in from the exact entries first and the types with any key after them. */
  method QueryStateMap(m: Required) returns (query: map<string, seq<string>>)
    ensures query == Query(m)
  {
    query := map[];
    if m.allState || |m.keysWithAnyKind| != 0 {
      return;
    }
    var exact := QueryExactEntries(m);
    query := QueryAnyKey(exact, m.kindsWithAnyKey);
  }
}
