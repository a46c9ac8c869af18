// The mapping store and the scenario store driven together: request selection
// (internal/server/runtime.go) and the admin operations (internal/server/admin.go),
// each as one atomic step, over whole runs.
module Server {
  import opened Wrappers
  import opened Matching
  import opened MappingStore
  import opened Selection
  import opened ScenarioStates

  // ---------- One request ----------

  // The stubs that match a request, in the order in which the indexes yield them.
  function MatchingCandidates(s: Snapshot, request: Request, lib: Library): (cs: seq<Mapping>) {
    Filter(Candidates(s, request.httpMethod, request.uri, request.path), MatchedBy(request, lib))
  }

  class RuntimeAPI {
    const mappings: MappingStore.Store
    const scenarios: ScenarioStates.Store?

    constructor (mappings: MappingStore.Store, scenarios: ScenarioStates.Store?)
      ensures this.mappings == mappings && this.scenarios == scenarios
    {
      this.mappings := mappings;
      this.scenarios := scenarios;
    }

    // findMatchLazy, with its fast path for stores without scenarios.
    method FindMatchLazy(request: Request, lib: Library) returns (selected: Option<Mapping>)
      modifies scenarios
      ensures
        var cs := MatchingCandidates(mappings.snapshot, request, lib);
        if scenarios == null || !mappings.snapshot.hasScenarios then
          selected == Best(cs) && (scenarios != null ==> scenarios.Contents() == old(scenarios.Contents()))
        else
          selected == Selected(old(scenarios.Contents()), cs)
          && scenarios.Contents() == AfterSelect(old(scenarios.Contents()), cs)
      ensures scenarios != null && mappings.Valid() ==>
        Serves(System(mappings.Contents(), old(scenarios.Contents())), request, lib, selected, scenarios.Contents())
    {
      hide Matches, MatchingCandidates, Best, Selected, Exact, Consistent;
      ghost var snapshot := mappings.snapshot;
      ghost var s := if scenarios != null then System(mappings.Contents(), scenarios.Contents()) else EMPTY;
      if scenarios == null || !mappings.snapshot.hasScenarios {
        selected := FastPath(mappings.snapshot, request, lib);
        assert scenarios != null ==> ServesFrom(snapshot, s, request, lib, selected, scenarios.Contents());
        return;
      }
      var candidates := CollectMatching(mappings.snapshot, request, lib);
      selected := scenarios.SelectAndTransition(candidates);
      assert ServesFrom(snapshot, s, request, lib, selected, scenarios.Contents());
    }

    static method FastPath(s: Snapshot, request: Request, lib: Library) returns (selected: Option<Mapping>)
      ensures selected == Best(MatchingCandidates(s, request, lib))
    {
      hide Matches, Candidates, Best, CompareStubOrder;
      var yielded := Candidates(s, request.httpMethod, request.uri, request.path);
      ghost var p := MatchedBy(request, lib);
      BestNone();
      selected := None;
      for i := 0 to |yielded|
        invariant selected == Best(Filter(yielded[..i], p))
      {
        var stub := yielded[i];
        assert yielded[..i + 1] == yielded[..i] + [stub];
        ghost var before := Filter(yielded[..i], p);
        FilterOne(yielded[..i], stub, p);
        if !Matches(stub.request, request, lib) {
          assert before + [] == before;
          continue;
        }
        BestNext(before, stub);
        if selected.None? || CompareStubOrder(stub, selected.value) < 0 {
          selected := Some(stub);
        }
      }
      assert yielded[..|yielded|] == yielded;
    }

    static method CollectMatching(s: Snapshot, request: Request, lib: Library) returns (candidates: seq<Mapping>)
      ensures candidates == MatchingCandidates(s, request, lib)
    {
      hide Matches, Candidates;
      var yielded := Candidates(s, request.httpMethod, request.uri, request.path);
      ghost var p := MatchedBy(request, lib);
      candidates := [];
      for i := 0 to |yielded|
        invariant candidates == Filter(yielded[..i], p)
      {
        assert yielded[..i + 1] == yielded[..i] + [yielded[i]];
        FilterOne(yielded[..i], yielded[i], p);
        if !Matches(yielded[i].request, request, lib) {
          assert candidates + [] == candidates;
          continue;
        }
        candidates := candidates + [yielded[i]];
      }
      assert yielded[..|yielded|] == yielded;
    }
  }

  class AdminAPI {
    const mappings: MappingStore.Store
    const scenarios: ScenarioStates.Store

    constructor (mappings: MappingStore.Store, scenarios: ScenarioStates.Store)
      ensures this.mappings == mappings && this.scenarios == scenarios
    {
      this.mappings := mappings;
      this.scenarios := scenarios;
    }

    ghost function Contents(): (s: System)
      reads mappings, scenarios
    {
      System(mappings.Contents(), scenarios.Contents())
    }

    method CreateMapping(stub: Mapping) returns (created: Mapping)
      requires mappings.Valid()
      modifies mappings, scenarios
      ensures mappings.Valid()
      ensures Contents() == Step(old(Contents()), Post(stub))
    {
      created := mappings.Create(stub);
      scenarios.MappingCreated(created);
    }

    // False where the source answers 404.
    method UpdateMapping(id: string, stub: Mapping) returns (found: bool)
      requires mappings.Valid()
      modifies mappings, scenarios
      ensures mappings.Valid()
      ensures found == (id in old(mappings.byID))
      ensures Contents() == Step(old(Contents()), Put(id, stub))
    {
      if id !in mappings.byID {
        return false;
      }
      var existing := mappings.byID[id];
      var updated := mappings.Replace(id, stub);
      scenarios.MappingUpdated(existing, updated.value);
      return true;
    }

    method DeleteMapping(id: string) returns (found: bool)
      requires mappings.Valid()
      modifies mappings, scenarios
      ensures mappings.Valid()
      ensures found == (id in old(mappings.byID))
      ensures Contents() == Step(old(Contents()), Delete(id))
    {
      if id !in mappings.byID {
        return false;
      }
      var existing := mappings.byID[id];
      found := mappings.Delete(id);
      scenarios.MappingDeleted(existing);
    }

    method ResetScenarios()
      modifies scenarios
      ensures Contents() == Step(old(Contents()), ResetStates)
    {
      scenarios.Reset();
    }

    // activateRecordedMappings: every recorded stub is posted in turn.
    method ActivateRecordedMappings(stubs: seq<Mapping>)
      requires mappings.Valid()
      modifies mappings, scenarios
      ensures mappings.Valid()
      ensures Contents() == RunActions(old(Contents()), Posts(stubs))
    {
      hide MappingStore.Consistent, MappingStore.Exact, Step;
      for i := 0 to |stubs|
        invariant mappings.Valid()
        invariant Contents() == RunActions(old(Contents()), Posts(stubs[..i]))
      {
        ghost var before := Contents();
        var _ := CreateMapping(stubs[i]);
        assert Posts(stubs[..i + 1]) == Posts(stubs[..i]) + [Post(stubs[i])];
        RunThen(old(Contents()), Posts(stubs[..i]), Post(stubs[i]));
      }
      assert stubs[..|stubs|] == stubs;
    }
  }

  function Posts(stubs: seq<Mapping>): (actions: seq<Action>) {
    seq(|stubs|, i requires 0 <= i < |stubs| => Post(stubs[i]))
  }

  // ---------- Whole runs ----------

  datatype System = System(stored: Stored, scenarios: Scenarios)

  datatype Action =
    | Post(stub: Mapping)
    | Put(id: string, stub: Mapping)
    | Delete(id: string)
    | ResetStates
    | Serve(request: Request, lib: Library)

  function StubList(s: System): (ms: seq<Mapping>) { Listed(s.stored.order, s.stored.byID) }

  // A request as the server handles it: the indexes of an exact snapshot of the
  // stored stubs, then the fast or the scenario path.
  ghost predicate Serves(s: System, request: Request, lib: Library, selected: Option<Mapping>, next: Scenarios) {
    exists snapshot :: Exact(snapshot, s.stored) && ServesFrom(snapshot, s, request, lib, selected, next)
  }

  predicate ServesFrom(snapshot: Snapshot, s: System, request: Request, lib: Library, selected: Option<Mapping>,
                       next: Scenarios)
  {
    var cs := MatchingCandidates(snapshot, request, lib);
    if snapshot.hasScenarios then selected == Selected(s.scenarios, cs) && next == AfterSelect(s.scenarios, cs)
    else selected == Best(cs) && next == s.scenarios
  }

  // ---------- The specification of a request ----------

  // Among all stored stubs in insertion order, those that match the request and
  // whose required scenario state is current.
  function Eligible(s: System, request: Request, lib: Library): (ms: seq<Mapping>) {
    Filter(StubList(s), (m: Mapping) => Matches(m.request, request, lib) && StateMatches(s.scenarios, m))
  }

  // The first of them with the lowest priority.
  function Chosen(s: System, request: Request, lib: Library): (r: Option<Mapping>) {
    FirstLowest(Eligible(s, request, lib))
  }

  // Its scenario moves to its new state.
  function AfterServe(s: System, request: Request, lib: Library): (r: Scenarios) {
    match Chosen(s, request, lib)
    case Some(m) =>
      if m.scenario.name == "" || m.scenario.newState == "" then s.scenarios
      else s.scenarios.(states := s.scenarios.states[m.scenario.name := m.scenario.newState])
    case None => s.scenarios
  }

  function Step(s: System, a: Action): (r: System) {
    match a
    case Post(stub) => System(AfterCreate(s.stored, stub), AfterAdd(s.scenarios, Created(s.stored, stub)))
    case Put(id, stub) =>
      (match Replaced(s.stored, id, stub)
       case Some(m) => System(AfterReplace(s.stored, id, stub), AfterUpdate(s.scenarios, s.stored.byID[id], m))
       case None => s)
    case Delete(id) =>
      if id in s.stored.byID then System(AfterDelete(s.stored, id), AfterRemove(s.scenarios, s.stored.byID[id])) else s
    case ResetStates => s.(scenarios := AfterReset(s.scenarios))
    case Serve(request, lib) => s.(scenarios := AfterServe(s, request, lib))
  }

  function RunActions(s: System, actions: seq<Action>): (r: System)
    decreases |actions|
  {
    if |actions| == 0 then s else RunActions(Step(s, actions[0]), actions[1..])
  }

  lemma {:induction false} RunThen(s: System, actions: seq<Action>, a: Action)
    ensures RunActions(s, actions + [a]) == Step(RunActions(s, actions), a)
    decreases |actions|
  {
    hide Step;
    if |actions| == 0 {
      assert (actions + [a])[1..] == [];
    } else {
      assert (actions + [a])[1..] == actions[1..] + [a];
      RunThen(Step(s, actions[0]), actions[1..], a);
    }
  }

  // ---------- The server picks what the specification picks ----------

  lemma {:induction false} ListedInOrder(s: Stored, n: nat)
    requires Consistent(s) && n <= |s.order|
    ensures var ms := Listed(s.order[..n], s.byID);
      |ms| == n && forall i :: 0 <= i < n ==> ms[i] == s.byID[s.order[i]]
  {
    if n > 0 {
      ListedInOrder(s, n - 1);
      assert s.order[..n][..n - 1] == s.order[..n - 1];
      assert s.order[n - 1] in s.order;
    }
  }

  lemma StoredInOrder(s: Stored)
    requires Consistent(s)
    ensures |Listed(s.order, s.byID)| == |s.order|
    ensures forall i :: 0 <= i < |s.order| ==> s.order[i] in s.byID && Listed(s.order, s.byID)[i] == s.byID[s.order[i]]
    ensures InInsertionOrder(Listed(s.order, s.byID))
  {
    ListedInOrder(s, |s.order|);
    assert s.order[..|s.order|] == s.order;
    forall i | 0 <= i < |s.order| ensures s.order[i] in s.byID { assert s.order[i] in s.order; }
  }

  // Every stored stub's method is in upper-case ASCII and no two priorities are so far
  // apart that comparing them wraps.
  ghost predicate Servable(s: System) {
    Consistent(s.stored) && AllPlain(StubList(s)) && Fits(StubList(s))
  }

  lemma {:induction false} FilterTwice(ms: seq<Mapping>, p: Mapping -> bool, q: Mapping -> bool)
    ensures Filter(Filter(ms, p), q) == Filter(ms, (m: Mapping) => p(m) && q(m))
  {
    if |ms| != 0 {
      var prefix, last := ms[..|ms| - 1], ms[|ms| - 1];
      FilterTwice(prefix, p, q);
      if p(last) {
        FilterOne(Filter(prefix, p), last, q);
      } else {
        assert Filter(prefix, p) + [] == Filter(prefix, p);
      }
    }
  }

  lemma SameBagFiltered(a: seq<Mapping>, b: seq<Mapping>, p: Mapping -> bool)
    requires multiset(a) == multiset(b)
    ensures multiset(Filter(a, p)) == multiset(Filter(b, p))
  {
    forall x ensures multiset(Filter(a, p))[x] == multiset(Filter(b, p))[x] {
      FilterCount(a, p, x);
      FilterCount(b, p, x);
    }
  }

  lemma FitsSublist(ms: seq<Mapping>, p: Mapping -> bool)
    requires Fits(ms) && InInsertionOrder(ms)
    ensures Fits(Filter(ms, p))
  {
    FilterInOrder(ms, p);
  }

  // Selecting among the indexed candidates in the given states is what the scan chooses.
  lemma SelectedIsChosen(snapshot: Snapshot, s: System, request: Request, lib: Library)
    requires IsToken(request.httpMethod) && Servable(s) && Exact(snapshot, s.stored)
    ensures Selected(s.scenarios, MatchingCandidates(snapshot, request, lib)) == Chosen(s, request, lib)
  {
    hide Matches, Candidates, ExactIndexes, StateMatches;
    var ms, p := StubList(s), MatchedBy(request, lib);
    var q := (m: Mapping) => StateMatches(s.scenarios, m);
    var both := (m: Mapping) => p(m) && q(m);
    var cs := MatchingCandidates(snapshot, request, lib);
    StoredInOrder(s.stored);
    IndexedMatchesAreAllMatches(snapshot, ms, request, lib);
    SameBagFiltered(cs, Filter(ms, p), q);
    FilterTwice(ms, p, q);
    SameFilter(ms, both, (m: Mapping) => Matches(m.request, request, lib) && StateMatches(s.scenarios, m));
    FitsSublist(ms, both);
    FilterInOrder(ms, both);
    BestIsFirstLowest(Filter(cs, q), Filter(ms, both));
  }

  lemma {:induction false} SameFilter(ms: seq<Mapping>, p: Mapping -> bool, q: Mapping -> bool)
    requires forall m :: p(m) == q(m)
    ensures Filter(ms, p) == Filter(ms, q)
  {
    if |ms| != 0 { SameFilter(ms[..|ms| - 1], p, q); }
  }

  lemma {:induction false} FilterAll(ms: seq<Mapping>, p: Mapping -> bool)
    requires forall i :: 0 <= i < |ms| ==> p(ms[i])
    ensures Filter(ms, p) == ms
  {
    if |ms| != 0 { FilterAll(ms[..|ms| - 1], p); }
  }

  // Without scenarios every candidate's state matches, so the fast path loses nothing.
  lemma FastPathIsScenarioPath(snapshot: Snapshot, s: System, request: Request, lib: Library)
    requires Servable(s) && Exact(snapshot, s.stored) && !snapshot.hasScenarios
    ensures var cs := MatchingCandidates(snapshot, request, lib);
      Best(cs) == Selected(s.scenarios, cs) && AfterSelect(s.scenarios, cs) == s.scenarios
  {
    hide Matches, Candidates;
    var cs, p := MatchingCandidates(snapshot, request, lib), MatchedBy(request, lib);
    var yielded := Candidates(snapshot, request.httpMethod, request.uri, request.path);
    forall i | 0 <= i < |cs| ensures cs[i].scenario.name == "" {
      FilteredMember(yielded, p, cs[i]);
      CandidateStored(snapshot, StubList(s), request.httpMethod, request.uri, request.path, cs[i]);
    }
    FilterAll(cs, (m: Mapping) => StateMatches(s.scenarios, m));
    if Best(cs).Some? { BestIsCandidate(cs); }
  }

  lemma ChosenTransitions(s: System, request: Request, lib: Library)
    requires Servable(s) && Chosen(s, request, lib).Some?
    ensures AfterTransition(s.scenarios, Chosen(s, request, lib).value) == AfterServe(s, request, lib)
  {
    hide Matches;
    var p := (m: Mapping) => Matches(m.request, request, lib) && StateMatches(s.scenarios, m);
    var ms := Eligible(s, request, lib);
    FirstLowestMeaning(ms);
    FilteredMember(StubList(s), p, Chosen(s, request, lib).value);
  }

  // On either path, the server serves the stub a naive scan chooses, and the
  // scenario states advance as that scan says.
  lemma ServedAsSpecified(s: System, request: Request, lib: Library, selected: Option<Mapping>, next: Scenarios)
    requires IsToken(request.httpMethod) && Servable(s) && Serves(s, request, lib, selected, next)
    ensures selected == Chosen(s, request, lib)
    ensures next == AfterServe(s, request, lib)
  {
    hide Matches, MatchingCandidates, Selected, Best, Chosen, AfterTransition, Exact;
    var snapshot :| Exact(snapshot, s.stored) && ServesFrom(snapshot, s, request, lib, selected, next);
    if !snapshot.hasScenarios {
      FastPathIsScenarioPath(snapshot, s, request, lib);
    }
    SelectedIsChosen(snapshot, s, request, lib);
    if Chosen(s, request, lib).Some? {
      ChosenTransitions(s, request, lib);
    }
  }

  // ---------- Whole runs of the server ----------

  // One step of the server; a request reads one published snapshot.
  ghost predicate ServerStep(s: System, a: Action, s': System, served: Option<Mapping>) {
    if a.Serve? then s'.stored == s.stored && Serves(s, a.request, a.lib, served, s'.scenarios)
    else s' == Step(s, a) && served == None
  }

  ghost predicate ServerRun(states: seq<System>, actions: seq<Action>, served: seq<Option<Mapping>>) {
    && |states| == |actions| + 1 && |served| == |actions|
    && states[0] == EMPTY
    && forall i :: 0 <= i < |actions| ==> ServerStep(states[i], actions[i], states[i + 1], served[i])
  }

  const EMPTY := System(Stored(map[], [], 0), Scenarios(map[], map[]))

  // The stub an action brings in.
  function Brings(a: Action): (m: Option<Mapping>) {
    match a
    case Post(stub) => Some(stub)
    case Put(_, stub) => Some(stub)
    case _ => None
  }

  // Stubs as they are parsed, with ASCII methods and with priorities in some window
  // of 2^63 values; requests with a token for a method, as net/http delivers them.
  predicate Acceptable(actions: seq<Action>, lowest: int) {
    forall i :: 0 <= i < |actions| ==> AcceptableAction(actions[i], lowest)
  }

  predicate AcceptableAction(a: Action, lowest: int) {
    && (Brings(a).Some? ==> AcceptableStub(Brings(a).value, lowest))
    && (a.Serve? ==> IsToken(a.request.httpMethod))
  }

  predicate AcceptableStub(m: Mapping, lowest: int) {
    Plain(m) && lowest <= m.priority < lowest + TWO63
  }

  predicate AcceptableState(s: System, lowest: int) {
    forall id :: id in s.stored.byID ==> AcceptableStub(s.stored.byID[id], lowest)
  }

  lemma AcceptableIsServable(s: System, lowest: int)
    requires Consistent(s.stored) && AcceptableState(s, lowest)
    ensures Servable(s)
  {
    StoredInOrder(s.stored);
    forall x, y | x in StubList(s) && y in StubList(s) ensures DifferenceFits(x, y) {
      var i :| 0 <= i < |StubList(s)| && StubList(s)[i] == x;
      var j :| 0 <= j < |StubList(s)| && StubList(s)[j] == y;
      assert AcceptableStub(x, lowest) && AcceptableStub(y, lowest);
    }
  }

  lemma StepKeepsAcceptable(s: System, a: Action, lowest: int)
    requires Consistent(s.stored) && AcceptableState(s, lowest)
    requires Brings(a).Some? ==> AcceptableStub(Brings(a).value, lowest)
    ensures Consistent(Step(s, a).stored) && AcceptableState(Step(s, a), lowest)
  {
    hide Consistent;
    match a
    case Post(stub) => CreateKeepsConsistent(s.stored, stub);
    case Put(id, stub) => ReplaceKeepsConsistent(s.stored, id, stub);
    case Delete(id) => DeleteKeepsConsistent(s.stored, id);
    case _ =>
  }

  // Safety over whole runs: whatever the order of posts, puts, deletes, resets and
  // requests, every step leaves the specified state, and every request is served
  // the first stored stub of lowest priority that matches it in the current
  // scenario states.
  lemma {:induction false} RunServesAsSpecified(states: seq<System>, actions: seq<Action>, served: seq<Option<Mapping>>,
                                                lowest: int)
    requires ServerRun(states, actions, served) && Acceptable(actions, lowest)
    ensures forall i :: 0 <= i < |states| ==> Servable(states[i])
    ensures forall i :: 0 <= i < |actions| ==> states[i + 1] == Step(states[i], actions[i])
    ensures forall i :: 0 <= i < |actions| && actions[i].Serve? ==>
      served[i] == Chosen(states[i], actions[i].request, actions[i].lib)
  {
    hide Consistent, Step, Chosen, AfterServe;
    RunStaysAcceptable(states, actions, served, lowest, |actions|);
    forall i | 0 <= i < |states| ensures Servable(states[i]) {
      RunStaysAcceptable(states, actions, served, lowest, i);
      AcceptableIsServable(states[i], lowest);
    }
    forall i | 0 <= i < |actions|
      ensures states[i + 1] == Step(states[i], actions[i])
      ensures actions[i].Serve? ==> served[i] == Chosen(states[i], actions[i].request, actions[i].lib)
    {
      assert Servable(states[i]);
      StepAsSpecified(states[i], actions[i], states[i + 1], served[i]);
    }
  }

  lemma StepAsSpecified(s: System, a: Action, s': System, served: Option<Mapping>)
    requires (a.Serve? ==> IsToken(a.request.httpMethod)) && Servable(s) && ServerStep(s, a, s', served)
    ensures s' == Step(s, a)
    ensures a.Serve? ==> served == Chosen(s, a.request, a.lib)
  {
    hide Servable, Serves, Chosen, AfterServe;
    if a.Serve? {
      ServedAsSpecified(s, a.request, a.lib, served, s'.scenarios);
    }
  }

  lemma {:induction false} RunStaysAcceptable(states: seq<System>, actions: seq<Action>, served: seq<Option<Mapping>>,
                                              lowest: int, n: nat)
    requires ServerRun(states, actions, served) && Acceptable(actions, lowest) && n <= |actions|
    ensures Consistent(states[n].stored) && AcceptableState(states[n], lowest)
    decreases n
  {
    if n > 0 {
      hide Consistent, Step;
      RunStaysAcceptable(states, actions, served, lowest, n - 1);
      AcceptableIsServable(states[n - 1], lowest);
      assert ServerStep(states[n - 1], actions[n - 1], states[n], served[n - 1]);
      StepAsSpecified(states[n - 1], actions[n - 1], states[n], served[n - 1]);
      StepKeepsAcceptable(states[n - 1], actions[n - 1], lowest);
    }
  }

  // ---------- Scenario membership ----------

  function LiveIn(s: System, name: string): (ids: set<string>) {
    set id | id in s.stored.byID && s.stored.byID[id].scenario.name == name
  }

  // The scenario store tracks exactly the stored stubs of each scenario, and holds
  // state only for scenarios that have a stub.
  ghost predicate MembersExact(s: System) {
    && (forall name :: name != "" ==> MembersOf(s.scenarios, name) == LiveIn(s, name))
    && (forall name :: name in s.scenarios.members ==> name != "" && s.scenarios.members[name] != {})
    && (forall name :: name in s.scenarios.states ==> name in s.scenarios.members)
  }

  // Posting over a stored stub of a scenario keeps that scenario.
  predicate KeepsScenario(s: System, a: Action) {
    a.Post? && a.stub.id in s.stored.byID && s.stored.byID[a.stub.id].scenario.name != "" ==>
      a.stub.scenario.name == s.stored.byID[a.stub.id].scenario.name
  }

  lemma PostKeepsMembers(s: System, stub: Mapping)
    requires Consistent(s.stored) && MembersExact(s) && KeepsScenario(s, Post(stub))
    ensures MembersExact(Step(s, Post(stub)))
  {
    var s' := Step(s, Post(stub));
    forall name | name != "" ensures MembersOf(s'.scenarios, name) == LiveIn(s', name) {
      assert MembersOf(s.scenarios, name) == LiveIn(s, name);
    }
  }

  lemma DeleteKeepsMembers(s: System, id: string)
    requires Consistent(s.stored) && MembersExact(s)
    ensures MembersExact(Step(s, Delete(id)))
  {
    if id in s.stored.byID {
      hide AfterRemove, RemoveID;
      var s', gone := Step(s, Delete(id)), s.stored.byID[id];
      assert Tidy(s.scenarios);
      RemoveEffect(s.scenarios, gone);
      forall name | name != "" ensures MembersOf(s'.scenarios, name) == LiveIn(s', name) {
        LiveAfterDelete(s, id, name);
        assert MembersOf(s.scenarios, name) == LiveIn(s, name);
        assert name != gone.scenario.name ==> id !in LiveIn(s, name);
      }
    }
  }

  lemma LiveAfterDelete(s: System, id: string, name: string)
    requires id in s.stored.byID
    ensures LiveIn(Step(s, Delete(id)), name) == LiveIn(s, name) - {id}
  {
  }

  // No tracked scenario is empty, and only tracked scenarios have state.
  ghost predicate Tidy(sc: Scenarios) {
    && (forall name :: name in sc.members ==> name != "" && sc.members[name] != {})
    && (forall name :: name in sc.states ==> name in sc.members)
  }

  lemma AddEffect(sc: Scenarios, m: Mapping)
    requires Tidy(sc)
    ensures Tidy(AfterAdd(sc, m))
    ensures forall name | name != "" ::
      MembersOf(AfterAdd(sc, m), name) ==
        if name == m.scenario.name then MembersOf(sc, name) + {m.id} else MembersOf(sc, name)
  {
  }

  lemma RemoveEffect(sc: Scenarios, m: Mapping)
    requires Tidy(sc)
    ensures Tidy(AfterRemove(sc, m))
    ensures forall name | name != "" ::
      MembersOf(AfterRemove(sc, m), name) ==
        if name == m.scenario.name then MembersOf(sc, name) - {m.id} else MembersOf(sc, name)
  {
  }

  lemma PutKeepsMembers(s: System, id: string, stub: Mapping)
    requires Consistent(s.stored) && MembersExact(s)
    ensures MembersExact(Step(s, Put(id, stub)))
  {
    if id in s.stored.byID {
      hide AfterAdd, AfterRemove, Consistent;
      var s' := Step(s, Put(id, stub));
      var previous, next := s.stored.byID[id], stub.(id := id, sequence := s.stored.byID[id].sequence);
      var same := previous.scenario.name == next.scenario.name;
      var between := if same then s.scenarios else AfterRemove(s.scenarios, previous);
      assert Tidy(s.scenarios);
      RemoveEffect(s.scenarios, previous);
      AddEffect(between, next);
      assert s'.scenarios == AfterAdd(between, next);
      forall name | name != "" ensures MembersOf(s'.scenarios, name) == LiveIn(s', name) {
        LiveAfterPut(s, id, stub, name);
        assert MembersOf(s.scenarios, name) == LiveIn(s, name);
      }
    }
  }

  lemma LiveAfterPut(s: System, id: string, stub: Mapping, name: string)
    requires Consistent(s.stored) && id in s.stored.byID
    ensures LiveIn(Step(s, Put(id, stub)), name) ==
      if name == stub.scenario.name then LiveIn(s, name) + {id} else LiveIn(s, name) - {id}
  {
  }

  lemma ChosenIsStored(s: System, request: Request, lib: Library)
    requires Consistent(s.stored) && Chosen(s, request, lib).Some?
    ensures var m := Chosen(s, request, lib).value; m.id in s.stored.byID && s.stored.byID[m.id] == m
  {
    hide Matches;
    var p := (m: Mapping) => Matches(m.request, request, lib) && StateMatches(s.scenarios, m);
    FirstLowestMeaning(Eligible(s, request, lib));
    var m := Chosen(s, request, lib).value;
    FilteredMember(StubList(s), p, m);
    StoredInOrder(s.stored);
    var i :| 0 <= i < |StubList(s)| && StubList(s)[i] == m;
  }

  lemma ServeKeepsMembers(s: System, request: Request, lib: Library)
    requires Consistent(s.stored) && MembersExact(s)
    ensures MembersExact(Step(s, Serve(request, lib)))
  {
    hide Chosen;
    var s' := Step(s, Serve(request, lib));
    assert s'.scenarios.members == s.scenarios.members;
    forall name ensures LiveIn(s', name) == LiveIn(s, name) && MembersOf(s'.scenarios, name)
      == MembersOf(s.scenarios, name) {}
    if Chosen(s, request, lib).Some? {
      ChosenIsStored(s, request, lib);
      var m := Chosen(s, request, lib).value;
      assert m.id in LiveIn(s, m.scenario.name);
    }
  }

  // Membership stays exact in every step except a post that moves a stored stub
  // out of its scenario, and in such a step it always breaks.
  lemma MembersStayExactIff(s: System, a: Action)
    requires Consistent(s.stored) && MembersExact(s)
    ensures MembersExact(Step(s, a)) <==> KeepsScenario(s, a)
  {
    if KeepsScenario(s, a) {
      hide MembersExact, Step, Consistent;
      match a
      case Post(stub) => PostKeepsMembers(s, stub);
      case Put(id, stub) => PutKeepsMembers(s, id, stub);
      case Delete(id) => DeleteKeepsMembers(s, id);
      case ResetStates => ResetKeepsMembers(s);
      case Serve(request, lib) => ServeKeepsMembers(s, request, lib);
    } else {
      MovedStubLeavesTrace(s, a.stub);
    }
  }

  lemma ResetKeepsMembers(s: System)
    requires MembersExact(s)
    ensures MembersExact(Step(s, ResetStates))
  {
    var s' := Step(s, ResetStates);
    forall name ensures LiveIn(s', name) == LiveIn(s, name) && MembersOf(s'.scenarios, name)
      == MembersOf(s.scenarios, name) {}
  }

  lemma MovedStubLeavesTrace(s: System, stub: Mapping)
    requires MembersExact(s) && !KeepsScenario(s, Post(stub))
    ensures !MembersExact(Step(s, Post(stub)))
  {
    var s' := Step(s, Post(stub));
    var name := s.stored.byID[stub.id].scenario.name;
    assert stub.id in LiveIn(s, name);
    assert stub.id in MembersOf(s'.scenarios, name) && stub.id !in LiveIn(s', name);
  }

  ghost predicate KeepsScenarios(s: System, actions: seq<Action>)
    decreases |actions|
  {
    |actions| == 0 || (KeepsScenario(s, actions[0]) && KeepsScenarios(Step(s, actions[0]), actions[1..]))
  }

  // Over whole runs: while posts keep scenarios, membership is exact, and so a
  // scenario with no stored stub reads as Started.
  lemma {:induction false} RunKeepsMembers(s: System, actions: seq<Action>)
    requires Consistent(s.stored) && MembersExact(s) && KeepsScenarios(s, actions)
    ensures var r := RunActions(s, actions);
      && Consistent(r.stored) && MembersExact(r)
      && forall name :: name != "" && LiveIn(r, name) == {} ==> StateOf(r.scenarios, name) == STARTED
    decreases |actions|
  {
    if |actions| != 0 {
      hide MembersExact, Step, Consistent;
      MembersStayExactIff(s, actions[0]);
      StepKeepsConsistent(s, actions[0]);
      RunKeepsMembers(Step(s, actions[0]), actions[1..]);
    }
  }

  lemma StepKeepsConsistent(s: System, a: Action)
    requires Consistent(s.stored)
    ensures Consistent(Step(s, a).stored)
  {
    hide Consistent;
    match a
    case Post(stub) => CreateKeepsConsistent(s.stored, stub);
    case Put(id, stub) => ReplaceKeepsConsistent(s.stored, id, stub);
    case Delete(id) => DeleteKeepsConsistent(s.stored, id);
    case _ =>
  }

  // Without that condition a state can outlive every stub of its scenario: a stub
  // is served, posted again under another scenario, and deleted.
  lemma StateOutlivesStubs(lib: Library, response: ResponseDefinition)
    ensures var pattern := RequestPattern("ANY", "", "/", "", "", [], map[], map[], None);
      var stub := Mapping("id", 5, Scenario("n", "", "Used"), pattern, response, 0);
      var moved := stub.(scenario := Scenario("m", "", ""));
      var request := Request("GET", "/", "/", map[], map[], Some(""));
      var r := RunActions(EMPTY, [Post(stub), Serve(request, lib), Post(moved), Delete("id")]);
      r.stored.byID == map[] && StateOf(r.scenarios, "n") == "Used"
  {
    hide Matches, StateMatches;
    var pattern := RequestPattern("ANY", "", "/", "", "", [], map[], map[], None);
    var stub := Mapping("id", 5, Scenario("n", "", "Used"), pattern, response, 0);
    var moved := stub.(scenario := Scenario("m", "", ""));
    var request := Request("GET", "/", "/", map[], map[], Some(""));
    FourSteps(EMPTY, Post(stub), Serve(request, lib), Post(moved), Delete("id"));
    assert Matches(pattern, request, lib) by { AnyRequestMatches(pattern, request, lib); }
    StubUsed(stub, request, lib);
    var stored := Stored(map["id" := stub.(sequence := 1)], ["id"], 1);
    var s2 := System(stored, Scenarios(map["n" := "Used"], map["n" := {"id"}]));
    StubMovedAndDeleted(s2, moved);
  }

  lemma AnyRequestMatches(pattern: RequestPattern, request: Request, lib: Library)
    requires pattern == RequestPattern("ANY", "", request.path, "", "", [], map[], map[], None) && request.path != ""
    ensures Matches(pattern, request, lib)
  {
  }

  lemma FourSteps(s: System, a: Action, b: Action, c: Action, d: Action)
    ensures RunActions(s, [a, b, c, d]) == Step(Step(Step(Step(s, a), b), c), d)
  {
    hide Step;
    assert [a, b, c, d][1..] == [b, c, d] && [b, c, d][1..] == [c, d] && [c, d][1..] == [d] && [d][1..] == [];
    var s1, s2 := Step(s, a), Step(Step(s, a), b);
    var s3 := Step(s2, c);
    assert RunActions(Step(s3, d), []) == Step(s3, d);
    assert RunActions(s3, [d]) == Step(s3, d);
    assert RunActions(s2, [c, d]) == RunActions(s3, [d]);
    assert RunActions(s1, [b, c, d]) == RunActions(s2, [c, d]);
  }

  lemma StubUsed(stub: Mapping, request: Request, lib: Library)
    requires stub.scenario == Scenario("n", "", "Used") && stub.id == "id"
    requires Matches(stub.request, request, lib)
    ensures Step(Step(EMPTY, Post(stub)), Serve(request, lib)) ==
      System(Stored(map["id" := stub.(sequence := 1)], ["id"], 1), Scenarios(map["n" := "Used"], map["n" := {"id"}]))
  {
    hide Matches, Chosen;
    var stored := stub.(sequence := 1);
    var s1 := System(Stored(map["id" := stored], ["id"], 1), Scenarios(map[], map["n" := {"id"}]));
    assert [] + ["id"] == ["id"] && MembersOf(EMPTY.scenarios, "n") + {"id"} == {"id"};
    assert Step(EMPTY, Post(stub)) == s1;
    OnlyStubChosen(s1, stored, request, lib);
    assert s1.scenarios.states["n" := "Used"] == map["n" := "Used"];
  }

  lemma OnlyStubChosen(s: System, stored: Mapping, request: Request, lib: Library)
    requires s.stored == Stored(map["id" := stored], ["id"], 1)
    requires Matches(stored.request, request, lib) && StateMatches(s.scenarios, stored)
    ensures Chosen(s, request, lib) == Some(stored)
  {
    hide Matches, StateMatches, Listed, FirstLowest, Filter;
    ListedOne("id", s.stored.byID);
    FilterAll([stored], (m: Mapping) => Matches(m.request, request, lib) && StateMatches(s.scenarios, m));
    FirstLowestOne(stored);
  }

  lemma ListedOne(id: string, byID: map<string, Mapping>)
    requires id in byID
    ensures Listed([id], byID) == [byID[id]]
  {
    assert [id][..0] == [] && Listed([], byID) == [];
  }

  lemma FirstLowestOne(m: Mapping)
    ensures FirstLowest([m]) == Some(m)
  {
    assert [m][..0] == [] && FirstLowest([]) == None;
  }

  lemma StubMovedAndDeleted(s: System, moved: Mapping)
    requires s.stored.byID.Keys == {"id"} && s.stored.order == ["id"]
    requires s.scenarios == Scenarios(map["n" := "Used"], map["n" := {"id"}])
    requires moved.id == "id" && moved.scenario.name == "m"
    ensures var r := Step(Step(s, Post(moved)), Delete("id"));
      r.stored.byID == map[] && r.scenarios.states == map["n" := "Used"]
  {
    var s3 := Step(s, Post(moved));
    assert s3.scenarios.members["m"] == {"id"} && s3.scenarios.states == map["n" := "Used"];
    assert s3.stored.byID.Keys == {"id"} && s3.stored.byID["id"].scenario.name == "m";
    assert {"id"} - {"id"} == {};
    assert map["n" := "Used"] - {"m"} == map["n" := "Used"];
    assert (s3.stored.byID - {"id"}).Keys == {};
  }
}
