// The server seen from outside: a list of stubs in insertion order, the states of
// the scenarios, and who was put into which scenario; no indexes, sequence numbers
// or snapshots. The real server behaves like it over every run.
module NaiveServer {
  import opened Wrappers
  import opened Matching
  import opened MappingStore
  import opened Selection
  import opened ScenarioStates
  import opened Server

  // links pairs a scenario with the id of a stub that was put into it and not since
  // updated out of it or deleted from it.
  datatype Naive = Naive(stubs: seq<Mapping>, states: map<string, string>, links: set<(string, string)>)

  const NOTHING := Naive([], map[], {})

  // A stub without the sequence number the store gave it.
  function Erase(m: Mapping): (r: Mapping) { m.(sequence := 0) }

  function EraseOption(m: Option<Mapping>): (r: Option<Mapping>) {
    match m case Some(x) => Some(Erase(x)) case None => None
  }

  function Find(stubs: seq<Mapping>, id: string): (r: Option<Mapping>) {
    if |stubs| == 0 then None else if stubs[0].id == id then Some(stubs[0]) else Find(stubs[1..], id)
  }

  // Put m in the place of the stub with the given id.
  function InPlace(stubs: seq<Mapping>, id: string, m: Mapping): (r: seq<Mapping>) {
    seq(|stubs|, i requires 0 <= i < |stubs| => if stubs[i].id == id then m else stubs[i])
  }

  function Without(stubs: seq<Mapping>, id: string): (r: seq<Mapping>) {
    if |stubs| == 0 then []
    else if stubs[0].id == id then stubs[1..]
    else [stubs[0]] + Without(stubs[1..], id)
  }

  predicate Linked(links: set<(string, string)>, name: string) {
    exists link :: link in links && link.0 == name
  }

  function Link(n: Naive, m: Mapping): (r: Naive) {
    if m.scenario.name == "" then n else n.(links := n.links + {(m.scenario.name, m.id)})
  }

  // A scenario that no stub is linked to is back at its start.
  function Unlink(n: Naive, m: Mapping): (r: Naive) {
    if m.scenario.name == "" then n
    else
      var links := n.links - {(m.scenario.name, m.id)};
      Naive(n.stubs, if Linked(links, m.scenario.name) then n.states else n.states - {m.scenario.name}, links)
  }

  function CurrentState(states: map<string, string>, name: string): (state: string) {
    if name in states && states[name] != "" then states[name] else STARTED
  }

  predicate Ready(states: map<string, string>, m: Mapping) {
    m.scenario.name == "" || m.scenario.requiredState == "" || CurrentState(states, m.scenario.name)
      == m.scenario.requiredState
  }

  function Choice(n: Naive, request: Request, lib: Library): (r: Option<Mapping>) {
    FirstLowest(Filter(n.stubs, (m: Mapping) => Matches(m.request, request, lib) && Ready(n.states, m)))
  }

  function NaiveStep(n: Naive, a: Action): (r: Naive) {
    match a
    case Post(stub) =>
      var stubs := if Find(n.stubs, stub.id).Some? then InPlace(n.stubs, stub.id, Erase(stub))
        else n.stubs + [Erase(stub)];
      Link(n.(stubs := stubs), stub)
    case Put(id, stub) =>
      (match Find(n.stubs, id)
       case None => n
       case Some(previous) =>
         var next := n.(stubs := InPlace(n.stubs, id, Erase(stub.(id := id))));
         Link(if previous.scenario.name == stub.scenario.name then next else Unlink(next, previous), stub.(id := id)))
    case Delete(id) =>
      (match Find(n.stubs, id)
       case None => n
       case Some(previous) => Unlink(n.(stubs := Without(n.stubs, id)), previous))
    case ResetStates => n.(states := map[])
    case Serve(request, lib) =>
      match Choice(n, request, lib)
      case None => n
      case Some(m) =>
        if m.scenario.name == "" || m.scenario.newState == "" then n
        else n.(states := n.states[m.scenario.name := m.scenario.newState])
  }

  function NaiveRun(n: Naive, actions: seq<Action>): (r: Naive)
    decreases |actions|
  {
    if |actions| == 0 then n else NaiveStep(NaiveRun(n, actions[..|actions| - 1]), actions[|actions| - 1])
  }

  // ---------- Simulation ----------

  function Erased(ms: seq<Mapping>): (r: seq<Mapping>) {
    seq(|ms|, i requires 0 <= i < |ms| => Erase(ms[i]))
  }

  ghost predicate Simulates(n: Naive, s: System) {
    n.stubs == Erased(StubList(s)) && n.states == s.scenarios.states && SameLinks(n, s.scenarios)
  }

  ghost predicate SameLinks(n: Naive, sc: Scenarios) {
    forall name, id :: (name, id) in n.links <==> id in MembersOf(sc, name)
  }

  // The naive list follows the order of ids.
  lemma StubAt(s: System, n: Naive, i: nat)
    requires Consistent(s.stored) && Simulates(n, s) && i < |s.stored.order|
    ensures |n.stubs| == |s.stored.order| && s.stored.order[i] in s.stored.byID
    ensures n.stubs[i] == Erase(s.stored.byID[s.stored.order[i]]) && n.stubs[i].id == s.stored.order[i]
  {
    StoredInOrder(s.stored);
  }

  lemma {:induction false} FindAt(stubs: seq<Mapping>, id: string, k: nat)
    requires k < |stubs| && stubs[k].id == id && forall i :: 0 <= i < k ==> stubs[i].id != id
    ensures Find(stubs, id) == Some(stubs[k])
    ensures Without(stubs, id) == stubs[..k] + stubs[k + 1..]
  {
    if k > 0 {
      FindAt(stubs[1..], id, k - 1);
      assert stubs[..k] == [stubs[0]] + stubs[1..][..k - 1];
    }
  }

  lemma {:induction false} FindNothing(stubs: seq<Mapping>, id: string)
    requires forall i :: 0 <= i < |stubs| ==> stubs[i].id != id
    ensures Find(stubs, id) == None
  {
    if |stubs| > 0 { FindNothing(stubs[1..], id); }
  }

  lemma FindsStored(s: System, n: Naive, id: string)
    requires Consistent(s.stored) && Simulates(n, s)
    ensures Find(n.stubs, id) == if id in s.stored.byID then Some(Erase(s.stored.byID[id])) else None
  {
    StoredInOrder(s.stored);
    if id in s.stored.byID {
      assert id in s.stored.order;
      var k :| 0 <= k < |s.stored.order| && s.stored.order[k] == id;
      forall i | 0 <= i < |n.stubs| ensures n.stubs[i].id == s.stored.order[i] { StubAt(s, n, i); }
      FindAt(n.stubs, id, k);
    } else {
      forall i | 0 <= i < |n.stubs| ensures n.stubs[i].id != id { StubAt(s, n, i); }
      FindNothing(n.stubs, id);
    }
  }

  // Storing under a known id changes one stub in place.
  lemma StoredInPlace(s: System, n: Naive, s': System, id: string, m: Mapping)
    requires Consistent(s.stored) && Consistent(s'.stored) && Simulates(n, s) && id in s.stored.byID
    requires s'.stored.order == s.stored.order && s'.stored.byID == s.stored.byID[id := m]
    ensures Erased(StubList(s')) == InPlace(n.stubs, id, Erase(m))
  {
    StoredInOrder(s.stored);
    StoredInOrder(s'.stored);
    forall i | 0 <= i < |s.stored.order|
      ensures Erased(StubList(s'))[i] == InPlace(n.stubs, id, Erase(m))[i]
    {
      StubAt(s, n, i);
    }
  }

  lemma StoredAtEnd(s: System, n: Naive, s': System, m: Mapping)
    requires Consistent(s.stored) && Consistent(s'.stored) && Simulates(n, s) && m.id !in s.stored.byID
    requires s'.stored.order == s.stored.order + [m.id] && s'.stored.byID == s.stored.byID[m.id := m]
    ensures Erased(StubList(s')) == n.stubs + [Erase(m)]
  {
    hide Consistent, Listed;
    StoredInOrder(s.stored);
    StoredInOrder(s'.stored);
    forall i | 0 <= i < |s'.stored.order|
      ensures Erased(StubList(s'))[i] == (n.stubs + [Erase(m)])[i]
    {
      if i < |s.stored.order| { StubAt(s, n, i); }
    }
  }

  lemma StoredWithout(s: System, n: Naive, s': System, id: string)
    requires Consistent(s.stored) && Consistent(s'.stored) && Simulates(n, s) && id in s.stored.byID
    requires s'.stored == AfterDelete(s.stored, id)
    ensures Erased(StubList(s')) == Without(n.stubs, id)
  {
    hide Consistent, Listed, RemoveID;
    StoredInOrder(s.stored);
    StoredInOrder(s'.stored);
    var k := PlaceOf(s.stored, id);
    forall i | 0 <= i < |n.stubs| ensures n.stubs[i].id == s.stored.order[i] { StubAt(s, n, i); }
    FindAt(n.stubs, id, k);
    RemoveShifts(s.stored.order, id, k);
    var r := Without(n.stubs, id);
    forall i | 0 <= i < |s'.stored.order| ensures Erased(StubList(s'))[i] == r[i] {
      StubAt(s, n, if i < k then i else i + 1);
    }
  }

  lemma PlaceOf(s: Stored, id: string) returns (k: nat)
    requires Consistent(s) && id in s.byID
    ensures k < |s.order| && s.order[k] == id && Distinct(s.order)
  {
    assert id in s.order;
    k :| 0 <= k < |s.order| && s.order[k] == id;
  }

  lemma LinkSimulates(n: Naive, sc: Scenarios, m: Mapping)
    requires n.states == sc.states && SameLinks(n, sc)
    ensures Link(n, m).states == AfterAdd(sc, m).states && SameLinks(Link(n, m), AfterAdd(sc, m))
  {
  }

  lemma UnlinkSimulates(n: Naive, sc: Scenarios, m: Mapping)
    requires n.states == sc.states && SameLinks(n, sc)
    ensures Unlink(n, m).states == AfterRemove(sc, m).states && SameLinks(Unlink(n, m), AfterRemove(sc, m))
  {
    var name := m.scenario.name;
    if name != "" {
      var links, rest := n.links - {(name, m.id)}, MembersOf(sc, name) - {m.id};
      forall id ensures (name, id) in links <==> id in rest {}
      LinkedIff(links, name, rest);
    }
  }

  lemma LinkedIff(links: set<(string, string)>, name: string, ids: set<string>)
    requires forall id :: (name, id) in links <==> id in ids
    ensures Linked(links, name) <==> ids != {}
  {
    if ids != {} {
      var id :| id in ids;
      assert (name, id) in links;
    }
    if Linked(links, name) {
      var link :| link in links && link.0 == name;
      assert link == (name, link.1);
    }
  }

  lemma PostSimulates(n: Naive, s: System, stub: Mapping)
    requires Simulates(n, s) && Consistent(s.stored)
    ensures Simulates(NaiveStep(n, Post(stub)), Step(s, Post(stub)))
  {
    hide Consistent, Listed, Find, InPlace, SameLinks, Link, AfterAdd;
    var s' := Step(s, Post(stub));
    CreateKeepsConsistent(s.stored, stub);
    FindsStored(s, n, stub.id);
    if stub.id in s.stored.byID {
      StoredInPlace(s, n, s', stub.id, Created(s.stored, stub));
    } else {
      StoredAtEnd(s, n, s', Created(s.stored, stub));
    }
    var next := n.(stubs := Erased(StubList(s')));
    SameLinksOf(n, next, s.scenarios);
    LinkSimulates(next, s.scenarios, Created(s.stored, stub));
    LinkAlike(next, Created(s.stored, stub), stub);
  }

  lemma SameLinksOf(n: Naive, next: Naive, sc: Scenarios)
    requires SameLinks(n, sc) && n.links == next.links
    ensures SameLinks(next, sc)
  {
  }

  // Linking and unlinking look at the scenario and the id of a stub only.
  lemma LinkAlike(n: Naive, m: Mapping, m': Mapping)
    requires m.id == m'.id && m.scenario == m'.scenario
    ensures Link(n, m) == Link(n, m') && Link(n, m).stubs == n.stubs
    ensures Unlink(n, m) == Unlink(n, m') && Unlink(n, m).stubs == n.stubs
  {
  }

  lemma PutSimulates(n: Naive, s: System, id: string, stub: Mapping)
    requires Simulates(n, s) && Consistent(s.stored)
    ensures Simulates(NaiveStep(n, Put(id, stub)), Step(s, Put(id, stub)))
  {
    hide InPlace, Listed, Find, Consistent, SameLinks, Link, Unlink, AfterAdd, AfterRemove;
    FindsStored(s, n, id);
    if id in s.stored.byID {
      var s', previous := Step(s, Put(id, stub)), s.stored.byID[id];
      var next := Replaced(s.stored, id, stub).value;
      StoredUnderID(s, id);
      ReplaceKeepsConsistent(s.stored, id, stub);
      StoredInPlace(s, n, s', id, next);
      var n1 := n.(stubs := Erased(StubList(s')));
      SameLinksOf(n, n1, s.scenarios);
      UnlinkSimulates(n1, s.scenarios, previous);
      LinkAlike(n1, previous, Erase(previous));
      var same := previous.scenario.name == next.scenario.name;
      var n2 := if same then n1 else Unlink(n1, previous);
      var sc2 := if same then s.scenarios else AfterRemove(s.scenarios, previous);
      LinkSimulates(n2, sc2, next);
      LinkAlike(n2, next, stub.(id := id));
      assert s'.scenarios == AfterAdd(sc2, next);
    }
  }

  lemma DeleteSimulates(n: Naive, s: System, id: string)
    requires Simulates(n, s) && Consistent(s.stored)
    ensures Simulates(NaiveStep(n, Delete(id)), Step(s, Delete(id)))
  {
    hide Consistent, AfterDelete, AfterRemove, Without, Find, Listed, SameLinks, Unlink;
    FindsStored(s, n, id);
    if id in s.stored.byID {
      var s', previous := Step(s, Delete(id)), s.stored.byID[id];
      StoredUnderID(s, id);
      DeleteKeepsConsistent(s.stored, id);
      StoredWithout(s, n, s', id);
      var next := n.(stubs := Erased(StubList(s')));
      SameLinksOf(n, next, s.scenarios);
      UnlinkSimulates(next, s.scenarios, previous);
      LinkAlike(next, previous, Erase(previous));
    }
  }

  lemma StoredUnderID(s: System, id: string)
    requires Consistent(s.stored) && id in s.stored.byID
    ensures s.stored.byID[id].id == id
  {
  }

  lemma {:induction false} ErasedFilter(ms: seq<Mapping>, p: Mapping -> bool)
    requires forall m :: p(m) == p(Erase(m))
    ensures Erased(Filter(ms, p)) == Filter(Erased(ms), p)
  {
    if |ms| != 0 {
      var prefix, last := ms[..|ms| - 1], ms[|ms| - 1];
      ErasedFilter(prefix, p);
      assert Erased(ms)[..|ms| - 1] == Erased(prefix) && Erased(ms)[|ms| - 1] == Erase(last);
      assert p(last) == p(Erase(last));
      if p(last) {
        assert Erased(Filter(prefix, p) + [last]) == Erased(Filter(prefix, p)) + [Erase(last)];
      } else {
        assert Filter(prefix, p) + [] == Filter(prefix, p);
      }
    }
  }

  lemma {:induction false} ErasedLowest(ms: seq<Mapping>)
    ensures EraseOption(FirstLowest(ms)) == FirstLowest(Erased(ms))
  {
    if |ms| != 0 {
      ErasedLowest(ms[..|ms| - 1]);
      assert Erased(ms)[..|ms| - 1] == Erased(ms[..|ms| - 1]);
    }
  }

  lemma ChoiceIsChosen(n: Naive, s: System, request: Request, lib: Library)
    requires Simulates(n, s)
    ensures Choice(n, request, lib) == EraseOption(Chosen(s, request, lib))
  {
    hide Matches;
    var p := (m: Mapping) => Matches(m.request, request, lib) && StateMatches(s.scenarios, m);
    var q := (m: Mapping) => Matches(m.request, request, lib) && Ready(n.states, m);
    ErasedFilter(StubList(s), p);
    ErasedLowest(Filter(StubList(s), p));
    SameFilter(Erased(StubList(s)), p, q);
  }

  lemma ServeSimulates(n: Naive, s: System, request: Request, lib: Library)
    requires Simulates(n, s)
    ensures Simulates(NaiveStep(n, Serve(request, lib)), Step(s, Serve(request, lib)))
  {
    hide Choice, Chosen;
    ChoiceIsChosen(n, s, request, lib);
  }

  lemma StepSimulates(n: Naive, s: System, a: Action)
    requires Simulates(n, s) && Consistent(s.stored)
    ensures Simulates(NaiveStep(n, a), Step(s, a))
  {
    hide Simulates, Consistent, NaiveStep, Step;
    match a
    case Post(stub) => PostSimulates(n, s, stub);
    case Put(id, stub) => PutSimulates(n, s, id, stub);
    case Delete(id) => DeleteSimulates(n, s, id);
    case ResetStates => ResetSimulates(n, s);
    case Serve(request, lib) => ServeSimulates(n, s, request, lib);
  }

  lemma ResetSimulates(n: Naive, s: System)
    requires Simulates(n, s)
    ensures Simulates(NaiveStep(n, ResetStates), Step(s, ResetStates))
  {
  }

  // ---------- Refinement over whole runs ----------

  lemma {:induction false} RunSimulates(states: seq<System>, actions: seq<Action>, served: seq<Option<Mapping>>,
                                        lowest: int, k: nat)
    requires ServerRun(states, actions, served) && Acceptable(actions, lowest) && k <= |actions|
    ensures Consistent(states[k].stored) && Simulates(NaiveRun(NOTHING, actions[..k]), states[k])
    decreases k
  {
    if k == 0 {
      StartSimulates(states[0]);
    } else {
      hide Consistent, Simulates, NaiveRun, NaiveStep, Step, ServerRun, Acceptable;
      LengthOfRun(states, actions, served);
      RunSimulates(states, actions, served, lowest, k - 1);
      StepOfRun(states, actions, served, lowest, k - 1);
      NaiveRunThen(NOTHING, actions, k);
      OneStepSimulates(NaiveRun(NOTHING, actions[..k - 1]), states[k - 1], actions[k - 1], states[k]);
    }
  }

  lemma OneStepSimulates(n: Naive, s: System, a: Action, s': System)
    requires Consistent(s.stored) && Simulates(n, s) && s' == Step(s, a)
    ensures Consistent(s'.stored) && Simulates(NaiveStep(n, a), s')
  {
    hide Consistent, Simulates, NaiveStep, Step;
    StepKeepsConsistent(s, a);
    StepSimulates(n, s, a);
  }

  lemma NaiveRunThen(n: Naive, actions: seq<Action>, k: nat)
    requires 0 < k <= |actions|
    ensures NaiveRun(n, actions[..k]) == NaiveStep(NaiveRun(n, actions[..k - 1]), actions[k - 1])
  {
    assert actions[..k][..k - 1] == actions[..k - 1];
  }

  lemma LengthOfRun(states: seq<System>, actions: seq<Action>, served: seq<Option<Mapping>>)
    requires ServerRun(states, actions, served)
    ensures |states| == |actions| + 1 && |served| == |actions|
  {
  }

  lemma StepOfRun(states: seq<System>, actions: seq<Action>, served: seq<Option<Mapping>>, lowest: int, i: nat)
    requires ServerRun(states, actions, served) && Acceptable(actions, lowest) && i < |actions|
    ensures states[i + 1] == Step(states[i], actions[i])
  {
    hide Servable, Acceptable, Step;
    RunServesAsSpecified(states, actions, served, lowest);
  }

  lemma StartSimulates(s: System)
    requires s == EMPTY
    ensures Consistent(s.stored) && MembersExact(s) && Simulates(NOTHING, s)
  {
  }

  // Every request in every run is served what the naive server serves.
  lemma RunRefinesNaive(states: seq<System>, actions: seq<Action>, served: seq<Option<Mapping>>, lowest: int, i: nat)
    requires ServerRun(states, actions, served) && Acceptable(actions, lowest)
    requires i < |actions| && actions[i].Serve?
    ensures EraseOption(served[i]) == Choice(NaiveRun(NOTHING, actions[..i]), actions[i].request, actions[i].lib)
  {
    hide Consistent, Simulates, Choice, Chosen, Servable, ServerRun, Acceptable;
    LengthOfRun(states, actions, served);
    RunSimulates(states, actions, served, lowest, i);
    RunServesAsSpecified(states, actions, served, lowest);
    ChoiceIsChosen(NaiveRun(NOTHING, actions[..i]), states[i], actions[i].request, actions[i].lib);
  }

  // ---------- Links and stubs ----------

  // The condition of MembersStayExactIff holds at each post.
  ghost predicate PostsKeepScenarios(states: seq<System>, actions: seq<Action>)
    requires |states| == |actions| + 1
  {
    forall i :: 0 <= i < |actions| ==> KeepsScenario(states[i], actions[i])
  }

  lemma {:induction false} RunStaysExact(states: seq<System>, actions: seq<Action>, served: seq<Option<Mapping>>,
                                         lowest: int, k: nat)
    requires ServerRun(states, actions, served) && Acceptable(actions, lowest) && PostsKeepScenarios(states, actions)
    requires k <= |actions|
    ensures MembersExact(states[k])
    decreases k
  {
    if k == 0 {
      StartSimulates(states[0]);
    } else {
      hide MembersExact, ServerRun, Acceptable, PostsKeepScenarios;
      LengthOfRun(states, actions, served);
      RunStaysExact(states, actions, served, lowest, k - 1);
      StepStaysExact(states, actions, served, lowest, k - 1);
    }
  }

  lemma StepStaysExact(states: seq<System>, actions: seq<Action>, served: seq<Option<Mapping>>, lowest: int, i: nat)
    requires ServerRun(states, actions, served) && Acceptable(actions, lowest) && PostsKeepScenarios(states, actions)
    requires i < |actions| && |states| == |actions| + 1 && MembersExact(states[i])
    ensures MembersExact(states[i + 1])
  {
    hide Consistent, MembersExact, Simulates, NaiveRun, Step, ServerRun, Acceptable, KeepsScenario, PostsKeepScenarios;
    LengthOfRun(states, actions, served);
    KeptAt(states, actions, i);
    RunSimulates(states, actions, served, lowest, i);
    StepOfRun(states, actions, served, lowest, i);
    OneStepExact(states[i], actions[i], states[i + 1]);
  }

  lemma KeptAt(states: seq<System>, actions: seq<Action>, i: nat)
    requires |states| == |actions| + 1 && PostsKeepScenarios(states, actions) && i < |actions|
    ensures KeepsScenario(states[i], actions[i])
  {
    hide KeepsScenario;
  }

  lemma OneStepExact(s: System, a: Action, s': System)
    requires Consistent(s.stored) && MembersExact(s) && KeepsScenario(s, a) && s' == Step(s, a)
    ensures MembersExact(s')
  {
    MembersStayExactIff(s, a);
  }

  predicate BelongsTo(stubs: seq<Mapping>, name: string, id: string) {
    exists i :: 0 <= i < |stubs| && stubs[i].id == id && stubs[i].scenario.name == name
  }

  // Where posts keep scenarios, the links are no memory of their own: they are the
  // scenarios of the listed stubs.
  lemma LinksAreStubs(states: seq<System>, actions: seq<Action>, served: seq<Option<Mapping>>, lowest: int, k: nat)
    requires ServerRun(states, actions, served) && Acceptable(actions, lowest) && PostsKeepScenarios(states, actions)
    requires k <= |actions|
    ensures var n := NaiveRun(NOTHING, actions[..k]);
      forall name, id :: name != "" ==> ((name, id) in n.links <==> BelongsTo(n.stubs, name, id))
  {
    hide ServerRun, Acceptable, NaiveRun, BelongsTo, Consistent;
    LengthOfRun(states, actions, served);
    var s, n := states[k], NaiveRun(NOTHING, actions[..k]);
    RunSimulates(states, actions, served, lowest, k);
    RunStaysExact(states, actions, served, lowest, k);
    forall name, id | name != "" ensures (name, id) in n.links <==> BelongsTo(n.stubs, name, id) {
      LiveStub(s, n, name, id);
      assert MembersOf(s.scenarios, name) == LiveIn(s, name);
    }
  }

  lemma LiveStub(s: System, n: Naive, name: string, id: string)
    requires Consistent(s.stored) && n.stubs == Erased(StubList(s))
    ensures id in LiveIn(s, name) <==> BelongsTo(n.stubs, name, id)
  {
    StoredInOrder(s.stored);
    if id in LiveIn(s, name) {
      assert id in s.stored.order;
      var i :| 0 <= i < |s.stored.order| && s.stored.order[i] == id;
      assert n.stubs[i].id == id && n.stubs[i].scenario.name == name;
    }
    if i :| 0 <= i < |n.stubs| && n.stubs[i].id == id && n.stubs[i].scenario.name == name {
      assert s.stored.order[i] in s.stored.byID;
      StoredUnderID(s, s.stored.order[i]);
    }
  }
}
