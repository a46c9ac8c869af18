// internal/scenario/store.go: scenario states, the stubs that belong to each
// scenario, and the atomic select-and-transition step.
module ScenarioStates {
  import opened Wrappers
  import opened MappingStore
  import opened Selection

  const STARTED := "Started"

  datatype Scenarios = Scenarios(states: map<string, string>, members: map<string, set<string>>)

  // ---------- Each operation as a function of the stored maps ----------

  function StateOf(s: Scenarios, name: string): (state: string) {
    if name in s.states && s.states[name] != "" then s.states[name] else STARTED
  }

  predicate StateMatches(s: Scenarios, m: Mapping) {
    m.scenario.name == "" || m.scenario.requiredState == "" || StateOf(s, m.scenario.name) == m.scenario.requiredState
  }

  function AfterTransition(s: Scenarios, m: Mapping): (r: Scenarios) {
    if m.scenario.name == "" || m.scenario.newState == "" then s
    else if m.scenario.requiredState != "" && StateOf(s, m.scenario.name) != m.scenario.requiredState then s
    else s.(states := s.states[m.scenario.name := m.scenario.newState])
  }

  function Selected(s: Scenarios, candidates: seq<Mapping>): (r: Option<Mapping>) {
    Best(Filter(candidates, (m: Mapping) => StateMatches(s, m)))
  }

  function AfterSelect(s: Scenarios, candidates: seq<Mapping>): (r: Scenarios) {
    match Selected(s, candidates) case Some(m) => AfterTransition(s, m) case None => s
  }

  function MembersOf(s: Scenarios, name: string): (ids: set<string>) {
    if name in s.members then s.members[name] else {}
  }

  function AfterAdd(s: Scenarios, m: Mapping): (r: Scenarios) {
    if m.scenario.name == "" then s
    else s.(members := s.members[m.scenario.name := MembersOf(s, m.scenario.name) + {m.id}])
  }

  // A scenario whose last member goes is forgotten, and so is its state.
  function AfterRemove(s: Scenarios, m: Mapping): (r: Scenarios) {
    var name := m.scenario.name;
    if name == "" then s
    else if name !in s.members then s.(states := s.states - {name})
    else
      var rest := s.members[name] - {m.id};
      if rest == {} then Scenarios(s.states - {name}, s.members - {name})
      else s.(members := s.members[name := rest])
  }

  function AfterUpdate(s: Scenarios, previous: Mapping, next: Mapping): (r: Scenarios) {
    if previous.scenario.name == next.scenario.name then AfterAdd(s, next) else AfterAdd(AfterRemove(s, previous), next)
  }

  function AfterReset(s: Scenarios): (r: Scenarios) { s.(states := map[]) }

  // ---------- The store ----------

  class Store {
    var states: map<string, string>
    var members: map<string, set<string>>

    ghost function Contents(): (s: Scenarios)
      reads this
    {
      Scenarios(states, members)
    }

    constructor ()
      ensures Contents() == Scenarios(map[], map[])
    {
      states, members := map[], map[];
    }

    function State(name: string): (state: string)
      reads this
      ensures state == StateOf(Contents(), name)
    {
      if name in states && states[name] != "" then states[name] else STARTED
    }

    predicate MatchesState(m: Mapping)
      reads this
      ensures MatchesState(m) == StateMatches(Contents(), m)
    {
      m.scenario.name == "" || m.scenario.requiredState == "" || State(m.scenario.name) == m.scenario.requiredState
    }

    method SelectAndTransition(candidates: seq<Mapping>) returns (selected: Option<Mapping>)
      modifies this
      ensures selected == Selected(old(Contents()), candidates)
      ensures Contents() == AfterSelect(old(Contents()), candidates)
    {
      selected := SelectBestMatchingState(candidates);
      if selected.Some? {
        Transition(selected.value);
      }
    }

    method SelectBestMatchingState(candidates: seq<Mapping>) returns (selected: Option<Mapping>)
      ensures selected == Selected(Contents(), candidates)
    {
      hide Best, CompareStubOrder, StateMatches;
      BestNone();
      selected := None;
      ghost var s := Contents();
      ghost var p := (m: Mapping) => StateMatches(s, m);
      for i := 0 to |candidates|
        invariant selected == Best(Filter(candidates[..i], p))
      {
        var stub := candidates[i];
        assert candidates[..i + 1] == candidates[..i] + [stub];
        FilterOne(candidates[..i], stub, p);
        ghost var before := Filter(candidates[..i], p);
        if !MatchesState(stub) {
          assert before + [] == before;
          continue;
        }
        BestNext(before, stub);
        if selected.None? || CompareStubOrder(stub, selected.value) < 0 {
          selected := Some(stub);
        }
      }
      assert candidates[..|candidates|] == candidates;
    }

    method Transition(m: Mapping)
      modifies `states
      ensures Contents() == AfterTransition(old(Contents()), m)
    {
      if m.scenario.name == "" || m.scenario.newState == "" {
        return;
      }
      if m.scenario.requiredState != "" && State(m.scenario.name) != m.scenario.requiredState {
        return;
      }
      states := states[m.scenario.name := m.scenario.newState];
    }

    method Reset()
      modifies `states
      ensures Contents() == AfterReset(old(Contents()))
    {
      states := map[];
    }

    method AddMapping(m: Mapping)
      modifies `members
      ensures Contents() == AfterAdd(old(Contents()), m)
    {
      var name := m.scenario.name;
      if name == "" {
        return;
      }
      if name !in members {
        members := members[name := {}];
      }
      members := members[name := members[name] + {m.id}];
    }

    method RemoveMapping(m: Mapping)
      modifies this
      ensures Contents() == AfterRemove(old(Contents()), m)
    {
      var name := m.scenario.name;
      if name == "" {
        return;
      }
      if name !in members {
        states := states - {name};
        return;
      }
      var rest := members[name] - {m.id};
      members := members[name := rest];
      if |rest| == 0 {
        members := members - {name};
        states := states - {name};
      }
    }

    method MappingCreated(m: Mapping)
      modifies this
      ensures Contents() == AfterAdd(old(Contents()), m)
    {
      AddMapping(m);
    }

    method MappingUpdated(previous: Mapping, next: Mapping)
      modifies this
      ensures Contents() == AfterUpdate(old(Contents()), previous, next)
    {
      if previous.scenario.name == next.scenario.name {
        AddMapping(next);
        return;
      }
      RemoveMapping(previous);
      AddMapping(next);
    }

    method MappingDeleted(m: Mapping)
      modifies this
      ensures Contents() == AfterRemove(old(Contents()), m)
    {
      RemoveMapping(m);
    }
  }

  // ---------- Runs ----------

  datatype Event =
    | Select(candidates: seq<Mapping>)
    | MappingCreated(m: Mapping)
    | MappingUpdated(previous: Mapping, next: Mapping)
    | MappingDeleted(m: Mapping)
    | Reset

  function Apply(s: Scenarios, e: Event): (r: Scenarios) {
    match e
    case Select(candidates) => AfterSelect(s, candidates)
    case MappingCreated(m) => AfterAdd(s, m)
    case MappingUpdated(previous, next) => AfterUpdate(s, previous, next)
    case MappingDeleted(m) => AfterRemove(s, m)
    case Reset => AfterReset(s)
  }

  function Run(s: Scenarios, events: seq<Event>): (r: Scenarios)
    decreases |events|
  {
    if |events| == 0 then s else Run(Apply(s, events[0]), events[1..])
  }

  // The stubs of scenario `name` that were selected, in order.
  function Served(s: Scenarios, events: seq<Event>, name: string): (served: seq<Mapping>)
    decreases |events|
  {
    if |events| == 0 then []
    else
      var rest := Served(Apply(s, events[0]), events[1..], name);
      var now := if events[0].Select? then Selected(s, events[0].candidates) else None;
      if now.Some? && now.value.scenario.name == name then [now.value] + rest else rest
  }

  // The event drops the state of scenario `name`.
  predicate Forgets(s: Scenarios, e: Event, name: string) {
    name in s.states && name !in Apply(s, e).states
  }

  predicate NeverForgets(s: Scenarios, events: seq<Event>, name: string)
    decreases |events|
  {
    |events| == 0 || (!Forgets(s, events[0], name) && NeverForgets(Apply(s, events[0]), events[1..], name))
  }

  // The state a stub leaves behind.
  function Leaves(state: string, m: Mapping): (next: string) {
    if m.scenario.newState == "" then state else m.scenario.newState
  }

  // A path in the scenario's state graph: each stub requires the state it is served in.
  predicate IsPath(state: string, stubs: seq<Mapping>, end: string)
    decreases |stubs|
  {
    if |stubs| == 0 then state == end
    else
      && (stubs[0].scenario.requiredState == "" || stubs[0].scenario.requiredState == state)
      && IsPath(Leaves(state, stubs[0]), stubs[1..], end)
  }

  lemma {:induction false} BestIsCandidate(cs: seq<Mapping>)
    requires Best(cs).Some?
    ensures Best(cs).value in cs
  {
    var prefix, last := cs[..|cs| - 1], cs[|cs| - 1];
    assert cs == prefix + [last];
    if Best(prefix).Some? { BestIsCandidate(prefix); }
  }

  lemma {:induction false} FilteredMember(ms: seq<Mapping>, p: Mapping -> bool, x: Mapping)
    requires x in Filter(ms, p)
    ensures x in ms && p(x)
  {
    var prefix, last := ms[..|ms| - 1], ms[|ms| - 1];
    assert ms == prefix + [last];
    if x in Filter(prefix, p) { FilteredMember(prefix, p, x); }
  }

  lemma SelectedMatches(s: Scenarios, candidates: seq<Mapping>)
    requires Selected(s, candidates).Some?
    ensures Selected(s, candidates).value in candidates && StateMatches(s, Selected(s, candidates).value)
  {
    var p := (m: Mapping) => StateMatches(s, m);
    BestIsCandidate(Filter(candidates, p));
    FilteredMember(candidates, p, Selected(s, candidates).value);
  }

  // An event that neither forgets the scenario nor serves one of its stubs leaves its state.
  lemma StateKept(s: Scenarios, e: Event, name: string)
    requires name != "" && !Forgets(s, e, name)
    requires e.Select? ==> Selected(s, e.candidates).None? || Selected(s, e.candidates).value.scenario.name != name
    ensures StateOf(Apply(s, e), name) == StateOf(s, name)
  {
    hide Selected;
  }

  // Between two forgettings the stubs served from a scenario are a path in its
  // state graph, from its state at the start to its state at the end.
  lemma {:induction false} ServedIsPath(s: Scenarios, events: seq<Event>, name: string)
    requires name != "" && NeverForgets(s, events, name)
    ensures IsPath(StateOf(s, name), Served(s, events, name), StateOf(Run(s, events), name))
    decreases |events|
  {
    hide Selected, StateMatches;
    if |events| != 0 {
      var e := events[0];
      var next := Apply(s, e);
      ServedIsPath(next, events[1..], name);
      if e.Select? && Selected(s, e.candidates).Some? && Selected(s, e.candidates).value.scenario.name == name {
        var m := Selected(s, e.candidates).value;
        SelectedMatches(s, e.candidates);
        SelectedTransitions(s, m);
        assert Served(s, events, name)[1..] == Served(next, events[1..], name);
      } else {
        StateKept(s, e, name);
      }
    }
  }

  lemma SelectedTransitions(s: Scenarios, m: Mapping)
    requires m.scenario.name != "" && StateMatches(s, m)
    ensures m.scenario.requiredState == "" || m.scenario.requiredState == StateOf(s, m.scenario.name)
    ensures StateOf(AfterTransition(s, m), m.scenario.name) == Leaves(StateOf(s, m.scenario.name), m)
  {
  }

  // A stub that requires Started and leads away from it.
  predicate LeavesStart(m: Mapping) {
    m.scenario.requiredState == STARTED && m.scenario.newState != "" && m.scenario.newState != STARTED
  }

  function Departures(stubs: seq<Mapping>): (n: nat) {
    if |stubs| == 0 then 0 else (if LeavesStart(stubs[0]) then 1 else 0) + Departures(stubs[1..])
  }

  lemma {:induction false} PathDepartsOnce(state: string, stubs: seq<Mapping>, end: string)
    requires IsPath(state, stubs, end)
    requires forall i :: 0 <= i < |stubs| ==> stubs[i].scenario.newState != STARTED
    ensures Departures(stubs) <= if state == STARTED then 1 else 0
    ensures state != STARTED ==> end != STARTED
    decreases |stubs|
  {
    if |stubs| != 0 {
      assert forall i :: 0 <= i < |stubs| - 1 ==> stubs[1..][i] == stubs[i + 1];
      PathDepartsOnce(Leaves(state, stubs[0]), stubs[1..], end);
    }
  }

  predicate Offers(events: seq<Event>, name: string, state: string) {
    exists i, j :: 0 <= i < |events| && events[i].Select? && 0 <= j < |events[i].candidates|
      && events[i].candidates[j].scenario.name == name && events[i].candidates[j].scenario.newState == state
  }

  lemma {:induction false} ServedWereOffered(s: Scenarios, events: seq<Event>, name: string, k: nat)
    requires k < |Served(s, events, name)|
    ensures Offers(events, name, Served(s, events, name)[k].scenario.newState)
    decreases |events|
  {
    hide Selected, Apply;
    var next := Apply(s, events[0]);
    var rest := Served(next, events[1..], name);
    var now := if events[0].Select? then Selected(s, events[0].candidates) else None;
    var here := now.Some? && now.value.scenario.name == name;
    if here && k == 0 {
      SelectedMatches(s, events[0].candidates);
      var j :| 0 <= j < |events[0].candidates| && events[0].candidates[j] == now.value;
      assert events[0].candidates[j].scenario.newState == Served(s, events, name)[k].scenario.newState;
    } else {
      var k' := if here then k - 1 else k;
      ServedWereOffered(next, events[1..], name, k');
      assert Served(s, events, name)[k] == rest[k'];
      var state := rest[k'].scenario.newState;
      var i, j :| 0 <= i < |events[1..]| && events[1..][i].Select? && 0 <= j < |events[1..][i].candidates|
        && events[1..][i].candidates[j].scenario.name == name
        && events[1..][i].candidates[j].scenario.newState == state;
      assert events[i + 1] == events[1..][i];
    }
  }

  // If no stub offered during the run leads back to Started, then between two
  // forgettings the stubs leading away from Started are served once at most, all
  // of them together.
  lemma LeavesStartAtMostOnce(s: Scenarios, events: seq<Event>, name: string)
    requires name != "" && NeverForgets(s, events, name)
    requires !Offers(events, name, STARTED)
    ensures Departures(Served(s, events, name)) <= 1
  {
    var served := Served(s, events, name);
    ServedIsPath(s, events, name);
    forall k | 0 <= k < |served| ensures served[k].scenario.newState != STARTED {
      ServedWereOffered(s, events, name, k);
    }
    PathDepartsOnce(StateOf(s, name), served, StateOf(Run(s, events), name));
  }
}
