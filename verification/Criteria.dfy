// What a stub demands of a request, criterion by criterion, and the stub a request is
// served in those terms: a reference for matching and selecting that names neither.
module Criteria {
  import opened Wrappers
  import J = JsonTree
  import Path = JsonPath
  import opened Matching
  import opened MappingStore
  import opened Selection
  import opened ScenarioStates
  import opened Server

  datatype Criterion =
    | AnyMethod
    | MethodIs(httpMethod: string)
    | WholeURI(uri: string)
    | DecodedPath(path: string)
    | URIFits(pattern: string)
    | PathFits(pattern: string)
    | QueryHas(name: string, value: string)
    | HeaderHas(name: string, value: string)
    | BodyHas(expression: Path.JSONPath)
    | BodyLacks(expression: Path.JSONPath)
    | BodyIs(normalised: string)
    | BodyPasses(parameters: string)
    | Impossible                            // of a stub without a method or without a URL

  ghost predicate Holds(c: Criterion, request: Request, lib: Library) {
    match c
    case AnyMethod => true
    case MethodIs(httpMethod) => EqualFold(httpMethod, request.httpMethod)
    case WholeURI(uri) => request.uri == uri
    case DecodedPath(path) => request.path == path
    case URIFits(pattern) => lib.fullMatch(pattern, request.uri)
    case PathFits(pattern) => lib.fullMatch(pattern, request.path)
    case QueryHas(name, value) => name in request.query && value in request.query[name]
    case HeaderHas(name, value) =>
      exists sent :: sent in request.headers && IsToken(name) && EqualFold(sent, name) && value in request.headers[sent]
    case BodyHas(path) =>
      ParsedBody(request, lib).Some? && exists v :: v in Path.Values(path, ParsedBody(request, lib).value, lib.float)
    case BodyLacks(path) =>
      ParsedBody(request, lib).Some? && Path.Values(path, ParsedBody(request, lib).value, lib.float) == []
    case BodyIs(normalised) => request.body.Some? && NormalizeRawJSON(request.body.value, lib) == Some(normalised)
    case BodyPasses(parameters) => request.body.Some? && lib.custom(parameters, request.body.value)
    case Impossible => false
  }

  // The request body as JSONPath patterns see it, if it can be read and parsed.
  function ParsedBody(request: Request, lib: Library): (json: Option<J.Json>) {
    match request.body case Some(raw) => lib.decodeFirst(raw) case None => None
  }

  // The first of url, urlPath, urlPattern and urlPathPattern that is given counts.
  function URLCriterion(p: RequestPattern): (c: Criterion) {
    if p.url != "" then WholeURI(p.url)
    else if p.urlPath != "" then DecodedPath(p.urlPath)
    else if p.urlPattern != "" then URIFits(p.urlPattern)
    else if p.urlPathPattern != "" then PathFits(p.urlPathPattern)
    else Impossible
  }

  function MethodCriterion(p: RequestPattern): (c: Criterion) {
    if p.httpMethod == "ANY" then AnyMethod else if p.httpMethod == "" then Impossible else MethodIs(p.httpMethod)
  }

  function BodyCriterion(p: BodyPattern): (c: Criterion) {
    match p
    case MatchesJsonPath(path, absent) => if absent then BodyLacks(path) else BodyHas(path)
    case EqualToJson(expected) => BodyIs(expected)
  }

  function CriteriaOf(p: RequestPattern): (cs: set<Criterion>) {
    {MethodCriterion(p), URLCriterion(p)}
    + (set name | name in p.query :: QueryHas(name, p.query[name]))
    + (set name | name in p.headers :: HeaderHas(name, p.headers[name]))
    + (set i | 0 <= i < |p.bodyPatterns| :: BodyCriterion(p.bodyPatterns[i]))
    + (if p.customMatcher.Some? then {BodyPasses(p.customMatcher.value)} else {})
  }

  ghost predicate Meets(p: RequestPattern, request: Request, lib: Library) {
    forall c :: c in CriteriaOf(p) ==> Holds(c, request, lib)
  }

  // ---------- Matching is meeting every criterion ----------

  // Header names are compared but for case.
  lemma HeaderMatchesIff(patterns: map<string, string>, headers: MultiMap, name: string)
    requires CanonicalNames(headers) && name in patterns
    ensures HeaderMatches(patterns, headers, name) <==>
      exists sent :: sent in headers && IsToken(name) && EqualFold(sent, name) && patterns[name] in headers[sent]
  {
    hide EqualFold, IsToken, CanonicalChar;
    var key := CanonicalHeaderKey(name);
    if IsToken(name) && key in headers { CanonicalFolds(name); }
    if !IsToken(name) { assert CanonicalHeaderKey(name) == name by { NotCanonical(name); } }
    forall sent | sent in headers && IsToken(name) && EqualFold(sent, name) ensures sent == key {
      CanonicalOfVariant(sent, name);
    }
    if IsToken(name) && name in headers { assert key == name; }
  }

  lemma NotCanonical(name: string)
    requires !IsToken(name)
    ensures CanonicalHeaderKey(name) == name
  {
  }

  lemma BodyMatchesIff(p: BodyPattern, request: Request, lib: Library)
    ensures request.body.Some? && BodyPatternMatches(p, request.body.value, lib)
       <==> Holds(BodyCriterion(p), request, lib)
  {
    if request.body.Some? && p.MatchesJsonPath? {
      var json := lib.decodeFirst(request.body.value);
      if json.Some? {
        var values := Path.Values(p.path, json.value, lib.float);
        if |values| > 0 { assert values[0] in values; }
      }
    }
  }

  // The criteria of a stub one kind after the other.
  ghost predicate EachHolds(p: RequestPattern, request: Request, lib: Library) {
    && Holds(MethodCriterion(p), request, lib) && Holds(URLCriterion(p), request, lib)
    && (forall name :: name in p.query ==> Holds(QueryHas(name, p.query[name]), request, lib))
    && (forall name :: name in p.headers ==> Holds(HeaderHas(name, p.headers[name]), request, lib))
    && (forall i :: 0 <= i < |p.bodyPatterns| ==> Holds(BodyCriterion(p.bodyPatterns[i]), request, lib))
    && (p.customMatcher.Some? ==> Holds(BodyPasses(p.customMatcher.value), request, lib))
  }

  lemma MeetsIff(p: RequestPattern, request: Request, lib: Library)
    ensures Meets(p, request, lib) <==> EachHolds(p, request, lib)
  {
    hide Holds;
    var cs := CriteriaOf(p);
    if Meets(p, request, lib) {
      forall name | name in p.query ensures QueryHas(name, p.query[name]) in cs {}
      forall name | name in p.headers ensures HeaderHas(name, p.headers[name]) in cs {}
      forall i | 0 <= i < |p.bodyPatterns| ensures BodyCriterion(p.bodyPatterns[i]) in cs {}
    }
  }

  lemma BodiesMatchIff(p: RequestPattern, request: Request, lib: Library)
    ensures (RequiresBody(p) ==>
               && request.body.Some?
               && (forall i :: 0 <= i < |p.bodyPatterns| ==>
                     BodyPatternMatches(p.bodyPatterns[i], request.body.value, lib))
               && (p.customMatcher.Some? ==> lib.custom(p.customMatcher.value, request.body.value)))
       <==> (&& (forall i :: 0 <= i < |p.bodyPatterns| ==> Holds(BodyCriterion(p.bodyPatterns[i]), request, lib))
             && (p.customMatcher.Some? ==> Holds(BodyPasses(p.customMatcher.value), request, lib)))
  {
    hide BodyPatternMatches, BodyCriterion;
    forall i | 0 <= i < |p.bodyPatterns|
      ensures request.body.Some? && BodyPatternMatches(p.bodyPatterns[i], request.body.value, lib)
         <==> Holds(BodyCriterion(p.bodyPatterns[i]), request, lib)
    {
      BodyMatchesIff(p.bodyPatterns[i], request, lib);
    }
    if |p.bodyPatterns| > 0 { BodyMatchesIff(p.bodyPatterns[0], request, lib); }
  }

  lemma HeadersMatchIff(p: RequestPattern, request: Request, lib: Library)
    requires CanonicalNames(request.headers)
    ensures MatchHeaders(p.headers, request.headers)
       <==> forall name :: name in p.headers ==> Holds(HeaderHas(name, p.headers[name]), request, lib)
  {
    hide EqualFold, CanonicalNames, HeaderMatches;
    forall name | name in p.headers
      ensures HeaderMatches(p.headers, request.headers, name) <==> Holds(HeaderHas(name, p.headers[name]), request, lib)
    {
      HeaderMatchesIff(p.headers, request.headers, name);
    }
  }

  lemma LineMatchesIff(p: RequestPattern, request: Request, lib: Library)
    ensures MatchesMethod(p, request.httpMethod) <==> Holds(MethodCriterion(p), request, lib)
    ensures MatchesURL(p, request.uri, request.path, lib) <==> Holds(URLCriterion(p), request, lib)
    ensures MatchQuery(p.query, request.query)
       <==> forall name :: name in p.query ==> Holds(QueryHas(name, p.query[name]), request, lib)
  {
    hide EqualFold;
  }

  // A stub matches a request exactly when the request meets its criteria.
  lemma MatchesIff(p: RequestPattern, request: Request, lib: Library)
    requires CanonicalNames(request.headers)
    ensures Matches(p, request, lib) <==> Meets(p, request, lib)
  {
    hide CanonicalNames, MatchHeaders, MatchesMethod, MatchesURL, MatchQuery, BodyPatternMatches, Meets, RequiresBody,
      Holds, MethodCriterion, URLCriterion, BodyCriterion;
    MeetsIff(p, request, lib);
    LineMatchesIff(p, request, lib);
    HeadersMatchIff(p, request, lib);
    BodiesMatchIff(p, request, lib);
  }

  // ---------- The stub that is served ----------

  // A stub that may serve a request: its criteria hold and its scenario, if it asks for
  // a state, is in that state.
  ghost predicate MayServe(s: System, m: Mapping, request: Request, lib: Library) {
    && Meets(m.request, request, lib)
    && (m.scenario.name != "" && m.scenario.requiredState != "" ==>
          StateOf(s.scenarios, m.scenario.name) == m.scenario.requiredState)
  }

  lemma {:induction false} ScanMeaning(ms: seq<Mapping>, p: Mapping -> bool)
    ensures match FirstLowest(Filter(ms, p))
      case None => forall j :: 0 <= j < |ms| ==> !p(ms[j])
      case Some(m) => exists i :: 0 <= i < |ms| && ms[i] == m && p(m) && Foremost(ms, p, i)
  {
    if |ms| != 0 {
      hide FirstLowest, Filter, Foremost;
      var n := |ms| - 1;
      var prefix, last := ms[..n], ms[n];
      ScanMeaning(prefix, p);
      ScanNext(ms, p);
      match FirstLowest(Filter(prefix, p))
      case None => OnlyLast(ms, p);
      case Some(m) =>
        var i :| 0 <= i < |prefix| && prefix[i] == m && p(m) && Foremost(prefix, p, i);
        ForemostNext(ms, p, i);
    }
  }

  lemma OnlyLast(ms: seq<Mapping>, p: Mapping -> bool)
    requires |ms| > 0 && var prefix := ms[..|ms| - 1]; forall j :: 0 <= j < |prefix| ==> !p(prefix[j])
    ensures Foremost(ms, p, |ms| - 1)
    ensures forall j :: 0 <= j < |ms| - 1 ==> !p(ms[j])
  {
    var prefix := ms[..|ms| - 1];
    assert forall j :: 0 <= j < |prefix| ==> prefix[j] == ms[j];
  }

  // One more mapping is chosen if it is the first to qualify or lower than the choice before.
  lemma ScanNext(ms: seq<Mapping>, p: Mapping -> bool)
    requires |ms| > 0
    ensures var last, before := ms[|ms| - 1], FirstLowest(Filter(ms[..|ms| - 1], p));
      FirstLowest(Filter(ms, p)) ==
        if p(last) && (before.None? || last.priority < before.value.priority) then Some(last) else before
  {
    hide Filter;
    var n := |ms| - 1;
    var before := Filter(ms[..n], p);
    FilterNext(ms, p);
    if p(ms[n]) { assert (before + [ms[n]])[..|before|] == before; }
  }

  lemma FilterNext(ms: seq<Mapping>, p: Mapping -> bool)
    requires |ms| > 0
    ensures var n := |ms| - 1;
      var before := Filter(ms[..n], p); Filter(ms, p) == if p(ms[n]) then before + [ms[n]] else before
  {
    var before := Filter(ms[..|ms| - 1], p);
    assert before + [] == before;
  }

  lemma ForemostNext(ms: seq<Mapping>, p: Mapping -> bool, i: nat)
    requires i < |ms| - 1 && p(ms[i]) && Foremost(ms[..|ms| - 1], p, i)
    ensures var n := |ms| - 1;
      if p(ms[n]) && ms[n].priority < ms[i].priority then Foremost(ms, p, n) else Foremost(ms, p, i)
  {
    var prefix := ms[..|ms| - 1];
    assert forall j :: 0 <= j < |prefix| ==> prefix[j] == ms[j];
  }

  // Of the mappings that satisfy p, none has a lower priority and no earlier one the same.
  predicate Foremost(ms: seq<Mapping>, p: Mapping -> bool, i: nat)
    requires i < |ms|
  {
    && (forall j :: 0 <= j < i && p(ms[j]) ==> ms[i].priority < ms[j].priority)
    && (forall j :: i < j < |ms| && p(ms[j]) ==> ms[i].priority <= ms[j].priority)
  }

  // The stub at place i serves the request: it may, and of all that may none has a
  // lower priority and no earlier one the same.
  ghost predicate Wins(s: System, i: nat, request: Request, lib: Library)
    requires i < |StubList(s)|
  {
    var ms := StubList(s);
    && MayServe(s, ms[i], request, lib)
    && (forall j :: 0 <= j < i && MayServe(s, ms[j], request, lib) ==> ms[i].priority < ms[j].priority)
    && (forall j :: i < j < |ms| && MayServe(s, ms[j], request, lib) ==> ms[i].priority <= ms[j].priority)
  }

  // A request is served by the stub that wins, and by none only if no stub may serve it.
  ghost predicate RightlyServed(s: System, request: Request, lib: Library, served: Option<Mapping>) {
    var ms := StubList(s);
    match served
    case None => forall j :: 0 <= j < |ms| ==> !MayServe(s, ms[j], request, lib)
    case Some(m) => exists i :: 0 <= i < |ms| && ms[i] == m && Wins(s, i, request, lib)
  }

  lemma ServedByCriteria(s: System, request: Request, lib: Library)
    requires CanonicalNames(request.headers)
    ensures RightlyServed(s, request, lib, Chosen(s, request, lib))
  {
    hide Matches, Meets, CanonicalNames, Listed;
    var ms := StubList(s);
    var p := (m: Mapping) => Matches(m.request, request, lib) && StateMatches(s.scenarios, m);
    forall m: Mapping ensures p(m) <==> MayServe(s, m, request, lib) { MatchesIff(m.request, request, lib); }
    ScanMeaning(ms, p);
    match Chosen(s, request, lib)
    case None =>
    case Some(m) =>
      var i :| 0 <= i < |ms| && ms[i] == m && p(m) && Foremost(ms, p, i);
      assert Wins(s, i, request, lib);
  }

  // In every run of the server each request is served by criteria.
  lemma RunServesByCriteria(states: seq<System>, actions: seq<Action>, served: seq<Option<Mapping>>, lowest: int,
                            i: nat)
    requires ServerRun(states, actions, served) && Acceptable(actions, lowest)
    requires i < |actions| && actions[i].Serve? && CanonicalNames(actions[i].request.headers)
    ensures RightlyServed(states[i], actions[i].request, actions[i].lib, served[i])
  {
    hide ServerStep, Chosen, RightlyServed, CanonicalNames, Servable, Acceptable;
    RunServesAsSpecified(states, actions, served, lowest);
    ServedByCriteria(states[i], actions[i].request, actions[i].lib);
  }

  // ---------- Which part of the URL counts ----------

  predicate UsesURI(p: RequestPattern) { p.url != "" || (p.urlPath == "" && p.urlPattern != "") }

  predicate UsesPath(p: RequestPattern) {
    p.url == "" && (p.urlPath != "" || (p.urlPattern == "" && p.urlPathPattern != ""))
  }

  // Where every stub goes by the whole URI, two requests alike in everything but their
  // path are served the same stub.
  lemma PathIgnored(s: System, request: Request, path: string, lib: Library)
    requires forall i :: 0 <= i < |StubList(s)| ==> UsesURI(StubList(s)[i].request)
    ensures Chosen(s, request, lib) == Chosen(s, request.(path := path), lib)
  {
    hide MatchQuery, MatchHeaders, MatchesMethod, BodyPatternMatches, StateMatches;
    var other := request.(path := path);
    var p := (m: Mapping) => Matches(m.request, request, lib) && StateMatches(s.scenarios, m);
    var q := (m: Mapping) => Matches(m.request, other, lib) && StateMatches(s.scenarios, m);
    SameOnStubs(StubList(s), p, q);
    assert Eligible(s, request, lib) == Filter(StubList(s), p) && Eligible(s, other, lib) == Filter(StubList(s), q);
  }

  // Where every stub goes by the path, the URI does not matter, nor the query in it.
  lemma URIIgnored(s: System, request: Request, uri: string, lib: Library)
    requires forall i :: 0 <= i < |StubList(s)| ==> UsesPath(StubList(s)[i].request)
    ensures Chosen(s, request, lib) == Chosen(s, request.(uri := uri), lib)
  {
    hide MatchQuery, MatchHeaders, MatchesMethod, BodyPatternMatches, StateMatches;
    var other := request.(uri := uri);
    var p := (m: Mapping) => Matches(m.request, request, lib) && StateMatches(s.scenarios, m);
    var q := (m: Mapping) => Matches(m.request, other, lib) && StateMatches(s.scenarios, m);
    SameOnStubs(StubList(s), p, q);
    assert Eligible(s, request, lib) == Filter(StubList(s), p) && Eligible(s, other, lib) == Filter(StubList(s), q);
  }

  lemma {:induction false} SameOnStubs(ms: seq<Mapping>, p: Mapping -> bool, q: Mapping -> bool)
    requires forall i :: 0 <= i < |ms| ==> p(ms[i]) == q(ms[i])
    ensures Filter(ms, p) == Filter(ms, q)
  {
    if |ms| != 0 { SameOnStubs(ms[..|ms| - 1], p, q); }
  }
}
