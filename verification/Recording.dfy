// internal/recording/store.go: observed requests become stubs, and when such a
// stub serves the request it was recorded from.
module Recording {
  import opened Wrappers
  import opened Sequences
  import opened Utf8
  import J = JsonTree
  import opened JsonText
  import opened Matching
  import opened MappingStore
  import opened Selection
  import opened ScenarioStates
  import opened Server
  import opened RecordedResponse

  // What the server knows about a received request. target is the request URI up
  // to the query, path its decoded form; strings are bytes.
  datatype Received = Received(httpMethod: string, target: string, path: string, rawQuery: string, forceQuery: bool,
                               query: MultiMap, headers: MultiMap, body: string)

  // (*url.URL).RequestURI
  function RequestURI(r: Received): (uri: string) {
    if r.forceQuery || r.rawQuery != "" then r.target + "?" + r.rawQuery else r.target
  }

  function AsRequest(r: Received): (request: Request) {
    Request(r.httpMethod, RequestURI(r), r.path, r.query, r.headers, Some(r.body))
  }

  datatype ServeEvent = ServeEvent(httpMethod: string, url: string, path: string, rawQuery: string, headers: MultiMap,
                                   body: string, response: Response)

  // newServeEvent
  function EventOf(r: Received, response: Response): (e: ServeEvent) {
    ServeEvent(r.httpMethod, RequestURI(r), r.path, r.rawQuery, r.headers, r.body, response)
  }

  datatype Spec = Spec(captureHeaders: set<string>, requestBodyPattern: string)

  // ---------- From an event to a stub ----------

  // The first value of the first header, in iteration order, with this name in any case.
  function AnyCase(headers: MultiMap, order: seq<string>, name: string): (value: string) {
    if |order| == 0 then ""
    else if order[0] in headers && EqualFold(order[0], name) && |headers[order[0]]| > 0 then headers[order[0]][0]
    else AnyCase(headers, order[1..], name)
  }

  function HeaderValue(headers: MultiMap, order: seq<string>, name: string): (value: string) {
    if Get(headers, name) != "" then Get(headers, name) else AnyCase(headers, order, name)
  }

  function CapturedRequestHeaders(headers: MultiMap, order: seq<string>, capture: set<string>)
    : (r: map<string, string>) {
    map name | name in capture && HeaderValue(headers, order, name) != "" :: HeaderValue(headers, order, name)
  }

  // Whether requestBodyPatterns writes an equalToJson pattern.
  predicate CapturesBody(body: string, spec: Spec, lib: Library) {
    body != "" && (spec.requestBodyPattern == "" || spec.requestBodyPattern == "equalToJson") && lib.validJSON(body)
  }

  // recordedRequest, written as JSON and parsed again, which repairs every string
  // that is not UTF-8 (captured names come from a JSON document and are UTF-8
  // already). The body becomes a JSON string, which equalToJson unwraps before
  // normalising; a body that cannot be decoded makes the stub invalid.
  function RecordedPattern(e: ServeEvent, order: seq<string>, spec: Spec, lib: Library): (r: Option<RequestPattern>) {
    var url := if e.rawQuery != "" then e.path + "?" + e.rawQuery else e.url;
    var urlPath := if url == "" then e.path else "";
    var headers := RepairedValues(CapturedRequestHeaders(e.headers, order, spec.captureHeaders));
    var pattern := RequestPattern(ToUpper(Repair(e.httpMethod)), Repair(url), Repair(urlPath), "", "", [], map[],
                                  headers, None);
    if !CapturesBody(e.body, spec, lib) then Some(pattern)
    else match lib.decode(Repair(e.body))
      case Some(value) => Some(pattern.(bodyPatterns := [EqualToJson(JsonOf(value, lib.numberText))]))
      case None => None
  }

  function RepairedValues(headers: map<string, string>): (r: map<string, string>) {
    map name | name in headers :: Repair(headers[name])
  }

  const DEFAULT_PRIORITY := 5

  // A recorded stub belongs to no scenario; its id is fresh.
  function RecordedStub(e: ServeEvent, order: seq<string>, spec: Spec, id: string, lib: Library): (r: Option<Mapping>) {
    match (RecordedPattern(e, order, spec, lib), RecordedDefinition(e.response, lib))
    case (Some(pattern), Some(response)) =>
      Some(Mapping(id, DEFAULT_PRIORITY, Scenario("", "", ""), pattern, response, 0))
    case _ => None
  }

  // ---------- Replay ----------

  // With canonical names the search in any case finds nothing more than Get under a
  // name that is a token.
  lemma {:induction false} AnyCaseAddsNothing(headers: MultiMap, order: seq<string>, name: string)
    requires CanonicalNames(headers) && IsToken(name) && Get(headers, name) == ""
    ensures AnyCase(headers, order, name) == ""
  {
    hide EqualFold, IsToken, CanonicalHeaderKey;
    if |order| != 0 {
      if order[0] in headers && EqualFold(order[0], name) {
        CanonicalOfVariant(order[0], name);
      }
      AnyCaseAddsNothing(headers, order[1..], name);
    }
  }

  // Under a token, what is captured was sent.
  lemma CapturedHeadersSent(headers: MultiMap, order: seq<string>, capture: set<string>)
    requires CanonicalNames(headers)
    ensures var captured := CapturedRequestHeaders(headers, order, capture);
      forall name :: name in captured && IsToken(name) ==>
        CanonicalHeaderKey(name) in headers && captured[name] in headers[CanonicalHeaderKey(name)]
  {
    hide CanonicalHeaderKey, IsToken;
    var captured := CapturedRequestHeaders(headers, order, capture);
    forall name | name in captured && IsToken(name)
      ensures CanonicalHeaderKey(name) in headers && captured[name] in headers[CanonicalHeaderKey(name)]
    {
      if Get(headers, name) == "" { AnyCaseAddsNothing(headers, order, name); }
    }
  }

  // Every header is captured under a token, and its value is UTF-8 or was also sent
  // in its repaired form. A name that is not a token can only be captured by folding
  // to the name of a sent header, as the Kelvin sign does to k.
  predicate SameHeaders(headers: MultiMap, order: seq<string>, capture: set<string>)
    requires CanonicalNames(headers)
  {
    CapturedHeadersSent(headers, order, capture);
    var captured := CapturedRequestHeaders(headers, order, capture);
    forall name :: name in captured ==>
      IsToken(name)
      && (ValidUTF8(captured[name]) || Repair(captured[name]) in headers[CanonicalHeaderKey(name)])
  }

  lemma CapturedHeadersMatchIff(headers: MultiMap, order: seq<string>, capture: set<string>)
    requires CanonicalNames(headers)
    ensures MatchHeaders(RepairedValues(CapturedRequestHeaders(headers, order, capture)), headers)
       <==> SameHeaders(headers, order, capture)
  {
    hide CapturedRequestHeaders, Repair, ValidUTF8, IsToken, CanonicalChar;
    CapturedHeadersSent(headers, order, capture);
    var captured := CapturedRequestHeaders(headers, order, capture);
    var recorded := RepairedValues(captured);
    forall name | name in captured
      ensures HeaderMatches(recorded, headers, name) <==>
        IsToken(name) && (ValidUTF8(captured[name]) || Repair(captured[name]) in headers[CanonicalHeaderKey(name)])
    {
      RepairKeepsIff(captured[name]);
      if !IsToken(name) { assert CanonicalHeaderKey(name) == name && name !in headers; }
    }
  }

  // What JSON guarantees: no text is a string literal for itself, the empty text is
  // not JSON, and decoding repairs strings as encoding does.
  ghost predicate JSONLaws(lib: Library) {
    && DecodesJSON(lib)
    && (forall s :: lib.decode(s) != Some(J.Str(s)))
    && lib.decode("") == None
    && (forall s :: lib.decode(Repair(s)) == lib.decode(s))
  }

  // What net/http and net/url deliver: a method that is a token, header names in
  // canonical form, and an escaped path, which is ASCII without question marks.
  predicate Delivered(r: Received) {
    && IsToken(r.httpMethod) && CanonicalNames(r.headers)
    && r.target != "" && IsASCII(r.target) && '?' !in r.target
  }

  // The recorded URL names the request again: always without a query, and with one
  // exactly when the path was sent as it reads and the query is UTF-8.
  predicate SameTarget(r: Received) { r.rawQuery == "" || (r.target == r.path && ValidUTF8(r.rawQuery)) }

  // The recorded body pattern accepts the body again: unless the body is a JSON
  // string or null, which matching unwraps once more than recording did.
  predicate SameBody(r: Received, spec: Spec, lib: Library) {
    !CapturesBody(r.body, spec, lib) ||
    match lib.decode(r.body)
    case Some(Str(_)) => false
    case Some(Null) => false
    case _ => true
  }

  // A request that its recorded stub matches, as RecordedStubMatchesIff shows.
  predicate Replays(r: Received, order: seq<string>, spec: Spec, lib: Library)
    requires Delivered(r)
  {
    SameTarget(r) && SameHeaders(r.headers, order, spec.captureHeaders) && SameBody(r, spec, lib)
  }

  // The path, a question mark and the query, repaired, read like the request URI
  // only if path and query are the request's own.
  lemma RepairedTarget(target: string, path: string, query: string)
    requires IsASCII(target) && '?' !in target
    ensures Repair(path + "?" + query) == target + "?" + query <==> target == path && ValidUTF8(query)
  {
    var p, q := Repair(path), Repair(query);
    SplitRepair(path, query);
    RepairLength(query);
    RepairKeepsIff(query);
    if p + "?" + q == target + "?" + query {
      SplitAtQuestion(p, q, target, query);
      ASCIIResult(path);
      ValidUnchanged(path);
    }
    if target == path && ValidUTF8(query) {
      ASCIIValid(path);
      ValidUnchanged(path);
    }
  }

  lemma SplitRepair(path: string, query: string)
    ensures Repair(path + "?" + query) == Repair(path) + "?" + Repair(query)
  {
    hide Repair;
    Regroup(path, "?", query);
    RepairConcat(path, "?" + query);
    assert Repair("?" + query) == "?" + Repair(query) by { QuestionRepair(query); }
    Regroup(Repair(path), "?", Repair(query));
  }

  lemma QuestionRepair(query: string)
    ensures Repair("?" + query) == "?" + Repair(query)
  {
    assert ("?" + query)[..1] == "?" && ("?" + query)[1..] == query;
  }

  lemma SplitAtQuestion(p: string, q: string, target: string, query: string)
    requires p + "?" + q == target + "?" + query && '?' !in target && |q| >= |query|
    ensures p == target && q == query
  {
    var left, right := p + "?" + q, target + "?" + query;
    assert left[|p|] == '?';
    forall k | 0 <= k < |target| ensures right[k] != '?' { assert right[k] == target[k]; }
    assert |p| >= |target|;
    assert left[..|p|] == p && right[..|target|] == target && left[|p| + 1..] == q && right[|target| + 1..] == query;
  }

  lemma TargetReplays(r: Received, order: seq<string>, spec: Spec, response: Response, lib: Library)
    requires Delivered(r) && RecordedPattern(EventOf(r, response), order, spec, lib).Some?
    ensures MatchesURL(RecordedPattern(EventOf(r, response), order, spec, lib).value, RequestURI(r), r.path, lib)
       <==> SameTarget(r)
  {
    hide Repair, IsToken, CanonicalNames;
    var pattern := RecordedPattern(EventOf(r, response), order, spec, lib).value;
    var url := if r.rawQuery != "" then r.path + "?" + r.rawQuery else RequestURI(r);
    assert pattern.url == Repair(url);
    RepairLength(url);
    if r.rawQuery == "" {
      ASCIIValid(url);
      ValidUnchanged(url);
    } else {
      RepairedTarget(r.target, r.path, r.rawQuery);
    }
  }

  lemma BodyReplays(body: string, lib: Library)
    requires JSONLaws(lib) && lib.decode(body).Some?
    ensures NormalizeRawJSON(body, lib) == Some(JsonOf(lib.decode(body).value, lib.numberText))
       <==> !lib.decode(body).value.Str? && !lib.decode(body).value.Null?
  {
    hide JsonOf, WritesNumbers, J.Distinct;
    match lib.decode(body).value
    case Str(text) =>
      assert lib.decode(text) != Some(J.Str(text));
      if lib.decode(text).Some? {
        SameTextIff(lib.decode(text).value, J.Str(text), lib.numberText);
        assert J.Distinct(lib.decode(body).value);
      }
    case _ =>
  }

  lemma RecordedMethodMatches(httpMethod: string, pattern: RequestPattern)
    requires IsToken(httpMethod) && pattern.httpMethod == ToUpper(Repair(httpMethod))
    ensures MatchesMethod(pattern, httpMethod)
  {
    hide IsToken, Folded, Repair, ValidUTF8, ToUpper;
    TokenASCII(httpMethod);
    ASCIIValid(httpMethod);
    ValidUnchanged(httpMethod);
    UpperFolds(httpMethod);
  }

  lemma UpperFolds(s: string)
    requires IsToken(s)
    ensures EqualFold(ToUpper(s), s) && ToUpper(s) != ""
  {
    hide Folded;
    TokenASCII(s);
    FoldedASCII(s);
    FoldedASCII(ToUpper(s));
    assert ToUpper(ToUpper(s)) == ToUpper(s);
  }

  // A recorded stub matches the request it was recorded from exactly when the
  // target, the captured headers and the captured body replay.
  lemma RecordedStubMatchesIff(r: Received, order: seq<string>, spec: Spec, id: string, response: Response,
                               lib: Library)
    requires Delivered(r) && JSONLaws(lib)
    requires RecordedStub(EventOf(r, response), order, spec, id, lib).Some?
    ensures Matches(RecordedStub(EventOf(r, response), order, spec, id, lib).value.request, AsRequest(r), lib)
       <==> Replays(r, order, spec, lib)
  {
    hide CanonicalHeaderKey, MatchHeaders, MatchesURL, NormalizeRawJSON, CapturedRequestHeaders, RepairedValues,
      SameHeaders, SameTarget, Repair, CanonicalNames, IsToken, JsonOf;
    var pattern := RecordedPattern(EventOf(r, response), order, spec, lib).value;
    TargetReplays(r, order, spec, response, lib);
    CapturedHeadersMatchIff(r.headers, order, spec.captureHeaders);
    assert MatchesMethod(pattern, r.httpMethod) by { RecordedMethodMatches(r.httpMethod, pattern); }
    if CapturesBody(r.body, spec, lib) {
      BodyReplays(r.body, lib);
      assert pattern.bodyPatterns == [EqualToJson(JsonOf(lib.decode(r.body).value, lib.numberText))];
      assert BodyPatternMatches(pattern.bodyPatterns[0], r.body, lib) <==> SameBody(r, spec, lib);
    }
  }

  // ---------- What else a recorded stub matches ----------

  // The two bodies are one JSON value; the second may also be a string that holds it.
  ghost predicate SameBodyValue(body: string, other: string, lib: Library) {
    match (lib.decode(body), lib.decode(other))
    case (Some(value), Some(Str(text))) => lib.decode(text).Some? && SameValue(value, lib.decode(text).value, lib)
    case (Some(value), Some(otherValue)) => !otherValue.Null? && SameValue(value, otherValue, lib)
    case _ => false
  }

  ghost predicate SameValue(a: J.Json, b: J.Json, lib: Library) {
    J.Meaning(a, ByText(lib.numberText)) == J.Meaning(b, ByText(lib.numberText))
  }

  // Every header of r that is captured, under a name in any case, is also sent by q.
  ghost predicate SendsCaptured(r: Received, q: Received, spec: Spec) {
    forall sent, name ::
      && sent in r.headers && |r.headers[sent]| > 0 && r.headers[sent][0] != ""
      && name in spec.captureHeaders && IsToken(name) && EqualFold(sent, name) ==>
        sent in q.headers && Repair(r.headers[sent][0]) in q.headers[sent]
  }

  // Whether the request URI has a question mark.
  predicate HasQuery(r: Received) { r.forceQuery || r.rawQuery != "" }

  lemma SameURIIff(r: Received, q: Received)
    requires Delivered(r) && Delivered(q)
    ensures RequestURI(q) == RequestURI(r)
       <==> q.target == r.target && HasQuery(q) == HasQuery(r) && q.rawQuery == r.rawQuery
  {
    hide IsToken, CanonicalNames;
    if HasQuery(r) && HasQuery(q) && RequestURI(q) == RequestURI(r) {
      if |q.rawQuery| >= |r.rawQuery| {
        SplitAtQuestion(q.target, q.rawQuery, r.target, r.rawQuery);
      } else {
        SplitAtQuestion(r.target, r.rawQuery, q.target, q.rawQuery);
      }
    }
    if HasQuery(r) != HasQuery(q) {
      assert '?' in RequestURI(r) <==> HasQuery(r) by { MarkInURI(r); }
      assert '?' in RequestURI(q) <==> HasQuery(q) by { MarkInURI(q); }
    }
  }

  lemma MarkInURI(r: Received)
    requires '?' !in r.target
    ensures '?' in RequestURI(r) <==> HasQuery(r)
  {
    if HasQuery(r) { assert RequestURI(r)[|r.target|] == '?'; }
  }

  // q is the request r again, as far as a recording of r can tell.
  ghost predicate LikeRecorded(r: Received, q: Received, spec: Spec, lib: Library) {
    && (ToUpper(r.httpMethod) == "ANY" || ToUpper(q.httpMethod) == ToUpper(r.httpMethod))
    && q.target == r.target && HasQuery(q) == HasQuery(r) && q.rawQuery == r.rawQuery
    && SendsCaptured(r, q, spec)
    && (var captured := r.body != "" && spec.requestBodyPattern in {"", "equalToJson"} && lib.validJSON(r.body);
        captured ==> SameBodyValue(r.body, q.body, lib))
  }

  // The captured headers of a request, said of the headers it sent.
  lemma CapturedAre(headers: MultiMap, order: seq<string>, capture: set<string>, name: string)
    requires CanonicalNames(headers) && name in capture && IsToken(name)
    ensures var captured := CapturedRequestHeaders(headers, order, capture);
      var key := CanonicalHeaderKey(name);
      && (name in captured <==> key in headers && |headers[key]| > 0 && headers[key][0] != "")
      && (name in captured ==> captured[name] == headers[key][0])
  {
    hide CanonicalHeaderKey, IsToken;
    if Get(headers, name) == "" { AnyCaseAddsNothing(headers, order, name); }
  }

  lemma MatchesCapturedIff(r: Received, q: Received, order: seq<string>, spec: Spec)
    requires CanonicalNames(r.headers) && CanonicalNames(q.headers)
    requires SameHeaders(r.headers, order, spec.captureHeaders)
    ensures MatchHeaders(RepairedValues(CapturedRequestHeaders(r.headers, order, spec.captureHeaders)), q.headers)
       <==> SendsCaptured(r, q, spec)
  {
    hide CapturedRequestHeaders, Repair, ValidUTF8, IsToken, CanonicalHeaderKey, EqualFold;
    var captured := CapturedRequestHeaders(r.headers, order, spec.captureHeaders);
    var recorded := RepairedValues(captured);
    forall name | name in captured ensures name in spec.captureHeaders && IsToken(name) {
      CapturedNames(r.headers, order, spec.captureHeaders, name);
    }
    if SendsCaptured(r, q, spec) {
      forall name | name in recorded ensures HeaderMatches(recorded, q.headers, name) {
        CapturedAre(r.headers, order, spec.captureHeaders, name);
        CanonicalFolds(name);
      }
    }
    if MatchHeaders(recorded, q.headers) {
      forall sent, name
        | sent in r.headers && |r.headers[sent]| > 0 && r.headers[sent][0] != ""
          && name in spec.captureHeaders && IsToken(name) && EqualFold(sent, name)
        ensures sent in q.headers && Repair(r.headers[sent][0]) in q.headers[sent]
      {
        CanonicalOfVariant(sent, name);
        CapturedAre(r.headers, order, spec.captureHeaders, name);
        assert HeaderMatches(recorded, q.headers, name);
        if sent !in q.headers { OnlyCanonical(q.headers, name); }
      }
    }
  }

  lemma CapturedNames(headers: MultiMap, order: seq<string>, capture: set<string>, name: string)
    requires name in CapturedRequestHeaders(headers, order, capture)
    ensures name in capture
  {
  }

  // A name that was sent is its own canonical form.
  lemma OnlyCanonical(headers: MultiMap, name: string)
    requires CanonicalNames(headers)
    ensures name in headers ==> CanonicalHeaderKey(name) == name
  {
  }

  // The recorded URL of a request whose target replays is its request URI.
  lemma RecordedURL(r: Received, order: seq<string>, spec: Spec, response: Response, lib: Library)
    requires Delivered(r) && SameTarget(r) && RecordedPattern(EventOf(r, response), order, spec, lib).Some?
    ensures RecordedPattern(EventOf(r, response), order, spec, lib).value.url == RequestURI(r) != ""
  {
    hide Repair, IsToken, CanonicalNames;
    var url := RequestURI(r);
    if r.rawQuery == "" {
      ASCIIValid(url);
    } else {
      RepairedTarget(r.target, r.path, r.rawQuery);
    }
    RepairKeepsIff(url);
  }

  lemma MethodMatchesIff(httpMethod: string, other: string, pattern: RequestPattern)
    requires IsToken(httpMethod) && IsToken(other) && pattern.httpMethod == ToUpper(Repair(httpMethod))
    ensures MatchesMethod(pattern, other) <==> ToUpper(httpMethod) == "ANY" || ToUpper(other) == ToUpper(httpMethod)
  {
    hide IsToken, Folded, Repair, ValidUTF8, ToUpper;
    TokenASCII(httpMethod);
    TokenASCII(other);
    ASCIIValid(httpMethod);
    ValidUnchanged(httpMethod);
    UpperFolds(httpMethod);
    FoldedASCII(httpMethod);
    FoldedASCII(other);
  }

  lemma SameBodyIff(body: string, other: string, lib: Library)
    requires JSONLaws(lib) && lib.decode(body).Some? && !lib.decode(body).value.Str? && !lib.decode(body).value.Null?
    ensures NormalizeRawJSON(other, lib) == Some(JsonOf(lib.decode(body).value, lib.numberText))
       <==> SameBodyValue(body, other, lib)
  {
    hide JsonOf, WritesNumbers, J.Distinct;
    var value, inner := lib.decode(body).value, lib.decode(Unwrapped(other, lib));
    if inner.Some? { SameTextIff(value, inner.value, lib.numberText); }
  }

  // The stub of a request that replays matches exactly the requests that are like it:
  // with its method but for case, its request URI, each captured header value, and
  // where its body was captured a body of the same JSON value. The method ANY is taken
  // for a pattern.
  lemma RecordedStubServesIff(r: Received, q: Received, order: seq<string>, spec: Spec, id: string, response: Response,
                              lib: Library)
    requires Delivered(r) && Delivered(q) && JSONLaws(lib) && Replays(r, order, spec, lib)
    requires RecordedStub(EventOf(r, response), order, spec, id, lib).Some?
    ensures Matches(RecordedStub(EventOf(r, response), order, spec, id, lib).value.request, AsRequest(q), lib)
       <==> LikeRecorded(r, q, spec, lib)
  {
    hide CanonicalHeaderKey, MatchHeaders, NormalizeRawJSON, CapturedRequestHeaders, RepairedValues, SameHeaders,
      SameTarget, Repair, CanonicalNames, IsToken, JsonOf, RequestURI, SendsCaptured, SameBodyValue, MatchesMethod;
    var pattern := RecordedPattern(EventOf(r, response), order, spec, lib).value;
    RecordedURL(r, order, spec, response, lib);
    SameURIIff(r, q);
    MatchesCapturedIff(r, q, order, spec);
    MethodMatchesIff(r.httpMethod, q.httpMethod, pattern);
    if CapturesBody(r.body, spec, lib) {
      assert pattern.bodyPatterns == [EqualToJson(JsonOf(lib.decode(r.body).value, lib.numberText))];
      SameBodyIff(r.body, q.body, lib);
      assert BodyPatternMatches(pattern.bodyPatterns[0], q.body, lib) <==> SameBodyValue(r.body, q.body, lib);
    }
  }

  // ---------- Requests that their own stubs miss ----------

  const EVERYTHING := Spec({}, "")

  // A path with an escaped space, and a query.
  lemma EscapedPathMisses(id: string, response: Response, lib: Library)
    requires JSONLaws(lib) && RecordedDefinition(response, lib).Some?
    ensures var r := Received("GET", "/%20", "/ ", "q", false, map["q" := [""]], map[], "");
      var stub := RecordedStub(EventOf(r, response), [], EVERYTHING, id, lib);
      stub.Some? && stub.value.request.url == "/ ?q" && !Matches(stub.value.request, AsRequest(r), lib)
  {
    var r := Received("GET", "/%20", "/ ", "q", false, map["q" := [""]], map[], "");
    hide Matches, RecordedStub, JSONLaws, IsASCII, Repair;
    EscapedPathText();
    PlainStub(r, id, response, lib);
  }

  lemma EscapedPathText()
    ensures IsASCII("/%20") && '?' !in "/%20"
    ensures Repair("/ " + "?" + "q") == "/ ?q"
  {
    hide Repair, ValidUTF8;
    assert "/ " + "?" + "q" == "/ ?q";
    ASCIIValid("/ ?q");
    ValidUnchanged("/ ?q");
  }

  // A query byte that is not UTF-8.
  lemma QueryByteMisses(id: string, response: Response, lib: Library)
    requires JSONLaws(lib) && RecordedDefinition(response, lib).Some?
    ensures var r := Received("GET", "/a", "/a", "q=\U{00E9}", false, map["q" := ["\U{00E9}"]], map[], "");
      var stub := RecordedStub(EventOf(r, response), [], EVERYTHING, id, lib);
      stub.Some? && !Matches(stub.value.request, AsRequest(r), lib)
  {
    var query := "q=\U{00E9}";
    var r := Received("GET", "/a", "/a", query, false, map["q" := ["\U{00E9}"]], map[], "");
    hide Matches, RecordedStub, JSONLaws;
    PlainStub(r, id, response, lib);
    assert query[1..] == "=\U{00E9}" && query[1..][1..] == "\U{00E9}";
    assert RuneSize("\U{00E9}") == 0;
    assert !ValidUTF8("\U{00E9}") && !ValidUTF8("=\U{00E9}") && !ValidUTF8(query);
  }

  lemma PlainStub(r: Received, id: string, response: Response, lib: Library)
    requires JSONLaws(lib) && RecordedDefinition(response, lib).Some?
    requires r.httpMethod == "GET" && r.headers == map[] && r.body == ""
    requires r.target != "" && IsASCII(r.target) && '?' !in r.target
    ensures Delivered(r) && RecordedStub(EventOf(r, response), [], EVERYTHING, id, lib).Some?
    ensures var stub := RecordedStub(EventOf(r, response), [], EVERYTHING, id, lib).value;
      && (Matches(stub.request, AsRequest(r), lib) <==> SameTarget(r))
      && (r.rawQuery != "" ==> stub.request.url == Repair(r.path + "?" + r.rawQuery))
  {
    hide JSONLaws, Matches;
    RecordedStubMatchesIff(r, [], EVERYTHING, id, response, lib);
  }

  // A request with the method ANY is recorded as a stub for every method.
  lemma AnyServesAll(id: string, response: Response, lib: Library)
    requires JSONLaws(lib) && RecordedDefinition(response, lib).Some?
    ensures var r := Received("ANY", "/a", "/a", "", false, map[], map[], "");
      var stub := RecordedStub(EventOf(r, response), [], EVERYTHING, id, lib);
      stub.Some? && Matches(stub.value.request, AsRequest(r.(httpMethod := "DELETE")), lib)
  {
    hide Matches, JSONLaws, RecordedDefinition, Repair;
    var r := Received("ANY", "/a", "/a", "", false, map[], map[], "");
    var q := r.(httpMethod := "DELETE");
    assert ToUpper("ANY") == "ANY";
    assert Delivered(r) && Delivered(q);
    RecordedStubServesIff(r, q, [], EVERYTHING, id, response, lib);
  }

  // A body that is the JSON value null.
  lemma NullBodyMisses(id: string, response: Response, lib: Library)
    requires JSONLaws(lib) && RecordedDefinition(response, lib).Some?
    requires lib.validJSON("null") && lib.decode("null") == Some(J.Null)
    ensures var r := Received("POST", "/a", "/a", "", false, map[], map[], "null");
      var stub := RecordedStub(EventOf(r, response), [], EVERYTHING, id, lib);
      stub.Some? && !Matches(stub.value.request, AsRequest(r), lib)
  {
    hide Matches;
    var r := Received("POST", "/a", "/a", "", false, map[], map[], "null");
    assert lib.decode(Repair("null")) == lib.decode("null");
    RecordedStubMatchesIff(r, [], EVERYTHING, id, response, lib);
  }

  // A header captured under a name with a Kelvin sign.
  lemma KelvinNameMisses(id: string, response: Response, lib: Library)
    requires JSONLaws(lib) && RecordedDefinition(response, lib).Some?
    ensures var name := "Coo" + KELVIN + "ie";
      var r := Received("GET", "/a", "/a", "", false, map[], map["Cookie" := ["v"]], "");
      var stub := RecordedStub(EventOf(r, response), ["Cookie"], Spec({name}, ""), id, lib);
      stub.Some? && name in stub.value.request.headers && !Matches(stub.value.request, AsRequest(r), lib)
  {
    hide Matches, JSONLaws, RecordedDefinition, EqualFold, IsToken, CanonicalHeaderKey, Repair, CapturedRequestHeaders;
    var name := "Coo" + KELVIN + "ie";
    var headers: MultiMap := map["Cookie" := ["v"]];
    var r := Received("GET", "/a", "/a", "", false, map[], headers, "");
    KelvinCookie();
    CookieIsCanonical();
    CookieCaptured(headers, name);
    PlainDelivered();
    RecordedStubMatchesIff(r, ["Cookie"], Spec({name}, ""), id, response, lib);
  }

  lemma PlainDelivered()
    ensures IsToken("GET") && IsASCII("/a") && '?' !in "/a"
  {
  }

  lemma CookieCaptured(headers: MultiMap, name: string)
    requires headers == map["Cookie" := ["v"]] && EqualFold("Cookie", name) && !IsToken(name) && name != "Cookie"
    ensures CapturedRequestHeaders(headers, ["Cookie"], {name}) == map[name := "v"]
  {
    hide EqualFold, IsToken;
    assert CanonicalHeaderKey(name) == name;
    assert AnyCase(headers, ["Cookie"], name) == "v";
  }

  lemma KelvinCookie()
    ensures var name := "Coo" + KELVIN + "ie";
      EqualFold("Cookie", name) && !IsToken(name) && name != "Cookie"
  {
    hide Folded;
    var name := "Coo" + KELVIN + "ie";
    KelvinFolds("Coo", "ie");
    assert "Coo" + ['K'] + "ie" == "CooKie";
    FoldedASCII("CooKie");
    FoldedASCII("Cookie");
    assert ToUpper("CooKie") == ToUpper("Cookie");
    assert name[3] == KELVIN[0] && "Cookie"[3] == 'k';
    assert !IsTokenChar(KELVIN[0]);
  }

  lemma CookieIsCanonical()
    ensures IsToken("Cookie") && CanonicalHeaderKey("Cookie") == "Cookie"
  {
  }

  // ---------- What is served after a recording ----------

  lemma {:induction false} MatchingIsEligible(ms: seq<Mapping>, m: Mapping, p: Mapping -> bool)
    requires m in ms && p(m)
    ensures |Filter(ms, p)| > 0
  {
    FilterCount(ms, p, m);
    assert multiset(ms)[m] > 0;
  }

  lemma StoredIsListed(s: System, m: Mapping)
    requires Consistent(s.stored) && m.id in s.stored.byID && s.stored.byID[m.id] == m
    ensures m in StubList(s)
  {
    StoredInOrder(s.stored);
    assert m.id in s.stored.order;
    var i :| 0 <= i < |s.stored.order| && s.stored.order[i] == m.id;
    assert StubList(s)[i] == m;
  }

  // ---------- The recording store ----------

  // The latest n events, or all where n is zero.
  function LastOf(events: seq<ServeEvent>, n: nat): (r: seq<ServeEvent>)
    ensures |r| == (if n > 0 && |events| > n then n else |events|) && r == events[|events| - |r|..]
  {
    if n > 0 && |events| > n then events[|events| - n..] else events
  }

  lemma LastOfNext(events: seq<ServeEvent>, event: ServeEvent, n: nat)
    ensures var kept := LastOf(events, n) + [event];
      LastOf(events + [event], n) == if n > 0 && |kept| > n then kept[|kept| - n..] else kept
  {
    if n > 0 && |events| >= n {
      var k := |events| - n;
      SuffixNext(events, k, event);
      SuffixNext(events, k + 1, event);
      assert (events[k..] + [event])[1..] == events[k..][1..] + [event];
      assert events[k..][1..] == events[k + 1..];
      assert LastOf(events, n) == events[k..];
    }
  }

  lemma SuffixNext(events: seq<ServeEvent>, k: nat, event: ServeEvent)
    requires k <= |events|
    ensures (events + [event])[k..] == events[k..] + [event]
  {
  }

  datatype Session = Session(spec: Spec, events: seq<ServeEvent>)

  class Store {
    var active: Option<Session>
    var serveEvents: seq<ServeEvent>
    const maxEvents: nat
    ghost var history: seq<ServeEvent>     // every event ever added
    ghost var recorded: seq<ServeEvent>    // recording events since the last Start

    ghost predicate Valid()
      reads this
    {
      && serveEvents == LastOf(history, maxEvents)
      && (active.Some? ==> active.value.events == recorded)
    }

    constructor ()
      ensures Valid() && active == None && history == [] && maxEvents == 1000
    {
      active, serveEvents, maxEvents := None, [], 1000;
      history, recorded := [], [];
    }

    // The target URL has been validated. A running recording is replaced.
    method Start(spec: Spec)
      requires Valid()
      modifies this
      ensures Valid() && active == Some(Session(spec, []))
      ensures recorded == [] && history == old(history)
    {
      active := Some(Session(spec, []));
      recorded := [];
    }

    // Ends the recording; its stubs are built from exactly the events recorded since Start.
    method Stop(orders: ServeEvent -> seq<string>, ids: nat -> string, lib: Library)
      returns (r: Result<seq<Mapping>, string>)
      requires Valid()
      modifies this
      ensures Valid() && active == None && history == old(history)
      ensures old(active).None? ==> r.Err?
      ensures old(active).Some? ==>
        match StubsOf(old(recorded), orders, old(active).value.spec, ids, lib)
        case Some(stubs) => r == Ok(stubs)
        case None => r.Err?
    {
      if active.None? {
        return Err("recording is not running");
      }
      var session := active.value;
      active := None;
      r := BuildSnapshot(session.events, orders, session.spec, ids, lib);
    }

    // Stubs for the latest events, whether or not a recording is running.
    method Snapshot(orders: ServeEvent -> seq<string>, spec: Spec, ids: nat -> string, lib: Library)
      returns (r: Result<seq<Mapping>, string>)
      requires Valid()
      ensures match StubsOf(LastOf(history, maxEvents), orders, spec, ids, lib)
              case Some(stubs) => r == Ok(stubs)
              case None => r.Err?
    {
      r := BuildSnapshot(serveEvents, orders, spec, ids, lib);
    }

    method AddEvent(event: ServeEvent, recordingEvent: bool)
      requires Valid()
      modifies this
      ensures Valid() && history == old(history) + [event]
      ensures active.Some? == old(active).Some? && (active.Some? ==> active.value.spec == old(active).value.spec)
      ensures recorded == if recordingEvent && active.Some? then old(recorded) + [event] else old(recorded)
    {
      LastOfNext(history, event, maxEvents);
      hide LastOf;
      serveEvents := serveEvents + [event];
      if maxEvents > 0 && |serveEvents| > maxEvents {
        serveEvents := serveEvents[|serveEvents| - maxEvents..];
      }
      history := history + [event];
      if recordingEvent && active.Some? {
        active := Some(Session(active.value.spec, active.value.events + [event]));
        recorded := recorded + [event];
      }
    }
  }

  // One stub for each event, in order; one invalid stub spoils the snapshot.
  function StubsOf(events: seq<ServeEvent>, orders: ServeEvent -> seq<string>, spec: Spec, ids: nat -> string,
    lib: Library)
    : (r: Option<seq<Mapping>>)
  {
    if |events| == 0 then Some([])
    else
      var n := |events| - 1;
      var last := RecordedStub(events[n], orders(events[n]), spec, ids(n), lib);
      match (StubsOf(events[..n], orders, spec, ids, lib), last)
      case (Some(stubs), Some(stub)) => Some(stubs + [stub])
      case _ => None
  }

  lemma {:induction false} SnapshotStubs(events: seq<ServeEvent>, orders: ServeEvent -> seq<string>, spec: Spec,
                                         ids: nat -> string, lib: Library)
    ensures StubsOf(events, orders, spec, ids, lib).Some?
       <==> forall i :: 0 <= i < |events| ==> RecordedStub(events[i], orders(events[i]), spec, ids(i), lib).Some?
    ensures StubsOf(events, orders, spec, ids, lib).Some? ==>
      var stubs := StubsOf(events, orders, spec, ids, lib).value;
      && |stubs| == |events|
      && forall i :: 0 <= i < |events| ==>
        Some(stubs[i]) == RecordedStub(events[i], orders(events[i]), spec, ids(i), lib)
  {
    hide RecordedStub;
    if |events| != 0 {
      var n := |events| - 1;
      SnapshotStubs(events[..n], orders, spec, ids, lib);
      assert forall i :: 0 <= i < n ==> events[..n][i] == events[i];
    }
  }

  method BuildSnapshot(events: seq<ServeEvent>, orders: ServeEvent -> seq<string>, spec: Spec, ids: nat -> string,
    lib: Library)
    returns (r: Result<seq<Mapping>, string>)
    ensures match StubsOf(events, orders, spec, ids, lib) case Some(stubs) => r == Ok(stubs) case None => r.Err?
  {
    hide RecordedStub;
    var mappings: seq<Mapping> := [];
    for i := 0 to |events|
      invariant StubsOf(events[..i], orders, spec, ids, lib) == Some(mappings)
    {
      var stub := RecordedStub(events[i], orders(events[i]), spec, ids(i), lib);
      assert events[..i + 1][..i] == events[..i];
      if stub.None? {
        SnapshotStubs(events, orders, spec, ids, lib);
        return Err("build recorded mapping");
      }
      mappings := mappings + [stub.value];
    }
    assert events[..|events|] == events;
    return Ok(mappings);
  }

  // ---------- Stopping a recording ----------

  // stopRecording: the recorded stubs become active, one after the other.
  method StopRecording(recorder: Store, admin: AdminAPI, orders: ServeEvent -> seq<string>, ids: nat -> string,
    lib: Library)
    returns (r: Result<seq<Mapping>, string>)
    requires recorder.Valid() && admin.mappings.Valid()
    modifies recorder, admin.mappings, admin.scenarios
    ensures recorder.Valid() && recorder.active == None && admin.mappings.Valid()
    ensures match old(recorder.active)
            case None => r.Err?
            case Some(session) =>
              match StubsOf(old(recorder.recorded), orders, session.spec, ids, lib)
              case Some(stubs) => r == Ok(stubs)
              case None => r.Err?
    ensures admin.Contents() ==
      if r.Ok? then RunActions(old(admin.Contents()), Posts(r.value)) else old(admin.Contents())
  {
    hide MappingStore.Consistent, MappingStore.Exact, RunActions;
    r := recorder.Stop(orders, ids, lib);
    if r.Ok? {
      admin.ActivateRecordedMappings(r.value);
    }
  }

  predicate DistinctIDs(stubs: seq<Mapping>) {
    forall i, j :: 0 <= i < j < |stubs| ==> stubs[i].id != stubs[j].id
  }

  // Stubs posted one after the other under different ids are all there at the end.
  lemma {:induction false} PostedStay(s: System, stubs: seq<Mapping>, i: nat)
    requires Consistent(s.stored) && DistinctIDs(stubs) && i < |stubs|
    ensures var r := RunActions(s, Posts(stubs));
      && Consistent(r.stored)
      && stubs[i].id in r.stored.byID
      && r.stored.byID[stubs[i].id] == stubs[i].(sequence := r.stored.byID[stubs[i].id].sequence)
    decreases |stubs|
  {
    hide Consistent, Step, RunActions;
    var n := |stubs| - 1;
    var before := RunActions(s, Posts(stubs[..n]));
    assert Posts(stubs) == Posts(stubs[..n]) + [Post(stubs[n])];
    RunThen(s, Posts(stubs[..n]), Post(stubs[n]));
    PostsKeepConsistent(s, stubs);
    PostedEntry(before, stubs[n]);
    if i < n {
      PostedStay(s, stubs[..n], i);
    }
  }

  // A post stores its stub and leaves the others.
  lemma PostedEntry(s: System, stub: Mapping)
    ensures var r := Step(s, Post(stub)).stored.byID;
      && stub.id in r && r[stub.id] == stub.(sequence := r[stub.id].sequence)
      && forall id :: id in s.stored.byID && id != stub.id ==> id in r && r[id] == s.stored.byID[id]
  {
  }

  lemma {:induction false} PostsKeepConsistent(s: System, stubs: seq<Mapping>)
    requires Consistent(s.stored)
    ensures Consistent(RunActions(s, Posts(stubs)).stored)
    decreases |stubs|
  {
    hide Consistent;
    if |stubs| != 0 {
      var n := |stubs| - 1;
      assert Posts(stubs) == Posts(stubs[..n]) + [Post(stubs[n])];
      RunThen(s, Posts(stubs[..n]), Post(stubs[n]));
      PostsKeepConsistent(s, stubs[..n]);
      CreateKeepsConsistent(RunActions(s, Posts(stubs[..n])).stored, stubs[n]);
    }
  }

  function EventsOf(received: seq<Received>, responses: nat -> Response): (events: seq<ServeEvent>) {
    seq(|received|, i requires 0 <= i < |received| => EventOf(received[i], responses(i)))
  }

  // The stubs as the store numbers them.
  function Numbered(stubs: seq<Mapping>, nextSeq: nat): (ms: seq<Mapping>) {
    seq(|stubs|, i requires 0 <= i < |stubs| => stubs[i].(sequence := nextSeq + 1 + i))
  }

  predicate Fresh(s: System, stubs: seq<Mapping>) {
    forall i :: 0 <= i < |stubs| ==> stubs[i].id !in s.stored.byID
  }

  predicate NoScenarios(stubs: seq<Mapping>) {
    forall i :: 0 <= i < |stubs| ==> stubs[i].scenario.name == ""
  }

  lemma {:induction false} ListedExtends(order: seq<string>, byID: map<string, Mapping>, id: string, m: Mapping)
    requires id !in order
    ensures Listed(order + [id], byID[id := m]) == Listed(order, byID) + [m]
    ensures Listed(order, byID[id := m]) == Listed(order, byID)
  {
    assert (order + [id])[..|order|] == order;
    ListedUnchanged(order, byID, id, m);
  }

  lemma {:induction false} ListedUnchanged(order: seq<string>, byID: map<string, Mapping>, id: string, m: Mapping)
    requires id !in order
    ensures Listed(order, byID[id := m]) == Listed(order, byID)
  {
    if |order| != 0 { ListedUnchanged(order[..|order| - 1], byID, id, m); }
  }

  function KnownIDs(s: System, stubs: seq<Mapping>): (ids: set<string>) {
    s.stored.byID.Keys + set i | 0 <= i < |stubs| :: stubs[i].id
  }

  lemma NewID(s: System, stubs: seq<Mapping>)
    requires DistinctIDs(stubs) && Fresh(s, stubs) && |stubs| > 0
    ensures var n := |stubs| - 1;
      stubs[n].id !in KnownIDs(s, stubs[..n]) && KnownIDs(s, stubs) == KnownIDs(s, stubs[..n]) + {stubs[n].id}
  {
    var n := |stubs| - 1;
    assert stubs == stubs[..n] + [stubs[n]];
    forall id ensures id in KnownIDs(s, stubs) <==> id in KnownIDs(s, stubs[..n]) + {stubs[n].id} {
      if i :| 0 <= i < |stubs| && stubs[i].id == id {
        if i < n { assert stubs[..n][i].id == id; }
      }
    }
  }

  // Posting new stubs appends them to the list and touches nothing else.
  lemma {:induction false} PostedList(s: System, stubs: seq<Mapping>)
    requires Consistent(s.stored) && DistinctIDs(stubs) && Fresh(s, stubs) && NoScenarios(stubs)
    ensures var r := RunActions(s, Posts(stubs));
      && StubList(r) == StubList(s) + Numbered(stubs, s.stored.nextSeq)
      && r.stored.nextSeq == s.stored.nextSeq + |stubs|
      && r.stored.byID.Keys == KnownIDs(s, stubs)
      && r.scenarios == s.scenarios
    decreases |stubs|
  {
    hide Consistent, Listed, StubList, Step, RunActions, KnownIDs;
    if |stubs| != 0 {
      var n := |stubs| - 1;
      var before := RunActions(s, Posts(stubs[..n]));
      assert Posts(stubs) == Posts(stubs[..n]) + [Post(stubs[n])];
      RunThen(s, Posts(stubs[..n]), Post(stubs[n]));
      PostsKeepConsistent(s, stubs[..n]);
      PostedList(s, stubs[..n]);
      NewID(s, stubs);
      PostedNew(before, stubs[n]);
      assert Numbered(stubs, s.stored.nextSeq)
          == Numbered(stubs[..n], s.stored.nextSeq) + [stubs[n].(sequence := before.stored.nextSeq + 1)];
      Regroup(StubList(s), Numbered(stubs[..n], s.stored.nextSeq), [stubs[n].(sequence := before.stored.nextSeq + 1)]);
    } else {
      NothingPosted(s);
    }
  }

  lemma NothingPosted(s: System)
    ensures RunActions(s, Posts([])) == s && StubList(s) + Numbered([], s.stored.nextSeq) == StubList(s)
    ensures KnownIDs(s, []) == s.stored.byID.Keys
  {
  }

  lemma PostedNew(s: System, stub: Mapping)
    requires Consistent(s.stored) && stub.id !in s.stored.byID && stub.scenario.name == ""
    ensures var r := Step(s, Post(stub));
      && StubList(r) == StubList(s) + [stub.(sequence := s.stored.nextSeq + 1)]
      && r.stored.nextSeq == s.stored.nextSeq + 1
      && r.stored.byID.Keys == s.stored.byID.Keys + {stub.id}
      && r.scenarios == s.scenarios
  {
    ListedExtends(s.stored.order, s.stored.byID, stub.id, Created(s.stored, stub));
  }

  lemma {:induction false} FilterConcat(a: seq<Mapping>, b: seq<Mapping>, p: Mapping -> bool)
    ensures Filter(a + b, p) == Filter(a, p) + Filter(b, p)
  {
    if |b| == 0 {
      assert a + b == a;
    } else {
      var n := |b| - 1;
      FilterConcat(a, b[..n], p);
      assert (a + b)[..|a| + n] == a + b[..n];
      Regroup(Filter(a, p), Filter(b[..n], p), if p(b[n]) then [b[n]] else []);
    }
  }

  // After new stubs without scenarios are activated, a request is served the first
  // of lowest priority among the stubs that were eligible before and those of the
  // new ones that match.
  lemma ServedAfterActivation(s: System, stubs: seq<Mapping>, request: Request, lib: Library)
    requires Consistent(s.stored) && DistinctIDs(stubs) && Fresh(s, stubs) && NoScenarios(stubs)
    ensures Chosen(RunActions(s, Posts(stubs)), request, lib) ==
      FirstLowest(Eligible(s, request, lib) + Filter(Numbered(stubs, s.stored.nextSeq), MatchedBy(request, lib)))
  {
    hide Matches, StateMatches, Consistent, RunActions, Listed;
    var s', added := RunActions(s, Posts(stubs)), Numbered(stubs, s.stored.nextSeq);
    var p := (m: Mapping) => Matches(m.request, request, lib) && StateMatches(s.scenarios, m);
    PostedList(s, stubs);
    FilterConcat(StubList(s), added, p);
    NoScenarioFilter(s, added, request, lib);
  }

  lemma {:induction false} NoScenarioFilter(s: System, ms: seq<Mapping>, request: Request, lib: Library)
    requires NoScenarios(ms)
    ensures Filter(ms, (m: Mapping) => Matches(m.request, request, lib) && StateMatches(s.scenarios, m))
         == Filter(ms, MatchedBy(request, lib))
  {
    hide Matches;
    if |ms| != 0 { NoScenarioFilter(s, ms[..|ms| - 1], request, lib); }
  }

  lemma {:induction false} FirstMatch(ms: seq<Mapping>, p: Mapping -> bool, j: nat)
    requires j < |ms| && p(ms[j]) && forall k :: 0 <= k < j ==> !p(ms[k])
    ensures |Filter(ms, p)| > 0 && Filter(ms, p)[0] == ms[j]
  {
    var n := |ms| - 1;
    if j < n {
      FirstMatch(ms[..n], p, j);
    } else {
      NoMatch(ms[..n], p);
    }
  }

  lemma {:induction false} NoMatch(ms: seq<Mapping>, p: Mapping -> bool)
    requires forall k :: 0 <= k < |ms| ==> !p(ms[k])
    ensures Filter(ms, p) == []
  {
    if |ms| != 0 { NoMatch(ms[..|ms| - 1], p); }
  }

  // Of stubs of one priority the first is chosen.
  lemma {:induction false} FirstOfOnePriority(ms: seq<Mapping>, priority: int)
    requires |ms| > 0 && forall i :: 0 <= i < |ms| ==> ms[i].priority == priority
    ensures FirstLowest(ms) == Some(ms[0])
  {
    if |ms| > 1 { FirstOfOnePriority(ms[..|ms| - 1], priority); }
  }

  predicate OnePriority(ms: seq<Mapping>) {
    forall i :: 0 <= i < |ms| ==> ms[i].priority == DEFAULT_PRIORITY
  }

  lemma FilterOnePriority(ms: seq<Mapping>, p: Mapping -> bool)
    requires OnePriority(ms)
    ensures OnePriority(Filter(ms, p))
  {
    forall i | 0 <= i < |Filter(ms, p)| ensures Filter(ms, p)[i].priority == DEFAULT_PRIORITY {
      FilteredMember(ms, p, Filter(ms, p)[i]);
    }
  }

  // With nothing eligible before, the first new stub that matches is served.
  lemma FirstNewStubServed(s: System, stubs: seq<Mapping>, request: Request, lib: Library, j: nat)
    requires Consistent(s.stored) && DistinctIDs(stubs) && Fresh(s, stubs) && NoScenarios(stubs) && OnePriority(stubs)
    requires Eligible(s, request, lib) == []
    requires j < |stubs| && Matches(stubs[j].request, request, lib)
    requires forall k :: 0 <= k < j ==> !Matches(stubs[k].request, request, lib)
    ensures Chosen(RunActions(s, Posts(stubs)), request, lib)
         == Some(stubs[j].(sequence := s.stored.nextSeq + 1 + j))
  {
    hide Matches, Eligible, Consistent, RunActions, Chosen;
    var added := Numbered(stubs, s.stored.nextSeq);
    ServedAfterActivation(s, stubs, request, lib);
    FirstMatch(added, MatchedBy(request, lib), j);
    FilterOnePriority(added, MatchedBy(request, lib));
    FirstOfOnePriority(Filter(added, MatchedBy(request, lib)), DEFAULT_PRIORITY);
    assert Eligible(s, request, lib) + Filter(added, MatchedBy(request, lib)) == Filter(added, MatchedBy(request, lib));
  }

  // What a recording of requests becomes.
  function RecordedStubs(received: seq<Received>, responses: nat -> Response, orders: ServeEvent -> seq<string>,
                         spec: Spec, ids: nat -> string, lib: Library): (stubs: Option<seq<Mapping>>)
  {
    StubsOf(EventsOf(received, responses), orders, spec, ids, lib)
  }

  lemma RecordedStubsAre(received: seq<Received>, responses: nat -> Response, orders: ServeEvent -> seq<string>,
                         spec: Spec, ids: nat -> string, lib: Library)
    requires RecordedStubs(received, responses, orders, spec, ids, lib).Some?
    ensures var stubs := RecordedStubs(received, responses, orders, spec, ids, lib).value;
      && |stubs| == |received| && NoScenarios(stubs) && OnePriority(stubs)
      && forall n :: 0 <= n < |stubs| ==>
        && stubs[n].id == ids(n) && Some(stubs[n].response) == RecordedDefinition(responses(n), lib)
        && var e := EventOf(received[n], responses(n));
           RecordedStub(e, orders(e), spec, ids(n), lib) == Some(stubs[n])
  {
    hide RecordedPattern, StubsOf;
    var events := EventsOf(received, responses);
    var stubs := StubsOf(events, orders, spec, ids, lib).value;
    SnapshotStubs(events, orders, spec, ids, lib);
    forall n | 0 <= n < |stubs|
      ensures RecordedStub(events[n], orders(events[n]), spec, ids(n), lib) == Some(stubs[n])
      ensures events[n] == EventOf(received[n], responses(n))
    {
    }
  }

  // Record and replay, end to end. After a recording of any requests is stopped, a
  // recorded request that replays is served by some stub, whatever the server held
  // before. If nothing served it before, it is served the recorded stub of the
  // first event whose stub matches it, and so that event's response: its own,
  // unless an earlier recording matches it too.
  lemma RecordedRequestsAreServed(s: System, received: seq<Received>, responses: nat -> Response,
                                  orders: ServeEvent -> seq<string>, spec: Spec, ids: nat -> string,
                                  lib: Library, i: nat)
    returns (j: nat)
    requires Consistent(s.stored) && JSONLaws(lib) && i < |received|
    requires forall m, n :: 0 <= m < n < |received| ==> ids(m) != ids(n)
    requires Delivered(received[i])
    requires var e := EventOf(received[i], responses(i)); Replays(received[i], orders(e), spec, lib)
    requires RecordedStubs(received, responses, orders, spec, ids, lib).Some?
    ensures var stubs := RecordedStubs(received, responses, orders, spec, ids, lib).value;
      var request, after := AsRequest(received[i]), RunActions(s, Posts(stubs));
      && j <= i < |stubs| && Matches(stubs[j].request, request, lib)
      && (forall k :: 0 <= k < j ==> !Matches(stubs[k].request, request, lib))
      && Chosen(after, request, lib).Some?
      && ((forall n :: 0 <= n < |received| ==> ids(n) !in s.stored.byID) && Eligible(s, request, lib) == [] ==>
            && Chosen(after, request, lib) == Some(stubs[j].(sequence := s.stored.nextSeq + 1 + j))
            && Some(Chosen(after, request, lib).value.response) == RecordedDefinition(responses(j), lib))
  {
    hide Matches, Consistent, JSONLaws, Delivered, Replays, RunActions, RecordedStub, RecordedStubs, Chosen, Eligible,
      RecordedDefinition;
    var r, request := received[i], AsRequest(received[i]);
    var e := EventOf(r, responses(i));
    var stubs := RecordedStubs(received, responses, orders, spec, ids, lib).value;
    RecordedStubsAre(received, responses, orders, spec, ids, lib);
    RecordedStubMatchesIff(r, orders(e), spec, ids(i), responses(i), lib);
    j := FirstMatching(stubs, request, lib, i);
    SomeStubServes(s, stubs, request, lib, i);
    if (forall n :: 0 <= n < |received| ==> ids(n) !in s.stored.byID) && Eligible(s, request, lib) == [] {
      FirstNewStubServed(s, stubs, request, lib, j);
    }
  }

  lemma FirstMatching(stubs: seq<Mapping>, request: Request, lib: Library, i: nat) returns (j: nat)
    requires i < |stubs| && Matches(stubs[i].request, request, lib)
    ensures j <= i && Matches(stubs[j].request, request, lib)
    ensures forall k :: 0 <= k < j ==> !Matches(stubs[k].request, request, lib)
  {
    hide Matches;
    j := 0;
    while !Matches(stubs[j].request, request, lib)
      invariant j <= i
      invariant forall k :: 0 <= k < j ==> !Matches(stubs[k].request, request, lib)
      decreases i - j
    {
      j := j + 1;
    }
  }

  lemma SomeStubServes(s: System, stubs: seq<Mapping>, request: Request, lib: Library, i: nat)
    requires Consistent(s.stored) && DistinctIDs(stubs) && NoScenarios(stubs)
    requires i < |stubs| && Matches(stubs[i].request, request, lib)
    ensures Chosen(RunActions(s, Posts(stubs)), request, lib).Some?
  {
    hide Matches, Consistent, Listed, RunActions;
    PostedStay(s, stubs, i);
    var s' := RunActions(s, Posts(stubs));
    var stored := s'.stored.byID[stubs[i].id];
    assert stored.id == stubs[i].id;
    StoredIsListed(s', stored);
    var p := (m: Mapping) => Matches(m.request, request, lib) && StateMatches(s'.scenarios, m);
    MatchingIsEligible(StubList(s'), stored, p);
    FirstLowestMeaning(Eligible(s', request, lib));
  }
}
