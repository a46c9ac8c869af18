// What a recorded response becomes: recordedResponse (internal/recording/store.go),
// written as JSON and read back by parseResponse (internal/mapping/model.go).
module RecordedResponse {
  import opened Wrappers
  import opened Utf8
  import opened Base64
  import Strings
  import J = JsonTree
  import JsonOrder
  import opened JsonText
  import opened JsonReader
  import opened Matching
  import opened MappingStore

  // A response as a client receives it; body is bytes.
  datatype Response = Response(status: int, headers: MultiMap, body: string)

  predicate Contains(s: string, part: string) {
    exists i :: 0 <= i <= |s| && part <= s[i..]
  }

  function ToLower(s: string): (r: string)
    ensures |r| == |s|
  {
    seq(|s|, i requires 0 <= i < |s| => LowerChar(s[i]))
  }

  predicate IsJSONResponse(r: Response, lib: Library) {
    Contains(ToLower(lib.mediaType(Get(r.headers, "Content-Type"))), "json") && lib.validJSON(r.body)
  }

  predicate IsTextBody(r: Response) {
    var contentType := ToLower(Get(r.headers, "Content-Type"));
    && ValidUTF8(r.body) && '\0' !in r.body
    && (contentType == "" || "text/" <= contentType || Contains(contentType, "json") || Contains(contentType, "xml"))
  }

  predicate IsExcludedHeader(name: string) {
    var lower := ToLower(name);
    lower == "content-length" || lower == "connection" || lower == "date" || lower == "transfer-encoding"
  }

  // The fields jsonBody, body and base64Body of a recorded response.
  datatype RecordedBody = NoBody | JsonBody(json: string) | TextBody(text: string) | Base64Body(encoded: string)

  function BodyOf(r: Response, lib: Library): (b: RecordedBody) {
    if r.body == "" then NoBody
    else if IsJSONResponse(r, lib) && lib.decode(r.body).Some? then
      JsonBody(JsonOf(lib.decode(r.body).value, lib.floatText))
    else if IsTextBody(r) then TextBody(r.body)
    else Base64Body(Encode(r.body))
  }

  // The headers a recording keeps.
  function Kept(headers: MultiMap): (r: MultiMap) {
    map name | name in headers && !IsExcludedHeader(name) && |headers[name]| > 0 :: headers[name]
  }

  function RepairAll(values: seq<string>): (r: seq<string>) {
    seq(|values|, i requires 0 <= i < |values| => Repair(values[i]))
  }

  function RepairedHeaders(headers: MultiMap): (r: MultiMap) {
    map name | name in headers :: RepairAll(headers[name])
  }

  // The stub's response; None where parsing refuses the recorded one.
  function RecordedDefinition(r: Response, lib: Library): (d: Option<ResponseDefinition>)
    ensures CanonicalNames(r.headers) && d.Some? ==> CanonicalNames(d.value.headers)
  {
    if r.status < 100 || r.status > 999 then None
    else
      var headers := RepairedHeaders(Kept(r.headers));
      match BodyOf(r, lib)
      case NoBody => Some(ResponseDefinition(r.status, headers, "", false))
      case JsonBody(json) => Some(ResponseDefinition(r.status, headers, json, true))
      case TextBody(text) => Some(ResponseDefinition(r.status, headers, Repair(text), false))
      case Base64Body(encoded) =>
        match Decode(encoded)
        case Some(body) => Some(ResponseDefinition(r.status, headers, body, false))
        case None => None
  }

  // writeStubResponse, for a response without a template. It adds every header under its
  // canonical name.
  function Replayed(d: ResponseDefinition): (r: Response)
    requires CanonicalNames(d.headers)
  {
    var headers := if d.json && Get(d.headers, "Content-Type") == ""
                   then d.headers["Content-Type" := ["application/json"]] else d.headers;
    Response(d.status, headers, d.body)
  }

  // A JSON response is never sent without a Content-Type, and nothing else is added.
  lemma JsonSaysSo(d: ResponseDefinition)
    requires CanonicalNames(d.headers)
    ensures var sent := Replayed(d).headers;
      && (d.json && Get(d.headers, "Content-Type") == "" ==> Get(sent, "Content-Type") == "application/json")
      && (!d.json || Get(d.headers, "Content-Type") != "" ==> sent == d.headers)
      && (forall name :: name != "Content-Type" ==>
            (name in sent <==> name in d.headers) && (name in sent ==> sent[name] == d.headers[name]))
  {
    CanonicalContentType();
  }

  lemma DefinedIff(r: Response, lib: Library)
    requires IsBytes(r.body)
    ensures RecordedDefinition(r, lib).Some? <==> 100 <= r.status <= 999
  {
    DecodeEncode(r.body);
  }

  predicate UTF8Values(headers: MultiMap) {
    forall name :: name in headers ==> forall i :: 0 <= i < |headers[name]| ==> ValidUTF8(headers[name][i])
  }

  lemma RepairedHeadersIff(headers: MultiMap)
    ensures RepairedHeaders(headers) == headers <==> UTF8Values(headers)
  {
    hide Repair, ValidUTF8;
    forall name | name in headers
      ensures RepairAll(headers[name]) == headers[name]
         <==> forall i :: 0 <= i < |headers[name]| ==> ValidUTF8(headers[name][i])
    {
      forall i | 0 <= i < |headers[name]|
        ensures Repair(headers[name][i]) == headers[name][i] <==> ValidUTF8(headers[name][i])
      {
        RepairKeepsIff(headers[name][i]);
      }
      if RepairAll(headers[name]) == headers[name] {
        forall i | 0 <= i < |headers[name]| ensures ValidUTF8(headers[name][i]) {
          assert RepairAll(headers[name])[i] == headers[name][i];
        }
      }
    }
  }

  // A JSON response keeps the header that made it one.
  lemma ContentTypeKept(r: Response)
    requires Get(r.headers, "Content-Type") != ""
    ensures Get(RepairedHeaders(Kept(r.headers)), "Content-Type") != ""
  {
    var key := CanonicalHeaderKey("Content-Type");
    var value := r.headers[key][0];
    RepairLength(value);
    assert ToLower(key)[3] == LowerChar(key[3]);
    CanonicalContentType();
    assert !IsExcludedHeader(key);
    assert RepairedHeaders(Kept(r.headers))[key][0] == Repair(value);
  }

  lemma CanonicalContentType()
    ensures CanonicalHeaderKey("Content-Type") == "Content-Type"
    ensures !IsExcludedHeader("Content-Type")
  {
    assert ToLower("Content-Type")[7] == '-' && |"Content-Type"| == 12;
    assert ToLower("Content-Type")[8] == 't';
  }

  // A response that says it is JSON and is.
  predicate RepliesJson(r: Response, lib: Library) {
    && Contains(ToLower(lib.mediaType(Get(r.headers, "Content-Type"))), "json")
    && r.body != "" && lib.validJSON(r.body) && lib.decode(r.body).Some?
  }

  const DROPPED := {"Content-Length", "Connection", "Date", "Transfer-Encoding"}

  // The headers come back but for the dropped and the empty ones, value by value
  // repaired.
  ghost predicate HeadersReplayed(before: MultiMap, after: MultiMap) {
    && (forall name :: name in after <==> name in before && |before[name]| > 0 && name !in DROPPED)
    && (forall name :: name in after ==>
          && |after[name]| == |before[name]|
          && forall i :: 0 <= i < |after[name]| ==> after[name][i] == Repair(before[name][i]))
  }

  lemma LowerThenUpper(c: char, d: char)
    requires LowerChar(c) == LowerChar(d)
    ensures UpperChar(c) == UpperChar(d)
  {
  }

  // A canonical name is told by its lower-case form.
  lemma LowerTells(name: string, known: string)
    requires IsToken(name) && CanonicalHeaderKey(name) == name && IsToken(known) && CanonicalHeaderKey(known) == known
    ensures ToLower(name) == ToLower(known) <==> name == known
  {
    hide CanonicalHeaderKey, IsToken, Folded;
    if ToLower(name) == ToLower(known) {
      forall i | 0 <= i < |name| ensures UpperChar(name[i]) == UpperChar(known[i]) {
        assert ToLower(name)[i] == LowerChar(name[i]) && ToLower(known)[i] == LowerChar(known[i]);
        LowerThenUpper(name[i], known[i]);
      }
      assert ToUpper(name) == ToUpper(known);
      TokenASCII(name);
      TokenASCII(known);
      FoldedASCII(name);
      FoldedASCII(known);
      CanonicalOfVariant(known, name);
    }
  }

  // word is the lower-case form of a canonical name.
  predicate LowerOf(known: string, word: string) {
    IsToken(known) && CanonicalHeaderKey(known) == known && ToLower(known) == word
  }

  lemma DroppedNames()
    ensures LowerOf("Content-Length", "content-length") && LowerOf("Connection", "connection")
    ensures LowerOf("Date", "date") && LowerOf("Transfer-Encoding", "transfer-encoding")
  {
    hide CanonicalHeaderKey, IsToken, ToLower;
    DroppedName("Content-Length", "content-length");
    DroppedName("Connection", "connection");
    DroppedName("Date", "date");
    DroppedName("Transfer-Encoding", "transfer-encoding");
  }

  lemma DroppedName(known: string, word: string)
    requires |known| > 0 && |known| == |word| && forall i :: 0 <= i < |known| ==> IsTokenChar(known[i])
    requires forall i :: 0 <= i < |known| ==> CanonicalChar(known, i) == known[i] && LowerChar(known[i]) == word[i]
    ensures LowerOf(known, word)
  {
  }

  lemma ExcludedIff(name: string)
    requires IsToken(name) && CanonicalHeaderKey(name) == name
    ensures IsExcludedHeader(name) <==> name in DROPPED
  {
    hide CanonicalHeaderKey, IsToken, ToLower;
    DroppedNames();
    LowerTells(name, "Content-Length");
    LowerTells(name, "Connection");
    LowerTells(name, "Date");
    LowerTells(name, "Transfer-Encoding");
  }

  lemma HeadersAreReplayed(headers: MultiMap)
    requires CanonicalNames(headers)
    ensures HeadersReplayed(headers, RepairedHeaders(Kept(headers)))
  {
    hide CanonicalHeaderKey, IsToken, IsExcludedHeader, DROPPED, Repair;
    forall name | name in headers ensures IsExcludedHeader(name) <==> name in DROPPED { ExcludedIff(name); }
  }

  // What a recorded response is replayed as. The status comes back. The headers do, but
  // for the dropped and the empty ones, exactly when they are UTF-8. A body that is not
  // JSON comes back byte for byte; one that is comes back as text of the same value,
  // and as the same text exactly when it is in the very form json.Marshal gives it.
  lemma ResponseReplaysIff(r: Response, lib: Library)
    requires IsBytes(r.body) && CanonicalNames(r.headers) && lib.mediaType("") == "" && DecodesJSON(lib)
    requires RecordedDefinition(r, lib).Some?
    ensures var replayed := Replayed(RecordedDefinition(r, lib).value);
      && replayed.status == r.status
      && HeadersReplayed(r.headers, replayed.headers)
      && (replayed.headers == Kept(r.headers) <==> UTF8Values(Kept(r.headers)))
      && (RepliesJson(r, lib) ==>
            ReadJson(replayed.body) == Some(J.Meaning(lib.decode(r.body).value, ByText(lib.floatText))))
      && (!RepliesJson(r, lib) ==> replayed.body == r.body)
      && (replayed.body == r.body <==> (RepliesJson(r, lib) ==> BodyOf(r, lib).json == r.body))
  {
    hide Repair, JsonOf, IsTextBody, Kept, HeadersReplayed, UTF8Values, CanonicalNames, Contains, ReadJson, J.Meaning,
      RepairedHeaders, Encode, Decode, IsBytes, J.Distinct, WritesNumbers;
    RepairedHeadersIff(Kept(r.headers));
    HeadersAreReplayed(r.headers);
    RepairKeepsIff(r.body);
    DecodeEncode(r.body);
    match BodyOf(r, lib)
    case JsonBody(_) =>
      JsonHasContentType(r, lib);
      ContentTypeKept(r);
      JsonReadsBack(lib.decode(r.body).value, lib.floatText);
    case TextBody(_) => TextIsUTF8(r);
    case _ =>
  }

  lemma JsonHasContentType(r: Response, lib: Library)
    requires IsJSONResponse(r, lib) && lib.mediaType("") == ""
    ensures Get(r.headers, "Content-Type") != ""
  {
  }

  lemma TextIsUTF8(r: Response)
    requires IsTextBody(r)
    ensures ValidUTF8(r.body)
  {
  }

  // Two recorded JSON bodies replay as one text exactly when they are one value, but
  // for the order of object entries and for numbers that are one float64.
  lemma JsonBodiesReplayAlikeIff(r: Response, q: Response, lib: Library)
    requires BodyOf(r, lib).JsonBody? && BodyOf(q, lib).JsonBody?
    requires DecodesJSON(lib)
    ensures var recorded := J.Meaning(lib.decode(r.body).value, ByText(lib.floatText));
      var other := J.Meaning(lib.decode(q.body).value, ByText(lib.floatText));
      BodyOf(r, lib).json == BodyOf(q, lib).json <==> recorded == other
  {
    hide JsonOf, J.Meaning, WritesNumbers, J.Distinct;
    SameTextIff(lib.decode(r.body).value, lib.decode(q.body).value, lib.floatText);
  }

  const EXACT := "{\"n\":9007199254740993}"
  const ROUNDED := "{\"n\":9007199254740992}"

  // A number that is no float64 is replayed as its neighbour.
  lemma LargeNumberChanges(r: Response, lib: Library)
    requires r.body == EXACT && IsJSONResponse(r, lib) && 100 <= r.status <= 999 && CanonicalNames(r.headers)
    requires lib.decode(EXACT) == Some(J.Object([J.Entry("n", J.Number("9007199254740993"))]))
    requires lib.floatText("9007199254740993") == "9007199254740992"
    ensures RecordedDefinition(r, lib).Some?
    ensures Replayed(RecordedDefinition(r, lib).value).body == ROUNDED != r.body
  {
    hide JsonOf, RepairedHeaders, Kept;
    OneEntryText("n", J.Number("9007199254740993"), lib.floatText);
    NumberEntryText(lib.floatText);
    BodiesDiffer();
  }

  lemma NumberEntryText(number: NumberText)
    requires number("9007199254740993") == "9007199254740992"
    ensures "{" + (QuoteJson("n") + (":" + JsonOf(J.Number("9007199254740993"), number))) + "}" == ROUNDED
  {
    hide QuoteJson;
    QuoteN();
    RoundedText();
  }

  lemma RoundedText()
    ensures "{" + ("\"n\"" + (":" + "9007199254740992")) + "}" == ROUNDED
  {
  }

  lemma QuoteN()
    ensures QuoteJson("n") == "\"n\""
  {
    assert "n"[1..] == "";
    assert EscapeText("n") == "n" + EscapeText("");
  }

  lemma BodiesDiffer()
    ensures ROUNDED != EXACT && EXACT != ""
  {
    assert EXACT[20] == '3' && ROUNDED[20] == '2';
  }

  lemma OneEntryText(key: string, value: J.Json, number: NumberText)
    ensures JsonOf(J.Object([J.Entry(key, value)]), number)
         == "{" + (QuoteJson(key) + (":" + JsonOf(value, number))) + "}"
  {
    hide QuoteJson;
    var entries := [J.Entry(key, value)];
    assert entries[1..] == [];
    assert TextTable([], number) == map[];
    assert JsonOrder.Keys(entries) == [key];
    assert [key][1..] == [];
    assert Strings.Sort([key]) == [key];
    assert PairTexts([key], TextTable(entries, number)) == [PairText(key, TextTable(entries, number))];
  }
}
