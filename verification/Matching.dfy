// RequestPattern.MatchesLazy and the matchers it calls (internal/mapping/model.go,
// internal/matcher/request.go).
module Matching {
  import opened Wrappers
  import opened Utf8
  import opened JsonTree
  import opened JsonPath
  import opened JsonText

  // ---------- Method names and header names ----------

  function UpperChar(c: char): (r: char) {
    if 'a' <= c <= 'z' then c - 'a' + 'A' else c
  }

  function LowerChar(c: char): (r: char) {
    if 'A' <= c <= 'Z' then c - 'A' + 'a' else c
  }

  function ToUpper(s: string): (r: string)
    ensures |r| == |s| && forall i :: 0 <= i < |s| ==> r[i] == UpperChar(s[i])
  {
    seq(|s|, i requires 0 <= i < |s| => UpperChar(s[i]))
  }

  // The letters outside ASCII that fold to ASCII letters, in UTF-8: the Kelvin sign
  // U+212A to k, and the long s U+017F to s.
  const KELVIN := ['\U{00E2}', '\U{0084}', '\U{00AA}']
  const LONG_S := ['\U{00C5}', '\U{00BF}']

  // The first letter folded to upper case where it folds to ASCII, and its length.
  function FoldLetter(s: string): (r: (char, nat))
    requires |s| > 0
    ensures 0 < r.1 <= |s|
  {
    if KELVIN <= s then ('K', 3) else if LONG_S <= s then ('S', 2) else (UpperChar(s[0]), 1)
  }

  function Folded(s: string): (r: string) {
    if |s| == 0 then "" else [FoldLetter(s).0] + Folded(s[FoldLetter(s).1..])
  }

  // strings.EqualFold, where at least one of the texts is ASCII.
  predicate EqualFold(s: string, t: string) { Folded(s) == Folded(t) }

  lemma FoldedFirst(s: string)
    requires |s| > 0 && s[0] < '\U{0080}'
    ensures Folded(s) == [UpperChar(s[0])] + Folded(s[1..])
  {
    hide Folded;
    PlainLetter(s);
    FoldedUnfolds(s);
  }

  lemma PlainLetter(s: string)
    requires |s| > 0 && s[0] < '\U{0080}'
    ensures FoldLetter(s) == (UpperChar(s[0]), 1)
  {
    assert s[0] != KELVIN[0] && s[0] != LONG_S[0];
  }

  lemma FoldedUnfolds(s: string)
    requires |s| > 0
    ensures Folded(s) == [FoldLetter(s).0] + Folded(s[FoldLetter(s).1..])
  {
    hide FoldLetter;
  }

  lemma {:induction false} FoldedPrefix(s: string, t: string)
    requires IsASCII(s)
    ensures Folded(s + t) == ToUpper(s) + Folded(t)
  {
    hide Folded;
    if |s| == 0 {
      assert s + t == t && ToUpper(s) == "";
    } else {
      FoldedPrefix(s[1..], t);
      FoldedFirst(s + t);
      assert (s + t)[1..] == s[1..] + t;
      assert ToUpper(s) == [UpperChar(s[0])] + ToUpper(s[1..]);
    }
  }

  lemma FoldedASCII(s: string)
    requires IsASCII(s)
    ensures Folded(s) == ToUpper(s)
  {
    hide ToUpper;
    FoldedPrefix(s, "");
    assert s + "" == s && ToUpper(s) + "" == ToUpper(s);
  }

  // A Kelvin sign between ASCII letters folds to K.
  lemma KelvinFolds(s: string, t: string)
    requires IsASCII(s) && IsASCII(t)
    ensures EqualFold(s + ['K'] + t, s + KELVIN + t)
  {
    hide Folded;
    FoldedPrefix(s, KELVIN + t);
    KelvinFirst(t);
    FoldedPrefix(s, ['K'] + t);
    FoldedFirst(['K'] + t);
    assert (['K'] + t)[1..] == t;
    assert s + KELVIN + t == s + (KELVIN + t) && s + ['K'] + t == s + (['K'] + t);
  }

  // A long s between ASCII letters folds to S.
  lemma LongSFolds(s: string, t: string)
    requires IsASCII(s) && IsASCII(t)
    ensures EqualFold(s + ['S'] + t, s + LONG_S + t)
  {
    hide Folded;
    FoldedPrefix(s, LONG_S + t);
    LongSFirst(t);
    FoldedPrefix(s, ['S'] + t);
    FoldedFirst(['S'] + t);
    assert (['S'] + t)[1..] == t;
    assert s + LONG_S + t == s + (LONG_S + t) && s + ['S'] + t == s + (['S'] + t);
  }

  lemma LongSFirst(t: string)
    ensures Folded(LONG_S + t) == ['S'] + Folded(t)
  {
    assert (LONG_S + t)[..2] == LONG_S && (LONG_S + t)[2..] == t && (LONG_S + t)[0] != KELVIN[0];
  }

  lemma KelvinFirst(t: string)
    ensures Folded(KELVIN + t) == ['K'] + Folded(t)
  {
    assert (KELVIN + t)[..3] == KELVIN && (KELVIN + t)[3..] == t;
  }

  lemma TokenASCII(s: string)
    requires IsToken(s)
    ensures IsASCII(s)
  {
    forall i | 0 <= i < |s| ensures s[i] < '\U{0080}' { assert IsTokenChar(s[i]); }
  }

  predicate IsTokenChar(c: char) {
    || 'a' <= c <= 'z' || 'A' <= c <= 'Z' || '0' <= c <= '9'
    || c == '!' || c == '#' || c == '$' || c == '%' || c == '&' || c == '\'' || c == '*' || c == '+'
    || c == '-' || c == '.' || c == '^' || c == '_' || c == '`' || c == '|' || c == '~'
  }

  predicate IsToken(s: string) {
    |s| > 0 && forall i :: 0 <= i < |s| ==> IsTokenChar(s[i])
  }

  function CanonicalChar(s: string, i: nat): (c: char)
    requires i < |s|
  {
    if i == 0 || s[i - 1] == '-' then UpperChar(s[i]) else LowerChar(s[i])
  }

  // http.CanonicalHeaderKey: names that are not tokens are left alone.
  function CanonicalHeaderKey(s: string): (r: string)
    ensures |r| == |s|
  {
    if IsToken(s) then seq(|s|, i requires 0 <= i < |s| => CanonicalChar(s, i)) else s
  }

  lemma CaseVariants(c: char, d: char)
    requires UpperChar(c) == UpperChar(d)
    ensures IsTokenChar(c) == IsTokenChar(d) && LowerChar(c) == LowerChar(d) && (c == '-' <==> d == '-')
  {
  }

  // A token equal to a canonical name up to case has it as its canonical form.
  lemma CanonicalOfVariant(name: string, other: string)
    requires EqualFold(name, other) && IsToken(name) && IsToken(other) && CanonicalHeaderKey(name) == name
    ensures CanonicalHeaderKey(other) == name
  {
    SameLetters(name, other);
    hide IsTokenChar, EqualFold;
    forall i | 0 <= i < |name| ensures CanonicalChar(other, i) == CanonicalChar(name, i) {
      CaseVariants(name[i], other[i]);
      if i > 0 { CaseVariants(name[i - 1], other[i - 1]); }
    }
    assert CanonicalHeaderKey(other) == CanonicalHeaderKey(name);
  }

  lemma SameLetters(s: string, t: string)
    requires IsToken(s) && IsToken(t) && EqualFold(s, t)
    ensures |s| == |t| && forall i :: 0 <= i < |s| ==> UpperChar(s[i]) == UpperChar(t[i])
  {
    TokenASCII(s);
    TokenASCII(t);
    FoldedASCII(s);
    FoldedASCII(t);
    forall i | 0 <= i < |s| ensures UpperChar(s[i]) == UpperChar(t[i]) {
      assert ToUpper(s)[i] == ToUpper(t)[i];
    }
  }

  // A token and its canonical form are equal but for case.
  lemma CanonicalFolds(name: string)
    requires IsToken(name)
    ensures EqualFold(CanonicalHeaderKey(name), name)
  {
    hide Folded;
    var key := CanonicalHeaderKey(name);
    TokenASCII(name);
    forall i | 0 <= i < |name| ensures key[i] < '\U{0080}' && UpperChar(key[i]) == UpperChar(name[i]) {
      assert key[i] == CanonicalChar(name, i);
      assert name[i] < '\U{0080}';
    }
    FoldedASCII(name);
    FoldedASCII(key);
    assert ToUpper(key) == ToUpper(name);
  }

  // ---------- Requests and patterns ----------

  type MultiMap = map<string, seq<string>>

  // Header names as net/http delivers them.
  predicate CanonicalNames(headers: MultiMap) {
    forall name :: name in headers ==> IsToken(name) && CanonicalHeaderKey(name) == name
  }

  // headers.Get
  function Get(headers: MultiMap, name: string): (value: string) {
    var key := CanonicalHeaderKey(name);
    if key in headers && |headers[key]| > 0 then headers[key][0] else ""
  }

  // uri is the request URI, path its decoded path; body is None when reading it failed.
  datatype Request = Request(httpMethod: string, uri: string, path: string, query: MultiMap, headers: MultiMap,
                             body: Option<string>)

  datatype BodyPattern =
    | MatchesJsonPath(path: JSONPath, absent: bool)
    | EqualToJson(expected: string)

  datatype RequestPattern = RequestPattern(
    httpMethod: string, url: string, urlPath: string, urlPattern: string, urlPathPattern: string,
    bodyPatterns: seq<BodyPattern>, query: map<string, string>, headers: map<string, string>,
    customMatcher: Option<string>)

  // Libraries the source calls: regular expressions, JSON validation, JSON decoding
  // (of a whole text, and of the first value of a text), the text json.Marshal writes
  // for a number literal after normalising it, and for the float64 it reads as, the
  // media type of a Content-Type header, float parsing, and the custom matcher.
  datatype Library = Library(
    fullMatch: (string, string) -> bool,
    validJSON: string -> bool,
    decode: string -> Option<Json>,
    decodeFirst: string -> Option<Json>,
    numberText: NumberText,
    floatText: NumberText,
    mediaType: string -> string,
    float: FloatParser,
    custom: (string, string) -> bool)

  // A text that is a JSON string stands for the text inside it; null decodes into
  // an empty string.
  function Unwrapped(raw: string, lib: Library): (inner: string) {
    match lib.decode(raw)
    case Some(Str(text)) => text
    case Some(Null) => ""
    case _ => raw
  }

  // normalizeRawJSON
  function NormalizeRawJSON(raw: string, lib: Library): (r: Option<string>) {
    match lib.decode(Unwrapped(raw, lib))
    case Some(value) => Some(JsonOf(value, lib.numberText))
    case None => None
  }

  // What holds of JSON decoding and number formatting.
  ghost predicate DecodesJSON(lib: Library) {
    && WritesNumbers(lib.numberText) && WritesNumbers(lib.floatText)
    && (forall s :: lib.decode(s).Some? ==> Distinct(lib.decode(s).value))
  }

  // Two texts of one JSON value, but for the order of object entries and the spelling
  // of numbers.
  ghost predicate SameJSONText(raw: string, other: string, lib: Library) {
    var value, otherValue := lib.decode(Unwrapped(raw, lib)), lib.decode(Unwrapped(other, lib));
    && value.Some? && otherValue.Some?
    && Meaning(value.value, ByText(lib.numberText)) == Meaning(otherValue.value, ByText(lib.numberText))
  }

  lemma NormalizedIff(raw: string, other: string, lib: Library)
    requires DecodesJSON(lib) && NormalizeRawJSON(other, lib).Some?
    ensures NormalizeRawJSON(raw, lib) == NormalizeRawJSON(other, lib) <==> SameJSONText(raw, other, lib)
  {
    hide JsonOf, WritesNumbers, Distinct;
    var value, otherValue := lib.decode(Unwrapped(raw, lib)), lib.decode(Unwrapped(other, lib));
    if value.Some? { SameTextIff(value.value, otherValue.value, lib.numberText); }
  }

  // An equalToJson pattern accepts exactly the bodies whose value is the expected one.
  lemma EqualToJsonIff(expectedRaw: string, raw: string, lib: Library)
    requires DecodesJSON(lib) && NormalizeRawJSON(expectedRaw, lib).Some?
    ensures BodyPatternMatches(EqualToJson(NormalizeRawJSON(expectedRaw, lib).value), raw, lib)
       <==> SameJSONText(raw, expectedRaw, lib)
  {
    NormalizedIff(raw, expectedRaw, lib);
  }

  predicate BodyPatternMatches(p: BodyPattern, raw: string, lib: Library) {
    match p
    case MatchesJsonPath(path, absent) =>
      (match lib.decodeFirst(raw)
       case Some(json) => (|Values(path, json, lib.float)| > 0) != absent
       case None => false)
    case EqualToJson(expected) => NormalizeRawJSON(raw, lib) == Some(expected)
  }

  predicate MatchQuery(patterns: map<string, string>, query: MultiMap) {
    forall name :: name in patterns ==> name in query && patterns[name] in query[name]
  }

  predicate HeaderMatches(patterns: map<string, string>, headers: MultiMap, name: string)
    requires name in patterns
  {
    var key := CanonicalHeaderKey(name);
    if key in headers then patterns[name] in headers[key]
    else name in headers && patterns[name] in headers[name]
  }

  predicate MatchHeaders(patterns: map<string, string>, headers: MultiMap) {
    forall name :: name in patterns ==> HeaderMatches(patterns, headers, name)
  }

  predicate RequiresBody(p: RequestPattern) { |p.bodyPatterns| > 0 || p.customMatcher.Some? }

  predicate MatchesMethod(p: RequestPattern, httpMethod: string) {
    if p.httpMethod == "ANY" then true
    else if p.httpMethod == "" then false
    else EqualFold(p.httpMethod, httpMethod)
  }

  predicate MatchesURL(p: RequestPattern, uri: string, path: string, lib: Library) {
    if p.url != "" then uri == p.url
    else if p.urlPath != "" then path == p.urlPath
    else if p.urlPattern != "" then lib.fullMatch(p.urlPattern, uri)
    else if p.urlPathPattern != "" then lib.fullMatch(p.urlPathPattern, path)
    else false
  }

  predicate Matches(p: RequestPattern, request: Request, lib: Library) {
    && MatchesMethod(p, request.httpMethod)
    && MatchesURL(p, request.uri, request.path, lib)
    && MatchQuery(p.query, request.query)
    && MatchHeaders(p.headers, request.headers)
    && (RequiresBody(p) ==>
          && request.body.Some?
          && (forall i :: 0 <= i < |p.bodyPatterns| ==> BodyPatternMatches(p.bodyPatterns[i], request.body.value, lib))
          && (p.customMatcher.Some? ==> lib.custom(p.customMatcher.value, request.body.value)))
  }
}
