// Response templates: compileResponseTemplate in internal/mapping/model.go and
// the two renderers of internal/response/render.go.
module Template {
  import opened Wrappers
  import opened JsonTree
  import opened JsonPath
  import opened JsonOrder
  import opened HelperOrder
  import opened JsonPathSyntax
  import opened Sequences

  // ---------- The helper pattern ----------
  // {{ jsonPath request.body '...' }}, also with double quotes.

  // \s of Go's regular expressions.
  predicate IsRegexSpace(c: char) {
    c == ' ' || c == '\t' || c == '\n' || c == '\r' || c == '\U{000C}'
  }

  function Spaces(s: string): (n: nat)
    ensures n <= |s|
    ensures forall i :: 0 <= i < n ==> IsRegexSpace(s[i])
    ensures n < |s| ==> !IsRegexSpace(s[n])
  {
    if |s| > 0 && IsRegexSpace(s[0]) then 1 + Spaces(s[1..]) else 0
  }

  // Position after a literal at i, or after spaces from i (at least `least` of them).
  function AfterLiteral(s: string, i: nat, literal: string): (r: Option<nat>)
    ensures r.Some? ==> r.value <= |s| && i <= r.value
  {
    if i + |literal| <= |s| && s[i..i + |literal|] == literal then Some(i + |literal|) else None
  }

  function AfterSpaces(s: string, i: nat, least: nat): (r: Option<nat>)
    ensures r.Some? ==> i <= r.value <= |s|
  {
    if i <= |s| && Spaces(s[i..]) >= least then Some(i + Spaces(s[i..])) else None
  }

  function QuoteEnd(s: string, i: nat, quote: char): (r: Option<nat>)
    ensures r.Some? ==> i <= r.value < |s| && s[r.value] == quote
    ensures r.Some? ==> forall k :: i <= k < r.value ==> s[k] != quote
    decreases |s| - i
  {
    if i >= |s| then None else if s[i] == quote then Some(i) else QuoteEnd(s, i + 1, quote)
  }

  // The part before the quoted expression; its result is the quote's position.
  function HelperHead(s: string, i: nat): (r: Option<nat>)
    ensures r.Some? ==> i < r.value <= |s|
  {
    match AfterLiteral(s, i, "{{")
    case None => None
    case Some(a) => match AfterSpaces(s, a, 0)
    case None => None
    case Some(b) => match AfterLiteral(s, b, "jsonPath")
    case None => None
    case Some(c) => match AfterSpaces(s, c, 1)
    case None => None
    case Some(d) => match AfterLiteral(s, d, "request.body")
    case None => None
    case Some(e) => AfterSpaces(s, e, 1)
  }

  // The part from after the closing quote to the end of the helper.
  function HelperTail(s: string, i: nat): (r: Option<nat>)
    ensures r.Some? ==> i < r.value <= |s|
  {
    match AfterSpaces(s, i, 0)
    case None => None
    case Some(a) => AfterLiteral(s, a, "}}")
  }

  // A match of the pattern: its bounds and the bounds of the captured expression.
  datatype Span = Span(start: nat, end: nat, from: nat, to: nat)

  predicate ValidSpan(s: string, m: Span) {
    m.start < m.from <= m.to < m.end <= |s|
  }

  function MatchAt(s: string, i: nat): (r: Option<Span>)
    ensures r.Some? ==> r.value.start == i && ValidSpan(s, r.value)
  {
    match HelperHead(s, i)
    case None => None
    case Some(q) =>
      if q >= |s| || (s[q] != '\'' && s[q] != '"') then None
      else match QuoteEnd(s, q + 1, s[q])
        case None => None
        case Some(close) => match HelperTail(s, close + 1)
        case None => None
        case Some(end) => Some(Span(i, end, q + 1, close))
  }

  // FindAllSubmatchIndex: leftmost matches, each search starting where the last match ended.
  function FindAll(s: string, i: nat): (ms: seq<Span>)
    decreases |s| - i
  {
    if i >= |s| then []
    else match MatchAt(s, i)
      case Some(m) => [m] + FindAll(s, m.end)
      case None => FindAll(s, i + 1)
  }

  // Successive matches from position i on.
  predicate Chained(s: string, ms: seq<Span>, i: nat)
    decreases |ms|
  {
    |ms| == 0 || (i <= ms[0].start && ValidSpan(s, ms[0]) && MatchAt(s, ms[0].start) == Some(ms[0])
                  && Chained(s, ms[1..], ms[0].end))
  }

  lemma {:induction false} ChainedEarlier(s: string, ms: seq<Span>, i: nat, j: nat)
    requires Chained(s, ms, i) && j <= i
    ensures Chained(s, ms, j)
  {
  }

  lemma {:induction false} FindAllChained(s: string, i: nat)
    ensures Chained(s, FindAll(s, i), i)
    decreases |s| - i
  {
    hide MatchAt;
    if i < |s| {
      match MatchAt(s, i)
      case Some(m) =>
        FindAllChained(s, m.end);
        assert FindAll(s, i)[1..] == FindAll(s, m.end);
      case None =>
        FindAllChained(s, i + 1);
        ChainedEarlier(s, FindAll(s, i + 1), i + 1, i);
    }
  }

  // ---------- Matching a matched text again ----------

  lemma {:induction false} SpacesIs(s: string, n: nat)
    requires n <= |s| && (forall i :: 0 <= i < n ==> IsRegexSpace(s[i])) && (n < |s| ==> !IsRegexSpace(s[n]))
    ensures Spaces(s) == n
  {
    if n > 0 { SpacesIs(s[1..], n - 1); }
  }

  lemma SliceAgain(s: string, start: nat, end: nat, a: nat, b: nat)
    requires start <= a <= b <= end <= |s|
    ensures s[start..end][a - start..b - start] == s[a..b]
  {
    var t, u := s[start..end][a - start..b - start], s[a..b];
    assert |t| == |u|;
    forall k | 0 <= k < |u| ensures t[k] == u[k] {
      assert t[k] == s[start..end][a - start + k];
    }
  }

  lemma LiteralAgain(s: string, start: nat, end: nat, i: nat, literal: string)
    requires start <= i && end <= |s| && AfterLiteral(s, i, literal).Some?
    requires AfterLiteral(s, i, literal).value <= end
    ensures AfterLiteral(s[start..end], i - start, literal) == Some(AfterLiteral(s, i, literal).value - start)
  {
    SliceAgain(s, start, end, i, i + |literal|);
  }

  lemma SpacesAgain(s: string, start: nat, end: nat, i: nat, least: nat)
    requires start <= i && end <= |s| && AfterSpaces(s, i, least).Some?
    requires AfterSpaces(s, i, least).value < end
    ensures AfterSpaces(s[start..end], i - start, least) == Some(AfterSpaces(s, i, least).value - start)
  {
    var t, n := s[start..end], Spaces(s[i..]);
    assert t[i - start..] == s[i..end];
    forall k | 0 <= k < n ensures IsRegexSpace(s[i..end][k]) { assert s[i..end][k] == s[i..][k]; }
    assert s[i..end][n] == s[i..][n];
    SpacesIs(s[i..end], n);
  }

  lemma {:induction false} QuoteAgain(s: string, start: nat, end: nat, i: nat, quote: char)
    requires start <= i && end <= |s| && QuoteEnd(s, i, quote).Some?
    requires QuoteEnd(s, i, quote).value < end
    ensures QuoteEnd(s[start..end], i - start, quote) == Some(QuoteEnd(s, i, quote).value - start)
    decreases |s| - i
  {
    assert s[start..end][i - start] == s[i];
    if s[i] != quote { QuoteAgain(s, start, end, i + 1, quote); }
  }

  lemma HeadAgain(s: string, start: nat, end: nat)
    requires end <= |s| && HelperHead(s, start).Some? && HelperHead(s, start).value < end
    ensures HelperHead(s[start..end], 0) == Some(HelperHead(s, start).value - start)
  {
    hide AfterLiteral, AfterSpaces;
    var a := AfterLiteral(s, start, "{{").value;
    var b := AfterSpaces(s, a, 0).value;
    var c := AfterLiteral(s, b, "jsonPath").value;
    var d := AfterSpaces(s, c, 1).value;
    var e := AfterLiteral(s, d, "request.body").value;
    LiteralAgain(s, start, end, start, "{{");
    SpacesAgain(s, start, end, a, 0);
    LiteralAgain(s, start, end, b, "jsonPath");
    SpacesAgain(s, start, end, c, 1);
    LiteralAgain(s, start, end, d, "request.body");
    SpacesAgain(s, start, end, e, 1);
  }

  // The interpreter matches each replaced text a second time on its own; it finds
  // the whole text and the same expression.
  lemma MatchAgain(s: string, i: nat)
    requires MatchAt(s, i).Some?
    ensures var m := MatchAt(s, i).value;
      MatchAt(s[i..m.end], 0) == Some(Span(0, m.end - i, m.from - i, m.to - i))
  {
    hide HelperHead, AfterLiteral, AfterSpaces, QuoteEnd;
    var m := MatchAt(s, i).value;
    var q := m.from - 1;
    var afterSpaces := AfterSpaces(s, m.to + 1, 0).value;
    HeadAgain(s, i, m.end);
    assert s[i..m.end][q - i] == s[q];
    QuoteAgain(s, i, m.end, m.from, s[q]);
    assert AfterLiteral(s, afterSpaces, "}}") == Some(m.end);
    assert afterSpaces < m.end by { LiteralAdvances(s, afterSpaces, "}}"); }
    SpacesAgain(s, i, m.end, m.to + 1, 0);
    LiteralAgain(s, i, m.end, afterSpaces, "}}");
  }

  lemma LiteralAdvances(s: string, i: nat, literal: string)
    requires AfterLiteral(s, i, literal).Some? && |literal| > 0
    ensures i < AfterLiteral(s, i, literal).value
  {
  }

  // ---------- The interpreter ----------

  // What the evaluation of the n-th helper sees: the parsed request body, its objects
  // visited in an order of that evaluation's own.
  type Visits = nat -> Json

  ghost predicate Views(visits: Visits, root: Json) { forall n: nat :: SameJson(visits(n), root) }

  function ViewAt(visits: Option<Visits>, n: nat): (root: Option<Json>) {
    if visits.None? then None else Some(visits.value(n))
  }

  // What the replacement callback returns for one matched text.
  function HelperText(matched: string, root: Option<Json>, decode: JsonDecoder, float: FloatParser, text: TextOf)
    : (s: string)
  {
    match MatchAt(matched, 0)
    case None => matched
    case Some(m) =>
      match (CompileJSONPath(matched[m.from..m.to], decode), root)
      case (Ok(path), Some(json)) => OptionalText(Head(Values(path, json, float)), text)
      case _ => ""
  }

  // ReplaceAllFunc's callback.
  function Replacement(visits: Option<Visits>, decode: JsonDecoder, float: FloatParser, text: TextOf)
    : (f: (nat, string) -> string)
  {
    (n: nat, matched: string) => HelperText(matched, ViewAt(visits, n), decode, float, text)
  }

  // ReplaceAllFunc: text between matches is kept, the n-th match is replaced by f(n, match).
  function ReplaceFrom(s: string, ms: seq<Span>, i: nat, n: nat, f: (nat, string) -> string): (r: string)
    requires i <= |s| && Chained(s, ms, i)
    decreases |ms|
  {
    if |ms| == 0 then s[i..]
    else s[i..ms[0].start] + f(n, s[ms[0].start..ms[0].end]) + ReplaceFrom(s, ms[1..], ms[0].end, n + 1, f)
  }

  // renderTemplate; visits is None when the request body does not parse.
  function RenderTemplate(template: string, visits: Option<Visits>, decode: JsonDecoder, float: FloatParser,
                          text: TextOf): (r: string)
  {
    FindAllChained(template, 0);
    ReplaceFrom(template, FindAll(template, 0), 0, 0,
                Replacement(visits, decode, float, text))
  }

  // The literals and the matches partition the template: replacing every match
  // by itself gives the template back.
  lemma {:induction false} SpansPartition(s: string, ms: seq<Span>, i: nat, n: nat)
    requires i <= |s| && Chained(s, ms, i)
    ensures ReplaceFrom(s, ms, i, n, (_: nat, matched: string) => matched) == s[i..]
    decreases |ms|
  {
    hide MatchAt;
    if |ms| != 0 {
      SpansPartition(s, ms[1..], ms[0].end, n + 1);
      assert s[i..] == s[i..ms[0].start] + s[ms[0].start..ms[0].end] + s[ms[0].end..];
    }
  }

  // ---------- The compiler ----------

  datatype Segment = Literal(text: string) | Helper(path: JSONPath)

  function LiteralSegment(text: string): (segments: seq<Segment>) {
    if |text| == 0 then [] else [Literal(text)]
  }

  function CompileFrom(s: string, ms: seq<Span>, i: nat, decode: JsonDecoder): (r: Option<seq<Segment>>)
    requires i <= |s| && Chained(s, ms, i)
    decreases |ms|
  {
    if |ms| == 0 then Some(LiteralSegment(s[i..]))
    else
      match CompileJSONPath(s[ms[0].from..ms[0].to], decode)
      case Err(_) => None
      case Ok(path) =>
        match CompileFrom(s, ms[1..], ms[0].end, decode)
        case None => None
        case Some(more) => Some(LiteralSegment(s[i..ms[0].start]) + [Helper(path)] + more)
  }

  const TRANSFORMER := "response-template"

  // compileResponseTemplate; None where the source returns nil.
  function CompileResponseTemplate(body: string, transformers: seq<string>, decode: JsonDecoder)
    : (r: Option<seq<Segment>>)
  {
    if |body| == 0 || TRANSFORMER !in transformers then None
    else
      var ms := FindAll(body, 0);
      FindAllChained(body, 0);
      if |ms| == 0 then None else CompileFrom(body, ms, 0, decode)
  }

  function SegmentText(segment: Segment, root: Json, float: FloatParser, text: TextOf): (s: string) {
    match segment
    case Literal(t) => t
    case Helper(path) => OptionalText(FirstValue(path, root, float), text)
  }

  // The number of the next helper after a segment.
  function Next(n: nat, segment: Segment): (m: nat) { if segment.Helper? then n + 1 else n }

  function Helpers(segments: seq<Segment>): (n: nat) {
    if |segments| == 0 then 0 else (if segments[0].Helper? then 1 else 0) + Helpers(segments[1..])
  }

  // The text of segments of which the first helper is number n.
  function SegmentsText(segments: seq<Segment>, n: nat, visits: Visits, float: FloatParser, text: TextOf): (s: string)
    decreases |segments|
  {
    if |segments| == 0 then ""
    else SegmentText(segments[0], visits(n), float, text)
         + SegmentsText(segments[1..], Next(n, segments[0]), visits, float, text)
  }

  // renderCompiledTemplate
  function RenderCompiled(segments: seq<Segment>, visits: Option<Visits>, float: FloatParser, text: TextOf)
    : (s: string)
  {
    if visits.None? then "" else SegmentsText(segments, 0, visits.value, float, text)
  }

  // ---------- Compiled and interpreted rendering ----------

  lemma {:induction false} HelpersConcat(a: seq<Segment>, b: seq<Segment>)
    ensures Helpers(a + b) == Helpers(a) + Helpers(b)
  {
    if |a| == 0 {
      assert a + b == b;
    } else {
      HelpersConcat(a[1..], b);
      ConcatTail(a, b);
    }
  }

  lemma {:induction false} SegmentsConcat(a: seq<Segment>, b: seq<Segment>, n: nat, visits: Visits,
                                          float: FloatParser, text: TextOf)
    ensures SegmentsText(a + b, n, visits, float, text)
         == SegmentsText(a, n, visits, float, text) + SegmentsText(b, n + Helpers(a), visits, float, text)
    decreases |a|
  {
    hide SegmentText;
    if |a| == 0 {
      assert a + b == b;
      assert "" + SegmentsText(b, n, visits, float, text) == SegmentsText(b, n, visits, float, text);
    } else {
      var m, rest := Next(n, a[0]), SegmentsText(b, n + Helpers(a), visits, float, text);
      SegmentsConcat(a[1..], b, m, visits, float, text);
      assert m + Helpers(a[1..]) == n + Helpers(a);
      ConcatTail(a, b);
      Regroup(SegmentText(a[0], visits(n), float, text), SegmentsText(a[1..], m, visits, float, text), rest);
    }
  }

  // The same segments with every helper evaluated in full.
  function FullText(segments: seq<Segment>, n: nat, visits: Visits, float: FloatParser, text: TextOf): (s: string)
    decreases |segments|
  {
    if |segments| == 0 then ""
    else FullSegment(segments[0], visits(n), float, text)
         + FullText(segments[1..], Next(n, segments[0]), visits, float, text)
  }

  function FullSegment(segment: Segment, root: Json, float: FloatParser, text: TextOf): (s: string) {
    match segment
    case Literal(t) => t
    case Helper(path) => OptionalText(Head(Values(path, root, float)), text)
  }

  lemma FullHelper(before: string, path: JSONPath, more: seq<Segment>, n: nat, visits: Visits, float: FloatParser,
                   text: TextOf)
    ensures FullText(LiteralSegment(before) + [Helper(path)] + more, n, visits, float, text)
         == before + OptionalText(Head(Values(path, visits(n), float)), text)
            + FullText(more, n + 1, visits, float, text)
  {
    hide Values, OptionalText;
    var tail := [Helper(path)] + more;
    assert tail[1..] == more;
    if before == "" {
      assert LiteralSegment(before) + [Helper(path)] + more == tail;
    } else {
      var all := [Literal(before)] + tail;
      assert LiteralSegment(before) + [Helper(path)] + more == all;
      assert all[1..] == tail;
    }
  }

  lemma LiteralFull(t: string, n: nat, visits: Visits, float: FloatParser, text: TextOf)
    ensures FullText(LiteralSegment(t), n, visits, float, text) == t
  {
    assert |t| > 0 ==> LiteralSegment(t)[1..] == [];
  }

  lemma CompiledHelperText(s: string, m: Span, root: Json, decode: JsonDecoder, float: FloatParser, text: TextOf)
    requires ValidSpan(s, m) && MatchAt(s, m.start) == Some(m)
    requires CompileJSONPath(s[m.from..m.to], decode).Ok?
    ensures HelperText(s[m.start..m.end], Some(root), decode, float, text)
         == OptionalText(Head(Values(CompileJSONPath(s[m.from..m.to], decode).value, root, float)), text)
  {
    hide MatchAt, CompileJSONPath, Values;
    MatchAgain(s, m.start);
    SliceAgain(s, m.start, m.end, m.from, m.to);
  }

  lemma ReplacementIs(visits: Option<Visits>, n: nat, matched: string, decode: JsonDecoder, float: FloatParser,
                      text: TextOf)
    ensures Replacement(visits, decode, float, text)(n, matched)
         == HelperText(matched, ViewAt(visits, n), decode, float, text)
  {
    hide MatchAt, CompileJSONPath, Values, OptionalText;
  }

  // Interpreting a template that compiles is evaluating its segments in full.
  lemma {:induction false} InterpretedIsFull(s: string, ms: seq<Span>, i: nat, n: nat, visits: Visits,
                                             decode: JsonDecoder, float: FloatParser, text: TextOf)
    requires i <= |s| && Chained(s, ms, i) && CompileFrom(s, ms, i, decode).Some?
    ensures ReplaceFrom(s, ms, i, n, Replacement(Some(visits), decode, float, text))
         == FullText(CompileFrom(s, ms, i, decode).value, n, visits, float, text)
    decreases |ms|
  {
    hide MatchAt, CompileJSONPath, Values, HelperText, FullText, LiteralSegment;
    if |ms| == 0 {
      LiteralFull(s[i..], n, visits, float, text);
    } else {
      var m := ms[0];
      var path := CompileJSONPath(s[m.from..m.to], decode).value;
      var more := CompileFrom(s, ms[1..], m.end, decode).value;
      InterpretedIsFull(s, ms[1..], m.end, n + 1, visits, decode, float, text);
      CompiledHelperText(s, m, visits(n), decode, float, text);
      ReplacementIs(Some(visits), n, s[m.start..m.end], decode, float, text);
      FullHelper(s[i..m.start], path, more, n, visits, float, text);
    }
  }

  // ---------- Rendering in any order ----------

  ghost predicate AllSteady(segments: seq<Segment>, float: FloatParser, numeral: string -> bool, text: TextOf) {
    forall i :: 0 <= i < |segments| && segments[i].Helper? ==> Steady(segments[i].path, float, numeral, text)
  }

  // The two renderers write the same text for one request body, whatever the orders
  // in which the helpers of either see it.
  ghost predicate RenderersAgree(template: string, segments: seq<Segment>, decode: JsonDecoder, float: FloatParser,
                                 numeral: string -> bool, text: TextOf)
  {
    forall root: Json, visits: Visits, others: Visits ::
      Document(root, numeral) && Views(visits, root) && Views(others, root) ==>
        RenderCompiled(segments, Some(visits), float, text)
          == RenderTemplate(template, Some(others), decode, float, text)
  }

  lemma {:induction false} SteadySegments(segments: seq<Segment>, n: nat, visits: Visits, others: Visits, root: Json,
                                          float: FloatParser, numeral: string -> bool, text: TextOf)
    requires AllSteady(segments, float, numeral, text) && Document(root, numeral)
    requires Views(visits, root) && Views(others, root)
    ensures SegmentsText(segments, n, visits, float, text) == FullText(segments, n, others, float, text)
    decreases |segments|
  {
    hide Values, FirstValue, Steady, ValueOf, OptionalText;
    if |segments| != 0 {
      assert AllSteady(segments[1..], float, numeral, text);
      SteadySegments(segments[1..], Next(n, segments[0]), visits, others, root, float, numeral, text);
      if segments[0].Helper? {
        assert SameJson(visits(n), root) && SameJson(others(n), root);
        assert SameJson(visits(n), others(n)) && Document(visits(n), numeral);
        SteadyText(segments[0].path, visits(n), others(n), float, numeral, text);
      }
    }
  }

  lemma {:induction false} SameFullText(segments: seq<Segment>, n: nat, visits: Visits, others: Visits,
                                        float: FloatParser, text: TextOf)
    requires forall k :: k >= n ==> visits(k) == others(k)
    ensures FullText(segments, n, visits, float, text) == FullText(segments, n, others, float, text)
    decreases |segments|
  {
    if |segments| != 0 { SameFullText(segments[1..], Next(n, segments[0]), visits, others, float, text); }
  }

  // Where the text of one helper differs, so does the whole text.
  lemma {:induction false} OneHelperShows(segments: seq<Segment>, k: nat, n: nat, visits: Visits, others: Visits,
                                          float: FloatParser, text: TextOf)
    requires k < |segments| && segments[k].Helper?
    requires forall m :: m >= n && m != n + Helpers(segments[..k]) ==> visits(m) == others(m)
    requires var m := n + Helpers(segments[..k]);
      FullSegment(segments[k], visits(m), float, text) != FullSegment(segments[k], others(m), float, text)
    ensures FullText(segments, n, visits, float, text) != FullText(segments, n, others, float, text)
    decreases k
  {
    hide FullSegment;
    var next := Next(n, segments[0]);
    var rest := FullText(segments[1..], next, visits, float, text);
    var rest' := FullText(segments[1..], next, others, float, text);
    if k == 0 {
      SameFullText(segments[1..], next, visits, others, float, text);
      var here := FullSegment(segments[0], visits(n), float, text);
      var there := FullSegment(segments[0], others(n), float, text);
      if here + rest == there + rest { CancelRight(here, there, rest); }
    } else {
      assert segments[..k][0] == segments[0] && segments[..k][1..] == segments[1..][..k - 1];
      OneHelperShows(segments[1..], k - 1, next, visits, others, float, text);
      assert segments[0].Literal? || visits(n) == others(n);
      assert FullSegment(segments[0], visits(n), float, text) == FullSegment(segments[0], others(n), float, text) by {
        SameSegment(segments[0], visits(n), others(n), float, text);
      }
      var here := FullSegment(segments[0], visits(n), float, text);
      if here + rest == here + rest' { CancelLeft(here, rest, rest'); }
    }
  }

  lemma SameSegment(segment: Segment, a: Json, b: Json, float: FloatParser, text: TextOf)
    requires segment.Literal? || a == b
    ensures FullSegment(segment, a, float, text) == FullSegment(segment, b, float, text)
  {
  }

  lemma InterpretedText(template: string, transformers: seq<string>, visits: Visits, decode: JsonDecoder,
                        float: FloatParser, text: TextOf)
    requires CompileResponseTemplate(template, transformers, decode).Some?
    ensures RenderTemplate(template, Some(visits), decode, float, text)
         == FullText(CompileResponseTemplate(template, transformers, decode).value, 0, visits, float, text)
  {
    hide FindAll, ReplaceFrom, CompileFrom, MatchAt, FullText, HelperText;
    FindAllChained(template, 0);
    InterpretedIsFull(template, FindAll(template, 0), 0, 0, visits, decode, float, text);
  }

  // A compiled template renders as the interpreter does on every parsed request
  // body, in whatever orders either visits its objects, exactly when every helper
  // is steady.
  lemma RenderersAgreeIff(template: string, transformers: seq<string>, decode: JsonDecoder, float: FloatParser,
                          numeral: string -> bool, text: TextOf)
    requires CompileResponseTemplate(template, transformers, decode).Some? && Stringifies(text)
    ensures var segments := CompileResponseTemplate(template, transformers, decode).value;
      RenderersAgree(template, segments, decode, float, numeral, text) <==> AllSteady(segments, float, numeral, text)
  {
    hide Values, FirstValue, CompileResponseTemplate, RenderTemplate, FullText, SegmentsText, Steady, Document;
    var segments := CompileResponseTemplate(template, transformers, decode).value;
    if AllSteady(segments, float, numeral, text) {
      forall root: Json, visits: Visits, others: Visits
        | Document(root, numeral) && Views(visits, root) && Views(others, root)
        ensures RenderCompiled(segments, Some(visits), float, text)
             == RenderTemplate(template, Some(others), decode, float, text)
      {
        InterpretedText(template, transformers, others, decode, float, text);
        SteadySegments(segments, 0, visits, others, root, float, numeral, text);
      }
    } else {
      var k :| 0 <= k < |segments| && segments[k].Helper? && !Steady(segments[k].path, float, numeral, text);
      UnsteadyHelper(template, transformers, decode, float, numeral, text, k);
    }
  }

  // A helper that is not steady gives two texts for one request body.
  lemma UnsteadyHelper(template: string, transformers: seq<string>, decode: JsonDecoder, float: FloatParser,
                       numeral: string -> bool, text: TextOf, k: nat)
    requires CompileResponseTemplate(template, transformers, decode).Some? && Stringifies(text)
    requires var segments := CompileResponseTemplate(template, transformers, decode).value;
      k < |segments| && segments[k].Helper? && !Steady(segments[k].path, float, numeral, text)
    ensures var segments := CompileResponseTemplate(template, transformers, decode).value;
      !RenderersAgree(template, segments, decode, float, numeral, text)
  {
    hide CompileResponseTemplate, RenderTemplate, FullText, SegmentsText, Steady, Values, OptionalText, Document,
      Stringifies;
    var segments := CompileResponseTemplate(template, transformers, decode).value;
    var path := segments[k].path;
    var a, b := UnsteadyShows(path, float, numeral, text);
    var m := Helpers(segments[..k]);
    var visits: Visits := _ => a;
    var others: Visits := n => if n == m then b else a;
    assert FullSegment(segments[k], visits(m), float, text) != FullSegment(segments[k], others(m), float, text);
    OneHelperShows(segments, k, 0, visits, others, float, text);
    InterpretedText(template, transformers, visits, decode, float, text);
    InterpretedText(template, transformers, others, decode, float, text);
    assert Views(visits, a) && Views(others, a);
    assert RenderTemplate(template, Some(visits), decode, float, text)
        != RenderTemplate(template, Some(others), decode, float, text);
  }

  // ---------- Rendering in one order ----------

  predicate AllSafe(segments: seq<Segment>) {
    forall i :: 0 <= i < |segments| && segments[i].Helper? ==> ShortcutSafe(segments[i].path)
  }

  // Every helper sees the same view.
  function OneView(root: Json): (visits: Visits) { (_: nat) => root }

  // Evaluating in short never adds text, and loses text where a value is only found in full.
  lemma {:induction false} ShortVersusFull(segments: seq<Segment>, n: nat, visits: Visits, float: FloatParser,
                                          text: TextOf)
    ensures |SegmentsText(segments, n, visits, float, text)| <= |FullText(segments, n, visits, float, text)|
    ensures AllSafe(segments) ==>
      SegmentsText(segments, n, visits, float, text) == FullText(segments, n, visits, float, text)
    decreases |segments|
  {
    hide Values, FirstValue, ShortcutSafe;
    if |segments| != 0 {
      ShortVersusFull(segments[1..], Next(n, segments[0]), visits, float, text);
      assert AllSafe(segments) ==> AllSafe(segments[1..]);
      if segments[0].Helper? {
        ShortValue(segments[0].path, visits(n), float);
      }
    }
  }

  // The short value is the full one or missing, and never missing on a safe path.
  lemma ShortValue(path: JSONPath, root: Json, float: FloatParser)
    ensures FirstValue(path, root, float).Some? || ShortcutSafe(path)
        ==> FirstValue(path, root, float) == Head(Values(path, root, float))
  {
    hide Interchangeable;
    if path.filter.None? {
      if FirstPathValue(root, path.path).Some? { FirstIsHead(root, path.path); }
      if Interchangeable(path.path) { InterchangeableAgrees(root, path.path); }
    }
  }

  // A value found only in full makes the full text longer.
  lemma {:induction false} LostText(segments: seq<Segment>, k: nat, n: nat, root: Json, float: FloatParser,
                                   text: TextOf)
    requires k < |segments| && segments[k].Helper?
    requires FirstValue(segments[k].path, root, float) == None
    requires |OptionalText(Head(Values(segments[k].path, root, float)), text)| > 0
    ensures |SegmentsText(segments, n, OneView(root), float, text)|
          < |FullText(segments, n, OneView(root), float, text)|
    decreases k
  {
    hide Values, FirstValue, ShortcutSafe;
    var next := Next(n, segments[0]);
    if k == 0 {
      ShortVersusFull(segments[1..], next, OneView(root), float, text);
    } else {
      LostText(segments[1..], k - 1, next, root, float, text);
      if segments[0].Helper? {
        ShortValue(segments[0].path, root, float);
      }
    }
  }

  // Even when all evaluations share one order, the renderers agree on every parsed
  // request body only if no wildcard stands before the last token of a path
  // without a filter; and in one order that is enough.
  lemma OneOrderAgreesIff(template: string, transformers: seq<string>, decode: JsonDecoder, float: FloatParser,
                          text: TextOf)
    requires CompileResponseTemplate(template, transformers, decode).Some?
    requires text(StringValue("x")) != ""
    ensures var segments := CompileResponseTemplate(template, transformers, decode).value;
      AllSafe(segments) <==>
        forall root :: RenderCompiled(segments, Some(OneView(root)), float, text)
                    == RenderTemplate(template, Some(OneView(root)), decode, float, text)
  {
    hide Values, FirstValue, CompileResponseTemplate, RenderTemplate, FullText, SegmentsText;
    var segments := CompileResponseTemplate(template, transformers, decode).value;
    forall root
      ensures RenderTemplate(template, Some(OneView(root)), decode, float, text)
           == FullText(segments, 0, OneView(root), float, text)
      ensures AllSafe(segments) ==>
        RenderCompiled(segments, Some(OneView(root)), float, text)
          == RenderTemplate(template, Some(OneView(root)), decode, float, text)
    {
      InterpretedText(template, transformers, OneView(root), decode, float, text);
      ShortVersusFull(segments, 0, OneView(root), float, text);
    }
    if !AllSafe(segments) {
      var k :| 0 <= k < |segments| && segments[k].Helper? && !ShortcutSafe(segments[k].path);
      var root := UnsafeValue(segments[k].path, float);
      LostText(segments, k, 0, root, float, text);
      assert RenderCompiled(segments, Some(OneView(root)), float, text)
          != RenderTemplate(template, Some(OneView(root)), decode, float, text);
    }
  }

  lemma UnsafeValue(path: JSONPath, float: FloatParser) returns (root: Json)
    requires !ShortcutSafe(path)
    ensures FirstValue(path, root, float) == None && Head(Values(path, root, float)) == Some(Str("x"))
  {
    root := UnsafeDocument(path.path, Str("x"));
  }

  // ---------- Rendering without a parsed body ----------

  // On a request body that does not parse the compiled template renders nothing,
  // while the interpreter still writes the literal text: they agree exactly when
  // there is none.
  lemma UnparsedBodyAgreesIff(template: string, transformers: seq<string>, decode: JsonDecoder, float: FloatParser,
                              text: TextOf)
    requires CompileResponseTemplate(template, transformers, decode).Some?
    ensures var segments := CompileResponseTemplate(template, transformers, decode).value;
      (RenderCompiled(segments, None, float, text) == RenderTemplate(template, None, decode, float, text))
      <==> OnlyHelpers(segments)
  {
    hide FindAll, ReplaceFrom, CompileFrom, MatchAt, HelperText;
    FindAllChained(template, 0);
    UnparsedText(template, FindAll(template, 0), 0, 0, decode, float, text);
  }

  // x{{jsonPath request.body '$'}}
  const GREETING := "x" + ("{{" + ("jsonPath" + (" " + ("request.body" + (" " + ("'" + ("$" + ("'" + "}}"))))))))

  // A template that loses its literal text when it is compiled and the request body
  // is not JSON.
  lemma UnparsedBodyLosesText(decode: JsonDecoder, float: FloatParser, text: TextOf)
    ensures CompileResponseTemplate(GREETING, [TRANSFORMER], decode)
      == Some([Literal("x"), Helper(JSONPath([], None))])
    ensures RenderCompiled([Literal("x"), Helper(JSONPath([], None))], None, float, text) == ""
    ensures RenderTemplate(GREETING, None, decode, float, text) == "x"
  {
    hide MatchAt, HelperText;
    var m := Span(1, 30, 26, 27);
    GreetingMatches();
    assert FindAll(GREETING, 30) == [];
    assert FindAll(GREETING, 1) == [m] + [] == [m];
    assert FindAll(GREETING, 0) == [m] && [m][1..] == [];
    FindAllChained(GREETING, 0);
    RootPathCompiles(decode);
    var f := Replacement(None, decode, float, text);
    assert CompileFrom(GREETING, [], 30, decode) == Some([]);
    assert LiteralSegment("x") + [Helper(JSONPath([], None))] + [] == [Literal("x"), Helper(JSONPath([], None))];
    ReplacementIs(None, 0, GREETING[1..30], decode, float, text);
    UnparsedHelper(GREETING, m, decode, float, text);
    assert ReplaceFrom(GREETING, [], 30, 1, f) == "";
    assert ReplaceFrom(GREETING, [m], 0, 0, f) == "x" + "" + "" == "x";
  }

  lemma RootPathCompiles(decode: JsonDecoder)
    ensures CompileJSONPath("$", decode) == Ok(JSONPath([], None))
  {
    assert Index("$", "[?(") == None;
  }

  // Reading the next piece of a text.
  lemma NextPiece(s: string, i: nat, piece: string, rest: string)
    requires i <= |s| && s[i..] == piece + rest
    ensures AfterLiteral(s, i, piece) == Some(i + |piece|)
    ensures i + |piece| <= |s| && s[i + |piece|..] == rest
    ensures |piece| > 0 ==> s[i] == piece[0]
  {
    assert |piece| > 0 ==> s[i..][0] == s[i];
    assert s[i..][..|piece|] == piece && s[i..][|piece|..] == rest;
    SliceAgain(s, i, |s|, i, i + |piece|);
  }

  lemma NoSpace(s: string, i: nat)
    requires i < |s| && !IsRegexSpace(s[i])
    ensures AfterSpaces(s, i, 0) == Some(i)
  {
    assert s[i..][0] == s[i];
  }

  lemma OneSpace(s: string, i: nat)
    requires i + 1 < |s| && s[i] == ' ' && !IsRegexSpace(s[i + 1])
    ensures AfterSpaces(s, i, 1) == Some(i + 1)
  {
    SpacesIs(s[i..], 1);
  }

  lemma HeadFromSteps(s: string, i: nat, a: nat, b: nat, c: nat, d: nat, e: nat, q: nat)
    requires AfterLiteral(s, i, "{{") == Some(a) && AfterSpaces(s, a, 0) == Some(b)
    requires AfterLiteral(s, b, "jsonPath") == Some(c) && AfterSpaces(s, c, 1) == Some(d)
    requires AfterLiteral(s, d, "request.body") == Some(e) && AfterSpaces(s, e, 1) == Some(q)
    ensures HelperHead(s, i) == Some(q)
  {
    hide AfterSpaces, AfterLiteral;
  }

  // A helper as it is usually written, up to the quoted expression.
  lemma PlainHead(s: string, i: nat, r2: string, r3: string, r4: string, r5: string, r6: string)
    requires i <= |s| && s[i..] == "{{" + r2
    requires r2 == "jsonPath" + r3 && r3 == " " + r4 && r4 == "request.body" + r5 && r5 == " " + r6
    requires |r6| > 0 && r6[0] == '\''
    ensures HelperHead(s, i) == Some(i + 24) && i + 24 < |s| && s[i + 24..] == r6
  {
    hide AfterSpaces, AfterLiteral, HelperHead;
    NextPiece(s, i, "{{", r2);
    NextPiece(s, i + 2, "jsonPath", r3);
    NextPiece(s, i + 10, " ", r4);
    NextPiece(s, i + 11, "request.body", r5);
    NextPiece(s, i + 23, " ", r6);
    assert s[i + 24..][0] == s[i + 24];
    NoSpace(s, i + 2);
    OneSpace(s, i + 10);
    OneSpace(s, i + 23);
    HeadFromSteps(s, i, i + 2, i + 2, i + 10, i + 11, i + 23, i + 24);
  }

  lemma GreetingHead()
    ensures |GREETING| == 30 && GREETING[0] == 'x' && HelperHead(GREETING, 1) == Some(25)
    ensures GREETING[25..] == "'" + ("$" + ("'" + "}}"))
  {
    hide HelperHead;
    var r6 := "'" + ("$" + ("'" + "}}"));
    var r5 := " " + r6;
    var r4 := "request.body" + r5;
    var r3 := " " + r4;
    var r2 := "jsonPath" + r3;
    CancelLeft("x", GREETING[1..], "{{" + r2);
    PlainHead(GREETING, 1, r2, r3, r4, r5, r6);
  }

  lemma GreetingMatches()
    ensures |GREETING| == 30 && MatchAt(GREETING, 0) == None && MatchAt(GREETING, 1) == Some(Span(1, 30, 26, 27))
    ensures GREETING[0..1] == "x" && GREETING[26..27] == "$" && GREETING[30..] == ""
  {
    GreetingHead();
    hide AfterSpaces, AfterLiteral;
    var s, quote := GREETING, "'" + "}}";
    NextPiece(s, 25, "'", "$" + quote);
    NextPiece(s, 26, "$", quote);
    NextPiece(s, 27, "'", "}}");
    assert "}}" == "}}" + "";
    NextPiece(s, 28, "}}", "");
    NoSpace(s, 28);
    NotThere(s, 0, "{{");
    assert QuoteEnd(s, 27, '\'') == Some(27) && QuoteEnd(s, 26, '\'') == Some(27);
  }

  lemma NotThere(s: string, i: nat, literal: string)
    requires i < |s| && |literal| > 0 && s[i] != literal[0]
    ensures AfterLiteral(s, i, literal) == None
  {
  }

  predicate OnlyHelpers(segments: seq<Segment>) {
    forall i :: 0 <= i < |segments| ==> segments[i].Helper?
  }

  lemma OnlyHelpersParts(before: string, path: JSONPath, more: seq<Segment>)
    ensures OnlyHelpers(LiteralSegment(before) + [Helper(path)] + more) <==> before == "" && OnlyHelpers(more)
  {
    var head := LiteralSegment(before) + [Helper(path)];
    assert forall k :: 0 <= k < |more| ==> (head + more)[|head| + k] == more[k];
    assert before != "" ==> (head + more)[0] == Literal(before);
  }

  lemma {:induction false} UnparsedText(s: string, ms: seq<Span>, i: nat, n: nat, decode: JsonDecoder,
                                        float: FloatParser, text: TextOf)
    requires i <= |s| && Chained(s, ms, i) && CompileFrom(s, ms, i, decode).Some?
    ensures ReplaceFrom(s, ms, i, n, Replacement(None, decode, float, text)) == ""
       <==> OnlyHelpers(CompileFrom(s, ms, i, decode).value)
    decreases |ms|
  {
    hide MatchAt, CompileJSONPath, HelperText;
    if |ms| == 0 {
      assert s[i..] != "" ==> LiteralSegment(s[i..])[0] == Literal(s[i..]);
    } else {
      hide OnlyHelpers;
      var m := ms[0];
      var path := CompileJSONPath(s[m.from..m.to], decode).value;
      var more := CompileFrom(s, ms[1..], m.end, decode).value;
      UnparsedText(s, ms[1..], m.end, n + 1, decode, float, text);
      UnparsedHelper(s, m, decode, float, text);
      ReplacementIs(None, n, s[m.start..m.end], decode, float, text);
      OnlyHelpersParts(s[i..m.start], path, more);
    }
  }

  lemma UnparsedHelper(s: string, m: Span, decode: JsonDecoder, float: FloatParser, text: TextOf)
    requires ValidSpan(s, m) && MatchAt(s, m.start) == Some(m)
    ensures HelperText(s[m.start..m.end], None, decode, float, text) == ""
  {
    hide MatchAt, CompileJSONPath;
    MatchAgain(s, m.start);
  }

  // ---------- Renderer.Render on an inline body ----------

  function RenderBody(body: string, transformers: seq<string>, visits: Option<Visits>, decode: JsonDecoder,
                      float: FloatParser, text: TextOf): (r: string)
  {
    if TRANSFORMER !in transformers || |body| == 0 then body
    else match CompileResponseTemplate(body, transformers, decode)
      case Some(segments) => RenderCompiled(segments, visits, float, text)
      case None => RenderTemplate(body, visits, decode, float, text)
  }

  // Whether or not a body compiled, a parsed request body renders it as the
  // interpreter would on any view of that request body, provided its helpers are
  // steady; a body without helpers is served as it is, whatever the request.
  lemma BodyRendersAsInterpreted(body: string, transformers: seq<string>, visits: Visits, others: Visits, root: Json,
                                 decode: JsonDecoder, float: FloatParser, numeral: string -> bool, text: TextOf)
    requires TRANSFORMER in transformers && Document(root, numeral)
    requires Views(visits, root) && Views(others, root)
    ensures
      match CompileResponseTemplate(body, transformers, decode)
      case Some(segments) => AllSteady(segments, float, numeral, text) ==>
        RenderBody(body, transformers, Some(visits), decode, float, text)
          == RenderTemplate(body, Some(others), decode, float, text)
      case None =>
        RenderBody(body, transformers, Some(visits), decode, float, text)
          == RenderTemplate(body, Some(visits), decode, float, text)
    ensures FindAll(body, 0) == [] ==>
      RenderBody(body, transformers, Some(visits), decode, float, text)
        == RenderBody(body, transformers, None, decode, float, text) == body
  {
    hide Values, FirstValue, MatchAt;
    var compiled := CompileResponseTemplate(body, transformers, decode);
    if compiled.Some? && AllSteady(compiled.value, float, numeral, text) {
      InterpretedText(body, transformers, others, decode, float, text);
      SteadySegments(compiled.value, 0, visits, others, root, float, numeral, text);
    }
  }

  // ---------- The loops of the source ----------

  ghost function Extend(done: seq<Segment>, rest: Option<seq<Segment>>): (r: Option<seq<Segment>>) {
    match rest case Some(more) => Some(done + more) case None => None
  }

  // Whether the path of a helper panics before any other fails to compile.
  predicate PanicsFrom(s: string, ms: seq<Span>, i: nat, decode: JsonDecoder)
    requires i <= |s| && Chained(s, ms, i)
    decreases |ms|
  {
    |ms| != 0 &&
    match CompileJSONPath(s[ms[0].from..ms[0].to], decode)
    case Err(e) => e == LiteralPanic
    case Ok(_) => PanicsFrom(s, ms[1..], ms[0].end, decode)
  }

  predicate CompilePanics(body: string, transformers: seq<string>, decode: JsonDecoder) {
    FindAllChained(body, 0);
    |body| != 0 && TRANSFORMER in transformers && PanicsFrom(body, FindAll(body, 0), 0, decode)
  }

  // What one match adds to the segments compiled so far.
  lemma CompileOne(s: string, ms: seq<Span>, i: nat, decode: JsonDecoder, done: seq<Segment>)
    requires i <= |s| && |ms| > 0 && Chained(s, ms, i)
    ensures i <= ms[0].start <= ms[0].from <= ms[0].to <= ms[0].end <= |s| && Chained(s, ms[1..], ms[0].end)
    ensures Extend(done, CompileFrom(s, ms, i, decode)) ==
      match CompileJSONPath(s[ms[0].from..ms[0].to], decode)
      case Err(_) => None
      case Ok(path) =>
        Extend(done + (if ms[0].start > i then [Literal(s[i..ms[0].start])] else []) + [Helper(path)],
               CompileFrom(s, ms[1..], ms[0].end, decode))
  {
    hide CompileJSONPath, MatchAt;
    var m := ms[0];
    var rest := CompileFrom(s, ms[1..], m.end, decode);
    var compiled := CompileJSONPath(s[m.from..m.to], decode);
    if compiled.Ok? && rest.Some? {
      var before, helper := LiteralSegment(s[i..m.start]), [Helper(compiled.value)];
      Regroup(done, before, helper);
      Regroup(done, before + helper, rest.value);
    }
  }

  lemma CompileRest(s: string, i: nat, decode: JsonDecoder)
    requires i <= |s|
    ensures Chained(s, [], i) && CompileFrom(s, [], i, decode) == Some(if i < |s| then [Literal(s[i..])] else [])
  {
  }

  // compileResponseTemplate's loop over the matches.
  method CompileLoop(body: string, transformers: seq<string>, decode: JsonDecoder)
    returns (r: Option<seq<Segment>>, panics: bool)
    ensures panics <==> CompilePanics(body, transformers, decode)
    ensures !panics ==> r == CompileResponseTemplate(body, transformers, decode)
  {
    hide MatchAt, CompileJSONPath;
    FindAllChained(body, 0);
    if |body| == 0 || TRANSFORMER !in transformers {
      return None, false;
    }
    var matches := FindAll(body, 0);
    if |matches| == 0 {
      return None, false;
    }
    var segments: seq<Segment> := [];
    var offset: nat := 0;
    ghost var whole, panicking := CompileFrom(body, matches, 0, decode), PanicsFrom(body, matches, 0, decode);
    assert whole.Some? ==> [] + whole.value == whole.value;
    hide CompileFrom, LiteralSegment, Chained;
    for n := 0 to |matches|
      invariant offset <= |body| && Chained(body, matches[n..], offset)
      invariant whole == Extend(segments, CompileFrom(body, matches[n..], offset, decode))
      invariant panicking == PanicsFrom(body, matches[n..], offset, decode)
    {
      var m := matches[n];
      assert matches[n..][0] == m && matches[n..][1..] == matches[n + 1..];
      CompileOne(body, matches[n..], offset, decode, segments);
      assert segments + [] == segments;
      if m.start > offset {
        segments := segments + [Literal(body[offset..m.start])];
      }
      var compiled := CompileJSONPath(body[m.from..m.to], decode);
      if compiled.Err? {
        return None, compiled.error == LiteralPanic;
      }
      segments := segments + [Helper(compiled.value)];
      offset := m.end;
    }
    assert matches[|matches|..] == [] && segments + [] == segments;
    CompileRest(body, offset, decode);
    if offset < |body| {
      segments := segments + [Literal(body[offset..])];
    }
    return Some(segments), false;
  }

  lemma SegmentsNext(segments: seq<Segment>, n: nat, visits: Visits, float: FloatParser, text: TextOf)
    requires n < |segments|
    ensures SegmentsText(segments[..n + 1], 0, visits, float, text)
         == SegmentsText(segments[..n], 0, visits, float, text)
            + SegmentText(segments[n], visits(Helpers(segments[..n])), float, text)
    ensures Helpers(segments[..n + 1]) == Next(Helpers(segments[..n]), segments[n])
  {
    hide SegmentText;
    SegmentsConcat(segments[..n], [segments[n]], 0, visits, float, text);
    HelpersConcat(segments[..n], [segments[n]]);
    assert segments[..n + 1] == segments[..n] + [segments[n]];
    assert [segments[n]][1..] == [];
  }

  // renderCompiledTemplate's loop over the segments.
  method RenderCompiledLoop(segments: seq<Segment>, visits: Option<Visits>, float: FloatParser, text: TextOf)
    returns (rendered: string)
    ensures rendered == RenderCompiled(segments, visits, float, text)
  {
    if visits.None? {
      return "";
    }
    rendered := "";
    var helpers: nat := 0;
    assert segments[..0] == [];
    assert SegmentsText([], 0, visits.value, float, text) == "";
    hide FirstValue, SegmentsText, Helpers;
    for n := 0 to |segments|
      invariant rendered == SegmentsText(segments[..n], 0, visits.value, float, text)
      invariant helpers == Helpers(segments[..n])
    {
      SegmentsNext(segments, n, visits.value, float, text);
      match segments[n] {
        case Literal(t) => rendered := rendered + t;
        case Helper(path) =>
          var value := FirstValueLoop(path, visits.value(helpers), float);
          helpers := helpers + 1;
          if value.Some? {
            rendered := rendered + text(ValueOf(value.value));
          }
      }
    }
    assert segments[..|segments|] == segments;
  }
}
