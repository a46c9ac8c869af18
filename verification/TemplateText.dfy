// How response templates are written, as text and helpers, and what rendering them
// writes: the text as it stands and the value of each helper in its place.
module TemplateText {
  import opened Wrappers
  import opened Sequences
  import opened JsonTree
  import opened JsonPath
  import opened HelperOrder
  import opened JsonPathSyntax
  import opened Template

  // A stretch of text, or a helper with its expression, its quotes, and the white space
  // in its four gaps.
  datatype Piece =
    | Text(text: string)
    | Call(expression: string, quote: char, gap0: string, gap1: string, gap2: string, gap3: string)

  predicate AllSpaces(s: string) { forall k :: 0 <= k < |s| ==> IsRegexSpace(s[k]) }

  predicate ValidCall(p: Piece) {
    && p.Call? && (p.quote == '\'' || p.quote == '"') && p.quote !in p.expression
    && AllSpaces(p.gap0) && AllSpaces(p.gap1) && AllSpaces(p.gap2) && AllSpaces(p.gap3)
    && |p.gap1| > 0 && |p.gap2| > 0
  }

  // A helper up to its opening quote.
  function HeadText(p: Piece): (s: string)
    requires p.Call?
  {
    "{{" + (p.gap0 + ("jsonPath" + (p.gap1 + ("request.body" + p.gap2))))
  }

  function TailText(p: Piece): (s: string)
    requires p.Call?
  {
    p.gap3 + "}}"
  }

  function PieceText(p: Piece): (s: string) {
    match p
    case Text(text) => text
    case Call(_, _, _, _, _, _) => HeadText(p) + ([p.quote] + (p.expression + ([p.quote] + TailText(p))))
  }

  function PiecesText(ps: seq<Piece>): (s: string) {
    if |ps| == 0 then "" else PieceText(ps[0]) + PiecesText(ps[1..])
  }

  ghost predicate StartsCall(s: string) { exists call :: ValidCall(call) && PieceText(call) <= s }

  // No helper starts inside a stretch of text.
  ghost predicate ValidPieces(ps: seq<Piece>) {
    |ps| == 0 ||
    (ValidPieces(ps[1..]) &&
     match ps[0]
     case Text(text) => forall k :: 0 <= k < |text| ==> !StartsCall(text[k..] + PiecesText(ps[1..]))
     case Call(_, _, _, _, _, _) => ValidCall(ps[0]))
  }

  // ---------- The helper pattern matches exactly the helpers ----------

  lemma LiteralAt(before: string, literal: string, after: string)
    ensures AfterLiteral(before + (literal + after), |before|, literal) == Some(|before| + |literal|)
  {
    var s := before + (literal + after);
    assert s[|before|..] == literal + after;
    assert s[|before|..|before| + |literal|] == literal;
  }

  lemma SpacesAt(before: string, gap: string, after: string, least: nat)
    requires AllSpaces(gap) && |gap| >= least && |after| > 0 && !IsRegexSpace(after[0])
    ensures AfterSpaces(before + (gap + after), |before|, least) == Some(|before| + |gap|)
  {
    var s := before + (gap + after);
    assert s[|before|..] == gap + after;
    SpacesIs(gap + after, |gap|);
  }

  lemma {:induction false} QuoteAt(before: string, text: string, quote: char, after: string)
    requires quote !in text
    ensures QuoteEnd(before + (text + ([quote] + after)), |before|, quote) == Some(|before| + |text|)
    decreases |text|
  {
    var s := before + (text + ([quote] + after));
    if |text| == 0 {
      assert s[|before|] == quote;
    } else {
      assert s[|before|] == text[0];
      QuoteAt(before + [text[0]], text[1..], quote, after);
      assert (before + [text[0]]) + (text[1..] + ([quote] + after)) == s;
    }
  }

  lemma HeadMatches(before: string, p: Piece, after: string)
    requires ValidCall(p) && |after| > 0 && after[0] == p.quote
    ensures HelperHead(before + (HeadText(p) + after), |before|) == Some(|before| + |HeadText(p)|)
  {
    hide AfterLiteral, AfterSpaces, AllSpaces;
    var s := before + (HeadText(p) + after);
    var s5 := p.gap2 + after;
    var s4 := "request.body" + s5;
    var s3 := p.gap1 + s4;
    var s2 := "jsonPath" + s3;
    var s1 := p.gap0 + s2;
    assert HeadText(p) + after == "{{" + s1;
    var b1 := before + "{{";
    var b2 := b1 + p.gap0;
    var b3 := b2 + "jsonPath";
    var b4 := b3 + p.gap1;
    var b5 := b4 + "request.body";
    assert s == before + ("{{" + s1) == b1 + s1 == b2 + s2 == b3 + s3 == b4 + s4 == b5 + s5;
    assert !IsRegexSpace(s2[0]) && !IsRegexSpace(s4[0]) && !IsRegexSpace(after[0]);
    LiteralAt(before, "{{", s1);
    SpacesAt(b1, p.gap0, s2, 0);
    LiteralAt(b2, "jsonPath", s3);
    SpacesAt(b3, p.gap1, s4, 1);
    LiteralAt(b4, "request.body", s5);
    SpacesAt(b5, p.gap2, after, 1);
  }

  lemma TailMatches(before: string, p: Piece, after: string)
    requires ValidCall(p)
    ensures HelperTail(before + (TailText(p) + after), |before|) == Some(|before| + |TailText(p)|)
  {
    hide AfterLiteral, AfterSpaces, AllSpaces;
    var close := "}}" + after;
    assert TailText(p) + after == p.gap3 + close && !IsRegexSpace(close[0]);
    SpacesAt(before, p.gap3, close, 0);
    LiteralAt(before + p.gap3, "}}", after);
    assert before + (p.gap3 + close) == (before + p.gap3) + close;
  }

  // The match of a helper that starts at a position.
  function SpanOf(p: Piece, at: nat): (m: Span)
    requires p.Call?
  {
    var from := at + |HeadText(p)| + 1;
    Span(at, at + |PieceText(p)|, from, from + |p.expression|)
  }

  // The text of a helper seen from each of its parts.
  lemma CallLayout(before: string, p: Piece, after: string)
    requires p.Call?
    ensures var s, head, tail := before + (PieceText(p) + after), HeadText(p), TailText(p) + after;
      var rest := [p.quote] + tail;
      var b1 := before + head + [p.quote];
      var b2 := b1 + p.expression + [p.quote];
      && s == before + (head + ([p.quote] + (p.expression + rest)))
      && s == b1 + (p.expression + rest) && s == b2 + tail
      && |b2| + |TailText(p)| == |before| + |PieceText(p)|
  {
    hide HeadText, TailText;
    var head, tail := HeadText(p), TailText(p) + after;
    var rest := [p.quote] + tail;
    assert PieceText(p) + after == head + ([p.quote] + (p.expression + rest));
  }

  lemma Slice(before: string, middle: string, after: string)
    ensures (before + (middle + after))[|before|..|before| + |middle|] == middle
  {
    assert (before + (middle + after))[|before|..] == middle + after;
  }

  lemma CallMatches(before: string, p: Piece, after: string)
    requires ValidCall(p)
    ensures var s := before + (PieceText(p) + after);
      var m := SpanOf(p, |before|);
      MatchAt(s, |before|) == Some(m) && s[m.start..m.end] == PieceText(p) && s[m.from..m.to] == p.expression
  {
    hide HelperHead, HelperTail, QuoteEnd, HeadText, TailText, PieceText;
    var head, s, tail := HeadText(p), before + (PieceText(p) + after), TailText(p) + after;
    var rest := [p.quote] + tail;
    var b1 := before + head + [p.quote];
    CallLayout(before, p, after);
    HeadMatches(before, p, [p.quote] + (p.expression + rest));
    QuoteAt(b1, p.expression, p.quote, tail);
    TailMatches(b1 + p.expression + [p.quote], p, after);
    assert s[|before| + |head|] == b1[|before| + |head|] == p.quote;
    Slice(b1, p.expression, rest);
    Slice(before, PieceText(p), after);
  }

  lemma SpacesFound(s: string, i: nat, least: nat)
    requires AfterSpaces(s, i, least).Some?
    ensures var j := AfterSpaces(s, i, least).value; AllSpaces(s[i..j]) && |s[i..j]| >= least
  {
    var n := Spaces(s[i..]);
    var gap := s[i..i + n];
    forall k | 0 <= k < n ensures IsRegexSpace(gap[k]) { assert gap[k] == s[i..][k]; }
  }

  lemma LiteralFound(s: string, i: nat, literal: string)
    requires AfterLiteral(s, i, literal).Some?
    ensures i <= AfterLiteral(s, i, literal).value <= |s| && s[i..AfterLiteral(s, i, literal).value] == literal
  {
  }

  lemma HeadFound(s: string, i: nat) returns (gap0: string, gap1: string, gap2: string)
    requires HelperHead(s, i).Some?
    ensures AllSpaces(gap0) && AllSpaces(gap1) && AllSpaces(gap2) && |gap1| > 0 && |gap2| > 0
    ensures s[i..HelperHead(s, i).value] == "{{" + (gap0 + ("jsonPath" + (gap1 + ("request.body" + gap2))))
  {
    hide AfterSpaces, AllSpaces, AfterLiteral;
    var a := AfterLiteral(s, i, "{{").value;
    var b := AfterSpaces(s, a, 0).value;
    var c := AfterLiteral(s, b, "jsonPath").value;
    var d := AfterSpaces(s, c, 1).value;
    var e := AfterLiteral(s, d, "request.body").value;
    var f := AfterSpaces(s, e, 1).value;
    LiteralFound(s, i, "{{");
    LiteralFound(s, b, "jsonPath");
    LiteralFound(s, d, "request.body");
    SpacesFound(s, a, 0);
    SpacesFound(s, c, 1);
    SpacesFound(s, e, 1);
    gap0, gap1, gap2 := s[a..b], s[c..d], s[e..f];
    SixParts(s, i, a, b, c, d, e, f);
  }

  lemma SixParts(s: string, i: nat, a: nat, b: nat, c: nat, d: nat, e: nat, f: nat)
    requires i <= a <= b <= c <= d <= e <= f <= |s|
    ensures s[i..f] == s[i..a] + (s[a..b] + (s[b..c] + (s[c..d] + (s[d..e] + s[e..f]))))
  {
    SliceParts(s, i, a, f);
    SliceParts(s, a, b, f);
    SliceParts(s, b, c, f);
    SliceParts(s, c, d, f);
    SliceParts(s, d, e, f);
  }

  // The parts of a match from its opening quote on.
  lemma TailFound(s: string, i: nat) returns (gap3: string)
    requires MatchAt(s, i).Some?
    ensures var m := MatchAt(s, i).value;
      && HelperHead(s, i) == Some(m.from - 1) && i <= m.from - 1
      && (s[m.from - 1] == '\'' || s[m.from - 1] == '"') && s[m.from - 1] !in s[m.from..m.to]
      && AllSpaces(gap3) && s[m.to] == s[m.from - 1] && s[m.to + 1..m.end] == gap3 + "}}"
  {
    hide HelperHead, AfterSpaces, AfterLiteral, AllSpaces, QuoteEnd;
    var m := MatchAt(s, i).value;
    var tail := AfterSpaces(s, m.to + 1, 0).value;
    gap3 := s[m.to + 1..tail];
    SpacesFound(s, m.to + 1, 0);
    LiteralFound(s, tail, "}}");
    SliceParts(s, m.to + 1, tail, m.end);
    NotQuoted(s, m.from, m.to, s[m.from - 1]);
  }

  // Whatever the pattern matches is a helper.
  lemma MatchedCall(s: string, i: nat) returns (p: Piece)
    requires MatchAt(s, i).Some?
    ensures var m := MatchAt(s, i).value;
      ValidCall(p) && s[i..m.end] == PieceText(p) && s[m.from..m.to] == p.expression
  {
    hide MatchAt, HelperHead, AllSpaces;
    var m := MatchAt(s, i).value;
    var q := m.from - 1;
    var gap3 := TailFound(s, i);
    var gap0, gap1, gap2 := HeadFound(s, i);
    p := Call(s[m.from..m.to], s[q], gap0, gap1, gap2, gap3);
    QuotedParts(s, i, q, m.to, m.end);
  }

  lemma QuotedParts(s: string, i: nat, q: nat, to: nat, end: nat)
    requires i <= q < to < end <= |s|
    ensures s[i..end] == s[i..q] + ([s[q]] + (s[q + 1..to] + ([s[to]] + s[to + 1..end])))
  {
    SliceParts(s, i, q, end);
    SliceParts(s, q, q + 1, end);
    SliceParts(s, q + 1, to, end);
    SliceParts(s, to, to + 1, end);
    assert s[q..q + 1] == [s[q]] && s[to..to + 1] == [s[to]];
  }

  lemma NotQuoted(s: string, from: nat, to: nat, quote: char)
    requires from <= to <= |s| && forall k :: from <= k < to ==> s[k] != quote
    ensures quote !in s[from..to]
  {
  }

  // The helper pattern matches at a position exactly where a helper starts there.
  lemma MatchIff(s: string, i: nat)
    requires i <= |s|
    ensures MatchAt(s, i).Some? <==> StartsCall(s[i..])
  {
    hide MatchAt, ValidCall, PieceText;
    if MatchAt(s, i).Some? {
      var p := MatchedCall(s, i);
      var m := MatchAt(s, i).value;
      assert s[i..m.end] <= s[i..] by { assert s[i..][..m.end - i] == s[i..m.end]; }
    }
    if StartsCall(s[i..]) {
      var p :| ValidCall(p) && PieceText(p) <= s[i..];
      var after := s[i..][|PieceText(p)|..];
      assert s == s[..i] + (PieceText(p) + after);
      CallMatches(s[..i], p, after);
    }
  }

  // ---------- The helpers of a template ----------

  function Spans(ps: seq<Piece>, at: nat): (ms: seq<Span>) {
    if |ps| == 0 then []
    else (if ps[0].Call? then [SpanOf(ps[0], at)] else []) + Spans(ps[1..], at + |PieceText(ps[0])|)
  }

  lemma {:induction false} SkipText(s: string, i: nat, j: nat)
    requires i <= j <= |s| && forall k :: i <= k < j ==> MatchAt(s, k).None?
    ensures FindAll(s, i) == FindAll(s, j)
    decreases j - i
  {
    hide MatchAt;
    if i < j { SkipText(s, i + 1, j); }
  }

  // The search finds every helper and nothing else.
  lemma {:induction false} FindsHelpers(done: string, ps: seq<Piece>)
    requires ValidPieces(ps)
    ensures FindAll(done + PiecesText(ps), |done|) == Spans(ps, |done|)
    decreases |ps|
  {
    hide MatchAt, ValidCall, PieceText, SpanOf, StartsCall;
    var s := done + PiecesText(ps);
    if |ps| == 0 {
      assert |s| == |done|;
    } else {
      var rest, here := PiecesText(ps[1..]), done + PieceText(ps[0]);
      FindsHelpers(here, ps[1..]);
      assert here + rest == s;
      match ps[0] {
        case Text(text) =>
          TextHasNone(done, text, rest);
          assert [] + Spans(ps[1..], |here|) == Spans(ps[1..], |here|);
          SkipText(s, |done|, |here|);
        case Call(_, _, _, _, _, _) =>
          assert s == done + (PieceText(ps[0]) + rest);
          CallMatches(done, ps[0], rest);
          SpanEnds(ps[0], |done|);
      }
    }
  }

  lemma SpanEnds(p: Piece, at: nat)
    requires p.Call?
    ensures SpanOf(p, at).start == at && SpanOf(p, at).end == at + |PieceText(p)| > at
  {
  }

  lemma TextHasNone(done: string, text: string, rest: string)
    requires forall k :: 0 <= k < |text| ==> !StartsCall(text[k..] + rest)
    ensures PieceText(Text(text)) == text
    ensures forall k :: |done| <= k < |done| + |text| ==> MatchAt(done + (text + rest), k).None?
    ensures done + text + rest == done + (text + rest)
  {
    hide MatchAt, StartsCall;
    var s := done + (text + rest);
    forall k | |done| <= k < |done| + |text| ensures MatchAt(s, k).None? {
      assert s[k..] == text[k - |done|..] + rest;
      MatchIff(s, k);
    }
  }

  // ---------- What the renderers write ----------

  // The value of a helper: nothing if its expression does not compile, the request body
  // does not parse, or no value is found.
  function CallValue(expression: string, root: Option<Json>, decode: JsonDecoder, float: FloatParser, text: TextOf)
    : (s: string)
  {
    match (CompileJSONPath(expression, decode), root)
    case (Ok(path), Some(json)) => OptionalText(Head(Values(path, json, float)), text)
    case _ => ""
  }

  // Text as it stands, and helpers by their values; n is the number of the first helper.
  function Written(ps: seq<Piece>, n: nat, visits: Option<Visits>, decode: JsonDecoder, float: FloatParser,
                   text: TextOf): (s: string)
    decreases |ps|
  {
    if |ps| == 0 then ""
    else match ps[0]
      case Text(t) => t + Written(ps[1..], n, visits, decode, float, text)
      case Call(expression, _, _, _, _, _) =>
        CallValue(expression, ViewAt(visits, n), decode, float, text)
        + Written(ps[1..], n + 1, visits, decode, float, text)
  }

  lemma HelperTextIs(p: Piece, root: Option<Json>, decode: JsonDecoder, float: FloatParser, text: TextOf)
    requires ValidCall(p)
    ensures HelperText(PieceText(p), root, decode, float, text) == CallValue(p.expression, root, decode, float, text)
  {
    hide MatchAt, CompileJSONPath, Values, PieceText, ValidCall;
    CallMatches("", p, "");
    assert "" + (PieceText(p) + "") == PieceText(p);
  }

  lemma {:induction false} ReplacesHelpers(done: string, ps: seq<Piece>, i: nat, n: nat, visits: Option<Visits>,
                                           decode: JsonDecoder, float: FloatParser, text: TextOf)
    requires ValidPieces(ps) && i <= |done|
    ensures var s := done + PiecesText(ps);
      && Chained(s, Spans(ps, |done|), i)
      && ReplaceFrom(s, Spans(ps, |done|), i, n, Replacement(visits, decode, float, text))
           == s[i..|done|] + Written(ps, n, visits, decode, float, text)
    decreases |ps|
  {
    hide MatchAt, ValidCall, PieceText, SpanOf, StartsCall, HelperText, CallValue, FindAll, Replacement, ReplaceFrom,
      Chained;
    var s, f := done + PiecesText(ps), Replacement(visits, decode, float, text);
    FindsHelpers(done, ps);
    FindAllChained(s, |done|);
    ChainedEarlier(s, Spans(ps, |done|), |done|, i);
    if |ps| == 0 {
      ReplaceNone(s, i, n, f);
      assert s[i..] == s[i..|done|] + "";
    } else {
      var rest, here := PiecesText(ps[1..]), done + PieceText(ps[0]);
      assert here + rest == s;
      match ps[0] {
        case Text(t) =>
          ReplacesHelpers(here, ps[1..], i, n, visits, decode, float, text);
          assert PieceText(ps[0]) == t by { TextIs(t); }
          assert [] + Spans(ps[1..], |here|) == Spans(ps[1..], |here|);
          assert s[i..|here|] == s[i..|done|] + t;
          Regroup(s[i..|done|], t, Written(ps[1..], n, visits, decode, float, text));
        case Call(expression, _, _, _, _, _) =>
          var m := SpanOf(ps[0], |done|);
          var ms := Spans(ps[1..], |here|);
          SpanEnds(ps[0], |done|);
          ReplacesHelpers(here, ps[1..], |here|, n + 1, visits, decode, float, text);
          assert s == done + (PieceText(ps[0]) + rest);
          CallMatches(done, ps[0], rest);
          HelperTextIs(ps[0], ViewAt(visits, n), decode, float, text);
          ReplacementIs(visits, n, PieceText(ps[0]), decode, float, text);
          assert Spans(ps, |done|) == [m] + ms;
          ReplaceFirst(s, m, ms, i, n, f);
          assert s[|here|..|here|] == "";
          var value, more := f(n, PieceText(ps[0])), Written(ps[1..], n + 1, visits, decode, float, text);
          assert "" + more == more;
          Regroup(s[i..|done|], value, more);
      }
    }
  }

  lemma ReplaceNone(s: string, i: nat, n: nat, f: (nat, string) -> string)
    requires i <= |s|
    ensures Chained(s, [], i) && ReplaceFrom(s, [], i, n, f) == s[i..]
  {
  }

  lemma ReplaceFirst(s: string, m: Span, ms: seq<Span>, i: nat, n: nat, f: (nat, string) -> string)
    requires i <= |s| && Chained(s, [m] + ms, i)
    ensures i <= m.start < m.end <= |s| && Chained(s, ms, m.end)
    ensures ReplaceFrom(s, [m] + ms, i, n, f)
         == s[i..m.start] + f(n, s[m.start..m.end]) + ReplaceFrom(s, ms, m.end, n + 1, f)
  {
    hide MatchAt;
    assert ([m] + ms)[1..] == ms;
  }

  lemma TextIs(t: string)
    ensures PieceText(Text(t)) == t
  {
  }

  // The interpreter writes the text of a template as it stands and each helper's value
  // in its place.
  lemma InterpreterWrites(ps: seq<Piece>, visits: Option<Visits>, decode: JsonDecoder, float: FloatParser, text: TextOf)
    requires ValidPieces(ps)
    ensures RenderTemplate(PiecesText(ps), visits, decode, float, text) == Written(ps, 0, visits, decode, float, text)
  {
    hide ValidPieces, FindAll, ReplaceFrom, Chained, Written, Spans, Replacement;
    FindsHelpers("", ps);
    ReplacesHelpers("", ps, 0, 0, visits, decode, float, text);
    var s := PiecesText(ps);
    assert "" + s == s && s[0..0] == "";
    var written := Written(ps, 0, visits, decode, float, text);
    assert "" + written == written;
  }

  // Every template is such pieces.
  lemma {:induction false} PiecesOf(s: string) returns (ps: seq<Piece>)
    ensures ValidPieces(ps) && PiecesText(ps) == s
    decreases |s|
  {
    hide MatchAt, ValidCall, PieceText, StartsCall;
    if |s| == 0 {
      ps := [];
    } else {
      MatchIff(s, 0);
      assert s[0..] == s;
      var first, n;
      if MatchAt(s, 0).Some? {
        first := MatchedCall(s, 0);
        n := MatchAt(s, 0).value.end;
        assert s[0..n] == s[..n];
        CallNotEmpty(first);
      } else {
        first, n := Text(s[..1]), 1;
        TextIs(s[..1]);
      }
      var more := PiecesOf(s[n..]);
      ps := [first] + more;
      assert ps[1..] == more && s[..n] + s[n..] == s;
      if first.Text? { assert s[..1][0..] + s[1..] == s; }
    }
  }

  lemma CallNotEmpty(p: Piece)
    requires ValidCall(p)
    ensures p.Call? && |PieceText(p)| > 0
  {
  }

  // ---------- Compiled templates ----------

  predicate AllCompile(ps: seq<Piece>, decode: JsonDecoder) {
    forall k :: 0 <= k < |ps| && ps[k].Call? ==> CompileJSONPath(ps[k].expression, decode).Ok?
  }

  // As Written, with each helper's value found in short.
  function WrittenShort(ps: seq<Piece>, n: nat, visits: Visits, decode: JsonDecoder, float: FloatParser, text: TextOf)
    : (s: string)
    decreases |ps|
  {
    if |ps| == 0 then ""
    else match ps[0]
      case Text(t) => t + WrittenShort(ps[1..], n, visits, decode, float, text)
      case Call(expression, _, _, _, _, _) =>
        (match CompileJSONPath(expression, decode)
         case Ok(path) => OptionalText(FirstValue(path, visits(n), float), text)
         case Err(_) => "")
        + WrittenShort(ps[1..], n + 1, visits, decode, float, text)
  }

  lemma ShortHelper(before: string, path: JSONPath, more: seq<Segment>, n: nat, visits: Visits, float: FloatParser,
                    text: TextOf)
    ensures SegmentsText(LiteralSegment(before) + [Helper(path)] + more, n, visits, float, text)
         == before + (OptionalText(FirstValue(path, visits(n), float), text)
                      + SegmentsText(more, n + 1, visits, float, text))
  {
    hide FirstValue, OptionalText;
    var tail := [Helper(path)] + more;
    assert tail[1..] == more;
    if before == "" {
      assert LiteralSegment(before) + [Helper(path)] + more == tail;
    } else {
      var all := [Literal(before)] + tail;
      assert LiteralSegment(before) + [Helper(path)] + more == all && all[1..] == tail;
    }
  }

  lemma LiteralShort(t: string, n: nat, visits: Visits, float: FloatParser, text: TextOf)
    ensures SegmentsText(LiteralSegment(t), n, visits, float, text) == t
  {
    assert |t| > 0 ==> LiteralSegment(t)[1..] == [];
  }

  lemma {:induction false} CompilesHelpers(done: string, ps: seq<Piece>, i: nat, n: nat, visits: Visits,
                                           decode: JsonDecoder, float: FloatParser, text: TextOf)
    requires ValidPieces(ps) && i <= |done|
    ensures var s := done + PiecesText(ps);
      && Chained(s, Spans(ps, |done|), i)
      && (CompileFrom(s, Spans(ps, |done|), i, decode).Some? <==> AllCompile(ps, decode))
      && (AllCompile(ps, decode) ==>
            SegmentsText(CompileFrom(s, Spans(ps, |done|), i, decode).value, n, visits, float, text)
              == s[i..|done|] + WrittenShort(ps, n, visits, decode, float, text))
    decreases |ps|
  {
    hide MatchAt, ValidCall, PieceText, SpanOf, StartsCall, FindAll, CompileJSONPath, FirstValue, SegmentsText,
      LiteralSegment;
    var s := done + PiecesText(ps);
    FindsHelpers(done, ps);
    FindAllChained(s, |done|);
    ChainedEarlier(s, Spans(ps, |done|), |done|, i);
    if |ps| == 0 {
      assert s[i..] == s[i..|done|] + "";
      LiteralShort(s[i..], n, visits, float, text);
    } else {
      var rest, here := PiecesText(ps[1..]), done + PieceText(ps[0]);
      assert here + rest == s;
      CompileSplits(ps, decode);
      match ps[0] {
        case Text(t) =>
          CompilesHelpers(here, ps[1..], i, n, visits, decode, float, text);
          TextIs(t);
          assert [] + Spans(ps[1..], |here|) == Spans(ps[1..], |here|);
          assert s[i..|here|] == s[i..|done|] + t;
          Regroup(s[i..|done|], t, WrittenShort(ps[1..], n, visits, decode, float, text));
        case Call(expression, _, _, _, _, _) =>
          var m := SpanOf(ps[0], |done|);
          var ms := Spans(ps[1..], |here|);
          SpanEnds(ps[0], |done|);
          CompilesHelpers(here, ps[1..], |here|, n + 1, visits, decode, float, text);
          assert s == done + (PieceText(ps[0]) + rest);
          CallMatches(done, ps[0], rest);
          assert Spans(ps, |done|)[0] == m && Spans(ps, |done|)[1..] == ms;
          assert s[|here|..|here|] == "";
          if AllCompile(ps, decode) {
            var path := CompileJSONPath(expression, decode).value;
            var more := CompileFrom(s, ms, |here|, decode).value;
            ShortHelper(s[i..|done|], path, more, n, visits, float, text);
            var short := WrittenShort(ps[1..], n + 1, visits, decode, float, text);
            assert "" + short == short;
          }
      }
    }
  }

  lemma CompileSplits(ps: seq<Piece>, decode: JsonDecoder)
    requires |ps| > 0
    ensures AllCompile(ps, decode)
       <==> (ps[0].Call? ==> CompileJSONPath(ps[0].expression, decode).Ok?) && AllCompile(ps[1..], decode)
  {
    hide CompileJSONPath;
    if AllCompile(ps, decode) {
      forall k | 0 <= k < |ps[1..]| && ps[1..][k].Call? ensures CompileJSONPath(ps[1..][k].expression, decode).Ok? {
        assert ps[1..][k] == ps[k + 1];
      }
    }
    if (ps[0].Call? ==> CompileJSONPath(ps[0].expression, decode).Ok?) && AllCompile(ps[1..], decode) {
      forall k | 0 <= k < |ps| && ps[k].Call? ensures CompileJSONPath(ps[k].expression, decode).Ok? {
        if k > 0 { assert ps[1..][k - 1] == ps[k]; }
      }
    }
  }

  predicate HasCall(ps: seq<Piece>) { exists k :: 0 <= k < |ps| && ps[k].Call? }

  lemma {:induction false} SpansIff(ps: seq<Piece>, at: nat)
    ensures Spans(ps, at) == [] <==> !HasCall(ps)
    decreases |ps|
  {
    hide SpanOf, PieceText;
    if |ps| > 0 {
      SpansIff(ps[1..], at + |PieceText(ps[0])|);
      if HasCall(ps[1..]) {
        var k :| 0 <= k < |ps[1..]| && ps[1..][k].Call?;
        assert ps[k + 1].Call?;
      }
      if HasCall(ps) && !ps[0].Call? {
        var k :| 0 <= k < |ps| && ps[k].Call?;
        assert ps[1..][k - 1].Call?;
      }
    }
  }

  // A template compiles exactly if it is to be templated, has a helper, and the
  // expressions of all its helpers compile; it then writes its text as it stands and
  // each helper's value, found in short, in its place.
  lemma CompiledWrites(ps: seq<Piece>, transformers: seq<string>, visits: Visits, decode: JsonDecoder,
                       float: FloatParser, text: TextOf)
    requires ValidPieces(ps)
    ensures var compiled := CompileResponseTemplate(PiecesText(ps), transformers, decode);
      && (compiled.Some? <==> TRANSFORMER in transformers && HasCall(ps) && AllCompile(ps, decode))
      && (compiled.Some? ==>
            RenderCompiled(compiled.value, Some(visits), float, text)
              == WrittenShort(ps, 0, visits, decode, float, text))
  {
    hide ValidPieces, FindAll, CompileFrom, Chained, WrittenShort, Spans, AllCompile, SegmentsText, HasCall;
    var s := PiecesText(ps);
    FindsHelpers("", ps);
    FindAllChained(s, 0);
    CompilesHelpers("", ps, 0, 0, visits, decode, float, text);
    SpansIff(ps, 0);
    assert "" + s == s && s[0..0] == "";
    NothingFound(s);
    var short := WrittenShort(ps, 0, visits, decode, float, text);
    assert "" + short == short;
  }

  lemma NothingFound(s: string)
    ensures s == "" ==> FindAll(s, 0) == []
  {
  }

  // What an inline body is rendered as: itself where it is not to be templated; its
  // pieces where it is, with the helpers found in short if it compiled; and nothing if
  // it compiled and the request body does not parse.
  lemma BodyWrites(ps: seq<Piece>, transformers: seq<string>, visits: Option<Visits>, decode: JsonDecoder,
                   float: FloatParser, text: TextOf)
    requires ValidPieces(ps)
    ensures RenderBody(PiecesText(ps), transformers, visits, decode, float, text) ==
      if TRANSFORMER !in transformers || PiecesText(ps) == "" then PiecesText(ps)
      else if !HasCall(ps) || !AllCompile(ps, decode) then Written(ps, 0, visits, decode, float, text)
      else match visits
        case Some(v) => WrittenShort(ps, 0, v, decode, float, text)
        case None => ""
  {
    hide ValidPieces, AllCompile, HasCall, Written, WrittenShort, CompileResponseTemplate, RenderTemplate, PiecesText,
      SegmentsText;
    InterpreterWrites(ps, visits, decode, float, text);
    CompiledWrites(ps, transformers, if visits.Some? then visits.value else OneView(Null), decode, float, text);
  }
}
