// The path notation: parsePath, splitFilter, parseFilter and CompileJSONPath,
// and that parsePath reads back exactly the paths that can be written down.
module JsonPathSyntax {
  import opened Wrappers
  import opened Decimal
  import opened JsonTree
  import opened JsonPath

  datatype PathError =
    | EmptyExpression
    | MissingRoot
    | EmptyField
    | UnclosedIndex
    | UnsupportedIndex
    | UnsupportedSegment
    | UnsupportedFilter
    | UnsupportedLiteral
    | LiteralPanic

  // strings.Index
  function Index(s: string, part: string): (r: Option<nat>)
    requires |part| > 0
    ensures r.Some? ==> r.value + |part| <= |s| && s[r.value..r.value + |part|] == part
  {
    if |s| < |part| then None
    else if part <= s then Some(0)
    else match Index(s[1..], part)
      case Some(n) => Some(n + 1)
      case None => None
  }

  // Length of a field name: up to the next '.' or '['.
  function FieldLength(s: string): (n: nat)
    ensures n <= |s|
    ensures forall i :: 0 <= i < n ==> s[i] != '.' && s[i] != '['
    ensures n < |s| ==> s[n] == '.' || s[n] == '['
  {
    if |s| == 0 || s[0] == '.' || s[0] == '[' then 0 else 1 + FieldLength(s[1..])
  }

  function IndexOfClose(s: string): (r: Option<nat>)
    ensures r.Some? ==> r.value < |s| && s[r.value] == ']'
  {
    if |s| == 0 then None
    else if s[0] == ']' then Some(0)
    else match IndexOfClose(s[1..])
      case Some(n) => Some(n + 1)
      case None => None
  }

  // One step of parsePath: a token and how much text it takes.
  function ParseStep(s: string): (r: Result<(PathToken, nat), PathError>)
    requires |s| > 0
    ensures r.Ok? ==> 0 < r.value.1 <= |s|
  {
    if s[0] == '.' then
      if |s| > 1 && s[1] == '*' then Ok((WildcardToken, 2))
      else
        var n := FieldLength(s[1..]);
        if n == 0 then Err(EmptyField) else Ok((FieldToken(s[1..n + 1]), n + 1))
    else if s[0] == '[' then
      match IndexOfClose(s)
      case None => Err(UnclosedIndex)
      case Some(end) =>
        match Atoi(TrimSpace(s[1..end]))
        case None => Err(UnsupportedIndex)
        case Some(index) => Ok((IndexToken(index), end + 1))
    else Err(UnsupportedSegment)
  }

  function ParseSteps(s: string): (r: Result<seq<PathToken>, PathError>)
    decreases |s|
  {
    if |s| == 0 then Ok([])
    else
      var (token, n) :- ParseStep(s);
      var more :- ParseSteps(s[n..]);
      Ok([token] + more)
  }

  function ParsePath(expression: string): (r: Result<seq<PathToken>, PathError>) {
    if |expression| == 0 || expression[0] != '$' then Err(MissingRoot) else ParseSteps(expression[1..])
  }

  // ---------- Printing paths ----------

  predicate ValidPathToken(t: PathToken) {
    match t
    case FieldToken(name) =>
      |name| > 0 && name[0] != '*' && forall i :: 0 <= i < |name| ==> name[i] != '.' && name[i] != '['
    case IndexToken(index) => IsInt(index)
    case WildcardToken => true
  }

  predicate ValidPath(tokens: seq<PathToken>) {
    forall i :: 0 <= i < |tokens| ==> ValidPathToken(tokens[i])
  }

  function PrintStep(t: PathToken): (s: string) {
    match t
    case FieldToken(name) => "." + name
    case IndexToken(index) => "[" + Itoa(index) + "]"
    case WildcardToken => ".*"
  }

  function PrintSteps(tokens: seq<PathToken>): (s: string) {
    if |tokens| == 0 then "" else PrintStep(tokens[0]) + PrintSteps(tokens[1..])
  }

  function PrintPath(tokens: seq<PathToken>): (s: string) { "$" + PrintSteps(tokens) }

  lemma {:induction false} FieldLengthIs(s: string, n: nat)
    requires n <= |s|
    requires forall i :: 0 <= i < n ==> s[i] != '.' && s[i] != '['
    requires n < |s| ==> s[n] == '.' || s[n] == '['
    ensures FieldLength(s) == n
  {
    if n > 0 { FieldLengthIs(s[1..], n - 1); }
  }

  lemma {:induction false} CloseIs(s: string, n: nat)
    requires n < |s| && s[n] == ']'
    requires forall i :: 0 <= i < n ==> s[i] != ']'
    ensures IndexOfClose(s) == Some(n)
  {
    if n > 0 { CloseIs(s[1..], n - 1); }
  }

  lemma FieldStepParses(name: string, rest: string)
    requires ValidPathToken(FieldToken(name))
    requires |rest| > 0 ==> rest[0] == '.' || rest[0] == '['
    ensures ParseStep("." + name + rest) == Ok((FieldToken(name), 1 + |name|))
  {
    var s := "." + name + rest;
    assert s[1..] == name + rest;
    FieldLengthIs(s[1..], |name|);
    assert s[1..|name| + 1] == name;
  }

  lemma IndexStepParses(index: int, rest: string)
    requires IsInt(index)
    ensures ParseStep("[" + Itoa(index) + "]" + rest) == Ok((IndexToken(index), 2 + |Itoa(index)|))
  {
    hide Itoa, Atoi, TrimSpace;
    var digits := Itoa(index);
    var s := "[" + digits + "]" + rest;
    ItoaPlain(index);
    CloseIs(s, 1 + |digits|);
    assert s[1..1 + |digits|] == digits;
    TrimPlain(digits);
    AtoiItoa(index);
  }

  lemma StepParses(t: PathToken, rest: string)
    requires ValidPathToken(t)
    requires |rest| > 0 ==> rest[0] == '.' || rest[0] == '['
    ensures |PrintStep(t)| > 0 && (PrintStep(t)[0] == '.' || PrintStep(t)[0] == '[')
    ensures ParseStep(PrintStep(t) + rest) == Ok((t, |PrintStep(t)|))
  {
    hide ParseStep, Itoa;
    match t {
      case FieldToken(name) => FieldStepParses(name, rest);
      case IndexToken(index) => IndexStepParses(index, rest);
      case WildcardToken => WildcardStepParses(rest);
    }
  }

  lemma WildcardStepParses(rest: string)
    ensures ParseStep(".*" + rest) == Ok((WildcardToken, 2))
  {
  }

  lemma {:induction false} PrintedStepsParse(tokens: seq<PathToken>)
    requires ValidPath(tokens)
    ensures ParseSteps(PrintSteps(tokens)) == Ok(tokens)
    ensures |tokens| > 0 ==> |PrintSteps(tokens)| > 0 && (PrintSteps(tokens)[0] == '.' || PrintSteps(tokens)[0] == '[')
  {
    hide ValidPathToken, PrintStep, ParseStep;
    if |tokens| != 0 {
      var rest := PrintSteps(tokens[1..]);
      PrintedStepsParse(tokens[1..]);
      StepParses(tokens[0], rest);
      assert (PrintStep(tokens[0]) + rest)[|PrintStep(tokens[0])|..] == rest;
      assert tokens == [tokens[0]] + tokens[1..];
    }
  }

  lemma StepValid(s: string)
    requires |s| > 0 && ParseStep(s).Ok?
    ensures ValidPathToken(ParseStep(s).value.0)
  {
    if s[0] == '.' && !(|s| > 1 && s[1] == '*') {
      var n := FieldLength(s[1..]);
      assert s[1..n + 1] == s[1..][..n];
    }
  }

  lemma {:induction false} ParsedStepsValid(s: string)
    requires ParseSteps(s).Ok?
    ensures ValidPath(ParseSteps(s).value)
    decreases |s|
  {
    if |s| != 0 {
      StepValid(s);
      ParsedStepsValid(s[ParseStep(s).value.1..]);
    }
  }

  // A path survives being written and read back exactly when the notation can
  // express it; in particular parsing any expression yields such a path.
  lemma ParseInvertsPrint(tokens: seq<PathToken>)
    ensures ParsePath(PrintPath(tokens)) == Ok(tokens) <==> ValidPath(tokens)
  {
    assert PrintPath(tokens)[1..] == PrintSteps(tokens);
    if ValidPath(tokens) {
      PrintedStepsParse(tokens);
    } else if ParsePath(PrintPath(tokens)) == Ok(tokens) {
      ParsedStepsValid(PrintSteps(tokens));
    }
  }

  lemma ParsedPathValid(expression: string)
    requires ParsePath(expression).Ok?
    ensures ValidPath(ParsePath(expression).value)
    ensures ParsePath(PrintPath(ParsePath(expression).value)) == ParsePath(expression)
  {
    ParsedStepsValid(expression[1..]);
    ParseInvertsPrint(ParsePath(expression).value);
  }

  // ---------- Filters ----------

  // Decodes the first JSON value of a text.
  type JsonDecoder = string -> Option<Json>

  function DoubleQuoted(s: string): (r: string) {
    seq(|s|, i requires 0 <= i < |s| => if s[i] == '\'' then '"' else s[i])
  }

  // parseLiteral. A lone quote is a prefix and a suffix at once, and slicing between
  // the two panics.
  function ParseLiteral(text: string, decode: JsonDecoder): (r: Result<Json, PathError>) {
    var value := TrimSpace(text);
    if |value| > 0 && value[0] == '\'' && value[|value| - 1] == '\'' then
      if |value| == 1 then Err(LiteralPanic) else Ok(Str(value[1..|value| - 1]))
    else match decode(DoubleQuoted(value))
      case Some(parsed) => Ok(parsed)
      case None => Err(UnsupportedLiteral)
  }

  function SplitFilter(expression: string): (r: Result<(string, string), PathError>) {
    match Index(expression, "[?(")
    case None => Ok((expression, ""))
    case Some(start) =>
      if |expression| < start + 5 || expression[|expression| - 2..] != ")]" then Err(UnsupportedFilter)
      else Ok((expression[..start], expression[start + 3..|expression| - 2]))
  }

  predicate HasSuffix(s: string, suffix: string) {
    |s| >= |suffix| && s[|s| - |suffix|..] == suffix
  }

  // The left side of a filter: the path, and whether it is the candidate itself or
  // the size of what the path selects that is compared.
  function ParseSelector(left: string): (r: Result<(seq<PathToken>, bool, bool), PathError>) {
    if |left| == 0 || left[0] != '@' then Err(UnsupportedFilter)
    else
      var useSelf, sizeCheck := left == "@", HasSuffix(left, ".size()");
      var body := if sizeCheck then left[..|left| - 7] else left;
      assert |body| > 0;
      var path :- if useSelf then Ok([]) else ParsePath("$" + body[1..]);
      Ok((path, useSelf, sizeCheck))
  }

  function ParseFilter(expression: string, decode: JsonDecoder): (r: Result<Filter, PathError>) {
    match Index(expression, "==")
    case None => Err(UnsupportedFilter)
    case Some(at) =>
      var (path, useSelf, sizeCheck) :- ParseSelector(TrimSpace(expression[..at]));
      var expected :- ParseLiteral(TrimSpace(expression[at + 2..]), decode);
      Ok(Filter(path, useSelf, sizeCheck, expected))
  }

  function CompileJSONPath(expression: string, decode: JsonDecoder): (r: Result<JSONPath, PathError>) {
    var trimmed := TrimSpace(expression);
    if trimmed == "" then Err(EmptyExpression)
    else if trimmed[0] != '$' then Err(MissingRoot)
    else
      var (pathText, filterText) :- SplitFilter(trimmed);
      var path :- ParsePath(pathText);
      if filterText == "" then Ok(JSONPath(path, None))
      else
        var f :- ParseFilter(filterText, decode);
        Ok(JSONPath(path, Some(f)))
  }

  // ---------- A literal that panics ----------

  lemma {:induction false} StepsDoNotPanic(s: string)
    ensures ParseSteps(s) != Err(LiteralPanic)
    decreases |s|
  {
    if |s| != 0 && ParseStep(s).Ok? { StepsDoNotPanic(s[ParseStep(s).value.1..]); }
  }

  // Parsing a filter panics exactly when its selector parses and its literal is a
  // lone quote.
  lemma FilterPanicsIff(expression: string, decode: JsonDecoder)
    ensures ParseFilter(expression, decode) == Err(LiteralPanic) <==>
      match Index(expression, "==")
      case None => false
      case Some(at) =>
        ParseSelector(TrimSpace(expression[..at])).Ok? && TrimSpace(expression[at + 2..]) == "'"
  {
    hide ParsePath, TrimSpace;
    match Index(expression, "==")
    case None =>
    case Some(at) =>
      TrimTwice(expression[at + 2..]);
      SelectorDoesNotPanic(TrimSpace(expression[..at]));
  }

  lemma SelectorDoesNotPanic(left: string)
    ensures ParseSelector(left) != Err(LiteralPanic)
  {
    if |left| > 0 && left[0] == '@' && left != "@" {
      var path := "$" + (if HasSuffix(left, ".size()") then left[..|left| - 7] else left)[1..];
      StepsDoNotPanic(path[1..]);
    }
  }

  lemma {:induction false} IndexIs(s: string, part: string, n: nat)
    requires |part| > 0 && n + |part| <= |s| && part <= s[n..]
    requires forall k :: 0 <= k < n ==> s[k] != part[0]
    ensures Index(s, part) == Some(n)
  {
    if n > 0 { IndexIs(s[1..], part, n - 1); }
  }

  // The shortest such path.
  lemma LoneQuotePanics(decode: JsonDecoder)
    ensures CompileJSONPath("$[?(@==')]", decode) == Err(LiteralPanic)
  {
    var filterText := "@=='";
    var s := "$[?(@==')]";
    hide ParseFilter, TrimSpace;
    TrimPlain(s);
    assert s[1..][..3] == "[?(";
    IndexIs(s, "[?(", 1);
    assert s[|s| - 2..] == ")]" && s[..1] == "$" && s[4..|s| - 2] == filterText;
    assert ParsePath("$") == Ok([]) by { assert "$"[1..] == ""; }
    SelfFilterPanics(decode);
  }

  lemma SelfFilterPanics(decode: JsonDecoder)
    ensures ParseFilter("@=='", decode) == Err(LiteralPanic)
  {
    hide ParseFilter, TrimSpace;
    var s := "@=='";
    assert s[1..][..2] == "==";
    IndexIs(s, "==", 1);
    assert s[..1] == "@" && s[3..] == "'";
    TrimPlain("@");
    TrimPlain("'");
    FilterPanicsIff(s, decode);
  }

  // ---------- The loop of parsePath ----------

  ghost function Continue(done: seq<PathToken>, rest: Result<seq<PathToken>, PathError>)
    : (r: Result<seq<PathToken>, PathError>)
  {
    match rest case Ok(more) => Ok(done + more) case Err(e) => Err(e)
  }

  lemma StepContinues(s: string, done: seq<PathToken>)
    requires |s| > 0 && ParseStep(s).Ok?
    ensures var (token, n) := ParseStep(s).value;
      Continue(done, ParseSteps(s)) == Continue(done + [token], ParseSteps(s[n..]))
  {
    hide ParseStep;
    var (token, n) := ParseStep(s).value;
    if ParseSteps(s[n..]).Ok? {
      var more := ParseSteps(s[n..]).value;
      assert done + ([token] + more) == done + [token] + more;
    }
  }

  method FieldEnd(expression: string, start: nat) returns (end: nat)
    requires start <= |expression|
    ensures end == start + FieldLength(expression[start..])
  {
    end := start;
    while end < |expression| && expression[end] != '.' && expression[end] != '['
      invariant start <= end <= |expression|
      invariant forall k :: start <= k < end ==> expression[k] != '.' && expression[k] != '['
    {
      end := end + 1;
    }
    FieldLengthIs(expression[start..], end - start);
  }

  // Positions in the rest of an expression are positions in the expression.
  lemma SliceOfRest(s: string, i: nat, from: nat, to: nat)
    requires from <= to && i + to <= |s|
    ensures s[i..][from..] == s[i + from..] && s[i..][from..to] == s[i + from..i + to]
  {
  }

  // One turn of parsePath's loop at position i: a token and the next position.
  method ReadStep(expression: string, i: nat) returns (r: Result<(PathToken, nat), PathError>)
    requires i < |expression|
    ensures ParseStep(expression[i..]) == match r case Ok((t, next)) => Ok((t, next - i)) case Err(e) => Err(e)
    ensures r.Ok? ==> i < r.value.1 <= |expression|
  {
    hide Atoi, TrimSpace, FieldLength, IndexOfClose;
    if expression[i] == '.' {
      if i + 1 < |expression| && expression[i + 1] == '*' {
        return Ok((WildcardToken, i + 2));
      }
      var next := FieldEnd(expression, i + 1);
      SliceOfRest(expression, i, 1, next - i);
      if next == i + 1 {
        return Err(EmptyField);
      }
      return Ok((FieldToken(expression[i + 1..next]), next));
    }
    if expression[i] == '[' {
      r := ReadIndex(expression, i);
      return;
    }
    return Err(UnsupportedSegment);
  }

  method ReadIndex(expression: string, i: nat) returns (r: Result<(PathToken, nat), PathError>)
    requires i < |expression| && expression[i] == '['
    ensures ParseStep(expression[i..]) == match r case Ok((t, next)) => Ok((t, next - i)) case Err(e) => Err(e)
    ensures r.Ok? ==> i < r.value.1 <= |expression|
  {
    hide Atoi, TrimSpace, FieldLength, IndexOfClose;
    var end := IndexOfClose(expression[i..]);
    if end.None? {
      return Err(UnclosedIndex);
    }
    CloseAfterOpen(expression[i..]);
    SliceOfRest(expression, i, 1, end.value);
    var index := Atoi(TrimSpace(expression[i + 1..i + end.value]));
    if index.None? {
      return Err(UnsupportedIndex);
    }
    return Ok((IndexToken(index.value), i + end.value + 1));
  }

  lemma CloseAfterOpen(s: string)
    requires |s| > 0 && s[0] == '[' && IndexOfClose(s).Some?
    ensures IndexOfClose(s).value > 0
  {
  }

  method ParsePathLoop(expression: string) returns (r: Result<seq<PathToken>, PathError>)
    ensures r == ParsePath(expression)
  {
    hide ParseStep;
    if expression == "$" {
      return Ok([]);
    }
    if |expression| == 0 || expression[0] != '$' {
      return Err(MissingRoot);
    }
    var tokens: seq<PathToken> := [];
    var i := 1;
    assert ParsePath(expression).Ok? ==> [] + ParsePath(expression).value == ParsePath(expression).value;
    while i < |expression|
      invariant 1 <= i <= |expression|
      invariant ParsePath(expression) == Continue(tokens, ParseSteps(expression[i..]))
    {
      var step := ReadStep(expression, i);
      if step.Err? {
        return Err(step.error);
      }
      var (token, next) := step.value;
      StepContinues(expression[i..], tokens);
      assert expression[i..][next - i..] == expression[next..];
      tokens := tokens + [token];
      i := next;
    }
    assert tokens + [] == tokens;
    return Ok(tokens);
  }
}
