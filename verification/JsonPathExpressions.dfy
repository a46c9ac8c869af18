// Writing whole JSONPath expressions, filters and white space included, and that
// compiling reads them back.
module JsonPathExpressions {
  import opened Wrappers
  import opened Sequences
  import opened Decimal
  import opened JsonTree
  import opened JsonPath
  import opened JsonPathSyntax

  // ---------- White space ----------

  predicate Whites(w: string)
    decreases |w|
  {
    |w| == 0 || (WhiteStart(w) > 0 && Whites(w[WhiteStart(w)..]))
  }

  lemma {:induction false} TrimLeftOf(w: string, s: string)
    requires Whites(w) && (|s| > 0 ==> IsPlain(s[0]))
    ensures TrimLeft(w + s) == s
    decreases |w|
  {
    hide WhiteStart;
    if |w| == 0 {
      assert w + s == s;
      assert WhiteStart(s) == 0 by { PlainStart(s); }
    } else {
      var n := WhiteStart(w);
      TrimLeftOf(w[n..], s);
      WhiteStartOf(w, s);
      assert (w + s)[n..] == w[n..] + s;
    }
  }

  lemma PlainStart(s: string)
    requires |s| > 0 ==> IsPlain(s[0])
    ensures WhiteStart(s) == 0
  {
  }

  lemma WhiteStartOf(w: string, s: string)
    requires WhiteStart(w) > 0
    ensures WhiteStart(w + s) == WhiteStart(w)
  {
  }

  // White space also ends with a white-space character.
  lemma {:induction false} LastWhite(w: string) returns (n: nat)
    requires Whites(w) && |w| > 0
    ensures 0 < n <= |w| && Whites(w[..|w| - n]) && WhiteStart(w[|w| - n..]) == n
    decreases |w|
  {
    var k := WhiteStart(w);
    if k == |w| {
      n := k;
      assert w[0..] == w;
    } else {
      n := LastWhite(w[k..]);
      assert w[k..][|w| - k - n..] == w[|w| - n..];
      var before := w[..|w| - n];
      assert before[k..] == w[k..][..|w| - k - n];
      assert WhiteStart(before) == k;
    }
  }

  lemma {:induction false} TrimRightOf(s: string, w: string)
    requires Whites(w) && (|s| > 0 ==> IsPlain(s[|s| - 1]))
    ensures TrimRight(s + w) == s
    decreases |w|
  {
    hide TrimRight, WhiteStart, Whites;
    if |w| == 0 {
      assert s + w == s;
      NothingToTrim(s);
    } else {
      var n := LastWhite(w);
      var m := |s| + |w| - n;
      TrimRightOf(s, w[..|w| - n]);
      assert (s + w)[..m] == s + w[..|w| - n] && (s + w)[m..] == w[|w| - n..];
      TrimLast(s + w, n);
    }
  }

  lemma {:induction false} NothingToTrim(s: string)
    requires |s| > 0 ==> IsPlain(s[|s| - 1])
    ensures TrimRight(s) == s
  {
  }

  lemma {:induction false} TrimLast(s: string, n: nat)
    requires 0 < n <= |s| && WhiteStart(s[|s| - n..]) == n
    ensures TrimRight(s) == TrimRight(s[..|s| - n])
  {
    hide TrimRight, WhiteStart, WhiteEnd;
    LastIsEnd(s, n);
    TrimStep(s);
  }

  lemma {:induction false} TrimStep(s: string)
    requires WhiteEnd(s) > 0
    ensures TrimRight(s) == TrimRight(s[..|s| - WhiteEnd(s)])
  {
    hide WhiteEnd;
  }

  lemma {:induction false} LastIsEnd(s: string, n: nat)
    requires 0 < n <= |s| && WhiteStart(s[|s| - n..]) == n
    ensures WhiteEnd(s) == n
  {
    var last, m := s[|s| - n..], |s|;
    assert s[m - 1] == last[n - 1] && (n > 1 ==> s[m - 2] == last[n - 2]) && (n > 2 ==> s[m - 3] == last[n - 3]);
  }

  lemma {:induction false} TrimPadded(before: string, s: string, after: string)
    requires Whites(before) && Whites(after) && |s| > 0 && IsPlain(s[0]) && IsPlain(s[|s| - 1])
    ensures TrimSpace(before + s + after) == s
  {
    hide TrimLeft, TrimRight;
    assert before + s + after == before + (s + after);
    TrimLeftOf(before, s + after);
    TrimRightOf(s, after);
  }

  // ---------- Finding the parts ----------

  lemma {:induction false} IndexAt(s: string, part: string, n: nat)
    requires |part| > 0 && n + |part| <= |s| && part <= s[n..]
    requires forall k :: 0 <= k < n ==> !(part <= s[k..])
    ensures Index(s, part) == Some(n)
  {
    assert s[0..] == s;
    if n > 0 {
      assert s[1..][n - 1..] == s[n..];
      forall k | 0 <= k < n - 1 ensures !(part <= s[1..][k..]) { assert s[1..][k..] == s[k + 1..]; }
      IndexAt(s[1..], part, n - 1);
    }
  }

  // A bracket in a path is followed by a number.
  predicate NoFilterMark(s: string) {
    forall k :: 0 <= k < |s| && s[k] == '[' ==> k + 1 < |s| && s[k + 1] != '?'
  }

  lemma NoMarkConcat(a: string, b: string)
    requires NoFilterMark(a) && NoFilterMark(b)
    ensures NoFilterMark(a + b)
  {
  }

  lemma {:induction false} NoMarkInSteps(tokens: seq<PathToken>)
    requires ValidPath(tokens)
    ensures NoFilterMark(PrintSteps(tokens))
  {
    hide PrintStep, NoFilterMark, ValidPathToken;
    if |tokens| == 0 {
      assert NoFilterMark("") by { NoMarkInEmpty(); }
    } else {
      NoMarkInSteps(tokens[1..]);
      NoMarkInStep(tokens[0]);
      NoMarkConcat(PrintStep(tokens[0]), PrintSteps(tokens[1..]));
    }
  }

  lemma NoMarkInEmpty()
    ensures NoFilterMark("")
  {
  }

  lemma NoMarkInStep(t: PathToken)
    requires ValidPathToken(t)
    ensures NoFilterMark(PrintStep(t))
  {
    match t
    case FieldToken(name) =>
    case IndexToken(index) =>
      hide Itoa;
      ItoaPlain(index);
      ItoaStart(index);
    case WildcardToken =>
  }

  lemma ItoaStart(n: int)
    ensures var s := Itoa(n); |s| > 0 && (s[0] == '-' || IsDigit(s[0]))
  {
  }

  // ---------- Filters ----------

  // The left side of a filter.
  function SelectorText(path: seq<PathToken>, size: bool): (s: string) {
    "@" + PrintSteps(path) + (if size then ".size()" else "")
  }

  // What the left side can express: names without an equals sign, a last character
  // that is not trimmed, and no name that reads as a size.
  predicate ValidSelector(path: seq<PathToken>, size: bool) {
    var s := SelectorText(path, size);
    && ValidPath(path) && (forall k :: 0 <= k < |s| ==> s[k] != '=') && IsPlain(s[|s| - 1])
    && (!size ==> !HasSuffix(s, ".size()"))
  }

  lemma SelectorParses(path: seq<PathToken>, size: bool)
    requires ValidSelector(path, size)
    ensures ParseSelector(SelectorText(path, size)) == Ok((path, path == [] && !size, size))
  {
    hide ParseSteps, PrintSteps;
    var s, steps := SelectorText(path, size), PrintSteps(path);
    PrintedStepsParse(path);
    assert steps == "" ==> path == [] by { StepsNotEmpty(path); }
    assert path == [] ==> steps == "" by { StepsNotEmpty(path); }
    if size {
      assert s[..|s| - 7] == "@" + steps && s[|s| - 7..] == ".size()";
      assert ("@" + steps)[1..] == steps;
    } else {
      assert s == "@" + steps && s[1..] == steps;
    }
    assert ("$" + steps)[1..] == steps;
  }

  lemma StepsNotEmpty(path: seq<PathToken>)
    requires ValidPath(path)
    ensures PrintSteps(path) == "" <==> path == []
  {
    PrintedStepsParse(path);
  }

  // A filter reads as what is written: the candidate itself, or what a path selects,
  // or its size, compared with the literal.
  lemma FilterParses(path: seq<PathToken>, size: bool, before: string, between: string, literal: string,
                     decode: JsonDecoder)
    requires ValidSelector(path, size) && Whites(before) && Whites(between)
    ensures ParseFilter(before + SelectorText(path, size) + between + ("==" + literal), decode) ==
      match ParseLiteral(literal, decode)
      case Ok(expected) => Ok(Filter(path, path == [] && !size, size, expected))
      case Err(e) => Err(e)
  {
    hide ParseSelector, ParseLiteral, SelectorText, TrimSpace;
    hide ValidSelector, Whites;
    NoEquals(path, size, before, between);
    ComparisonSplits(before + SelectorText(path, size) + between, literal);
    SelectorEnds(path, size);
    TrimPadded(before, SelectorText(path, size), between);
    SelectorParses(path, size);
    LiteralTrimmed(literal, decode);
  }

  lemma ComparisonSplits(left: string, literal: string)
    requires forall k :: 0 <= k < |left| ==> left[k] != '='
    ensures var s := left + ("==" + literal);
      Index(s, "==") == Some(|left|) && s[..|left|] == left && s[|left| + 2..] == literal
  {
    var s := left + ("==" + literal);
    assert s[|left|..] == "==" + literal && ("==" + literal)[..2] == "==";
    forall k | 0 <= k < |left| ensures !("==" <= s[k..]) { assert s[k..][0] == left[k]; }
    IndexAt(s, "==", |left|);
  }

  lemma SelectorEnds(path: seq<PathToken>, size: bool)
    requires ValidSelector(path, size)
    ensures var s := SelectorText(path, size); |s| > 0 && IsPlain(s[0]) && IsPlain(s[|s| - 1])
  {
  }

  lemma NoEquals(path: seq<PathToken>, size: bool, before: string, between: string)
    requires ValidSelector(path, size) && Whites(before) && Whites(between)
    ensures var left := before + SelectorText(path, size) + between; forall k :: 0 <= k < |left| ==> left[k] != '='
  {
    hide SelectorText;
    WhiteNoEquals(before);
    WhiteNoEquals(between);
  }

  lemma {:induction false} WhiteNoEquals(w: string)
    requires Whites(w)
    ensures forall k :: 0 <= k < |w| ==> w[k] != '='
    decreases |w|
  {
    if |w| > 0 {
      var n := WhiteStart(w);
      WhiteNoEquals(w[n..]);
      assert w == w[..n] + w[n..];
    }
  }

  lemma LiteralTrimmed(literal: string, decode: JsonDecoder)
    ensures ParseLiteral(TrimSpace(literal), decode) == ParseLiteral(literal, decode)
  {
    hide TrimSpace;
    TrimTwice(literal);
  }

  // A literal in single quotes is the text between them, whatever the text.
  lemma QuotedLiteral(before: string, text: string, after: string, decode: JsonDecoder)
    requires Whites(before) && Whites(after)
    ensures ParseLiteral(before + ("'" + text + "'") + after, decode) == Ok(Str(text))
  {
    hide TrimSpace;
    var value := "'" + text + "'";
    TrimPadded(before, value, after);
    assert value[1..|value| - 1] == text;
  }

  // Any other literal is the JSON value it reads as.
  lemma PlainLiteral(before: string, value: string, after: string, decode: JsonDecoder)
    requires Whites(before) && Whites(after) && |value| > 0 && IsPlain(value[0]) && IsPlain(value[|value| - 1])
    requires forall k :: 0 <= k < |value| ==> value[k] != '\''
    ensures ParseLiteral(before + value + after, decode) ==
      match decode(value) case Some(parsed) => Ok(parsed) case None => Err(UnsupportedLiteral)
  {
    hide TrimSpace;
    TrimPadded(before, value, after);
    assert DoubleQuoted(value) == value;
  }

  function SingleQuoted(value: string): (s: string) {
    seq(|value|, i requires 0 <= i < |value| => if value[i] == '"' then '\'' else value[i])
  }

  // JSON strings inside a literal may be written in single quotes.
  lemma SingleQuotedLiteral(value: string, decode: JsonDecoder)
    requires |value| > 0 && IsPlain(value[0]) && IsPlain(value[|value| - 1]) && value[0] != '"'
    requires forall k :: 0 <= k < |value| ==> value[k] != '\''
    ensures ParseLiteral(SingleQuoted(value), decode) ==
      match decode(value) case Some(parsed) => Ok(parsed) case None => Err(UnsupportedLiteral)
  {
    hide TrimSpace;
    TrimPlain(SingleQuoted(value));
    assert DoubleQuoted(SingleQuoted(value)) == value;
  }

  // ---------- Expressions ----------

  // A path without a filter.
  lemma PathCompiles(before: string, path: seq<PathToken>, after: string, decode: JsonDecoder)
    requires Whites(before) && Whites(after) && ValidPath(path)
    requires IsPlain(PrintPath(path)[|PrintPath(path)| - 1])
    ensures CompileJSONPath(before + PrintPath(path) + after, decode) == Ok(JSONPath(path, None))
  {
    hide TrimSpace, ParsePath, PrintSteps, ValidPath;
    var s := PrintPath(path);
    TrimPadded(before, s, after);
    NoMarkInPath(path);
    NotFound(s);
    ParseInvertsPrint(path);
  }

  lemma NoMarkInPath(path: seq<PathToken>)
    requires ValidPath(path)
    ensures NoFilterMark(PrintPath(path))
  {
    hide PrintSteps;
    NoMarkInSteps(path);
  }

  lemma {:induction false} NotFound(s: string)
    requires NoFilterMark(s)
    ensures Index(s, "[?(") == None
  {
    if |s| >= 3 {
      assert NoFilterMark(s[1..]) by {
        forall k | 0 <= k < |s[1..]| && s[1..][k] == '[' ensures k + 1 < |s[1..]| && s[1..][k + 1] != '?' {
          assert s[k + 1] == '[';
        }
      }
      NotFound(s[1..]);
      assert !("[?(" <= s) by { if s[0] == '[' { assert s[1] != '?'; } }
    }
  }

  // A path with a filter.
  lemma FilteredPathCompiles(before: string, path: seq<PathToken>, filterText: string, after: string,
                             decode: JsonDecoder)
    requires Whites(before) && Whites(after) && ValidPath(path) && filterText != ""
    ensures CompileJSONPath(before + (PrintPath(path) + ("[?(" + filterText + ")]")) + after, decode) ==
      match ParseFilter(filterText, decode)
      case Ok(f) => Ok(JSONPath(path, Some(f)))
      case Err(e) => Err(e)
  {
    hide TrimSpace, ParsePath, PrintSteps, ValidPath, ParseFilter;
    var pathText := PrintPath(path);
    var s := pathText + ("[?(" + filterText + ")]");
    TrimPadded(before, s, after);
    FilterSplits(path, filterText);
    ParseInvertsPrint(path);
  }

  lemma FilterSplits(path: seq<PathToken>, filterText: string)
    requires ValidPath(path)
    ensures SplitFilter(PrintPath(path) + ("[?(" + filterText + ")]")) == Ok((PrintPath(path), filterText))
  {
    hide PrintSteps;
    var pathText, mark := PrintPath(path), "[?(" + filterText + ")]";
    var s, n := pathText + mark, |pathText|;
    NoMarkInPath(path);
    assert s[n..] == mark && mark[..3] == "[?(";
    forall k | 0 <= k < n ensures !("[?(" <= s[k..]) {
      assert s[k..][0] == pathText[k];
      if pathText[k] == '[' { assert s[k..][1] == pathText[k + 1]; }
    }
    IndexAt(s, "[?(", n);
    assert s[|s| - 2..] == ")]" && s[..n] == pathText && s[n + 3..|s| - 2] == filterText;
  }

  // ---------- All spellings of a path ----------

  // digits write n in base ten, leading zeros allowed.
  predicate WritesDecimal(digits: string, n: nat) {
    |digits| > 0 && '0' <= digits[|digits| - 1] <= '9' && (digits[|digits| - 1] - '0') as nat == n % 10
    && if |digits| == 1 then n < 10 else WritesDecimal(digits[..|digits| - 1], n / 10)
  }

  lemma {:induction false} DecimalIff(digits: string, n: nat)
    ensures DigitsValue(digits) == Some(n) <==> WritesDecimal(digits, n)
  {
    if |digits| > 1 && IsDigit(digits[|digits| - 1]) {
      var low := (digits[|digits| - 1] - '0') as nat;
      if DigitsValue(digits[..|digits| - 1]).Some? {
        var high := DigitsValue(digits[..|digits| - 1]).value;
        assert (10 * high + low) / 10 == high && (10 * high + low) % 10 == low;
      }
      assert 10 * (n / 10) + n % 10 == n;
      DecimalIff(digits[..|digits| - 1], n / 10);
    }
  }

  ghost predicate WritesInteger(s: string, v: int) {
    exists sign, digits, n :: s == sign + digits && WritesDecimal(digits, n) && WithSign(sign, n, v)
  }

  predicate WithSign(sign: string, n: nat, v: int) { (sign in {"", "+"} && v == n) || (sign == "-" && v == 0 - n) }

  // Atoi reads exactly the decimal numbers of 64 bits, with an optional sign.
  lemma AtoiIff(s: string, v: int)
    ensures Atoi(s) == Some(v) <==> IsInt(v) && WritesInteger(s, v)
  {
    hide DigitsValue, WritesDecimal;
    var signed := |s| > 0 && (s[0] == '-' || s[0] == '+');
    var sign, digits := if signed then s[..1] else "", if signed then s[1..] else s;
    assert s == sign + digits && (signed ==> sign == [s[0]]);
    if Atoi(s) == Some(v) {
      var n := DigitsValue(digits).value;
      DecimalIff(digits, n);
      assert WithSign(sign, n, v);
    }
    if IsInt(v) && WritesInteger(s, v) {
      var sign', digits', n :| s == sign' + digits' && WritesDecimal(digits', n) && WithSign(sign', n, v);
      DecimalStart(digits', n);
      assert digits' == digits && sign' == sign;
      DecimalIff(digits, n);
    }
  }

  lemma {:induction false} DecimalStart(digits: string, n: nat)
    requires WritesDecimal(digits, n)
    ensures digits[0] != '-' && digits[0] != '+'
  {
    if |digits| > 1 { DecimalStart(digits[..|digits| - 1], n / 10); }
  }

  // s is t with white space around it.
  ghost predicate Padded(s: string, t: string) {
    exists before, after :: s == before + t + after && Whites(before) && Whites(after)
  }

  // One step of a path, spelled as w in front of the rest.
  ghost predicate SpellsStep(w: string, t: PathToken, rest: string) {
    match t
    case FieldToken(name) =>
      && w == "." + name && |name| > 0 && name[0] != '*'
      && (forall k :: 0 <= k < |name| ==> name[k] != '.' && name[k] != '[')
      && (|rest| > 0 ==> rest[0] == '.' || rest[0] == '[')
    case WildcardToken => w == ".*"
    case IndexToken(index) =>
      IsInt(index) && exists inner, number :: w == "[" + inner + "]" && ']' !in inner && Padded(inner, number)
                                              && WritesInteger(number, index)
  }

  ghost predicate SpellsSteps(s: string, tokens: seq<PathToken>)
    decreases |tokens|
  {
    if |tokens| == 0 then s == ""
    else exists n :: 0 < n <= |s| && SpellsStep(s[..n], tokens[0], s[n..]) && SpellsSteps(s[n..], tokens[1..])
  }

  lemma {:induction false} LeftParts(s: string) returns (w: string)
    ensures Whites(w) && s == w + TrimLeft(s)
    decreases |s|
  {
    var n := WhiteStart(s);
    if n > 0 {
      var more := LeftParts(s[n..]);
      w := s[..n] + more;
      assert w[n..] == more;
      assert WhiteStart(w) == n;
    } else {
      w := "";
    }
  }

  lemma {:induction false} RightParts(s: string) returns (w: string)
    ensures Whites(w) && s == TrimRight(s) + w
    decreases |s|
  {
    var n := WhiteEnd(s);
    if n > 0 {
      var more := RightParts(s[..|s| - n]);
      w := more + s[|s| - n..];
      EndIsWhite(s);
      WhitesConcat(more, s[|s| - n..]);
    } else {
      w := "";
    }
  }

  lemma EndIsWhite(s: string)
    requires WhiteEnd(s) > 0
    ensures Whites(s[|s| - WhiteEnd(s)..])
  {
    var last := s[|s| - WhiteEnd(s)..];
    assert WhiteStart(last) == |last|;
    assert last[|last|..] == "";
  }

  lemma {:induction false} WhitesConcat(v: string, w: string)
    requires Whites(v) && Whites(w)
    ensures Whites(v + w)
    decreases |v|
  {
    if |v| == 0 {
      assert v + w == w;
    } else {
      var n := WhiteStart(v);
      WhitesConcat(v[n..], w);
      assert (v + w)[n..] == v[n..] + w;
      assert WhiteStart(v + w) == n;
    }
  }

  // Trimming takes off white space and nothing else.
  lemma TrimParts(s: string)
    ensures Padded(s, TrimSpace(s))
  {
    var before := LeftParts(s);
    var after := RightParts(TrimLeft(s));
    assert s == before + TrimSpace(s) + after;
  }

  lemma NumberTrims(inner: string, number: string, index: int)
    requires Padded(inner, number) && WritesInteger(number, index)
    ensures TrimSpace(inner) == number
  {
    hide TrimSpace, Whites;
    var before, after :| inner == before + number + after && Whites(before) && Whites(after);
    var sign, digits, n :| number == sign + digits && WritesDecimal(digits, n) && WithSign(sign, n, index);
    DecimalPlain(digits, n);
    assert number[0] == if |sign| > 0 then sign[0] else digits[0];
    assert number[|number| - 1] == digits[|digits| - 1];
    TrimPadded(before, number, after);
  }

  lemma {:induction false} DecimalPlain(digits: string, n: nat)
    requires WritesDecimal(digits, n)
    ensures IsPlain(digits[0]) && IsPlain(digits[|digits| - 1])
  {
    if |digits| > 1 { DecimalPlain(digits[..|digits| - 1], n / 10); }
  }

  lemma StepSpelled(s: string)
    requires |s| > 0 && ParseStep(s).Ok?
    ensures var (t, n) := ParseStep(s).value; SpellsStep(s[..n], t, s[n..])
  {
    hide TrimSpace, Atoi, WritesInteger, Padded, IndexOfClose, FieldLength;
    var (t, n) := ParseStep(s).value;
    match t
    case FieldToken(name) =>
      assert s[..n] == "." + name;
      FieldSpelled(s);
    case WildcardToken => assert s[..2] == ".*";
    case IndexToken(index) => IndexSpelled(s);
  }

  lemma IndexSpelled(s: string)
    requires |s| > 0 && ParseStep(s).Ok? && ParseStep(s).value.0.IndexToken?
    ensures var (t, n) := ParseStep(s).value; SpellsStep(s[..n], t, s[n..])
  {
    hide TrimSpace, Atoi, WritesInteger, Padded, IndexOfClose;
    var end := IndexOfClose(s).value;
    var inner := s[1..end];
    FirstClose(s);
    SliceParts(s, 0, 1, end + 1);
    SliceParts(s, 1, end, end + 1);
    assert s[0..1] == "[" && s[end..end + 1] == "]" && s[..end + 1] == "[" + inner + "]";
    assert ']' !in inner by { assert forall k :: 0 <= k < |inner| ==> inner[k] == s[..end][k + 1]; }
    TrimParts(inner);
    AtoiIff(TrimSpace(inner), ParseStep(s).value.0.index);
  }

  lemma FieldSpelled(s: string)
    requires |s| > 0 && ParseStep(s).Ok? && ParseStep(s).value.0.FieldToken?
    ensures var (t, n) := ParseStep(s).value;
      && |t.name| > 0 && t.name[0] != '*' && (forall k :: 0 <= k < |t.name| ==> t.name[k] != '.' && t.name[k] != '[')
      && (n < |s| ==> s[n] == '.' || s[n] == '[')
  {
    var n := FieldLength(s[1..]);
    assert s[1..n + 1] == s[1..][..n];
  }

  lemma {:induction false} FirstClose(s: string)
    requires IndexOfClose(s).Some?
    ensures var n := IndexOfClose(s).value; ']' !in s[..n] && s[n] == ']'
  {
    if s[0] != ']' {
      FirstClose(s[1..]);
      var n := IndexOfClose(s).value;
      assert s[..n] == [s[0]] + s[1..][..n - 1];
    }
  }

  lemma SpelledStepParses(w: string, t: PathToken, rest: string)
    requires SpellsStep(w, t, rest)
    ensures |w| > 0 && ParseStep(w + rest) == Ok((t, |w|))
  {
    hide TrimSpace, Atoi, WritesInteger, Padded, IndexOfClose, FieldLength;
    match t
    case FieldToken(name) => FieldStepParses(name, rest);
    case WildcardToken => WildcardStepParses(rest);
    case IndexToken(index) =>
      var inner, number :|
        w == "[" + inner + "]" && ']' !in inner && Padded(inner, number) && WritesInteger(number, index);
      var s := w + rest;
      CloseIs(s, 1 + |inner|);
      assert s[1..1 + |inner|] == inner;
      NumberTrims(inner, number, index);
      AtoiIff(number, index);
  }

  // A path is parsed exactly from its spellings.
  lemma {:induction false} StepsIff(s: string, tokens: seq<PathToken>)
    ensures ParseSteps(s) == Ok(tokens) <==> SpellsSteps(s, tokens)
    decreases |tokens|
  {
    hide ParseStep, SpellsStep;
    if ParseSteps(s) == Ok(tokens) && |s| > 0 {
      var (t, n) := ParseStep(s).value;
      StepSpelled(s);
      assert tokens[0] == t && tokens[1..] == ParseSteps(s[n..]).value;
      StepsIff(s[n..], tokens[1..]);
    }
    if SpellsSteps(s, tokens) && |tokens| > 0 {
      var n :| 0 < n <= |s| && SpellsStep(s[..n], tokens[0], s[n..]) && SpellsSteps(s[n..], tokens[1..]);
      SpelledStepParses(s[..n], tokens[0], s[n..]);
      assert s[..n] + s[n..] == s;
      StepsIff(s[n..], tokens[1..]);
      assert tokens == [tokens[0]] + tokens[1..];
    }
  }

  lemma ParsePathIff(s: string, tokens: seq<PathToken>)
    ensures ParsePath(s) == Ok(tokens) <==> |s| > 0 && s[0] == '$' && SpellsSteps(s[1..], tokens)
  {
    hide ParseSteps, SpellsSteps;
    if |s| > 0 { StepsIff(s[1..], tokens); }
  }

  // ---------- Whatever compiles is written so ----------

  // The left side of a filter: the candidate itself, or a path below it, or its size.
  ghost predicate SpellsSelector(s: string, f: Filter) {
    if f.useSelf then s == "@" && f.path == [] && !f.sizeCheck
    else exists steps :: s == "@" + steps + (if f.sizeCheck then ".size()" else "") && SpellsSteps(steps, f.path)
  }

  // A filter is a selector and a literal on the two sides of its first ==.
  ghost predicate SpellsFilter(s: string, f: Filter, decode: JsonDecoder) {
    exists left, right, selector ::
      && s == left + ("==" + right) && Index(s, "==") == Some(|left|)
      && Padded(left, selector) && SpellsSelector(selector, f) && ParseLiteral(right, decode) == Ok(f.expected)
  }

  lemma FilterIsSpelled(s: string, decode: JsonDecoder)
    requires ParseFilter(s, decode).Ok?
    ensures SpellsFilter(s, ParseFilter(s, decode).value, decode)
  {
    hide ParseLiteral, ParseSelector, TrimSpace, Padded, SpellsSelector;
    var at, f := Index(s, "==").value, ParseFilter(s, decode).value;
    var left, right := s[..at], s[at + 2..];
    assert ParseSelector(TrimSpace(left)).Ok? && ParseLiteral(TrimSpace(right), decode).Ok?;
    assert f == Filter(ParseSelector(TrimSpace(left)).value.0, ParseSelector(TrimSpace(left)).value.1,
                       ParseSelector(TrimSpace(left)).value.2, ParseLiteral(TrimSpace(right), decode).value);
    assert s == left + ("==" + right);
    TrimParts(left);
    LiteralTrimmed(right, decode);
    SelectorIsSpelled(TrimSpace(left), f);
  }

  lemma SelectorIsSpelled(s: string, f: Filter)
    requires ParseSelector(s) == Ok((f.path, f.useSelf, f.sizeCheck))
    ensures SpellsSelector(s, f)
  {
    hide ParseSteps, SpellsSteps;
    if !f.useSelf {
      var body := if f.sizeCheck then s[..|s| - 7] else s;
      var steps := body[1..];
      assert ("$" + steps)[1..] == steps;
      StepsIff(steps, f.path);
      if f.sizeCheck { assert s == s[..|s| - 7] + s[|s| - 7..]; }
      assert s == "@" + steps + (if f.sizeCheck then ".size()" else "");
    } else {
      assert !HasSuffix("@", ".size()");
    }
  }

  // An expression without white space around it.
  ghost predicate SpellsExpression(s: string, p: JSONPath, decode: JsonDecoder) {
    || (p.filter.None? && SpellsPath(s, p.path) && Index(s, "[?(") == None)
    || exists pathText, filterText ::
         && s == pathText + ("[?(" + filterText + ")]") && Index(s, "[?(") == Some(|pathText|)
         && SpellsPath(pathText, p.path)
         && if filterText == "" then p.filter.None?
            else p.filter.Some? && SpellsFilter(filterText, p.filter.value, decode)
  }

  ghost predicate SpellsPath(s: string, tokens: seq<PathToken>) {
    |s| > 0 && s[0] == '$' && SpellsSteps(s[1..], tokens)
  }

  lemma CompiledIsSpelled(s: string, decode: JsonDecoder)
    requires CompileJSONPath(s, decode).Ok?
    ensures exists text :: Padded(s, text) && SpellsExpression(text, CompileJSONPath(s, decode).value, decode)
  {
    hide ParsePath, ParseFilter, TrimSpace, Padded, SpellsSteps, SpellsFilter;
    var text, p := TrimSpace(s), CompileJSONPath(s, decode).value;
    TrimParts(s);
    var (pathText, filterText) := SplitFilter(text).value;
    ParsePathIff(pathText, p.path);
    assert SpellsPath(pathText, p.path);
    if filterText != "" { FilterIsSpelled(filterText, decode); }
    match Index(text, "[?(")
    case None =>
    case Some(start) =>
      SplitText(text);
      assert SpellsExpression(text, p, decode);
  }

  lemma SplitText(s: string)
    requires SplitFilter(s).Ok? && Index(s, "[?(").Some?
    ensures var (pathText, filterText) := SplitFilter(s).value;
      s == pathText + ("[?(" + filterText + ")]") && Index(s, "[?(") == Some(|pathText|)
  {
    hide Index;
    var start, n := Index(s, "[?(").value, |s|;
    SliceParts(s, 0, start, n);
    SliceParts(s, start, start + 3, n);
    SliceParts(s, start + 3, n - 2, n);
    assert s[0..n] == s && s[0..start] == s[..start] && s[n - 2..n] == s[n - 2..];
    var f := s[start + 3..n - 2];
    assert "[?(" + (f + ")]") == "[?(" + f + ")]";
  }
}
