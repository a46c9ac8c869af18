// tokenizeGraphQL, readGraphQLString and readGraphQLNumber: as functions on the
// text still to be read, as the loops of the source, and the theorem that a
// lexed document does not depend on its formatting.
module GraphQLLexer {
  import opened Wrappers
  import opened GraphQLTokens

  type LexResult = Result<seq<Token>, SyntaxError>

  // ---------- The lexer as a function of the remaining text ----------

  function TripleQuote(): (r: string) { "\"\"\"" }

  // strings.Index(s, `"""`)
  function IndexOfTriple(s: string): (r: Option<nat>)
    ensures r.Some? ==> r.value + 3 <= |s|
  {
    if |s| < 3 then None
    else if TripleQuote() <= s then Some(0)
    else match IndexOfTriple(s[1..])
      case Some(n) => Some(n + 1)
      case None => None
  }

  // Offset of the first double quote that no backslash escapes.
  function ClosingQuote(s: string): (r: Option<nat>)
    ensures r.Some? ==> r.value < |s|
    decreases |s|
  {
    if |s| == 0 then None
    else if s[0] == '"' then Some(0)
    else
      var step := if s[0] == '\\' then 2 else 1;
      if |s| < step then None
      else match ClosingQuote(s[step..])
        case Some(n) => Some(n + step)
        case None => None
  }

  function LexString(s: string): (r: Result<(Token, nat), SyntaxError>)
    requires |s| > 0 && s[0] == '"'
    ensures r.Ok? ==> 0 < r.value.1 <= |s|
  {
    if TripleQuote() <= s then
      match IndexOfTriple(s[3..])
      case Some(n) => Ok((Str(s[3..3 + n]), n + 6))
      case None => Err(UnterminatedBlockString)
    else
      match ClosingQuote(s[1..])
      case Some(n) => (
        match UnquoteBody(s[1..n + 1])
        case Some(text) => Ok((Str(text), n + 2))
        case None => Err(InvalidString))
      case None => Err(UnterminatedString)
  }

  function IntegerEnd(s: string): (r: Result<nat, SyntaxError>)
    ensures r.Ok? ==> 0 < r.value <= |s|
  {
    var start := if |s| > 0 && s[0] == '-' then 1 else 0;
    var digits := Span(s[start..], IsDigit);
    if digits == 0 then Err(InvalidNumber) else Ok(start + digits)
  }

  function FractionEnd(s: string, i: nat): (r: Result<nat, SyntaxError>)
    requires i <= |s|
    ensures r.Ok? ==> i <= r.value <= |s|
  {
    if i < |s| && s[i] == '.' then
      var digits := Span(s[i + 1..], IsDigit);
      if digits == 0 then Err(InvalidFloat) else Ok(i + 1 + digits)
    else Ok(i)
  }

  function ExponentEnd(s: string, i: nat): (r: Result<nat, SyntaxError>)
    requires i <= |s|
    ensures r.Ok? ==> i <= r.value <= |s|
  {
    if i < |s| && (s[i] == 'e' || s[i] == 'E') then
      var start := if i + 1 < |s| && (s[i + 1] == '+' || s[i + 1] == '-') then i + 2 else i + 1;
      var digits := Span(s[start..], IsDigit);
      if digits == 0 then Err(InvalidExponent) else Ok(start + digits)
    else Ok(i)
  }

  function NumberEnd(s: string): (r: Result<nat, SyntaxError>)
    ensures r.Ok? ==> 0 < r.value <= |s|
  {
    var i :- IntegerEnd(s);
    var j :- FractionEnd(s, i);
    ExponentEnd(s, j)
  }

  predicate StartsIgnored(s: string) { |s| > 0 && (IsBlank(s[0]) || s[0] == '#') }

  function LexToken(s: string): (r: Result<(Token, nat), SyntaxError>)
    requires |s| > 0
    ensures r.Ok? ==> 0 < r.value.1 <= |s|
  {
    if IsNameStart(s[0]) then
      var n := 1 + Span(s[1..], IsNameContinue);
      Ok((Name(s[..n]), n))
    else if s[0] == '"' then LexString(s)
    else if s[0] == '-' || IsDigit(s[0]) then
      var n :- NumberEnd(s);
      Ok((Number(s[..n]), n))
    else if "..." <= s then Ok((Punct("..."), 3))
    else if IsPunct(s[0]) then Ok((Punct([s[0]]), 1))
    else Err(UnsupportedCharacter(s[0]))
  }

  // How much ignored text starts s: one blank, or a comment up to its newline.
  function IgnoredLength(s: string): (n: nat)
    requires StartsIgnored(s)
    ensures 0 < n <= |s|
  {
    if IsBlank(s[0]) then 1 else Span(s, InComment)
  }

  function Lex(s: string): (r: LexResult)
    decreases |s|
  {
    if |s| == 0 then Ok([])
    else if StartsIgnored(s) then Lex(s[IgnoredLength(s)..])
    else
      var (token, n) :- LexToken(s);
      var tokens :- Lex(s[n..]);
      Ok([token] + tokens)
  }

  // ---------- What the lexer produces ----------

  predicate ValidToken(t: Token) {
    match t
    case Name(text) => |text| > 0 && IsNameStart(text[0]) && forall i :: 0 <= i < |text| ==> IsNameContinue(text[i])
    case Number(text) => NumberEnd(text) == Ok(|text|)
    case Str(_) => true
    case Punct(text) => text == "..." || (|text| == 1 && IsPunct(text[0]))
  }

  ghost predicate ValidTokens(ts: seq<Token>) {
    forall i :: 0 <= i < |ts| ==> ValidToken(ts[i])
  }

  lemma SpanCut(s: string, p: char -> bool, from: nat, n: nat)
    requires from <= n <= |s| && from + Span(s[from..], p) <= n
    ensures Span(s[..n][from..], p) == Span(s[from..], p)
  {
    assert s[..n][from..] == s[from..][..n - from];
    SpanIs(s[..n][from..], p, Span(s[from..], p));
  }

  lemma NumberEndPrefix(s: string, n: nat)
    requires NumberEnd(s) == Ok(n)
    ensures NumberEnd(s[..n]) == Ok(n)
  {
    hide IntegerEnd, FractionEnd, ExponentEnd;
    var i := IntegerEnd(s).value;
    var j := FractionEnd(s, i).value;
    IntegerEndPrefix(s, i, n);
    FractionEndPrefix(s, i, j, n);
    ExponentEndPrefix(s, j, n);
  }

  lemma IntegerEndPrefix(s: string, i: nat, n: nat)
    requires i <= n <= |s| && IntegerEnd(s) == Ok(i)
    ensures IntegerEnd(s[..n]) == Ok(i)
  {
    hide Span;
    SpanCut(s, IsDigit, if s[0] == '-' then 1 else 0, n);
  }

  lemma FractionEndPrefix(s: string, i: nat, j: nat, n: nat)
    requires i <= j <= n <= |s| && FractionEnd(s, i) == Ok(j)
    ensures FractionEnd(s[..n], i) == Ok(j)
  {
    hide Span;
    if i < j { SpanCut(s, IsDigit, i + 1, n); }
  }

  lemma ExponentEndPrefix(s: string, j: nat, n: nat)
    requires j <= n <= |s| && ExponentEnd(s, j) == Ok(n)
    ensures ExponentEnd(s[..n], j) == Ok(n)
  {
    hide Span;
    if j < n {
      var start := if s[j + 1] == '+' || s[j + 1] == '-' then j + 2 else j + 1;
      SpanCut(s, IsDigit, start, n);
    }
  }

  // The lexer only ever produces well-formed tokens.
  lemma {:induction false} LexedTokensValid(s: string)
    requires Lex(s).Ok?
    ensures ValidTokens(Lex(s).value)
    decreases |s|
  {
    hide LexToken, ValidToken, StartsIgnored;
    if |s| != 0 {
      if StartsIgnored(s) {
        LexedTokensValid(s[IgnoredLength(s)..]);
      } else {
        LexedTokenValid(s);
        LexedTokensValid(s[LexToken(s).value.1..]);
      }
    }
  }

  lemma LexedTokenValid(s: string)
    requires |s| > 0 && !StartsIgnored(s) && LexToken(s).Ok?
    ensures ValidToken(LexToken(s).value.0)
  {
    hide IsLetter, IsSpace, IsPunct, IsNameStart, IsNameContinue, LexString, NumberEnd;
    if IsNameStart(s[0]) {
      NameTokenValid(s, 1 + Span(s[1..], IsNameContinue));
    } else if s[0] == '"' {
      StringTokenValid(s);
    } else if s[0] == '-' || IsDigit(s[0]) {
      NumberTokenValid(s);
    }
  }

  lemma NumberTokenValid(s: string)
    requires NumberEnd(s).Ok?
    ensures ValidToken(Number(s[..NumberEnd(s).value]))
  {
    hide NumberEnd;
    NumberEndPrefix(s, NumberEnd(s).value);
  }

  lemma NameTokenValid(s: string, n: nat)
    requires |s| > 0 && IsNameStart(s[0]) && n == 1 + Span(s[1..], IsNameContinue)
    ensures ValidToken(Name(s[..n]))
  {
    hide IsNameStart;
    forall i | 0 <= i < n ensures IsNameContinue(s[..n][i]) {
      if i == 0 { StartContinues(s[0]); } else { assert s[..n][i] == s[1..][i - 1]; }
    }
  }

  lemma StartContinues(c: char)
    requires IsNameStart(c)
    ensures IsNameContinue(c)
  {
  }

  lemma StringTokenValid(s: string)
    requires |s| > 0 && s[0] == '"' && LexString(s).Ok?
    ensures LexString(s).value.0.Str?
  {
  }

  // ---------- The loops of the source ----------

  ghost function Shift(r: Option<nat>, n: nat): (r': Option<nat>) {
    match r case Some(k) => Some(k + n) case None => None
  }

  lemma NoClosingQuote(query: string)
    ensures ClosingQuote(query[|query|..]) == None
  {
  }

  lemma ClosingQuoteStep(query: string, i: nat)
    requires i < |query|
    ensures ClosingQuote(query[i..]) ==
      if query[i] == '"' then Some(0)
      else if query[i] != '\\' then Shift(ClosingQuote(query[i + 1..]), 1)
      else if i + 2 <= |query| then Shift(ClosingQuote(query[i + 2..]), 2)
      else None
  {
    var here := query[i..];
    assert here[1..] == query[i + 1..];
    assert |here| >= 2 ==> here[2..] == query[i + 2..];
  }

  method FindClosingQuote(query: string, start: nat) returns (r: Option<nat>)
    requires start <= |query|
    ensures r == Shift(ClosingQuote(query[start..]), start)
  {
    hide ClosingQuote;
    NoClosingQuote(query);
    var i := start;
    while i < |query|
      invariant start <= i
      invariant i <= |query| ==> ClosingQuote(query[start..]) == Shift(ClosingQuote(query[i..]), i - start)
      invariant i > |query| ==> ClosingQuote(query[start..]) == None
    {
      ClosingQuoteStep(query, i);
      if query[i] == '\\' {
        i := i + 2;
        continue;
      }
      if query[i] == '"' {
        return Some(i);
      }
      i := i + 1;
    }
    return None;
  }

  method ReadGraphQLString(query: string, start: nat) returns (r: Result<(string, nat), SyntaxError>)
    requires start < |query| && query[start] == '"'
    ensures LexString(query[start..]) ==
            match r case Ok((text, next)) => Ok((Str(text), next - start)) case Err(e) => Err(e)
    ensures r.Ok? ==> start < r.value.1 <= |query|
  {
    hide UnquoteBody, IndexOfTriple, ClosingQuote;
    ghost var s := query[start..];
    if TripleQuote() <= query[start..] {
      var end := IndexOfTriple(query[start + 3..]);
      assert query[start + 3..] == s[3..];
      if end.None? {
        return Err(UnterminatedBlockString);
      }
      assert query[start + 3..start + 3 + end.value] == s[3..3 + end.value];
      return Ok((query[start + 3..start + 3 + end.value], start + 3 + end.value + 3));
    }
    var close := FindClosingQuote(query, start + 1);
    assert query[start + 1..] == s[1..];
    if close.None? {
      return Err(UnterminatedString);
    }
    assert query[start + 1..close.value] == s[1..close.value - start];
    var unquoted := UnquoteBody(query[start + 1..close.value]);
    if unquoted.None? {
      return Err(InvalidString);
    }
    return Ok((unquoted.value, close.value + 1));
  }

  method SkipWhile(query: string, start: nat, p: char -> bool) returns (i: nat)
    requires start <= |query|
    ensures i == start + Span(query[start..], p)
  {
    i := start;
    while i < |query| && p(query[i])
      invariant start <= i <= |query|
      invariant forall k :: start <= k < i ==> p(query[k])
    {
      i := i + 1;
    }
    SpanIs(query[start..], p, i - start);
  }

  method ReadDigits(query: string, start: nat, from: nat, error: SyntaxError) returns (r: Result<nat, SyntaxError>)
    requires start <= from <= |query|
    ensures var digits := Span(query[start..][from - start..], IsDigit);
      r == if digits == 0 then Err(error) else Ok(from + digits)
  {
    assert query[start..][from - start..] == query[from..];
    var end := SkipWhile(query, from, IsDigit);
    return if end == from then Err(error) else Ok(end);
  }

  method ReadFraction(query: string, start: nat, i: nat) returns (r: Result<nat, SyntaxError>)
    requires start <= i <= |query|
    ensures FractionEnd(query[start..], i - start) == match r case Ok(j) => Ok(j - start) case Err(e) => Err(e)
    ensures r.Ok? ==> i <= r.value <= |query|
  {
    hide Span;
    if i < |query| && query[i] == '.' {
      r := ReadDigits(query, start, i + 1, InvalidFloat);
    } else {
      r := Ok(i);
    }
  }

  method ReadExponent(query: string, start: nat, i: nat) returns (r: Result<nat, SyntaxError>)
    requires start <= i <= |query|
    ensures ExponentEnd(query[start..], i - start) == match r case Ok(j) => Ok(j - start) case Err(e) => Err(e)
    ensures r.Ok? ==> i <= r.value <= |query|
  {
    hide Span;
    if i < |query| && (query[i] == 'e' || query[i] == 'E') {
      var signed := i + 1 < |query| && (query[i + 1] == '+' || query[i + 1] == '-');
      r := ReadDigits(query, start, if signed then i + 2 else i + 1, InvalidExponent);
    } else {
      r := Ok(i);
    }
  }

  method ReadGraphQLNumber(query: string, start: nat) returns (r: Result<(string, nat), SyntaxError>)
    requires start < |query|
    ensures NumberEnd(query[start..]) == match r case Ok((text, next)) => Ok(next - start) case Err(e) => Err(e)
    ensures r.Ok? ==> start < r.value.1 <= |query| && r.value.0 == query[start..r.value.1]
  {
    hide Span, FractionEnd, ExponentEnd;
    ghost var s := query[start..];
    var digits := ReadDigits(query, start, if query[start] == '-' then start + 1 else start, InvalidNumber);
    if digits.Err? {
      return Err(digits.error);
    }
    assert IntegerEnd(s) == Ok(digits.value - start);
    var fraction := ReadFraction(query, start, digits.value);
    if fraction.Err? {
      return Err(fraction.error);
    }
    var exponent := ReadExponent(query, start, fraction.value);
    if exponent.Err? {
      return Err(exponent.error);
    }
    return Ok((query[start..exponent.value], exponent.value));
  }

  // What is still to be lexed, put after what has been lexed already.
  ghost function Continue(done: seq<Token>, rest: LexResult): (r: LexResult) {
    match rest case Ok(more) => Ok(done + more) case Err(e) => Err(e)
  }

  lemma LexOne(query: string, i: nat, done: seq<Token>)
    requires i < |query| && !StartsIgnored(query[i..]) && LexToken(query[i..]).Ok?
    ensures var (token, n) := LexToken(query[i..]).value;
      Continue(done, Lex(query[i..])) == Continue(done + [token], Lex(query[i + n..]))
  {
    hide LexToken;
    var (token, n) := LexToken(query[i..]).value;
    assert query[i..][n..] == query[i + n..];
    match Lex(query[i + n..]) {
      case Ok(more) => assert done + [token] + more == done + ([token] + more);
      case Err(_) =>
    }
  }

  lemma LexSkip(query: string, i: nat)
    requires i < |query| && StartsIgnored(query[i..])
    ensures Lex(query[i..]) == Lex(query[i + IgnoredLength(query[i..])..])
  {
    assert query[i..][IgnoredLength(query[i..])..] == query[i + IgnoredLength(query[i..])..];
  }

  method TokenizeGraphQL(query: string) returns (r: LexResult)
    ensures r == Lex(query)
  {
    hide Lex, LexString, NumberEnd, Span, IsLetter, IsSpace, IsPunct;
    var tokens: seq<Token> := [];
    var i := 0;
    assert Continue([], Lex(query)) == Lex(query) by {
      assert Lex(query).Ok? ==> [] + Lex(query).value == Lex(query).value;
    }
    assert query[0..] == query;
    while i < |query|
      invariant i <= |query|
      invariant Lex(query) == Continue(tokens, Lex(query[i..]))
    {
      var c := query[i];
      ghost var s := query[i..];
      if IsBlank(c) {
        LexSkip(query, i);
        i := i + 1;
        continue;
      }
      if c == '#' {
        LexSkip(query, i);
        i := SkipWhile(query, i, InComment);
        continue;
      }
      var token: Token;
      var next;
      if IsNameStart(c) {
        assert query[i + 1..] == s[1..];
        next := SkipWhile(query, i + 1, IsNameContinue);
        token := Name(query[i..next]);
        assert query[i..next] == s[..next - i];
      } else if c == '"' {
        var read := ReadGraphQLString(query, i);
        if read.Err? {
          LexFails(s, read.error);
          return Err(read.error);
        }
        token, next := Str(read.value.0), read.value.1;
      } else if c == '-' || IsDigit(c) {
        var read := ReadGraphQLNumber(query, i);
        if read.Err? {
          LexFails(s, read.error);
          return Err(read.error);
        }
        token, next := Number(read.value.0), read.value.1;
        assert query[i..next] == s[..next - i];
      } else if "..." <= query[i..] {
        token, next := Punct("..."), i + 3;
      } else if IsPunct(c) {
        token, next := Punct([c]), i + 1;
      } else {
        LexFails(s, UnsupportedCharacter(c));
        return Err(UnsupportedCharacter(c));
      }
      LexOne(query, i, tokens);
      tokens := tokens + [token];
      i := next;
    }
    LexEmpty();
    assert query[i..] == "" && tokens + [] == tokens;
    return Ok(tokens);
  }

  lemma LexFails(s: string, e: SyntaxError)
    requires |s| > 0 && !StartsIgnored(s) && LexToken(s) == Err(e)
    ensures Lex(s) == Err(e)
  {
    hide LexToken;
  }

  lemma LexEmpty()
    ensures Lex("") == Ok([])
  {
  }
}
