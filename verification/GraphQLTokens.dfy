// The lexical level of internal/matcher/graphql.go: tokens, the lexer as a
// function, and what the lexer promises (formatting is insignificant).
//
// The lexer works byte by byte, reading each byte as a Latin-1 code point; here
// a byte is a char below 256.
module GraphQLTokens {
  import opened Wrappers
  import opened Utf8

  datatype Token =
    | Name(text: string)
    | Str(text: string)
    | Number(text: string)
    | Punct(text: string)

  datatype SyntaxError =
    | UnsupportedCharacter(c: char)
    | UnterminatedBlockString
    | UnterminatedString
    | InvalidString
    | InvalidNumber
    | InvalidFloat
    | InvalidExponent
    | EmptyQuery
    | ExpectedName
    | ExpectedNameValue(name: string)
    | ExpectedToken(punct: string)
    | ExpectedDefinition
    | ExpectedValue
    | EmptySelectionSet

  // ---------- Character classes ----------

  // unicode.IsSpace restricted to one byte.
  predicate IsSpace(c: char) {
    c == '\t' || c == '\n' || c == '\U{000B}' || c == '\U{000C}' || c == '\r' || c == ' '
    || c == '\U{0085}' || c == '\U{00A0}'
  }

  // unicode.IsLetter restricted to one byte.
  predicate IsLetter(c: char) {
    'A' <= c <= 'Z' || 'a' <= c <= 'z'
    || c == '\U{00AA}' || c == '\U{00B5}' || c == '\U{00BA}'
    || '\U{00C0}' <= c <= '\U{00D6}' || '\U{00D8}' <= c <= '\U{00F6}' || '\U{00F8}' <= c <= '\U{00FF}'
  }

  predicate IsDigit(c: char) { '0' <= c <= '9' }

  predicate IsNameStart(c: char) { c == '_' || IsLetter(c) }

  predicate IsNameContinue(c: char) { IsNameStart(c) || IsDigit(c) }

  predicate IsBlank(c: char) { c == ',' || IsSpace(c) }

  predicate IsNewline(c: char) { c == '\n' || c == '\r' }

  predicate InComment(c: char) { !IsNewline(c) }

  predicate IsPunct(c: char) {
    c == '!' || c == '$' || c == '(' || c == ')' || c == ':' || c == '=' || c == '@'
    || c == '[' || c == ']' || c == '{' || c == '}' || c == '|'
  }

  // Each character starts at most one kind of token.
  lemma TokenStarts(c: char)
    ensures IsNameStart(c) || c == '"' || c == '-' || IsDigit(c) || c == '.' || IsPunct(c) ==> !IsBlank(c) && c != '#'
    ensures IsNameStart(c) ==> c != '"' && c != '-' && !IsDigit(c) && c != '.' && !IsPunct(c)
    ensures IsPunct(c) ==> c != 'e' && c != 'E' && c != '"' && c != '-' && !IsDigit(c) && c != '.' && !IsNameContinue(c)
    ensures !IsNameContinue('"') && !IsNameContinue('-') && !IsNameContinue('.')
  {
  }

  // Length of the longest prefix whose characters all satisfy p.
  function Span(s: string, p: char -> bool): (n: nat)
    ensures n <= |s|
    ensures forall i :: 0 <= i < n ==> p(s[i])
    ensures n < |s| ==> !p(s[n])
  {
    if |s| != 0 && p(s[0]) then 1 + Span(s[1..], p) else 0
  }

  lemma SpanIs(s: string, p: char -> bool, n: nat)
    requires n <= |s|
    requires forall i :: 0 <= i < n ==> p(s[i])
    requires n < |s| ==> !p(s[n])
    ensures Span(s, p) == n
  {
  }

  // ---------- Quoting ----------

  function HexDigit(n: nat): (c: char)
    requires n < 16
    ensures HexValue(c) == Some(n)
  {
    if n < 10 then '0' + n as char else 'a' + (n - 10) as char
  }

  function HexValue(c: char): (r: Option<nat>)
    ensures r.Some? ==> r.value < 16
  {
    if '0' <= c <= '9' then Some((c - '0') as nat)
    else if 'a' <= c <= 'f' then Some((c - 'a') as nat + 10)
    else if 'A' <= c <= 'F' then Some((c - 'A') as nat + 10)
    else None
  }

  // The escapes of one letter shared by strconv.Quote and strconv.Unquote.
  function LetterEscape(e: char): (r: Option<char>) {
    match e
    case 'a' => Some('\U{0007}')
    case 'b' => Some('\U{0008}')
    case 'f' => Some('\U{000C}')
    case 'n' => Some('\n')
    case 'r' => Some('\r')
    case 't' => Some('\t')
    case 'v' => Some('\U{000B}')
    case '\\' => Some('\\')
    case '"' => Some('"')
    case _ => None
  }

  // v in n hexadecimal digits.
  function HexDigits(v: nat, n: nat): (s: string)
    ensures |s| == n
  {
    if n == 0 then "" else HexDigits(v / 16, n - 1) + [HexDigit(v % 16)]
  }

  // Whether strconv.IsPrint holds of a character beyond ASCII, given in UTF-8. Which
  // characters these are is left open.
  const Printable: string -> bool

  // strconv.Quote on one ASCII character.
  function QuoteChar(c: char): (r: string) {
    match c
    case '"' => "\\\""
    case '\\' => "\\\\"
    case '\U{0007}' => "\\a"
    case '\U{0008}' => "\\b"
    case '\U{000C}' => "\\f"
    case '\n' => "\\n"
    case '\r' => "\\r"
    case '\t' => "\\t"
    case '\U{000B}' => "\\v"
    case _ => if c < ' ' || c == '\U{007F}' then "\\x" + HexDigits(c as nat, 2) else [c]
  }

  // strconv.Quote on the first character, and how many bytes it takes: bytes that
  // start no character are escaped one by one. (Characters from 256 up are no bytes.)
  function QuoteFirst(s: string): (r: (string, nat))
    requires |s| > 0
    ensures 0 < r.1 <= |s|
  {
    if s[0] < '\U{0080}' || s[0] > '\U{00FF}' then (QuoteChar(s[0]), 1)
    else if RuneSize(s) == 0 then ("\\x" + HexDigits(s[0] as nat, 2), 1)
    else
      var character, v := s[..RuneSize(s)], RuneValue(s);
      if Printable(character) then (character, |character|)
      else if v < 0x1_0000 then ("\\u" + HexDigits(v, 4), |character|)
      else ("\\U" + HexDigits(v, 8), |character|)
  }

  // No quote, no backslash and no line break.
  predicate IsVerbatim(s: string) { forall i :: 0 <= i < |s| ==> s[i] != '"' && s[i] != '\\' && s[i] != '\n' }

  // What quoting a character gives stands for itself or is an escape of one letter,
  // perhaps followed by digits.
  predicate IsPiece(q: string) { IsVerbatim(q) || (|q| >= 2 && q[0] == '\\' && IsVerbatim(q[2..])) }

  lemma {:induction false} HexVerbatim(v: nat, n: nat)
    ensures IsVerbatim(HexDigits(v, n))
  {
    if n > 0 { HexVerbatim(v / 16, n - 1); }
  }

  lemma QuotePiece(s: string)
    requires |s| > 0
    ensures var (q, n) := QuoteFirst(s); IsPiece(q) && |q| > 0 && q[0] != '"'
  {
    hide HexDigits;
    if s[0] < '\U{0080}' || s[0] > '\U{00FF}' {
      HexVerbatim(s[0] as nat, 2);
      EscapeTail("\\x", s[0] as nat, 2);
    } else if RuneSize(s) == 0 {
      EscapeTail("\\x", s[0] as nat, 2);
    } else {
      EscapeTail("\\u", RuneValue(s), 4);
      EscapeTail("\\U", RuneValue(s), 8);
      HighVerbatim(s);
    }
  }

  lemma EscapeTail(escape: string, v: nat, n: nat)
    requires |escape| == 2
    ensures IsVerbatim((escape + HexDigits(v, n))[2..])
  {
    HexVerbatim(v, n);
    assert (escape + HexDigits(v, n))[2..] == HexDigits(v, n);
  }

  // A character beyond ASCII has no ASCII byte.
  lemma HighVerbatim(s: string)
    requires |s| > 0 && s[0] >= '\U{0080}'
    ensures IsVerbatim(s[..RuneSize(s)])
  {
  }

  function QuoteBody(s: string): (r: string)
    decreases |s|
  {
    if |s| == 0 then "" else QuoteFirst(s).0 + QuoteBody(s[QuoteFirst(s).1..])
  }

  function Quote(s: string): (r: string) { "\"" + QuoteBody(s) + "\"" }

  // The value of the first n hexadecimal digits, if they are all there.
  function HexNumber(s: string, n: nat): (r: Option<nat>) {
    if n == 0 then Some(0)
    else if |s| < n then None
    else match (HexNumber(s, n - 1), HexValue(s[n - 1]))
      case (Some(high), Some(low)) => Some(16 * high + low)
      case _ => None
  }

  function UnquoteRune(s: string, digits: nat): (r: Option<string>) {
    match HexNumber(s, digits)
    case Some(v) => if IsScalar(v) then Some(EncodeRune(v)) else None
    case None => None
  }

  function OctalNumber(s: string): (r: Option<nat>)
    ensures r.Some? ==> r.value < 256
  {
    if |s| >= 3 && (forall i :: 0 <= i < 3 ==> '0' <= s[i] <= '7')
    then
      var v := 64 * (s[0] - '0') as nat + 8 * (s[1] - '0') as nat + (s[2] - '0') as nat;
      if v < 256 then Some(v) else None
    else None
  }

  // strconv.Unquote between double quotes. A byte that starts no character becomes U+FFFD.
  function UnquoteBody(s: string): (r: Option<string>)
    decreases |s|
  {
    if |s| == 0 then Some("")
    else if s[0] == '\n' || s[0] == '"' then None
    else if '\U{0080}' <= s[0] <= '\U{00FF}' then
      var n := RuneSize(s);
      if n == 0 then Then(REPLACEMENT, UnquoteBody(s[1..])) else Then(s[..n], UnquoteBody(s[n..]))
    else if s[0] != '\\' then Then([s[0]], UnquoteBody(s[1..]))
    else if |s| == 1 then None
    else if LetterEscape(s[1]).Some? then Then([LetterEscape(s[1]).value], UnquoteBody(s[2..]))
    else if s[1] == 'x' && |s| >= 4 then
      match HexNumber(s[2..], 2)
      case Some(v) => if v < 256 then Then([v as char], UnquoteBody(s[4..])) else None
      case None => None
    else if s[1] == 'u' && |s| >= 6 then
      match UnquoteRune(s[2..], 4)
      case Some(t) => Then(t, UnquoteBody(s[6..]))
      case None => None
    else if s[1] == 'U' && |s| >= 10 then
      match UnquoteRune(s[2..], 8)
      case Some(t) => Then(t, UnquoteBody(s[10..]))
      case None => None
    else if |s| >= 4 then
      match OctalNumber(s[1..])
      case Some(v) => Then([v as char], UnquoteBody(s[4..]))
      case None => None
    else None
  }

  function Then(head: string, tail: Option<string>): (r: Option<string>) {
    if tail.Some? then Some(head + tail.value) else None
  }

  // v has at most n hexadecimal digits.
  predicate Fits(v: nat, n: nat) { if n == 0 then v == 0 else Fits(v / 16, n - 1) }

  lemma {:induction false} ReadHex(v: nat, n: nat, rest: string)
    requires Fits(v, n)
    ensures HexNumber(HexDigits(v, n) + rest, n) == Some(v)
  {
    if n > 0 {
      var high, last := HexDigits(v / 16, n - 1), [HexDigit(v % 16)];
      ReadHex(v / 16, n - 1, last + rest);
      assert high + last + rest == high + (last + rest);
    }
  }

  lemma BytesFit(v: nat)
    ensures v < 256 ==> Fits(v, 2)
    ensures v < 0x1_0000 ==> Fits(v, 4)
    ensures v < 0x11_0000 ==> Fits(v, 8)
  {
    SmallFits(v);
    SmallFits(v / 16 / 16);
    SmallFits(v / 16 / 16 / 16 / 16);
    SmallFits(v / 16 / 16 / 16 / 16 / 16 / 16);
    if v < 0x11_0000 {
      assert Fits(v / 16 / 16 / 16 / 16, 4);
      assert Fits(v / 16 / 16 / 16, 5) && Fits(v / 16 / 16, 6) && Fits(v / 16, 7);
    }
  }

  lemma SmallFits(v: nat)
    ensures Fits(v, 2) <==> v < 256
  {
    assert Fits(v / 16, 1) <==> v / 16 < 16;
  }

  // The lead of an escape in front of its digits.
  lemma EscapeSplits(letter: char, digits: string, rest: string)
    ensures var s := ['\\', letter] + digits + rest;
      |s| == 2 + |digits| + |rest| && s[0] == '\\' && s[1] == letter && s[2..] == digits + rest
      && s[2 + |digits|..] == rest
  {
    assert ['\\', letter] + digits + rest == ['\\', letter] + (digits + rest);
  }

  lemma UnquoteByte(v: nat, rest: string)
    requires v < 256
    ensures UnquoteBody("\\x" + HexDigits(v, 2) + rest) == Then([v as char], UnquoteBody(rest))
  {
    hide HexDigits, HexNumber, Fits;
    BytesFit(v);
    ReadHex(v, 2, rest);
    EscapeSplits('x', HexDigits(v, 2), rest);
    assert "\\x" == ['\\', 'x'] && LetterEscape('x') == None;
  }

  lemma UnquoteShort(v: nat, rest: string)
    requires IsScalar(v) && v < 0x1_0000
    ensures UnquoteBody("\\u" + HexDigits(v, 4) + rest) == Then(EncodeRune(v), UnquoteBody(rest))
  {
    hide HexDigits, HexNumber, Fits, EncodeRune;
    BytesFit(v);
    ReadHex(v, 4, rest);
    EscapeSplits('u', HexDigits(v, 4), rest);
    assert "\\u" == ['\\', 'u'] && LetterEscape('u') == None;
  }

  lemma UnquoteLong(v: nat, rest: string)
    requires IsScalar(v)
    ensures UnquoteBody("\\U" + HexDigits(v, 8) + rest) == Then(EncodeRune(v), UnquoteBody(rest))
  {
    hide HexDigits, HexNumber, Fits, EncodeRune;
    BytesFit(v);
    ReadHex(v, 8, rest);
    EscapeSplits('U', HexDigits(v, 8), rest);
    assert "\\U" == ['\\', 'U'] && LetterEscape('U') == None;
  }

  lemma UnquoteLetter(c: char, rest: string)
    requires |QuoteChar(c)| == 2
    ensures UnquoteBody(QuoteChar(c) + rest) == Then([c], UnquoteBody(rest))
  {
    hide HexDigits;
    var q := QuoteChar(c) + rest;
    assert q[2..] == rest && q[0] == '\\' && q[1] == QuoteChar(c)[1];
    assert LetterEscape(q[1]) == Some(c);
  }

  lemma UnquotePlain(c: char, rest: string)
    requires c != '"' && c != '\\' && c != '\n' && !('\U{0080}' <= c <= '\U{00FF}')
    ensures UnquoteBody([c] + rest) == Then([c], UnquoteBody(rest))
  {
    assert ([c] + rest)[1..] == rest;
  }

  lemma UnquoteCharacter(s: string, rest: string)
    requires RuneSize(s) > 0 && '\U{0080}' <= s[0] <= '\U{00FF}'
    ensures UnquoteBody(s[..RuneSize(s)] + rest) == Then(s[..RuneSize(s)], UnquoteBody(rest))
  {
    hide RuneSize;
    var n := RuneSize(s);
    RuneSizeAgain(s, rest);
    assert (s[..n] + rest)[..n] == s[..n] && (s[..n] + rest)[n..] == rest;
  }

  lemma UnquoteChar(c: char, rest: string)
    requires c < '\U{0080}' || c > '\U{00FF}'
    ensures UnquoteBody(QuoteChar(c) + rest) == Then([c], UnquoteBody(rest))
  {
    hide HexDigits, UnquoteBody;
    if |QuoteChar(c)| == 1 {
      UnquotePlain(c, rest);
    } else if |QuoteChar(c)| == 2 {
      UnquoteLetter(c, rest);
    } else {
      UnquoteByte(c as nat, rest);
    }
  }

  // The quoted first character reads back as it was.
  lemma UnquoteFirst(s: string, rest: string)
    requires |s| > 0
    ensures var (q, n) := QuoteFirst(s); UnquoteBody(q + rest) == Then(s[..n], UnquoteBody(rest))
  {
    hide HexDigits, UnquoteBody, QuoteChar, EncodeRune, RuneSize, RuneValue;
    assert s[..1] == [s[0]];
    if s[0] < '\U{0080}' || s[0] > '\U{00FF}' {
      UnquoteChar(s[0], rest);
    } else if RuneSize(s) == 0 {
      UnquoteByte(s[0] as nat, rest);
    } else {
      var v := RuneValue(s);
      EncodeRuneValue(s);
      UnquoteCharacter(s, rest);
      if v < 0x1_0000 { UnquoteShort(v, rest); } else { UnquoteLong(v, rest); }
    }
  }

  lemma {:induction false} UnquoteQuoted(s: string)
    ensures UnquoteBody(QuoteBody(s)) == Some(s)
    decreases |s|
  {
    hide UnquoteBody, QuoteFirst;
    if |s| == 0 {
      NothingQuoted();
    } else {
      var n := QuoteFirst(s).1;
      UnquoteQuoted(s[n..]);
      UnquoteFirst(s, QuoteBody(s[n..]));
      assert s == s[..n] + s[n..];
    }
  }

  lemma NothingQuoted()
    ensures UnquoteBody("") == Some("")
  {
  }

  // Quoting loses nothing: different texts have different quoted forms.
  lemma QuoteInjective(s: string, t: string)
    requires Quote(s) == Quote(t)
    ensures s == t
  {
    assert Quote(s)[1..|Quote(s)| - 1] == QuoteBody(s);
    assert Quote(t)[1..|Quote(t)| - 1] == QuoteBody(t);
    UnquoteQuoted(s);
    UnquoteQuoted(t);
  }
}
