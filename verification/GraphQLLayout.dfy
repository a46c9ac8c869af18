// The lexer reads what GraphQLSpelling writes, and nothing else: how a document is
// formatted and how its strings and numbers are spelled is insignificant.
module GraphQLLayout {
  import opened Wrappers
  import opened Sequences
  import opened Utf8
  import opened GraphQLTokens
  import opened GraphQLSpelling
  import opened GraphQLLexer

  // ---------- Escapes ----------

  lemma DigitRead(c: char, n: nat)
    requires IsDigitOf(c, n)
    ensures HexValue(c) == Some(n)
  {
  }

  lemma ReadDigit(c: char)
    requires HexValue(c).Some?
    ensures IsDigitOf(c, HexValue(c).value)
  {
  }

  lemma {:induction false} HexRead(digits: string, v: nat, rest: string)
    requires Writes(digits, 16, v)
    ensures HexNumber(digits + rest, |digits|) == Some(v)
  {
    if |digits| > 0 {
      var n := |digits| - 1;
      HexRead(digits[..n], v / 16, [digits[n]] + rest);
      assert digits[..n] + ([digits[n]] + rest) == digits + rest;
      DigitRead(digits[n], v % 16);
    }
  }

  lemma {:induction false} ReadHexWrites(s: string, n: nat)
    requires n <= |s| && HexNumber(s, n).Some?
    ensures Writes(s[..n], 16, HexNumber(s, n).value)
  {
    if n > 0 {
      ReadHexWrites(s, n - 1);
      ReadDigit(s[n - 1]);
      var v := HexNumber(s, n).value;
      assert v / 16 == HexNumber(s, n - 1).value && v % 16 == HexValue(s[n - 1]).value;
      assert s[..n][..n - 1] == s[..n - 1];
    }
  }

  lemma OctalDigit(c: char, n: nat)
    requires n < 8
    ensures IsDigitOf(c, n) <==> '0' <= c <= '7' && (c - '0') as nat == n
  {
  }

  lemma OctalRead(digits: string, v: nat, rest: string)
    requires |digits| == 3 && Writes(digits, 8, v) && v < 256
    ensures OctalNumber(digits + rest) == Some(v)
  {
    var s := digits + rest;
    assert digits[..2][..1][..0] == "" && digits[..2][1] == digits[1] && digits[..2][..1][0] == digits[0];
    assert Writes(digits[..2], 8, v / 8) && Writes(digits[..2][..1], 8, v / 8 / 8);
    assert Writes("", 8, v / 8 / 8 / 8);
    OctalDigit(s[0], v / 8 / 8 % 8);
    OctalDigit(s[1], v / 8 % 8);
    OctalDigit(s[2], v % 8);
  }

  lemma {:induction false} ReadOctalWrites(s: string)
    requires OctalNumber(s).Some?
    ensures Writes(s[..3], 8, OctalNumber(s).value)
  {
    hide Writes;
    var a, b, c := (s[0] - '0') as nat, (s[1] - '0') as nat, (s[2] - '0') as nat;
    NothingWritten();
    OctalDigitWritten("", 0, s[0], a);
    OctalDigitWritten("" + [s[0]], a, s[1], b);
    OctalDigitWritten("" + [s[0]] + [s[1]], a * 8 + b, s[2], c);
    assert s[..3] == "" + [s[0]] + [s[1]] + [s[2]];
  }

  lemma NothingWritten()
    ensures Writes("", 8, 0)
  {
  }

  lemma {:induction false} OctalDigitWritten(digits: string, v: nat, c: char, low: nat)
    requires Writes(digits, 8, v) && '0' <= c <= '7' && low == (c - '0') as nat
    ensures Writes(digits + [c], 8, v * 8 + low)
  {
    OctalDigit(c, low);
    assert (digits + [c])[..|digits|] == digits;
    assert (v * 8 + low) / 8 == v && (v * 8 + low) % 8 == low;
  }

  // ---------- Strings in quotes ----------

  // A part reads as its value.
  lemma PartReads(p: StringPart, rest: string)
    requires ValidPart(p, rest)
    ensures UnquoteBody(PartText(p) + rest) == Then(PartValue(p, rest), UnquoteBody(rest))
  {
    hide UnquoteBody, HexNumber, OctalNumber, EncodeRune, RuneSize, Writes;
    match p
    case Character(text) =>
      if '\U{0080}' <= text[0] <= '\U{00FF}' {
        assert text[..RuneSize(text)] == text;
        UnquoteCharacter(text, rest);
      } else {
        assert text == [text[0]];
        UnquotePlain(text[0], rest);
      }
    case Stray(c) => StrayReads(c, rest);
    case Escape(letter) => EscapeReads(letter, rest);
    case Octal(digits, v) => OctalReads(digits, v, rest);
    case Hex(digits, v) => HexReads(digits, v, rest);
    case ShortCode(digits, v) => ShortReads(digits, v, rest);
    case LongCode(digits, v) => LongReads(digits, v, rest);
  }

  lemma StrayReads(c: char, rest: string)
    requires '\U{0080}' <= c <= '\U{00FF}' && RuneSize([c] + rest) == 0
    ensures UnquoteBody([c] + rest) == Then(REPLACEMENT, UnquoteBody(rest))
  {
    hide RuneSize;
    assert ([c] + rest)[1..] == rest;
  }

  lemma EscapeReads(letter: char, rest: string)
    requires letter in ESCAPES
    ensures UnquoteBody(['\\', letter] + rest) == Then([ESCAPES[letter]], UnquoteBody(rest))
  {
    assert (['\\', letter] + rest)[2..] == rest;
    assert LetterEscape(letter) == Some(ESCAPES[letter]);
  }

  lemma OctalReads(digits: string, v: nat, rest: string)
    requires ValidPart(Octal(digits, v), rest)
    ensures UnquoteBody("\\" + digits + rest) == Then([v as char], UnquoteBody(rest))
  {
    hide OctalNumber, Writes;
    var s := "\\" + digits + rest;
    assert s == "\\" + (digits + rest);
    assert s[1..] == digits + rest && s[4..] == rest;
    OctalRead(digits, v, rest);
    FirstOctal(digits, v, rest);
  }

  lemma FirstOctal(digits: string, v: nat, rest: string)
    requires OctalNumber(digits + rest) == Some(v) && |digits| == 3
    ensures '0' <= digits[0] <= '7' && LetterEscape(digits[0]) == None
  {
    assert (digits + rest)[0] == digits[0];
  }

  lemma HexReads(digits: string, v: nat, rest: string)
    requires |digits| == 2 && Writes(digits, 16, v)
    ensures v < 256 && UnquoteBody("\\x" + digits + rest) == Then([v as char], UnquoteBody(rest))
  {
    hide HexNumber, Writes;
    HexBound(digits, v);
    HexRead(digits, v, rest);
    EscapeSplits('x', digits, rest);
    assert "\\x" == ['\\', 'x'] && LetterEscape('x') == None;
  }

  lemma ShortReads(digits: string, v: nat, rest: string)
    requires |digits| == 4 && Writes(digits, 16, v) && IsScalar(v)
    ensures UnquoteBody("\\u" + digits + rest) == Then(EncodeRune(v), UnquoteBody(rest))
  {
    hide HexNumber, Writes, EncodeRune;
    HexRead(digits, v, rest);
    EscapeSplits('u', digits, rest);
    assert "\\u" == ['\\', 'u'] && LetterEscape('u') == None;
  }

  lemma LongReads(digits: string, v: nat, rest: string)
    requires |digits| == 8 && Writes(digits, 16, v) && IsScalar(v)
    ensures UnquoteBody("\\U" + digits + rest) == Then(EncodeRune(v), UnquoteBody(rest))
  {
    hide HexNumber, Writes, EncodeRune;
    HexRead(digits, v, rest);
    EscapeSplits('U', digits, rest);
    assert "\\U" == ['\\', 'U'] && LetterEscape('U') == None;
  }

  // What is read from the start of a string is a part of it.
  lemma ReadPart(s: string) returns (p: StringPart, rest: string)
    requires |s| > 0 && UnquoteBody(s).Some?
    ensures s == PartText(p) + rest && |rest| < |s| && ValidPart(p, rest)
  {
    hide UnquoteBody, HexNumber, OctalNumber, EncodeRune, RuneSize, Writes;
    if s[0] != '\\' {
      p, rest := ReadPlainPart(s);
    } else {
      p, rest := ReadEscape(s);
    }
  }

  lemma ReadPlainPart(s: string) returns (p: StringPart, rest: string)
    requires |s| > 0 && UnquoteBody(s).Some? && s[0] != '\\'
    ensures s == PartText(p) + rest && |rest| < |s| && ValidPart(p, rest)
  {
    hide RuneSize;
    var n := RuneSize(s);
    if '\U{0080}' <= s[0] <= '\U{00FF}' {
      if n == 0 {
        p, rest := Stray(s[0]), s[1..];
        assert [s[0]] + s[1..] == s;
      } else {
        p, rest := Character(s[..n]), s[n..];
        RuneSizeAgain(s, "");
        assert s[..n] + "" == s[..n];
      }
    } else {
      p, rest := Character([s[0]]), s[1..];
    }
  }

  lemma ReadEscape(s: string) returns (p: StringPart, rest: string)
    requires |s| > 0 && UnquoteBody(s).Some? && s[0] == '\\'
    ensures s == PartText(p) + rest && |rest| < |s| && ValidPart(p, rest)
  {
    hide HexNumber, OctalNumber, EncodeRune, Writes;
    assert |s| >= 2;
    if LetterEscape(s[1]).Some? {
      p, rest := Escape(s[1]), s[2..];
    } else if s[1] == 'x' && |s| >= 4 {
      ReadHexWrites(s[2..], 2);
      p, rest := Hex(s[2..][..2], HexNumber(s[2..], 2).value), s[4..];
    } else if s[1] == 'u' && |s| >= 6 {
      ReadHexWrites(s[2..], 4);
      p, rest := ShortCode(s[2..][..4], HexNumber(s[2..], 4).value), s[6..];
    } else if s[1] == 'U' && |s| >= 10 {
      ReadHexWrites(s[2..], 8);
      p, rest := LongCode(s[2..][..8], HexNumber(s[2..], 8).value), s[10..];
    } else {
      ReadOctalWrites(s[1..]);
      p, rest := Octal(s[1..][..3], OctalNumber(s[1..]).value), s[4..];
    }
  }

  lemma {:induction false} PartsRead(ps: seq<StringPart>)
    requires ValidParts(ps)
    ensures UnquoteBody(PartsText(ps)) == Some(PartsValue(ps))
  {
    hide UnquoteBody, ValidPart, PartText, PartValue;
    if |ps| == 0 {
      NothingQuoted();
    } else {
      PartsRead(ps[1..]);
      PartReads(ps[0], PartsText(ps[1..]));
    }
  }

  lemma {:induction false} ReadParts(s: string) returns (ps: seq<StringPart>)
    requires UnquoteBody(s).Some?
    ensures ValidParts(ps) && PartsText(ps) == s && PartsValue(ps) == UnquoteBody(s).value
    decreases |s|
  {
    hide UnquoteBody, ValidPart, PartText, PartValue;
    if |s| == 0 {
      ps := [];
      NothingQuoted();
    } else {
      var p, rest := ReadPart(s);
      PartReads(p, rest);
      var more := ReadParts(rest);
      ps := [p] + more;
      assert ps[1..] == more;
    }
  }

  // strconv.Unquote reads exactly the strings that are written in parts, as their values.
  lemma UnquoteIff(s: string, text: string)
    ensures UnquoteBody(s) == Some(text)
       <==> exists ps :: ValidParts(ps) && PartsText(ps) == s && PartsValue(ps) == text
  {
    if UnquoteBody(s).Some? {
      var ps := ReadParts(s);
    }
    forall ps | ValidParts(ps) && PartsText(ps) == s ensures UnquoteBody(s) == Some(PartsValue(ps)) {
      PartsRead(ps);
    }
  }

  // ---------- Finding the closing quote ----------

  lemma {:induction false} SkipVerbatim(s: string, tail: string)
    requires IsVerbatim(s) && ClosingQuote(tail).Some?
    ensures ClosingQuote(s + tail) == Some(|s| + ClosingQuote(tail).value)
  {
    hide ClosingQuote;
    if |s| == 0 {
      assert s + tail == tail;
    } else {
      SkipVerbatim(s[1..], tail);
      SkipOne(s[0], s[1..] + tail);
      assert s + tail == [s[0]] + (s[1..] + tail);
    }
  }

  lemma SkipOne(c: char, tail: string)
    requires c != '"' && c != '\\' && ClosingQuote(tail).Some?
    ensures ClosingQuote([c] + tail) == Some(1 + ClosingQuote(tail).value)
  {
    assert ([c] + tail)[1..] == tail;
  }

  lemma SkipPair(c: char, tail: string)
    requires ClosingQuote(tail).Some?
    ensures ClosingQuote(['\\', c] + tail) == Some(2 + ClosingQuote(tail).value)
  {
    assert (['\\', c] + tail)[2..] == tail;
  }

  // The closing quote is not looked for inside an escape.
  lemma SkipPiece(w: string, tail: string)
    requires IsPiece(w) && ClosingQuote(tail).Some?
    ensures ClosingQuote(w + tail) == Some(|w| + ClosingQuote(tail).value)
  {
    hide ClosingQuote, IsVerbatim;
    if IsVerbatim(w) {
      SkipVerbatim(w, tail);
    } else {
      SkipVerbatim(w[2..], tail);
      SkipPair(w[1], w[2..] + tail);
      EscapedPiece(w, tail);
    }
  }

  lemma EscapedPiece(w: string, tail: string)
    requires |w| >= 2 && w[0] == '\\'
    ensures w + tail == ['\\', w[1]] + (w[2..] + tail)
  {
    assert w == ['\\', w[1]] + w[2..];
  }

  // A part is verbatim, or a backslash, a letter or digit, and digits.
  lemma PartShape(p: StringPart, rest: string)
    requires ValidPart(p, rest)
    ensures var w := PartText(p); |w| > 0 && w[0] != '"' && IsPiece(w)
  {
    hide ESCAPES, RuneSize, Writes;
    match p
    case Character(text) => if '\U{0080}' <= text[0] <= '\U{00FF}' { HighBytes(text); }
    case Octal(digits, v) =>
      PlainDigits(digits, 8, v);
      assert ("\\" + digits)[2..] == digits[1..];
    case Hex(digits, v) =>
      PlainDigits(digits, 16, v);
      assert ("\\x" + digits)[2..] == digits;
    case ShortCode(digits, v) =>
      PlainDigits(digits, 16, v);
      assert ("\\u" + digits)[2..] == digits;
    case LongCode(digits, v) =>
      PlainDigits(digits, 16, v);
      assert ("\\U" + digits)[2..] == digits;
    case _ =>
  }

  lemma HighBytes(text: string)
    requires |text| > 0 && RuneSize(text) == |text| && text[0] >= '\U{0080}'
    ensures forall i :: 0 <= i < |text| ==> text[i] >= '\U{0080}'
  {
  }

  lemma {:induction false} PlainDigits(digits: string, base: nat, v: nat)
    requires base > 0 && Writes(digits, base, v)
    ensures IsVerbatim(digits)
  {
    if |digits| > 0 {
      var n := |digits| - 1;
      PlainDigits(digits[..n], base, v / base);
      PlainDigit(digits[n], v % base);
      assert digits == digits[..n] + [digits[n]];
    }
  }

  lemma PlainDigit(c: char, n: nat)
    requires IsDigitOf(c, n)
    ensures c != '"' && c != '\\' && c != '\n'
  {
  }

  lemma {:induction false} ClosingQuoteOfParts(ps: seq<StringPart>, rest: string)
    requires ValidParts(ps)
    ensures ClosingQuote(PartsText(ps) + ("\"" + rest)) == Some(|PartsText(ps)|)
    ensures |PartsText(ps)| > 0 ==> PartsText(ps)[0] != '"'
  {
    hide ClosingQuote, ValidPart, PartText, IsPiece;
    var close := "\"" + rest;
    if |ps| == 0 {
      assert PartsText(ps) + close == close;
      ClosedAtOnce(close);
    } else {
      var more := PartsText(ps[1..]);
      ClosingQuoteOfParts(ps[1..], rest);
      PartShape(ps[0], more);
      SkipPiece(PartText(ps[0]), more + close);
      assert PartsText(ps) + close == PartText(ps[0]) + (more + close);
    }
  }

  lemma ClosedAtOnce(s: string)
    requires |s| > 0 && s[0] == '"'
    ensures ClosingQuote(s) == Some(0)
  {
  }

  // ---------- Strings in triple quotes ----------

  lemma {:induction false} TripleIs(s: string, n: nat)
    requires n + 3 <= |s| && TRIPLE <= s[n..]
    requires forall i :: 0 <= i < n ==> !(TRIPLE <= s[i..])
    ensures IndexOfTriple(s) == Some(n)
  {
    if n > 0 {
      assert s[1..][n - 1..] == s[n..];
      forall i | 0 <= i < n - 1 ensures !(TRIPLE <= s[1..][i..]) { assert s[1..][i..] == s[i + 1..]; }
      TripleIs(s[1..], n - 1);
      assert s[0..] == s;
    }
  }

  lemma {:induction false} FirstTriple(s: string)
    requires IndexOfTriple(s).Some?
    ensures var n := IndexOfTriple(s).value;
      TRIPLE <= s[n..] && forall i :: 0 <= i < n ==> !(TRIPLE <= s[i..])
  {
    if TRIPLE <= s {
      assert s[0..] == s;
    } else {
      FirstTriple(s[1..]);
      var n := IndexOfTriple(s).value;
      assert s[n..] == s[1..][n - 1..];
      forall i | 0 <= i < n ensures !(TRIPLE <= s[i..]) {
        if i > 0 { assert s[i..] == s[1..][i - 1..]; } else { assert s[0..] == s; }
      }
    }
  }

  // Whether triple quotes stand at i does not depend on what follows the closing ones.
  lemma TripleInside(text: string, rest: string, i: nat)
    requires i <= |text|
    ensures TRIPLE <= (text + TRIPLE + rest)[i..] <==> TRIPLE <= (text + TRIPLE)[i..]
  {
    var s, t := (text + TRIPLE + rest)[i..], (text + TRIPLE)[i..];
    assert s == t + rest;
    assert s[..3] == t[..3];
  }

  lemma BlockLexes(text: string, rest: string)
    requires BlockText(text)
    ensures LexString(TRIPLE + text + TRIPLE + rest) == Ok((Str(text), |text| + 6))
  {
    hide IndexOfTriple;
    var s, tail := TRIPLE + text + TRIPLE + rest, text + TRIPLE + rest;
    assert s[..3] == TRIPLE && s[3..] == tail;
    forall i | 0 <= i < |text| ensures !(TRIPLE <= tail[i..]) { TripleInside(text, rest, i); }
    assert tail[|text|..] == TRIPLE + rest;
    TripleIs(tail, |text|);
    assert s[3..3 + |text|] == text;
  }

  lemma LexedBlock(s: string)
    requires TRIPLE <= s && LexString(s).Ok?
    ensures var (t, n) := LexString(s).value;
      t.Str? && BlockText(t.text) && s[..n] == TRIPLE + t.text + TRIPLE
  {
    hide IndexOfTriple;
    var tail := s[3..];
    FirstTriple(tail);
    var n := IndexOfTriple(tail).value;
    var text, rest := tail[..n], tail[n + 3..];
    assert tail[n..][..3] == TRIPLE;
    assert tail == text + TRIPLE + rest;
    forall i | 0 <= i < |text| ensures !(TRIPLE <= (text + TRIPLE)[i..]) { TripleInside(text, rest, i); }
    assert s[3..3 + n] == text;
    assert s[..n + 6] == TRIPLE + text + TRIPLE;
  }

  // ---------- Strings ----------

  lemma QuotedLexes(ps: seq<StringPart>, rest: string)
    requires ValidParts(ps) && (|PartsText(ps)| == 0 && |rest| > 0 ==> rest[0] != '"')
    ensures LexString("\"" + PartsText(ps) + "\"" + rest) == Ok((Str(PartsValue(ps)), |PartsText(ps)| + 2))
  {
    hide ClosingQuote, UnquoteBody, ValidParts, PartsText, PartsValue;
    var b := PartsText(ps);
    var s := "\"" + b + "\"" + rest;
    assert s[1..] == b + ("\"" + rest);
    ClosingQuoteOfParts(ps, rest);
    PartsRead(ps);
    assert s[1..|b| + 1] == b;
    assert !(TRIPLE <= s) by {
      if |b| > 0 { assert s[1] == b[0]; } else { assert |s| > 2 ==> s[2] == rest[0]; }
    }
  }

  lemma {:induction false} ClosedByQuote(s: string)
    requires ClosingQuote(s).Some?
    ensures s[ClosingQuote(s).value] == '"'
    decreases |s|
  {
    if s[0] != '"' { ClosedByQuote(s[if s[0] == '\\' then 2 else 1..]); }
  }

  lemma LexedQuoted(s: string)
    requires |s| > 0 && s[0] == '"' && !(TRIPLE <= s) && LexString(s).Ok?
    ensures var (t, n) := LexString(s).value;
      t.Str? && InQuotes(s[..n], t.text) && (s[..n] == "\"\"" && n < |s| ==> s[n] != '"')
  {
    hide ClosingQuote, UnquoteBody, ValidParts, PartsText, PartsValue;
    var k := ClosingQuote(s[1..]).value;
    ClosedByQuote(s[1..]);
    var b := s[1..k + 1];
    var ps := ReadParts(b);
    assert s[k + 1] == s[1..][k] == '"';
    assert s[..k + 2] == "\"" + b + "\"";
  }

  lemma StringLexes(w: string, text: string, rest: string)
    requires Spells(w, Str(text)) && MayFollow(Str(text), w, rest)
    ensures |w| > 0 && w[0] == '"' && LexString(w + rest) == Ok((Str(text), |w|))
  {
    hide LexString;
    if w == TRIPLE + text + TRIPLE && BlockText(text) {
      BlockLexes(text, rest);
    } else {
      var ps :| ValidParts(ps) && w == "\"" + PartsText(ps) + "\"" && text == PartsValue(ps);
      if |PartsText(ps)| == 0 { assert w == "\"\""; }
      QuotedLexes(ps, rest);
    }
  }

  lemma StringSpelled(s: string)
    requires |s| > 0 && s[0] == '"' && LexString(s).Ok?
    ensures var (t, n) := LexString(s).value; t.Str? && Spells(s[..n], t) && MayFollow(t, s[..n], s[n..])
  {
    hide LexString;
    if TRIPLE <= s {
      LexedBlock(s);
    } else {
      LexedQuoted(s);
    }
  }

  // ---------- Numbers ----------

  lemma DigitsSpan(digits: string, rest: string)
    requires AllDigits(digits) && (|rest| > 0 ==> !IsDigit(rest[0]))
    ensures Span(digits + rest, IsDigit) == |digits|
  {
    SpanIs(digits + rest, IsDigit, |digits|);
  }

  // The integer part in front of what is no digit.
  lemma IntegerLexes(n: NumberParts, rest: string)
    requires ValidNumber(n) && (|rest| > 0 ==> !IsDigit(rest[0]))
    ensures IntegerEnd(IntegerText(n) + rest) == Ok(|IntegerText(n)|)
  {
    hide Span;
    var s := IntegerText(n) + rest;
    assert s[|IntegerText(n)| - |n.integer|..] == n.integer + rest;
    assert s[0] == if n.negative then '-' else n.integer[0];
    DigitsSpan(n.integer, rest);
  }

  lemma FractionLexes(before: string, fraction: Option<string>, rest: string)
    requires fraction.Some? ==> AllDigits(fraction.value)
    requires |rest| > 0 ==> !IsDigit(rest[0]) && (fraction.None? ==> rest[0] != '.')
    ensures var w := FractionText(fraction);
      FractionEnd(before + (w + rest), |before|) == Ok(|before| + |w|)
  {
    hide Span;
    var w := FractionText(fraction);
    var s := before + (w + rest);
    assert s[|before|..] == w + rest;
    if fraction.Some? {
      assert s[|before|] == '.';
      assert s[|before| + 1..] == fraction.value + rest;
      DigitsSpan(fraction.value, rest);
    } else {
      assert w + rest == rest;
      assert |rest| > 0 ==> s[|before|] == rest[0];
    }
  }

  lemma ExponentLexes(before: string, exponent: Option<Exponent>, rest: string)
    requires ValidNumber(NumberParts(false, "0", None, exponent))
    requires |rest| > 0 ==> !IsDigit(rest[0]) && (exponent.None? ==> rest[0] != 'e' && rest[0] != 'E')
    ensures var w := ExponentText(exponent);
      ExponentEnd(before + (w + rest), |before|) == Ok(|before| + |w|)
  {
    hide Span;
    var w := ExponentText(exponent);
    var s := before + (w + rest);
    var i := |before|;
    assert s[i..] == w + rest;
    if exponent.Some? {
      var e := exponent.value;
      var start := i + 1 + |e.sign|;
      assert s[i] == e.letter;
      assert s[start..] == e.digits + rest;
      assert s[i + 1] == if |e.sign| > 0 then e.sign[0] else e.digits[0];
      DigitsSpan(e.digits, rest);
    } else {
      assert w + rest == rest;
      assert |rest| > 0 ==> s[i] == rest[0];
    }
  }

  // The point and the exponent letter stand in a number's text only as such.
  lemma NumberMarks(n: NumberParts)
    requires ValidNumber(n)
    ensures '.' in NumberText(n) <==> n.fraction.Some?
    ensures HasExponent(NumberText(n)) <==> n.exponent.Some?
  {
    var i, f, e := IntegerText(n), FractionText(n.fraction), ExponentText(n.exponent);
    assert forall k :: 0 <= k < |i| ==> i[k] == '-' || IsDigit(i[k]);
    assert forall k :: 0 < k < |f| ==> IsDigit(f[k]);
    assert f != "" ==> f[0] == '.';
    assert e != "" ==> e[0] == n.exponent.value.letter;
    assert forall k :: 0 < k < |e| ==> IsDigit(e[k]) || e[k] == '+' || e[k] == '-';
  }

  lemma NumberLexes(n: NumberParts, rest: string)
    requires ValidNumber(n) && MayFollow(Number(NumberText(n)), NumberText(n), rest)
    ensures NumberEnd(NumberText(n) + rest) == Ok(|NumberText(n)|)
  {
    hide IntegerEnd, FractionEnd, ExponentEnd, HasExponent;
    NumberMarks(n);
    var i, f, e := IntegerText(n), FractionText(n.fraction), ExponentText(n.exponent);
    var afterInteger, afterFraction := f + (e + rest), e + rest;
    assert NumberText(n) + rest == i + afterInteger;
    assert i + afterInteger == (i + f) + afterFraction;
    assert |afterFraction| > 0 ==> afterFraction[0] == if e != "" then e[0] else rest[0];
    assert |afterInteger| > 0 ==> afterInteger[0] == if f != "" then f[0] else afterFraction[0];
    IntegerLexes(n, afterInteger);
    FractionLexes(i, n.fraction, afterFraction);
    ExponentLexes(i + f, n.exponent, rest);
  }

  lemma SpannedDigits(s: string, i: nat, n: nat)
    requires i <= |s| && n == Span(s[i..], IsDigit) && n > 0
    ensures i + n <= |s| && AllDigits(s[i..i + n]) && (i + n < |s| ==> !IsDigit(s[i + n]))
  {
    var digits := s[i..i + n];
    forall k | 0 <= k < n ensures IsDigit(digits[k]) { assert digits[k] == s[i..][k]; }
    if i + n < |s| { assert s[i + n] == s[i..][n]; }
  }

  lemma IntegerSpelled(s: string)
    requires IntegerEnd(s).Ok?
    ensures var i, start := IntegerEnd(s).value, if s[0] == '-' then 1 else 0;
      start < i && AllDigits(s[start..i]) && (i < |s| ==> !IsDigit(s[i]))
  {
    hide Span;
    var start := if s[0] == '-' then 1 else 0;
    SpannedDigits(s, start, Span(s[start..], IsDigit));
  }

  lemma FractionSpelled(s: string, i: nat) returns (fraction: Option<string>)
    requires i <= |s| && FractionEnd(s, i).Ok? && (i < |s| ==> !IsDigit(s[i]))
    ensures var j := FractionEnd(s, i).value;
      && s[i..j] == FractionText(fraction) && (fraction.Some? ==> AllDigits(fraction.value))
      && (j < |s| ==> !IsDigit(s[j]) && (fraction.None? ==> s[j] != '.'))
  {
    hide Span;
    var j := FractionEnd(s, i).value;
    if i < j {
      SpannedDigits(s, i + 1, j - i - 1);
      fraction := Some(s[i + 1..j]);
      assert s[i..j] == "." + s[i + 1..j];
    } else {
      fraction := None;
    }
  }

  lemma ExponentSpelled(s: string, i: nat) returns (exponent: Option<Exponent>)
    requires i <= |s| && ExponentEnd(s, i).Ok? && (i < |s| ==> !IsDigit(s[i]))
    ensures var j := ExponentEnd(s, i).value;
      && s[i..j] == ExponentText(exponent) && ValidNumber(NumberParts(false, "0", None, exponent))
      && (j < |s| ==> !IsDigit(s[j]) && (exponent.None? ==> s[j] != 'e' && s[j] != 'E'))
  {
    hide Span, AllDigits;
    var j := ExponentEnd(s, i).value;
    assert AllDigits("0") by { OneDigit(); }
    if i < j {
      var start := if i + 1 < |s| && (s[i + 1] == '+' || s[i + 1] == '-') then i + 2 else i + 1;
      SpannedDigits(s, start, j - start);
      exponent := Some(Exponent(s[i], s[i + 1..start], s[start..j]));
      SliceParts(s, i, i + 1, j);
      SliceParts(s, i + 1, start, j);
      assert s[i..i + 1] == [s[i]];
      Regroup(s[i..i + 1], s[i + 1..start], s[start..j]);
      assert start == i + 2 ==> s[i + 1..start] == [s[i + 1]];
    } else {
      exponent := None;
    }
  }

  lemma OneDigit()
    ensures AllDigits("0")
  {
  }

  lemma NumberSpelled(s: string)
    requires NumberEnd(s).Ok?
    ensures var n := NumberEnd(s).value;
      var t := Number(s[..n]); Spells(s[..n], t) && MayFollow(t, s[..n], s[n..])
  {
    hide IntegerEnd, FractionEnd, ExponentEnd, HasExponent;
    var i := IntegerEnd(s).value;
    var j := FractionEnd(s, i).value;
    var k := ExponentEnd(s, j).value;
    IntegerSpelled(s);
    var fraction := FractionSpelled(s, i);
    var exponent := ExponentSpelled(s, j);
    var negative := s[0] == '-';
    var parts := NumberParts(negative, s[if negative then 1 else 0..i], fraction, exponent);
    hide AllDigits;
    IntegerIs(s, parts, i);
    SliceParts(s, 0, i, k);
    SliceParts(s, i, j, k);
    Regroup(s[..i], s[i..j], s[j..k]);
    assert s[0..k] == s[..k] && s[0..i] == s[..i];
    NumberMarks(parts);
    assert ValidNumber(parts) && s[..k] == NumberText(parts);
    assert k < |s| ==> s[k..][0] == s[k];
  }

  lemma IntegerIs(s: string, n: NumberParts, i: nat)
    requires 0 < i <= |s| && n.negative == (s[0] == '-') && n.integer == s[if n.negative then 1 else 0..i]
    ensures IntegerText(n) == s[..i]
  {
  }

  // ---------- Tokens ----------

  lemma NameLexes(w: string, rest: string)
    requires Spells(w, Name(w)) && MayFollow(Name(w), w, rest)
    ensures LexToken(w + rest) == Ok((Name(w), |w|))
  {
    hide IsNameStart, IsNameContinue, IsPunct, Span;
    var s := w + rest;
    SpanIs(s[1..], IsNameContinue, |w| - 1);
    assert s[..|w|] == w;
  }

  lemma NumberTokenLexes(w: string, rest: string)
    requires Spells(w, Number(w)) && MayFollow(Number(w), w, rest)
    ensures |w| > 0 && (w[0] == '-' || IsDigit(w[0])) && LexToken(w + rest) == Ok((Number(w), |w|))
  {
    hide NumberEnd, IsPunct, IsLetter;
    var n :| ValidNumber(n) && w == NumberText(n);
    assert w[0] == if n.negative then '-' else n.integer[0];
    NumberLexes(n, rest);
    TokenStarts(w[0]);
    assert (w + rest)[..|w|] == w;
  }

  lemma PunctLexes(w: string, rest: string)
    requires Spells(w, Punct(w))
    ensures LexToken(w + rest) == Ok((Punct(w), |w|))
  {
    hide IsLetter, IsPunct;
    var s := w + rest;
    TokenStarts(s[0]);
    if |w| == 1 { assert w == [s[0]]; }
  }

  // A spelled token, followed by what may follow it, is read as itself.
  lemma WordLexes(t: Token, w: string, rest: string)
    requires Spells(w, t) && MayFollow(t, w, rest)
    ensures |w| > 0 && !StartsIgnored(w + rest) && LexToken(w + rest) == Ok((t, |w|))
  {
    hide IsLetter, IsSpace, IsPunct, LexString, NumberEnd, Span, InQuotes, BlockText;
    match t {
      case Name(_) => NameLexes(w, rest);
      case Number(_) => NumberTokenLexes(w, rest);
      case Str(text) => StringLexes(w, text, rest);
      case Punct(_) => PunctLexes(w, rest);
    }
    TokenStarts(w[0]);
  }

  // Whatever is read as a token is a spelling of it, followed by what may follow it.
  lemma WordSpelled(s: string)
    requires |s| > 0 && !StartsIgnored(s) && LexToken(s).Ok?
    ensures var (t, n) := LexToken(s).value; Spells(s[..n], t) && MayFollow(t, s[..n], s[n..])
  {
    hide IsLetter, IsSpace, IsPunct, IsNameStart, IsNameContinue, LexString, NumberEnd, InQuotes, BlockText;
    if IsNameStart(s[0]) {
      NameSpelled(s);
    } else if s[0] == '"' {
      StringSpelled(s);
    } else if s[0] == '-' || IsDigit(s[0]) {
      NumberSpelled(s);
    } else {
      assert s[..1] == [s[0]];
      if "..." <= s { assert s[..3] == "..."; }
    }
  }

  lemma NameSpelled(s: string)
    requires |s| > 0 && IsNameStart(s[0])
    ensures var n := 1 + Span(s[1..], IsNameContinue);
      var t := Name(s[..n]); Spells(s[..n], t) && MayFollow(t, s[..n], s[n..])
  {
    var n := 1 + Span(s[1..], IsNameContinue);
    NameTokenValid(s, n);
    if n < |s| { assert s[n] == s[1..][n - 1]; }
  }

  // ---------- Documents ----------

  lemma CommentLexes(text: string, rest: string)
    requires ValidItem(Comment(text), rest)
    ensures Lex("#" + text + rest) == Lex(rest)
  {
    hide LexToken, IsLetter, IsPunct;
    var s := "#" + text + rest;
    SpanIs(s, InComment, 1 + |text|);
    assert !IsBlank('#') && s[0] == '#';
    assert s[1 + |text|..] == rest;
  }

  lemma {:induction false} ItemsLex(items: seq<Item>)
    requires ValidItems(items)
    ensures Lex(ItemsText(items)) == Ok(TokensOf(items))
  {
    hide LexToken, IsBlank, Spells, MayFollow;
    if |items| == 0 {
      LexEmpty();
    } else {
      var rest := ItemsText(items[1..]);
      ItemsLex(items[1..]);
      assert !items[0].Word? ==> TokensOf(items) == TokensOf(items[1..]);
      match items[0]
      case Blank(c) => BlankLexes(c, rest);
      case Comment(text) => CommentLexes(text, rest);
      case Word(t, w) =>
        WordLexes(t, w, rest);
        TokenLexes(t, w, rest);
    }
  }

  lemma BlankLexes(c: char, rest: string)
    requires IsBlank(c)
    ensures Lex([c] + rest) == Lex(rest)
  {
    hide LexToken, IsBlank;
    assert ([c] + rest)[1..] == rest;
  }

  lemma TokenLexes(t: Token, w: string, rest: string)
    requires |w| > 0 && !StartsIgnored(w + rest) && LexToken(w + rest) == Ok((t, |w|)) && Lex(rest).Ok?
    ensures Lex(w + rest) == Ok([t] + Lex(rest).value)
  {
    hide LexToken, StartsIgnored;
    assert (w + rest)[|w|..] == rest;
  }

  // The items a text consists of.
  lemma {:induction false} ReadItems(s: string) returns (items: seq<Item>)
    requires Lex(s).Ok?
    ensures ValidItems(items) && ItemsText(items) == s && TokensOf(items) == Lex(s).value
    decreases |s|
  {
    hide LexToken, StartsIgnored, Spells, MayFollow, IsBlank;
    if |s| == 0 {
      items := [];
      LexEmpty();
    } else {
      var item, n := ReadItem(s);
      var more := ReadItems(s[n..]);
      items := [item] + more;
      assert items[1..] == more && s[..n] + s[n..] == s;
    }
  }

  lemma ReadItem(s: string) returns (item: Item, n: nat)
    requires |s| > 0 && Lex(s).Ok?
    ensures 0 < n <= |s| && ItemText(item) == s[..n] && ValidItem(item, s[n..]) && Lex(s[n..]).Ok?
    ensures Lex(s).value == (if item.Word? then [item.token] else []) + Lex(s[n..]).value
  {
    hide LexToken, Spells, MayFollow, IsBlank;
    if StartsIgnored(s) {
      n := IgnoredLength(s);
      if IsBlank(s[0]) {
        item := Blank(s[0]);
      } else {
        item := Comment(s[1..n]);
        assert s[..n] == "#" + s[1..n];
        assert forall i :: 0 <= i < n - 1 ==> s[1..n][i] == s[i + 1];
        assert n < |s| ==> s[n..][0] == s[n];
      }
    } else {
      var (t, m) := LexToken(s).value;
      WordSpelled(s);
      item, n := Word(t, s[..m]), m;
    }
  }

  // The lexer reads a text as some tokens exactly when the text is a way to write them.
  lemma LexIff(s: string, ts: seq<Token>)
    ensures Lex(s) == Ok(ts) <==> IsWritten(s, ts)
  {
    hide Lex, ValidItems, ItemsText, TokensOf;
    if Lex(s).Ok? {
      var items := ReadItems(s);
    }
    forall items | ValidItems(items) && ItemsText(items) == s ensures Lex(s) == Ok(TokensOf(items)) {
      ItemsLex(items);
    }
  }
}
