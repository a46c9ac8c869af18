// Reading JSON text without white space, after RFC 8259, and that what json.Marshal
// writes for a value reads as that value.
module JsonReader {
  import opened Wrappers
  import opened Strings
  import opened Utf8
  import opened GraphQLTokens
  import J = JsonTree
  import Order = JsonOrder
  import opened JsonText

  // ---------- Strings ----------

  // The escapes of one letter (section 7 of RFC 8259).
  const ESCAPES: map<char, char> := map[
    '"' := '"', '\\' := '\\', '/' := '/', 'b' := '\U{0008}', 'f' := '\U{000C}', 'n' := '\n', 'r' := '\r', 't' := '\t']

  // The code unit of an escape \u at the start of s.
  function CodeUnit(s: string): (r: Option<nat>) {
    if |s| >= 6 && s[0] == '\\' && s[1] == 'u' then HexNumber(s[2..], 4) else None
  }

  // The character of an escape \u, and its length: two code units may be one character,
  // and half of such a pair becomes U+FFFD.
  function ReadCode(s: string): (r: Option<(string, nat)>)
    ensures r.Some? ==> 0 < r.value.1 <= |s|
  {
    match CodeUnit(s)
    case None => None
    case Some(v) =>
      if v < 0x11_0000 && IsScalar(v) then Some((EncodeRune(v), 6))
      else match CodeUnit(s[6..])
        case Some(w) =>
          if 0xD800 <= v < 0xDC00 && 0xDC00 <= w < 0xE000
          then Some((EncodeRune(0x1_0000 + (v - 0xD800) * 0x400 + (w - 0xDC00)), 12))
          else Some((REPLACEMENT, 6))
        case None => Some((REPLACEMENT, 6))
  }

  function Add(head: string, r: Option<(string, string)>): (r': Option<(string, string)>) {
    match r case Some((text, rest)) => Some((head + text, rest)) case None => None
  }

  // The text of a string after its opening quote, and what follows its closing one.
  function ReadChars(s: string): (r: Option<(string, string)>)
    ensures r.Some? ==> |r.value.1| < |s|
    decreases |s|
  {
    if |s| == 0 || s[0] < ' ' then None
    else if s[0] == '"' then Some(("", s[1..]))
    else if s[0] != '\\' then Add([s[0]], ReadChars(s[1..]))
    else if |s| >= 2 && s[1] in ESCAPES then Add([ESCAPES[s[1]]], ReadChars(s[2..]))
    else match ReadCode(s)
      case Some((text, n)) => Add(text, ReadChars(s[n..]))
      case None => None
  }

  lemma PlainByteReads(c: char, rest: string)
    requires c >= ' ' && c != '"' && c != '\\'
    ensures ReadChars([c] + rest) == Add([c], ReadChars(rest))
  {
    assert ([c] + rest)[1..] == rest;
  }

  lemma LetterReads(letter: char, rest: string)
    requires letter in ESCAPES
    ensures ReadChars(['\\', letter] + rest) == Add([ESCAPES[letter]], ReadChars(rest))
  {
    assert (['\\', letter] + rest)[2..] == rest;
  }

  lemma CodeReads(digits: string, v: nat, rest: string)
    requires |digits| == 4 && HexNumber(digits + rest, 4) == Some(v) && IsScalar(v)
    ensures ReadChars(['\\', 'u'] + digits + rest) == Add(EncodeRune(v), ReadChars(rest))
  {
    hide HexNumber, EncodeRune;
    var s := ['\\', 'u'] + digits + rest;
    assert s == ['\\', 'u'] + (digits + rest);
    assert s[2..] == digits + rest && s[6..] == rest;
    assert 'u' !in ESCAPES;
  }

  lemma FourDigits(a: char, b: char, c: char, d: char, rest: string)
    requires HexValue(a).Some? && HexValue(b).Some? && HexValue(c).Some? && HexValue(d).Some?
    ensures HexNumber([a, b, c, d] + rest, 4)
         == Some(((HexValue(a).value * 16 + HexValue(b).value) * 16 + HexValue(c).value) * 16 + HexValue(d).value)
  {
    var s := [a, b, c, d] + rest;
    assert HexNumber(s, 0) == Some(0) && HexNumber(s, 1) == Some(HexValue(a).value);
    assert HexNumber(s, 2) == Some(HexValue(a).value * 16 + HexValue(b).value);
  }

  lemma EscapedByteReads(c: char, rest: string)
    requires c < '\U{0080}' && EscapeByte(c) == Hex4(c)
    ensures ReadChars(EscapeByte(c) + rest) == Add([c], ReadChars(rest))
  {
    hide ReadChars, HexNumber, HexDigit, EscapeByte;
    var high, low := HexDigit(c as nat / 16), HexDigit(c as nat % 16);
    assert HexValue('0') == Some(0) && HexValue(high) == Some(c as nat / 16) && HexValue(low) == Some(c as nat % 16);
    FourDigits('0', '0', high, low, rest);
    CodeReads(['0', '0', high, low], c as nat, rest);
    assert Hex4(c) == ['\\', 'u'] + ['0', '0', high, low];
    assert EncodeRune(c as nat) == [c];
  }

  lemma ByteReads(c: char, rest: string)
    ensures ReadChars(EscapeByte(c) + rest) == Add([c], ReadChars(rest))
  {
    hide ReadChars, Hex4;
    match c {
      case '"' => LetterReads('"', rest);
      case '\\' => LetterReads('\\', rest);
      case '\U{0008}' => LetterReads('b', rest);
      case '\U{000C}' => LetterReads('f', rest);
      case '\n' => LetterReads('n', rest);
      case '\r' => LetterReads('r', rest);
      case '\t' => LetterReads('t', rest);
      case _ =>
        if c < ' ' || c == '<' || c == '>' || c == '&' {
          EscapedByteReads(c, rest);
        } else {
          PlainByteReads(c, rest);
        }
    }
  }

  lemma SeparatorReads(s: string, rest: string)
    requires StartsSeparator(s)
    ensures ReadChars(EscapePiece(s) + rest) == Add(s[..3], ReadChars(rest))
  {
    hide ReadChars, HexNumber;
    var last := if s[2] == '\U{00A8}' then '8' else '9';
    var v := if s[2] == '\U{00A8}' then 0x2028 else 0x2029;
    FourDigits('2', '0', '2', last, rest);
    CodeReads(['2', '0', '2', last], v, rest);
    assert EscapePiece(s) == ['\\', 'u'] + ['2', '0', '2', last];
    assert EncodeRune(v) == s[..3];
  }

  lemma {:induction false} EscapedReads(s: string, rest: string)
    ensures ReadChars(EscapeText(s) + ("\"" + rest)) == Some((s, rest))
    decreases |s|
  {
    hide ReadChars, EscapePiece, PieceSize, StartsSeparator, EscapeByte;
    var close := "\"" + rest;
    if |s| == 0 {
      assert EscapeText(s) + close == close;
      Closed(rest);
    } else {
      var n := PieceSize(s);
      var more := EscapeText(s[n..]) + close;
      EscapedReads(s[n..], rest);
      assert EscapeText(s) + close == EscapePiece(s) + more;
      PieceReads(s, more);
      assert s[..n] + s[n..] == s;
    }
  }

  lemma Closed(rest: string)
    ensures ReadChars("\"" + rest) == Some(("", rest))
  {
    assert ("\"" + rest)[1..] == rest;
  }

  lemma PieceReads(s: string, rest: string)
    requires |s| > 0
    ensures ReadChars(EscapePiece(s) + rest) == Add(s[..PieceSize(s)], ReadChars(rest))
  {
    hide ReadChars, EscapeByte;
    if StartsSeparator(s) {
      SeparatorReads(s, rest);
    } else {
      ByteReads(s[0], rest);
      assert s[..1] == [s[0]];
    }
  }

  // Every string is read back from the text that json.Marshal writes for it.
  lemma QuotedReads(s: string, rest: string)
    ensures var t := QuoteJson(s) + rest; |t| > 0 && t[0] == '"' && ReadChars(t[1..]) == Some((s, rest))
  {
    EscapedReads(s, rest);
    assert (QuoteJson(s) + rest)[1..] == EscapeText(s) + ("\"" + rest);
  }

  // ---------- Values ----------

  function ReadValue(s: string): (r: Option<(J.JsonValue, string)>)
    ensures r.Some? ==> |r.value.1| < |s|
    decreases |s|, 1
  {
    if "null" <= s then Some((J.NullValue, s[4..]))
    else if "true" <= s then Some((J.BoolValue(true), s[4..]))
    else if "false" <= s then Some((J.BoolValue(false), s[5..]))
    else if |s| == 0 then None
    else if s[0] == '"' then
      match ReadChars(s[1..])
      case Some((text, rest)) => Some((J.StringValue(text), rest))
      case None => None
    else if s[0] == '[' then
      if "[]" <= s then Some((J.ArrayValue([]), s[2..]))
      else match ReadItems(s[1..])
        case Some((items, rest)) => Some((J.ArrayValue(items), rest))
        case None => None
    else if s[0] == '{' then
      if "{}" <= s then Some((J.ObjectValue(map[]), s[2..]))
      else match ReadEntries(s[1..])
        case Some((table, rest)) => Some((J.ObjectValue(table), rest))
        case None => None
    else
      var n := Span(s, IsNumberByte);
      if n == 0 then None else Some((J.LiteralValue(s[..n]), s[n..]))
  }

  // The values up to the closing bracket, of which there is at least one.
  function ReadItems(s: string): (r: Option<(seq<J.JsonValue>, string)>)
    ensures r.Some? ==> |r.value.1| < |s|
    decreases |s|, 2
  {
    match ReadValue(s)
    case None => None
    case Some((v, rest)) =>
      if |rest| > 0 && rest[0] == ']' then Some(([v], rest[1..]))
      else if |rest| > 0 && rest[0] == ',' then
        match ReadItems(rest[1..])
        case Some((more, last)) => Some(([v] + more, last))
        case None => None
      else None
  }

  // The entries up to the closing brace, of which there is at least one; of two values
  // under one key the later counts.
  function ReadEntries(s: string): (r: Option<(map<string, J.JsonValue>, string)>)
    ensures r.Some? ==> |r.value.1| < |s|
    decreases |s|, 2
  {
    if |s| == 0 || s[0] != '"' then None
    else match ReadChars(s[1..])
      case None => None
      case Some((key, after)) =>
        if |after| == 0 || after[0] != ':' then None
        else match ReadValue(after[1..])
          case None => None
          case Some((v, rest)) =>
            if |rest| > 0 && rest[0] == '}' then Some((map[key := v], rest[1..]))
            else if |rest| > 0 && rest[0] == ',' then
              match ReadEntries(rest[1..])
              case Some((more, last)) => Some((map[key := v] + more, last))
              case None => None
            else None
  }

  // The value of a whole text.
  function ReadJson(s: string): (r: Option<J.JsonValue>) {
    match ReadValue(s)
    case Some((v, rest)) => if rest == "" then Some(v) else None
    case None => None
  }

  predicate EndsNumber(rest: string) { |rest| > 0 ==> !IsNumberByte(rest[0]) }

  // text reads as v in front of anything that does not go on like a number.
  ghost predicate Reads(text: string, v: J.JsonValue) {
    forall rest :: EndsNumber(rest) ==> ReadValue(text + rest) == Some((v, rest))
  }

  lemma NumberReads(t: string)
    requires IsNumberText(t)
    ensures Reads(t, J.LiteralValue(t))
  {
    forall rest | EndsNumber(rest) ensures ReadValue(t + rest) == Some((J.LiteralValue(t), rest)) {
      var s := t + rest;
      SpanIs(s, IsNumberByte, |t|);
      assert IsNumberByte(s[0]) by { assert s[0] == t[0]; }
      assert s[..|t|] == t && s[|t|..] == rest;
    }
  }

  lemma WordsRead()
    ensures Reads("null", J.NullValue) && Reads("true", J.BoolValue(true)) && Reads("false", J.BoolValue(false))
  {
    forall rest
      ensures ReadValue("null" + rest) == Some((J.NullValue, rest))
      ensures ReadValue("true" + rest) == Some((J.BoolValue(true), rest))
      ensures ReadValue("false" + rest) == Some((J.BoolValue(false), rest))
    {
      assert ("null" + rest)[4..] == rest && ("true" + rest)[4..] == rest && ("false" + rest)[5..] == rest;
      assert ("true" + rest)[0] == 't' && ("false" + rest)[0] == 'f';
    }
  }

  lemma StringReads(s: string)
    ensures Reads(QuoteJson(s), J.StringValue(s))
  {
    hide QuoteJson, ReadChars, ReadValue;
    forall rest ensures ReadValue(QuoteJson(s) + rest) == Some((J.StringValue(s), rest)) {
      QuotedReads(s, rest);
      QuoteReads(QuoteJson(s) + rest);
    }
  }

  lemma NoWord(s: string)
    requires |s| > 0 && s[0] in {'"', '[', '{'}
    ensures !("null" <= s) && !("true" <= s) && !("false" <= s)
  {
    assert "null"[0] == 'n' && "true"[0] == 't' && "false"[0] == 'f';
  }

  lemma QuoteReads(s: string)
    requires |s| > 0 && s[0] == '"' && ReadChars(s[1..]).Some?
    ensures var (text, rest) := ReadChars(s[1..]).value; ReadValue(s) == Some((J.StringValue(text), rest))
  {
    hide ReadChars;
    NoWord(s);
  }

  lemma {:induction false} ItemsRead(texts: seq<string>, vs: seq<J.JsonValue>, rest: string)
    requires |texts| == |vs| > 0 && forall i :: 0 <= i < |texts| ==> Reads(texts[i], vs[i])
    ensures ReadItems(Join(texts, ',') + ("]" + rest)) == Some((vs, rest))
  {
    hide ReadValue;
    var close := "]" + rest;
    if |texts| == 1 {
      assert vs == [vs[0]] && close[1..] == rest;
      assert ReadValue(texts[0] + close) == Some((vs[0], close));
    } else {
      ItemsRead(texts[1..], vs[1..], rest);
      var more := Join(texts[1..], ',') + close;
      var tail := "," + more;
      assert tail[1..] == more;
      assert ReadValue(texts[0] + tail) == Some((vs[0], tail));
      assert Join(texts, ',') + close == texts[0] + tail;
      assert vs == [vs[0]] + vs[1..];
    }
  }

  predicate NoRepeats(keys: seq<string>) { forall i, j :: 0 <= i < j < |keys| ==> keys[i] != keys[j] }

  function Restrict(keys: seq<string>, table: map<string, J.JsonValue>): (t: map<string, J.JsonValue>) {
    map key | key in keys && key in table :: table[key]
  }

  lemma {:induction false} EntriesRead(keys: seq<string>, texts: map<string, string>, values: map<string, J.JsonValue>,
                                       rest: string)
    requires |keys| > 0 && NoRepeats(keys)
    requires forall key :: key in keys ==> key in texts && key in values && Reads(texts[key], values[key])
    ensures ReadEntries(Join(PairTexts(keys, texts), ',') + ("}" + rest)) == Some((Restrict(keys, values), rest))
  {
    hide ReadEntries, PairText, Reads;
    var key, close, pairs := keys[0], "}" + rest, PairTexts(keys, texts);
    if |keys| == 1 {
      LastEntryReads(key, texts, values[key], rest);
      assert Restrict(keys, values) == map[key := values[key]];
    } else {
      var others := keys[1..];
      EntriesRead(others, texts, values, rest);
      var more := Join(PairTexts(others, texts), ',') + close;
      FirstEntryReads(key, texts, values[key], more, Restrict(others, values), rest);
      assert pairs[1..] == PairTexts(others, texts) && pairs[0] == PairText(key, texts);
      assert Join(pairs, ',') + close == PairText(key, texts) + ("," + more);
      RestrictFirst(keys, values);
    }
  }

  lemma RestrictFirst(keys: seq<string>, values: map<string, J.JsonValue>)
    requires |keys| > 0 && NoRepeats(keys) && keys[0] in values
    ensures Restrict(keys, values) == map[keys[0] := values[keys[0]]] + Restrict(keys[1..], values)
  {
    assert keys == [keys[0]] + keys[1..];
    assert keys[0] !in keys[1..];
  }

  lemma LastEntryReads(key: string, texts: map<string, string>, v: J.JsonValue, rest: string)
    requires key in texts && Reads(texts[key], v)
    ensures ReadEntries(PairText(key, texts) + ("}" + rest)) == Some((map[key := v], rest))
  {
    hide ReadValue, QuoteJson, ReadChars, Reads;
    PairReads(key, texts[key], v, "}" + rest);
    assert ("}" + rest)[1..] == rest;
  }

  lemma FirstEntryReads(key: string, texts: map<string, string>, v: J.JsonValue, more: string,
                        table: map<string, J.JsonValue>, rest: string)
    requires key in texts && Reads(texts[key], v) && ReadEntries(more) == Some((table, rest))
    ensures ReadEntries(PairText(key, texts) + ("," + more)) == Some((map[key := v] + table, rest))
  {
    hide ReadValue, QuoteJson, ReadChars, Reads;
    PairReads(key, texts[key], v, "," + more);
    assert ("," + more)[1..] == more;
  }

  // One entry in front of what follows it.
  lemma PairReads(key: string, text: string, v: J.JsonValue, tail: string)
    requires Reads(text, v) && EndsNumber(tail)
    ensures var s := QuoteJson(key) + (":" + text) + tail;
      && |s| > 0 && s[0] == '"'
      && ReadChars(s[1..]) == Some((key, ":" + text + tail))
      && (":" + text + tail)[1..] == text + tail && ReadValue(text + tail) == Some((v, tail))
  {
    hide ReadValue, QuoteJson, ReadChars;
    var after := ":" + text + tail;
    QuotedReads(key, after);
    assert QuoteJson(key) + (":" + text) + tail == QuoteJson(key) + after;
    assert after[1..] == text + tail;
  }

  lemma ArrayReads(texts: seq<string>, vs: seq<J.JsonValue>)
    requires |texts| == |vs| && forall i :: 0 <= i < |texts| ==> Reads(texts[i], vs[i])
    ensures Reads("[" + Join(texts, ',') + "]", J.ArrayValue(vs))
  {
    hide ReadValue, Reads;
    var list := Join(texts, ',');
    forall rest ensures ReadValue("[" + list + "]" + rest) == Some((J.ArrayValue(vs), rest)) {
      assert "[" + list + "]" + rest == "[" + (list + ("]" + rest));
      if |texts| == 0 {
        EmptiesRead(rest);
      } else {
        ItemsRead(texts, vs, rest);
        BracketReads(list + ("]" + rest), vs, rest);
      }
    }
    Readable("[" + list + "]", J.ArrayValue(vs));
  }

  lemma {:induction false} BracketReads(s: string, vs: seq<J.JsonValue>, rest: string)
    requires ReadItems(s) == Some((vs, rest))
    ensures ReadValue("[" + s) == Some((J.ArrayValue(vs), rest))
  {
    hide ReadItems;
    NoBracket(s);
    NoWord("[" + s);
    assert ("[" + s)[1..] == s && ("[" + s)[1] == s[0];
  }

  lemma EmptiesRead(rest: string)
    ensures ReadValue("[" + ("" + ("]" + rest))) == Some((J.ArrayValue([]), rest))
    ensures ReadValue("{" + ("" + ("}" + rest))) == Some((J.ObjectValue(map[]), rest))
  {
    hide ReadItems, ReadEntries;
    var s, t := "[" + ("" + ("]" + rest)), "{" + ("" + ("}" + rest));
    NoWord(s);
    NoWord(t);
    assert s[..2] == "[]" && s[2..] == rest;
    assert t[..2] == "{}" && t[2..] == rest;
  }

  lemma Readable(text: string, v: J.JsonValue)
    requires forall rest :: EndsNumber(rest) ==> ReadValue(text + rest) == Some((v, rest))
    ensures Reads(text, v)
  {
  }

  // A list of items does not start with its closing bracket.
  lemma {:induction false} NoBracket(s: string)
    requires ReadItems(s).Some?
    ensures |s| > 0 && s[0] != ']'
  {
    assert ReadValue(s).Some?;
  }

  lemma ObjectReads(keys: seq<string>, texts: map<string, string>, values: map<string, J.JsonValue>)
    requires NoRepeats(keys) && (forall key :: key in values <==> key in keys)
    requires forall key :: key in keys ==> key in texts && key in values && Reads(texts[key], values[key])
    ensures Reads("{" + Join(PairTexts(keys, texts), ',') + "}", J.ObjectValue(values))
  {
    hide ReadValue, ReadEntries, Reads, PairText;
    var list := Join(PairTexts(keys, texts), ',');
    assert Restrict(keys, values) == values;
    forall rest ensures ReadValue("{" + list + "}" + rest) == Some((J.ObjectValue(values), rest)) {
      assert "{" + list + "}" + rest == "{" + (list + ("}" + rest));
      if |keys| == 0 {
        assert values == map[];
        EmptiesRead(rest);
      } else {
        EntriesRead(keys, texts, values, rest);
        BraceReads(list + ("}" + rest), values, rest);
      }
    }
    Readable("{" + list + "}", J.ObjectValue(values));
  }

  lemma {:induction false} BraceReads(s: string, table: map<string, J.JsonValue>, rest: string)
    requires ReadEntries(s) == Some((table, rest))
    ensures ReadValue("{" + s) == Some((J.ObjectValue(table), rest))
  {
    hide ReadEntries;
    NoBrace(s);
    NoWord("{" + s);
    assert ("{" + s)[1..] == s && ("{" + s)[1] == s[0];
  }

  lemma {:induction false} NoBrace(s: string)
    requires ReadEntries(s).Some?
    ensures |s| > 0 && s[0] != '}'
  {
  }

  // What json.Marshal writes for a value reads as that value, with its numbers as they
  // were written.
  lemma {:induction false} JsonReads(j: J.Json, number: NumberText)
    requires WritesNumbers(number) && J.Distinct(j)
    ensures Reads(JsonOf(j, number), J.Meaning(j, ByText(number)))
    decreases j, 0
  {
    hide Reads, QuoteJson, WritesNumbers, IsNumberText;
    match j
    case Number(text) =>
      NumberIs(number, text);
      NumberReads(number(text));
    case Str(text) => StringReads(text);
    case Array(items) =>
      var texts, vs := JsonsOf(items, number), J.MeaningsOf(items, ByText(number));
      forall i | 0 <= i < |items| ensures Reads(texts[i], vs[i]) { JsonReads(items[i], number); }
      ArrayReads(texts, vs);
    case Object(entries) => EntryTextsRead(entries, number);
    case _ => WordsRead();
  }

  lemma NumberIs(number: NumberText, text: string)
    requires WritesNumbers(number)
    ensures IsNumberText(number(text))
  {
  }

  lemma {:induction false} EntryTextsRead(entries: seq<J.Entry>, number: NumberText)
    requires WritesNumbers(number) && J.Distinct(J.Object(entries))
    ensures Reads(JsonOf(J.Object(entries), number), J.Meaning(J.Object(entries), ByText(number)))
    decreases entries, 1
  {
    hide Reads, QuoteJson, WritesNumbers, TextTable, J.TableOf, J.Lookup, Sort;
    var keys := Sort(Order.Keys(entries));
    var texts, values := TextTable(entries, number), J.TableOf(entries, ByText(number));
    SortedKeys(entries);
    forall key ensures key in values <==> key in keys { Order.KeysInTable(entries, ByText(number), key); }
    forall key | key in keys ensures key in texts && key in values && Reads(texts[key], values[key]) {
      TextLookup(entries, number, key);
      J.TableLookup(entries, ByText(number), key);
      var i := J.LookupFound(entries, key);
      DistinctEntries(entries, i);
      JsonReads(entries[i].value, number);
    }
    ObjectReads(keys, texts, values);
  }

  lemma SortedKeys(entries: seq<J.Entry>)
    requires J.Distinct(J.Object(entries))
    ensures var keys := Sort(Order.Keys(entries));
      NoRepeats(keys) && forall key :: key in keys <==> key in Order.Keys(entries)
  {
    var before := Order.Keys(entries);
    assert NoRepeats(before);
    hide J.Distinct, NoRepeats;
    SameBagKeys(before, Sort(before));
  }

  lemma SameBagKeys(before: seq<string>, keys: seq<string>)
    requires NoRepeats(before) && multiset(before) == multiset(keys)
    ensures NoRepeats(keys) && forall key :: key in keys <==> key in before
  {
    hide NoRepeats;
    forall key ensures key in keys <==> key in before { assert key in multiset(keys) <==> key in multiset(before); }
    NoRepeatsBag(before);
    BagNoRepeats(keys);
  }

  lemma BagNoRepeats(keys: seq<string>)
    requires forall key :: multiset(keys)[key] <= 1
    ensures NoRepeats(keys)
  {
    forall i, j | 0 <= i < j < |keys| ensures keys[i] != keys[j] {
      var before, after := keys[..j], keys[j..];
      assert keys == before + after;
      assert keys[i] in before && keys[j] in after;
      assert multiset(keys)[keys[j]] == multiset(before)[keys[j]] + multiset(after)[keys[j]];
    }
  }

  lemma {:induction false} NoRepeatsBag(keys: seq<string>)
    requires NoRepeats(keys)
    ensures forall key :: multiset(keys)[key] <= 1
  {
    if |keys| != 0 {
      var n := |keys| - 1;
      NoRepeatsBag(keys[..n]);
      assert keys == keys[..n] + [keys[n]];
      assert keys[n] !in keys[..n];
    }
  }

  lemma ReadsWhole(text: string, v: J.JsonValue)
    requires Reads(text, v)
    ensures ReadJson(text) == Some(v)
  {
    assert EndsNumber("") && text + "" == text;
    assert ReadValue(text + "") == Some((v, ""));
  }

  lemma JsonReadsBack(j: J.Json, number: NumberText)
    requires WritesNumbers(number) && J.Distinct(j)
    ensures ReadJson(JsonOf(j, number)) == Some(J.Meaning(j, ByText(number)))
  {
    JsonReads(j, number);
    ReadsWhole(JsonOf(j, number), J.Meaning(j, ByText(number)));
  }
}
