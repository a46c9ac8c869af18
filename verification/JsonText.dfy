// The text json.Marshal writes for a decoded value, which equalToJson patterns and
// GraphQL variables are compared by (normalizeRawJSON in internal/matcher/request.go),
// and what equal texts say about the values.
module JsonText {
  import opened Wrappers
  import opened Sequences
  import opened Strings
  import opened GraphQLTokens
  import opened TextScan
  import opened JsonTree
  import opened JsonOrder

  // ---------- Strings ----------

  // The line and paragraph separators U+2028 and U+2029 in UTF-8.
  predicate StartsSeparator(s: string) {
    |s| >= 3 && s[0] == '\U{00E2}' && s[1] == '\U{0080}' && (s[2] == '\U{00A8}' || s[2] == '\U{00A9}')
  }

  // How many bytes the first escape or plain byte stands for.
  function PieceSize(s: string): (n: nat)
    requires |s| > 0
    ensures 0 < n <= |s|
  {
    if StartsSeparator(s) then 3 else 1
  }

  function Hex4(c: char): (h: string)
    requires c < '\U{0080}'
  {
    ['\\', 'u', '0', '0', HexDigit(c as nat / 16), HexDigit(c as nat % 16)]
  }

  function EscapeByte(c: char): (r: string) {
    match c
    case '"' => ['\\', '"']
    case '\\' => ['\\', '\\']
    case '\U{0008}' => ['\\', 'b']
    case '\U{000C}' => ['\\', 'f']
    case '\n' => ['\\', 'n']
    case '\r' => ['\\', 'r']
    case '\t' => ['\\', 't']
    case _ => if c < ' ' || c == '<' || c == '>' || c == '&' then Hex4(c) else [c]
  }

  function EscapePiece(s: string): (r: string)
    requires |s| > 0
  {
    if StartsSeparator(s) then ['\\', 'u', '2', '0', '2', if s[2] == '\U{00A8}' then '8' else '9'] else EscapeByte(s[0])
  }

  function EscapeText(s: string): (r: string)
    decreases |s|
  {
    if |s| == 0 then "" else EscapePiece(s) + EscapeText(s[PieceSize(s)..])
  }

  function QuoteJson(s: string): (r: string) { "\"" + EscapeText(s) + "\"" }

  predicate IsHex(c: char) { '0' <= c <= '9' || 'a' <= c <= 'f' }

  // A plain byte, an escaped letter, or u and four hexadecimal digits.
  predicate PieceShape(p: string) {
    || (|p| == 1 && p[0] != '"' && p[0] != '\\')
    || (|p| == 2 && p[0] == '\\' && p[1] != 'u')
    || (|p| == 6 && p[0] == '\\' && p[1] == 'u' && IsHex(p[2]) && IsHex(p[3]) && IsHex(p[4]) && IsHex(p[5]))
  }

  lemma ByteShape(c: char)
    ensures PieceShape(EscapeByte(c))
  {
  }

  lemma EscapeShape(s: string)
    requires |s| > 0
    ensures PieceShape(EscapePiece(s))
  {
    ByteShape(s[0]);
  }

  lemma ByteInjective(c: char, d: char)
    requires EscapeByte(c) == EscapeByte(d)
    ensures c == d
  {
    if c < ' ' || c == '<' || c == '>' || c == '&' {
      var e := EscapeByte(c);
      if |e| == 6 {
        assert HexValue(e[4]) == Some(c as nat / 16) && HexValue(e[5]) == Some(c as nat % 16);
        assert HexValue(e[4]) == Some(d as nat / 16) && HexValue(e[5]) == Some(d as nat % 16);
      }
    }
  }

  // The escape says which bytes it stands for.
  lemma PieceInjective(s: string, t: string)
    requires |s| > 0 && |t| > 0 && EscapePiece(s) == EscapePiece(t)
    ensures PieceSize(s) == PieceSize(t) && s[..PieceSize(s)] == t[..PieceSize(t)]
  {
    if !StartsSeparator(s) && !StartsSeparator(t) {
      ByteInjective(s[0], t[0]);
    }
  }

  // No escape is the beginning of another.
  lemma PieceCut(p: string, q: string, x: string, y: string)
    requires PieceShape(p) && PieceShape(q) && p + x == q + y
    ensures p == q && x == y
  {
    assert p[0] == (p + x)[0] == (q + y)[0] == q[0];
    if |p| > 1 { assert p[1] == (p + x)[1] == (q + y)[1] == q[1]; }
    assert |p| == |q|;
    assert (p + x)[..|p|] == p && (q + y)[..|q|] == q && (p + x)[|p|..] == x && (q + y)[|q|..] == y;
  }

  lemma {:induction false} EscapeInjective(s: string, t: string)
    requires EscapeText(s) == EscapeText(t)
    ensures s == t
    decreases |s|
  {
    hide EscapePiece, PieceSize;
    if |s| != 0 { EscapeShape(s); }
    if |t| != 0 { EscapeShape(t); }
    if |s| != 0 && |t| != 0 {
      var n, m := PieceSize(s), PieceSize(t);
      PieceCut(EscapePiece(s), EscapePiece(t), EscapeText(s[n..]), EscapeText(t[m..]));
      PieceInjective(s, t);
      EscapeInjective(s[n..], t[m..]);
      assert s == s[..n] + s[n..] && t == t[..m] + t[m..];
    }
  }

  lemma QuoteJsonInjective(s: string, t: string)
    requires QuoteJson(s) == QuoteJson(t)
    ensures s == t
  {
    CancelRight("\"" + EscapeText(s), "\"" + EscapeText(t), "\"");
    CancelLeft("\"", EscapeText(s), EscapeText(t));
    EscapeInjective(s, t);
  }

  lemma PieceRun(p: string, level: nat)
    requires PieceShape(p)
    ensures Run(State(0, Quoted), p) == State(0, Quoted)
    ensures Free(State(0, Quoted), p, level)
  {
    var quoted, escaped := State(0, Quoted), State(0, Escaped);
    if |p| == 1 {
      assert p == [p[0]] + "";
      StepRun(quoted, p[0], "", level);
    } else {
      var rest := p[2..];
      assert p == [p[0]] + ([p[1]] + rest);
      StepRun(quoted, p[0], [p[1]] + rest, level);
      StepRun(escaped, p[1], rest, level);
      if |p| == 6 { HexRun(rest, level); }
    }
  }

  lemma {:induction false} HexRun(h: string, level: nat)
    requires forall i :: 0 <= i < |h| ==> IsHex(h[i])
    ensures Run(State(0, Quoted), h) == State(0, Quoted)
    ensures Free(State(0, Quoted), h, level)
  {
    if |h| != 0 {
      assert IsHex(h[0]);
      HexRun(h[1..], level);
    }
  }

  lemma {:induction false} EscapeRun(s: string, level: nat)
    ensures Run(State(0, Quoted), EscapeText(s)) == State(0, Quoted)
    ensures Free(State(0, Quoted), EscapeText(s), level)
    decreases |s|
  {
    hide EscapePiece, PieceSize;
    if |s| != 0 {
      var rest := EscapeText(s[PieceSize(s)..]);
      EscapeShape(s);
      PieceRun(EscapePiece(s), level);
      EscapeRun(s[PieceSize(s)..], level);
      RunAppend(State(0, Quoted), EscapePiece(s), rest);
      FreeAppend(State(0, Quoted), EscapePiece(s), rest, level);
    }
  }

  lemma QuoteJsonBalanced(s: string)
    ensures Balanced(QuoteJson(s), 2)
  {
    hide EscapeText;
    EscapeRun(s, 2);
    QuotedBalanced(EscapeText(s));
  }

  // ---------- Values ----------

  // The text json.Marshal writes for a number literal after normalising it.
  type NumberText = string -> string

  predicate IsNumberText(t: string) {
    && |t| > 0 && (t[0] == '-' || '0' <= t[0] <= '9')
    && forall i :: 0 <= i < |t| ==> IsNumberByte(t[i])
  }

  predicate IsNumberByte(c: char) { '0' <= c <= '9' || c == '-' || c == '+' || c == '.' || c == 'e' || c == 'E' }

  ghost predicate WritesNumbers(number: NumberText) { forall t :: IsNumberText(number(t)) }

  function JsonOf(j: Json, number: NumberText): (s: string)
    decreases j, 0
  {
    match j
    case Null => "null"
    case Bool(b) => if b then "true" else "false"
    case Number(text) => number(text)
    case Str(text) => QuoteJson(text)
    case Array(items) => "[" + Join(JsonsOf(items, number), ',') + "]"
    case Object(entries) => "{" + Join(PairTexts(Sort(Keys(entries)), TextTable(entries, number)), ',') + "}"
  }

  function JsonsOf(items: seq<Json>, number: NumberText): (ss: seq<string>)
    ensures |ss| == |items|
    decreases items, 1
  {
    seq(|items|, i requires 0 <= i < |items| => JsonOf(items[i], number))
  }

  // The text of the value at each key.
  function TextTable(entries: seq<Entry>, number: NumberText): (t: map<string, string>)
    decreases entries, 1
  {
    if |entries| == 0 then map[]
    else TextTable(entries[1..], number)[entries[0].key := JsonOf(entries[0].value, number)]
  }

  function PairText(key: string, table: map<string, string>): (s: string) {
    QuoteJson(key) + (":" + if key in table then table[key] else "")
  }

  function PairTexts(keys: seq<string>, table: map<string, string>): (ss: seq<string>)
    ensures |ss| == |keys|
  {
    seq(|keys|, i requires 0 <= i < |keys| => PairText(keys[i], table))
  }

  lemma {:induction false} TextLookup(entries: seq<Entry>, number: NumberText, key: string)
    ensures key in TextTable(entries, number) <==> Lookup(entries, key).Some?
    ensures Lookup(entries, key).Some? ==> TextTable(entries, number)[key] == JsonOf(Lookup(entries, key).value, number)
  {
    if |entries| != 0 { TextLookup(entries[1..], number, key); }
  }

  // ---------- Texts come apart ----------

  lemma NumberItem(t: string)
    requires IsNumberText(t)
    ensures IsItem(t)
  {
    forall i | 0 <= i < |t| ensures IsPlain(t[i]) { assert IsNumberByte(t[i]); }
    PlainBalanced(t);
    Weaken(t, 2, 1);
  }

  lemma WordItems()
    ensures IsItem("null") && IsItem("true") && IsItem("false")
  {
    WordItem("null");
    WordItem("true");
    WordItem("false");
  }

  lemma WordItem(s: string)
    requires |s| > 0 && forall i :: 0 <= i < |s| ==> 'a' <= s[i] <= 'z'
    ensures IsItem(s)
  {
    PlainBalanced(s);
    Weaken(s, 2, 1);
  }

  lemma ListItem(open: char, items: seq<string>, close: char)
    requires IsOpen(open) && IsClose(close) && AllItems(items)
    ensures IsItem([open] + Join(items, ',') + [close])
  {
    ItemsBalanced(items, ',');
    PlainBalanced("");
    BracketsBalanced("", open, Join(items, ','), close);
    assert "" + [open] + Join(items, ',') + [close] == [open] + Join(items, ',') + [close];
    Weaken([open] + Join(items, ',') + [close], 2, 1);
  }

  lemma PairItem(key: string, table: map<string, string>)
    requires key in table && IsItem(table[key])
    ensures IsItem(PairText(key, table))
  {
    hide QuoteJson;
    QuoteJsonBalanced(key);
    Weaken(QuoteJson(key), 2, 1);
    CharBalanced(':', 1);
    BalancedAppend(":", table[key], 1);
    BalancedAppend(QuoteJson(key), ":" + table[key], 1);
  }

  lemma {:induction false} JsonItem(j: Json, number: NumberText)
    requires WritesNumbers(number)
    ensures IsItem(JsonOf(j, number))
    decreases j, 0
  {
    hide IsItem, QuoteJson, Join, Sort, IsNumberText;
    match j
    case Number(text) =>
      assert IsNumberText(number(text));
      NumberItem(number(text));
    case Str(text) => StringItem(text);
    case Array(items) =>
      forall i | 0 <= i < |items| ensures IsItem(JsonsOf(items, number)[i]) { JsonItem(items[i], number); }
      ListItem('[', JsonsOf(items, number), ']');
    case Object(entries) =>
      PairItems(entries, number);
      ListItem('{', PairTexts(Sort(Keys(entries)), TextTable(entries, number)), '}');
    case _ => WordItems();
  }

  lemma StringItem(text: string)
    ensures IsItem(QuoteJson(text))
  {
    QuoteJsonBalanced(text);
    Weaken(QuoteJson(text), 2, 1);
  }

  lemma {:induction false} PairItems(entries: seq<Entry>, number: NumberText)
    requires WritesNumbers(number)
    ensures AllItems(PairTexts(Sort(Keys(entries)), TextTable(entries, number)))
    decreases entries, 1
  {
    hide IsItem, TextTable, JsonOf, PairText;
    var keys, table := Sort(Keys(entries)), TextTable(entries, number);
    forall i | 0 <= i < |keys| ensures IsItem(PairTexts(keys, table)[i]) {
      SortedKey(entries, i);
      TextLookup(entries, number, keys[i]);
      var k := LookupFound(entries, keys[i]);
      JsonItem(entries[k].value, number);
      PairItem(keys[i], table);
    }
  }

  lemma SortedKey(entries: seq<Entry>, i: nat)
    requires i < |Sort(Keys(entries))|
    ensures Lookup(entries, Sort(Keys(entries))[i]).Some?
  {
    var keys := Sort(Keys(entries));
    assert keys[i] in multiset(keys);
    assert keys[i] in Keys(entries);
    KeysInTable(entries, AsWritten, keys[i]);
    TableLookup(entries, AsWritten, keys[i]);
  }

  // ---------- Equal texts, equal values ----------

  // A number by the text json.Marshal writes for it.
  function ByText(number: NumberText): (numbers: Numbers) { (t: string) => LiteralValue(number(t)) }

  function Kind(j: Json): (c: nat) {
    match j
    case Null => 0
    case Bool(b) => if b then 1 else 2
    case Number(_) => 3
    case Str(_) => 4
    case Array(_) => 5
    case Object(_) => 6
  }

  function KindOfText(s: string): (c: nat)
    requires |s| > 0
  {
    match s[0]
    case 'n' => 0
    case 't' => 1
    case 'f' => 2
    case '"' => 4
    case '[' => 5
    case '{' => 6
    case _ => 3
  }

  lemma TextKind(j: Json, number: NumberText)
    requires WritesNumbers(number)
    ensures |JsonOf(j, number)| > 0 && KindOfText(JsonOf(j, number)) == Kind(j)
  {
    hide Join, EscapeText;
    if j.Number? { assert IsNumberText(number(j.text)); }
  }

  // json.Marshal writes one text for two decoded values exactly when they are the
  // same but for the order of object entries and the spelling of numbers.
  lemma {:induction false} SameTextIff(a: Json, b: Json, number: NumberText)
    requires WritesNumbers(number) && Distinct(a) && Distinct(b)
    ensures JsonOf(a, number) == JsonOf(b, number) <==> Meaning(a, ByText(number)) == Meaning(b, ByText(number))
    decreases a, 0
  {
    hide QuoteJson, Join, Sort, WritesNumbers, KindOfText;
    TextKind(a, number);
    TextKind(b, number);
    if Kind(a) == Kind(b) {
      match a
      case Str(text) => if QuoteJson(text) == QuoteJson(b.text) { QuoteJsonInjective(text, b.text); }
      case Array(items) => SameArrays(items, b.items, number);
      case Object(entries) => SameObjectTexts(entries, b.entries, number);
      case _ =>
    }
  }

  lemma BracketedList(open: char, ss: seq<string>, tt: seq<string>, close: char)
    requires AllItems(ss) && AllItems(tt)
    requires [open] + Join(ss, ',') + [close] == [open] + Join(tt, ',') + [close]
    ensures ss == tt
  {
    CancelRight([open] + Join(ss, ','), [open] + Join(tt, ','), [close]);
    CancelLeft([open], Join(ss, ','), Join(tt, ','));
    SplitItems(ss, tt, ',');
  }

  lemma {:induction false} SameArrays(items: seq<Json>, others: seq<Json>, number: NumberText)
    requires WritesNumbers(number) && Distinct(Array(items)) && Distinct(Array(others))
    ensures JsonOf(Array(items), number) == JsonOf(Array(others), number)
       <==> MeaningsOf(items, ByText(number)) == MeaningsOf(others, ByText(number))
    decreases items, 1
  {
    hide Join, IsItem, WritesNumbers;
    var ss, tt := JsonsOf(items, number), JsonsOf(others, number);
    var vs, ws := MeaningsOf(items, ByText(number)), MeaningsOf(others, ByText(number));
    if JsonOf(Array(items), number) == JsonOf(Array(others), number) {
      forall i | 0 <= i < |ss| ensures IsItem(ss[i]) { JsonItem(items[i], number); }
      forall i | 0 <= i < |tt| ensures IsItem(tt[i]) { JsonItem(others[i], number); }
      BracketedList('[', ss, tt, ']');
    }
    if |items| == |others| {
      forall i | 0 <= i < |items| ensures ss[i] == tt[i] <==> vs[i] == ws[i] {
        SameTextIff(items[i], others[i], number);
      }
      assert ss == tt <==> vs == ws;
    }
  }

  lemma {:induction false} SameObjectTexts(entries: seq<Entry>, others: seq<Entry>, number: NumberText)
    requires WritesNumbers(number) && Distinct(Object(entries)) && Distinct(Object(others))
    ensures JsonOf(Object(entries), number) == JsonOf(Object(others), number)
       <==> TableOf(entries, ByText(number)) == TableOf(others, ByText(number))
    decreases entries, 1
  {
    hide Join, IsItem, WritesNumbers, TextTable, TableOf, Sort, Keys, PairText, JsonOf, Meaning, Distinct, IsNumberText;
    var numbers := ByText(number);
    var s, t := TextTable(entries, number), TextTable(others, number);
    var v, w := TableOf(entries, numbers), TableOf(others, numbers);
    forall key
      ensures key in s <==> key in v
      ensures key in t <==> key in w
      ensures key in s && key in t ==> (s[key] == t[key] <==> v[key] == w[key])
    {
      TextLookup(entries, number, key);
      TextLookup(others, number, key);
      TableLookup(entries, numbers, key);
      TableLookup(others, numbers, key);
      if key in s && key in t {
        var i := LookupFound(entries, key);
        var k := LookupFound(others, key);
        DistinctEntries(entries, i);
        DistinctEntries(others, k);
        SameTextIff(entries[i].value, others[k].value, number);
      }
    }
    assert s == t <==> v == w by {
      if s == t { assert v == w; }
      if v == w { assert s == t; }
    }
    SameTablesSameText(entries, others, number);
  }

  lemma DistinctEntries(entries: seq<Entry>, i: nat)
    requires Distinct(Object(entries)) && i < |entries|
    ensures Distinct(entries[i].value)
  {
  }

  // An object's text is its table of texts.
  lemma SameTablesSameText(entries: seq<Entry>, others: seq<Entry>, number: NumberText)
    requires WritesNumbers(number) && Distinct(Object(entries)) && Distinct(Object(others))
    ensures JsonOf(Object(entries), number) == JsonOf(Object(others), number)
       <==> TextTable(entries, number) == TextTable(others, number)
  {
    hide Join, IsItem, TextTable, PairText, Sort, Distinct;
    var s, t := TextTable(entries, number), TextTable(others, number);
    var ks, ls := Sort(Keys(entries)), Sort(Keys(others));
    if s == t {
      forall key ensures key in Keys(entries) <==> key in Keys(others) {
        KeyInTextTable(entries, number, key);
        KeyInTextTable(others, number, key);
      }
      DistinctKeyBags(entries, others);
      SortDetermined(Keys(entries), Keys(others));
    }
    if JsonOf(Object(entries), number) == JsonOf(Object(others), number) {
      PairItems(entries, number);
      PairItems(others, number);
      BracketedList('{', PairTexts(ks, s), PairTexts(ls, t), '}');
      EqualPairs(entries, others, number);
    }
  }

  lemma DistinctKeyBags(entries: seq<Entry>, others: seq<Entry>)
    requires Distinct(Object(entries)) && Distinct(Object(others))
    requires forall key :: key in Keys(entries) <==> key in Keys(others)
    ensures multiset(Keys(entries)) == multiset(Keys(others))
  {
    DistinctBags(Keys(entries), Keys(others));
  }

  lemma KeyInTextTable(entries: seq<Entry>, number: NumberText, key: string)
    ensures key in Keys(entries) <==> key in TextTable(entries, number)
  {
    KeysInTable(entries, AsWritten, key);
    TableLookup(entries, AsWritten, key);
    TextLookup(entries, number, key);
  }

  lemma EqualPairs(entries: seq<Entry>, others: seq<Entry>, number: NumberText)
    requires PairTexts(Sort(Keys(entries)), TextTable(entries, number))
          == PairTexts(Sort(Keys(others)), TextTable(others, number))
    ensures TextTable(entries, number) == TextTable(others, number)
  {
    hide TextTable, Sort, Keys, QuoteJson;
    var s, t := TextTable(entries, number), TextTable(others, number);
    var ks, ls := Sort(Keys(entries)), Sort(Keys(others));
    var ps, qs := PairTexts(ks, s), PairTexts(ls, t);
    forall i | 0 <= i < |ks| ensures ks[i] == ls[i] && ks[i] in s && ks[i] in t && s[ks[i]] == t[ks[i]] {
      assert ps[i] == qs[i];
      var x, y := ":" + (if ks[i] in s then s[ks[i]] else ""), ":" + if ls[i] in t then t[ls[i]] else "";
      QuoteJsonBalanced(ks[i]);
      QuoteJsonBalanced(ls[i]);
      Cut(QuoteJson(ks[i]), QuoteJson(ls[i]), x, y, 2);
      QuoteJsonInjective(ks[i], ls[i]);
      SortedKey(entries, i);
      SortedKey(others, i);
      TextLookup(entries, number, ks[i]);
      TextLookup(others, number, ls[i]);
      assert x[1..] == s[ks[i]] && y[1..] == t[ls[i]];
    }
    forall key ensures key in s <==> key in ks {
      KeyInTextTable(entries, number, key);
      SortKeeps(Keys(entries), key);
    }
    forall key ensures key in t <==> key in ls {
      KeyInTextTable(others, number, key);
      SortKeeps(Keys(others), key);
    }
    assert ks == ls;
  }

  lemma SortKeeps(ss: seq<string>, x: string)
    ensures x in Sort(ss) <==> x in ss
  {
    assert x in multiset(Sort(ss)) <==> x in multiset(ss);
  }
}
