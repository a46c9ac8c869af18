// How GraphQL text is written: the spellings of each token, the text that may stand
// between tokens, and what may directly follow a token. Nothing here says how text
// is read; GraphQLLayout shows that the lexer reads exactly this.
module GraphQLSpelling {
  import opened Wrappers
  import opened Utf8
  import opened GraphQLTokens

  // ---------- Strings in quotes ----------

  // The parts of a string in quotes. An escape by number says which number v its
  // digits are.
  datatype StringPart =
    | Character(text: string)
    | Stray(c: char)                          // a byte that starts no character
    | Escape(letter: char)
    | Octal(digits: string, v: nat)
    | Hex(digits: string, v: nat)
    | ShortCode(digits: string, v: nat)
    | LongCode(digits: string, v: nat)

  const ESCAPES: map<char, char> := map[
    'a' := '\U{0007}', 'b' := '\U{0008}', 'f' := '\U{000C}', 'n' := '\n', 'r' := '\r', 't' := '\t',
    'v' := '\U{000B}', '\\' := '\\', '"' := '"']

  const LOWER := "0123456789abcdef"
  const UPPER := "0123456789ABCDEF"

  predicate IsDigitOf(c: char, n: nat) { n < 16 && (c == LOWER[n] || c == UPPER[n]) }

  // digits write v in the given base.
  predicate Writes(digits: string, base: nat, v: nat)
    requires base > 0
  {
    if |digits| == 0 then v == 0
    else IsDigitOf(digits[|digits| - 1], v % base) && Writes(digits[..|digits| - 1], base, v / base)
  }

  // A part in front of the rest of its string.
  predicate ValidPart(p: StringPart, rest: string) {
    match p
    case Character(text) =>
      |text| > 0 && text[0] != '"' && text[0] != '\\' && text[0] != '\n'
      && if '\U{0080}' <= text[0] <= '\U{00FF}' then RuneSize(text) == |text| else |text| == 1
    case Stray(c) => '\U{0080}' <= c <= '\U{00FF}' && RuneSize([c] + rest) == 0
    case Escape(letter) => letter in ESCAPES
    case Octal(digits, v) => |digits| == 3 && Writes(digits, 8, v) && v < 256
    case Hex(digits, v) => |digits| == 2 && Writes(digits, 16, v)
    case ShortCode(digits, v) => |digits| == 4 && Writes(digits, 16, v) && IsScalar(v)
    case LongCode(digits, v) => |digits| == 8 && Writes(digits, 16, v) && IsScalar(v)
  }

  function PartText(p: StringPart): (s: string) {
    match p
    case Character(text) => text
    case Stray(c) => [c]
    case Escape(letter) => ['\\', letter]
    case Octal(digits, _) => "\\" + digits
    case Hex(digits, _) => "\\x" + digits
    case ShortCode(digits, _) => "\\u" + digits
    case LongCode(digits, _) => "\\U" + digits
  }

  function PartValue(p: StringPart, rest: string): (s: string)
    requires ValidPart(p, rest)
  {
    match p
    case Character(text) => text
    case Stray(_) => REPLACEMENT
    case Escape(letter) => [ESCAPES[letter]]
    case Octal(_, v) => [v as char]
    case Hex(digits, v) => HexBound(digits, v); [v as char]
    case ShortCode(_, v) => EncodeRune(v)
    case LongCode(_, v) => EncodeRune(v)
  }

  lemma HexBound(digits: string, v: nat)
    requires |digits| == 2 && Writes(digits, 16, v)
    ensures v < 256
  {
    assert Writes(digits[..1], 16, v / 16) && Writes(digits[..1][..0], 16, v / 16 / 16);
  }

  function PartsText(ps: seq<StringPart>): (s: string) {
    if |ps| == 0 then "" else PartText(ps[0]) + PartsText(ps[1..])
  }

  predicate ValidParts(ps: seq<StringPart>) {
    |ps| == 0 || (ValidPart(ps[0], PartsText(ps[1..])) && ValidParts(ps[1..]))
  }

  function PartsValue(ps: seq<StringPart>): (s: string)
    requires ValidParts(ps)
  {
    if |ps| == 0 then "" else PartValue(ps[0], PartsText(ps[1..])) + PartsValue(ps[1..])
  }

  // ---------- Numbers ----------

  datatype NumberParts = NumberParts(negative: bool, integer: string, fraction: Option<string>,
                                     exponent: Option<Exponent>)

  datatype Exponent = Exponent(letter: char, sign: string, digits: string)

  predicate AllDigits(s: string) { |s| > 0 && forall i :: 0 <= i < |s| ==> IsDigit(s[i]) }

  predicate ValidNumber(n: NumberParts) {
    && AllDigits(n.integer)
    && (n.fraction.Some? ==> AllDigits(n.fraction.value))
    && (n.exponent.Some? ==>
          && (n.exponent.value.letter == 'e' || n.exponent.value.letter == 'E')
          && (n.exponent.value.sign == "" || n.exponent.value.sign == "+" || n.exponent.value.sign == "-")
          && AllDigits(n.exponent.value.digits))
  }

  function FractionText(fraction: Option<string>): (s: string) {
    if fraction.None? then "" else "." + fraction.value
  }

  function ExponentText(exponent: Option<Exponent>): (s: string) {
    if exponent.None? then "" else [exponent.value.letter] + exponent.value.sign + exponent.value.digits
  }

  function IntegerText(n: NumberParts): (s: string) {
    (if n.negative then "-" else "") + n.integer
  }

  function NumberText(n: NumberParts): (s: string) {
    IntegerText(n) + FractionText(n.fraction) + ExponentText(n.exponent)
  }

  // ---------- Tokens ----------

  const TRIPLE := "\"\"\""

  // A text inside triple quotes, which must not contain them or run into them.
  predicate BlockText(text: string) {
    forall i :: 0 <= i < |text| ==> !(TRIPLE <= (text + TRIPLE)[i..])
  }

  ghost predicate InQuotes(w: string, text: string) {
    exists ps :: ValidParts(ps) && w == "\"" + PartsText(ps) + "\"" && text == PartsValue(ps)
  }

  ghost predicate Spells(w: string, t: Token) {
    match t
    case Name(text) => w == text && |w| > 0 && IsNameStart(w[0]) && forall i :: 0 <= i < |w| ==> IsNameContinue(w[i])
    case Number(text) => w == text && exists n :: ValidNumber(n) && w == NumberText(n)
    case Str(text) => (w == TRIPLE + text + TRIPLE && BlockText(text)) || InQuotes(w, text)
    case Punct(text) => w == text && (w == "..." || (|w| == 1 && IsPunct(w[0])))
  }

  predicate HasExponent(w: string) { 'e' in w || 'E' in w }

  // What may directly follow a token without being read as more of it.
  predicate MayFollow(t: Token, w: string, rest: string) {
    |rest| == 0 ||
    match t
    case Name(_) => !IsNameContinue(rest[0])
    case Number(_) =>
      && !IsDigit(rest[0])
      && (rest[0] == '.' ==> '.' in w || HasExponent(w))
      && (rest[0] == 'e' || rest[0] == 'E' ==> HasExponent(w))
    case Str(_) => w == "\"\"" ==> rest[0] != '"'
    case Punct(_) => true
  }

  // ---------- Documents ----------

  datatype Item =
    | Blank(c: char)
    | Comment(text: string)
    | Word(token: Token, text: string)

  function ItemText(item: Item): (s: string) {
    match item
    case Blank(c) => [c]
    case Comment(text) => "#" + text
    case Word(_, text) => text
  }

  function ItemsText(items: seq<Item>): (s: string) {
    if |items| == 0 then "" else ItemText(items[0]) + ItemsText(items[1..])
  }

  // An item in front of the rest of its text: a comment runs to the end of its line.
  ghost predicate ValidItem(item: Item, rest: string) {
    match item
    case Blank(c) => IsBlank(c)
    case Comment(text) =>
      && (forall i :: 0 <= i < |text| ==> !IsNewline(text[i]))
      && (|rest| > 0 ==> IsNewline(rest[0]))
    case Word(token, text) => Spells(text, token) && MayFollow(token, text, rest)
  }

  ghost predicate ValidItems(items: seq<Item>) {
    |items| == 0 || (ValidItem(items[0], ItemsText(items[1..])) && ValidItems(items[1..]))
  }

  function TokensOf(items: seq<Item>): (ts: seq<Token>) {
    if |items| == 0 then []
    else (if items[0].Word? then [items[0].token] else []) + TokensOf(items[1..])
  }

  // ts are the tokens of a document that is written as s.
  ghost predicate IsWritten(s: string, ts: seq<Token>) {
    exists items :: ValidItems(items) && ItemsText(items) == s && TokensOf(items) == ts
  }
}
