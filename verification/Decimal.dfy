// strconv.Itoa and strconv.Atoi on 64-bit integers, and strings.TrimSpace.
module Decimal {
  import opened Wrappers

  const MIN_INT: int := -0x8000_0000_0000_0000
  const MAX_INT: int := 0x7FFF_FFFF_FFFF_FFFF

  predicate IsInt(n: int) { MIN_INT <= n <= MAX_INT }

  predicate IsDigit(c: char) { '0' <= c <= '9' }

  function Digits(n: nat): (s: string)
    ensures |s| > 0
    ensures forall i :: 0 <= i < |s| ==> IsDigit(s[i])
  {
    if n < 10 then [('0' as nat + n) as char] else Digits(n / 10) + [('0' as nat + n % 10) as char]
  }

  function Itoa(n: int): (s: string) {
    if n < 0 then "-" + Digits(-n) else Digits(n)
  }

  // The value of a non-empty run of digits.
  function DigitsValue(s: string): (r: Option<nat>) {
    if |s| == 0 || !IsDigit(s[|s| - 1]) then None
    else
      var low := (s[|s| - 1] - '0') as nat;
      if |s| == 1 then Some(low)
      else match DigitsValue(s[..|s| - 1])
        case Some(high) => Some(10 * high + low)
        case None => None
  }

  function InRange(n: int): (r: Option<int>) {
    if IsInt(n) then Some(n) else None
  }

  function Atoi(s: string): (r: Option<int>)
    ensures r.Some? ==> IsInt(r.value)
  {
    var negative := |s| > 0 && s[0] == '-';
    var digits := if |s| > 0 && (s[0] == '-' || s[0] == '+') then s[1..] else s;
    match DigitsValue(digits)
    case None => None
    case Some(v) => if negative then InRange(0 - v) else InRange(v)
  }

  lemma {:induction false} DigitsRead(n: nat)
    ensures DigitsValue(Digits(n)) == Some(n)
  {
    if n >= 10 {
      DigitsRead(n / 10);
      var s := Digits(n);
      assert s[..|s| - 1] == Digits(n / 10);
    }
  }

  lemma AtoiItoa(n: int)
    requires IsInt(n)
    ensures Atoi(Itoa(n)) == Some(n)
  {
    hide Digits, DigitsValue;
    var digits := Digits(if n < 0 then -n else n);
    DigitsRead(if n < 0 then -n else n);
    assert IsDigit(digits[0]);
    assert ("-" + digits)[0] == '-' && ("-" + digits)[1..] == digits;
  }

  // The white space of unicode.IsSpace, in UTF-8.
  predicate IsWhite(c: char) {
    c == ' ' || c == '\t' || c == '\n' || c == '\r' || c == '\U{000B}' || c == '\U{000C}'
  }

  predicate IsWide(a: char, b: char) { a == '\U{00C2}' && (b == '\U{0085}' || b == '\U{00A0}') }

  predicate IsWider(a: char, b: char, c: char) {
    || (a == '\U{00E1}' && b == '\U{009A}' && c == '\U{0080}')
    || (a == '\U{00E2}' && b == '\U{0080}' && '\U{0080}' <= c <= '\U{008A}')
    || (a == '\U{00E2}' && b == '\U{0080}' && (c == '\U{00A8}' || c == '\U{00A9}' || c == '\U{00AF}'))
    || (a == '\U{00E2}' && b == '\U{0081}' && c == '\U{009F}')
    || (a == '\U{00E3}' && b == '\U{0080}' && c == '\U{0080}')
  }

  // The length of the white-space character s starts with, or zero.
  function WhiteStart(s: string): (n: nat)
    ensures n <= |s|
  {
    if |s| > 0 && IsWhite(s[0]) then 1
    else if |s| > 1 && IsWide(s[0], s[1]) then 2
    else if |s| > 2 && IsWider(s[0], s[1], s[2]) then 3
    else 0
  }

  // The length of the white-space character s ends with, or zero.
  function WhiteEnd(s: string): (n: nat)
    ensures n <= |s|
  {
    var m := |s|;
    if m > 0 && IsWhite(s[m - 1]) then 1
    else if m > 1 && IsWide(s[m - 2], s[m - 1]) then 2
    else if m > 2 && IsWider(s[m - 3], s[m - 2], s[m - 1]) then 3
    else 0
  }

  function TrimLeft(s: string): (r: string)
    ensures |r| <= |s|
    decreases |s|
  {
    if WhiteStart(s) > 0 then TrimLeft(s[WhiteStart(s)..]) else s
  }

  function TrimRight(s: string): (r: string)
    ensures |r| <= |s|
    decreases |s|
  {
    if WhiteEnd(s) > 0 then TrimRight(s[..|s| - WhiteEnd(s)]) else s
  }

  function TrimSpace(s: string): (r: string)
    ensures |r| <= |s|
  {
    TrimRight(TrimLeft(s))
  }

  predicate IsPlain(c: char) { c < '\U{0080}' && !IsWhite(c) }

  lemma TrimPlain(s: string)
    requires |s| > 0 ==> IsPlain(s[0]) && IsPlain(s[|s| - 1])
    ensures TrimSpace(s) == s
  {
  }

  lemma {:induction false} TrimmedLeft(s: string)
    ensures TrimLeft(TrimLeft(s)) == TrimLeft(s)
    ensures forall n :: 0 <= n <= |TrimLeft(s)| ==> TrimLeft(TrimLeft(s)[..n]) == TrimLeft(s)[..n]
    decreases |s|
  {
    if WhiteStart(s) > 0 { TrimmedLeft(s[WhiteStart(s)..]); }
  }

  lemma {:induction false} TrimmedRight(s: string)
    ensures TrimRight(TrimRight(s)) == TrimRight(s) == s[..|TrimRight(s)|]
    decreases |s|
  {
    hide WhiteEnd;
    if WhiteEnd(s) > 0 { TrimmedRight(s[..|s| - WhiteEnd(s)]); }
  }

  lemma TrimTwice(s: string)
    ensures TrimSpace(TrimSpace(s)) == TrimSpace(s)
  {
    TrimmedLeft(s);
    TrimmedRight(TrimLeft(s));
    assert TrimLeft(TrimSpace(s)) == TrimSpace(s);
  }

  lemma ItoaPlain(n: int)
    ensures var s := Itoa(n);
      |s| > 0 && forall i :: 0 <= i < |s| ==> IsPlain(s[i]) && s[i] != ']' && s[i] != '[' && s[i] != '.'
  {
  }
}
