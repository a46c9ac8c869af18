// The standard base64 encoding (section 4 of RFC 4648) of byte strings.
module Base64 {
  import opened Wrappers

  predicate IsBytes(s: string) { forall i :: 0 <= i < |s| ==> s[i] < '\U{0100}' }

  function Digit(n: nat): (c: char)
    requires n < 64
    ensures DigitValue(c) == Some(n)
  {
    if n < 26 then 'A' + n as char
    else if n < 52 then 'a' + (n - 26) as char
    else if n < 62 then '0' + (n - 52) as char
    else if n == 62 then '+'
    else '/'
  }

  function DigitValue(c: char): (r: Option<nat>)
    ensures r.Some? ==> r.value < 64
  {
    if 'A' <= c <= 'Z' then Some((c - 'A') as nat)
    else if 'a' <= c <= 'z' then Some((c - 'a') as nat + 26)
    else if '0' <= c <= '9' then Some((c - '0') as nat + 52)
    else if c == '+' then Some(62)
    else if c == '/' then Some(63)
    else None
  }

  // The value of a byte.
  function Low(c: char): (n: nat)
    ensures n < 256
  {
    if c < '\U{0100}' then c as nat else 0
  }

  // The four groups of six bits of three bytes, and the bytes back.
  function First(x: nat): (n: nat) requires x < 256 ensures n < 64 { x / 4 }
  function Second(x: nat, y: nat): (n: nat) requires x < 256 && y < 256 ensures n < 64 { x % 4 * 16 + y / 16 }
  function Third(y: nat, z: nat): (n: nat) requires y < 256 && z < 256 ensures n < 64 { y % 16 * 4 + z / 64 }
  function Last(z: nat): (n: nat) requires z < 256 ensures n < 64 { z % 64 }

  function FirstByte(a: nat, b: nat): (x: nat) requires a < 64 && b < 64 ensures x < 256 { a * 4 + b / 16 }
  function SecondByte(b: nat, c: nat): (y: nat) requires b < 64 && c < 64 ensures y < 256 { b % 16 * 16 + c / 4 }
  function ThirdByte(c: nat, d: nat): (z: nat) requires c < 64 && d < 64 ensures z < 256 { c % 4 * 64 + d }

  lemma GroupsGiveBytes(x: nat, y: nat, z: nat)
    requires x < 256 && y < 256 && z < 256
    ensures FirstByte(First(x), Second(x, y)) == x
    ensures SecondByte(Second(x, y), Third(y, z)) == y
    ensures ThirdByte(Third(y, z), Last(z)) == z
  {
  }

  function Encode(b: string): (s: string) {
    if |b| == 0 then ""
    else
      var x := Low(b[0]);
      if |b| == 1 then [Digit(First(x)), Digit(Second(x, 0)), '=', '=']
      else
        var y := Low(b[1]);
        if |b| == 2 then [Digit(First(x)), Digit(Second(x, y)), Digit(Third(y, 0)), '=']
        else
          var z := Low(b[2]);
          [Digit(First(x)), Digit(Second(x, y)), Digit(Third(y, z)), Digit(Last(z))] + Encode(b[3..])
  }

  function Decode(s: string): (r: Option<string>) {
    if |s| == 0 then Some("")
    else if |s| < 4 then None
    else match (DigitValue(s[0]), DigitValue(s[1]), DigitValue(s[2]), DigitValue(s[3]))
      case (Some(a), Some(b), Some(c), Some(d)) =>
        (match Decode(s[4..])
         case Some(rest) => Some([FirstByte(a, b) as char, SecondByte(b, c) as char, ThirdByte(c, d) as char] + rest)
         case None => None)
      case (Some(a), Some(b), Some(c), None) =>
        if |s| == 4 && s[3] == '=' then Some([FirstByte(a, b) as char, SecondByte(b, c) as char]) else None
      case (Some(a), Some(b), None, None) =>
        if |s| == 4 && s[2] == '=' && s[3] == '=' then Some([FirstByte(a, b) as char]) else None
      case _ => None
  }

  lemma DecodeDigits(n: nat, m: nat, k: nat, l: nat, rest: string)
    requires n < 64 && m < 64 && k < 64 && l < 64 && Decode(rest).Some?
    ensures Decode([Digit(n), Digit(m), Digit(k), Digit(l)] + rest)
         == Some([FirstByte(n, m) as char, SecondByte(m, k) as char, ThirdByte(k, l) as char] + Decode(rest).value)
  {
    hide Digit, DigitValue, FirstByte, SecondByte, ThirdByte;
    assert ([Digit(n), Digit(m), Digit(k), Digit(l)] + rest)[4..] == rest;
  }

  lemma DecodePadded(n: nat, m: nat, k: nat)
    requires n < 64 && m < 64 && k < 64
    ensures Decode([Digit(n), Digit(m), '=', '=']) == Some([FirstByte(n, m) as char])
    ensures Decode([Digit(n), Digit(m), Digit(k), '='])
         == Some([FirstByte(n, m) as char, SecondByte(m, k) as char])
  {
    hide Digit, DigitValue, FirstByte, SecondByte;
    NoDigit();
  }

  lemma NoDigit()
    ensures DigitValue('=') == None
  {
  }

  lemma {:induction false} DecodeEncode(b: string)
    requires IsBytes(b)
    ensures Decode(Encode(b)) == Some(b)
  {
    hide Digit, DigitValue, Decode, First, Second, Third, Last, FirstByte, SecondByte, ThirdByte;
    if |b| == 0 {
      DecodeNone();
    } else {
      var x, y, z := b[0] as nat, if |b| > 1 then b[1] as nat else 0, if |b| > 2 then b[2] as nat else 0;
      GroupsGiveBytes(x, y, z);
      if |b| >= 3 {
        DecodeEncode(b[3..]);
        DecodeDigits(First(x), Second(x, y), Third(y, z), Last(z), Encode(b[3..]));
        assert b == [b[0], b[1], b[2]] + b[3..];
      } else {
        DecodePadded(First(x), Second(x, y), Third(y, 0));
        assert b == if |b| == 1 then [b[0]] else [b[0], b[1]];
      }
    }
  }

  lemma DecodeNone()
    ensures Decode("") == Some("")
  {
  }

  lemma Group(b: string)
    requires IsBytes(b) && |b| == 3
    ensures var x, y, z := b[0] as nat, b[1] as nat, b[2] as nat;
      Encode(b) == [Digit(First(x)), Digit(Second(x, y)), Digit(Third(y, z)), Digit(Last(z))]
  {
    hide Digit, First, Second, Third, Last;
    assert b[3..] == "" && Encode("") == "";
  }

  // Test vectors of section 10 of RFC 4648, and one with the last two digits.
  lemma TestVectors()
    ensures Encode("foo") == "Zm9v" && Encode("fo") == "Zm8=" && Encode("f") == "Zg=="
    ensures Encode("\U{00FB}\U{00FF}\U{00BF}") == "+/+/"
  {
    hide Encode;
    FullVector();
    ShortVectors();
    LastDigits();
  }

  lemma FullVector()
    ensures Encode("foo") == "Zm9v"
  {
    hide Encode;
    Group("foo");
  }

  lemma ShortVectors()
    ensures Encode("fo") == "Zm8=" && Encode("f") == "Zg=="
  {
  }

  lemma LastDigits()
    ensures Encode("\U{00FB}\U{00FF}\U{00BF}") == "+/+/"
  {
    hide Encode;
    Group("\U{00FB}\U{00FF}\U{00BF}");
  }
}
