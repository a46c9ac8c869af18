// UTF-8 as Go reads it, and what encoding/json does to text that is not UTF-8:
// json.Marshal and json.Unmarshal replace every byte that starts no valid sequence
// by U+FFFD.
module Utf8 {
  import opened Sequences

  predicate InRange(c: char, low: char, high: char) { low <= c <= high }

  predicate IsContinuation(c: char) { InRange(c, '\U{0080}', '\U{00BF}') }

  predicate IsASCII(s: string) { forall i :: 0 <= i < |s| ==> s[i] < '\U{0080}' }

  // The length of the valid sequence s starts with, or zero (utf8.DecodeRuneInString).
  function RuneSize(s: string): (n: nat)
    ensures n <= |s|
  {
    if |s| == 0 then 0
    else if s[0] < '\U{0080}' then 1
    else if |s| >= 2 && InRange(s[0], '\U{00C2}', '\U{00DF}') && IsContinuation(s[1]) then 2
    else if |s| >= 3 && Opens3(s[0], s[1]) && IsContinuation(s[2]) then 3
    else if |s| >= 4 && Opens4(s[0], s[1]) && IsContinuation(s[2]) && IsContinuation(s[3]) then 4
    else 0
  }

  // The first two bytes of three: no overlong form, no surrogate.
  predicate Opens3(c: char, d: char) {
    || (c == '\U{00E0}' && InRange(d, '\U{00A0}', '\U{00BF}'))
    || (c == '\U{00ED}' && InRange(d, '\U{0080}', '\U{009F}'))
    || (InRange(c, '\U{00E1}', '\U{00EF}') && c != '\U{00ED}' && IsContinuation(d))
  }

  // The first two bytes of four: no overlong form, nothing above U+10FFFF.
  predicate Opens4(c: char, d: char) {
    || (c == '\U{00F0}' && InRange(d, '\U{0090}', '\U{00BF}'))
    || (c == '\U{00F4}' && InRange(d, '\U{0080}', '\U{008F}'))
    || (InRange(c, '\U{00F1}', '\U{00F3}') && IsContinuation(d))
  }

  // ---------- Code points ----------

  predicate IsScalar(r: nat) { r < 0xD800 || 0xE000 <= r < 0x11_0000 }

  // utf8.AppendRune for a valid code point.
  function EncodeRune(r: nat): (s: string)
    requires r < 0x11_0000
  {
    if r < 0x80 then [r as char]
    else if r < 0x800 then [(0xC0 + r / 64) as char, (0x80 + r % 64) as char]
    else if r < 0x1_0000 then
      [(0xE0 + r / 64 / 64) as char, (0x80 + r / 64 % 64) as char, (0x80 + r % 64) as char]
    else
      [(0xF0 + r / 64 / 64 / 64) as char, (0x80 + r / 64 / 64 % 64) as char, (0x80 + r / 64 % 64) as char,
        (0x80 + r % 64) as char]
  }

  function Bits(c: char, mark: nat): (n: nat) {
    if c as nat < mark then 0 else c as nat - mark
  }

  // The code point of the valid sequence s starts with.
  function RuneValue(s: string): (r: nat)
    requires RuneSize(s) > 0
  {
    match RuneSize(s)
    case 1 => s[0] as nat
    case 2 => Bits(s[0], 0xC0) * 64 + Bits(s[1], 0x80)
    case 3 => (Bits(s[0], 0xE0) * 64 + Bits(s[1], 0x80)) * 64 + Bits(s[2], 0x80)
    case _ => ((Bits(s[0], 0xF0) * 64 + Bits(s[1], 0x80)) * 64 + Bits(s[2], 0x80)) * 64 + Bits(s[3], 0x80)
  }

  lemma SixBits(high: nat, low: nat)
    requires low < 64
    ensures (high * 64 + low) / 64 == high && (high * 64 + low) % 64 == low
  {
  }

  // A valid sequence is the encoding of its code point, which is no surrogate.
  lemma EncodeRuneValue(s: string)
    requires RuneSize(s) > 0
    ensures IsScalar(RuneValue(s)) && EncodeRune(RuneValue(s)) == s[..RuneSize(s)]
  {
    match RuneSize(s)
    case 1 => assert s[..1] == [s[0]];
    case 2 => EncodeTwo(s);
    case 3 => EncodeThree(s);
    case _ => EncodeFour(s);
  }

  lemma EncodeTwo(s: string)
    requires RuneSize(s) == 2
    ensures IsScalar(RuneValue(s)) && EncodeRune(RuneValue(s)) == s[..2]
  {
    SixBits(Bits(s[0], 0xC0), Bits(s[1], 0x80));
  }

  lemma EncodeThree(s: string)
    requires RuneSize(s) == 3
    ensures IsScalar(RuneValue(s)) && EncodeRune(RuneValue(s)) == s[..3]
  {
    var high := Bits(s[0], 0xE0) * 64 + Bits(s[1], 0x80);
    SixBits(Bits(s[0], 0xE0), Bits(s[1], 0x80));
    SixBits(high, Bits(s[2], 0x80));
  }

  lemma EncodeFour(s: string)
    requires RuneSize(s) == 4
    ensures IsScalar(RuneValue(s)) && EncodeRune(RuneValue(s)) == s[..4]
  {
    var high := Bits(s[0], 0xF0) * 64 + Bits(s[1], 0x80);
    var middle := high * 64 + Bits(s[2], 0x80);
    SixBits(Bits(s[0], 0xF0), Bits(s[1], 0x80));
    SixBits(high, Bits(s[2], 0x80));
    SixBits(middle, Bits(s[3], 0x80));
  }

  // Conversely the encoding of a code point is a valid sequence for it, whatever follows.
  lemma DecodeEncodedRune(r: nat, rest: string)
    requires IsScalar(r)
    ensures RuneSize(EncodeRune(r) + rest) == |EncodeRune(r)| && RuneValue(EncodeRune(r) + rest) == r
  {
    var a := r / 64;
    var b := a / 64;
    assert r == a * 64 + r % 64 && a == b * 64 + a % 64 && b == b / 64 * 64 + b % 64;
    var e := EncodeRune(r);
    var s := e + rest;
    assert forall i :: 0 <= i < |e| ==> s[i] == e[i];
    if r >= 0x1_0000 {
      EncodedFour(r, s);
    } else if r >= 0x800 {
      EncodedThree(r, s);
    }
  }

  lemma EncodedThree(r: nat, s: string)
    requires IsScalar(r) && 0x800 <= r < 0x1_0000 && EncodeRune(r) <= s
    ensures RuneSize(s) == 3
  {
    assert Opens3(s[0], s[1]) && IsContinuation(s[2]);
  }

  lemma EncodedFour(r: nat, s: string)
    requires IsScalar(r) && 0x1_0000 <= r && EncodeRune(r) <= s
    ensures RuneSize(s) == 4
  {
    assert Opens4(s[0], s[1]) && IsContinuation(s[2]) && IsContinuation(s[3]);
  }

  // ---------- Valid strings ----------

  predicate ValidUTF8(s: string)
    decreases |s|
  {
    |s| == 0 || (RuneSize(s) > 0 && ValidUTF8(s[RuneSize(s)..]))
  }

  // U+FFFD in UTF-8.
  const REPLACEMENT := ['\U{00EF}', '\U{00BF}', '\U{00BD}']

  // A string after a trip through JSON text.
  function Repair(s: string): (r: string)
    decreases |s|
  {
    if |s| == 0 then ""
    else if RuneSize(s) == 0 then REPLACEMENT + Repair(s[1..])
    else s[..RuneSize(s)] + Repair(s[RuneSize(s)..])
  }

  lemma {:induction false} RepairLength(s: string)
    ensures |Repair(s)| >= |s|
    ensures |Repair(s)| == |s| ==> ValidUTF8(s)
    decreases |s|
  {
    hide RuneSize;
    if |s| != 0 { RepairLength(if RuneSize(s) == 0 then s[1..] else s[RuneSize(s)..]); }
  }

  lemma {:induction false} ValidUnchanged(s: string)
    requires ValidUTF8(s)
    ensures Repair(s) == s
    decreases |s|
  {
    hide RuneSize;
    if |s| != 0 {
      ValidUnchanged(s[RuneSize(s)..]);
      assert s == s[..RuneSize(s)] + s[RuneSize(s)..];
    }
  }

  // A string survives JSON text exactly when it is UTF-8.
  lemma RepairKeepsIff(s: string)
    ensures Repair(s) == s <==> ValidUTF8(s)
  {
    RepairLength(s);
    if ValidUTF8(s) { ValidUnchanged(s); }
  }

  lemma RuneSizeBefore(a: string, b: string)
    requires |a| > 0 && (|b| > 0 ==> b[0] < '\U{0080}')
    ensures RuneSize(a + b) == RuneSize(a)
  {
    var s := a + b;
    assert forall i :: 0 <= i < |a| ==> s[i] == a[i];
    assert |b| > 0 ==> s[|a|] == b[0];
  }

  // What follows an ASCII byte is repaired on its own.
  lemma {:induction false} RepairConcat(a: string, b: string)
    requires |b| > 0 ==> b[0] < '\U{0080}'
    ensures Repair(a + b) == Repair(a) + Repair(b)
    decreases |a|
  {
    hide RuneSize;
    if |a| == 0 {
      assert a + b == b;
    } else {
      RuneSizeBefore(a, b);
      var n := if RuneSize(a) == 0 then 1 else RuneSize(a);
      var head := if RuneSize(a) == 0 then REPLACEMENT else a[..n];
      assert (a + b)[n..] == a[n..] + b && (a + b)[..n] == a[..n];
      RepairConcat(a[n..], b);
      Regroup(head, Repair(a[n..]), Repair(b));
    }
  }

  lemma {:induction false} ASCIIValid(s: string)
    requires IsASCII(s)
    ensures ValidUTF8(s)
  {
    if |s| != 0 { ASCIIValid(s[1..]); }
  }

  lemma BadFirst(s: string)
    requires |s| > 0 && RuneSize(s) == 0
    ensures |Repair(s)| > 0 && Repair(s)[0] == REPLACEMENT[0]
  {
  }

  // Only an ASCII string comes out as ASCII.
  lemma {:induction false} ASCIIResult(s: string)
    requires IsASCII(Repair(s))
    ensures ValidUTF8(s)
    decreases |s|
  {
    if |s| != 0 {
      var n := RuneSize(s);
      if n == 0 {
        BadFirst(s);
        assert false;
      } else {
        assert forall i :: 0 <= i < |Repair(s[n..])| ==> Repair(s[n..])[i] == Repair(s)[n + i];
        ASCIIResult(s[n..]);
      }
    }
  }

  // A repaired string is UTF-8, so a second trip changes nothing.
  lemma {:induction false} RepairedIsValid(s: string)
    ensures ValidUTF8(Repair(s))
    decreases |s|
  {
    if |s| != 0 {
      var n := RuneSize(s);
      var head, rest := if n == 0 then REPLACEMENT else s[..n], Repair(if n == 0 then s[1..] else s[n..]);
      RepairedIsValid(if n == 0 then s[1..] else s[n..]);
      assert forall i :: 0 <= i < |head| ==> (head + rest)[i] == head[i];
      assert RuneSize(head + rest) == |head|;
      assert (head + rest)[|head|..] == rest;
    }
  }

  // The size of a character does not depend on what follows it.
  lemma RuneSizeAgain(s: string, rest: string)
    requires RuneSize(s) > 0
    ensures RuneSize(s[..RuneSize(s)] + rest) == RuneSize(s)
  {
    var again := s[..RuneSize(s)] + rest;
    assert forall i :: 0 <= i < RuneSize(s) ==> again[i] == s[i];
  }

  // Valid text stays, and a byte that starts no character becomes U+FFFD.
  lemma RepairStray(valid: string, c: char, rest: string)
    requires ValidUTF8(valid) && RuneSize([c] + rest) == 0
    ensures Repair(valid + ([c] + rest)) == valid + (EncodeRune(0xFFFD) + Repair(rest))
  {
    hide RuneSize, EncodeRune, ValidUTF8;
    RepairAfterValid(valid, [c] + rest);
    assert ([c] + rest)[1..] == rest;
    ReplacementIs();
  }

  lemma {:induction false} RepairAfterValid(valid: string, rest: string)
    requires ValidUTF8(valid)
    ensures Repair(valid + rest) == valid + Repair(rest)
    decreases |valid|
  {
    hide RuneSize, Repair;
    if |valid| == 0 {
      assert valid + rest == rest && valid + Repair(rest) == Repair(rest);
    } else {
      var n := RuneSize(valid);
      var first, more := valid[..n], valid[n..];
      RepairAfterValid(more, rest);
      RuneSizeAgain(valid, more + rest);
      assert valid == first + more;
      assert valid + rest == first + (more + rest);
      RepairFirst(first, more + rest);
      Regroup(first, more, Repair(rest));
    }
  }

  lemma RepairFirst(first: string, rest: string)
    requires RuneSize(first + rest) == |first| > 0
    ensures Repair(first + rest) == first + Repair(rest)
  {
    hide RuneSize;
    assert (first + rest)[..|first|] == first && (first + rest)[|first|..] == rest;
  }

  lemma ReplacementIs()
    ensures EncodeRune(0xFFFD) == REPLACEMENT
  {
  }
}
