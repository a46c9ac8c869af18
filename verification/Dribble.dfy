// Dribbled responses: splitBody and writeResponseBody (internal/server/runtime.go)
// and ChunkedInterval (internal/delay/delay.go), in 64-bit arithmetic.
module Dribble {
  import opened Wrappers

  type Bytes = seq<bv8>

  const TWO63: int := 0x8000_0000_0000_0000
  const TWO64: int := 0x1_0000_0000_0000_0000

  // The 64-bit two's complement value of an integer.
  function Wrap(n: int): (r: int)
    ensures -TWO63 <= r < TWO63
    ensures -TWO63 <= n < TWO63 ==> r == n
  {
    (n + TWO63) % TWO64 - TWO63
  }

  // Go's division, which truncates toward zero.
  function Quotient(a: int, b: int): (q: int)
    requires b > 0
  {
    if a >= 0 then a / b else -((-a) / b)
  }

  function Concat(parts: seq<Bytes>): (b: Bytes) {
    if |parts| == 0 then [] else Concat(parts[..|parts| - 1]) + parts[|parts| - 1]
  }

  // ---------- splitBody ----------

  // index * len(body) / chunks
  function Cut(len: nat, chunks: int, index: nat): (at: int)
    requires chunks > 0
  {
    Quotient(Wrap(index * len), chunks)
  }

  function SingleBytes(body: Bytes): (parts: seq<Bytes>) {
    seq(|body|, i requires 0 <= i < |body| => [body[i]])
  }

  // The first n parts; None where slicing would be out of range.
  function PartsUpTo(body: Bytes, chunks: int, n: nat): (r: Option<seq<Bytes>>)
    requires chunks > 0
  {
    if n == 0 then Some([])
    else
      var start, end := Cut(|body|, chunks, n - 1), Cut(|body|, chunks, n);
      match PartsUpTo(body, chunks, n - 1)
      case None => None
      case Some(parts) => if 0 <= start <= end <= |body| then Some(parts + [body[start..end]]) else None
  }

  function SplitBody(body: Bytes, chunks: int): (r: Option<seq<Bytes>>) {
    if chunks <= 1 || chunks >= |body| then Some(SingleBytes(body)) else PartsUpTo(body, chunks, chunks)
  }

  lemma {:induction false} SinglesConcat(body: Bytes)
    ensures Concat(SingleBytes(body)) == body
  {
    if |body| != 0 {
      var n := |body| - 1;
      SinglesConcat(body[..n]);
      assert SingleBytes(body)[..n] == SingleBytes(body[..n]);
    }
  }

  // ---------- Arithmetic of the cut points ----------

  lemma MulMonotone(a: nat, b: nat, c: nat)
    requires a <= b
    ensures a * c <= b * c
  {
    assert b * c == a * c + (b - a) * c;
    MulNonNegative(b - a, c);
  }

  lemma MulNonNegative(a: nat, b: nat)
    ensures a * b >= 0
  {
  }

  lemma DivBounds(a: nat, b: nat)
    requires b > 0
    ensures (a / b) * b <= a < (a / b) * b + b
  {
  }

  lemma FactorBelowOne(x: int, b: nat)
    requires b > 0 && x * b < b
    ensures x < 1
  {
    if x >= 1 { MulMonotone(1, x, b); }
  }

  lemma FactorNegative(x: int, b: nat)
    requires x * b < 0
    ensures x < 0
  {
    if x >= 0 { MulNonNegative(x, b); }
  }

  lemma DivUnique(a: nat, b: nat, q: int)
    requires b > 0 && q * b <= a < q * b + b
    ensures a / b == q
  {
    DivBounds(a, b);
    var d := a / b;
    assert (d - q) * b == d * b - q * b && (q - d) * b == q * b - d * b;
    FactorBelowOne(d - q, b);
    FactorBelowOne(q - d, b);
  }

  lemma DivMonotone(a: nat, b: nat, c: nat)
    requires a <= b && c > 0
    ensures a / c <= b / c
  {
    DivBounds(a, c);
    DivBounds(b, c);
    var x, y := a / c, b / c;
    assert (x - y) * c == x * c - y * c;
    FactorBelowOne(x - y, c);
  }

  // Where the n-th of `chunks` equal parts of a line of length len starts, rounded down.
  function ExactCut(len: nat, chunks: nat, n: nat): (at: nat)
    requires chunks > 0
  {
    MulNonNegative(n, len);
    n * len / chunks
  }

  // Where nothing wraps, the cuts are the exact ones, inside the line.
  lemma CutExact(len: nat, chunks: nat, n: nat)
    requires 0 < chunks && n <= chunks && len * chunks < TWO63
    ensures Cut(len, chunks, n) == ExactCut(len, chunks, n) <= len
  {
    MulNonNegative(n, len);
    MulMonotone(n, chunks, len);
    assert chunks * len == len * chunks;
    LastCut(len, chunks);
    DivMonotone(n * len, chunks * len, chunks);
  }

  lemma FirstCut(len: nat, chunks: nat)
    requires chunks > 0
    ensures ExactCut(len, chunks, 0) == 0
  {
    assert 0 * len == 0;
  }

  lemma LastCut(len: nat, chunks: nat)
    requires chunks > 0
    ensures ExactCut(len, chunks, chunks) == len
  {
    assert len * chunks == chunks * len;
    DivUnique(chunks * len, chunks, len);
  }

  // Consecutive cut points are floor(len/chunks) or one more apart.
  lemma CutStep(len: nat, chunks: nat, n: nat)
    requires 0 < chunks
    ensures len / chunks <= ExactCut(len, chunks, n + 1) - ExactCut(len, chunks, n) <= len / chunks + 1
  {
    MulNonNegative(n, len);
    var a, q := n * len, len / chunks;
    var s := a / chunks;
    assert (n + 1) * len == a + len;
    DivBounds(a, chunks);
    DivBounds(len, chunks);
    var b := a + len;
    assert (s + q) * chunks == s * chunks + q * chunks;
    assert (s + q + 1) * chunks == s * chunks + q * chunks + chunks;
    if b < (s + q) * chunks + chunks {
      DivUnique(b, chunks, s + q);
    } else {
      DivUnique(b, chunks, s + q + 1);
    }
  }

  // ---------- What splitting gives ----------

  lemma {:induction false} PartsCover(body: Bytes, chunks: nat, n: nat)
    requires 2 <= chunks < |body| && n <= chunks && |body| * chunks < TWO63
    ensures ExactCut(|body|, chunks, n) <= |body|
    ensures PartsUpTo(body, chunks, n).Some?
    ensures var parts := PartsUpTo(body, chunks, n).value;
      && |parts| == n
      && Concat(parts) == body[..ExactCut(|body|, chunks, n)]
      && forall i :: 0 <= i < n ==> |body| / chunks <= |parts[i]| <= |body| / chunks + 1
  {
    hide *;
    CutExact(|body|, chunks, n);
    var q := |body| / chunks;
    if n == 0 {
      NoParts(body, chunks);
    } else {
      PartsCover(body, chunks, n - 1);
      CutExact(|body|, chunks, n - 1);
      CutStep(|body|, chunks, n - 1);
      PartsGrow(body, chunks, n, q);
    }
  }

  lemma NoParts(body: Bytes, chunks: nat)
    requires chunks > 0
    ensures PartsUpTo(body, chunks, 0) == Some([]) && ExactCut(|body|, chunks, 0) == 0 && Concat([]) == body[..0]
  {
    FirstCut(|body|, chunks);
  }

  lemma PartsGrow(body: Bytes, chunks: nat, n: nat, q: int)
    requires chunks > 0 && n > 0 && q >= 0
    requires var start, end := Cut(|body|, chunks, n - 1), Cut(|body|, chunks, n);
      0 <= start <= |body| && q <= end - start <= q + 1 && end <= |body|
    requires PartsUpTo(body, chunks, n - 1).Some?
    requires var before := PartsUpTo(body, chunks, n - 1).value;
      && |before| == n - 1
      && Concat(before) == body[..Cut(|body|, chunks, n - 1)]
      && forall i :: 0 <= i < n - 1 ==> q <= |before[i]| <= q + 1
    ensures PartsUpTo(body, chunks, n).Some?
    ensures var parts := PartsUpTo(body, chunks, n).value;
      && |parts| == n
      && Concat(parts) == body[..Cut(|body|, chunks, n)]
      && forall i :: 0 <= i < n ==> q <= |parts[i]| <= q + 1
  {
    hide Cut;
    var before := PartsUpTo(body, chunks, n - 1).value;
    var start, end := Cut(|body|, chunks, n - 1), Cut(|body|, chunks, n);
    var parts := before + [body[start..end]];
    assert PartsUpTo(body, chunks, n) == Some(parts);
    assert parts[..n - 1] == before;
    assert body[..start] + body[start..end] == body[..end];
  }

  // Splitting into 2 <= chunks < len parts: that many non-empty parts, in order,
  // whose sizes differ by one at most.
  lemma SplitEvenly(body: Bytes, chunks: nat)
    requires 2 <= chunks < |body| && |body| * chunks < TWO63
    ensures SplitBody(body, chunks).Some?
    ensures var parts := SplitBody(body, chunks).value;
      && |parts| == chunks
      && Concat(parts) == body
      && (forall i :: 0 <= i < chunks ==> |parts[i]| > 0)
      && (forall i, j :: 0 <= i < chunks && 0 <= j < chunks ==> |parts[i]| <= |parts[j]| + 1)
  {
    PartsCover(body, chunks, chunks);
    LastCut(|body|, chunks);
    assert body[..|body|] == body;
    DivBounds(|body|, chunks);
    DivMonotone(chunks, |body|, chunks);
    DivUnique(chunks, chunks, 1);
  }

  lemma {:induction false} PartsLength(body: Bytes, chunks: nat, n: nat)
    requires 0 < chunks && PartsUpTo(body, chunks, n).Some?
    ensures |Concat(PartsUpTo(body, chunks, n).value)| == Cut(|body|, chunks, n)
    ensures |PartsUpTo(body, chunks, n).value| == n
  {
    if n == 0 {
      assert 0 * |body| == 0;
    } else {
      PartsLength(body, chunks, n - 1);
      var before := PartsUpTo(body, chunks, n - 1).value;
      assert PartsUpTo(body, chunks, n).value[..n - 1] == before;
    }
  }

  // A wrapped product is too small to cut at the end of the body.
  lemma WrappedCut(len: nat, chunks: nat)
    requires 2 <= chunks < len < TWO63 && len * chunks >= TWO63
    ensures Cut(len, chunks, chunks) != len
  {
    var product := chunks * len;
    assert product == len * chunks;
    var w := Wrap(product);
    assert w < product;
    if w >= 0 {
      DivBounds(w, chunks);
      var d := w / chunks;
      assert (d - len) * chunks == d * chunks - product;
      FactorNegative(d - len, chunks);
    } else {
      DivBounds(-w, chunks);
      var d := -w / chunks;
      FactorBelowOne(-d, chunks);
    }
  }

  predicate Fits(len: nat, chunks: int) { chunks <= 1 || chunks >= len || len * chunks < TWO63 }

  predicate SplitCorrect(body: Bytes, chunks: int) {
    SplitBody(body, chunks).Some? && Concat(SplitBody(body, chunks).value) == body
  }

  // For every body and number of chunks, the parts put together are the body
  // exactly when the products of the cut points fit in 64 bits.
  lemma SplitCorrectIff(body: Bytes, chunks: int)
    requires |body| < TWO63
    ensures SplitCorrect(body, chunks) <==> Fits(|body|, chunks)
  {
    if chunks <= 1 || chunks >= |body| {
      SinglesConcat(body);
    } else if |body| * chunks < TWO63 {
      SplitEvenly(body, chunks);
    } else if SplitBody(body, chunks).Some? {
      PartsLength(body, chunks, chunks);
      WrappedCut(|body|, chunks);
    }
  }

  // Just under the square root of 2^63, and above any inline or stored body.
  const SAFE_SIZE := 3_037_000_500

  // The bodies that split rightly into any number of chunks are those of at most
  // SAFE_SIZE bytes.
  lemma SafeSizeIff(body: Bytes)
    requires |body| < TWO63
    ensures (forall chunks: int :: SplitCorrect(body, chunks)) <==> |body| <= SAFE_SIZE
  {
    hide SplitCorrect;
    if |body| <= SAFE_SIZE {
      forall chunks: int ensures SplitCorrect(body, chunks) {
        if 1 < chunks < |body| { SmallProduct(|body|, chunks); }
        SplitCorrectIff(body, chunks);
      }
    } else {
      LargeProduct(|body|);
      SplitCorrectIff(body, |body| - 1);
    }
  }

  lemma SmallProduct(len: nat, chunks: nat)
    requires chunks < len <= SAFE_SIZE
    ensures len * chunks < TWO63
  {
    MulMonotone(len, SAFE_SIZE, chunks);
    assert SAFE_SIZE * chunks <= SAFE_SIZE * (SAFE_SIZE - 1);
  }

  lemma LargeProduct(len: nat)
    requires len > SAFE_SIZE
    ensures len * (len - 1) >= TWO63
  {
    MulMonotone(SAFE_SIZE + 1, len, len - 1);
    assert (SAFE_SIZE + 1) * (len - 1) >= (SAFE_SIZE + 1) * SAFE_SIZE;
  }

  // A proxied body one byte larger, in one chunk less than it has bytes: the last
  // cut wraps to a negative number and slicing fails.
  lemma LargeBodyPanics(body: Bytes)
    requires |body| == SAFE_SIZE + 1
    ensures SplitBody(body, SAFE_SIZE) == None
  {
    var end := Cut(|body|, SAFE_SIZE, SAFE_SIZE);
    assert SAFE_SIZE * |body| == 9_223_372_040_037_250_500;
    assert Wrap(SAFE_SIZE * |body|) < -SAFE_SIZE;
    DivMonotone(SAFE_SIZE, -Wrap(SAFE_SIZE * |body|), SAFE_SIZE);
    assert end < 0;
    hide Cut;
    assert PartsUpTo(body, SAFE_SIZE, SAFE_SIZE) == None;
  }

  lemma {:induction false} NoneStays(body: Bytes, chunks: int, n: nat, m: nat)
    requires chunks > 0 && PartsUpTo(body, chunks, n) == None && n <= m
    ensures PartsUpTo(body, chunks, m) == None
  {
    hide Cut;
    if n < m { NoneStays(body, chunks, n, m - 1); }
  }

  // None where the source panics.
  method SplitBodyLoop(body: Bytes, chunks: int) returns (result: Option<seq<Bytes>>)
    ensures result == SplitBody(body, chunks)
  {
    var parts: seq<Bytes> := [];
    if chunks <= 1 || chunks >= |body| {
      for index := 0 to |body|
        invariant parts == SingleBytes(body)[..index]
      {
        assert body[index..index + 1] == [body[index]];
        parts := parts + [body[index..index + 1]];
      }
      assert SingleBytes(body)[..|body|] == SingleBytes(body);
      return Some(parts);
    }
    hide Cut;
    for index := 0 to chunks
      invariant PartsUpTo(body, chunks, index) == Some(parts)
    {
      var start := Cut(|body|, chunks, index);
      var end := Cut(|body|, chunks, index + 1);
      if !(0 <= start <= end <= |body|) {
        NoneStays(body, chunks, index + 1, chunks);
        return None;
      }
      parts := parts + [body[start..end]];
    }
    return Some(parts);
  }

  // ---------- ChunkedInterval ----------

  const NANOS_PER_MILLISECOND := 1_000_000

  function Milliseconds(value: int): (d: int) { Wrap(value * NANOS_PER_MILLISECOND) }

  datatype DribbleDelay = DribbleDelay(numberOfChunks: int, totalDurationMilliseconds: int)

  function ChunkedInterval(delay: Option<DribbleDelay>): (r: (int, int)) {
    match delay
    case None => (0, 0)
    case Some(d) =>
      if d.numberOfChunks <= 1 then (d.numberOfChunks, 0)
      else (d.numberOfChunks, Quotient(Milliseconds(d.totalDurationMilliseconds), d.numberOfChunks - 1))
  }

  // ---------- writeResponseBody ----------

  // What the response writer and the sleeper see. Write and Sleep may fail.
  datatype Output = Write(bytes: Bytes) | Flush | Sleep(nanoseconds: int)

  function Written(out: seq<Output>): (b: Bytes) {
    if |out| == 0 then []
    else Written(out[..|out| - 1]) + if out[|out| - 1].Write? then out[|out| - 1].bytes else []
  }

  function Slept(out: seq<Output>): (n: int) {
    if |out| == 0 then 0
    else Slept(out[..|out| - 1]) + if out[|out| - 1].Sleep? then out[|out| - 1].nanoseconds else 0
  }

  function Sleeps(out: seq<Output>): (n: nat) {
    if |out| == 0 then 0 else Sleeps(out[..|out| - 1]) + if out[|out| - 1].Sleep? then 1 else 0
  }

  lemma OneMore(out: seq<Output>, o: Output)
    ensures Written(out + [o]) == Written(out) + if o.Write? then o.bytes else []
    ensures Slept(out + [o]) == Slept(out) + if o.Sleep? then o.nanoseconds else 0
    ensures Sleeps(out + [o]) == Sleeps(out) + if o.Sleep? then 1 else 0
  {
    assert (out + [o])[..|out|] == out;
  }

  function Min(a: int, b: int): (m: int) { if a < b then a else b }

  // The pauses after the first n parts: none after an empty part or the last part.
  function Pauses(parts: seq<Bytes>, n: nat): (k: nat)
    requires n <= |parts|
  {
    if n == 0 then 0
    else Pauses(parts, n - 1) + if |parts[n - 1]| > 0 && n < |parts| then 1 else 0
  }

  lemma {:induction false} PausesBetween(parts: seq<Bytes>, n: nat)
    requires n <= |parts| && forall i :: 0 <= i < |parts| ==> |parts[i]| > 0
    ensures Pauses(parts, n) == if n == |parts| > 0 then n - 1 else n
  {
    if n > 0 { PausesBetween(parts, n - 1); }
  }

  // The output after the first n parts of a dribbled response.
  ghost predicate Dribbled(out: seq<Output>, parts: seq<Bytes>, n: nat, interval: int)
    requires n <= |parts|
  {
    && Written(out) == Concat(parts[..n])
    && Sleeps(out) == Pauses(parts, n)
    && Slept(out) == Sleeps(out) * interval
  }

  lemma DribbledAll(out: seq<Output>, parts: seq<Bytes>, interval: int)
    requires Dribbled(out, parts, |parts|, interval)
    ensures Written(out) == Concat(parts)
    ensures Sleeps(out) == Pauses(parts, |parts|) && Slept(out) == Sleeps(out) * interval
  {
    assert parts[..|parts|] == parts;
  }

  lemma PartAdded(parts: seq<Bytes>, index: nat)
    requires index < |parts|
    ensures Concat(parts[..index + 1]) == Concat(parts[..index]) + parts[index]
    ensures Concat(parts[..index]) <= Concat(parts) && Concat(parts[..index + 1]) <= Concat(parts)
  {
    ConcatPrefix(parts, index);
    ConcatPrefix(parts, index + 1);
    assert parts[..index + 1][..index] == parts[..index];
  }

  // One turn of the loop: skip an empty part; otherwise write it, flush, and pause
  // unless it was the last part.
  method WritePart(parts: seq<Bytes>, index: nat, interval: int, succeeds: nat -> bool, sofar: seq<Output>)
    returns (out: seq<Output>, ok: bool)
    requires index < |parts| && Dribbled(sofar, parts, index, interval)
    ensures Written(out) <= Concat(parts)
    ensures ok ==> Dribbled(out, parts, index + 1, interval)
    ensures ok <==> parts[index] == [] || (succeeds(|sofar|) && (index < |parts| - 1 ==> succeeds(|sofar| + 2)))
  {
    hide Concat, Written, Slept, Sleeps;
    PartAdded(parts, index);
    var chunk := parts[index];
    if |chunk| == 0 {
      assert Written(sofar) + [] == Written(sofar);
      return sofar, true;
    }
    if !succeeds(|sofar|) {
      return sofar, false;
    }
    out := sofar + [Write(chunk)];
    OneMore(sofar, Write(chunk));
    ghost var wrote := out;
    out := out + [Flush];
    OneMore(wrote, Flush);
    if index < |parts| - 1 {
      if !succeeds(|out|) {
        return out, false;
      }
      ghost var flushed := out;
      out := out + [Sleep(interval)];
      OneMore(flushed, Sleep(interval));
      assert (Sleeps(flushed) + 1) * interval == Sleeps(flushed) * interval + interval;
    }
    ok := true;
  }

  // The loop over the parts.
  method DribbleParts(parts: seq<Bytes>, interval: int, succeeds: nat -> bool) returns (out: seq<Output>, ok: bool)
    ensures Written(out) <= Concat(parts)
    ensures ok ==> Written(out) == Concat(parts)
    ensures ok ==> Sleeps(out) == Pauses(parts, |parts|) && Slept(out) == Sleeps(out) * interval
    ensures (forall n :: succeeds(n)) ==> ok
  {
    out, ok := [], true;
    assert Dribbled([], parts, 0, interval);
    hide Concat, Written, Slept, Sleeps, Dribbled, Pauses;
    for index := 0 to |parts|
      invariant Dribbled(out, parts, index, interval)
    {
      out, ok := WritePart(parts, index, interval, succeeds, out);
      if !ok {
        return;
      }
    }
    ok := true;
    DribbledAll(out, parts, interval);
  }

  datatype Outcome = Complete | Failed | Panicked

  // What is sent when nothing fails; None where splitting panics.
  function Sent(body: Bytes, chunks: int): (sent: Option<Bytes>) {
    if chunks <= 1 || |body| <= 1 then Some(body)
    else match SplitBody(body, chunks)
      case Some(parts) => Some(Concat(parts))
      case None => None
  }

  // succeeds(n) says whether the n-th output operation works; the writer can flush.
  // On success everything has been sent, on failure a prefix. Where the products of
  // the cut points fit in 64 bits that is the body, with one pause between any two
  // writes.
  method WriteResponseBody(body: Bytes, delay: Option<DribbleDelay>, succeeds: nat -> bool)
    returns (out: seq<Output>, outcome: Outcome)
    requires |body| < TWO63
    ensures outcome.Panicked? <==> Sent(body, ChunkedInterval(delay).0).None?
    ensures outcome.Complete? ==> Some(Written(out)) == Sent(body, ChunkedInterval(delay).0)
    ensures outcome.Failed? ==> Written(out) <= Sent(body, ChunkedInterval(delay).0).value
    ensures (forall n :: succeeds(n)) ==> !outcome.Failed?
    ensures Fits(|body|, ChunkedInterval(delay).0) ==>
      && Sent(body, ChunkedInterval(delay).0) == Some(body)
      && (outcome.Complete? ==> var (chunks, interval) := ChunkedInterval(delay);
            && Sleeps(out) == (if chunks <= 1 || |body| <= 1 then 0 else Min(chunks, |body|) - 1)
            && Slept(out) == Sleeps(out) * interval)
  {
    out := [];
    var (chunks, interval) := ChunkedInterval(delay);
    if |body| == 0 {
      return [], Complete;
    }
    if chunks <= 1 || |body| == 1 {
      if !succeeds(0) {
        return [], Failed;
      }
      OneMore([], Write(body));
      assert [] + [Write(body)] == [Write(body)] && [] + body == body;
      return [Write(body)], Complete;
    }
    hide SplitBody, ChunkedInterval, Concat, Written, Slept, Sleeps, Pauses, Fits;
    var split := SplitBodyLoop(body, chunks);
    if Fits(|body|, chunks) { SplitPauses(body, chunks); }
    if split.None? {
      return [], Panicked;
    }
    var ok;
    out, ok := DribbleParts(split.value, interval, succeeds);
    outcome := if ok then Complete else Failed;
  }

  lemma SplitPauses(body: Bytes, chunks: nat)
    requires 1 < chunks && 1 < |body| < TWO63 && Fits(|body|, chunks)
    ensures SplitBody(body, chunks).Some? && Concat(SplitBody(body, chunks).value) == body
    ensures var parts := SplitBody(body, chunks).value; Pauses(parts, |parts|) == Min(chunks, |body|) - 1
  {
    SplitCorrectIff(body, chunks);
    var parts := SplitBody(body, chunks).value;
    SplitShape(body, chunks, parts);
    PausesBetween(parts, |parts|);
  }

  lemma SplitShape(body: Bytes, chunks: nat, parts: seq<Bytes>)
    requires 1 < chunks && 1 < |body| < TWO63 && (chunks >= |body| || |body| * chunks < TWO63)
    requires SplitBody(body, chunks) == Some(parts)
    ensures |parts| == Min(chunks, |body|) && Concat(parts) == body
    ensures forall i :: 0 <= i < |parts| ==> |parts[i]| > 0
  {
    if chunks >= |body| {
      SinglesConcat(body);
    } else {
      SplitEvenly(body, chunks);
    }
  }

  lemma {:induction false} ConcatPrefix(parts: seq<Bytes>, n: nat)
    requires n <= |parts|
    ensures Concat(parts[..n]) <= Concat(parts)
    decreases |parts| - n
  {
    if n == |parts| {
      assert parts[..n] == parts;
    } else {
      ConcatPrefix(parts, n + 1);
      assert parts[..n + 1][..n] == parts[..n];
    }
  }

  lemma WrapBelow(n: nat)
    ensures Wrap(n) == n || Wrap(n) <= n - TWO64
    ensures Wrap(n) == n <==> n < TWO63
  {
    var turns := (n + TWO63) / TWO64;
    assert Wrap(n) == n - turns * TWO64;
  }

  // Pausing `taken` times for w / pauses, where w is the total or falls far below it.
  lemma PausesTake(total: nat, w: int, pauses: nat, taken: nat)
    requires 1 <= taken <= pauses < TWO63 && (w == total || w <= total - TWO64)
    ensures taken * Quotient(w, pauses) <= total
    ensures taken == pauses ==> (total - taken * Quotient(w, pauses) < pauses <==> w == total)
  {
    var interval := Quotient(w, pauses);
    if w >= 0 {
      DivBounds(w, pauses);
      MulMonotone(taken, pauses, interval);
      assert pauses * interval == interval * pauses;
    } else {
      DivBounds(-w, pauses);
      MulNonNegative(taken, -interval);
      assert taken * -interval == -(taken * interval);
      assert pauses * -interval == -interval * pauses;
    }
  }

  // The pauses of a complete response never take longer than the configured total.
  // With no more chunks than bytes they fall short of it by less than a nanosecond
  // for each pause exactly when the total, in nanoseconds, fits in 64 bits.
  lemma PausesMeetTotal(delay: DribbleDelay, len: nat)
    requires 1 < delay.numberOfChunks < TWO63 && len > 1 && 0 <= delay.totalDurationMilliseconds
    ensures var (chunks, interval) := ChunkedInterval(Some(delay));
      var total := delay.totalDurationMilliseconds * NANOS_PER_MILLISECOND;
      var slept := (Min(chunks, len) - 1) * interval;
      && slept <= total
      && (chunks <= len ==> (total - slept < chunks - 1 <==> total < TWO63))
  {
    var total := delay.totalDurationMilliseconds * NANOS_PER_MILLISECOND;
    var pauses, taken := delay.numberOfChunks - 1, Min(delay.numberOfChunks, len) - 1;
    WrapBelow(total);
    PausesTake(total, Wrap(total), pauses, taken);
    hide Quotient, Wrap;
  }
}
