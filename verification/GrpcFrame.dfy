// encodeGRPCFrame and decodeUnaryGRPCFrame (internal/server/grpc_runtime.go): the
// Length-Prefixed-Message of gRPC over HTTP/2, uncompressed and unary.
module GrpcFrame {
  import opened Wrappers

  type Byte = n: int | 0 <= n < 256

  type Bytes = seq<Byte>

  const HEADER_SIZE := 5
  const TWO32 := 0x1_0000_0000

  datatype FrameError = TooShort | Compressed | LengthExceedsBody | NotUnary

  // The four bytes of a 32-bit number, most significant first.
  function BigEndian(n: nat): (b: Bytes)
    requires n < TWO32
    ensures |b| == 4
  {
    [n / 0x100_0000, n / 0x1_0000 % 256, n / 0x100 % 256, n % 256]
  }

  function FromBigEndian(b: Bytes): (n: nat)
    requires |b| == 4
    ensures n < TWO32
  {
    var b0: int, b1: int, b2: int, b3: int := b[0], b[1], b[2], b[3];
    b0 * 0x100_0000 + b1 * 0x1_0000 + b2 * 0x100 + b3
  }

  lemma NumberOfBytes(n: nat)
    requires n < TWO32
    ensures FromBigEndian(BigEndian(n)) == n
  {
    assert n == n / 256 * 256 + n % 256;
    assert n / 0x100 == n / 0x100 / 256 * 256 + n / 0x100 % 256;
    assert n / 0x100 / 256 == n / 0x1_0000;
    assert n / 0x1_0000 == n / 0x1_0000 / 256 * 256 + n / 0x1_0000 % 256;
    assert n / 0x1_0000 / 256 == n / 0x100_0000;
  }

  lemma BytesOfNumber(b: Bytes)
    requires |b| == 4
    ensures BigEndian(FromBigEndian(b)) == b
  {
    var n := FromBigEndian(b);
    var b0: int, b1: int, b2: int := b[0], b[1], b[2];
    var high := b0 * 256 + b1;
    var middle := high * 256 + b2;
    assert n == middle * 256 + b[3];
    assert n / 256 == middle && n % 256 == b[3];
    assert middle / 256 == high && middle % 256 == b[2];
    assert n / 0x1_0000 == middle / 256;
    assert high / 256 == b[0] && high % 256 == b[1];
    assert n / 0x100_0000 == high / 256;
    var r := BigEndian(n);
    assert r[0] == b[0] && r[1] == b[1] && r[2] == b[2] && r[3] == b[3];
  }

  // The length is stored modulo 2^32.
  function EncodeFrame(payload: Bytes): (frame: Bytes) {
    [0] + BigEndian(|payload| % TWO32) + payload
  }

  // The layout of a frame: a zero flag, the length of the payload in four bytes with the
  // most significant first, and the payload.
  lemma FrameLayout(payload: Bytes)
    requires |payload| < TWO32
    ensures var frame := EncodeFrame(payload);
      var b1: int, b2: int, b3: int, b4: int := frame[1], frame[2], frame[3], frame[4];
      && |frame| == 5 + |payload| && frame[0] == 0 && frame[5..] == payload
      && ((b1 * 256 + b2) * 256 + b3) * 256 + b4 == |payload|
  {
    hide BigEndian;
    var frame, size := EncodeFrame(payload), BigEndian(|payload|);
    NumberOfBytes(|payload|);
    assert |payload| % TWO32 == |payload|;
    assert frame == [0] + size + payload && frame[5..] == payload;
    assert frame[1] == size[0] && frame[2] == size[1] && frame[3] == size[2] && frame[4] == size[3];
    assert FromBigEndian(size) == |payload|;
  }

  function DecodeFrame(body: Bytes): (r: Result<Bytes, FrameError>) {
    if |body| < HEADER_SIZE then Err(TooShort)
    else if body[0] != 0 then Err(Compressed)
    else
      var end := HEADER_SIZE + FromBigEndian(body[1..HEADER_SIZE]);
      if end > |body| then Err(LengthExceedsBody)
      else if end != |body| then Err(NotUnary)
      else Ok(body[HEADER_SIZE..end])
  }

  // A payload comes back exactly when its length fits in 32 bits; a longer one is
  // refused.
  lemma RoundTripIff(payload: Bytes)
    ensures DecodeFrame(EncodeFrame(payload)) == Ok(payload) <==> |payload| < TWO32
    ensures |payload| >= TWO32 ==> DecodeFrame(EncodeFrame(payload)) == Err(NotUnary)
  {
    var frame := EncodeFrame(payload);
    NumberOfBytes(|payload| % TWO32);
    assert frame[1..HEADER_SIZE] == BigEndian(|payload| % TWO32);
    assert frame[HEADER_SIZE..|frame|] == payload;
    assert |payload| >= TWO32 ==> |payload| % TWO32 < |payload|;
  }

  // Whatever is accepted is the encoding of what is returned.
  lemma AcceptedIsEncoded(body: Bytes)
    requires DecodeFrame(body).Ok?
    ensures body == EncodeFrame(DecodeFrame(body).value)
  {
    var header := body[1..HEADER_SIZE];
    BytesOfNumber(header);
    var payload := DecodeFrame(body).value;
    assert |payload| == FromBigEndian(header) && |payload| % TWO32 == |payload|;
    assert body == [body[0]] + header + body[HEADER_SIZE..];
  }

  // encodeGRPCFrame fills a fresh buffer in place.
  method EncodeGRPCFrame(payload: Bytes) returns (frame: array<Byte>)
    ensures fresh(frame) && frame[..] == EncodeFrame(payload)
  {
    hide BigEndian;
    frame := new Byte[HEADER_SIZE + |payload|](_ => 0);
    var size := BigEndian(|payload| % TWO32);
    for i := 0 to 4
      invariant frame[0] == 0
      invariant forall k :: 0 <= k < i ==> frame[1 + k] == size[k]
    {
      frame[1 + i] := size[i];
    }
    for i := 0 to |payload|
      invariant frame[0] == 0
      invariant forall k :: 0 <= k < 4 ==> frame[1 + k] == size[k]
      invariant forall k :: 0 <= k < i ==> frame[HEADER_SIZE + k] == payload[k]
    {
      frame[HEADER_SIZE + i] := payload[i];
    }
    var whole := [0] + size + payload;
    forall k | 0 <= k < |whole| ensures frame[..][k] == whole[k] {
      if 5 <= k { assert whole[k] == payload[k - 5]; }
    }
  }
}
