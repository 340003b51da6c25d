/** 32-bit serial arithmetic (section 3.2 of RFC 1982) and the byte layout of a stream frame. */
module StreamWire {
  import opened Basics

  const TWO31: int := 0x8000_0000

  function Wrap(n: int): uint32 { n % TWO32 }

  function Add32(a: uint32, b: int): uint32 { (a + b) % TWO32 }

  function Sub32(a: uint32, b: uint32): uint32 { (a - b) % TWO32 }

  /** The bits of d read as a signed number. */
  function Int32(d: uint32): int {
    if d < TWO31 then d else d - TWO32
  }

  predicate SeqLT(a: uint32, b: uint32) { Int32(Sub32(a, b)) < 0 }

  predicate SeqLE(a: uint32, b: uint32) { Int32(Sub32(a, b)) <= 0 }

  lemma SubWrap(a: int, b: int)
    ensures Sub32(Wrap(a), Wrap(b)) == Wrap(a - b)
  {
  }

  lemma AddWrap(a: int, n: int)
    ensures Add32(Wrap(a), n) == Wrap(a + n)
  {
  }

  /** Within less than 2^32 of each other, equal images mean equal numbers. */
  lemma WrapInjective(a: int, b: int)
    requires -TWO32 < a - b < TWO32 && Wrap(a) == Wrap(b)
    ensures a == b
  {
  }

  /**
   * When serial comparison tells the truth. For two true offsets less than 2^32 apart, the
   * 32-bit comparison agrees with the order of the offsets exactly when they lie within 2^31
   * of each other; every other pair is ordered wrongly.
   */
  lemma SerialOrderExact(a: int, b: int)
    requires -TWO32 < a - b < TWO32
    ensures (SeqLE(Wrap(a), Wrap(b)) <==> a <= b) <==> -TWO31 <= a - b < TWO31
    ensures (SeqLT(Wrap(a), Wrap(b)) <==> a < b) <==> -TWO31 <= a - b < TWO31
  {
    SubWrap(a, b);
  }

  // ---- bytes ----

  const HEADER_LEN: nat := 13

  function PutUint16(n: uint16): (b: seq<byte>)
    ensures |b| == 2
  {
    [n / 0x100, n % 0x100]
  }

  function PutUint32(n: uint32): (b: seq<byte>)
    ensures |b| == 4
  {
    [n / 0x100_0000, n / 0x1_0000 % 0x100, n / 0x100 % 0x100, n % 0x100]
  }

  function Uint16(b: seq<byte>): uint16
    requires |b| == 2
  {
    var hi: int, lo: int := b[0], b[1];
    hi * 0x100 + lo
  }

  function Uint32(b: seq<byte>): uint32
    requires |b| == 4
  {
    var b0: int, b1: int, b2: int, b3: int := b[0], b[1], b[2], b[3];
    b0 * 0x100_0000 + b1 * 0x1_0000 + b2 * 0x100 + b3
  }

  lemma Uint16RoundTrip(n: uint16, b: seq<byte>)
    requires |b| == 2
    ensures Uint16(PutUint16(n)) == n
    ensures PutUint16(Uint16(b)) == b
  {
  }

  lemma Uint32RoundTrip(n: uint32, b: seq<byte>)
    requires |b| == 4
    ensures Uint32(PutUint32(n)) == n
    ensures PutUint32(Uint32(b)) == b
  {
    Digits(n);
    Quotients(b[0], b[1], b[2], b[3]);
  }

  /** A number is the sum of its bytes. */
  lemma Digits(n: uint32)
    ensures var x: int := n;
            x == x / 0x100_0000 * 0x100_0000 + x / 0x1_0000 % 0x100 * 0x1_0000 + x / 0x100 % 0x100 * 0x100 + x % 0x100
  {
    var q1: int, q2: int := n / 0x100, n / 0x1_0000;
    assert q2 == q1 / 0x100 && n / 0x100_0000 == q2 / 0x100;
  }

  /** The bytes of a sum are the ones it was made of. */
  lemma Quotients(b0: byte, b1: byte, b2: byte, b3: byte)
    ensures var x: int := b0 * 0x100_0000 + b1 * 0x1_0000 + b2 * 0x100 + b3;
            x / 0x100_0000 == b0 && x / 0x1_0000 % 0x100 == b1 && x / 0x100 % 0x100 == b2 && x % 0x100 == b3
  {
    var x: int := b0 * 0x100_0000 + b1 * 0x1_0000 + b2 * 0x100 + b3;
    assert x / 0x1_0000 == b0 * 0x100 + b1 && x / 0x100 == b0 * 0x1_0000 + b1 * 0x100 + b2;
  }

  datatype WireFrame = WireFrame(typ: byte, seqNo: uint32, ack: uint32, wnd: uint16, payload: seq<byte>)

  /** The length field keeps only the low 16 bits of the payload length. */
  function EncodeFrame(f: WireFrame): (b: seq<byte>)
    ensures |b| == HEADER_LEN + |f.payload|
  {
    [f.typ] + PutUint32(f.seqNo) + PutUint32(f.ack) + PutUint16(f.wnd)
    + PutUint16(|f.payload| % 0x1_0000) + f.payload
  }

  datatype FrameError = TooShort(len: nat) | LengthExceedsBuffer(declared: nat)

  function DecodeFrame(b: seq<byte>): Result<WireFrame, FrameError> {
    if |b| < HEADER_LEN then Err(TooShort(|b|))
    else
      var n := Uint16(b[11..13]);
      if n > |b| - HEADER_LEN then Err(LengthExceedsBuffer(n))
      else Ok(WireFrame(b[0], Uint32(b[1..5]), Uint32(b[5..9]), Uint16(b[9..11]), b[HEADER_LEN..HEADER_LEN + n]))
  }

  lemma EncodedFields(f: WireFrame)
    ensures var b := EncodeFrame(f);
            && b[0] == f.typ && b[1..5] == PutUint32(f.seqNo) && b[5..9] == PutUint32(f.ack)
            && b[9..11] == PutUint16(f.wnd) && b[11..13] == PutUint16(|f.payload| % 0x1_0000)
            && b[HEADER_LEN..] == f.payload
  {
  }

  /**
   * Decoding undoes encoding, also when more bytes follow, exactly for payloads that the
   * 16-bit length can express; a longer one comes back cut short.
   */
  lemma FrameRoundTrip(f: WireFrame, more: seq<byte>)
    ensures |f.payload| < 0x1_0000 ==> DecodeFrame(EncodeFrame(f) + more) == Ok(f)
    ensures DecodeFrame(EncodeFrame(f)) == Ok(f) <==> |f.payload| < 0x1_0000
    ensures DecodeFrame(EncodeFrame(f)) == Ok(f.(payload := f.payload[..|f.payload| % 0x1_0000]))
  {
    EncodedFields(f);
    Uint32RoundTrip(f.seqNo, [0, 0, 0, 0]);
    Uint32RoundTrip(f.ack, [0, 0, 0, 0]);
    var b := EncodeFrame(f);
    var n := |f.payload| % 0x1_0000;
    assert b[HEADER_LEN..HEADER_LEN + n] == f.payload[..n];
    var c := b + more;
    assert c[0] == b[0] && c[1..5] == b[1..5] && c[5..9] == b[5..9] && c[9..11] == b[9..11] && c[11..13] == b[11..13];
    assert c[HEADER_LEN..HEADER_LEN + n] == b[HEADER_LEN..HEADER_LEN + n];
  }

  /** Whatever is accepted is the encoding of what was read, with at most trailing bytes ignored. */
  lemma DecodeIsFaithful(b: seq<byte>)
    requires DecodeFrame(b).Ok?
    ensures EncodeFrame(DecodeFrame(b).value) <= b
  {
    var f := DecodeFrame(b).value;
    var payload := b[HEADER_LEN..HEADER_LEN + |f.payload|];
    HeaderFields(b);
    assert b[..HEADER_LEN + |f.payload|] == b[..HEADER_LEN] + payload;
    assert EncodeFrame(f) == b[..HEADER_LEN] + payload;
  }

  lemma HeaderFields(b: seq<byte>)
    requires |b| >= HEADER_LEN
    ensures b[..HEADER_LEN] == [b[0]] + PutUint32(Uint32(b[1..5])) + PutUint32(Uint32(b[5..9]))
                               + PutUint16(Uint16(b[9..11])) + PutUint16(Uint16(b[11..13]))
  {
    Uint32RoundTrip(0, b[1..5]);
    Uint32RoundTrip(0, b[5..9]);
    Uint16RoundTrip(0, b[9..11]);
    Uint16RoundTrip(0, b[11..13]);
    assert b[..HEADER_LEN] == [b[0]] + b[1..5] + b[5..9] + b[9..11] + b[11..13];
  }
}
