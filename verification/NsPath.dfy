/** A namespace path as bytes on the wire and as dotted decimal text. */
module NsPath {
  import opened Basics
  import opened StreamWire
  import Names
  import T = NsTable

  type Path = T.Path
  type NsError = T.NsError

  const NID_SIZE: nat := 4

  // ---- bytes ----

  function NidBytes(p: Path): (b: seq<byte>)
    ensures |b| == |p| * NID_SIZE
  {
    if p == [] then [] else PutUint32(p[0]) + NidBytes(p[1..])
  }

  function Encode(p: Path): Result<seq<byte>, NsError> {
    if |p| == 0 then Err(T.Empty)
    else if |p| > T.MAX_DEPTH then Err(T.TooDeep)
    else Ok([|p|] + NidBytes(p))
  }

  function Nids(b: seq<byte>): (p: Path)
    requires |b| % NID_SIZE == 0
    ensures |p| * NID_SIZE == |b|
  {
    if b == [] then [] else [Uint32(b[..4])] + Nids(b[4..])
  }

  /** Strict about the declared depth; bytes after the path are the caller's. */
  function Decode(b: seq<byte>): Result<Path, NsError> {
    if |b| < 1 then Err(T.Malformed)
    else if b[0] == 0 then Err(T.Empty)
    else if b[0] > T.MAX_DEPTH then Err(T.TooDeep)
    else if |b| < 1 + b[0] * NID_SIZE then Err(T.Malformed)
    else
      var n: nat := b[0] * NID_SIZE;
      assert n % NID_SIZE == 0;
      Ok(Nids(b[1..1 + n]))
  }

  lemma {:induction false} NidsOfBytes(p: Path)
    ensures Nids(NidBytes(p)) == p
  {
    if p != [] {
      Uint32RoundTrip(p[0], [0, 0, 0, 0]);
      NidsOfBytes(p[1..]);
      assert NidBytes(p)[..4] == PutUint32(p[0]) && NidBytes(p)[4..] == NidBytes(p[1..]);
    }
  }

  lemma {:induction false} BytesOfNids(b: seq<byte>)
    requires |b| % NID_SIZE == 0
    ensures NidBytes(Nids(b)) == b
  {
    if b != [] {
      Uint32RoundTrip(0, b[..4]);
      BytesOfNids(b[4..]);
      assert Nids(b)[1..] == Nids(b[4..]);
      assert b == b[..4] + b[4..];
    }
  }

  /** Every path that can be encoded is read back, also when a payload follows it. */
  lemma PathRoundTrip(p: Path, more: seq<byte>)
    ensures Encode(p).Ok? <==> 1 <= |p| <= T.MAX_DEPTH
    ensures Encode(p).Ok? ==> Decode(Encode(p).value + more) == Ok(p)
  {
    if Encode(p).Ok? {
      NidsOfBytes(p);
      var b := Encode(p).value + more;
      assert b[1..1 + |p| * NID_SIZE] == NidBytes(p);
    }
  }

  /** Whatever is read is the encoding the bytes began with: no two byte forms of one path. */
  lemma DecodedBytes(b: seq<byte>)
    requires Decode(b).Ok?
    ensures Encode(Decode(b).value).Ok? && Encode(Decode(b).value).value <= b
  {
    var n: nat := b[0] * NID_SIZE;
    assert n % NID_SIZE == 0;
    BytesOfNids(b[1..1 + n]);
    assert b[..1 + n] == [b[0]] + b[1..1 + n];
  }

  lemma {:induction false} NidBytesAppend(p: Path, q: Path)
    ensures NidBytes(p + q) == NidBytes(p) + NidBytes(q)
  {
    if p == [] {
      assert p + q == q;
    } else {
      assert (p + q)[1..] == p[1..] + q;
      NidBytesAppend(p[1..], q);
    }
  }

  method PutAt(b: array<byte>, at: nat, n: uint32)
    requires at + NID_SIZE <= b.Length
    modifies b
    ensures b[..at + NID_SIZE] == old(b[..at]) + PutUint32(n)
  {
    var w := PutUint32(n);
    b[at], b[at + 1], b[at + 2], b[at + 3] := w[0], w[1], w[2], w[3];
  }

  lemma NidBytesNext(p: Path, i: nat)
    requires i < |p|
    ensures NidBytes(p[..i + 1]) == NidBytes(p[..i]) + PutUint32(p[i])
  {
    NidBytesAppend(p[..i], [p[i]]);
    assert [p[i]][1..] == [] && p[..i + 1] == p[..i] + [p[i]];
    assert NidBytes([p[i]]) == PutUint32(p[i]) + NidBytes([]);
  }

  /** Puts one more identifier after those that are in the buffer. */
  method PutNext(b: array<byte>, p: Path, i: nat)
    requires i < |p| <= T.MAX_DEPTH && b.Length == 1 + |p| * NID_SIZE
    requires b[..1 + i * NID_SIZE] == [|p|] + NidBytes(p[..i])
    modifies b
    ensures b[..1 + (i + 1) * NID_SIZE] == [|p|] + (NidBytes(p[..i]) + PutUint32(p[i]))
  {
    PutAt(b, 1 + i * NID_SIZE, p[i]);
  }

  /** Fills a buffer of the exact size. */
  method EncodePath(p: Path) returns (r: Result<array<byte>, NsError>)
    ensures Encode(p).Ok? == r.Ok? && (r.Ok? ==> fresh(r.value) && Encode(p).value == r.value[..])
    ensures r.Err? ==> r.error == Encode(p).error
  {
    if |p| == 0 {
      return Err(T.Empty);
    }
    if |p| > T.MAX_DEPTH {
      return Err(T.TooDeep);
    }
    var b := new byte[1 + |p| * NID_SIZE];
    b[0] := |p|;
    for i := 0 to |p|
      invariant b[..1 + i * NID_SIZE] == [|p|] + NidBytes(p[..i])
    {
      NidBytesNext(p, i);
      PutNext(b, p, i);
    }
    assert p[..|p|] == p && b[..1 + |p| * NID_SIZE] == b[..];
    return Ok(b);
  }

  lemma {:induction false} NidsAppend(b: seq<byte>, w: seq<byte>)
    requires |b| % NID_SIZE == 0 && |w| == NID_SIZE
    ensures Nids(b + w) == Nids(b) + [Uint32(w)]
  {
    if b == [] {
      assert b + w == w && w[..4] == w && w[4..] == [];
    } else {
      assert (b + w)[..4] == b[..4] && (b + w)[4..] == b[4..] + w;
      NidsAppend(b[4..], w);
    }
  }

  method DecodePath(b: seq<byte>) returns (r: Result<Path, NsError>)
    ensures r == Decode(b)
  {
    if |b| < 1 {
      return Err(T.Malformed);
    }
    var n := b[0];
    if n == 0 {
      return Err(T.Empty);
    }
    if n > T.MAX_DEPTH {
      return Err(T.TooDeep);
    }
    if |b| < 1 + n * NID_SIZE {
      return Err(T.Malformed);
    }
    var p: Path := [];
    for i := 0 to n
      invariant i * NID_SIZE % NID_SIZE == 0 && p == Nids(b[1..1 + i * NID_SIZE])
    {
      var at := 1 + i * NID_SIZE;
      NidsAppend(b[1..at], b[at..at + 4]);
      assert b[1..at] + b[at..at + 4] == b[1..at + 4];
      p := p + [Uint32(b[at..at + 4])];
    }
    return Ok(p);
  }

  // ---- dotted decimal text ----

  function Digit(d: nat): char
    requires d < 10
  {
    '0' + d as char
  }

  function Decimal(n: nat): (s: string)
    ensures s != []
  {
    if n < 10 then [Digit(n)] else Decimal(n / 10) + [Digit(n % 10)]
  }

  predicate IsDigit(c: char) {
    '0' <= c <= '9'
  }

  function DigitValue(c: char): (d: nat)
    requires IsDigit(c)
    ensures d < 10
  {
    c as nat - '0' as nat
  }

  predicate AllDigits(s: string) {
    forall i :: 0 <= i < |s| ==> IsDigit(s[i])
  }

  function Number(s: string): nat
    requires AllDigits(s)
  {
    if s == [] then 0 else Number(s[..|s| - 1]) * 10 + DigitValue(s[|s| - 1])
  }

  lemma {:induction false} DecimalReads(n: nat)
    ensures AllDigits(Decimal(n)) && Number(Decimal(n)) == n
  {
    if n < 10 {
      assert [Digit(n)][..0] == [];
    } else {
      DecimalReads(n / 10);
      var s := Decimal(n / 10);
      assert (s + [Digit(n % 10)])[..|s|] == s;
    }
  }

  lemma DecimalInjective(a: nat, b: nat)
    ensures Decimal(a) == Decimal(b) <==> a == b
  {
    DecimalReads(a);
    DecimalReads(b);
  }

  /** One level: the canonical decimal of an identifier, neither zero nor above 32 bits. */
  function ParseNid(part: string): Option<uint32> {
    if part != [] && AllDigits(part) && Decimal(Number(part)) == part && 0 < Number(part) <= 0xFFFF_FFFF
    then Some(Number(part)) else None
  }

  lemma ParseNidExact(part: string, n: uint32)
    ensures ParseNid(part) == Some(n) <==> n != 0 && part == Decimal(n)
  {
    DecimalReads(n);
  }

  function Decimals(p: Path): (parts: seq<string>)
    ensures |parts| == |p|
    ensures forall i :: 0 <= i < |p| ==> parts[i] == Decimal(p[i])
  {
    seq(|p|, i requires 0 <= i < |p| => Decimal(p[i]))
  }

  function String(p: Path): string {
    Names.Join(Decimals(p))
  }

  function ParseAll(parts: seq<string>): Option<Path> {
    if parts == [] then Some([])
    else
      var n, rest := ParseNid(parts[0]), ParseAll(parts[1..]);
      if n.None? || rest.None? then None else Some([n.value] + rest.value)
  }

  function Parse(text: string): Result<Path, NsError> {
    var s := Names.TrimSpace(text);
    if s == "" then Err(T.Empty)
    else
      var parts := Names.Split(s);
      if |parts| > T.MAX_DEPTH then Err(T.TooDeep)
      else
        var p := ParseAll(parts);
        if p.None? then Err(T.Malformed) else Ok(p.value)
  }

  lemma {:induction false} ParseAllExact(parts: seq<string>, p: Path)
    ensures ParseAll(parts) == Some(p) <==> 0 !in p && parts == Decimals(p)
  {
    if parts != [] && p != [] {
      if ParseNid(parts[0]).Some? {
        ParseNidExact(parts[0], ParseNid(parts[0]).value);
      }
      ParseNidExact(parts[0], p[0]);
      ParseAllExact(parts[1..], p[1..]);
      DecimalsSplit(parts, p);
      ConsEqual(p, ParseNid(parts[0]), ParseAll(parts[1..]));
    }
  }

  lemma DecimalsSplit(parts: seq<string>, p: Path)
    requires parts != [] && p != []
    ensures parts == Decimals(p) <==> parts[0] == Decimal(p[0]) && parts[1..] == Decimals(p[1..])
    ensures 0 in p <==> p[0] == 0 || 0 in p[1..]
  {
    assert parts == [parts[0]] + parts[1..] && p == [p[0]] + p[1..];
    assert Decimals(p) == [Decimal(p[0])] + Decimals(p[1..]);
  }

  lemma ConsEqual(p: Path, n: Option<uint32>, rest: Option<Path>)
    requires p != []
    ensures n.Some? && rest.Some? ==> ([n.value] + rest.value == p <==> n.value == p[0] && rest.value == p[1..])
  {
    assert p == [p[0]] + p[1..];
    if n.Some? && rest.Some? {
      assert ([n.value] + rest.value)[1..] == rest.value;
    }
  }

  lemma {:induction false} JoinSplit(s: string)
    ensures Names.Join(Names.Split(s)) == s
  {
    if s != [] {
      JoinSplit(s[1..]);
      var rest := Names.Split(s[1..]);
      if s[0] == '.' {
        assert ([[]] + rest)[1..] == rest;
      } else {
        assert ([[s[0]] + rest[0]] + rest[1..])[1..] == rest[1..];
        assert s == [s[0]] + s[1..];
      }
    }
  }

  lemma {:induction false} SplitDotless(parts: seq<string>)
    requires parts != [] && forall i :: 0 <= i < |parts| ==> '.' !in parts[i]
    ensures Names.Split(Names.Join(parts)) == parts
  {
    if |parts| == 1 {
      Names.SplitPiece(parts[0], "");
    } else {
      SplitDotless(parts[1..]);
      Names.SplitPiece(parts[0], Names.Join(parts[1..]));
    }
  }

  lemma DecimalsAreDotless(p: Path)
    ensures forall i :: 0 <= i < |p| ==> '.' !in Decimals(p)[i]
  {
    forall i | 0 <= i < |p|
      ensures '.' !in Decimals(p)[i]
    {
      DecimalReads(p[i]);
    }
  }

  lemma DecimalsAreTidy(p: Path)
    requires p != []
    ensures String(p) != [] && Names.TrimSpace(String(p)) == String(p)
  {
    DigitsAtEnds(p);
  }

  lemma {:induction false} DigitsAtEnds(p: Path)
    requires p != []
    ensures String(p) != [] && IsDigit(String(p)[0]) && IsDigit(String(p)[|String(p)| - 1])
  {
    DecimalReads(p[0]);
    if |p| > 1 {
      DigitsAtEnds(p[1..]);
      assert Decimals(p)[1..] == Decimals(p[1..]);
    }
  }

  /**
   * Text and path determine each other: parsing accepts exactly the written form of a path
   * with 1 to 16 non-zero identifiers, up to white space around it, and gives that path.
   */
  lemma ParseExact(text: string, p: Path)
    ensures Parse(text) == Ok(p) <==>
              1 <= |p| <= T.MAX_DEPTH && 0 !in p && Names.TrimSpace(text) == String(p)
  {
    var s := Names.TrimSpace(text);
    var parts := Names.Split(s);
    ParseAllExact(parts, p);
    JoinSplit(s);
    if p != [] {
      DecimalsAreDotless(p);
      SplitDotless(Decimals(p));
      DigitsAtEnds(p);
    }
  }

  lemma TextRoundTrip(p: Path)
    requires 1 <= |p| <= T.MAX_DEPTH && 0 !in p
    ensures Parse(String(p)) == Ok(p)
  {
    DecimalsAreTidy(p);
    ParseExact(String(p), p);
  }
}
