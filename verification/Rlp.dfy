/**
 Byte strings and integers in RLP (Appendix B of the Ethereum Yellow Paper), decoded canonically as go-ethereum's
 rlp.Decode does from a bytes.Reader. Lists are only recognised in order to be refused.
 */
module Rlp {
  import opened Hashing

  datatype RlpError = Eof | ValueTooLarge | CanonSize | CanonInt | ExpectedString | NegativeInt

  /** What is left of a reader's data after a value was read from its front. */
  type Reading<T> = Result<(T, Bytes), RlpError>

  // ----- Big-endian numbers -----

  function FromBytes(b: Bytes): nat {
    if b == [] then 0 else 0x100 * FromBytes(b[..|b| - 1]) + b[|b| - 1] as nat
  }

  /** big.Int.Bytes: no leading zeros, and nothing at all for zero. */
  function ToBytes(n: nat): Bytes {
    if n == 0 then [] else ToBytes(n / 0x100) + [(n % 0x100) as byte]
  }

  function Pow256(k: nat): (r: nat)
    ensures r > 0
  {
    if k == 0 then 1 else 0x100 * Pow256(k - 1)
  }

  lemma {:induction false} NumberOfItsBytes(n: nat)
    ensures FromBytes(ToBytes(n)) == n
    ensures n > 0 ==> ToBytes(n) != [] && ToBytes(n)[0] != 0
  {
    if n > 0 {
      NumberOfItsBytes(n / 0x100);
      var b := ToBytes(n);
      assert b[..|b| - 1] == ToBytes(n / 0x100);
    }
  }

  lemma {:induction false} BytesOfTheirNumber(b: Bytes)
    requires b == [] || b[0] != 0
    ensures ToBytes(FromBytes(b)) == b
  {
    if b != [] {
      BytesOfTheirNumber(b[..|b| - 1]);
      assert b == b[..|b| - 1] + [b[|b| - 1]];
      if |b| > 1 {
        Positive(b[..|b| - 1]);
      }
    }
  }

  lemma {:induction false} Positive(b: Bytes)
    requires b != [] && b[0] != 0
    ensures FromBytes(b) > 0
  {
    if |b| > 1 {
      Positive(b[..|b| - 1]);
    }
  }

  lemma {:induction false} BytesAreFew(n: nat, k: nat)
    ensures |ToBytes(n)| <= k <==> n < Pow256(k)
  {
    if n > 0 && k > 0 {
      BytesAreFew(n / 0x100, k - 1);
    }
  }

  // ----- Encoding -----

  function LongHeader(sizeBytes: Bytes): Bytes {
    [((0xB7 + |sizeBytes|) % 0x100) as byte] + sizeBytes
  }

  function StringHeader(size: nat): Bytes {
    if size < 56 then [(0x80 + size) as byte] else LongHeader(ToBytes(size))
  }

  function EncodeString(b: Bytes): Bytes {
    if |b| == 1 && b[0] < 0x80 then b else StringHeader(|b|) + b
  }

  function EncodeInt(n: int): Result<Bytes, RlpError> {
    if n < 0 then Err(NegativeInt) else Ok(EncodeString(ToBytes(n)))
  }

  // ----- Decoding -----

  /** readUint, for a size of `n` bytes. */
  function ReadSize(d: Bytes, n: nat): Reading<nat>
    requires n > 0
  {
    if |d| < n then Err(ValueTooLarge)
    else if n > 1 && d[0] == 0 then Err(CanonSize)
    else Ok((FromBytes(d[..n]), d[n..]))
  }

  function ReadLongSize(d: Bytes, n: nat): Reading<nat>
    requires n > 0
  {
    match ReadSize(d, n)
    case Err(e) => Err(e)
    case Ok((size, rest)) => if size < 56 then Err(CanonSize) else Ok((size, rest))
  }

  function Content(size: nat, d: Bytes): Reading<Bytes> {
    if size > |d| then Err(ValueTooLarge)
    else if size == 1 && d[0] < 0x80 then Err(CanonSize)
    else Ok((d[..size], d[size..]))
  }

  function RefuseList(size: nat, d: Bytes): Reading<Bytes> {
    if size > |d| then Err(ValueTooLarge) else Err(ExpectedString)
  }

  function DecodeString(d: Bytes): Reading<Bytes> {
    if d == [] then Err(Eof)
    else
      var b, rest := d[0] as nat, d[1..];
      if b < 0x80 then Ok(([d[0]], rest))
      else if b < 0xB8 then Content(b - 0x80, rest)
      else if b < 0xC0 then
        match ReadLongSize(rest, b - 0xB7)
        case Err(e) => Err(e)
        case Ok((size, rest)) => Content(size, rest)
      else if b < 0xF8 then RefuseList(b - 0xC0, rest)
      else
        match ReadLongSize(rest, b - 0xF7)
        case Err(e) => Err(e)
        case Ok((size, rest)) => RefuseList(size, rest)
  }

  function DecodeInt(d: Bytes): Reading<nat> {
    match DecodeString(d)
    case Err(e) => Err(e)
    case Ok((b, rest)) => if b != [] && b[0] == 0 then Err(CanonInt) else Ok((FromBytes(b), rest))
  }

  // ----- Round trips -----

  /** Lengths are 64-bit numbers. */
  predicate FitsLength(b: Bytes) {
    |b| < TWO_64
  }

  lemma LengthBytes(size: nat)
    requires size < TWO_64
    ensures |ToBytes(size)| <= 8
  {
    assert Pow256(4) == 0x1_0000_0000;
    assert Pow256(8) == 0x100 * (0x100 * (0x100 * (0x100 * Pow256(4)))) == TWO_64;
    BytesAreFew(size, 8);
  }

  lemma ContentOf(b: Bytes, d: Bytes)
    requires !(|b| == 1 && b[0] < 0x80)
    ensures Content(|b|, b + d) == Ok((b, d))
  {
    assert (b + d)[..|b|] == b && (b + d)[|b|..] == d;
  }

  lemma LongSizeOf(size: nat, d: Bytes)
    requires 56 <= size < TWO_64
    ensures 0 < |ToBytes(size)| <= 8 && ReadLongSize(ToBytes(size) + d, |ToBytes(size)|) == Ok((size, d))
  {
    var s := ToBytes(size);
    LengthBytes(size);
    NumberOfItsBytes(size);
    assert (s + d)[..|s|] == s && (s + d)[|s|..] == d;
  }

  lemma DecodeShort(size: nat, tail: Bytes)
    requires size < 56
    ensures DecodeString([(0x80 + size) as byte] + tail) == Content(size, tail)
  {
    assert ([(0x80 + size) as byte] + tail)[1..] == tail;
  }

  function LongContent(n: nat, tail: Bytes): Reading<Bytes>
    requires n > 0
  {
    match ReadLongSize(tail, n)
    case Err(e) => Err(e)
    case Ok((size, rest)) => Content(size, rest)
  }

  lemma DecodeLong(n: nat, tail: Bytes)
    requires 0 < n <= 8
    ensures DecodeString([(0xB7 + n) as byte] + tail) == LongContent(n, tail)
  {
    assert ([(0xB7 + n) as byte] + tail)[1..] == tail;
  }

  lemma LongHeaderOf(s: Bytes, b: Bytes, d: Bytes)
    requires |s| <= 8
    ensures LongHeader(s) + b + d == [(0xB7 + |s|) as byte] + (s + (b + d))
  {
    assert (0xB7 + |s|) % 0x100 == 0xB7 + |s|;
  }

  lemma EncodeLong(b: Bytes, s: Bytes, d: Bytes)
    requires 56 <= |b| && s == ToBytes(|b|) && |s| <= 8
    ensures EncodeString(b) + d == [(0xB7 + |s|) as byte] + (s + (b + d))
  {
    LongHeaderOf(s, b, d);
  }

  /** Decoding undoes encoding, whatever follows. */
  lemma StringRoundTrip(b: Bytes, d: Bytes)
    requires FitsLength(b)
    ensures DecodeString(EncodeString(b) + d) == Ok((b, d))
  {
    if |b| == 1 && b[0] < 0x80 {
      assert [b[0]] == b && (b + d)[1..] == d;
    } else {
      ContentOf(b, d);
      if |b| < 56 {
        assert EncodeString(b) + d == [(0x80 + |b|) as byte] + (b + d);
        DecodeShort(|b|, b + d);
      } else {
        LongSizeOf(|b|, b + d);
        EncodeLong(b, ToBytes(|b|), d);
        DecodeLong(|ToBytes(|b|)|, ToBytes(|b|) + (b + d));
      }
    }
  }

  lemma ContentIsAhead(size: nat, d: Bytes)
    requires Content(size, d).Ok?
    ensures var (b, rest) := Content(size, d).value;
      d == b + rest && |b| == size && !(|b| == 1 && b[0] < 0x80)
  {
  }

  lemma SizeIsCanonical(d: Bytes, n: nat)
    requires n > 0 && ReadLongSize(d, n).Ok?
    ensures n <= |d| && ToBytes(ReadLongSize(d, n).value.0) == d[..n]
    ensures ReadLongSize(d, n).value.0 >= 56 && d == d[..n] + ReadLongSize(d, n).value.1
  {
    assert FromBytes([0]) == 0;
    assert d[..1] == [d[0]];
    BytesOfTheirNumber(d[..n]);
  }

  lemma LongIsCanonical(n: nat, tail: Bytes)
    requires 0 < n <= 8 && LongContent(n, tail).Ok?
    ensures var (b, rest) := LongContent(n, tail).value;
      [(0xB7 + n) as byte] + tail == EncodeString(b) + rest
  {
    var (size, content) := ReadLongSize(tail, n).value;
    SizeIsCanonical(tail, n);
    ContentIsAhead(size, content);
    var (b, rest) := LongContent(n, tail).value;
    EncodeLong(b, tail[..n], rest);
  }

  lemma ShortIsCanonical(size: nat, tail: Bytes)
    requires size < 56 && Content(size, tail).Ok?
    ensures var (b, rest) := Content(size, tail).value;
      [(0x80 + size) as byte] + tail == EncodeString(b) + rest
  {
    ContentIsAhead(size, tail);
  }

  /** Encodings are canonical: whatever decodes is the encoding of its value, and what follows. */
  lemma StringIsCanonical(d: Bytes)
    requires DecodeString(d).Ok?
    ensures d == EncodeString(DecodeString(d).value.0) + DecodeString(d).value.1
  {
    var first, tail := d[0] as nat, d[1..];
    assert d == [d[0]] + tail;
    if 0x80 <= first < 0xB8 {
      ShortIsCanonical(first - 0x80, tail);
    } else if 0xB8 <= first < 0xC0 {
      LongIsCanonical(first - 0xB7, tail);
    }
  }

  /** A decoded string is never longer than the data it was read from. */
  lemma ReadingShrinks(d: Bytes)
    requires DecodeString(d).Ok?
    ensures |DecodeString(d).value.0| + |DecodeString(d).value.1| <= |d|
    ensures |DecodeString(d).value.1| < |d|
  {
  }

  /** An integer that a machine can hold: its length is a 64-bit number. */
  predicate FitsMemory(n: nat) {
    FitsLength(ToBytes(n))
  }

  lemma IntRoundTrip(n: nat, d: Bytes)
    requires FitsMemory(n)
    ensures DecodeInt(EncodeInt(n).value + d) == Ok((n, d))
  {
    StringRoundTrip(ToBytes(n), d);
    NumberOfItsBytes(n);
  }

  lemma IntIsCanonical(d: Bytes)
    requires DecodeInt(d).Ok?
    ensures d == EncodeInt(DecodeInt(d).value.0).value + DecodeInt(d).value.1
  {
    StringIsCanonical(d);
    BytesOfTheirNumber(DecodeString(d).value.0);
  }

  lemma LongHeaders()
    ensures StringHeader(55) == [0xb7] && StringHeader(56) == [0xb8, 56]
    ensures StringHeader(0x400) == [0xb9, 4, 0] && StringHeader(0x1_0000) == [0xba, 1, 0, 0]
  {
    assert ToBytes(56) == [56];
    assert ToBytes(4) == [4];
    assert ToBytes(0x400) == [4, 0];
    assert ToBytes(1) == [1];
    assert ToBytes(0x100) == [1, 0];
    assert ToBytes(0x1_0000) == [1, 0, 0];
  }

  /** Encodings the standard gives. */
  lemma KnownStrings()
    ensures EncodeString([]) == [0x80] && EncodeString([0]) == [0] && EncodeString([0x7f]) == [0x7f]
    ensures EncodeString([0x80]) == [0x81, 0x80] && EncodeString([0x64, 0x6f, 0x67]) == [0x83, 0x64, 0x6f, 0x67]
  {
  }

  lemma KnownInts()
    ensures EncodeInt(0) == Ok([0x80]) && EncodeInt(15) == Ok([15]) && EncodeInt(0x400) == Ok([0x82, 4, 0])
  {
    assert ToBytes(15) == [15];
    assert ToBytes(4) == [4];
    assert ToBytes(0x400) == [4, 0];
    assert EncodeString(ToBytes(0)) == [0x80] && EncodeString(ToBytes(0x400)) == [0x82, 4, 0];
  }

  /** The bytes at which one layout gives way to the next. */
  lemma KnownHeaders(b: Bytes)
    requires |b| > 1
    ensures |b| == 55 ==> EncodeString(b) == [0xb7] + b
    ensures |b| == 56 ==> EncodeString(b) == [0xb8, 56] + b
    ensures |b| == 0x400 ==> EncodeString(b) == [0xb9, 4, 0] + b
  {
    LongHeaders();
  }

  // ----- The reader -----

  /** bytes.Reader. */
  class Reader {
    var rest: Bytes

    constructor (data: Bytes)
      ensures rest == data
    {
      rest := data;
    }

    /** Read into a buffer of `n` bytes: what is there, up to that many. */
    method Read(n: nat) returns (data: Bytes)
      modifies this
      ensures var k := if n <= |old(rest)| then n else |old(rest)|;
        data == old(rest)[..k] && rest == old(rest)[k..]
    {
      var k := if n <= |rest| then n else |rest|;
      data, rest := rest[..k], rest[k..];
    }

    /** rlp.Decode into a byte slice; after an error the position is of no concern to the callers. */
    method DecodeBytes() returns (r: Result<Bytes, RlpError>)
      modifies this
      ensures match DecodeString(old(rest))
        case Err(e) => r == Err(e)
        case Ok((b, d)) => r == Ok(b) && rest == d
    {
      var reading := DecodeString(rest);
      match reading {
        case Err(e) => r := Err(e);
        case Ok((b, d)) =>
          r := Ok(b);
          rest := d;
      }
    }

    /** rlp.Decode into a big.Int. */
    method DecodeBigInt() returns (r: Result<nat, RlpError>)
      modifies this
      ensures match DecodeInt(old(rest))
        case Err(e) => r == Err(e)
        case Ok((n, d)) => r == Ok(n) && rest == d
    {
      var b := DecodeBytes();
      if b.Err? {
        return Err(b.error);
      }
      if b.value != [] && b.value[0] == 0 {
        return Err(CanonInt);
      }
      r := Ok(FromBytes(b.value));
    }
  }
}
