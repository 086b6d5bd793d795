/** The format of a compressed transaction, written down on its own: just what decodes, to what, and what is refused. */
module CompressedTxFormat {
  import opened Hashing
  import opened Rlp
  import opened CompressedTx
  import opened CompressedTxLaws

  /** The fields as they are written. */
  datatype Fields = Fields(sequenceNum: nat, gasPrice: nat, gasLimit: nat, address: Bytes, mantissa: nat, exponent: Bytes,
                           calldata: Bytes)

  function Number(n: nat): Bytes {
    EncodeInt(n).value
  }

  function Amount(f: Fields): Bytes {
    Number(f.mantissa) + (f.exponent + f.calldata)
  }

  function Written(f: Fields): Bytes {
    Number(f.sequenceNum) + (Number(f.gasPrice) + (Number(f.gasLimit) + (EncodeString(f.address) + Amount(f))))
  }

  predicate HasExponent(f: Fields) {
    |f.exponent| == if f.mantissa == 0 then 0 else 1
  }

  function Payment(f: Fields): nat
    requires HasExponent(f)
  {
    if f.mantissa == 0 then 0 else Pow10(f.exponent[0] as nat) * f.mantissa
  }

  /** How an address is written: nothing, the digits of an index in 1 to 19 bytes, or its own 20 bytes. */
  predicate Names(b: Bytes, to: Option<CompressedAddress>) {
    match to
    case None => |b| == 0
    case Some(Index(n)) => 1 <= |b| <= 19 && n == FromBytes(b)
    case Some(Full(address)) => |b| == 20 && b == address
  }

  predicate Means(f: Fields, tx: CompressedTx)
    requires HasExponent(f)
  {
    && tx.sequenceNum == f.sequenceNum && tx.gasPrice == f.gasPrice && tx.gasLimit == f.gasLimit
    && Names(f.address, tx.to)
    && tx.payment == Payment(f) && tx.calldata == f.calldata
  }

  lemma AddressIsNamed(b: Bytes, to: Option<CompressedAddress>)
    ensures AddressOf(b) == Ok(to) <==> Names(b, to)
    ensures AddressOf(b).Err? <==> |b| > 20
  {
  }

  // ----- What decodes is written so -----

  lemma IntIsWritten(d: Bytes, n: nat, rest: Bytes)
    requires ReadInt(d) == Ok((n, rest))
    ensures d == Number(n) + rest
  {
    IntIsCanonical(d);
  }

  lemma ToIsWritten(d: Bytes, to: Option<CompressedAddress>, rest: Bytes) returns (b: Bytes)
    requires DecodedTo(d) == Ok((to, rest))
    ensures d == EncodeString(b) + rest && Names(b, to)
  {
    StringIsCanonical(d);
    b := DecodeString(d).value.0;
  }

  lemma AmountIsWritten(d: Bytes, payment: nat, rest: Bytes) returns (mantissa: nat, exponent: Bytes)
    requires DecodedAmount(d) == Ok((payment, rest))
    ensures d == Number(mantissa) + (exponent + rest) && |exponent| == (if mantissa == 0 then 0 else 1)
    ensures payment == if mantissa == 0 then 0 else Pow10(exponent[0] as nat) * mantissa
  {
    var (m, tail) := ReadInt(d).value;
    IntIsWritten(d, m, tail);
    mantissa, exponent := m, if m == 0 then [] else [tail[0]];
    assert tail == exponent + rest;
  }

  lemma TxIsWritten(d: Bytes, tx: CompressedTx) returns (f: Fields)
    requires DecodedCompressedTx(d) == Ok(tx)
    ensures d == Written(f) && HasExponent(f) && Means(f, tx)
  {
    var (n, d1) := ReadInt(d).value;
    var (p, d2) := ReadInt(d1).value;
    var (l, d3) := ReadInt(d2).value;
    var (to, d4) := DecodedTo(d3).value;
    IntIsWritten(d, n, d1);
    IntIsWritten(d1, p, d2);
    IntIsWritten(d2, l, d3);
    var b := ToIsWritten(d3, to, d4);
    var m, e := AmountIsWritten(d4, tx.payment, tx.calldata);
    f := Fields(n, p, l, b, m, e, tx.calldata);
  }

  // ----- What is written so decodes -----

  lemma NumberFits(n: nat)
    ensures |ToBytes(n)| <= |Number(n)|
  {
  }

  lemma IntIsRead(n: nat, d: Bytes)
    requires FitsLength(Number(n) + d)
    ensures ReadInt(Number(n) + d) == Ok((n, d))
  {
    NumberFits(n);
    IntRoundTrip(n, d);
  }

  lemma AddressIsRead(b: Bytes, d: Bytes)
    requires FitsLength(EncodeString(b) + d)
    ensures DecodeString(EncodeString(b) + d) == Ok((b, d))
  {
    assert |b| <= |EncodeString(b)|;
    StringRoundTrip(b, d);
  }

  lemma AmountIsRead(f: Fields)
    requires FitsLength(Amount(f))
    ensures HasExponent(f) ==> DecodedAmount(Amount(f)) == Ok((Payment(f), f.calldata))
    ensures f.mantissa != 0 && f.exponent == [] && f.calldata == [] ==> DecodedAmount(Amount(f)) == Err(NoExponent)
  {
    IntIsRead(f.mantissa, f.exponent + f.calldata);
    if f.exponent == [] {
      assert f.exponent + f.calldata == f.calldata;
    } else if HasExponent(f) {
      assert (f.exponent + f.calldata)[1..] == f.calldata;
    }
  }

  /** Four fields are read one after the other. */
  lemma FieldsAreRead(f: Fields)
    requires FitsLength(Written(f))
    ensures |f.address| > 20 ==> DecodedCompressedTx(Written(f)) == Err(BadAddressLength(|f.address|))
    ensures |f.address| <= 20 ==>
      match DecodedAmount(Amount(f))
      case Err(e) => DecodedCompressedTx(Written(f)) == Err(e)
      case Ok((payment, calldata)) =>
        DecodedCompressedTx(Written(f)) ==
          Ok(CompressedTx(f.sequenceNum, f.gasPrice, f.gasLimit, AddressOf(f.address).value, payment, calldata))
  {
    var d3 := EncodeString(f.address) + Amount(f);
    var d2 := Number(f.gasLimit) + d3;
    var d1 := Number(f.gasPrice) + d2;
    IntIsRead(f.sequenceNum, d1);
    IntIsRead(f.gasPrice, d2);
    IntIsRead(f.gasLimit, d3);
    AddressIsRead(f.address, Amount(f));
  }

  /** The fields of an unsigned transaction: what decodes to it. */
  lemma TxDecodesExactly(d: Bytes, tx: CompressedTx)
    requires FitsLength(d)
    ensures DecodedCompressedTx(d) == Ok(tx) <==> exists f :: d == Written(f) && HasExponent(f) && Means(f, tx)
  {
    if DecodedCompressedTx(d) == Ok(tx) {
      var f := TxIsWritten(d, tx);
    }
    forall f | d == Written(f) && HasExponent(f) && Means(f, tx) ensures DecodedCompressedTx(d) == Ok(tx) {
      AddressIsNamed(f.address, tx.to);
      FieldsAreRead(f);
      AmountIsRead(f);
    }
  }

  // ----- Signed transactions -----

  function Signed(body: Bytes, r: Bytes, s: Bytes, v: byte): Bytes {
    [0xff] + body + (r + s + [v])
  }

  lemma SigDecodesExactly(d: Bytes, sig: Signature)
    requires |d| == 65
    ensures DecodedECDSASig(d) == Ok(sig) <==>
      exists r: Bytes, s: Bytes :: |r| == 32 && |s| == 32 && d == r + s + [sig.v] && sig.r == FromBytes(r) && sig.s == FromBytes(s)
  {
    if DecodedECDSASig(d) == Ok(sig) {
      var r, s := d[..32], d[32..64];
      assert d == r + s + [sig.v];
    }
    forall r: Bytes, s: Bytes
      | |r| == 32 && |s| == 32 && d == r + s + [sig.v] && sig.r == FromBytes(r) && sig.s == FromBytes(s)
      ensures DecodedECDSASig(d) == Ok(sig)
    {
      ThreeParts(r, s, [sig.v]);
    }
  }

  /** A signed transaction as it is written: 0xff, the fields, two words and a byte. */
  ghost predicate Spells(data: Bytes, f: Fields, r: Bytes, s: Bytes, t: CompressedECDSATransaction) {
    && |r| == 32 && |s| == 32 && data == Signed(Written(f), r, s, t.sig.v)
    && HasExponent(f) && Means(f, t.tx)
    && t.sig.r == FromBytes(r) && t.sig.s == FromBytes(s)
  }

  lemma DataIsWritten(data: Bytes, t: CompressedECDSATransaction) returns (f: Fields, r: Bytes, s: Bytes)
    requires FromData(data) == Ok(t)
    ensures Spells(data, f, r, s, t)
  {
    var body, sig := data[1..|data| - 65], data[|data| - 65..];
    assert data == [0xff] + body + sig;
    f := TxIsWritten(body, t.tx);
    SigDecodesExactly(sig, t.sig);
    r, s :| |r| == 32 && |s| == 32 && sig == r + s + [t.sig.v] && t.sig.r == FromBytes(r) && t.sig.s == FromBytes(s);
  }

  lemma WrittenIsNotEmpty(f: Fields)
    ensures |Written(f)| > 0
  {
    assert Number(f.sequenceNum) != [];
  }

  /** Of data that is long enough and starts with 0xff, what the body and the signature decode to. */
  lemma PartsDecode(f: Fields, r: Bytes, s: Bytes, v: byte)
    requires |r| == 32 && |s| == 32
    ensures FromData(Signed(Written(f), r, s, v)) ==
      match DecodedCompressedTx(Written(f))
      case Err(e) => Err(e)
      case Ok(tx) => Ok(CompressedECDSATransaction(tx, Signature(v, FromBytes(r), FromBytes(s))))
  {
    WrittenIsNotEmpty(f);
    ThreeParts(r, s, [v]);
    ThreeSegments(0xff, Written(f), r + s + [v]);
  }

  /**
   Exactly what decodes, and to what: 0xff, three canonical integers, a string of at most 20 bytes that is the address, a
   mantissa with a byte of exponent exactly if it is not zero, the calldata, and a signature of 65 bytes.
   */
  lemma DecodesExactly(data: Bytes, t: CompressedECDSATransaction)
    requires FitsLength(data)
    ensures FromData(data) == Ok(t) <==> exists f, r, s :: Spells(data, f, r, s, t)
  {
    if FromData(data) == Ok(t) {
      var f, r, s := DataIsWritten(data, t);
    }
    forall f, r, s | Spells(data, f, r, s, t) ensures FromData(data) == Ok(t) {
      PartsDecode(f, r, s, t.sig.v);
      TxDecodesExactly(Written(f), t.tx);
    }
  }

  /** What is refused for more than a byte string or an integer that does not parse, and with which error. */
  lemma WhatIsRefused(data: Bytes, f: Fields, r: Bytes, s: Bytes, v: byte)
    requires FitsLength(data)
    ensures FromData(data) == Err(TooShort) <==> |data| < 66
    ensures FromData(data) == Err(FunctionTableUnsupported) <==> |data| >= 66 && data[0] != 0xff
    ensures |r| == 32 && |s| == 32 && data == Signed(Written(f), r, s, v) ==>
      if |f.address| > 20 then FromData(data) == Err(BadAddressLength(|f.address|))
      else f.mantissa != 0 && f.exponent == [] && f.calldata == [] ==> FromData(data) == Err(NoExponent)
  {
    if |r| == 32 && |s| == 32 && data == Signed(Written(f), r, s, v) {
      PartsDecode(f, r, s, v);
      FieldsAreRead(f);
      AmountIsRead(f);
    }
  }
}
