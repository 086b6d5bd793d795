/**
 Compressed transactions with an ECDSA signature (packages/arb-evm/message/data.go and the part of l2Message.go in the
 same directory that wraps it): which of them survive being encoded and decoded.
 */
module CompressedTx {
  import opened Hashing
  import opened Rlp

  datatype CodecError =
    | BadRlp(error: RlpError) | NoExponent | BadAddressLength(length: nat)
    | BadSignature | TooShort | FunctionTableUnsupported

  type Decoded<T> = Result<(T, Bytes), CodecError>

  type Address = b: Bytes | |b| == 20 witness seq(20, _ => 0)

  datatype CompressedAddress = Index(n: int) | Full(address: Address)

  datatype CompressedTx = CompressedTx(sequenceNum: int, gasPrice: int, gasLimit: int, to: Option<CompressedAddress>,
                                       payment: int, calldata: Bytes)

  datatype Signature = Signature(v: byte, r: int, s: int)

  datatype CompressedECDSATransaction = CompressedECDSATransaction(tx: CompressedTx, sig: Signature)

  // ----- Integers -----

  function ReadInt(d: Bytes): Decoded<nat> {
    match DecodeInt(d)
    case Err(e) => Err(BadRlp(e))
    case Ok(r) => Ok(r)
  }

  // ----- Amounts -----

  function Pow10(k: nat): (r: nat)
    ensures r > 0
  {
    if k == 0 then 1 else 10 * Pow10(k - 1)
  }

  /** The number of zeros the decimal digits of a positive amount end in. */
  function Zeros(amount: nat): nat {
    if amount > 0 && amount % 10 == 0 then 1 + Zeros(amount / 10) else 0
  }

  /** An amount without the zeros at its end. */
  function Mantissa(amount: int): (m: int)
    ensures (m > 0 <==> amount > 0) && (m < 0 <==> amount < 0)
  {
    if amount > 0 && amount % 10 == 0 then Mantissa(amount / 10) else amount
  }

  /** The mantissa and, unless it is zero, the number of zeros, counted in one byte. */
  function EncodedAmount(amount: int): Result<Bytes, RlpError> {
    if amount < 0 then Err(NegativeInt)
    else
      var data := EncodeInt(Mantissa(amount)).value;
      if amount == 0 then Ok(data) else Ok(data + [(Zeros(amount) % 0x100) as byte])
  }

  function DecodedAmount(d: Bytes): Decoded<nat> {
    match ReadInt(d)
    case Err(e) => Err(e)
    case Ok((a, rest)) =>
      if a == 0 then Ok((a, rest))
      else if rest == [] then Err(NoExponent)
      else Ok((Pow10(rest[0] as nat) * a, rest[1..]))
  }

  /** A big.Int, which operations change in place. */
  class BigInt {
    var value: int

    constructor (v: int)
      ensures value == v
    {
      value := v;
    }
  }

  /** A byte wraps around. */
  function Increment(b: byte): byte {
    if b == 0xff then 0 else b + 1
  }

  lemma CountInByte(k: nat, b: byte)
    requires b as nat == k % 0x100
    ensures Increment(b) as nat == (k + 1) % 0x100
  {
  }

  /** encodeAmount: the zeros are divided away in the caller's own integer. */
  method EncodeAmount(amount: BigInt) returns (r: Result<Bytes, RlpError>)
    modifies amount
    ensures r == EncodedAmount(old(amount.value))
    ensures amount.value == Mantissa(old(amount.value))
  {
    var exp: byte := 0;
    ghost var entry := amount.value;
    ghost var divisions: nat := 0;
    while amount.value > 0 && amount.value % 10 == 0
      invariant entry > 0 <==> amount.value > 0
      invariant entry == 0 <==> amount.value == 0
      invariant Mantissa(amount.value) == Mantissa(entry)
      invariant amount.value > 0 ==> divisions + Zeros(amount.value) == Zeros(entry)
      invariant amount.value <= 0 ==> divisions == 0
      invariant exp as nat == divisions % 0x100
      decreases amount.value
    {
      amount.value := amount.value / 10;
      CountInByte(divisions, exp);
      exp := Increment(exp);
      divisions := divisions + 1;
    }
    var amountData := EncodeInt(amount.value);
    if amountData.Err? {
      return amountData;
    }
    if amount.value == 0 {
      return amountData;
    }
    r := Ok(amountData.value + [exp]);
  }

  method ReadBigInt(r: Reader) returns (n: Result<nat, CodecError>)
    modifies r
    ensures match ReadInt(old(r.rest))
      case Err(e) => n == Err(e)
      case Ok((v, d)) => n == Ok(v) && r.rest == d
  {
    var v := r.DecodeBigInt();
    n := if v.Err? then Err(BadRlp(v.error)) else Ok(v.value);
  }

  method DecodeAmount(r: Reader) returns (amount: Result<nat, CodecError>)
    modifies r
    ensures match DecodedAmount(old(r.rest))
      case Err(e) => amount == Err(e)
      case Ok((v, d)) => amount == Ok(v) && r.rest == d
  {
    var a := ReadBigInt(r);
    if a.Err? || a.value == 0 {
      return a;
    }
    var bData := r.Read(1);
    if |bData| != 1 {
      return Err(NoExponent);
    }
    amount := Ok(Pow10(bData[0] as nat) * a.value);
  }

  // ----- Addresses -----

  /** CompressedAddress.Encode, and the single byte that stands for a missing address. */
  function EncodedTo(to: Option<CompressedAddress>): Result<Bytes, RlpError> {
    match to
    case None => Ok([0x80])
    case Some(Index(n)) => EncodeInt(n)
    case Some(Full(address)) => Ok(EncodeString(address))
  }

  function AddressOf(b: Bytes): Result<Option<CompressedAddress>, CodecError> {
    if b == [] then Ok(None)
    else if |b| < 20 then Ok(Some(Index(FromBytes(b))))
    else if |b| == 20 then Ok(Some(Full(b)))
    else Err(BadAddressLength(|b|))
  }

  function DecodedTo(d: Bytes): Decoded<Option<CompressedAddress>> {
    match DecodeString(d)
    case Err(e) => Err(BadRlp(e))
    case Ok((b, rest)) =>
      match AddressOf(b)
      case Err(e) => Err(e)
      case Ok(to) => Ok((to, rest))
  }

  method DecodeAddress(r: Reader) returns (to: Result<Option<CompressedAddress>, CodecError>)
    modifies r
    ensures match DecodedTo(old(r.rest))
      case Err(e) => to == Err(e)
      case Ok((v, d)) => to == Ok(v) && r.rest == d
  {
    var addressBytes := r.DecodeBytes();
    if addressBytes.Err? {
      return Err(BadRlp(addressBytes.error));
    }
    var b := addressBytes.value;
    if |b| == 0 {
      return Ok(None);
    }
    if |b| < 20 {
      return Ok(Some(Index(FromBytes(b))));
    }
    if |b| == 20 {
      return Ok(Some(Full(b)));
    }
    to := Err(BadAddressLength(|b|));
  }

  // ----- Unsigned transactions -----

  function EncodedUnsignedTx(tx: CompressedTx): Result<Bytes, RlpError> {
    var nonceData, gasPriceData, gasLimitData := EncodeInt(tx.sequenceNum), EncodeInt(tx.gasPrice), EncodeInt(tx.gasLimit);
    var paymentData, destData := EncodedAmount(tx.payment), EncodedTo(tx.to);
    if nonceData.Err? || gasPriceData.Err? || gasLimitData.Err? || paymentData.Err? || destData.Err? then Err(NegativeInt)
    else Ok(nonceData.value + (gasPriceData.value + (gasLimitData.value + (destData.value
              + (paymentData.value + tx.calldata)))))
  }

  function DecodedCompressedTx(d: Bytes): Result<CompressedTx, CodecError> {
    match ReadInt(d)
    case Err(e) => Err(e)
    case Ok((nonce, d)) =>
      match ReadInt(d)
      case Err(e) => Err(e)
      case Ok((gasPrice, d)) =>
        match ReadInt(d)
        case Err(e) => Err(e)
        case Ok((gasLimit, d)) =>
          match DecodedTo(d)
          case Err(e) => Err(e)
          case Ok((to, d)) =>
            match DecodedAmount(d)
            case Err(e) => Err(e)
            case Ok((payment, calldata)) => Ok(CompressedTx(nonce, gasPrice, gasLimit, to, payment, calldata))
  }

  /** encodeUnsignedTx, for a transaction whose payment is the given integer; it is the only one to change. */
  method EncodeUnsignedTx(tx: CompressedTx, payment: BigInt) returns (r: Result<Bytes, RlpError>)
    requires payment.value == tx.payment
    modifies payment
    ensures r == EncodedUnsignedTx(tx)
    ensures r.Ok? ==> payment.value == Mantissa(tx.payment)
  {
    var nonceData := EncodeInt(tx.sequenceNum);
    if nonceData.Err? {
      return nonceData;
    }
    var gasPriceData := EncodeInt(tx.gasPrice);
    if gasPriceData.Err? {
      return gasPriceData;
    }
    var gasLimitData := EncodeInt(tx.gasLimit);
    if gasLimitData.Err? {
      return gasLimitData;
    }
    var paymentData := EncodeAmount(payment);
    if paymentData.Err? {
      return paymentData;
    }
    var destData := EncodedTo(tx.to);
    if destData.Err? {
      return destData;
    }
    r := Ok(nonceData.value + (gasPriceData.value + (gasLimitData.value + (destData.value
              + (paymentData.value + tx.calldata)))));
  }

  method DecodeCompressedTx(r: Reader) returns (tx: Result<CompressedTx, CodecError>)
    modifies r
    ensures tx == DecodedCompressedTx(old(r.rest))
  {
    var nonce := ReadBigInt(r);
    if nonce.Err? {
      return Err(nonce.error);
    }
    var gasPrice := ReadBigInt(r);
    if gasPrice.Err? {
      return Err(gasPrice.error);
    }
    var gasLimit := ReadBigInt(r);
    if gasLimit.Err? {
      return Err(gasLimit.error);
    }
    var address := DecodeAddress(r);
    if address.Err? {
      return Err(address.error);
    }
    var payment := DecodeAmount(r);
    if payment.Err? {
      return Err(payment.error);
    }
    ghost var unread := r.rest;
    var calldata := r.Read(|r.rest|);
    assert calldata == unread;
    tx := Ok(CompressedTx(nonce.value, gasPrice.value, gasLimit.value, address.value, payment.value, calldata));
  }

  // ----- Signatures -----

  function ZerosThen(k: nat, b: Bytes): (r: Bytes)
    ensures |r| == k + |b|
  {
    if k == 0 then b else [0] + ZerosThen(k - 1, b)
  }

  /** U256Bytes: the 32 bytes of a number modulo 2^256. */
  function U256Bytes(n: int): Bytes {
    var b := ToBytes(n % TWO_256);
    if |b| <= 32 then ZerosThen(32 - |b|, b) else b
  }

  function EncodedECDSASig(sig: Signature): Bytes {
    U256Bytes(sig.r) + U256Bytes(sig.s) + [sig.v]
  }

  function DecodedECDSASig(d: Bytes): Result<Signature, CodecError> {
    if |d| < 65 then Err(BadSignature) else Ok(Signature(d[64], FromBytes(d[..32]), FromBytes(d[32..64])))
  }

  method DecodeECDSASig(rd: Reader) returns (sig: Result<Signature, CodecError>)
    modifies rd
    ensures sig == DecodedECDSASig(old(rd.rest))
  {
    ghost var d := rd.rest;
    var rData := rd.Read(32);
    if |rData| != 32 {
      return Err(BadSignature);
    }
    var sData := rd.Read(32);
    if |sData| != 32 {
      return Err(BadSignature);
    }
    assert sData == d[32..64];
    var vData := rd.Read(1);
    if |vData| != 1 {
      return Err(BadSignature);
    }
    sig := Ok(Signature(vData[0], FromBytes(rData), FromBytes(sData)));
  }

  // ----- Signed transactions -----

  /** CompressedECDSATransaction.AsData. */
  function AsData(t: CompressedECDSATransaction): Result<Bytes, RlpError> {
    match EncodedUnsignedTx(t.tx)
    case Err(e) => Err(e)
    case Ok(txData) => Ok([0xff] + txData + EncodedECDSASig(t.sig))
  }

  function FromData(data: Bytes): Result<CompressedECDSATransaction, CodecError> {
    if |data| < 66 then Err(TooShort)
    else if data[0] != 0xff then Err(FunctionTableUnsupported)
    else
      match DecodedCompressedTx(data[1..|data| - 65])
      case Err(e) => Err(e)
      case Ok(tx) =>
        match DecodedECDSASig(data[|data| - 65..])
        case Err(e) => Err(e)
        case Ok(sig) => Ok(CompressedECDSATransaction(tx, sig))
  }

  /** newCompressedECDSATxFromData. */
  method NewCompressedECDSATxFromData(data: Bytes) returns (t: Result<CompressedECDSATransaction, CodecError>)
    ensures t == FromData(data)
    ensures |data| < 66 ==> t == Err(TooShort)
    ensures |data| >= 66 && data[0] != 0xff ==> t == Err(FunctionTableUnsupported)
  {
    if |data| < 66 {
      return Err(TooShort);
    }
    if data[0] != 0xff {
      return Err(FunctionTableUnsupported);
    }
    var txReader := new Reader(data[1..|data| - 65]);
    var compressedTx := DecodeCompressedTx(txReader);
    if compressedTx.Err? {
      return Err(compressedTx.error);
    }
    var sigReader := new Reader(data[|data| - 65..]);
    var sig := DecodeECDSASig(sigReader);
    t := match sig case Err(e) => Err(e) case Ok(s) => Ok(CompressedECDSATransaction(compressedTx.value, s));
  }
}
