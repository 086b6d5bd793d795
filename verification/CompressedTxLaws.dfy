/** What comes back when a compressed transaction is encoded and decoded, and exactly when that is the transaction. */
module CompressedTxLaws {
  import opened Hashing
  import opened Rlp
  import opened CompressedTx

  // ----- Amounts -----

  lemma {:induction false} MantissaAndZeros(amount: nat)
    requires amount > 0
    ensures Mantissa(amount) > 0 && Mantissa(amount) % 10 != 0
    ensures Pow10(Zeros(amount)) * Mantissa(amount) == amount
  {
    if amount % 10 == 0 {
      MantissaAndZeros(amount / 10);
      var p, m := Pow10(Zeros(amount / 10)), Mantissa(amount / 10);
      assert 10 * p * m == 10 * (p * m);
    }
  }

  lemma {:induction false} Pow10Grows(j: nat, k: nat)
    requires j < k
    ensures Pow10(j) < Pow10(k)
  {
    if j + 1 < k {
      Pow10Grows(j, k - 1);
    }
  }

  /** The amount read back: the count of zeros has lost its multiples of 256. */
  function ReturnedAmount(amount: nat): nat {
    if amount == 0 then 0 else Pow10(Zeros(amount) % 0x100) * Mantissa(amount)
  }

  lemma MoreOf(p: nat, q: nat, m: nat)
    requires p < q && m > 0
    ensures p * m < q * m
  {
  }

  lemma FewEnough(z: nat, m: nat)
    requires m > 0
    ensures Pow10(z % 0x100) * m == Pow10(z) * m <==> z < 0x100
  {
    if z >= 0x100 {
      Pow10Grows(z % 0x100, z);
      MoreOf(Pow10(z % 0x100), Pow10(z), m);
    }
  }

  lemma AmountSurvives(amount: nat)
    ensures ReturnedAmount(amount) == amount <==> Zeros(amount) <= 255
  {
    if amount > 0 {
      MantissaAndZeros(amount);
      FewEnough(Zeros(amount), Mantissa(amount));
    }
  }

  lemma IntComesBack(n: nat, e: Bytes, d: Bytes)
    requires FitsMemory(n) && e == EncodeInt(n).value
    ensures ReadInt(e + d) == Ok((n, d))
  {
    IntRoundTrip(n, d);
  }

  lemma AmountComesBack(amount: nat, e: Bytes, d: Bytes)
    requires FitsMemory(Mantissa(amount)) && e == EncodedAmount(amount).value
    ensures DecodedAmount(e + d) == Ok((ReturnedAmount(amount), d))
  {
    if amount == 0 {
      IntComesBack(0, e, d);
    } else {
      MantissaAndZeros(amount);
      var exp := (Zeros(amount) % 0x100) as byte;
      var data := EncodeInt(Mantissa(amount)).value;
      IntComesBack(Mantissa(amount), data, [exp] + d);
      Associate(data, [exp], d);
      assert ([exp] + d)[1..] == d;
    }
  }

  // ----- Addresses -----

  /** What stands for the address in the encoding. */
  function AddressBytes(to: Option<CompressedAddress>): Bytes
    requires EncodedTo(to).Ok?
  {
    match to
    case None => []
    case Some(Index(n)) => ToBytes(n)
    case Some(Full(address)) => address
  }

  lemma ToComesBack(to: Option<CompressedAddress>, e: Bytes, d: Bytes)
    requires EncodedTo(to) == Ok(e) && FitsLength(AddressBytes(to))
    ensures DecodedTo(e + d) ==
      match AddressOf(AddressBytes(to)) case Err(err) => Err(err) case Ok(returned) => Ok((returned, d))
  {
    assert e == EncodeString(AddressBytes(to));
    StringRoundTrip(AddressBytes(to), d);
  }

  /** An index has to be positive and below 2^152. */
  predicate AddressFits(to: Option<CompressedAddress>) {
    to.Some? && to.value.Index? ==> 0 < to.value.n < Pow256(19)
  }

  /** Index zero reads as no address, an index of 20 bytes as a full address, and longer ones do not parse. */
  lemma ToSurvives(to: Option<CompressedAddress>)
    requires EncodedTo(to).Ok?
    ensures AddressOf(AddressBytes(to)) == Ok(to) <==> AddressFits(to)
  {
    if to.Some? && to.value.Index? {
      BytesAreFew(to.value.n, 19);
      BytesAreFew(to.value.n, 0);
      NumberOfItsBytes(to.value.n);
    }
  }

  // ----- Signatures -----

  lemma {:induction false} ZerosAreWorthless(k: nat, b: Bytes)
    ensures FromBytes(ZerosThen(k, b)) == FromBytes(b)
  {
    if k > 0 {
      ZerosAreWorthless(k - 1, b);
      LeadingZero(ZerosThen(k - 1, b));
    }
  }

  lemma {:induction false} LeadingZero(b: Bytes)
    ensures FromBytes([0] + b) == FromBytes(b)
  {
    var z: Bytes := [0];
    if b == [] {
      assert z + b == z && z[..0] == [];
    } else {
      assert (z + b)[..|b|] == z + b[..|b| - 1];
      LeadingZero(b[..|b| - 1]);
    }
  }

  lemma Pow256Of32()
    ensures Pow256(32) == TWO_256
  {
    assert Pow256(4) == 0x1_0000_0000;
    assert Pow256(8) == 0x1_0000_0000_0000_0000;
    assert Pow256(12) == 0x1_0000_0000_0000_0000_0000_0000;
    assert Pow256(16) == 0x1_0000_0000_0000_0000_0000_0000_0000_0000;
    assert Pow256(20) == 0x1_0000_0000_0000_0000_0000_0000_0000_0000_0000_0000;
    assert Pow256(24) == 0x1_0000_0000_0000_0000_0000_0000_0000_0000_0000_0000_0000_0000;
    assert Pow256(28) == 0x1_0000_0000_0000_0000_0000_0000_0000_0000_0000_0000_0000_0000_0000_0000;
  }

  lemma WordComesBack(n: int)
    ensures |U256Bytes(n)| == 32 && FromBytes(U256Bytes(n)) == n % TWO_256
  {
    var m := n % TWO_256;
    Pow256Of32();
    BytesAreFew(m, 32);
    NumberOfItsBytes(m);
    ZerosAreWorthless(32 - |ToBytes(m)|, ToBytes(m));
  }

  function ReturnedSig(sig: Signature): Signature {
    sig.(r := sig.r % TWO_256, s := sig.s % TWO_256)
  }

  lemma ThreeParts(r: Bytes, s: Bytes, v: Bytes)
    requires |r| == 32 && |s| == 32 && |v| == 1
    ensures (r + s + v)[..32] == r && (r + s + v)[32..64] == s && (r + s + v)[64] == v[0] && |r + s + v| == 65
  {
  }

  lemma SigComesBack(sig: Signature)
    ensures |EncodedECDSASig(sig)| == 65 && DecodedECDSASig(EncodedECDSASig(sig)) == Ok(ReturnedSig(sig))
  {
    WordComesBack(sig.r);
    WordComesBack(sig.s);
    ThreeParts(U256Bytes(sig.r), U256Bytes(sig.s), [sig.v]);
  }

  // ----- Transactions -----

  /** The integers are none that a machine could not hold. */
  predicate FitsTx(tx: CompressedTx)
    requires EncodedUnsignedTx(tx).Ok?
  {
    && FitsMemory(tx.sequenceNum) && FitsMemory(tx.gasPrice) && FitsMemory(tx.gasLimit)
    && FitsLength(AddressBytes(tx.to)) && FitsMemory(Mantissa(tx.payment))
  }

  lemma EncodesIffNonnegative(tx: CompressedTx)
    ensures EncodedUnsignedTx(tx).Ok? <==>
      && tx.sequenceNum >= 0 && tx.gasPrice >= 0 && tx.gasLimit >= 0 && tx.payment >= 0
      && (tx.to.Some? && tx.to.value.Index? ==> tx.to.value.n >= 0)
  {
  }

  /** The transaction that comes back. */
  function Returned(t: CompressedECDSATransaction): Result<CompressedECDSATransaction, CodecError>
    requires AsData(t).Ok?
  {
    EncodesIffNonnegative(t.tx);
    match AddressOf(AddressBytes(t.tx.to))
    case Err(e) => Err(e)
    case Ok(to) =>
      Ok(CompressedECDSATransaction(t.tx.(to := to, payment := ReturnedAmount(t.tx.payment)), ReturnedSig(t.sig)))
  }

  /** Five fields read one after the other make a transaction of what is left. */
  lemma FiveFields(d: Bytes, n: nat, d1: Bytes, p: nat, d2: Bytes, l: nat, d3: Bytes, d4: Bytes, amount: nat, d5: Bytes)
    requires ReadInt(d) == Ok((n, d1)) && ReadInt(d1) == Ok((p, d2)) && ReadInt(d2) == Ok((l, d3))
    requires DecodedTo(d3).Ok? ==> DecodedTo(d3).value.1 == d4
    requires DecodedAmount(d4) == Ok((amount, d5))
    ensures DecodedCompressedTx(d) ==
      match DecodedTo(d3) case Err(e) => Err(e) case Ok((to, _)) => Ok(CompressedTx(n, p, l, to, amount, d5))
  {
  }

  lemma TxComesBack(tx: CompressedTx)
    requires EncodedUnsignedTx(tx).Ok? && FitsTx(tx)
    ensures DecodedCompressedTx(EncodedUnsignedTx(tx).value) ==
      match AddressOf(AddressBytes(tx.to))
      case Err(e) => Err(e)
      case Ok(to) => Ok(tx.(to := to, payment := ReturnedAmount(tx.payment)))
  {
    var n, p, l := EncodeInt(tx.sequenceNum).value, EncodeInt(tx.gasPrice).value, EncodeInt(tx.gasLimit).value;
    var to, amount := EncodedTo(tx.to).value, EncodedAmount(tx.payment).value;
    var d4 := amount + tx.calldata;
    var d3 := to + d4;
    var d2 := l + d3;
    var d1 := p + d2;
    IntComesBack(tx.sequenceNum, n, d1);
    IntComesBack(tx.gasPrice, p, d2);
    IntComesBack(tx.gasLimit, l, d3);
    ToComesBack(tx.to, to, d4);
    AmountComesBack(tx.payment, amount, tx.calldata);
    FiveFields(n + d1, tx.sequenceNum, d1, tx.gasPrice, d2, tx.gasLimit, d3, d4, ReturnedAmount(tx.payment), tx.calldata);
  }

  lemma ThreeSegments(first: byte, body: Bytes, sig: Bytes)
    requires |sig| == 65
    ensures var data := [first] + body + sig;
      data[0] == first && data[1..|data| - 65] == body && data[|data| - 65..] == sig
  {
  }

  lemma SomeBytes(tx: CompressedTx)
    requires EncodedUnsignedTx(tx).Ok?
    ensures EncodedUnsignedTx(tx).value != []
  {
    var b := ToBytes(tx.sequenceNum);
    assert EncodeString(b) != [];
  }

  /** What is read back from an encoded transaction, in every case. */
  lemma DecodeAfterEncode(t: CompressedECDSATransaction)
    requires AsData(t).Ok? && FitsTx(t.tx)
    ensures FromData(AsData(t).value) == Returned(t)
  {
    var body, sig := EncodedUnsignedTx(t.tx).value, EncodedECDSASig(t.sig);
    SomeBytes(t.tx);
    SigComesBack(t.sig);
    TxComesBack(t.tx);
    ThreeSegments(0xff, body, sig);
  }

  lemma SigSurvives(sig: Signature)
    ensures ReturnedSig(sig) == sig <==> 0 <= sig.r < TWO_256 && 0 <= sig.s < TWO_256
  {
  }

  lemma ReturnedIsSame(t: CompressedECDSATransaction)
    requires AsData(t).Ok?
    ensures Returned(t) == Ok(t) <==>
      AddressFits(t.tx.to) && ReturnedAmount(t.tx.payment) == t.tx.payment && ReturnedSig(t.sig) == t.sig
  {
    ToSurvives(t.tx.to);
  }

  /**
   The round trip. A transaction survives exactly if its address, when it is an index, is positive and below 2^152, its
   payment has at most 255 zeros at its end, and its signature's numbers are 256-bit words.
   */
  lemma RoundTrip(t: CompressedECDSATransaction)
    requires AsData(t).Ok? && FitsTx(t.tx)
    ensures FromData(AsData(t).value) == Ok(t) <==>
      && AddressFits(t.tx.to)
      && Zeros(t.tx.payment) <= 255
      && 0 <= t.sig.r < TWO_256 && 0 <= t.sig.s < TWO_256
  {
    DecodeAfterEncode(t);
    ReturnedIsSame(t);
    AmountSurvives(t.tx.payment);
    SigSurvives(t.sig);
  }

  lemma {:induction false} MantissaHasNoZeros(amount: nat)
    ensures Mantissa(Mantissa(amount)) == Mantissa(amount) && Zeros(Mantissa(amount)) == 0
  {
    if amount > 0 {
      MantissaAndZeros(amount);
    }
  }

  lemma Regroup(first: Bytes, n: Bytes, p: Bytes, l: Bytes, to: Bytes, m: Bytes, zeros: Bytes, calldata: Bytes, sig: Bytes)
    ensures first + (n + (p + (l + (to + ((m + zeros) + calldata))))) + sig
         == (first + n + p + l + to + m) + zeros + (calldata + sig)
  {
    Associate(m, zeros, calldata);
    Associate(to, m, zeros + calldata);
    Associate(l, to + m, zeros + calldata);
    Associate(p, l + (to + m), zeros + calldata);
    Associate(n, p + (l + (to + m)), zeros + calldata);
  }

  lemma OneByteApart(front: Bytes, x: byte, y: byte, back: Bytes)
    ensures front + [x] + back == front + [y] + back <==> x == y
  {
    assert (front + [x] + back)[|front|] == x && (front + [y] + back)[|front|] == y;
  }

  /** The number of zeros of a positive payment is one byte of the encoding. */
  lemma Layout(t: CompressedECDSATransaction) returns (front: Bytes, back: Bytes)
    requires AsData(t).Ok? && t.tx.payment > 0
    ensures AsData(t).value == front + [(Zeros(t.tx.payment) % 0x100) as byte] + back
    ensures front == [0xff] + EncodeInt(t.tx.sequenceNum).value + EncodeInt(t.tx.gasPrice).value
                   + EncodeInt(t.tx.gasLimit).value + EncodedTo(t.tx.to).value + EncodeInt(Mantissa(t.tx.payment)).value
    ensures back == t.tx.calldata + EncodedECDSASig(t.sig)
  {
    var n, p, l := EncodeInt(t.tx.sequenceNum).value, EncodeInt(t.tx.gasPrice).value, EncodeInt(t.tx.gasLimit).value;
    var to, m := EncodedTo(t.tx.to).value, EncodeInt(Mantissa(t.tx.payment)).value;
    front, back := [0xff] + n + p + l + to + m, t.tx.calldata + EncodedECDSASig(t.sig);
    Regroup([0xff], n, p, l, to, m, [(Zeros(t.tx.payment) % 0x100) as byte], t.tx.calldata, EncodedECDSASig(t.sig));
  }

  /**
   encodeAmount leaves the mantissa in the transaction's own payment, so encoding the same transaction again gives the
   same bytes exactly if its number of zeros was written as nothing or as zero.
   */
  lemma EncodingAgain(t: CompressedECDSATransaction)
    requires AsData(t).Ok?
    ensures AsData(t.(tx := t.tx.(payment := Mantissa(t.tx.payment)))) == AsData(t) <==> Zeros(t.tx.payment) % 0x100 == 0
  {
    var again := t.(tx := t.tx.(payment := Mantissa(t.tx.payment)));
    MantissaHasNoZeros(t.tx.payment);
    if t.tx.payment > 0 {
      var front, back := Layout(t);
      var frontAgain, backAgain := Layout(again);
      OneByteApart(front, (Zeros(t.tx.payment) % 0x100) as byte, 0, back);
    }
  }
}
