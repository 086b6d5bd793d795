/** Batches of transactions, each preceded by its length (TransactionBatch in packages/arb-evm/message/l2Message.go). */
module TransactionBatch {
  import opened Hashing
  import opened Rlp

  function EncodedLength(tx: Bytes): Bytes {
    EncodeInt(|tx|).value
  }

  function Packed(tx: Bytes): Bytes {
    EncodedLength(tx) + tx
  }

  function Encode(transactions: seq<Bytes>): Bytes {
    if transactions == [] then [] else Packed(transactions[0]) + Encode(transactions[1..])
  }

  /** The first transaction of some data: none when its length does not parse or more is announced than there is. */
  function First(d: Bytes): (r: Option<(Bytes, Bytes)>)
    ensures r.Some? ==> |r.value.1| < |d|
  {
    match DecodeInt(d)
    case Err(_) => None
    case Ok((n, rest)) =>
      ReadingShrinks(d);
      if n > |rest| then None else Some((rest[..n], rest[n..]))
  }

  function Decode(d: Bytes): seq<Bytes>
    decreases |d|
  {
    match First(d)
    case None => []
    case Some((tx, rest)) => [tx] + Decode(rest)
  }

  /** What Decode leaves unread, as the position before the length it could not use. */
  function Unread(d: Bytes): Bytes
    decreases |d|
  {
    match First(d)
    case None => d
    case Some((_, rest)) => Unread(rest)
  }

  /** TransactionBatch.AsDataSafe. */
  method AsDataSafe(transactions: seq<Bytes>) returns (ret: Bytes)
    ensures ret == Encode(transactions)
  {
    ret := [];
    for i := 0 to |transactions|
      invariant ret + Encode(transactions[i..]) == Encode(transactions)
    {
      var tx := transactions[i];
      assert transactions[i..][1..] == transactions[i + 1..];
      Associate(ret, Packed(tx), Encode(transactions[i + 1..]));
      Associate(ret, EncodedLength(tx), tx);
      var encodedLength := EncodeInt(|tx|);
      ret := ret + encodedLength.value;
      ret := ret + tx;
    }
    assert ret + [] == ret;
  }

  lemma NextTransaction(txes: seq<Bytes>, d: Bytes)
    ensures match First(d)
      case None => txes + Decode(d) == txes
      case Some((tx, rest)) => txes + Decode(d) == txes + [tx] + Decode(rest)
  {
    if First(d).Some? {
      var (tx, rest) := First(d).value;
      assert txes + ([tx] + Decode(rest)) == txes + [tx] + Decode(rest);
    }
  }

  /** One turn of the loop of newTransactionBatchFromData; None is leaving it. */
  method ReadTransaction(r: Reader) returns (tx: Option<Bytes>)
    modifies r
    ensures match First(old(r.rest))
      case None => tx == None
      case Some((first, rest)) => tx == Some(first) && r.rest == rest
  {
    var msgLength := r.DecodeBigInt();
    if msgLength.Err? || |r.rest| < msgLength.value {
      return None;
    }
    var txData := r.Read(msgLength.value);
    tx := Some(txData);
  }

  /** newTransactionBatchFromData. */
  method NewTransactionBatchFromData(data: Bytes) returns (txes: seq<Bytes>)
    ensures txes == Decode(data)
  {
    txes := [];
    var r := new Reader(data);
    while true
      invariant fresh(r)
      invariant txes + Decode(r.rest) == Decode(data)
      decreases |r.rest|
    {
      NextTransaction(txes, r.rest);
      var tx := ReadTransaction(r);
      if tx == None {
        break;
      }
      txes := txes + [tx.value];
    }
  }

  // ----- Round trips -----

  /** Go's lengths are ints. */
  predicate FitLengths(transactions: seq<Bytes>) {
    forall tx :: tx in transactions ==> FitsLength(tx)
  }

  lemma FirstOf(tx: Bytes, d: Bytes)
    requires FitsLength(tx)
    ensures First(Packed(tx) + d) == Some((tx, d))
  {
    LengthBytes(|tx|);
    IntRoundTrip(|tx|, tx + d);
    Associate(EncodedLength(tx), tx, d);
    assert (tx + d)[..|tx|] == tx && (tx + d)[|tx|..] == d;
  }

  lemma FirstOfMany(transactions: seq<Bytes>, d: Bytes)
    requires transactions != [] && FitsLength(transactions[0])
    ensures First(Encode(transactions) + d) == Some((transactions[0], Encode(transactions[1..]) + d))
  {
    FirstOf(transactions[0], Encode(transactions[1..]) + d);
    Associate(Packed(transactions[0]), Encode(transactions[1..]), d);
  }

  /** What is written first is the length of the first transaction, then the transaction. */
  lemma StartsWithLength(tx: Bytes, transactions: seq<Bytes>, d: Bytes)
    requires FitsLength(tx)
    ensures DecodeInt(Encode([tx] + transactions) + d) == Ok((|tx|, tx + (Encode(transactions) + d)))
  {
    var rest := Encode(transactions) + d;
    assert ([tx] + transactions)[1..] == transactions;
    LengthBytes(|tx|);
    IntRoundTrip(|tx|, tx + rest);
    Associate(Packed(tx), Encode(transactions), d);
    Associate(EncodedLength(tx), tx, rest);
  }

  lemma Step(d: Bytes, tx: Bytes, rest: Bytes)
    requires First(d) == Some((tx, rest))
    ensures Decode(d) == [tx] + Decode(rest) && Unread(d) == Unread(rest)
  {
  }

  lemma Prepend(s: seq<Bytes>, t: seq<Bytes>)
    requires s != []
    ensures [s[0]] + (s[1..] + t) == s + t
  {
  }

  /** `transactions` are read one after the other from the front of the data, which leaves `rest`. */
  ghost predicate ReadOff(d: Bytes, transactions: seq<Bytes>, rest: Bytes)
    decreases |transactions|
  {
    if transactions == [] then d == rest
    else First(d).Some? && First(d).value.0 == transactions[0] && ReadOff(First(d).value.1, transactions[1..], rest)
  }

  lemma {:induction false} EncodedIsReadOff(transactions: seq<Bytes>, d: Bytes)
    requires FitLengths(transactions)
    ensures ReadOff(Encode(transactions) + d, transactions, d)
  {
    if transactions == [] {
      assert Encode(transactions) + d == d;
    } else {
      FirstOfMany(transactions, d);
      EncodedIsReadOff(transactions[1..], d);
    }
  }

  lemma {:induction false} DecodeReadsOff(d: Bytes, transactions: seq<Bytes>, rest: Bytes)
    requires ReadOff(d, transactions, rest)
    ensures Decode(d) == transactions + Decode(rest) && Unread(d) == Unread(rest)
    decreases |transactions|
  {
    if transactions == [] {
      assert [] + Decode(rest) == Decode(rest);
    } else {
      var next := First(d).value.1;
      Step(d, transactions[0], next);
      DecodeReadsOff(next, transactions[1..], rest);
      Prepend(transactions, Decode(rest));
    }
  }

  /** Decoding an encoded list gives the list, and goes on with whatever follows. */
  lemma DecodeUndoesEncode(transactions: seq<Bytes>, d: Bytes)
    requires FitLengths(transactions)
    ensures Decode(Encode(transactions) + d) == transactions + Decode(d)
    ensures Unread(Encode(transactions) + d) == Unread(d)
  {
    EncodedIsReadOff(transactions, d);
    DecodeReadsOff(Encode(transactions) + d, transactions, d);
  }

  lemma FirstIsCanonical(d: Bytes)
    requires First(d).Some?
    ensures var (tx, rest) := First(d).value;
      d == Packed(tx) + rest
  {
    IntIsCanonical(d);
    var (n, rest) := DecodeInt(d).value;
    assert rest == rest[..n] + rest[n..];
    Associate(EncodedLength(rest[..n]), rest[..n], rest[n..]);
  }

  /** Re-encoding what was decoded gives back the data, up to an end in which nothing can be read. */
  lemma {:induction false} EncodeUndoesDecode(d: Bytes)
    ensures d == Encode(Decode(d)) + Unread(d)
    ensures First(Unread(d)) == None && Decode(Unread(d)) == []
    decreases |d|
  {
    if First(d).Some? {
      var (tx, rest) := First(d).value;
      EncodeUndoesDecode(rest);
      FirstIsCanonical(d);
      assert Decode(d)[1..] == Decode(rest);
      Associate(Packed(tx), Encode(Decode(rest)), Unread(rest));
    } else {
      assert [] + d == d;
    }
  }

  lemma {:induction false} DecodedFitLengths(d: Bytes)
    requires FitsLength(d)
    ensures FitLengths(Decode(d))
    decreases |d|
  {
    if First(d).Some? {
      FirstIsCanonical(d);
      DecodedFitLengths(First(d).value.1);
    }
  }

  /** Decoding is fully determined: a list is what data decodes to just when the data is its encoding and a dead end. */
  lemma DecodesTo(d: Bytes, transactions: seq<Bytes>)
    requires FitsLength(d)
    ensures Decode(d) == transactions <==>
      FitLengths(transactions) && exists end :: d == Encode(transactions) + end && First(end) == None
  {
    EncodeUndoesDecode(d);
    DecodedFitLengths(d);
    forall end | FitLengths(transactions) && d == Encode(transactions) + end && First(end) == None
      ensures Decode(d) == transactions
    {
      DecodeUndoesEncode(transactions, end);
      assert transactions + [] == transactions;
    }
  }
}
