/**
 The contract that takes batches in (packages/arb-bridge-eth/contracts/bridge/SequencerInbox.sol), with its unchecked
 uint256 arithmetic, and the node that reads the events: which accepted batches GetItems rebuilds.
 */
module SequencerInbox {
  import opened Hashing
  import opened SequencerBatch
  import opened SequencerBatchLaws

  // ----- The contract -----

  /**
   What a batch is checked against: the window of block numbers and times, whatever it is, and the accumulators of the
   delayed inbox. `memory` is what a hash covers that runs past the end of the transactions.
   */
  datatype Outer = Outer(timely: ChainTime -> bool, delayedAccs: seq<Hash>, memory: (nat, nat) -> Bytes)

  /** The inbox, processedItems, and how far dataOffset is past the start of the transactions. */
  datatype Cursor = Cursor(at: Spot, processed: nat, offset: nat)

  /** Words of calldata are uint256. */
  predicate AreWords(words: seq<int>) {
    forall w :: w in words ==> 0 <= w < TWO_256
  }

  function HashedBytes(outer: Outer, data: Bytes, offset: nat, length: nat): Bytes {
    if offset + length <= |data| then data[offset..offset + length] else outer.memory(offset, length)
  }

  /**
   The loop of calcL2Batch. None is a revert: an index outside of `lengths`, or the gas used up by a hash over 2^63 bytes
   or more.
   */
  function CalcL2Batch(h: Accumulators, outer: Outer, data: Bytes, lengths: seq<int>, i: nat, end: int, sender: int,
                       time: ChainTime, offset: nat, at: Spot): Option<(Spot, nat)>
    decreases end - i
  {
    if i >= end then Some((at, offset))
    else if i >= |lengths| || !(0 <= lengths[i] < TWO_63) then None
    else
      var acc := h.message(at.acc, at.next, sender, time, HashedBytes(outer, data, offset, lengths[i]));
      CalcL2Batch(h, outer, data, lengths, i + 1, end, sender, time, offset + lengths[i],
                  at.(next := at.next + 1, acc := acc))
  }

  /** includeDelayedMessages, called only when the new total is larger. */
  function IncludeDelayedMessages(h: Accumulators, newTotal: int, time: ChainTime, delayedAcc: Hash, at: Spot): Spot {
    var acc := h.delayed(at.acc, at.next, at.running, newTotal, delayedAcc);
    var count := at.next + newTotal - at.running;
    Spot(newTotal, count + 1, h.message(acc, count, 0, time, []))
  }

  /** Its checks: the delayed inbox has that many messages, with that accumulator. */
  predicate DelayedExist(outer: Outer, newTotal: int, delayedAcc: Hash) {
    0 < newTotal <= |outer.delayedAccs| && outer.delayedAccs[newTotal - 1] == delayedAcc
  }

  predicate TotalAllowed(outer: Outer, m: Metadata, running: int) {
    && m.newTotalDelayed >= running && m.newTotalDelayed >= 1
    && (running >= 1 || m.numItems == 0)
    && (m.newTotalDelayed > running ==> DelayedExist(outer, m.newTotalDelayed, m.newDelayedAcc))
  }

  function AddDelayed(h: Accumulators, m: Metadata, at: Spot): Spot {
    if m.newTotalDelayed > at.running then IncludeDelayedMessages(h, m.newTotalDelayed, m.chainTime, m.newDelayedAcc, at)
    else at
  }

  /** The count of processed items wraps around at 2^256. */
  function NextProcessed(processed: nat, numItems: int): nat {
    (processed + numItems) % TWO_256
  }

  /** The body of the loop of addSequencerL2BatchImpl. */
  function AddSection(h: Accumulators, outer: Outer, data: Bytes, lengths: seq<int>, m: Metadata, sender: int, c: Cursor)
    : Option<Cursor>
  {
    var end := NextProcessed(c.processed, m.numItems);
    match CalcL2Batch(h, outer, data, lengths, c.processed, end, sender, m.chainTime, c.offset, c.at)
    case None => None
    case Some((mid, offset)) =>
      if !outer.timely(m.chainTime) || !TotalAllowed(outer, m, mid.running) then None
      else Some(Cursor(AddDelayed(h, m, mid), end, offset))
  }

  /** The loop of addSequencerL2BatchImpl. */
  function AddSections(h: Accumulators, outer: Outer, data: Bytes, lengths: seq<int>, metas: seq<Metadata>, sender: int,
                       c: Cursor): Option<Cursor>
    decreases metas
  {
    if metas == [] then Some(c)
    else
      match AddSection(h, outer, data, lengths, metas[0], sender, c)
      case None => None
      case Some(next) => AddSections(h, outer, data, lengths, metas[1..], sender, next)
  }

  /** The sections as the contract reads them: five words each, a rest ignored. It has no use for itemCount. */
  function WordSections(meta: seq<int>): seq<Metadata> {
    if |meta| < 5 then []
    else [Metadata(meta[0], Count(meta[0]), ChainTime(meta[1], meta[2]), meta[3], meta[4])] + WordSections(meta[5..])
  }

  /** addSequencerL2Batch by the sequencer: the inbox after it, when it does not revert. */
  function AddSequencerL2Batch(h: Accumulators, outer: Outer, inbox: Spot, data: Bytes, lengths: seq<int>,
                               meta: seq<int>, sender: int, afterAcc: Hash): Option<Spot>
  {
    match AddSections(h, outer, data, lengths, WordSections(meta), sender, Cursor(inbox, 0, 0))
    case None => None
    case Some(c) =>
      if c.offset <= |data| && c.at.next > inbox.next && c.at.acc == afterAcc then Some(c.at) else None
  }

  /** forceInclusionImpl. */
  function ForceInclusion(h: Accumulators, outer: Outer, inbox: Spot, newTotal: int, time: ChainTime, delayedAcc: Hash)
    : Option<Spot>
  {
    if newTotal > inbox.running && DelayedExist(outer, newTotal, delayedAcc)
    then Some(IncludeDelayedMessages(h, newTotal, time, delayedAcc, inbox)) else None
  }

  // ----- What the contract hashes, the node cuts out -----

  lemma {:induction false} CalcAdvances(h: Accumulators, outer: Outer, data: Bytes, lengths: seq<int>, i: nat, end: int,
                                        sender: int, time: ChainTime, offset: nat, at: Spot)
    requires CalcL2Batch(h, outer, data, lengths, i, end, sender, time, offset, at).Some?
    ensures var (after, offset') := CalcL2Batch(h, outer, data, lengths, i, end, sender, time, offset, at).value;
      && offset' >= offset && after.running == at.running
      && after.next == at.next + (if end > i then end - i else 0)
    ensures end > i ==> end <= |lengths|
    decreases end - i
  {
    if i < end {
      var acc := h.message(at.acc, at.next, sender, time, HashedBytes(outer, data, offset, lengths[i]));
      CalcAdvances(h, outer, data, lengths, i + 1, end, sender, time, offset + lengths[i],
                   at.(next := at.next + 1, acc := acc));
    }
  }

  lemma SmallIsInt64(x: int)
    requires 0 <= x < TWO_63
    ensures Int64(x) == x && Count(x) == x
  {
  }

  /** The log carries the transactions of the call, with whatever follows them in the slice's capacity. */
  predicate Carries(b: Batch, data: Bytes, lengths: seq<int>) {
    b.transactionLengths == lengths && data <= b.transactionsData
  }

  lemma SameSlice(data: Bytes, more: Bytes, from: nat, to: nat)
    requires data <= more && from <= to <= |data|
    ensures more[from..to] == data[from..to]
  {
    forall k | from <= k < to ensures more[k] == data[k] {
      assert more[..|data|][k] == data[k];
    }
  }

  lemma OneMessageAhead(outer: Outer, b: Batch, data: Bytes, lengths: seq<int>, o: Offsets)
    requires Carries(b, data, lengths) && o.lengths < |lengths| && 0 <= lengths[o.lengths] < TWO_63
    requires o.data + lengths[o.lengths] <= |data|
    ensures MessagesAhead(b, o) == [HashedBytes(outer, data, o.data, lengths[o.lengths])]
                                   + MessagesAhead(b, Offsets(o.lengths + 1, o.data + lengths[o.lengths]))
  {
    var length := lengths[o.lengths];
    SmallIsInt64(length);
    NextMessage(b, o);
    SameSlice(data, b.transactionsData, o.data, o.data + length);
  }

  /** One turn of the loop of calcL2Batch. */
  lemma CalcOne(h: Accumulators, outer: Outer, data: Bytes, lengths: seq<int>, end: nat, sender: int, time: ChainTime,
                o: Offsets, at: Spot)
    returns (first: Bytes, moved: Offsets, next: Spot)
    requires o.lengths < end && CalcL2Batch(h, outer, data, lengths, o.lengths, end, sender, time, o.data, at).Some?
    ensures o.lengths < |lengths| && 0 <= lengths[o.lengths] < TWO_63
    ensures first == HashedBytes(outer, data, o.data, lengths[o.lengths])
    ensures moved == Offsets(o.lengths + 1, o.data + lengths[o.lengths])
    ensures next == at.(next := at.next + 1, acc := h.message(at.acc, at.next, sender, time, first))
    ensures CalcL2Batch(h, outer, data, lengths, o.lengths, end, sender, time, o.data, at)
         == CalcL2Batch(h, outer, data, lengths, moved.lengths, end, sender, time, moved.data, next)
  {
    first := HashedBytes(outer, data, o.data, lengths[o.lengths]);
    moved := Offsets(o.lengths + 1, o.data + lengths[o.lengths]);
    next := at.(next := at.next + 1, acc := h.message(at.acc, at.next, sender, time, first));
  }

  lemma MessagesStep(h: Accumulators, first: Bytes, rest: seq<Bytes>, m: Metadata, sender: int, at: Spot, next: Spot)
    requires next == at.(next := at.next + 1, acc := h.message(at.acc, at.next, sender, m.chainTime, first))
    ensures AfterMessages(h, Section([first] + rest, m), sender, at) == AfterMessages(h, Section(rest, m), sender, next)
  {
    var item := MessageItem(h, first, sender, m.chainTime, at.running, at.next, at.acc);
    assert ([first] + rest)[1..] == rest;
    var items := MessageItems(h, rest, sender, m.chainTime, at.(next := at.next + 1, acc := item.accumulator));
    assert LastAcc([item] + items, at.acc) == LastAcc(items, item.accumulator);
  }

  /** The messages calcL2Batch hashes. */
  lemma {:induction false} CalcHashes(h: Accumulators, outer: Outer, data: Bytes, lengths: seq<int>, m: Metadata,
                                      sender: int, o: Offsets, n: nat, at: Spot, after: Spot, offset: nat)
    returns (messages: seq<Bytes>)
    requires CalcL2Batch(h, outer, data, lengths, o.lengths, o.lengths + n, sender, m.chainTime, o.data, at)
          == Some((after, offset))
    ensures |messages| == n && after == AfterMessages(h, Section(messages, m), sender, at)
    ensures forall b :: Carries(b, data, lengths) && Inside(b, o) && offset <= |data| ==>
      Inside(b, Offsets(o.lengths + n, offset))
      && MessagesAhead(b, o) == messages + MessagesAhead(b, Offsets(o.lengths + n, offset))
    decreases n
  {
    messages := [];
    if n > 0 {
      var first, moved, next := CalcOne(h, outer, data, lengths, o.lengths + n, sender, m.chainTime, o, at);
      CalcAdvances(h, outer, data, lengths, moved.lengths, o.lengths + n, sender, m.chainTime, moved.data, next);
      var rest := CalcHashes(h, outer, data, lengths, m, sender, moved, n - 1, next, after, offset);
      MessagesStep(h, first, rest, m, sender, at, next);
      messages := [first] + rest;
      forall b | Carries(b, data, lengths) && Inside(b, o) && offset <= |data|
        ensures Inside(b, Offsets(o.lengths + n, offset))
        ensures MessagesAhead(b, o) == messages + MessagesAhead(b, Offsets(o.lengths + n, offset))
      {
        OneMessageAhead(outer, b, data, lengths, o);
        Associate([first], rest, MessagesAhead(b, Offsets(o.lengths + n, offset)));
      }
    }
  }

  /** Of the messages ahead, calcL2Batch takes the first, and stands where the node stands after them. */
  lemma CalcTakesMessages(h: Accumulators, outer: Outer, b: Batch, data: Bytes, lengths: seq<int>, m: Metadata,
                          sender: int, o: Offsets, n: nat, at: Spot, after: Spot, offset: nat)
    requires Carries(b, data, lengths) && Inside(b, o) && offset <= |data|
    requires CalcL2Batch(h, outer, data, lengths, o.lengths, o.lengths + n, sender, m.chainTime, o.data, at)
          == Some((after, offset))
    ensures var ahead := MessagesAhead(b, o);
      && n <= |ahead| && Inside(b, Offsets(o.lengths + n, offset))
      && MessagesAhead(b, Offsets(o.lengths + n, offset)) == ahead[n..]
      && after == AfterMessages(h, Section(ahead[..n], m), sender, at)
  {
    var messages := CalcHashes(h, outer, data, lengths, m, sender, o, n, at, after, offset);
    var left := MessagesAhead(b, Offsets(o.lengths + n, offset));
    assert (messages + left)[..n] == messages && (messages + left)[n..] == left;
  }

  /** NewDelayedItem hashes the sequence number the contract counts from. */
  lemma DelayedItemsMatch(h: Accumulators, s: Section, sender: int, at: Spot)
    requires at.running <= s.meta.newTotalDelayed
    ensures AfterSection(h, s, sender, at) == AddDelayed(h, s.meta, AfterMessages(h, s, sender, at))
  {
    var mid := AfterMessages(h, s, sender, at);
    LastAccAppend(MessageItems(h, s.messages, sender, s.meta.chainTime, at), DelayedItems(h, s.meta, mid), at.acc);
  }

  // ----- Counts that wrap around -----

  /** The items announced by sections whose count wraps around: the contract takes none of them. */
  function Wrapped(metas: seq<Metadata>, processed: nat): int {
    if metas == [] then 0
    else (if processed + metas[0].numItems >= TWO_256 then metas[0].numItems else 0)
         + Wrapped(metas[1..], NextProcessed(processed, metas[0].numItems))
  }

  predicate AreCounts(metas: seq<Metadata>) {
    forall m :: m in metas ==> 0 <= m.numItems < TWO_256
  }

  lemma SumWraps(processed: nat, numItems: int)
    requires 0 <= processed < TWO_256 && 0 <= numItems < TWO_256
    ensures NextProcessed(processed, numItems) ==
      processed + numItems - if processed + numItems >= TWO_256 then TWO_256 else 0
  {
  }

  /** One accepted section: what it advances, and that its count wraps exactly if it exceeds the number of lengths. */
  lemma SectionAdvances(h: Accumulators, outer: Outer, data: Bytes, lengths: seq<int>, m: Metadata, sender: int, c: Cursor)
    requires 0 <= m.numItems < TWO_256 && |lengths| < TWO_63 && c.processed <= |lengths|
    requires AddSection(h, outer, data, lengths, m, sender, c).Some?
    ensures var next := AddSection(h, outer, data, lengths, m, sender, c).value;
      var wraps := c.processed + m.numItems >= TWO_256;
      && next.processed == NextProcessed(c.processed, m.numItems) <= |lengths|
      && next.offset >= c.offset && c.at.running <= m.newTotalDelayed == next.at.running
      && (wraps <==> m.numItems > |lengths|)
      && next.at.next == c.at.next + (if wraps then 0 else m.numItems) + DelayedSpan(m.newTotalDelayed, c.at.running)
  {
    var end := NextProcessed(c.processed, m.numItems);
    SumWraps(c.processed, m.numItems);
    CalcAdvances(h, outer, data, lengths, c.processed, end, sender, m.chainTime, c.offset, c.at);
  }

  /** Where accepted sections arrive. */
  lemma {:induction false} AcceptedSpan(h: Accumulators, outer: Outer, data: Bytes, lengths: seq<int>,
                                        metas: seq<Metadata>, sender: int, c: Cursor)
    requires AreCounts(metas) && |lengths| < TWO_63 && c.processed <= |lengths|
    requires AddSections(h, outer, data, lengths, metas, sender, c).Some?
    ensures var end := AddSections(h, outer, data, lengths, metas, sender, c).value;
      && end.offset >= c.offset && NondecreasingFrom(metas, c.at.running)
      && end.at.next == c.at.next + MetaSpan(metas, c.at.running) - Wrapped(metas, c.processed)
    ensures Wrapped(metas, c.processed) == 0 <==> forall m :: m in metas ==> m.numItems <= |lengths|
    ensures Wrapped(metas, c.processed) != 0 ==> Wrapped(metas, c.processed) > TWO_256 - TWO_63
    decreases metas
  {
    if metas != [] {
      assert metas[0] in metas && AreCounts(metas[1..]);
      SectionAdvances(h, outer, data, lengths, metas[0], sender, c);
      AcceptedSpan(h, outer, data, lengths, metas[1..], sender,
                   AddSection(h, outer, data, lengths, metas[0], sender, c).value);
      assert forall m :: m in metas ==> m == metas[0] || m in metas[1..];
    }
  }

  // ----- Accepted batches -----

  lemma MessagesAndDelayed(h: Accumulators, outer: Outer, b: Batch, data: Bytes, lengths: seq<int>, m: Metadata,
                           sender: int, o: Offsets, n: nat, at: Spot, mid: Spot, offset: nat)
    requires Carries(b, data, lengths) && Inside(b, o) && offset <= |data|
    requires CalcL2Batch(h, outer, data, lengths, o.lengths, o.lengths + n, sender, m.chainTime, o.data, at)
          == Some((mid, offset))
    requires m.newTotalDelayed >= at.running
    ensures var ahead := MessagesAhead(b, o);
      && n <= |ahead| && Inside(b, Offsets(o.lengths + n, offset))
      && MessagesAhead(b, Offsets(o.lengths + n, offset)) == ahead[n..]
      && AddDelayed(h, m, mid) == AfterSection(h, Section(ahead[..n], m), sender, at)
  {
    CalcTakesMessages(h, outer, b, data, lengths, m, sender, o, n, at, mid, offset);
    DelayedItemsMatch(h, Section(MessagesAhead(b, o)[..n], m), sender, at);
  }

  /** One section accepted without wrapping around is read by the node, and both stand in the same place afterwards. */
  lemma SectionIsRead(h: Accumulators, outer: Outer, b: Batch, data: Bytes, lengths: seq<int>, m: Metadata, sender: int,
                      c: Cursor, n: nat, next: Cursor)
    requires Carries(b, data, lengths) && Inside(b, Offsets(c.processed, c.offset))
    requires n == m.numItems && NextProcessed(c.processed, m.numItems) == c.processed + n
    requires AddSection(h, outer, data, lengths, m, sender, c) == Some(next) && next.offset <= |data|
    ensures var ahead := MessagesAhead(b, Offsets(c.processed, c.offset));
      && n <= |ahead| && Inside(b, Offsets(next.processed, next.offset))
      && MessagesAhead(b, Offsets(next.processed, next.offset)) == ahead[n..]
      && next.at == AfterSection(h, Section(ahead[..n], m), sender, c.at)
  {
    var (mid, offset) := CalcL2Batch(h, outer, data, lengths, c.processed, c.processed + n, sender, m.chainTime, c.offset,
                                     c.at).value;
    CalcAdvances(h, outer, data, lengths, c.processed, c.processed + n, sender, m.chainTime, c.offset, c.at);
    MessagesAndDelayed(h, outer, b, data, lengths, m, sender, Offsets(c.processed, c.offset), n, c.at, mid, offset);
  }

  lemma ReadOne(h: Accumulators, ahead: seq<Bytes>, metas: seq<Metadata>, sender: int, at: Spot)
    requires metas != [] && metas[0].itemCount <= |ahead| && ReadSections(ahead[metas[0].itemCount..], metas[1..]).Some?
    ensures ReadSections(ahead, metas).Some?
    ensures var n := metas[0].itemCount;
      AfterSections(h, ReadSections(ahead, metas).value, sender, at) ==
        AfterSections(h, ReadSections(ahead[n..], metas[1..]).value, sender,
                      AfterSection(h, Section(ahead[..n], metas[0]), sender, at))
  {
    var n := metas[0].itemCount;
    var rest := ReadSections(ahead[n..], metas[1..]).value;
    assert ([Section(ahead[..n], metas[0])] + rest)[1..] == rest;
  }

  /** What the contract accepts without wrapping around, the node reads, and both stand in the same place afterwards. */
  lemma {:induction false} AcceptedSectionsAreRead(h: Accumulators, outer: Outer, b: Batch, data: Bytes,
                                                   lengths: seq<int>, metas: seq<Metadata>, sender: int, c: Cursor)
    requires Carries(b, data, lengths) && |lengths| < TWO_63 && c.processed <= |lengths|
    requires AreCounts(metas) && forall m :: m in metas ==> m.numItems <= |lengths| && m.itemCount == Count(m.numItems)
    requires AddSections(h, outer, data, lengths, metas, sender, c).Some?
    requires AddSections(h, outer, data, lengths, metas, sender, c).value.offset <= |data|
    ensures FitInt64(metas) && Inside(b, Offsets(c.processed, c.offset))
    ensures var secs := ReadSections(MessagesAhead(b, Offsets(c.processed, c.offset)), metas);
      secs.Some? && AddSections(h, outer, data, lengths, metas, sender, c).value.at
                 == AfterSections(h, secs.value, sender, c.at)
    decreases metas
  {
    AcceptedSpan(h, outer, data, lengths, metas, sender, c);
    if metas != [] {
      var m := metas[0];
      var next := AddSection(h, outer, data, lengths, m, sender, c).value;
      assert m in metas && AreCounts(metas[1..]);
      SmallIsInt64(m.numItems);
      SectionAdvances(h, outer, data, lengths, m, sender, c);
      AcceptedSpan(h, outer, data, lengths, metas[1..], sender, next);
      SumWraps(c.processed, m.numItems);
      SectionIsRead(h, outer, b, data, lengths, m, sender, c, m.numItems, next);
      AcceptedSectionsAreRead(h, outer, b, data, lengths, metas[1..], sender, next);
      ReadOne(h, MessagesAhead(b, Offsets(c.processed, c.offset)), metas, sender, c.at);
      assert forall x :: x in metas ==> x == m || x in metas[1..];
    }
  }

  /** The batch logsToBatchRefs makes of a SequencerBatchDelivered event, over a slice with `spare` bytes of capacity. */
  function Delivered(inbox: Spot, data: Bytes, spare: Bytes, lengths: seq<int>, meta: seq<int>, sender: int,
                     afterCount: int, afterAcc: Hash): Batch
  {
    Batch(data + spare, lengths, meta, inbox.next, inbox.acc, afterCount, afterAcc, sender)
  }

  /** Every announced count is one of messages the call has lengths for. */
  predicate CountsAreTrue(meta: seq<int>, lengths: seq<int>) {
    forall m :: m in Metadatas(meta) ==> m.numItems <= |lengths|
  }

  /** The inbox before the batch, and calldata of a possible size. */
  predicate Possible(outer: Outer, inbox: Spot, lengths: seq<int>, meta: seq<int>) {
    && 0 <= inbox.running <= |outer.delayedAccs| < TWO_63
    && |lengths| < TWO_63 && AreWords(meta)
  }

  lemma MetadataWords(meta: seq<int>)
    requires AreWords(meta)
    ensures AreCounts(Metadatas(meta))
    ensures forall m :: m in Metadatas(meta) ==> m.itemCount == Count(m.numItems)
  {
    forall m | m in Metadatas(meta) ensures 0 <= m.numItems < TWO_256 && m.itemCount == Count(m.numItems) {
      var k :| 0 <= k < |meta| / 5 && Metadatas(meta)[k] == m;
      assert meta[5 * k] in meta;
    }
  }

  /** The node reads the same sections. */
  lemma {:induction false} SectionsParsedAlike(meta: seq<int>)
    requires AreWords(meta)
    ensures WordSections(meta) == Metadatas(meta)
  {
    if |meta| >= 5 {
      forall w | w in meta[5..] ensures 0 <= w < TWO_256 {
        assert w in meta;
      }
      SectionsParsedAlike(meta[5..]);
      CutMetadata(meta, 1);
      assert meta[4] in meta;
      assert Metadatas(meta) == [Metadatas(meta)[0]] + Metadatas(meta)[1..];
    }
  }

  /** A batch with true counts fits: the inferred delayed count is the contract's own. */
  lemma TrueCountsFit(h: Accumulators, outer: Outer, inbox: Spot, data: Bytes, spare: Bytes, lengths: seq<int>,
                      meta: seq<int>, sender: int, c: Cursor)
    requires Possible(outer, inbox, lengths, meta) && CountsAreTrue(meta, lengths)
    requires AddSections(h, outer, data, lengths, Metadatas(meta), sender, Cursor(inbox, 0, 0)) == Some(c)
    requires c.offset <= |data| && c.at.next > inbox.next
    ensures var b := Delivered(inbox, data, spare, lengths, meta, sender, c.at.next, c.at.acc);
      Fits(b, inbox.running) && Sections(b).Some? && c.at == AfterSections(h, Sections(b).value, sender, inbox)
  {
    var b, metas := Delivered(inbox, data, spare, lengths, meta, sender, c.at.next, c.at.acc), Metadatas(meta);
    MetadataWords(meta);
    AcceptedSpan(h, outer, data, lengths, metas, sender, Cursor(inbox, 0, 0));
    AcceptedSectionsAreRead(h, outer, b, data, lengths, metas, sender, Cursor(inbox, 0, 0));
    assert b.transactionsData[0..] == b.transactionsData && lengths[0..] == lengths;
  }

  lemma {:induction false} FirstTotalIsSmall(h: Accumulators, outer: Outer, data: Bytes, lengths: seq<int>,
                                             metas: seq<Metadata>, sender: int, c: Cursor)
    requires metas != [] && AreCounts(metas) && |lengths| < TWO_63 && c.processed <= |lengths|
    requires 0 <= c.at.running <= |outer.delayedAccs| < TWO_63
    requires AddSections(h, outer, data, lengths, metas, sender, c).Some?
    ensures DelayedSpan(metas[0].newTotalDelayed, c.at.running) <= TWO_63
  {
    assert metas[0] in metas;
    SectionAdvances(h, outer, data, lengths, metas[0], sender, c);
    CalcAdvances(h, outer, data, lengths, c.processed, NextProcessed(c.processed, metas[0].numItems), sender,
                 metas[0].chainTime, c.offset, c.at);
  }

  /** A count that wraps around leaves more announced than can be accounted for. */
  lemma FalseCountsFail(h: Accumulators, outer: Outer, inbox: Spot, data: Bytes, spare: Bytes, lengths: seq<int>,
                        meta: seq<int>, sender: int, c: Cursor)
    requires Possible(outer, inbox, lengths, meta) && !CountsAreTrue(meta, lengths)
    requires AddSections(h, outer, data, lengths, Metadatas(meta), sender, Cursor(inbox, 0, 0)) == Some(c)
    ensures Items(h, Delivered(inbox, data, spare, lengths, meta, sender, c.at.next, c.at.acc)) == Err(NegativeUnaccounted)
  {
    var metas := Metadatas(meta);
    MetadataWords(meta);
    AcceptedSpan(h, outer, data, lengths, metas, sender, Cursor(inbox, 0, 0));
    FirstTotalIsSmall(h, outer, data, lengths, metas, sender, Cursor(inbox, 0, 0));
    SpanIsFirstAndLater(metas, inbox.running);
  }

  /**
   The node on a batch the contract accepted: it rebuilds the items, with the contract's own count of delayed messages as
   the inferred prior count, and ends where the contract ends, exactly if no announced count exceeds the number of
   lengths. Such a count is accepted when it wraps around, and then GetItems fails.
   */
  lemma AcceptedBatchIsRebuilt(h: Accumulators, outer: Outer, inbox: Spot, data: Bytes, spare: Bytes, lengths: seq<int>,
                               meta: seq<int>, sender: int, afterAcc: Hash)
    requires Possible(outer, inbox, lengths, meta)
    requires AddSequencerL2Batch(h, outer, inbox, data, lengths, meta, sender, afterAcc).Some?
    ensures var after := AddSequencerL2Batch(h, outer, inbox, data, lengths, meta, sender, afterAcc).value;
      var b := Delivered(inbox, data, spare, lengths, meta, sender, after.next, afterAcc);
      && (Items(h, b).Ok? <==> CountsAreTrue(meta, lengths))
      && (Items(h, b).Err? ==> Items(h, b).error == NegativeUnaccounted)
      && (Items(h, b).Ok? ==>
            && Sections(b).Some? && Metadatas(meta) != []
            && PriorDelayed(Metadatas(meta), b.afterCount - b.beforeCount) == inbox.running
            && Items(h, b).value.0 == BatchItems(h, Sections(b).value, sender, inbox)
            && AfterSections(h, Sections(b).value, sender, inbox) == after)
  {
    var after := AddSequencerL2Batch(h, outer, inbox, data, lengths, meta, sender, afterAcc).value;
    var b := Delivered(inbox, data, spare, lengths, meta, sender, after.next, afterAcc);
    SectionsParsedAlike(meta);
    var c := AddSections(h, outer, data, lengths, Metadatas(meta), sender, Cursor(inbox, 0, 0)).value;
    if CountsAreTrue(meta, lengths) {
      TrueCountsFit(h, outer, inbox, data, spare, lengths, meta, sender, c);
      FittingIsChecked(h, b, inbox.running, Sections(b).value);
      PriorCountIsRecovered(Metadatas(meta), b.afterCount - b.beforeCount, inbox.running);
    } else {
      FalseCountsFail(h, outer, inbox, data, spare, lengths, meta, sender, c);
    }
  }

  // ----- A batch the node cannot read -----

  /** One message, and a second section whose count of 2^256 - 1 wraps the first one back. */
  function WrappingMeta(total: int): seq<int> {
    [1, 0, 0, total, 0, TWO_256 - 1, 0, 0, total, 0]
  }

  /** Where the contract stands after the first section, and, since the second wraps around to nothing, after both. */
  function AfterOneMessage(h: Accumulators, inbox: Spot, sender: int): Spot {
    Spot(inbox.running, inbox.next + 1, h.message(inbox.acc, inbox.next, sender, ChainTime(0, 0), [7]))
  }

  lemma WrappingSections(h: Accumulators, outer: Outer, inbox: Spot, sender: int, m1: Metadata, m2: Metadata)
    requires 1 <= inbox.running <= |outer.delayedAccs| < TWO_63 && outer.timely(ChainTime(0, 0))
    requires m1 == Metadata(1, Count(1), ChainTime(0, 0), inbox.running, 0)
    requires m2 == Metadata(TWO_256 - 1, Count(TWO_256 - 1), ChainTime(0, 0), inbox.running, 0)
    ensures AddSections(h, outer, [7], [1], [m1, m2], sender, Cursor(inbox, 0, 0))
         == Some(Cursor(AfterOneMessage(h, inbox, sender), 0, 1))
  {
    var data: Bytes, after := [7], AfterOneMessage(h, inbox, sender);
    assert data[0..1] == data;
    assert CalcL2Batch(h, outer, data, [1], 1, 1, sender, m1.chainTime, 1, after) == Some((after, 1));
    assert CalcL2Batch(h, outer, data, [1], 0, 1, sender, m1.chainTime, 0, inbox) == Some((after, 1));
    assert AddSection(h, outer, data, [1], m1, sender, Cursor(inbox, 0, 0)) == Some(Cursor(after, 1, 1));
    assert AddSection(h, outer, data, [1], m2, sender, Cursor(after, 1, 1)) == Some(Cursor(after, 0, 1));
    assert [m1, m2][1..] == [m2] && [m2][1..] == [];
    assert AddSections(h, outer, data, [1], [m2], sender, Cursor(after, 1, 1)) == Some(Cursor(after, 0, 1));
  }

  /** The contract accepts such a batch, whatever the inbox, and GetItems fails on it. */
  lemma WrappingBatch(h: Accumulators, outer: Outer, inbox: Spot, sender: int, spare: Bytes)
    requires 1 <= inbox.running <= |outer.delayedAccs| < TWO_63 && outer.timely(ChainTime(0, 0))
    ensures var meta, after := WrappingMeta(inbox.running), AfterOneMessage(h, inbox, sender);
      && AddSequencerL2Batch(h, outer, inbox, [7], [1], meta, sender, after.acc) == Some(after)
      && Items(h, Delivered(inbox, [7], spare, [1], meta, sender, after.next, after.acc)) == Err(NegativeUnaccounted)
  {
    var meta, time, total := WrappingMeta(inbox.running), ChainTime(0, 0), inbox.running;
    var m1, m2 := Metadata(1, Count(1), time, total, 0), Metadata(TWO_256 - 1, Count(TWO_256 - 1), time, total, 0);
    assert Metadatas(meta) == [m1, m2] && m2 in Metadatas(meta);
    SectionsParsedAlike(meta);
    WrappingSections(h, outer, inbox, sender, m1, m2);
    AcceptedBatchIsRebuilt(h, outer, inbox, [7], spare, [1], meta, sender, AfterOneMessage(h, inbox, sender).acc);
  }

  // ----- Forced inclusions -----

  /** The batch logsToBatchRefs makes of a DelayedInboxForced event: one section and no transactions. */
  function Forced(inbox: Spot, newTotal: int, time: ChainTime, delayedAcc: Hash, after: Spot): Batch {
    Batch([], [], [0, time.blockNum, time.timestamp, newTotal, delayedAcc], inbox.next, inbox.acc, after.next, after.acc, 0)
  }

  lemma OneEmptySection(m: Metadata)
    requires m.itemCount == 0
    ensures CutMessages([], []) == [] && ReadSections([], [m]) == Some([Section([], m)])
  {
    var none: seq<Bytes> := [];
    var metas := [m];
    assert none[0..] == none && none[..0] == none && metas[1..] == [];
    var rest := ReadSections(none[metas[0].itemCount..], metas[1..]);
    assert rest == Some([]);
    assert ReadSections(none, metas) == Some([Section(none[..metas[0].itemCount], metas[0])] + rest.value);
    assert [Section(none, m)] + rest.value == [Section(none, m)];
  }

  /** A forced inclusion, too, is rebuilt: the delayed messages, and the end-of-block message after them. */
  lemma ForcedBatchIsRebuilt(h: Accumulators, outer: Outer, inbox: Spot, newTotal: int, time: ChainTime, delayedAcc: Hash)
    requires ForceInclusion(h, outer, inbox, newTotal, time, delayedAcc).Some? && 0 <= delayedAcc < TWO_256
    ensures inbox.running < newTotal && 0 < newTotal <= |outer.delayedAccs| && outer.delayedAccs[newTotal - 1] == delayedAcc
    ensures var after := ForceInclusion(h, outer, inbox, newTotal, time, delayedAcc).value;
      var last := inbox.next + newTotal - inbox.running - 1;
      var item := NewDelayedItem(h, last, newTotal, inbox.acc, inbox.running, delayedAcc);
      Items(h, Forced(inbox, newTotal, time, delayedAcc, after)) ==
        Ok(([item, Item(last + 1, after.acc, newTotal, Some(InboxMessage(EndOfBlockType, 0, last + 1, [], time)))],
            if delayedAcc == ZERO_HASH then None else Some(DelayedInfo(newTotal, delayedAcc))))
  {
    var after := IncludeDelayedMessages(h, newTotal, time, delayedAcc, inbox);
    var b := Forced(inbox, newTotal, time, delayedAcc, after);
    var metas, m := Metadatas(b.sectionsMetadata), Metadata(0, 0, time, newTotal, delayedAcc);
    SmallIsInt64(0);
    assert metas == [m] && metas[1..] == [];
    var s := Section([], m);
    OneEmptySection(m);
    assert Sections(b) == Some([s]) && [s][1..] == [];
    DelayedItemsMatch(h, s, 0, inbox);
    assert AfterMessages(h, s, 0, inbox) == inbox;
    assert BatchItems(h, [s], 0, inbox) == SectionItems(h, s, 0, inbox) == DelayedItems(h, m, inbox);
    assert AfterSections(h, [s], 0, inbox) == after;
    PriorCountIsRecovered(metas, b.afterCount - b.beforeCount, inbox.running);
    assert DelayedAccAfter([s], inbox.running, ZERO_HASH) == DelayedAccAfter([], newTotal, delayedAcc) == delayedAcc;
    assert Items(h, b) == Checked(h, b, [s], inbox.running);
  }
}
