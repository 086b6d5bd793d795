/**
 Rebuilding the items of a sequencer batch from its log (SequencerBatch.GetItems in
 packages/arb-node-core/ethbridge/sequencerInboxWatcher.go). The log does not say how many delayed messages had
 been read before the batch: a backward pass over the sections infers it, and a forward pass emits the items.
 */
module SequencerBatch {
  import opened Hashing

  const TWO_63: int := 0x8000_0000_0000_0000

  /** big.Int.Int64 of a nonnegative integer: its low 64 bits, read as a signed number. */
  function Int64(x: int): int {
    var low := x % TWO_64;
    if low < TWO_63 then low else low - TWO_64
  }

  function Count(numItems: int): nat {
    if Int64(numItems) > 0 then Int64(numItems) else 0
  }

  datatype ChainTime = ChainTime(blockNum: int, timestamp: int)

  datatype Kind = L2Type | EndOfBlockType

  /** inbox.InboxMessage with the gas price, always zero here, left out. */
  datatype InboxMessage = InboxMessage(kind: Kind, sender: int, inboxSeqNum: int, data: Bytes, chainTime: ChainTime)

  /** inbox.SequencerBatchItem; a delayed item carries no message. */
  datatype Item = Item(lastSeqNum: int, accumulator: Hash, totalDelayedCount: int, message: Option<InboxMessage>)

  /** The keccak calls that chain the accumulator. */
  datatype Accumulators = Accumulators(
    message: (Hash, int, int, ChainTime, Bytes) -> Hash,
    delayed: (Hash, int, int, int, Hash) -> Hash)

  /**
   A batch as read from the log. `transactionsData` are the bytes up to the capacity of the source's slice, which is what
   cutting a slice is bounded by: GetItems never asks for the slice's length.
   */
  datatype Batch = Batch(
    transactionsData: Bytes,
    transactionLengths: seq<int>,
    sectionsMetadata: seq<int>,
    beforeCount: int,
    beforeAcc: Hash,
    afterCount: int,
    afterAcc: Hash,
    sequencer: int)

  /** One section's metadata; `itemCount` is how often a loop bounded by numItems.Int64() runs. */
  datatype Metadata = Metadata(numItems: int, itemCount: nat, chainTime: ChainTime, newTotalDelayed: int, newDelayedAcc: Hash)

  datatype DelayedInfo = DelayedInfo(count: int, accumulator: Hash)

  /** Panic is an index or a slice out of range. */
  datatype BatchError = NegativeUnaccounted | UnexpectedEndCount | UnexpectedEndAccumulator | Panic

  // ----- What a batch means -----

  /** One section with its messages cut out of the data. */
  datatype Section = Section(messages: seq<Bytes>, meta: Metadata)

  function Max(a: int, b: int): int {
    if a > b then a else b
  }

  /** The sequence numbers taken by a section's delayed messages and the end-of-block message after them. */
  function DelayedSpan(newTotal: int, running: int): int {
    if newTotal > running then newTotal - running + 1 else 0
  }

  function Span(secs: seq<Section>, running: int): int {
    if secs == [] then 0
    else |secs[0].messages| + DelayedSpan(secs[0].meta.newTotalDelayed, running)
         + Span(secs[1..], Max(running, secs[0].meta.newTotalDelayed))
  }

  /** The delayed accumulator of the last section that reads delayed messages. */
  function DelayedAccAfter(secs: seq<Section>, running: int, acc: Hash): Hash {
    if secs == [] then acc
    else DelayedAccAfter(secs[1..], Max(running, secs[0].meta.newTotalDelayed),
                         if secs[0].meta.newTotalDelayed > running then secs[0].meta.newDelayedAcc else acc)
  }

  function NewSequencerItem(h: Accumulators, totalDelayed: int, msg: InboxMessage, prevAcc: Hash): Item {
    Item(msg.inboxSeqNum, h.message(prevAcc, msg.inboxSeqNum, msg.sender, msg.chainTime, msg.data),
         totalDelayed, Some(msg))
  }

  function NewDelayedItem(h: Accumulators, lastSeqNum: int, totalDelayed: int, prevAcc: Hash, prevDelayed: int,
                          delayedAcc: Hash): Item
  {
    var firstSeqNum := 1 + lastSeqNum + prevDelayed - totalDelayed;
    Item(lastSeqNum, h.delayed(prevAcc, firstSeqNum, prevDelayed, totalDelayed, delayedAcc), totalDelayed, None)
  }

  function LastAcc(items: seq<Item>, acc: Hash): Hash {
    if items == [] then acc else items[|items| - 1].accumulator
  }

  function MessageItem(h: Accumulators, data: Bytes, sender: int, time: ChainTime, running: int, next: int, acc: Hash)
    : Item
  {
    NewSequencerItem(h, running,
      InboxMessage(if |data| == 0 then EndOfBlockType else L2Type, sender, next, data, time), acc)
  }

  /** Where a batch stands between items: delayed messages read, next sequence number, last accumulator. */
  datatype Spot = Spot(running: int, next: int, acc: Hash)

  function MessageItems(h: Accumulators, messages: seq<Bytes>, sender: int, time: ChainTime, at: Spot): (r: seq<Item>)
    ensures |r| == |messages|
  {
    if messages == [] then [] else
      var item := MessageItem(h, messages[0], sender, time, at.running, at.next, at.acc);
      [item] + MessageItems(h, messages[1..], sender, time, at.(next := at.next + 1, acc := item.accumulator))
  }

  /** The item for a section's delayed messages and the end-of-block message after them, if it reads any. */
  function DelayedItems(h: Accumulators, m: Metadata, at: Spot): seq<Item> {
    if m.newTotalDelayed > at.running then
      var last := at.next + m.newTotalDelayed - at.running - 1;
      var item := NewDelayedItem(h, last, m.newTotalDelayed, at.acc, at.running, m.newDelayedAcc);
      [item, NewSequencerItem(h, m.newTotalDelayed, InboxMessage(EndOfBlockType, 0, last + 1, [], m.chainTime),
                              item.accumulator)]
    else []
  }

  function AfterMessages(h: Accumulators, s: Section, sender: int, at: Spot): Spot {
    at.(next := at.next + |s.messages|,
        acc := LastAcc(MessageItems(h, s.messages, sender, s.meta.chainTime, at), at.acc))
  }

  function SectionItems(h: Accumulators, s: Section, sender: int, at: Spot): seq<Item> {
    MessageItems(h, s.messages, sender, s.meta.chainTime, at) + DelayedItems(h, s.meta, AfterMessages(h, s, sender, at))
  }

  function AfterSection(h: Accumulators, s: Section, sender: int, at: Spot): Spot {
    Spot(Max(at.running, s.meta.newTotalDelayed),
         at.next + |s.messages| + DelayedSpan(s.meta.newTotalDelayed, at.running),
         LastAcc(SectionItems(h, s, sender, at), at.acc))
  }

  /** The items of consecutive sections. */
  function BatchItems(h: Accumulators, secs: seq<Section>, sender: int, at: Spot): seq<Item> {
    if secs == [] then []
    else SectionItems(h, secs[0], sender, at) + BatchItems(h, secs[1..], sender, AfterSection(h, secs[0], sender, at))
  }

  function AfterSections(h: Accumulators, secs: seq<Section>, sender: int, at: Spot): Spot {
    if secs == [] then at else AfterSections(h, secs[1..], sender, AfterSection(h, secs[0], sender, at))
  }

  // ----- Reading the log -----

  function Metadatas(meta: seq<int>): (r: seq<Metadata>)
    ensures |r| == |meta| / 5
  {
    seq(|meta| / 5, k requires 0 <= k < |meta| / 5 =>
      Metadata(meta[5 * k], Count(meta[5 * k]), ChainTime(meta[5 * k + 1], meta[5 * k + 2]), meta[5 * k + 3],
               meta[5 * k + 4] % TWO_256))
  }

  /** The messages that can be cut off the front of the data, until a length or the data runs out. */
  function CutMessages(data: Bytes, lengths: seq<int>): seq<Bytes>
    decreases |lengths|
  {
    if lengths == [] || !(0 <= Int64(lengths[0]) <= |data|) then []
    else [data[..Int64(lengths[0])]] + CutMessages(data[Int64(lengths[0])..], lengths[1..])
  }

  /** Hands the messages out to the sections in order; None when there are too few. */
  function ReadSections(messages: seq<Bytes>, metas: seq<Metadata>): (r: Option<seq<Section>>)
    ensures r.Some? ==> |r.value| == |metas|
  {
    if metas == [] then Some([])
    else if metas[0].itemCount > |messages| then None
    else
      match ReadSections(messages[metas[0].itemCount..], metas[1..])
      case None => None
      case Some(rest) => Some([Section(messages[..metas[0].itemCount], metas[0])] + rest)
  }

  function Sections(b: Batch): Option<seq<Section>> {
    ReadSections(CutMessages(b.transactionsData, b.transactionLengths), Metadatas(b.sectionsMetadata))
  }

  // ----- The inferred prior count -----

  /** What every section after the first accounts for. */
  function Later(metas: seq<Metadata>): int {
    if |metas| <= 1 then 0
    else metas[1].numItems + metas[1].newTotalDelayed - metas[0].newTotalDelayed
         + (if metas[1].newTotalDelayed > metas[0].newTotalDelayed then 1 else 0) + Later(metas[1..])
  }

  function Unaccounted(metas: seq<Metadata>, total: int): int
    requires metas != []
  {
    total - Later(metas) - metas[0].numItems
  }

  function PriorDelayed(metas: seq<Metadata>, total: int): int
    requires metas != []
  {
    var u := Unaccounted(metas, total);
    metas[0].newTotalDelayed - if u > 0 then u - 1 else u
  }

  function Checked(h: Accumulators, b: Batch, secs: seq<Section>, running: int)
    : Result<(seq<Item>, Option<DelayedInfo>), BatchError>
  {
    var start := Spot(running, b.beforeCount, b.beforeAcc);
    var end := AfterSections(h, secs, b.sequencer, start);
    if end.next != b.afterCount then Err(UnexpectedEndCount)
    else if end.acc != b.afterAcc then Err(UnexpectedEndAccumulator)
    else
      var delayedAcc := DelayedAccAfter(secs, running, ZERO_HASH);
      Ok((BatchItems(h, secs, b.sequencer, start),
          if delayedAcc != ZERO_HASH then Some(DelayedInfo(end.running, delayedAcc)) else None))
  }

  /** GetItems after the log is parsed; `sections` is None when the messages run out. */
  function ItemsOf(h: Accumulators, b: Batch, metas: seq<Metadata>, sections: Option<seq<Section>>)
    : Result<(seq<Item>, Option<DelayedInfo>), BatchError>
  {
    var total := b.afterCount - b.beforeCount;
    if metas == [] then Ok(([], None))
    else if Unaccounted(metas, total) < 0 then Err(NegativeUnaccounted)
    else
      match sections
      case None => Err(Panic)
      case Some(secs) => Checked(h, b, secs, PriorDelayed(metas, total))
  }

  /** GetItems as a function of the batch. */
  function Items(h: Accumulators, b: Batch): Result<(seq<Item>, Option<DelayedInfo>), BatchError> {
    ItemsOf(h, b, Metadatas(b.sectionsMetadata), Sections(b))
  }

  // ----- The source's code -----

  method ParseSections(sectionsMetadata: seq<int>) returns (metas: seq<Metadata>)
    ensures metas == Metadatas(sectionsMetadata)
  {
    metas := [];
    var i := 0;
    while i + 5 <= |sectionsMetadata|
      invariant i == 5 * |metas| && i <= |sectionsMetadata|
      invariant metas == Metadatas(sectionsMetadata)[..|metas|]
    {
      var chainTime := ChainTime(sectionsMetadata[i + 1], sectionsMetadata[i + 2]);
      var newDelayedAcc := sectionsMetadata[i + 4] % TWO_256;
      metas := metas + [Metadata(sectionsMetadata[i], Count(sectionsMetadata[i]), chainTime, sectionsMetadata[i + 3], newDelayedAcc)];
      i := i + 5;
    }
  }

  /** The backward pass. */
  method AccountBackwards(metas: seq<Metadata>, total: int) returns (unaccounted: int)
    requires metas != []
    ensures unaccounted == Unaccounted(metas, total)
  {
    unaccounted := total;
    for i := |metas| - 1 downto 0
      invariant unaccounted == total - Later(metas[i..])
    {
      assert metas[i..][1..] == metas[i + 1..];
      unaccounted := unaccounted - metas[i + 1].numItems;
      var delayedCount, prevDelayedCount := metas[i + 1].newTotalDelayed, metas[i].newTotalDelayed;
      unaccounted := unaccounted - delayedCount + prevDelayedCount;
      if delayedCount > prevDelayedCount {
        unaccounted := unaccounted - 1;
      }
    }
    assert metas[0..] == metas;
    unaccounted := unaccounted - metas[0].numItems;
  }

  /** Where the forward pass reads: `dataOffset` and `lengthsOffset`. */
  datatype Offsets = Offsets(lengths: nat, data: nat)

  predicate Inside(b: Batch, o: Offsets) {
    o.lengths <= |b.transactionLengths| && o.data <= |b.transactionsData|
  }

  function MessagesAhead(b: Batch, o: Offsets): seq<Bytes>
    requires Inside(b, o)
  {
    CutMessages(b.transactionsData[o.data..], b.transactionLengths[o.lengths..])
  }

  lemma NextMessage(b: Batch, o: Offsets)
    requires Inside(b, o)
    ensures var more := o.lengths < |b.transactionLengths| &&
        0 <= Int64(b.transactionLengths[o.lengths]) <= |b.transactionsData| - o.data;
      if more then
        var length := Int64(b.transactionLengths[o.lengths]);
        MessagesAhead(b, o) == [b.transactionsData[o.data..o.data + length]]
                               + MessagesAhead(b, Offsets(o.lengths + 1, o.data + length))
      else MessagesAhead(b, o) == []
  {
    if o.lengths < |b.transactionLengths| {
      var length := Int64(b.transactionLengths[o.lengths]);
      assert b.transactionLengths[o.lengths..][1..] == b.transactionLengths[o.lengths + 1..];
      if 0 <= length <= |b.transactionsData| - o.data {
        assert b.transactionsData[o.data..][..length] == b.transactionsData[o.data..o.data + length];
        assert b.transactionsData[o.data..][length..] == b.transactionsData[o.data + length..];
      }
    }
  }

  /** What the loop over a section's messages will have emitted, with `n` of the messages ahead to go. */
  function MessagesPending(h: Accumulators, ahead: seq<Bytes>, n: nat, sender: int, time: ChainTime, at: Spot, ret: seq<Item>)
    : Option<(seq<Item>, Spot, seq<Bytes>)>
  {
    if n > |ahead| then None else
      var items := MessageItems(h, ahead[..n], sender, time, at);
      Some((ret + items, at.(next := at.next + n, acc := LastAcc(items, at.acc)), ahead[n..]))
  }

  lemma OneMessagePending(h: Accumulators, ahead: seq<Bytes>, n: nat, sender: int, time: ChainTime, at: Spot, ret: seq<Item>)
    requires 0 < n && ahead != []
    ensures var item := MessageItem(h, ahead[0], sender, time, at.running, at.next, at.acc);
      MessagesPending(h, ahead, n, sender, time, at, ret) ==
        MessagesPending(h, ahead[1..], n - 1, sender, time, Spot(at.running, at.next + 1, item.accumulator), ret + [item])
  {
    if n <= |ahead| {
      var item := MessageItem(h, ahead[0], sender, time, at.running, at.next, at.acc);
      var rest := MessageItems(h, ahead[1..][..n - 1], sender, time, Spot(at.running, at.next + 1, item.accumulator));
      assert ahead[..n][1..] == ahead[1..][..n - 1] && ahead[1..][n - 1..] == ahead[n..];
      assert ret + ([item] + rest) == (ret + [item]) + rest;
    }
  }

  /** The body of the inner loop: one of a section's own messages. None is a panic. */
  method EmitMessage(h: Accumulators, b: Batch, meta: Metadata, offsets: Offsets, at: Spot)
    returns (r: Option<(Item, Offsets)>)
    requires Inside(b, offsets)
    ensures var ahead := MessagesAhead(b, offsets);
      if ahead == [] then r == None
      else
        && r.Some? && Inside(b, r.value.1) && MessagesAhead(b, r.value.1) == ahead[1..]
        && r.value.0 == MessageItem(h, ahead[0], b.sequencer, meta.chainTime, at.running, at.next, at.acc)
  {
    NextMessage(b, offsets);
    if offsets.lengths >= |b.transactionLengths| {
      return None;
    }
    var length := Int64(b.transactionLengths[offsets.lengths]);
    var messageKind := L2Type;
    if length == 0 {
      messageKind := EndOfBlockType;
    }
    if length < 0 || offsets.data + length > |b.transactionsData| {
      return None;
    }
    var data := b.transactionsData[offsets.data..offsets.data + length];
    var seqMsg := InboxMessage(messageKind, b.sequencer, at.next, data, meta.chainTime);
    var item := NewSequencerItem(h, at.running, seqMsg, at.acc);
    r := Some((item, Offsets(offsets.lengths + 1, offsets.data + length)));
  }

  /** The inner loop of the forward pass: a section's own messages. None is a panic. */
  method EmitMessages(h: Accumulators, b: Batch, meta: Metadata, offsets: Offsets, at: Spot)
    returns (r: Option<(seq<Item>, Spot, Offsets)>)
    requires Inside(b, offsets)
    ensures match MessagesPending(h, MessagesAhead(b, offsets), meta.itemCount, b.sequencer, meta.chainTime, at, [])
      case None => r == None
      case Some((items, after, ahead)) =>
        r.Some? && r.value.0 == items && r.value.1 == after && Inside(b, r.value.2) && MessagesAhead(b, r.value.2) == ahead
  {
    var ret: seq<Item> := [];
    var reading, spot := offsets, at;
    ghost var ahead := MessagesAhead(b, offsets);
    ghost var result := MessagesPending(h, ahead, meta.itemCount, b.sequencer, meta.chainTime, at, []);
    for j := 0 to meta.itemCount
      invariant Inside(b, reading) && ahead == MessagesAhead(b, reading)
      invariant MessagesPending(h, ahead, meta.itemCount - j, b.sequencer, meta.chainTime, spot, ret) == result
    {
      var emitted := EmitMessage(h, b, meta, reading, spot);
      if emitted.None? {
        return None;
      }
      OneMessagePending(h, ahead, meta.itemCount - j, b.sequencer, meta.chainTime, spot, ret);
      var (item, moved) := emitted.value;
      ret := ret + [item];
      spot := Spot(spot.running, spot.next + 1, item.accumulator);
      reading, ahead := moved, ahead[1..];
    }
    r := Some((ret, spot, reading));
    Associate(ret, [], []);
    assert ahead[0..] == ahead;
  }

  /** The end of a section. */
  method EmitDelayed(h: Accumulators, meta: Metadata, at: Spot) returns (ret: seq<Item>, after: Spot)
    ensures ret == DelayedItems(h, meta, at)
    ensures after == Spot(Max(at.running, meta.newTotalDelayed),
                          at.next + DelayedSpan(meta.newTotalDelayed, at.running), LastAcc(ret, at.acc))
  {
    ret, after := [], at;
    if meta.newTotalDelayed > at.running {
      var lastSeqNum := at.next + meta.newTotalDelayed;
      lastSeqNum := lastSeqNum - at.running;
      var nextSeqNum := lastSeqNum;
      lastSeqNum := lastSeqNum - 1;
      var item := NewDelayedItem(h, lastSeqNum, meta.newTotalDelayed, at.acc, at.running, meta.newDelayedAcc);
      var endBlockMessage := InboxMessage(EndOfBlockType, 0, nextSeqNum, [], meta.chainTime);
      var item2 := NewSequencerItem(h, meta.newTotalDelayed, endBlockMessage, item.accumulator);
      ret := [item, item2];
      after := Spot(meta.newTotalDelayed, nextSeqNum + 1, item2.accumulator);
    }
  }

  /** What the loop over sections carries besides its offsets. */
  datatype Progress = Progress(at: Spot, delayedAcc: Hash, ret: seq<Item>)

  function Advanced(h: Accumulators, s: Section, sender: int, p: Progress): Progress {
    Progress(AfterSection(h, s, sender, p.at),
             if s.meta.newTotalDelayed > p.at.running then s.meta.newDelayedAcc else p.delayedAcc,
             p.ret + SectionItems(h, s, sender, p.at))
  }

  /** What the loop over sections will have computed, with the given messages and sections still to come. */
  function SectionsPending(h: Accumulators, ahead: seq<Bytes>, metas: seq<Metadata>, sender: int, p: Progress)
    : Option<(seq<Item>, Spot, Hash)>
  {
    match ReadSections(ahead, metas)
    case None => None
    case Some(secs) =>
      Some((p.ret + BatchItems(h, secs, sender, p.at), AfterSections(h, secs, sender, p.at),
            DelayedAccAfter(secs, p.at.running, p.delayedAcc)))
  }

  lemma NextSection(h: Accumulators, ahead: seq<Bytes>, metas: seq<Metadata>, sender: int, p: Progress)
    requires metas != [] && metas[0].itemCount <= |ahead|
    ensures var n := metas[0].itemCount;
      SectionsPending(h, ahead, metas, sender, p)
      == SectionsPending(h, ahead[n..], metas[1..], sender, Advanced(h, Section(ahead[..n], metas[0]), sender, p))
  {
    var n := metas[0].itemCount;
    var rest := ReadSections(ahead[n..], metas[1..]);
    if rest.Some? {
      FirstSection(h, Section(ahead[..n], metas[0]), rest.value, sender, p.at, p.delayedAcc, p.ret);
    }
  }

  lemma FirstSection(h: Accumulators, s: Section, rest: seq<Section>, sender: int, at: Spot, delayedAcc: Hash, ret: seq<Item>)
    ensures var secs, after := [s] + rest, AfterSection(h, s, sender, at);
      && ret + BatchItems(h, secs, sender, at) == ret + SectionItems(h, s, sender, at) + BatchItems(h, rest, sender, after)
      && AfterSections(h, secs, sender, at) == AfterSections(h, rest, sender, after)
      && DelayedAccAfter(secs, at.running, delayedAcc) == DelayedAccAfter(rest, after.running,
           if s.meta.newTotalDelayed > at.running then s.meta.newDelayedAcc else delayedAcc)
  {
    var secs := [s] + rest;
    assert secs[1..] == rest && secs[0] == s;
    Associate(ret, SectionItems(h, s, sender, at), BatchItems(h, rest, sender, AfterSection(h, s, sender, at)));
  }

  lemma LastAccAppend(a: seq<Item>, b: seq<Item>, acc: Hash)
    ensures LastAcc(a + b, acc) == LastAcc(b, LastAcc(a, acc))
  {
  }

  lemma SectionInParts(h: Accumulators, b: Batch, s: Section, at: Spot)
    ensures var middle := AfterMessages(h, s, b.sequencer, at);
      var items := MessageItems(h, s.messages, b.sequencer, s.meta.chainTime, at);
      var delayed := DelayedItems(h, s.meta, middle);
      && SectionItems(h, s, b.sequencer, at) == items + delayed
      && AfterSection(h, s, b.sequencer, at) ==
           Spot(Max(middle.running, s.meta.newTotalDelayed),
                middle.next + DelayedSpan(s.meta.newTotalDelayed, middle.running), LastAcc(delayed, middle.acc))
  {
    LastAccAppend(MessageItems(h, s.messages, b.sequencer, s.meta.chainTime, at),
                  DelayedItems(h, s.meta, AfterMessages(h, s, b.sequencer, at)), at.acc);
  }

  /** The body of the forward pass. None is a panic. */
  method EmitSection(h: Accumulators, b: Batch, meta: Metadata, offsets: Offsets, at: Spot)
    returns (r: Option<(seq<Item>, Spot, Offsets)>)
    requires Inside(b, offsets)
    ensures var ahead, n := MessagesAhead(b, offsets), meta.itemCount;
      if n > |ahead| then r == None
      else
        && r.Some? && Inside(b, r.value.2) && MessagesAhead(b, r.value.2) == ahead[n..]
        && r.value.0 == SectionItems(h, Section(ahead[..n], meta), b.sequencer, at)
        && r.value.1 == AfterSection(h, Section(ahead[..n], meta), b.sequencer, at)
  {
    var emitted := EmitMessages(h, b, meta, offsets, at);
    if emitted.None? {
      return None;
    }
    var (items, middle, moved) := emitted.value;
    var delayedItems, after := EmitDelayed(h, meta, middle);
    ghost var messages := MessagesAhead(b, offsets)[..meta.itemCount];
    SectionInParts(h, b, Section(messages, meta), at);
    Associate([], [], MessageItems(h, messages, b.sequencer, meta.chainTime, at));
    r := Some((items + delayedItems, after, moved));
  }

  /** The forward pass. None is a panic. */
  method EmitSections(h: Accumulators, b: Batch, metas: seq<Metadata>, start: Spot)
    returns (r: Option<(seq<Item>, Spot, Hash)>)
    ensures r == SectionsPending(h, CutMessages(b.transactionsData, b.transactionLengths), metas, b.sequencer,
                                 Progress(start, ZERO_HASH, []))
  {
    var p, offsets := Progress(start, ZERO_HASH, []), Offsets(0, 0);
    ghost var ahead := CutMessages(b.transactionsData, b.transactionLengths);
    ghost var result := SectionsPending(h, ahead, metas, b.sequencer, p);
    assert metas[0..] == metas && b.transactionsData[0..] == b.transactionsData
        && b.transactionLengths[0..] == b.transactionLengths;
    for k := 0 to |metas|
      invariant Inside(b, offsets) && ahead == MessagesAhead(b, offsets)
      invariant SectionsPending(h, ahead, metas[k..], b.sequencer, p) == result
    {
      assert metas[k..][0] == metas[k] && metas[k..][1..] == metas[k + 1..];
      var emitted := EmitSection(h, b, metas[k], offsets, p.at);
      if emitted.None? {
        return None;
      }
      NextSection(h, ahead, metas[k..], b.sequencer, p);
      var (items, after, moved) := emitted.value;
      var delayedAcc := p.delayedAcc;
      if metas[k].newTotalDelayed > p.at.running {
        delayedAcc := metas[k].newDelayedAcc;
      }
      ghost var advanced := Advanced(h, Section(ahead[..metas[k].itemCount], metas[k]), b.sequencer, p);
      p := Progress(after, delayedAcc, p.ret + items);
      assert p == advanced;
      ahead := ahead[metas[k].itemCount..];
      offsets := moved;
    }
    r := Some((p.ret, p.at, p.delayedAcc));
    assert p.ret + [] == p.ret;
  }

  /** The final checks and the delayed info. */
  method CheckEnd(h: Accumulators, b: Batch, ret: seq<Item>, end: Spot, delayedAcc: Hash)
    returns (r: Result<(seq<Item>, Option<DelayedInfo>), BatchError>)
    ensures end.next != b.afterCount ==> r == Err(UnexpectedEndCount)
    ensures end.next == b.afterCount && end.acc != b.afterAcc ==> r == Err(UnexpectedEndAccumulator)
    ensures end.next == b.afterCount && end.acc == b.afterAcc ==>
      r == Ok((ret, if delayedAcc != ZERO_HASH then Some(DelayedInfo(end.running, delayedAcc)) else None))
  {
    if end.next != b.afterCount {
      return Err(UnexpectedEndCount);
    }
    if end.acc != b.afterAcc {
      return Err(UnexpectedEndAccumulator);
    }
    var delayedInfo: Option<DelayedInfo> := None;
    if delayedAcc != ZERO_HASH {
      delayedInfo := Some(DelayedInfo(end.running, delayedAcc));
    }
    r := Ok((ret, delayedInfo));
  }

  /** GetItems. */
  method GetItems(h: Accumulators, b: Batch) returns (r: Result<(seq<Item>, Option<DelayedInfo>), BatchError>)
    ensures r == Items(h, b)
    ensures |b.sectionsMetadata| < 5 ==> r == Ok(([], None))
  {
    var metas := ParseSections(b.sectionsMetadata);
    if |metas| == 0 {
      return Ok(([], None));
    }
    var unaccounted := AccountBackwards(metas, b.afterCount - b.beforeCount);
    if unaccounted > 0 {
      unaccounted := unaccounted - 1;
    } else if unaccounted < 0 {
      return Err(NegativeUnaccounted);
    }
    var start := Spot(metas[0].newTotalDelayed - unaccounted, b.beforeCount, b.beforeAcc);
    var emitted := EmitSections(h, b, metas, start);
    if emitted.None? {
      return Err(Panic);
    }
    var (ret, end, delayedAcc) := emitted.value;
    Associate([], [], BatchItems(h, Sections(b).value, b.sequencer, start));
    r := CheckEnd(h, b, ret, end, delayedAcc);
  }
}
