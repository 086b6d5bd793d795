/**
 What GetItems promises: it finds the delayed count the log leaves out, its items tile the batch's sequence
 numbers, and a batch can be cut at any section.
 */
module SequencerBatchLaws {
  import opened Hashing
  import opened SequencerBatch

  /** Int64 is the one number of 64 bits, read with a sign, that differs by a multiple of 2^64. */
  lemma Int64IsLow(x: int, r: int)
    ensures r == Int64(x) <==> -TWO_63 <= r < TWO_63 && (x - r) % TWO_64 == 0
  {
  }

  // ----- The prior count -----

  /** The sequence numbers a batch takes when `running` delayed messages came before it. */
  function MetaSpan(metas: seq<Metadata>, running: int): int {
    if metas == [] then 0
    else metas[0].numItems + DelayedSpan(metas[0].newTotalDelayed, running)
         + MetaSpan(metas[1..], Max(running, metas[0].newTotalDelayed))
  }

  predicate NondecreasingFrom(metas: seq<Metadata>, running: int) {
    metas == [] || (running <= metas[0].newTotalDelayed && NondecreasingFrom(metas[1..], metas[0].newTotalDelayed))
  }

  predicate FitInt64(metas: seq<Metadata>) {
    forall m :: m in metas ==> m.itemCount == m.numItems
  }

  lemma {:induction false} SpanIsFirstAndLater(metas: seq<Metadata>, running: int)
    requires metas != [] && NondecreasingFrom(metas, running)
    ensures MetaSpan(metas, running) ==
      metas[0].numItems + DelayedSpan(metas[0].newTotalDelayed, running) + Later(metas)
  {
    if |metas| > 1 {
      SpanIsFirstAndLater(metas[1..], metas[0].newTotalDelayed);
    }
  }

  /** The backward pass recovers the prior delayed count, whatever it was. */
  lemma PriorCountIsRecovered(metas: seq<Metadata>, total: int, prior: int)
    requires metas != [] && NondecreasingFrom(metas, prior)
    requires total == MetaSpan(metas, prior)
    ensures Unaccounted(metas, total) >= 0 && PriorDelayed(metas, total) == prior
  {
    SpanIsFirstAndLater(metas, prior);
  }

  /** And exactly the batches with such a count get through the two count checks. */
  lemma PriorCountExistsIff(metas: seq<Metadata>, total: int)
    requires metas != [] && NondecreasingFrom(metas, metas[0].newTotalDelayed)
    ensures (exists prior :: prior <= metas[0].newTotalDelayed && total == MetaSpan(metas, prior)) <==>
            Unaccounted(metas, total) >= 0 && Unaccounted(metas, total) != 1
    ensures Unaccounted(metas, total) >= 0 ==>
      (total == MetaSpan(metas, PriorDelayed(metas, total)) <==> Unaccounted(metas, total) != 1)
  {
    var u, d := Unaccounted(metas, total), metas[0].newTotalDelayed;
    forall prior | prior <= d ensures MetaSpan(metas, prior) == total - u + DelayedSpan(d, prior) {
      assert NondecreasingFrom(metas, prior);
      SpanIsFirstAndLater(metas, prior);
    }
    if u >= 0 && u != 1 {
      assert total == MetaSpan(metas, PriorDelayed(metas, total));
    }
  }

  /** Sections take the span their metadata announces. */
  lemma {:induction false} ReadSpan(messages: seq<Bytes>, metas: seq<Metadata>, running: int)
    requires FitInt64(metas) && ReadSections(messages, metas).Some?
    ensures Span(ReadSections(messages, metas).value, running) == MetaSpan(metas, running)
  {
    if metas != [] {
      var n := metas[0].itemCount;
      var rest := ReadSections(messages[n..], metas[1..]).value;
      ReadSpan(messages[n..], metas[1..], Max(running, metas[0].newTotalDelayed));
      assert ([Section(messages[..n], metas[0])] + rest)[1..] == rest;
      assert metas[0] in metas;
    }
  }

  lemma {:induction false} NextIsSpan(h: Accumulators, secs: seq<Section>, sender: int, at: Spot)
    ensures AfterSections(h, secs, sender, at).next == at.next + Span(secs, at.running)
  {
    if secs != [] {
      NextIsSpan(h, secs[1..], sender, AfterSection(h, secs[0], sender, at));
    }
  }

  /** Where sections arrive when their counts fit. */
  lemma SectionsArrive(h: Accumulators, messages: seq<Bytes>, metas: seq<Metadata>, secs: seq<Section>, sender: int, at: Spot)
    requires FitInt64(metas) && ReadSections(messages, metas) == Some(secs)
    ensures AfterSections(h, secs, sender, at).next == at.next + MetaSpan(metas, at.running)
  {
    ReadSpan(messages, metas, at.running);
    NextIsSpan(h, secs, sender, at);
  }

  /** The counts of a log are those of sections that take over from `prior` delayed messages. */
  predicate Fits(b: Batch, prior: int) {
    var metas := Metadatas(b.sectionsMetadata);
    && metas != [] && NondecreasingFrom(metas, prior) && FitInt64(metas)
    && b.afterCount - b.beforeCount == MetaSpan(metas, prior)
  }

  lemma ParsedNeverFails(h: Accumulators, b: Batch, metas: seq<Metadata>, sections: Option<seq<Section>>, prior: int)
    requires metas != [] && NondecreasingFrom(metas, prior) && b.afterCount - b.beforeCount == MetaSpan(metas, prior)
    requires sections.Some? ==>
      AfterSections(h, sections.value, b.sequencer, Spot(prior, b.beforeCount, b.beforeAcc)).next == b.afterCount
    ensures ItemsOf(h, b, metas, sections) != Err(NegativeUnaccounted)
    ensures ItemsOf(h, b, metas, sections) != Err(UnexpectedEndCount)
    ensures ItemsOf(h, b, metas, sections) ==
      match sections case None => Err(Panic) case Some(secs) => Checked(h, b, secs, prior)
  {
    PriorCountIsRecovered(metas, b.afterCount - b.beforeCount, prior);
  }

  /**
   GetItems on a log whose counts fit some prior delayed count: neither count error can occur, and what is emitted
   starts from that prior count.
   */
  lemma CountsNeverFail(h: Accumulators, b: Batch, prior: int)
    requires Fits(b, prior)
    ensures Items(h, b) != Err(NegativeUnaccounted) && Items(h, b) != Err(UnexpectedEndCount)
    ensures match Sections(b)
      case None => Items(h, b) == Err(Panic)
      case Some(secs) => Items(h, b) == Checked(h, b, secs, prior)
  {
    var metas := Metadatas(b.sectionsMetadata);
    if Sections(b).Some? {
      SectionsArrive(h, CutMessages(b.transactionsData, b.transactionLengths), metas, Sections(b).value, b.sequencer,
                     Spot(prior, b.beforeCount, b.beforeAcc));
    }
    ParsedNeverFails(h, b, metas, Sections(b), prior);
  }

  // ----- Tiling -----

  /** How many sequence numbers an item takes: one, or one for each delayed message it reads. */
  function Width(item: Item, running: int): int {
    if item.message.Some? then 1 else item.totalDelayedCount - running
  }

  /** The item's accumulator is the hash of its predecessor's and of its own contents. */
  ghost predicate ChainsFrom(h: Accumulators, item: Item, running: int, next: int, acc: Hash) {
    match item.message
    case Some(m) =>
      && item.totalDelayedCount == running
      && m.inboxSeqNum == item.lastSeqNum
      && item.accumulator == h.message(acc, next, m.sender, m.chainTime, m.data)
    case None =>
      exists delayedAcc :: item.accumulator == h.delayed(acc, next, running, item.totalDelayedCount, delayedAcc)
  }

  /** Items that take the sequence numbers from `at.next` up to `end.next`, in order, without gap or overlap. */
  ghost predicate Tile(h: Accumulators, items: seq<Item>, at: Spot, end: Spot)
    decreases |items|
  {
    if items == [] then at == end else
      var item, width := items[0], Width(items[0], at.running);
      && width >= 1
      && item.lastSeqNum == at.next + width - 1
      && ChainsFrom(h, item, at.running, at.next, at.acc)
      && Tile(h, items[1..], Spot(item.totalDelayedCount, at.next + width, item.accumulator), end)
  }

  lemma {:induction false} TileAppend(h: Accumulators, a: seq<Item>, b: seq<Item>, at: Spot, mid: Spot, end: Spot)
    requires Tile(h, a, at, mid) && Tile(h, b, mid, end)
    ensures Tile(h, a + b, at, end)
    decreases |a|
  {
    if a == [] {
      assert a + b == b;
    } else {
      var item := a[0];
      assert (a + b)[0] == item && (a + b)[1..] == a[1..] + b;
      TileAppend(h, a[1..], b,
                 Spot(item.totalDelayedCount, at.next + Width(item, at.running), item.accumulator), mid, end);
    }
  }

  lemma {:induction false} MessagesTile(h: Accumulators, messages: seq<Bytes>, sender: int, time: ChainTime, at: Spot)
    ensures var items := MessageItems(h, messages, sender, time, at);
      Tile(h, items, at, at.(next := at.next + |messages|, acc := LastAcc(items, at.acc)))
  {
    if messages != [] {
      var item := MessageItem(h, messages[0], sender, time, at.running, at.next, at.acc);
      var at' := at.(next := at.next + 1, acc := item.accumulator);
      var rest := MessageItems(h, messages[1..], sender, time, at');
      MessagesTile(h, messages[1..], sender, time, at');
      assert ([item] + rest)[1..] == rest;
    }
  }

  lemma SectionTiles(h: Accumulators, s: Section, sender: int, at: Spot)
    ensures Tile(h, SectionItems(h, s, sender, at), at, AfterSection(h, s, sender, at))
  {
    var items, mid := MessageItems(h, s.messages, sender, s.meta.chainTime, at), AfterMessages(h, s, sender, at);
    var delayed, end := DelayedItems(h, s.meta, mid), AfterSection(h, s, sender, at);
    MessagesTile(h, s.messages, sender, s.meta.chainTime, at);
    LastAccAppend(items, delayed, at.acc);
    if s.meta.newTotalDelayed > at.running {
      var first, second := delayed[0], delayed[1];
      assert ChainsFrom(h, first, mid.running, mid.next, mid.acc);
      assert delayed[1..] == [second] && delayed[1..][1..] == [];
      assert Tile(h, [second], Spot(first.totalDelayedCount, first.lastSeqNum + 1, first.accumulator), end);
      assert Tile(h, delayed, mid, end);
    }
    TileAppend(h, items, delayed, at, mid, end);
  }

  lemma {:induction false} SectionsTile(h: Accumulators, secs: seq<Section>, sender: int, at: Spot)
    ensures Tile(h, BatchItems(h, secs, sender, at), at, AfterSections(h, secs, sender, at))
  {
    if secs != [] {
      var after := AfterSection(h, secs[0], sender, at);
      SectionTiles(h, secs[0], sender, at);
      SectionsTile(h, secs[1..], sender, after);
      TileAppend(h, SectionItems(h, secs[0], sender, at), BatchItems(h, secs[1..], sender, after), at, after,
                 AfterSections(h, secs, sender, at));
    }
  }

  /** Every successful run with a section tiles the batch's range and chains its accumulator from end to end. */
  lemma ItemsTileBatch(h: Accumulators, b: Batch)
    requires Items(h, b).Ok? && Metadatas(b.sectionsMetadata) != []
    ensures var prior := PriorDelayed(Metadatas(b.sectionsMetadata), b.afterCount - b.beforeCount);
      exists end ::
        && Tile(h, Items(h, b).value.0, Spot(prior, b.beforeCount, b.beforeAcc), end)
        && end.next == b.afterCount && end.acc == b.afterAcc
  {
    var metas := Metadatas(b.sectionsMetadata);
    var prior := PriorDelayed(metas, b.afterCount - b.beforeCount);
    var secs := Sections(b).value;
    SectionsTile(h, secs, b.sequencer, Spot(prior, b.beforeCount, b.beforeAcc));
  }

  // ----- What the messages are -----

  /**
   A message ends a block exactly if it is empty. The one after a delayed item is empty and from nobody, and there is
   always one; every other is from the sequencer.
   */
  predicate IsMessageOf(items: seq<Item>, i: int, sequencer: int)
    requires 0 <= i < |items|
  {
    match items[i].message
    case None => i + 1 < |items| && items[i + 1].message.Some?
    case Some(m) =>
      && (m.kind == EndOfBlockType <==> m.data == [])
      && if i > 0 && items[i - 1].message.None? then m.sender == 0 && m.data == [] else m.sender == sequencer
  }

  predicate AreMessagesOf(items: seq<Item>, sequencer: int) {
    forall i :: 0 <= i < |items| ==> IsMessageOf(items, i, sequencer)
  }

  lemma MessagesAppend(a: seq<Item>, b: seq<Item>, sequencer: int)
    requires AreMessagesOf(a, sequencer) && AreMessagesOf(b, sequencer)
    ensures AreMessagesOf(a + b, sequencer)
  {
    assert a != [] ==> IsMessageOf(a, |a| - 1, sequencer);
    forall i | 0 <= i < |a + b| ensures IsMessageOf(a + b, i, sequencer) {
      assert if i < |a| then IsMessageOf(a, i, sequencer) else IsMessageOf(b, i - |a|, sequencer);
    }
  }

  lemma {:induction false} OwnMessages(h: Accumulators, messages: seq<Bytes>, sender: int, time: ChainTime, at: Spot)
    ensures AreMessagesOf(MessageItems(h, messages, sender, time, at), sender)
  {
    if messages != [] {
      var item := MessageItem(h, messages[0], sender, time, at.running, at.next, at.acc);
      var at' := at.(next := at.next + 1, acc := item.accumulator);
      OwnMessages(h, messages[1..], sender, time, at');
      MessagesAppend([item], MessageItems(h, messages[1..], sender, time, at'), sender);
    }
  }

  lemma {:induction false} SectionsMessages(h: Accumulators, secs: seq<Section>, sender: int, at: Spot)
    ensures AreMessagesOf(BatchItems(h, secs, sender, at), sender)
  {
    if secs != [] {
      var s, after := secs[0], AfterSection(h, secs[0], sender, at);
      OwnMessages(h, s.messages, sender, s.meta.chainTime, at);
      MessagesAppend(MessageItems(h, s.messages, sender, s.meta.chainTime, at),
                     DelayedItems(h, s.meta, AfterMessages(h, s, sender, at)), sender);
      SectionsMessages(h, secs[1..], sender, after);
      MessagesAppend(SectionItems(h, s, sender, at), BatchItems(h, secs[1..], sender, after), sender);
    }
  }

  /** The kinds and the senders of everything GetItems returns. */
  lemma KindsAndSenders(h: Accumulators, b: Batch)
    requires Items(h, b).Ok?
    ensures AreMessagesOf(Items(h, b).value.0, b.sequencer)
  {
    var metas := Metadatas(b.sectionsMetadata);
    if metas != [] {
      SectionsMessages(h, Sections(b).value, b.sequencer,
                       Spot(PriorDelayed(metas, b.afterCount - b.beforeCount), b.beforeCount, b.beforeAcc));
    }
  }

  // ----- Cutting a batch in two -----

  function ItemCount(metas: seq<Metadata>): nat {
    if metas == [] then 0 else metas[0].itemCount + ItemCount(metas[1..])
  }

  lemma ReadFirst(messages: seq<Bytes>, metas: seq<Metadata>) returns (rest: seq<Section>)
    requires metas != [] && ReadSections(messages, metas).Some?
    ensures metas[0].itemCount <= |messages|
    ensures ReadSections(messages[metas[0].itemCount..], metas[1..]) == Some(rest)
    ensures ReadSections(messages, metas).value == [Section(messages[..metas[0].itemCount], metas[0])] + rest
  {
    rest := ReadSections(messages[metas[0].itemCount..], metas[1..]).value;
  }

  lemma ReadMore(messages: seq<Bytes>, metas: seq<Metadata>, n: nat, rest: seq<Section>)
    requires metas != [] && metas[0].itemCount + n <= |messages|
    requires ReadSections(messages[metas[0].itemCount..][..n], metas[1..]) == Some(rest)
    ensures var k := metas[0].itemCount;
      && ReadSections(messages[..k + n], metas) == Some([Section(messages[..k], metas[0])] + rest)
      && messages[k..][n..] == messages[k + n..]
  {
    var k := metas[0].itemCount;
    assert messages[..k + n][..k] == messages[..k] && messages[..k + n][k..] == messages[k..][..n];
  }

  /** Sections read from more messages, or followed by more metadata. */
  lemma {:induction false} ReadInTwo(messages: seq<Bytes>, m1: seq<Metadata>, m2: seq<Metadata>)
    returns (s1: seq<Section>, s2: seq<Section>, n: nat)
    requires ReadSections(messages, m1 + m2).Some?
    ensures ReadSections(messages, m1 + m2).value == s1 + s2
    ensures n == ItemCount(m1) <= |messages|
    ensures ReadSections(messages[..n], m1) == Some(s1)
    ensures ReadSections(messages[n..], m2) == Some(s2)
    ensures |s1| == |m1|
  {
    if m1 == [] {
      assert m1 + m2 == m2 && messages[0..] == messages;
      s1, s2, n := [], ReadSections(messages, m2).value, 0;
      assert s1 + s2 == s2;
    } else {
      var k, first := m1[0].itemCount, Section(messages[..m1[0].itemCount], m1[0]);
      assert (m1 + m2)[0] == m1[0] && (m1 + m2)[1..] == m1[1..] + m2;
      var rest := ReadFirst(messages, m1 + m2);
      s1, s2, n := ReadInTwo(messages[k..], m1[1..], m2);
      ReadMore(messages, m1, n, s1);
      Associate([first], s1, s2);
      s1, n := [first] + s1, k + n;
    }
  }

  function TotalLength(messages: seq<Bytes>): nat {
    if messages == [] then 0 else |messages[0]| + TotalLength(messages[1..])
  }

  lemma CutFirst(data: Bytes, lengths: seq<int>)
    requires CutMessages(data, lengths) != []
    ensures lengths != [] && 0 <= Int64(lengths[0]) <= |data|
    ensures var first := data[..Int64(lengths[0])];
      CutMessages(data, lengths) == [first] + CutMessages(data[|first|..], lengths[1..])
  {
  }

  lemma CutPut(first: Bytes, data: Bytes, lengths: seq<int>)
    requires lengths != [] && Int64(lengths[0]) == |first|
    ensures CutMessages(first + data, lengths) == [first] + CutMessages(data, lengths[1..])
  {
    assert (first + data)[..|first|] == first && (first + data)[|first|..] == data;
  }

  /** The first `n` messages use up the first `n` lengths and as many bytes as they have. */
  lemma {:induction false} CutInTwo(data: Bytes, lengths: seq<int>, n: nat)
    requires n <= |CutMessages(data, lengths)|
    ensures var off := TotalLength(CutMessages(data, lengths)[..n]);
      && n <= |lengths| && off <= |data|
      && CutMessages(data[..off], lengths[..n]) == CutMessages(data, lengths)[..n]
      && CutMessages(data[off..], lengths[n..]) == CutMessages(data, lengths)[n..]
    decreases n
  {
    var all := CutMessages(data, lengths);
    if n == 0 {
      assert data[0..] == data && lengths[0..] == lengths && all[0..] == all;
    } else {
      CutFirst(data, lengths);
      var first := data[..Int64(lengths[0])];
      var later, rest := data[|first|..], lengths[1..];
      CutInTwo(later, rest, n - 1);
      var off := TotalLength(all[1..][..n - 1]);
      assert all[..n] == [first] + all[1..][..n - 1] && all[..n][1..] == all[1..][..n - 1];
      assert all[1..][n - 1..] == all[n..];
      assert data[..|first| + off] == first + later[..off] && data[|first| + off..] == later[off..];
      assert lengths[..n][1..] == rest[..n - 1] && lengths[n..] == rest[n - 1..] && lengths[..n][0] == lengths[0];
      CutPut(first, later[..off], lengths[..n]);
    }
  }

  lemma {:induction false} ItemsInTwo(h: Accumulators, a: seq<Section>, b: seq<Section>, sender: int, at: Spot)
    ensures BatchItems(h, a + b, sender, at) ==
      BatchItems(h, a, sender, at) + BatchItems(h, b, sender, AfterSections(h, a, sender, at))
    ensures AfterSections(h, a + b, sender, at) == AfterSections(h, b, sender, AfterSections(h, a, sender, at))
  {
    if a == [] {
      assert a + b == b;
    } else {
      var after := AfterSection(h, a[0], sender, at);
      assert (a + b)[0] == a[0] && (a + b)[1..] == a[1..] + b;
      ItemsInTwo(h, a[1..], b, sender, after);
      Associate(SectionItems(h, a[0], sender, at), BatchItems(h, a[1..], sender, after),
                BatchItems(h, b, sender, AfterSections(h, a[1..], sender, after)));
    }
  }

  lemma {:induction false} SpanInTwo(metas: seq<Metadata>, running: int, k: nat)
    requires 0 < k < |metas| && NondecreasingFrom(metas, running)
    ensures NondecreasingFrom(metas[..k], running) && NondecreasingFrom(metas[k..], metas[k - 1].newTotalDelayed)
    ensures MetaSpan(metas, running) == MetaSpan(metas[..k], running) + MetaSpan(metas[k..], metas[k - 1].newTotalDelayed)
    decreases k
  {
    assert metas[..k][1..] == metas[1..][..k - 1];
    if k > 1 {
      SpanInTwo(metas[1..], metas[0].newTotalDelayed, k - 1);
      assert metas[1..][k - 1..] == metas[k..];
    }
  }

  lemma {:induction false} RunningIsLastTotal(h: Accumulators, messages: seq<Bytes>, metas: seq<Metadata>, sender: int,
                                              at: Spot)
    requires metas != [] && NondecreasingFrom(metas, at.running) && ReadSections(messages, metas).Some?
    ensures AfterSections(h, ReadSections(messages, metas).value, sender, at).running
         == metas[|metas| - 1].newTotalDelayed
  {
    var secs, n := ReadSections(messages, metas).value, metas[0].itemCount;
    assert secs[1..] == ReadSections(messages[n..], metas[1..]).value;
    if |metas| > 1 {
      RunningIsLastTotal(h, messages[n..], metas[1..], sender, AfterSection(h, secs[0], sender, at));
    }
  }

  lemma CutMetadata(meta: seq<int>, k: nat)
    requires 5 * k <= |meta|
    ensures Metadatas(meta[..5 * k]) == Metadatas(meta)[..k]
    ensures Metadatas(meta[5 * k..]) == Metadatas(meta)[k..]
  {
    var all := Metadatas(meta);
    assert |Metadatas(meta[5 * k..])| == |all| - k;
    forall i | 0 <= i < |all| - k ensures Metadatas(meta[5 * k..])[i] == all[k + i] {
    }
  }

  /** The messages of the first `k` sections. */
  function FirstMessages(b: Batch, k: nat): (r: seq<Bytes>)
    requires Sections(b).Some? && k <= |Metadatas(b.sectionsMetadata)|
    ensures |r| == ItemCount(Metadatas(b.sectionsMetadata)[..k]) <= |CutMessages(b.transactionsData, b.transactionLengths)|
    ensures r == CutMessages(b.transactionsData, b.transactionLengths)[..|r|]
  {
    EnoughMessages(b, k);
    CutMessages(b.transactionsData, b.transactionLengths)[..ItemCount(Metadatas(b.sectionsMetadata)[..k])]
  }

  lemma EnoughMessages(b: Batch, k: nat)
    requires Sections(b).Some? && k <= |Metadatas(b.sectionsMetadata)|
    ensures ItemCount(Metadatas(b.sectionsMetadata)[..k]) <= |CutMessages(b.transactionsData, b.transactionLengths)|
  {
    var metas := Metadatas(b.sectionsMetadata);
    assert metas == metas[..k] + metas[k..];
    var s1, s2, n := ReadInTwo(CutMessages(b.transactionsData, b.transactionLengths), metas[..k], metas[k..]);
  }

  /** The two halves of a batch cut after section `k`, with the count and the accumulator reached there. */
  function Halves(h: Accumulators, b: Batch, prior: int, k: nat): (Batch, Batch)
    requires Sections(b).Some? && k <= |Metadatas(b.sectionsMetadata)|
  {
    var first := FirstMessages(b, k);
    var mid := AfterSections(h, Sections(b).value[..k], b.sequencer, Spot(prior, b.beforeCount, b.beforeAcc));
    CutInTwo(b.transactionsData, b.transactionLengths, |first|);
    var lo, off := |first|, TotalLength(first);
    (b.(transactionsData := b.transactionsData[..off], transactionLengths := b.transactionLengths[..lo],
        sectionsMetadata := b.sectionsMetadata[..5 * k], afterCount := mid.next, afterAcc := mid.acc),
     b.(transactionsData := b.transactionsData[off..], transactionLengths := b.transactionLengths[lo..],
        sectionsMetadata := b.sectionsMetadata[5 * k..], beforeCount := mid.next, beforeAcc := mid.acc))
  }

  /** What the two halves read: the first sections, and the others. */
  lemma HalvesRead(h: Accumulators, b: Batch, prior: int, k: nat)
    requires Sections(b).Some? && k <= |Metadatas(b.sectionsMetadata)|
    ensures Sections(Halves(h, b, prior, k).0) == Some(Sections(b).value[..k])
    ensures Sections(Halves(h, b, prior, k).1) == Some(Sections(b).value[k..])
  {
    var metas, all := Metadatas(b.sectionsMetadata), CutMessages(b.transactionsData, b.transactionLengths);
    assert metas == metas[..k] + metas[k..];
    var s1, s2, n := ReadInTwo(all, metas[..k], metas[k..]);
    assert (s1 + s2)[..k] == s1 && (s1 + s2)[k..] == s2;
    CutInTwo(b.transactionsData, b.transactionLengths, n);
    CutMetadata(b.sectionsMetadata, k);
  }

  lemma ReachedAfter(h: Accumulators, messages: seq<Bytes>, m1: seq<Metadata>, m2: seq<Metadata>, secs: seq<Section>,
                     sender: int, at: Spot)
    requires m1 != [] && NondecreasingFrom(m1, at.running) && FitInt64(m1)
    requires ReadSections(messages, m1 + m2) == Some(secs)
    ensures |m1| <= |secs|
    ensures AfterSections(h, secs[..|m1|], sender, at).next == at.next + MetaSpan(m1, at.running)
    ensures AfterSections(h, secs[..|m1|], sender, at).running == m1[|m1| - 1].newTotalDelayed
  {
    var s1, s2, n := ReadInTwo(messages, m1, m2);
    assert secs[..|m1|] == s1;
    SectionsArrive(h, messages[..n], m1, s1, sender, at);
    RunningIsLastTotal(h, messages[..n], m1, sender, at);
  }

  lemma ReachedInBetween(h: Accumulators, b: Batch, prior: int, k: nat)
    requires Fits(b, prior) && 0 < k < |Metadatas(b.sectionsMetadata)| && Sections(b).Some?
    ensures var metas := Metadatas(b.sectionsMetadata);
      var mid := AfterSections(h, Sections(b).value[..k], b.sequencer,
                               Spot(prior, b.beforeCount, b.beforeAcc));
      && mid.next == b.beforeCount + MetaSpan(metas[..k], prior)
      && mid.running == metas[k - 1].newTotalDelayed
  {
    var metas := Metadatas(b.sectionsMetadata);
    SpanInTwo(metas, prior, k);
    assert metas == metas[..k] + metas[k..];
    ReachedAfter(h, CutMessages(b.transactionsData, b.transactionLengths), metas[..k], metas[k..], Sections(b).value,
                 b.sequencer, Spot(prior, b.beforeCount, b.beforeAcc));
  }

  /** Both halves have counts that fit: the first the same prior count, the second the one reached in between. */
  lemma HalvesCount(h: Accumulators, b: Batch, prior: int, k: nat)
    requires Fits(b, prior) && 0 < k < |Metadatas(b.sectionsMetadata)| && Sections(b).Some?
    ensures var (b1, b2) := Halves(h, b, prior, k);
      var mid := AfterSections(h, Sections(b).value[..k], b.sequencer, Spot(prior, b.beforeCount, b.beforeAcc));
      Fits(b1, prior) && Fits(b2, mid.running)
  {
    CutMetadata(b.sectionsMetadata, k);
    SpanInTwo(Metadatas(b.sectionsMetadata), prior, k);
    ReachedInBetween(h, b, prior, k);
  }

  lemma {:induction false} InfoInTwo(a: seq<Section>, b: seq<Section>, h: Accumulators, sender: int, at: Spot, acc: Hash)
    ensures DelayedAccAfter(a + b, at.running, acc) ==
      DelayedAccAfter(b, AfterSections(h, a, sender, at).running, DelayedAccAfter(a, at.running, acc))
  {
    if a == [] {
      assert a + b == b;
    } else {
      assert (a + b)[0] == a[0] && (a + b)[1..] == a[1..] + b;
      InfoInTwo(a[1..], b, h, sender, AfterSection(h, a[0], sender, at),
                if a[0].meta.newTotalDelayed > at.running then a[0].meta.newDelayedAcc else acc);
    }
  }

  /** Sections that read delayed messages forget the accumulator from before; the others keep it. */
  lemma {:induction false} InfoFromHere(secs: seq<Section>, h: Accumulators, sender: int, at: Spot, acc: Hash)
    ensures AfterSections(h, secs, sender, at).running >= at.running
    ensures DelayedAccAfter(secs, at.running, acc) ==
      if AfterSections(h, secs, sender, at).running > at.running then DelayedAccAfter(secs, at.running, ZERO_HASH) else acc
  {
    if secs != [] {
      var after := AfterSection(h, secs[0], sender, at);
      InfoFromHere(secs[1..], h, sender, after,
                   if secs[0].meta.newTotalDelayed > at.running then secs[0].meta.newDelayedAcc else acc);
      InfoFromHere(secs[1..], h, sender, after,
                   if secs[0].meta.newTotalDelayed > at.running then secs[0].meta.newDelayedAcc else ZERO_HASH);
    }
  }

  lemma CountIsLow(n: int)
    requires n >= 0
    ensures Count(n) <= n
  {
  }

  /** Sections take no more than their metadata announces, and less if a count does not fit in 64 bits. */
  lemma {:induction false} SpanAtMost(messages: seq<Bytes>, metas: seq<Metadata>, running: int)
    requires ReadSections(messages, metas).Some?
    requires forall m :: m in metas ==> m.numItems >= 0 && m.itemCount == Count(m.numItems)
    ensures Span(ReadSections(messages, metas).value, running) <= MetaSpan(metas, running)
    ensures Span(ReadSections(messages, metas).value, running) == MetaSpan(metas, running) ==> FitInt64(metas)
  {
    if metas != [] {
      var m := metas[0];
      assert m in metas;
      CountIsLow(m.numItems);
      var rest := ReadFirst(messages, metas);
      SpanAtMost(messages[m.itemCount..], metas[1..], Max(running, m.newTotalDelayed));
      assert ([Section(messages[..m.itemCount], m)] + rest)[1..] == rest;
      assert forall x :: x in metas ==> x == m || x in metas[1..];
    }
  }

  /** Counts that arrive where they should fit, with the inferred prior count. */
  lemma ArrivalMeansFit(messages: seq<Bytes>, metas: seq<Metadata>, total: int, prior: int)
    requires metas != [] && NondecreasingFrom(metas, metas[0].newTotalDelayed)
    requires forall m :: m in metas ==> m.numItems >= 0 && m.itemCount == Count(m.numItems)
    requires ReadSections(messages, metas).Some?
    requires Unaccounted(metas, total) >= 0 && prior == PriorDelayed(metas, total)
    requires total == Span(ReadSections(messages, metas).value, prior)
    ensures NondecreasingFrom(metas, prior) && FitInt64(metas) && total == MetaSpan(metas, prior)
  {
    assert NondecreasingFrom(metas, prior);
    SpanIsFirstAndLater(metas, prior);
    SpanAtMost(messages, metas, prior);
  }

  /** A successful run shows that the counts fit, with the inferred prior count. */
  lemma SuccessMeansFit(h: Accumulators, b: Batch)
    requires var metas := Metadatas(b.sectionsMetadata);
      metas != [] && NondecreasingFrom(metas, metas[0].newTotalDelayed) && forall m :: m in metas ==> m.numItems >= 0
    requires Items(h, b).Ok?
    ensures Fits(b, PriorDelayed(Metadatas(b.sectionsMetadata), b.afterCount - b.beforeCount))
  {
    var metas, total := Metadatas(b.sectionsMetadata), b.afterCount - b.beforeCount;
    var prior := PriorDelayed(metas, total);
    NextIsSpan(h, Sections(b).value, b.sequencer, Spot(prior, b.beforeCount, b.beforeAcc));
    ArrivalMeansFit(CutMessages(b.transactionsData, b.transactionLengths), metas, total, prior);
  }

  lemma HalvesChecked(h: Accumulators, b: Batch, secs: seq<Section>, k: nat, prior: int, b1: Batch, b2: Batch)
    requires k <= |secs| && Checked(h, b, secs, prior).Ok?
    requires var mid := AfterSections(h, secs[..k], b.sequencer, Spot(prior, b.beforeCount, b.beforeAcc));
      && b1 == b1.(beforeCount := b.beforeCount, beforeAcc := b.beforeAcc, afterCount := mid.next, afterAcc := mid.acc,
                   sequencer := b.sequencer)
      && b2 == b2.(beforeCount := mid.next, beforeAcc := mid.acc, afterCount := b.afterCount, afterAcc := b.afterAcc,
                   sequencer := b.sequencer)
    ensures var start := Spot(prior, b.beforeCount, b.beforeAcc);
      var mid, end := AfterSections(h, secs[..k], b.sequencer, start), AfterSections(h, secs, b.sequencer, start);
      var r, r1, r2 := Checked(h, b, secs, prior), Checked(h, b1, secs[..k], prior), Checked(h, b2, secs[k..], mid.running);
      && r1.Ok? && r2.Ok? && r.value.0 == r1.value.0 + r2.value.0
      && end.running >= mid.running
      && r.value.1 == if end.running > mid.running then r2.value.1 else r1.value.1
  {
    var start := Spot(prior, b.beforeCount, b.beforeAcc);
    var mid := AfterSections(h, secs[..k], b.sequencer, start);
    assert secs[..k] + secs[k..] == secs;
    ItemsInTwo(h, secs[..k], secs[k..], b.sequencer, start);
    InfoInTwo(secs[..k], secs[k..], h, b.sequencer, start, ZERO_HASH);
    InfoFromHere(secs[k..], h, b.sequencer, mid, DelayedAccAfter(secs[..k], prior, ZERO_HASH));
  }

  lemma FittingIsChecked(h: Accumulators, b: Batch, prior: int, secs: seq<Section>)
    requires Fits(b, prior) && Sections(b) == Some(secs)
    ensures Items(h, b) == Checked(h, b, secs, prior)
  {
    CountsNeverFail(h, b, prior);
  }

  lemma CutFittingBatch(h: Accumulators, b: Batch, prior: int, secs: seq<Section>, k: nat)
    requires Fits(b, prior) && Sections(b) == Some(secs) && Items(h, b).Ok? && 0 < k < |Metadatas(b.sectionsMetadata)|
    ensures var (b1, b2) := Halves(h, b, prior, k);
      var start := Spot(prior, b.beforeCount, b.beforeAcc);
      var mid, end := AfterSections(h, secs[..k], b.sequencer, start), AfterSections(h, secs, b.sequencer, start);
      && Items(h, b1).Ok? && Items(h, b2).Ok?
      && Items(h, b).value.0 == Items(h, b1).value.0 + Items(h, b2).value.0
      && Items(h, b).value.1 == if end.running > mid.running then Items(h, b2).value.1 else Items(h, b1).value.1
  {
    var start := Spot(prior, b.beforeCount, b.beforeAcc);
    var mid := AfterSections(h, secs[..k], b.sequencer, start);
    var (b1, b2) := Halves(h, b, prior, k);
    HalvesRead(h, b, prior, k);
    HalvesCount(h, b, prior, k);
    FittingIsChecked(h, b, prior, secs);
    FittingIsChecked(h, b1, prior, secs[..k]);
    FittingIsChecked(h, b2, mid.running, secs[k..]);
    HalvesChecked(h, b, secs, k, prior, b1, b2);
  }

  lemma LastTotals(h: Accumulators, b: Batch, prior: int, secs: seq<Section>, k: nat)
    requires Fits(b, prior) && Sections(b) == Some(secs) && 0 < k < |Metadatas(b.sectionsMetadata)|
    ensures var start, metas := Spot(prior, b.beforeCount, b.beforeAcc), Metadatas(b.sectionsMetadata);
      && AfterSections(h, secs[..k], b.sequencer, start).running == metas[k - 1].newTotalDelayed
      && AfterSections(h, secs, b.sequencer, start).running == metas[|metas| - 1].newTotalDelayed
  {
    ReachedInBetween(h, b, prior, k);
    RunningIsLastTotal(h, CutMessages(b.transactionsData, b.transactionLengths), Metadatas(b.sectionsMetadata),
                       b.sequencer, Spot(prior, b.beforeCount, b.beforeAcc));
  }

  /**
   Decoding the halves of a batch cut at any section gives the items of the whole, one half after the other, and its
   delayed info is that of the second half if this half reads delayed messages, and of the first if not.
   */
  lemma CutBatchDecodesAlike(h: Accumulators, b: Batch, k: nat)
    requires var metas := Metadatas(b.sectionsMetadata);
      && 0 < k < |metas| && NondecreasingFrom(metas, metas[0].newTotalDelayed)
      && forall m :: m in metas ==> m.numItems >= 0
    requires Items(h, b).Ok?
    ensures Sections(b).Some?
    ensures var metas := Metadatas(b.sectionsMetadata);
      var (b1, b2) := Halves(h, b, PriorDelayed(metas, b.afterCount - b.beforeCount), k);
      && Items(h, b1).Ok? && Items(h, b2).Ok?
      && Items(h, b).value.0 == Items(h, b1).value.0 + Items(h, b2).value.0
      && Items(h, b).value.1 ==
           if metas[|metas| - 1].newTotalDelayed > metas[k - 1].newTotalDelayed then Items(h, b2).value.1
           else Items(h, b1).value.1
  {
    var prior := PriorDelayed(Metadatas(b.sectionsMetadata), b.afterCount - b.beforeCount);
    SuccessMeansFit(h, b);
    CutFittingBatch(h, b, prior, Sections(b).value, k);
    LastTotals(h, b, prior, Sections(b).value, k);
  }
}
