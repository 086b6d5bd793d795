/**
 What the contract's checks come to for the node: the batches it accepts are those the node rebuilds from sections that
 pass them, every item comes after the first delayed message, and the delayed info names a real accumulator.
 */
module SequencerInboxLaws {
  import opened Hashing
  import opened SequencerBatch
  import opened SequencerBatchLaws
  import opened SequencerInbox

  // ----- What accepted sections have passed -----

  function TotalBefore(metas: seq<Metadata>, k: int, running: int): int
    requires 0 <= k < |metas|
  {
    if k == 0 then running else metas[k - 1].newTotalDelayed
  }

  /**
   A section inside the window that reads on, from the messages there are, as their accumulator confirms; nothing else
   comes before the first of them.
   */
  predicate SectionPasses(outer: Outer, m: Metadata, before: int) {
    && outer.timely(m.chainTime)
    && 1 <= m.newTotalDelayed && before <= m.newTotalDelayed
    && (before == 0 ==> m.numItems == 0)
    && (before < m.newTotalDelayed ==>
          m.newTotalDelayed <= |outer.delayedAccs| && outer.delayedAccs[m.newTotalDelayed - 1] == m.newDelayedAcc)
  }

  predicate Passes(outer: Outer, metas: seq<Metadata>, running: int) {
    forall k :: 0 <= k < |metas| ==> SectionPasses(outer, metas[k], TotalBefore(metas, k, running))
  }

  lemma PassesFirst(outer: Outer, metas: seq<Metadata>, running: int)
    requires metas != []
    ensures Passes(outer, metas, running) <==>
      SectionPasses(outer, metas[0], running) && Passes(outer, metas[1..], metas[0].newTotalDelayed)
  {
    var rest, total := metas[1..], metas[0].newTotalDelayed;
    assert TotalBefore(metas, 0, running) == running;
    assert forall k :: 0 <= k < |rest| ==> TotalBefore(rest, k, total) == TotalBefore(metas, k + 1, running);
    if SectionPasses(outer, metas[0], running) && Passes(outer, rest, total) {
      forall k | 0 <= k < |metas| ensures SectionPasses(outer, metas[k], TotalBefore(metas, k, running)) {
        if k > 0 {
          assert SectionPasses(outer, rest[k - 1], TotalBefore(rest, k - 1, total));
        }
      }
    }
    if Passes(outer, metas, running) {
      forall k | 0 <= k < |rest| ensures SectionPasses(outer, rest[k], TotalBefore(rest, k, total)) {
        assert SectionPasses(outer, metas[k + 1], TotalBefore(metas, k + 1, running));
      }
      assert SectionPasses(outer, metas[0], TotalBefore(metas, 0, running));
    }
  }

  /** The lengths of the next `n` messages are small enough to be hashed. */
  predicate LengthsFit(lengths: seq<int>, from: nat, n: nat) {
    forall j :: from <= j < from + n && j < |lengths| ==> 0 <= lengths[j] < TWO_63
  }

  lemma {:induction false} CalcLengths(h: Accumulators, outer: Outer, data: Bytes, lengths: seq<int>, i: nat, end: int,
                                       sender: int, time: ChainTime, offset: nat, at: Spot)
    requires CalcL2Batch(h, outer, data, lengths, i, end, sender, time, offset, at).Some?
    ensures end > i ==> LengthsFit(lengths, i, end - i)
    decreases end - i
  {
    if i < end {
      var acc := h.message(at.acc, at.next, sender, time, HashedBytes(outer, data, offset, lengths[i]));
      CalcLengths(h, outer, data, lengths, i + 1, end, sender, time, offset + lengths[i],
                  at.(next := at.next + 1, acc := acc));
    }
  }

  lemma SectionAccepted(h: Accumulators, outer: Outer, data: Bytes, lengths: seq<int>, m: Metadata, sender: int, c: Cursor)
    requires 0 <= m.numItems < TWO_256 && |lengths| < TWO_63 && c.processed <= |lengths| && c.at.running >= 0
    requires AddSection(h, outer, data, lengths, m, sender, c).Some?
    ensures SectionPasses(outer, m, c.at.running)
    ensures m.numItems <= |lengths| ==> LengthsFit(lengths, c.processed, m.numItems)
  {
    var end := NextProcessed(c.processed, m.numItems);
    SumWraps(c.processed, m.numItems);
    CalcAdvances(h, outer, data, lengths, c.processed, end, sender, m.chainTime, c.offset, c.at);
    CalcLengths(h, outer, data, lengths, c.processed, end, sender, m.chainTime, c.offset, c.at);
  }

  lemma {:induction false} AcceptedPasses(h: Accumulators, outer: Outer, data: Bytes, lengths: seq<int>,
                                          metas: seq<Metadata>, sender: int, c: Cursor)
    requires AreCounts(metas) && |lengths| < TWO_63 && c.processed <= |lengths| && c.at.running >= 0
    requires AddSections(h, outer, data, lengths, metas, sender, c).Some?
    ensures Passes(outer, metas, c.at.running)
    decreases metas
  {
    if metas != [] {
      var m := metas[0];
      assert m in metas && AreCounts(metas[1..]);
      SectionAccepted(h, outer, data, lengths, m, sender, c);
      SectionAdvances(h, outer, data, lengths, m, sender, c);
      AcceptedPasses(h, outer, data, lengths, metas[1..], sender, AddSection(h, outer, data, lengths, m, sender, c).value);
      PassesFirst(outer, metas, c.at.running);
    }
  }

  predicate TrueCounts(metas: seq<Metadata>, lengths: seq<int>) {
    forall m :: m in metas ==> 0 <= m.numItems <= |lengths| && m.itemCount == m.numItems
  }

  lemma {:induction false} AcceptedLengths(h: Accumulators, outer: Outer, data: Bytes, lengths: seq<int>,
                                           metas: seq<Metadata>, sender: int, c: Cursor)
    requires TrueCounts(metas, lengths) && |lengths| < TWO_63 && c.processed <= |lengths| && c.at.running >= 0
    requires AddSections(h, outer, data, lengths, metas, sender, c).Some?
    ensures LengthsFit(lengths, c.processed, ItemCount(metas))
    decreases metas
  {
    if metas != [] {
      var m := metas[0];
      var next := AddSection(h, outer, data, lengths, m, sender, c).value;
      assert m in metas && TrueCounts(metas[1..], lengths);
      SectionAccepted(h, outer, data, lengths, m, sender, c);
      SectionAdvances(h, outer, data, lengths, m, sender, c);
      SumWraps(c.processed, m.numItems);
      AcceptedLengths(h, outer, data, lengths, metas[1..], sender, next);
      assert LengthsFit(lengths, c.processed + m.itemCount, ItemCount(metas[1..]));
    }
  }

  // ----- What passes is accepted -----

  lemma {:induction false} CalcSucceeds(h: Accumulators, outer: Outer, b: Batch, sender: int, time: ChainTime, o: Offsets,
                                        n: nat, at: Spot)
    requires Inside(b, o) && n <= |MessagesAhead(b, o)| && LengthsFit(b.transactionLengths, o.lengths, n)
    ensures var r := CalcL2Batch(h, outer, b.transactionsData, b.transactionLengths, o.lengths, o.lengths + n, sender, time,
                                 o.data, at);
      r.Some? && r.value.1 <= |b.transactionsData|
    decreases n
  {
    if n > 0 {
      var data, lengths := b.transactionsData, b.transactionLengths;
      NextMessage(b, o);
      var length := lengths[o.lengths];
      SmallIsInt64(length);
      var acc := h.message(at.acc, at.next, sender, time, HashedBytes(outer, data, o.data, length));
      CalcSucceeds(h, outer, b, sender, time, Offsets(o.lengths + 1, o.data + length), n - 1,
                   at.(next := at.next + 1, acc := acc));
    }
  }

  lemma SectionSucceeds(h: Accumulators, outer: Outer, b: Batch, m: Metadata, sender: int, c: Cursor) returns (next: Cursor)
    requires Inside(b, Offsets(c.processed, c.offset)) && |b.transactionLengths| < TWO_63
    requires m.numItems == m.itemCount <= |MessagesAhead(b, Offsets(c.processed, c.offset))|
    requires m.numItems <= |b.transactionLengths| && LengthsFit(b.transactionLengths, c.processed, m.itemCount)
    requires 0 <= c.at.running && SectionPasses(outer, m, c.at.running)
    ensures AddSection(h, outer, b.transactionsData, b.transactionLengths, m, sender, c) == Some(next)
    ensures next.processed == c.processed + m.itemCount && next.at.running == m.newTotalDelayed
    ensures Inside(b, Offsets(next.processed, next.offset))
    ensures MessagesAhead(b, Offsets(next.processed, next.offset))
         == MessagesAhead(b, Offsets(c.processed, c.offset))[m.itemCount..]
  {
    var data, lengths := b.transactionsData, b.transactionLengths;
    var o := Offsets(c.processed, c.offset);
    CalcSucceeds(h, outer, b, sender, m.chainTime, o, m.itemCount, c.at);
    CalcAdvances(h, outer, data, lengths, c.processed, c.processed + m.itemCount, sender, m.chainTime, c.offset, c.at);
    SumWraps(c.processed, m.numItems);
    next := AddSection(h, outer, data, lengths, m, sender, c).value;
    SectionAdvances(h, outer, data, lengths, m, sender, c);
    SectionIsRead(h, outer, b, data, lengths, m, sender, c, m.itemCount, next);
  }

  lemma {:induction false} SectionsSucceed(h: Accumulators, outer: Outer, b: Batch, metas: seq<Metadata>, sender: int,
                                           c: Cursor)
    requires Inside(b, Offsets(c.processed, c.offset)) && |b.transactionLengths| < TWO_63
    requires TrueCounts(metas, b.transactionLengths) && LengthsFit(b.transactionLengths, c.processed, ItemCount(metas))
    requires 0 <= c.at.running && Passes(outer, metas, c.at.running)
    requires ReadSections(MessagesAhead(b, Offsets(c.processed, c.offset)), metas).Some?
    ensures var r := AddSections(h, outer, b.transactionsData, b.transactionLengths, metas, sender, c);
      r.Some? && r.value.offset <= |b.transactionsData|
    decreases metas
  {
    if metas != [] {
      var m := metas[0];
      assert m in metas && TrueCounts(metas[1..], b.transactionLengths);
      PassesFirst(outer, metas, c.at.running);
      assert LengthsFit(b.transactionLengths, c.processed, m.itemCount);
      var next := SectionSucceeds(h, outer, b, m, sender, c);
      assert LengthsFit(b.transactionLengths, next.processed, ItemCount(metas[1..]));
      SectionsSucceed(h, outer, b, metas[1..], sender, next);
    }
  }

  lemma TrueMetadata(meta: seq<int>, lengths: seq<int>)
    requires AreWords(meta) && CountsAreTrue(meta, lengths) && |lengths| < TWO_63
    ensures AreCounts(Metadatas(meta)) && TrueCounts(Metadatas(meta), lengths)
  {
    MetadataWords(meta);
    forall m | m in Metadatas(meta) ensures 0 <= m.numItems <= |lengths| && m.itemCount == m.numItems {
      SmallIsInt64(m.numItems);
    }
  }

  /** The batch the node is to find rebuildable for the contract to accept the call. */
  function Expected(inbox: Spot, data: Bytes, lengths: seq<int>, meta: seq<int>, sender: int, afterAcc: Hash): Batch {
    Delivered(inbox, data, [], lengths, meta, sender, inbox.next + MetaSpan(Metadatas(meta), inbox.running), afterAcc)
  }

  lemma AcceptedSections(h: Accumulators, outer: Outer, inbox: Spot, data: Bytes, lengths: seq<int>,
                         metas: seq<Metadata>, sender: int, end: Cursor)
    requires 0 <= inbox.running && AreCounts(metas) && TrueCounts(metas, lengths) && |lengths| < TWO_63
    requires AddSections(h, outer, data, lengths, metas, sender, Cursor(inbox, 0, 0)) == Some(end)
    ensures Passes(outer, metas, inbox.running) && LengthsFit(lengths, 0, ItemCount(metas))
    ensures end.at.next == inbox.next + MetaSpan(metas, inbox.running)
  {
    AcceptedPasses(h, outer, data, lengths, metas, sender, Cursor(inbox, 0, 0));
    AcceptedLengths(h, outer, data, lengths, metas, sender, Cursor(inbox, 0, 0));
    AcceptedSpan(h, outer, data, lengths, metas, sender, Cursor(inbox, 0, 0));
  }

  lemma AcceptedCall(h: Accumulators, outer: Outer, inbox: Spot, data: Bytes, lengths: seq<int>, meta: seq<int>,
                     sender: int, afterAcc: Hash) returns (end: Cursor)
    requires AreWords(meta) && AddSequencerL2Batch(h, outer, inbox, data, lengths, meta, sender, afterAcc).Some?
    ensures AddSections(h, outer, data, lengths, Metadatas(meta), sender, Cursor(inbox, 0, 0)) == Some(end)
    ensures AddSequencerL2Batch(h, outer, inbox, data, lengths, meta, sender, afterAcc) == Some(end.at)
    ensures end.at.next > inbox.next
  {
    SectionsParsedAlike(meta);
    end := AddSections(h, outer, data, lengths, Metadatas(meta), sender, Cursor(inbox, 0, 0)).value;
  }

  lemma CallPasses(h: Accumulators, outer: Outer, inbox: Spot, data: Bytes, lengths: seq<int>, meta: seq<int>,
                   sender: int, end: Cursor)
    requires 0 <= inbox.running && |lengths| < TWO_63 && AreWords(meta) && CountsAreTrue(meta, lengths)
    requires AddSections(h, outer, data, lengths, Metadatas(meta), sender, Cursor(inbox, 0, 0)) == Some(end)
    ensures Passes(outer, Metadatas(meta), inbox.running) && LengthsFit(lengths, 0, ItemCount(Metadatas(meta)))
    ensures end.at.next == inbox.next + MetaSpan(Metadatas(meta), inbox.running)
  {
    TrueMetadata(meta, lengths);
    AcceptedSections(h, outer, inbox, data, lengths, Metadatas(meta), sender, end);
  }

  lemma AcceptedIsOk(h: Accumulators, outer: Outer, inbox: Spot, data: Bytes, spare: Bytes, lengths: seq<int>,
                     meta: seq<int>, sender: int, afterAcc: Hash, after: Spot)
    requires Possible(outer, inbox, lengths, meta) && CountsAreTrue(meta, lengths)
    requires AddSequencerL2Batch(h, outer, inbox, data, lengths, meta, sender, afterAcc) == Some(after)
    ensures Items(h, Delivered(inbox, data, spare, lengths, meta, sender, after.next, afterAcc)).Ok?
  {
    AcceptedBatchIsRebuilt(h, outer, inbox, data, spare, lengths, meta, sender, afterAcc);
  }

  lemma WhatIsAccepted(h: Accumulators, outer: Outer, inbox: Spot, data: Bytes, lengths: seq<int>, meta: seq<int>,
                       sender: int, afterAcc: Hash)
    requires Possible(outer, inbox, lengths, meta) && CountsAreTrue(meta, lengths)
    requires AddSequencerL2Batch(h, outer, inbox, data, lengths, meta, sender, afterAcc).Some?
    ensures Passes(outer, Metadatas(meta), inbox.running) && LengthsFit(lengths, 0, ItemCount(Metadatas(meta)))
    ensures MetaSpan(Metadatas(meta), inbox.running) > 0
    ensures Items(h, Expected(inbox, data, lengths, meta, sender, afterAcc)).Ok?
  {
    var end := AcceptedCall(h, outer, inbox, data, lengths, meta, sender, afterAcc);
    CallPasses(h, outer, inbox, data, lengths, meta, sender, end);
    AcceptedIsOk(h, outer, inbox, data, [], lengths, meta, sender, afterAcc, end.at);
  }

  lemma WhatSucceeds(h: Accumulators, outer: Outer, inbox: Spot, data: Bytes, lengths: seq<int>, meta: seq<int>,
                     sender: int, afterAcc: Hash)
    requires Possible(outer, inbox, lengths, meta) && CountsAreTrue(meta, lengths)
    requires Passes(outer, Metadatas(meta), inbox.running) && LengthsFit(lengths, 0, ItemCount(Metadatas(meta)))
    requires MetaSpan(Metadatas(meta), inbox.running) > 0
    requires Items(h, Expected(inbox, data, lengths, meta, sender, afterAcc)).Ok?
    ensures AddSequencerL2Batch(h, outer, inbox, data, lengths, meta, sender, afterAcc).Some?
  {
    var metas, c := Metadatas(meta), Cursor(inbox, 0, 0);
    var b := Expected(inbox, data, lengths, meta, sender, afterAcc);
    SectionsParsedAlike(meta);
    TrueMetadata(meta, lengths);
    assert b.transactionsData == data && data[0..] == data && lengths[0..] == lengths;
    SectionsSucceed(h, outer, b, metas, sender, c);
    AcceptedSpan(h, outer, data, lengths, metas, sender, c);
    var end := AddSections(h, outer, data, lengths, metas, sender, c).value;
    TrueCountsFit(h, outer, inbox, data, [], lengths, meta, sender, end);
    FittingIsChecked(h, b, inbox.running, Sections(b).value);
  }

  /**
   The contract accepts a call with true counts exactly if its sections pass, the lengths used can be hashed, there is
   something in it, and GetItems succeeds on the batch it would deliver.
   */
  lemma AcceptsExactlyRebuildable(h: Accumulators, outer: Outer, inbox: Spot, data: Bytes, lengths: seq<int>,
                                  meta: seq<int>, sender: int, afterAcc: Hash)
    requires Possible(outer, inbox, lengths, meta) && CountsAreTrue(meta, lengths)
    ensures AddSequencerL2Batch(h, outer, inbox, data, lengths, meta, sender, afterAcc).Some? <==>
      && Passes(outer, Metadatas(meta), inbox.running) && LengthsFit(lengths, 0, ItemCount(Metadatas(meta)))
      && MetaSpan(Metadatas(meta), inbox.running) > 0
      && Items(h, Expected(inbox, data, lengths, meta, sender, afterAcc)).Ok?
  {
    if AddSequencerL2Batch(h, outer, inbox, data, lengths, meta, sender, afterAcc).Some? {
      WhatIsAccepted(h, outer, inbox, data, lengths, meta, sender, afterAcc);
    } else if Passes(outer, Metadatas(meta), inbox.running) && LengthsFit(lengths, 0, ItemCount(Metadatas(meta)))
           && MetaSpan(Metadatas(meta), inbox.running) > 0
           && Items(h, Expected(inbox, data, lengths, meta, sender, afterAcc)).Ok? {
      WhatSucceeds(h, outer, inbox, data, lengths, meta, sender, afterAcc);
    }
  }

  // ----- Delayed messages -----

  function LastTotal(metas: seq<Metadata>, running: int): int {
    if metas == [] then running else metas[|metas| - 1].newTotalDelayed
  }

  lemma FirstAccumulator(first: Section, rest: seq<Section>, running: int, acc: Hash)
    requires running <= first.meta.newTotalDelayed
    ensures DelayedAccAfter([first] + rest, running, acc)
         == DelayedAccAfter(rest, first.meta.newTotalDelayed,
                            if first.meta.newTotalDelayed > running then first.meta.newDelayedAcc else acc)
  {
    assert ([first] + rest)[1..] == rest;
  }

  lemma FirstTotal(metas: seq<Metadata>, running: int)
    requires metas != []
    ensures LastTotal(metas, running) == LastTotal(metas[1..], metas[0].newTotalDelayed)
  {
  }

  /** `acc` is the delayed inbox's accumulator after `total` messages, if any were read after `running`; else `before`. */
  predicate IsAccumulator(outer: Outer, total: int, running: int, before: Hash, acc: Hash) {
    && total >= running && (total > running ==> 0 < total <= |outer.delayedAccs|)
    && acc == if total > running then outer.delayedAccs[total - 1] else before
  }

  lemma AccumulatorAfterFirst(outer: Outer, m: Metadata, running: int, total: int, before: Hash, acc: Hash)
    requires SectionPasses(outer, m, running)
    requires IsAccumulator(outer, total, m.newTotalDelayed,
                           if m.newTotalDelayed > running then m.newDelayedAcc else before, acc)
    ensures IsAccumulator(outer, total, running, before, acc)
  {
  }

  /** The accumulator GetItems ends with is the delayed inbox's own, after the messages read. */
  lemma {:induction false} InfoIsAccumulator(outer: Outer, messages: seq<Bytes>, metas: seq<Metadata>, running: int,
                                             acc: Hash)
    requires ReadSections(messages, metas).Some? && Passes(outer, metas, running)
    ensures IsAccumulator(outer, LastTotal(metas, running), running, acc,
                          DelayedAccAfter(ReadSections(messages, metas).value, running, acc))
  {
    if metas != [] {
      var m := metas[0];
      PassesFirst(outer, metas, running);
      var rest := ReadFirst(messages, metas);
      var acc' := if m.newTotalDelayed > running then m.newDelayedAcc else acc;
      FirstAccumulator(Section(messages[..m.itemCount], m), rest, running, acc);
      FirstTotal(metas, running);
      InfoIsAccumulator(outer, messages[m.itemCount..], metas[1..], m.newTotalDelayed, acc');
      AccumulatorAfterFirst(outer, m, running, LastTotal(metas, running), acc,
                            DelayedAccAfter(rest, m.newTotalDelayed, acc'));
    }
  }

  lemma {:induction false} MessageCounts(h: Accumulators, messages: seq<Bytes>, sender: int, time: ChainTime, at: Spot)
    ensures forall item :: item in MessageItems(h, messages, sender, time, at) ==> item.totalDelayedCount == at.running
  {
    if messages != [] {
      var item := MessageItem(h, messages[0], sender, time, at.running, at.next, at.acc);
      MessageCounts(h, messages[1..], sender, time, at.(next := at.next + 1, acc := item.accumulator));
    }
  }

  predicate AllInitialised(items: seq<Item>) {
    forall item :: item in items ==> item.totalDelayedCount >= 1
  }

  /** Every item comes with or after the first delayed message. */
  lemma {:induction false} ItemsAreInitialised(h: Accumulators, outer: Outer, messages: seq<Bytes>, metas: seq<Metadata>,
                                               sender: int, at: Spot)
    requires ReadSections(messages, metas).Some? && at.running >= 0 && Passes(outer, metas, at.running)
    requires forall m :: m in metas ==> m.itemCount == m.numItems
    ensures AllInitialised(BatchItems(h, ReadSections(messages, metas).value, sender, at))
  {
    if metas != [] {
      var m := metas[0];
      assert m in metas;
      PassesFirst(outer, metas, at.running);
      var rest := ReadFirst(messages, metas);
      var first := Section(messages[..m.itemCount], m);
      assert ([first] + rest)[1..] == rest;
      MessageCounts(h, first.messages, sender, m.chainTime, at);
      assert AllInitialised(SectionItems(h, first, sender, at));
      ItemsAreInitialised(h, outer, messages[m.itemCount..], metas[1..], sender, AfterSection(h, first, sender, at));
    }
  }

  lemma ItemsAndInfoOf(h: Accumulators, outer: Outer, messages: seq<Bytes>, metas: seq<Metadata>, sender: int, at: Spot)
    requires ReadSections(messages, metas).Some? && at.running >= 0 && Passes(outer, metas, at.running)
    requires metas != [] && NondecreasingFrom(metas, at.running) && FitInt64(metas) && MetaSpan(metas, at.running) > 0
    ensures var secs := ReadSections(messages, metas).value;
      var items, total := BatchItems(h, secs, sender, at), AfterSections(h, secs, sender, at).running;
      && items != [] && AllInitialised(items)
      && IsAccumulator(outer, total, at.running, ZERO_HASH, DelayedAccAfter(secs, at.running, ZERO_HASH))
  {
    var secs := ReadSections(messages, metas).value;
    InfoIsAccumulator(outer, messages, metas, at.running, ZERO_HASH);
    RunningIsLastTotal(h, messages, metas, sender, at);
    ItemsAreInitialised(h, outer, messages, metas, sender, at);
    SectionsTile(h, secs, sender, at);
    SectionsArrive(h, messages, metas, secs, sender, at);
  }

  lemma InfoOfChecked(h: Accumulators, b: Batch, secs: seq<Section>, running: int)
    requires Checked(h, b, secs, running).Ok?
    ensures var (items, info) := Checked(h, b, secs, running).value;
      var at := Spot(running, b.beforeCount, b.beforeAcc);
      var acc := DelayedAccAfter(secs, running, ZERO_HASH);
      && items == BatchItems(h, secs, b.sequencer, at)
      && info == if acc == ZERO_HASH then None
                 else Some(DelayedInfo(AfterSections(h, secs, b.sequencer, at).running, acc))
  {
  }

  lemma AcceptedFits(h: Accumulators, outer: Outer, inbox: Spot, data: Bytes, spare: Bytes, lengths: seq<int>,
                     meta: seq<int>, sender: int, afterAcc: Hash, after: Spot)
    requires Possible(outer, inbox, lengths, meta) && CountsAreTrue(meta, lengths)
    requires AddSequencerL2Batch(h, outer, inbox, data, lengths, meta, sender, afterAcc) == Some(after)
    ensures var b := Delivered(inbox, data, spare, lengths, meta, sender, after.next, afterAcc);
      && Fits(b, inbox.running) && Sections(b).Some? && Items(h, b).Ok?
      && Items(h, b) == Checked(h, b, Sections(b).value, inbox.running)
      && after == AfterSections(h, Sections(b).value, sender, inbox)
  {
    var b := Delivered(inbox, data, spare, lengths, meta, sender, after.next, afterAcc);
    SectionsParsedAlike(meta);
    var end := AddSections(h, outer, data, lengths, Metadatas(meta), sender, Cursor(inbox, 0, 0)).value;
    AcceptedBatchIsRebuilt(h, outer, inbox, data, spare, lengths, meta, sender, afterAcc);
    TrueCountsFit(h, outer, inbox, data, spare, lengths, meta, sender, end);
    FittingIsChecked(h, b, inbox.running, Sections(b).value);
  }

  /**
   Of a batch the contract accepted with true counts, the node's items are some, each with or after the first delayed
   message, and its delayed info is given exactly if delayed messages were read up to an accumulator that is not zero:
   it is their number and the accumulator of the delayed inbox there.
   */
  lemma AcceptedItemsAndInfo(h: Accumulators, outer: Outer, inbox: Spot, data: Bytes, spare: Bytes, lengths: seq<int>,
                             meta: seq<int>, sender: int, afterAcc: Hash)
    requires Possible(outer, inbox, lengths, meta) && CountsAreTrue(meta, lengths)
    requires AddSequencerL2Batch(h, outer, inbox, data, lengths, meta, sender, afterAcc).Some?
    ensures var after := AddSequencerL2Batch(h, outer, inbox, data, lengths, meta, sender, afterAcc).value;
      var r := Items(h, Delivered(inbox, data, spare, lengths, meta, sender, after.next, afterAcc));
      && r.Ok? && r.value.0 != [] && AllInitialised(r.value.0)
      && after.running >= inbox.running && (after.running > inbox.running ==> 0 < after.running <= |outer.delayedAccs|)
      && r.value.1 ==
           if after.running > inbox.running && outer.delayedAccs[after.running - 1] != ZERO_HASH
           then Some(DelayedInfo(after.running, outer.delayedAccs[after.running - 1])) else None
  {
    var after := AddSequencerL2Batch(h, outer, inbox, data, lengths, meta, sender, afterAcc).value;
    var b := Delivered(inbox, data, spare, lengths, meta, sender, after.next, afterAcc);
    AcceptedFits(h, outer, inbox, data, spare, lengths, meta, sender, afterAcc, after);
    WhatIsAccepted(h, outer, inbox, data, lengths, meta, sender, afterAcc);
    InfoOfChecked(h, b, Sections(b).value, inbox.running);
    ItemsAndInfoOf(h, outer, CutMessages(b.transactionsData, lengths), Metadatas(meta), sender, inbox);
  }
}
