/**
 FrameTree is the inverse of flattening: it accepts exactly the flattenings of complete call trees in which every
 delegate call runs for some contract, and returns that tree with the senders of delegate calls filled in.
 */
module FrameTreeLaws {
  import opened Hashing
  import opened FrameTree

  // ----- Small facts -----

  lemma PrependTwice(a: seq<Item>, b: seq<Item>, p: Parsed)
    ensures Prepend(a, Prepend(b, p)) == Prepend(a + b, p)
  {
    assert a + (b + p.items) == (a + b) + p.items;
  }

  lemma CallerOfPush(stack: seq<Frame>, f: Frame)
    ensures Caller(stack + [f]) == RunsFor(f.call, Caller(stack))
  {
    assert (stack + [f])[..|stack|] == stack;
  }

  lemma CallerOfAdd(stack: seq<Frame>, fs: seq<Frame>)
    requires stack != []
    ensures Caller(AddNested(stack, fs)) == Caller(stack)
  {
    CallerOfPush(Below(stack), Top(stack));
    CallerOfPush(Below(stack), Top(stack).(nested := Top(stack).nested + fs));
    assert Below(stack) + [Top(stack)] == stack;
  }

  lemma AddTwice(stack: seq<Frame>, a: seq<Frame>, b: seq<Frame>)
    requires stack != []
    ensures AddNested(AddNested(stack, a), b) == AddNested(stack, a + b)
  {
    assert (Top(stack).nested + a) + b == Top(stack).nested + (a + b);
    assert Below(AddNested(stack, a)) == Below(stack);
  }

  lemma AddNothing(stack: seq<Frame>)
    requires stack != []
    ensures AddNested(stack, []) == stack
  {
    assert Top(stack).nested + [] == Top(stack).nested;
    assert Below(stack) + [Top(stack)] == stack;
  }

  lemma OpenWithNested(stack: seq<Frame>, f: Frame, fs: seq<Frame>)
    requires f.nested == []
    ensures AddNested(stack + [f], fs) == stack + [f.(nested := fs)]
  {
    assert Below(stack + [f]) == stack && f.nested + fs == fs;
  }

  lemma FirstItem(items: seq<Item>)
    requires items != []
    ensures items[..1] == [items[0]]
  {
  }

  lemma SplitItems(read: seq<Item>, items: seq<Item>, n: nat)
    requires n <= |items|
    ensures (read + items[..n]) + items[n..] == read + items
  {
  }

  /** A run goes on after one turn. */
  lemma TurnOf(stack: seq<Frame>, items: seq<Item>, written: seq<Item>, rest: seq<Item>, stack': seq<Frame>)
    requires items != [] && TakeTurn(stack, items) == Go(stack', written)
    requires items[|written|..] == rest
    ensures Run(stack, items) == Prepend(written, Run(stack', rest))
  {
  }

  // ----- Flattened trees are accepted -----

  lemma OpeningRuns(stack: seq<Frame>, f: Frame, rest: seq<Item>)
    requires Rewrites(f.opening, f.call) ==> Caller(stack).Some?
    ensures var call := ResolveCall(f.opening, f.call, Caller(stack));
      Run(stack, OpeningItems(f.opening) + [CallItem(f.call)] + rest) ==
        Prepend(OpeningItems(f.opening) + [CallItem(call)], Run(stack + [Opened(f.opening, call)], rest))
  {
    var call := ResolveCall(f.opening, f.call, Caller(stack));
    var items := OpeningItems(f.opening) + [CallItem(f.call)] + rest;
    var written := OpeningItems(f.opening) + [CallItem(call)];
    assert f.opening != Plain ==> items[..2] == written;
    TurnOf(stack, items, written, rest, stack + [Opened(f.opening, call)]);
  }

  lemma ReturnRuns(stack: seq<Frame>, open: Frame, ret: int, rest: seq<Item>)
    requires stack != []
    ensures Run(stack + [open], [ReturnItem(ret)] + rest) ==
      Prepend([ReturnItem(ret)], Run(AddNested(stack, [open.(ret := Some(ret))]), rest))
  {
    var items := [ReturnItem(ret)] + rest;
    assert Below(stack + [open]) == stack && items[..1] == [ReturnItem(ret)];
    TurnOf(stack + [open], items, [ReturnItem(ret)], rest, AddNested(stack, [open.(ret := Some(ret))]));
  }

  lemma FlattenShape(f: Frame, rest: seq<Item>)
    requires f.ret.Some?
    ensures var start, tail := OpeningItems(f.opening) + [CallItem(f.call)], [ReturnItem(f.ret.value)];
      && Flatten(f) == start + (FlattenAll(f.nested) + tail)
      && Flatten(f) + rest == start + (FlattenAll(f.nested) + (tail + rest))
  {
    var start, tail := OpeningItems(f.opening) + [CallItem(f.call)], [ReturnItem(f.ret.value)];
    Associate(start, FlattenAll(f.nested), tail);
    Associate(start, FlattenAll(f.nested) + tail, rest);
    Associate(FlattenAll(f.nested), tail, rest);
  }

  /** Reading a whole frame adds it, resolved, to the frame on top of the stack. */
  lemma {:induction false} FrameRuns(stack: seq<Frame>, f: Frame, rest: seq<Item>)
    requires stack != [] && Complete(f) && Resolvable(f, Caller(stack))
    ensures var g := Resolve(f, Caller(stack));
      Run(stack, Flatten(f) + rest) == Prepend(Flatten(g), Run(AddNested(stack, [g]), rest))
    decreases f, 1
  {
    var g := Resolve(f, Caller(stack));
    var tail := [ReturnItem(f.ret.value)];
    var entered := stack + [Opened(f.opening, g.call)];
    FlattenShape(f, rest);
    FlattenShape(g, []);
    OpeningRuns(stack, f, FlattenAll(f.nested) + (tail + rest));
    CallerOfPush(stack, Opened(f.opening, g.call));
    NestedRun(entered, f.nested, tail + rest);
    OpenWithNested(stack, Opened(f.opening, g.call), g.nested);
    assert Opened(f.opening, g.call).(nested := g.nested) == g.(ret := None);
    ReturnRuns(stack, g.(ret := None), f.ret.value, rest);
    var start := OpeningItems(f.opening) + [CallItem(g.call)];
    PrependTwice(FlattenAll(g.nested), tail, Run(AddNested(stack, [g]), rest));
    PrependTwice(start, FlattenAll(g.nested) + tail, Run(AddNested(stack, [g]), rest));
  }

  lemma FlattenFirst(f: Frame, fs: seq<Frame>)
    ensures FlattenAll([f] + fs) == Flatten(f) + FlattenAll(fs)
  {
    assert ([f] + fs)[1..] == fs;
  }

  lemma {:induction false} NestedRun(stack: seq<Frame>, fs: seq<Frame>, rest: seq<Item>)
    requires stack != [] && AllComplete(fs) && AllResolvable(fs, Caller(stack))
    ensures var gs := ResolveAll(fs, Caller(stack));
      Run(stack, FlattenAll(fs) + rest) == Prepend(FlattenAll(gs), Run(AddNested(stack, gs), rest))
    decreases fs, 0
  {
    if fs == [] {
      AddNothing(stack);
      assert FlattenAll(fs) + rest == rest && [] + Run(stack, rest).items == Run(stack, rest).items;
    } else {
      var g, gs := Resolve(fs[0], Caller(stack)), ResolveAll(fs[1..], Caller(stack));
      var stack' := AddNested(stack, [g]);
      var after := FlattenAll(fs[1..]) + rest;
      assert FlattenAll(fs) + rest == Flatten(fs[0]) + after;
      FrameRuns(stack, fs[0], after);
      CallerOfAdd(stack, [g]);
      NestedRun(stack', fs[1..], rest);
      AddTwice(stack, [g], gs);
      PrependTwice(Flatten(g), FlattenAll(gs), Run(AddNested(stack', gs), rest));
      FlattenFirst(g, gs);
    }
  }

  /** Parsing a flattened tree gives the tree back, resolved, and leaves the items of the resolved tree. */
  lemma ParsesFlattened(t: Frame)
    requires Complete(t) && Resolvable(t, None)
    ensures Run([], Flatten(t)) == Parsed(Ok(Resolve(t, None)), Flatten(Resolve(t, None)))
  {
    var g, tail := Resolve(t, None), [ReturnItem(t.ret.value)];
    var entered := [Opened(t.opening, g.call)];
    assert Flatten(t) == OpeningItems(t.opening) + [CallItem(t.call)] + (FlattenAll(t.nested) + tail);
    OpeningRuns([], t, FlattenAll(t.nested) + tail);
    assert [] + entered == entered;
    CallerOfPush([], entered[0]);
    NestedRun(entered, t.nested, tail);
    OpenWithNested([], entered[0], g.nested);
    assert entered[0].(nested := g.nested) == g.(ret := None);
    assert Run([g.(ret := None)], tail) == Parsed(Ok(g), tail);
    var start := OpeningItems(t.opening) + [CallItem(g.call)];
    assert start + (FlattenAll(g.nested) + tail) == Flatten(g);
  }

  // ----- Accepted lists are flattened trees -----

  lemma {:induction false} FlattenAppend(fs: seq<Frame>, f: Frame)
    ensures FlattenAll(fs + [f]) == FlattenAll(fs) + Flatten(f)
  {
    if fs == [] {
      assert fs + [f] == [f] && [f][1..] == [];
    } else {
      assert (fs + [f])[1..] == fs[1..] + [f];
      FlattenAppend(fs[1..], f);
    }
  }

  lemma {:induction false} ResolveAppend(fs: seq<Frame>, f: Frame, runsFor: Option<Address>)
    ensures ResolveAll(fs + [f], runsFor) == ResolveAll(fs, runsFor) + [Resolve(f, runsFor)]
    ensures AllComplete(fs + [f]) <==> AllComplete(fs) && Complete(f)
    ensures AllResolvable(fs + [f], runsFor) <==> AllResolvable(fs, runsFor) && Resolvable(f, runsFor)
  {
    if fs == [] {
      assert fs + [f] == [f] && [f][1..] == [];
    } else {
      assert (fs + [f])[1..] == fs[1..] + [f];
      ResolveAppend(fs[1..], f, runsFor);
    }
  }

  /** The frames still open, before any sender was replaced. */
  ghost predicate OpenFrames(raw: seq<Frame>) {
    raw == [] || (Top(raw).ret == None && AllComplete(Top(raw).nested) && Resolvable(Top(raw), Caller(Below(raw)))
                  && OpenFrames(Below(raw)))
  }

  function Resolved(raw: seq<Frame>): (r: seq<Frame>)
    ensures |r| == |raw|
  {
    if raw == [] then [] else Resolved(Below(raw)) + [Resolve(Top(raw), Caller(Below(raw)))]
  }

  /** The items read so far. */
  function ItemsRead(raw: seq<Frame>): seq<Item> {
    if raw == [] then [] else ItemsRead(Below(raw)) + OpenItems(Top(raw))
  }

  lemma {:induction false} ResolvedCaller(raw: seq<Frame>)
    ensures Caller(Resolved(raw)) == Caller(raw)
  {
    if raw != [] {
      ResolvedCaller(Below(raw));
      CallerOfPush(Resolved(Below(raw)), Resolve(Top(raw), Caller(Below(raw))));
      CallerOfPush(Below(raw), Top(raw));
      assert raw == Below(raw) + [Top(raw)];
    }
  }

  lemma PushKeepsOpen(raw: seq<Frame>, o: Opening, call: CallTrace)
    requires OpenFrames(raw) && (Rewrites(o, call) ==> Caller(raw).Some?)
    ensures OpenFrames(raw + [Opened(o, call)])
  {
    var raw' := raw + [Opened(o, call)];
    assert Below(raw') == raw && Top(raw') == Opened(o, call);
  }

  lemma OpenedResolves(o: Opening, call: CallTrace, runsFor: Option<Address>)
    ensures Resolve(Opened(o, call), runsFor) == Opened(o, ResolveCall(o, call, runsFor))
    ensures OpenItems(Opened(o, call)) == OpeningItems(o) + [CallItem(call)]
  {
  }

  lemma PushOne(raw: seq<Frame>, f: Frame)
    ensures Resolved(raw + [f]) == Resolved(raw) + [Resolve(f, Caller(raw))]
    ensures ItemsRead(raw + [f]) == ItemsRead(raw) + OpenItems(f)
  {
    assert Below(raw + [f]) == raw && Top(raw + [f]) == f;
  }

  lemma Push(raw: seq<Frame>, o: Opening, call: CallTrace)
    requires OpenFrames(raw) && (Rewrites(o, call) ==> Caller(raw).Some?)
    ensures var raw' := raw + [Opened(o, call)];
      && OpenFrames(raw')
      && Resolved(raw') == Resolved(raw) + [Opened(o, ResolveCall(o, call, Caller(raw)))]
      && ItemsRead(raw') == ItemsRead(raw) + OpeningItems(o) + [CallItem(call)]
  {
    PushKeepsOpen(raw, o, call);
    PushOne(raw, Opened(o, call));
    OpenedResolves(o, call, Caller(raw));
    Associate(ItemsRead(raw), OpeningItems(o), [CallItem(call)]);
  }

  /** The stack below the closed frame, as its parent and what is under it. */
  lemma PopShape(raw: seq<Frame>, ret: int) returns (under: seq<Frame>, parent: Frame, closed: Frame)
    requires |raw| > 1
    ensures under == Below(Below(raw)) && parent == Top(Below(raw)) && closed == Top(raw).(ret := Some(ret))
    ensures Below(raw) == under + [parent] && raw == under + [parent] + [Top(raw)]
    ensures AddNested(Below(raw), [closed]) == under + [parent.(nested := parent.nested + [closed])]
    ensures Caller(Below(raw)) == RunsFor(parent.call, Caller(under))
  {
    under, parent, closed := Below(Below(raw)), Top(Below(raw)), Top(raw).(ret := Some(ret));
    CallerOfPush(under, parent);
  }

  lemma PopKeepsOpen(raw: seq<Frame>, ret: int)
    requires OpenFrames(raw) && |raw| > 1
    ensures OpenFrames(AddNested(Below(raw), [Top(raw).(ret := Some(ret))]))
  {
    var under, parent, closed := PopShape(raw, ret);
    var parent' := parent.(nested := parent.nested + [closed]);
    ResolveAppend(parent.nested, closed, RunsFor(parent.call, Caller(under)));
    assert Below(under + [parent']) == under && Top(under + [parent']) == parent';
  }

  lemma PopResolved(raw: seq<Frame>, ret: int)
    requires |raw| > 1
    ensures Resolved(AddNested(Below(raw), [Top(raw).(ret := Some(ret))]))
         == AddNested(Below(Resolved(raw)), [Top(Resolved(raw)).(ret := Some(ret))])
  {
    var under, parent, closed := PopShape(raw, ret);
    var parent' := parent.(nested := parent.nested + [closed]);
    ResolveAppend(parent.nested, closed, RunsFor(parent.call, Caller(under)));
    assert Below(under + [parent']) == under && Top(under + [parent']) == parent';
    assert Below(Resolved(raw)) == Resolved(Below(raw)) && Below(Resolved(Below(raw))) == Resolved(under);
    assert Resolve(parent', Caller(under)).nested
        == Resolve(parent, Caller(under)).nested + [Resolve(closed, Caller(Below(raw)))];
  }

  lemma OpenItemsAdd(parent: Frame, closed: Frame)
    ensures OpenItems(parent.(nested := parent.nested + [closed])) == OpenItems(parent) + Flatten(closed)
  {
    FlattenAppend(parent.nested, closed);
  }

  lemma ClosedItems(f: Frame, ret: int)
    requires f.ret == None
    ensures Flatten(f.(ret := Some(ret))) == OpenItems(f) + [ReturnItem(ret)]
  {
    var closed := f.(ret := Some(ret));
    assert closed.nested == f.nested && closed.call == f.call && closed.opening == f.opening;
  }

  lemma PopReads(under: seq<Frame>, parent: Frame, top: Frame, ret: int)
    requires top.ret == None
    ensures var closed := top.(ret := Some(ret));
      ItemsRead(under + [parent.(nested := parent.nested + [closed])]) ==
        ItemsRead(under + [parent] + [top]) + [ReturnItem(ret)]
  {
    var closed := top.(ret := Some(ret));
    ClosedItems(top, ret);
    OpenItemsAdd(parent, closed);
    PushOne(under, parent);
    PushOne(under + [parent], top);
    PushOne(under, parent.(nested := parent.nested + [closed]));
  }

  /** After reading `read`, the machine that stood over `raw` stands over `raw'` and ends the same way. */
  ghost predicate Reads(raw: seq<Frame>, items: seq<Item>, raw': seq<Frame>, n: nat) {
    && 0 < n <= |items|
    && OpenFrames(raw') && ItemsRead(raw') == ItemsRead(raw) + items[..n]
    && Run(Resolved(raw'), items[n..]).result == Run(Resolved(raw), items).result
  }

  lemma ReadCall(raw: seq<Frame>, items: seq<Item>)
    requires OpenFrames(raw) && items != [] && items[0].CallItem? && TakeTurn(Resolved(raw), items).Go?
    ensures Reads(raw, items, raw + [Opened(Plain, items[0].call)], 1)
  {
    ResolvedCaller(raw);
    Push(raw, Plain, items[0].call);
    FirstItem(items);
    var Go(stack, written) := TakeTurn(Resolved(raw), items);
    TurnOf(Resolved(raw), items, written, items[1..], stack);
  }

  lemma FirstTwoItems(items: seq<Item>)
    requires |items| > 1 && (items[0].CreateItem? || items[0].Create2Item?) && items[1].CallItem?
    ensures items[..2] == OpeningItems(OpeningOf(items[0])) + [CallItem(items[1].call)]
  {
  }

  lemma ReadCreate(raw: seq<Frame>, items: seq<Item>)
    requires OpenFrames(raw) && items != [] && (items[0].CreateItem? || items[0].Create2Item?)
    requires TakeTurn(Resolved(raw), items).Go?
    ensures Reads(raw, items, raw + [Opened(OpeningOf(items[0]), items[1].call)], 2)
  {
    var o := OpeningOf(items[0]);
    Push(raw, o, items[1].call);
    FirstTwoItems(items);
    var Go(stack, written) := TakeTurn(Resolved(raw), items);
    TurnOf(Resolved(raw), items, written, items[2..], stack);
  }

  lemma ReturnTurn(stack: seq<Frame>, items: seq<Item>)
    requires |stack| > 1 && items != [] && items[0].ReturnItem?
    ensures Run(stack, items).result
         == Run(AddNested(Below(stack), [Top(stack).(ret := Some(items[0].ret))]), items[1..]).result
  {
    TurnOf(stack, items, items[..1], items[1..], AddNested(Below(stack), [Top(stack).(ret := Some(items[0].ret))]));
  }

  lemma PopReadsItems(raw: seq<Frame>, ret: int, raw': seq<Frame>)
    requires |raw| > 1 && Top(raw).ret == None
    requires raw' == AddNested(Below(raw), [Top(raw).(ret := Some(ret))])
    ensures ItemsRead(raw') == ItemsRead(raw) + [ReturnItem(ret)]
  {
    var under, parent, closed := PopShape(raw, ret);
    PopReads(under, parent, Top(raw), ret);
  }

  lemma ReadReturn(raw: seq<Frame>, items: seq<Item>, raw': seq<Frame>)
    requires OpenFrames(raw) && items != [] && items[0].ReturnItem? && |raw| > 1
    requires raw' == AddNested(Below(raw), [Top(raw).(ret := Some(items[0].ret))])
    ensures Reads(raw, items, raw', 1)
  {
    var ret := items[0].ret;
    PopKeepsOpen(raw, ret);
    PopResolved(raw, ret);
    PopReadsItems(raw, ret, raw');
    FirstItem(items);
    ReturnTurn(Resolved(raw), items);
  }

  /** An accepting run either reads on, or stands before the last return over a single frame. */
  lemma ReadTurn(raw: seq<Frame>, items: seq<Item>) returns (raw': seq<Frame>, n: nat)
    requires OpenFrames(raw) && Run(Resolved(raw), items).result.Ok?
    ensures Reads(raw, items, raw', n) || (|raw| == |items| == 1 && items[0].ReturnItem?)
  {
    if items[0].CallItem? {
      raw', n := raw + [Opened(Plain, items[0].call)], 1;
      ReadCall(raw, items);
    } else if items[0].ReturnItem? {
      raw', n := raw, 0;
      if |raw| > 1 {
        raw', n := AddNested(Below(raw), [Top(raw).(ret := Some(items[0].ret))]), 1;
        ReadReturn(raw, items, raw');
      }
    } else {
      raw', n := raw + [Opened(OpeningOf(items[0]), items[1].call)], 2;
      ReadCreate(raw, items);
    }
  }

  /** Whatever the machine accepts from here is the flattening of one complete tree. */
  lemma {:induction false} AcceptedIsTree(raw: seq<Frame>, items: seq<Item>) returns (t: Frame)
    requires OpenFrames(raw) && Run(Resolved(raw), items).result.Ok?
    ensures Complete(t) && Resolvable(t, None) && Flatten(t) == ItemsRead(raw) + items
    decreases |items|
  {
    var raw', n := ReadTurn(raw, items);
    if Reads(raw, items, raw', n) {
      t := AcceptedIsTree(raw', items[n..]);
      SplitItems(ItemsRead(raw), items, n);
    } else {
      t := Top(raw).(ret := Some(items[0].ret));
      ClosedItems(Top(raw), items[0].ret);
      assert Below(raw) == [] && items == [ReturnItem(items[0].ret)];
      assert ItemsRead(raw) == OpenItems(Top(raw));
    }
  }

  // ----- The laws -----

  ghost predicate IsFlattened(items: seq<Item>) {
    exists t :: Complete(t) && Resolvable(t, None) && Flatten(t) == items
  }

  /** FrameTree accepts exactly the flattenings of complete trees whose delegate calls all run for some contract. */
  lemma AcceptsExactlyTrees(items: seq<Item>)
    ensures Run([], items).result.Ok? <==> IsFlattened(items)
  {
    if Run([], items).result.Ok? {
      var t := AcceptedIsTree([], items);
      assert Flatten(t) == items;
    }
    if IsFlattened(items) {
      var t :| Complete(t) && Resolvable(t, None) && Flatten(t) == items;
      ParsesFlattened(t);
    }
  }

  lemma {:induction false} ResolveIsComplete(f: Frame, runsFor: Option<Address>)
    requires Complete(f) && Resolvable(f, runsFor)
    ensures Complete(Resolve(f, runsFor)) && Resolvable(Resolve(f, runsFor), runsFor)
    ensures Resolve(Resolve(f, runsFor), runsFor) == Resolve(f, runsFor)
    decreases f, 1
  {
    AllResolveComplete(f.nested, RunsFor(f.call, runsFor));
  }

  lemma {:induction false} AllResolveComplete(fs: seq<Frame>, runsFor: Option<Address>)
    requires AllComplete(fs) && AllResolvable(fs, runsFor)
    ensures var gs := ResolveAll(fs, runsFor);
      AllComplete(gs) && AllResolvable(gs, runsFor) && ResolveAll(gs, runsFor) == gs
    decreases fs, 0
  {
    if fs != [] {
      ResolveIsComplete(fs[0], runsFor);
      AllResolveComplete(fs[1..], runsFor);
      var gs := ResolveAll(fs, runsFor);
      assert gs[1..] == ResolveAll(fs[1..], runsFor);
    }
  }

  /** The result is complete, flattens to the items as FrameTree leaves them, and parsing those again changes nothing. */
  lemma ResultFlattensBack(items: seq<Item>)
    requires Run([], items).result.Ok?
    ensures var run := Run([], items);
      && Complete(run.result.value)
      && Flatten(run.result.value) == run.items
      && Run([], run.items) == run
  {
    var t := AcceptedIsTree([], items);
    assert Flatten(t) == items;
    ParsesFlattened(t);
    ResolveIsComplete(t, None);
    ParsesFlattened(Resolve(t, None));
  }

  predicate IsCreate(item: Item) {
    item.CreateItem? || item.Create2Item?
  }

  /** Item `k` is a delegate call parsed on its own, not the call after a create. */
  ghost predicate IsDelegateAt(items: seq<Item>, k: int) {
    && 0 <= k < |items| && items[k].CallItem? && items[k].call.kind == DelegateCall
    && (k == 0 || !IsCreate(items[k - 1]))
  }

  /** The same item, or a delegate call with another sender. */
  ghost predicate SameButSender(items: seq<Item>, k: int, b: Item) {
    0 <= k < |items| && (items[k] == b || (IsDelegateAt(items, k) && b.CallItem? && b.call == items[k].call.(from := b.call.from)))
  }

  /** Accepted or not, a run changes nothing but senders of delegate calls; the call after a create keeps its sender. */
  lemma {:induction false} OnlySendersChange(stack: seq<Frame>, items: seq<Item>)
    ensures forall k :: 0 <= k < |items| ==> SameButSender(items, k, Run(stack, items).items[k])
    decreases |items|
  {
    if items != [] && TakeTurn(stack, items).Go? {
      var Go(stack', written) := TakeTurn(stack, items);
      var rest := items[|written|..];
      OnlySendersChange(stack', rest);
      forall k | 0 <= k < |items| ensures SameButSender(items, k, Run(stack, items).items[k]) {
        if k >= |written| {
          assert items[k] == rest[k - |written|];
          assert SameButSender(rest, k - |written|, Run(stack, items).items[k]);
        }
      }
    }
  }

  // ----- Senders -----

  predicate Forwards(call: CallTrace) {
    call.kind == DelegateCall || call.kind == CallCode
  }

  /** Of the calls above, outermost first, `k` is the nearest that is neither a delegate call nor a call code. */
  ghost predicate IsNearest(above: seq<CallTrace>, k: int) {
    0 <= k < |above| && !Forwards(above[k]) && forall j :: k < j < |above| ==> Forwards(above[j])
  }

  /** Every delegate call of the tree that is parsed on its own is sent by the receiver of the nearest contract above. */
  ghost predicate SendersAreCallers(f: Frame, above: seq<CallTrace>)
    decreases f, 1
  {
    && (f.opening == Plain && f.call.kind == DelegateCall ==>
          exists k :: IsNearest(above, k) && above[k].to == Some(f.call.from))
    && AllSendersAreCallers(f.nested, above + [f.call])
  }

  ghost predicate AllSendersAreCallers(fs: seq<Frame>, above: seq<CallTrace>)
    decreases fs, 0
  {
    fs == [] || (SendersAreCallers(fs[0], above) && AllSendersAreCallers(fs[1..], above))
  }

  /** What the calls above run for, innermost last. */
  function RunForAbove(above: seq<CallTrace>): Option<Address> {
    if above == [] then None else RunsFor(above[|above| - 1], RunForAbove(above[..|above| - 1]))
  }

  lemma {:induction false} NearestRuns(above: seq<CallTrace>)
    requires RunForAbove(above).Some?
    ensures exists k :: IsNearest(above, k) && above[k].to == RunForAbove(above)
  {
    var last := |above| - 1;
    if Forwards(above[last]) {
      NearestRuns(above[..last]);
      var k :| IsNearest(above[..last], k) && above[..last][k].to == RunForAbove(above);
      assert forall j :: k < j < last ==> above[..last][j] == above[j];
      assert IsNearest(above, k);
    } else {
      assert IsNearest(above, last);
    }
  }

  lemma {:induction false} ResolvedSenders(f: Frame, above: seq<CallTrace>)
    requires Resolvable(f, RunForAbove(above))
    ensures SendersAreCallers(Resolve(f, RunForAbove(above)), above)
    decreases f, 1
  {
    var g := Resolve(f, RunForAbove(above));
    if Rewrites(f.opening, f.call) {
      NearestRuns(above);
    }
    assert (above + [g.call])[..|above|] == above;
    AllResolvedSenders(f.nested, above + [g.call]);
  }

  lemma {:induction false} AllResolvedSenders(fs: seq<Frame>, above: seq<CallTrace>)
    requires AllResolvable(fs, RunForAbove(above))
    ensures AllSendersAreCallers(ResolveAll(fs, RunForAbove(above)), above)
    decreases fs, 0
  {
    if fs != [] {
      ResolvedSenders(fs[0], above);
      AllResolvedSenders(fs[1..], above);
      assert ResolveAll(fs, RunForAbove(above))[1..] == ResolveAll(fs[1..], RunForAbove(above));
    }
  }

  /** In every accepted trace a delegate call comes out sent by the contract whose code it runs for. */
  lemma ResultSendersAreCallers(items: seq<Item>)
    requires Run([], items).result.Ok?
    ensures SendersAreCallers(Run([], items).result.value, [])
  {
    var t := AcceptedIsTree([], items);
    assert Flatten(t) == items;
    ParsesFlattened(t);
    ResolvedSenders(t, []);
  }

  // ----- Errors -----

  lemma PrefixTurn(stack: seq<Frame>, items: seq<Item>, stack': seq<Frame>, written: seq<Item>, k: nat)
    requires items != [] && TakeTurn(stack, items) == Go(stack', written) && |written| <= k <= |items|
    ensures Run(stack, items[..k]).result == Run(stack', items[|written|..][..k - |written|]).result
  {
    assert items[..k][|written|..] == items[|written|..][..k - |written|];
    assert items[..k][..1] == items[..1];
    assert k >= 2 ==> items[..k][..2] == items[..2];
  }

  /** What each error says about the trace. */
  ghost predicate ErrorFits(stack: seq<Frame>, items: seq<Item>, e: TraceError) {
    match e
    case ReturnedOutsideCall => stack == [] && items != [] && items[0].ReturnItem?
    case ExpectedItemAfterCreate => items != [] && IsCreate(items[|items| - 1])
    case ExpectedCallAfterCreate => exists k :: 0 < k < |items| && IsCreate(items[k - 1]) && !items[k].CallItem?
    case NoCaller => exists k :: IsDelegateAt(items, k)
    case Finished => exists k :: 0 < k < |items| && Run(stack, items[..k]).result.Ok?
    case ExpectedToEndOnReturn => forall k :: 0 <= k <= |items| ==> Run(stack, items[..k]).result.Err?
  }

  lemma {:induction false} StopFits(stack: seq<Frame>, items: seq<Item>)
    requires items != [] && TakeTurn(stack, items).Stop? && TakeTurn(stack, items).result.Err?
    ensures ErrorFits(stack, items, TakeTurn(stack, items).result.error)
  {
    if |items| > 1 && IsCreate(items[0]) {
      assert IsCreate(items[1 - 1]) && !items[1].CallItem?;
    } else if items[0].CallItem? {
      assert IsDelegateAt(items, 0);
    } else if items[0].ReturnItem? && |stack| == 1 {
      assert items[..1] == [items[0]];
      assert Run(stack, items[..1]).result.Ok?;
    }
  }

  lemma {:induction false} LaterErrorFits(stack: seq<Frame>, items: seq<Item>, stack': seq<Frame>, written: seq<Item>,
                                          e: TraceError)
    requires items != [] && TakeTurn(stack, items) == Go(stack', written)
    requires ErrorFits(stack', items[|written|..], e)
    ensures ErrorFits(stack, items, e)
  {
    var rest, n := items[|written|..], |written|;
    match e
    case ReturnedOutsideCall =>
    case ExpectedItemAfterCreate =>
    case ExpectedCallAfterCreate =>
      var k :| 0 < k < |rest| && IsCreate(rest[k - 1]) && !rest[k].CallItem?;
      assert IsCreate(items[n + k - 1]) && !items[n + k].CallItem?;
    case NoCaller =>
      var k :| IsDelegateAt(rest, k);
      assert rest[k] == items[n + k] && !IsCreate(items[n - 1]);
      assert k > 0 ==> rest[k - 1] == items[n + k - 1];
      assert IsDelegateAt(items, n + k);
    case Finished =>
      var k :| 0 < k < |rest| && Run(stack', rest[..k]).result.Ok?;
      PrefixTurn(stack, items, stack', written, n + k);
    case ExpectedToEndOnReturn =>
      forall k | 0 <= k <= |items| ensures Run(stack, items[..k]).result.Err? {
        if k >= n {
          PrefixTurn(stack, items, stack', written, k);
          assert Run(stack', rest[..k - n]).result.Err?;
        } else if k == 1 {
          assert |items[..1]| == 1;
        }
      }
  }

  /** Every error says what is wrong with the trace. */
  lemma {:induction false} ErrorsTellWhy(stack: seq<Frame>, items: seq<Item>)
    requires Run(stack, items).result.Err?
    ensures ErrorFits(stack, items, Run(stack, items).result.error)
    decreases |items|
  {
    if items == [] {
      assert forall k :: 0 <= k <= |items| ==> items[..k] == [];
    } else if TakeTurn(stack, items).Stop? {
      StopFits(stack, items);
    } else {
      var Go(stack', written) := TakeTurn(stack, items);
      ErrorsTellWhy(stack', items[|written|..]);
      LaterErrorFits(stack, items, stack', written, Run(stack, items).result.error);
    }
  }

  // ----- Small traces -----

  lemma ReturnEndsTrace(f: Frame, ret: int)
    ensures Run([f], [ReturnItem(ret)]).result == Ok(f.(ret := Some(ret)))
  {
  }

  lemma CreateThenReturn(item: Item, call: CallTrace, ret: int)
    requires item.CreateItem? || item.Create2Item?
    ensures Run([], [item, CallItem(call), ReturnItem(ret)]).result
         == Ok(Frame(OpeningOf(item), call, Some(ret), []))
  {
    var items, f := [item, CallItem(call), ReturnItem(ret)], Opened(OpeningOf(item), call);
    assert items[|items[..2]|..] == [ReturnItem(ret)] && [] + [f] == [f];
    assert TakeTurn([], items) == Go([f], items[..2]);
    ReturnEndsTrace(f, ret);
  }

  /** A create opens a frame of its own kind, a create2 one of the other, and a call one that is neither. */
  lemma SmallTraces(n: int, call: CallTrace, ret: int)
    ensures Run([], [CreateItem(n), CallItem(call), ReturnItem(ret)]).result == Ok(Frame(Created(n), call, Some(ret), []))
    ensures Run([], [Create2Item(n), CallItem(call), ReturnItem(ret)]).result == Ok(Frame(Created2(n), call, Some(ret), []))
    ensures call.kind != DelegateCall ==>
      Run([], [CallItem(call), ReturnItem(ret)]).result == Ok(Frame(Plain, call, Some(ret), []))
  {
    CreateThenReturn(CreateItem(n), call, ret);
    CreateThenReturn(Create2Item(n), call, ret);
    if call.kind != DelegateCall {
      var items, f := [CallItem(call), ReturnItem(ret)], Opened(Plain, call);
      assert TakeTurn([], items) == Go([f], [CallItem(call)]);
      assert items[1..] == [ReturnItem(ret)];
      ReturnEndsTrace(f, ret);
    }
  }
}
