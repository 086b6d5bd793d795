/**
 From a flat EVM trace to its tree of calls (EVMTrace.FrameTree in packages/arb-evm/evm/tracing.go). A stack of
 open frames turns the list of creates, calls and returns into a tree; on the way, the sender of a delegate call is
 replaced by the contract it runs for.
 */
module FrameTree {
  import opened Hashing

  type Address = int

  datatype CallType = Call | CallCode | DelegateCall | StaticCall | Unknown

  /** `rest` stands for the fields FrameTree does not look at. */
  datatype CallTrace = CallTrace(kind: CallType, from: Address, to: Option<Address>, rest: int)

  datatype Item =
    | CallItem(call: CallTrace)
    | ReturnItem(ret: int)
    | CreateItem(create: int)
    | Create2Item(create2: int)

  /** What a frame opens with before its call: nothing (CallFrame), a create, or a create2. */
  datatype Opening = Plain | Created(create: int) | Created2(create2: int)

  datatype Frame = Frame(opening: Opening, call: CallTrace, ret: Option<int>, nested: seq<Frame>)

  datatype TraceError =
    | ExpectedItemAfterCreate
    | ExpectedCallAfterCreate
    | NoCaller
    | ReturnedOutsideCall
    | Finished
    | ExpectedToEndOnReturn

  // ----- Trees and their flattening -----

  function OpeningItems(o: Opening): seq<Item> {
    match o
    case Plain => []
    case Created(c) => [CreateItem(c)]
    case Created2(c) => [Create2Item(c)]
  }

  /** The items of a frame up to, but without, its return. */
  function OpenItems(f: Frame): seq<Item>
    decreases f, 1
  {
    OpeningItems(f.opening) + [CallItem(f.call)] + FlattenAll(f.nested)
  }

  function Flatten(f: Frame): seq<Item>
    decreases f, 2
  {
    OpenItems(f) + if f.ret.Some? then [ReturnItem(f.ret.value)] else []
  }

  function FlattenAll(fs: seq<Frame>): seq<Item>
    decreases fs, 0
  {
    if fs == [] then [] else Flatten(fs[0]) + FlattenAll(fs[1..])
  }

  /** Every frame has returned. */
  predicate Complete(f: Frame)
    decreases f, 1
  {
    f.ret.Some? && AllComplete(f.nested)
  }

  predicate AllComplete(fs: seq<Frame>)
    decreases fs, 0
  {
    fs == [] || (Complete(fs[0]) && AllComplete(fs[1..]))
  }

  // ----- Who runs a delegate call -----

  /** The contract that code called by `call` runs for, when `runsFor` is the one `call` itself runs for. */
  function RunsFor(call: CallTrace, runsFor: Option<Address>): Option<Address> {
    if call.kind == DelegateCall || call.kind == CallCode then runsFor else call.to
  }

  predicate Rewrites(o: Opening, call: CallTrace) {
    o == Plain && call.kind == DelegateCall
  }

  function ResolveCall(o: Opening, call: CallTrace, runsFor: Option<Address>): CallTrace {
    if Rewrites(o, call) && runsFor.Some? then call.(from := runsFor.value) else call
  }

  /** The tree with the sender of every delegate call replaced. */
  function Resolve(f: Frame, runsFor: Option<Address>): Frame
    decreases f, 1
  {
    Frame(f.opening, ResolveCall(f.opening, f.call, runsFor), f.ret, ResolveAll(f.nested, RunsFor(f.call, runsFor)))
  }

  function ResolveAll(fs: seq<Frame>, runsFor: Option<Address>): (r: seq<Frame>)
    ensures |r| == |fs|
    decreases fs, 0
  {
    if fs == [] then [] else [Resolve(fs[0], runsFor)] + ResolveAll(fs[1..], runsFor)
  }

  /** Every delegate call runs for some contract. */
  predicate Resolvable(f: Frame, runsFor: Option<Address>)
    decreases f, 1
  {
    (Rewrites(f.opening, f.call) ==> runsFor.Some?) && AllResolvable(f.nested, RunsFor(f.call, runsFor))
  }

  predicate AllResolvable(fs: seq<Frame>, runsFor: Option<Address>)
    decreases fs, 0
  {
    fs == [] || (Resolvable(fs[0], runsFor) && AllResolvable(fs[1..], runsFor))
  }

  // ----- The stack machine -----

  /** The receiver of the nearest open call that is neither a delegate call nor a call code. */
  function Caller(stack: seq<Frame>): Option<Address> {
    if stack == [] then None
    else
      var call := stack[|stack| - 1].call;
      if call.kind != DelegateCall && call.kind != CallCode then call.to else Caller(stack[..|stack| - 1])
  }

  function Top(stack: seq<Frame>): Frame
    requires stack != []
  {
    stack[|stack| - 1]
  }

  function Below(stack: seq<Frame>): seq<Frame>
    requires stack != []
  {
    stack[..|stack| - 1]
  }

  function AddNested(stack: seq<Frame>, fs: seq<Frame>): (r: seq<Frame>)
    requires stack != []
    ensures r != []
  {
    Below(stack) + [Top(stack).(nested := Top(stack).nested + fs)]
  }

  function Opened(o: Opening, call: CallTrace): Frame {
    Frame(o, call, None, [])
  }

  /** The result of a run and the items as it leaves them. */
  datatype Parsed = Parsed(result: Result<Frame, TraceError>, items: seq<Item>)

  function Prepend(items: seq<Item>, p: Parsed): Parsed {
    Parsed(p.result, items + p.items)
  }

  function OpeningOf(item: Item): Opening
    requires item.CreateItem? || item.Create2Item?
  {
    if item.CreateItem? then Created(item.create) else Created2(item.create2)
  }

  /** One turn of the machine: it stops, or goes on with another stack, having written the items it consumed. */
  datatype Turn = Stop(result: Result<Frame, TraceError>) | Go(stack: seq<Frame>, written: seq<Item>)

  function TakeTurn(stack: seq<Frame>, items: seq<Item>): (r: Turn)
    requires items != []
    ensures r.Go? ==> 0 < |r.written| <= |items|
  {
    match items[0]
    case CallItem(call) =>
      if call.kind == DelegateCall && Caller(stack).None? then Stop(Err(NoCaller))
      else
        var resolved := ResolveCall(Plain, call, Caller(stack));
        Go(stack + [Opened(Plain, resolved)], [CallItem(resolved)])
    case ReturnItem(ret) =>
      if stack == [] then Stop(Err(ReturnedOutsideCall))
      else
        var closed := Top(stack).(ret := Some(ret));
        if |stack| == 1 then Stop(if |items| == 1 then Ok(closed) else Err(Finished))
        else Go(AddNested(Below(stack), [closed]), items[..1])
    case _ =>
      if |items| == 1 then Stop(Err(ExpectedItemAfterCreate))
      else if !items[1].CallItem? then Stop(Err(ExpectedCallAfterCreate))
      else Go(stack + [Opened(OpeningOf(items[0]), items[1].call)], items[..2])
  }

  function Run(stack: seq<Frame>, items: seq<Item>): (r: Parsed)
    ensures |r.items| == |items|
    decreases |items|
  {
    if items == [] then Parsed(Err(ExpectedToEndOnReturn), items)
    else
      match TakeTurn(stack, items)
      case Stop(result) => Parsed(result, items)
      case Go(stack', written) => Prepend(written, Run(stack', items[|written|..]))
  }

  /** What is left to run after `done`, one turn later. */
  lemma OneTurn(done: seq<Item>, stack: seq<Frame>, ahead: seq<Item>)
    requires ahead != []
    ensures Prepend(done, Run(stack, ahead)) ==
      match TakeTurn(stack, ahead)
      case Stop(result) => Parsed(result, done + ahead)
      case Go(stack', written) => Prepend(done + written, Run(stack', ahead[|written|..]))
  {
    if TakeTurn(stack, ahead).Go? {
      var Go(stack', written) := TakeTurn(stack, ahead);
      assert done + (written + Run(stack', ahead[|written|..]).items)
          == (done + written) + Run(stack', ahead[|written|..]).items;
    }
  }

  // ----- The source's code -----

  /** The inner loop: the nearest frame down the stack that is neither a delegate call nor a call code. */
  method FindCaller(frames: seq<Frame>) returns (from: Option<Address>)
    ensures from == Caller(frames)
  {
    from := None;
    var i := 0;
    assert frames[..|frames|] == frames;
    while i < |frames|
      invariant 0 <= i <= |frames|
      invariant Caller(frames) == Caller(frames[..|frames| - i])
    {
      var prevCall := frames[|frames| - 1 - i].call;
      assert frames[..|frames| - i][..|frames| - i - 1] == frames[..|frames| - i - 1];
      if prevCall.kind != DelegateCall && prevCall.kind != CallCode {
        from := prevCall.to;
        return;
      }
      i := i + 1;
    }
  }

  /** The return case: closes the top frame and hands it to its parent, or stops with it. */
  method CloseFrame(frames: seq<Frame>, ret: int, last: bool)
    returns (stop: Option<Result<Frame, TraceError>>, frames': seq<Frame>)
    ensures frames == [] ==> stop == Some(Err(ReturnedOutsideCall))
    ensures |frames| == 1 ==> stop == Some(if last then Ok(frames[0].(ret := Some(ret))) else Err(Finished))
    ensures |frames| > 1 ==> stop == None && frames' == AddNested(Below(frames), [Top(frames).(ret := Some(ret))])
  {
    frames' := frames;
    if |frames'| == 0 {
      return Some(Err(ReturnedOutsideCall)), frames';
    }
    frames' := frames'[|frames'| - 1 := frames'[|frames'| - 1].(ret := Some(ret))];
    if |frames'| == 1 {
      if !last {
        return Some(Err(Finished)), frames';
      }
      return Some(Ok(frames'[0])), frames';
    }
    var parent := frames'[|frames'| - 2];
    frames' := frames'[|frames'| - 2 := parent.(nested := parent.nested + [frames'[|frames'| - 1]])];
    frames' := frames'[..|frames'| - 1];
    stop := None;
  }

  /** The body of FrameTree's loop, at item `i`. */
  method ProcessItem(items: array<Item>, i: nat, frames: seq<Frame>)
    returns (stop: Option<Result<Frame, TraceError>>, frames': seq<Frame>, next: nat)
    requires i < items.Length
    modifies items
    ensures match TakeTurn(frames, old(items[i..]))
      case Stop(result) => stop == Some(result) && items[..] == old(items[..])
      case Go(stack, written) =>
        && stop == None && frames' == stack && next == i + |written| <= items.Length
        && items[..next] == old(items[..i]) + written
        && items[next..] == old(items[next..])
  {
    frames', next, stop := frames, i, None;
    ghost var ahead := items[i..];
    if items[i].CreateItem? || items[i].Create2Item? {
      var opening := OpeningOf(items[i]);
      if i + 1 >= items.Length {
        return Some(Err(ExpectedItemAfterCreate)), frames', next;
      }
      next := next + 1;
      if !items[next].CallItem? {
        return Some(Err(ExpectedCallAfterCreate)), frames', next;
      }
      frames' := frames + [Frame(opening, items[next].call, None, [])];
      assert items[..i + 2] == items[..i] + ahead[..2];
    } else if items[i].CallItem? {
      var item := items[i].call;
      if item.kind == DelegateCall {
        var from := FindCaller(frames);
        if from == None {
          return Some(Err(NoCaller)), frames', next;
        }
        item := item.(from := from.value);
        items[i] := CallItem(item);
      }
      frames' := frames + [Frame(Plain, item, None, [])];
      assert items[..i + 1] == old(items[..i]) + [CallItem(item)];
    } else {
      stop, frames' := CloseFrame(frames, items[i].ret, i == items.Length - 1);
      assert items[..i + 1] == items[..i] + ahead[..1];
    }
    next := next + 1;
  }

  /** FrameTree: the tree, or nothing for an empty trace. Delegate calls are rewritten in place. */
  method FrameTree(items: array<Item>) returns (r: Result<Option<Frame>, TraceError>)
    modifies items
    ensures items.Length == 0 ==> r == Ok(None)
    ensures items.Length > 0 ==>
      var run := Run([], old(items[..]));
      && r == (match run.result case Ok(f) => Ok(Some(f)) case Err(e) => Err(e))
      && items[..] == run.items
  {
    if items.Length == 0 {
      return Ok(None);
    }
    ghost var run := Run([], items[..]);
    var frames: seq<Frame> := [];
    var i := 0;
    assert items[0..] == items[..] && items[..0] + run.items == run.items;
    while i < items.Length
      invariant 0 <= i <= items.Length
      invariant run == Prepend(items[..i], Run(frames, items[i..]))
    {
      OneTurn(items[..i], frames, items[i..]);
      ghost var ahead := items[i..];
      assert items[..] == items[..i] + ahead;
      label Before:
      var stop, stack, next := ProcessItem(items, i, frames);
      if stop.Some? {
        return match stop.value case Ok(f) => Ok(Some(f)) case Err(e) => Err(e);
      }
      assert ahead[next - i..] == old@Before(items[next..]);
      frames, i := stack, next;
    }
    assert items[..i] == items[..] && items[..i] + [] == items[..];
    r := Err(ExpectedToEndOnReturn);
  }
}
