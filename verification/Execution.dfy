/**
 Local execution as the validator sees it: a machine that runs step by step, cursors that stop at a gas
 target, and the ExecutionTracker that answers "what is the state at gas g" for a list of stop points by
 advancing clones of one cursor (packages/arb-util/core/execution.go).
 */
module Execution {
  import opened Hashing

  /** core.ExecutionState, without InboxAcc, which no hash covers. */
  datatype ExecutionState = ExecutionState(
    machineHash: Hash,
    totalMessagesRead: int,
    totalGasConsumed: int,
    sendAcc: Hash,
    totalSendCount: int,
    logAcc: Hash,
    totalLogCount: int)

  function RestHash(h: Hasher, s: ExecutionState): Hash {
    h.rest(s.totalMessagesRead, s.machineHash, s.sendAcc, s.totalSendCount, s.logAcc, s.totalLogCount)
  }

  function CutHash(h: Hasher, s: ExecutionState): Hash {
    h.assertion(s.totalGasConsumed, RestHash(h, s))
  }

  /** The AVM: an initial state and a step, which is None when the machine is blocked or halted. */
  datatype Machine = Machine(init: ExecutionState, step: ExecutionState -> Option<ExecutionState>)

  /** Every instruction costs gas, and messages are never unread. */
  ghost predicate Progresses(m: Machine) {
    forall s :: m.step(s).Some? ==>
      && m.step(s).value.totalGasConsumed > s.totalGasConsumed
      && m.step(s).value.totalMessagesRead >= s.totalMessagesRead
  }

  /** An instruction sends or logs at most one message, and the accumulators change exactly when it does. */
  ghost predicate CountsFollow(m: Machine) {
    forall s :: m.step(s).Some? ==>
      && m.step(s).value.totalSendCount == s.totalSendCount + (if m.step(s).value.sendAcc == s.sendAcc then 0 else 1)
      && m.step(s).value.totalLogCount == s.totalLogCount + (if m.step(s).value.logAcc == s.logAcc then 0 else 1)
  }

  /** An execution cursor: a state of the run and the number of steps taken to reach it. */
  datatype Cursor = Cursor(state: ExecutionState, steps: nat) {
    function Gas(): int {
      state.totalGasConsumed
    }
  }

  function Start(m: Machine): Cursor {
    Cursor(m.init, 0)
  }

  function Remaining(c: Cursor, target: int): nat {
    if c.Gas() < target then target - c.Gas() else 0
  }

  /** AdvanceExecutionCursor with goOverGas: run until the target is reached or passed, or the machine blocks. */
  function Advance(m: Machine, c: Cursor, target: int): (r: Cursor)
    requires Progresses(m)
    ensures r.steps >= c.steps && r.Gas() >= c.Gas()
    ensures r.state.totalMessagesRead >= c.state.totalMessagesRead
    ensures r.Gas() >= target || m.step(r.state).None?
    ensures r.steps == c.steps <==> r == c
    decreases Remaining(c, target)
  {
    if c.Gas() >= target then c else
    match m.step(c.state)
    case None => c
    case Some(next) => Advance(m, Cursor(next, c.steps + 1), target)
  }

  /** GetExecutionCursor: run as far as possible without going over the target. */
  function AdvanceUnder(m: Machine, c: Cursor, target: int): (r: Cursor)
    requires Progresses(m)
    ensures r.steps >= c.steps && r.Gas() >= c.Gas()
    ensures c.Gas() <= target ==> r.Gas() <= target
    ensures m.step(r.state).Some? ==> m.step(r.state).value.totalGasConsumed > target
    decreases Remaining(c, target)
  {
    match m.step(c.state)
    case None => c
    case Some(next) =>
      if next.totalGasConsumed > target then c else AdvanceUnder(m, Cursor(next, c.steps + 1), target)
  }

  /** The state a gas target names: the first one at or past it, or the one the machine blocks in. */
  function At(m: Machine, target: int): Cursor
    requires Progresses(m)
  {
    Advance(m, Start(m), target)
  }

  /** The run itself, step by step: where it stands after `n` steps, if it gets that far. */
  function After(m: Machine, n: nat): Option<Cursor> {
    if n == 0 then Some(Start(m))
    else
      match After(m, n - 1)
      case None => None
      case Some(c) =>
        match m.step(c.state)
        case None => None
        case Some(next) => Some(Cursor(next, n))
  }

  lemma {:induction false} AdvanceIsFirst(m: Machine, c: Cursor, target: int)
    requires Progresses(m) && After(m, c.steps) == Some(c)
    ensures var r := Advance(m, c, target);
      && After(m, r.steps) == Some(r)
      && forall n :: c.steps <= n < r.steps ==> After(m, n).Some? && After(m, n).value.Gas() < target
    decreases Remaining(c, target)
  {
    if c.Gas() < target && m.step(c.state).Some? {
      var next := Cursor(m.step(c.state).value, c.steps + 1);
      assert After(m, next.steps) == Some(next);
      AdvanceIsFirst(m, next, target);
    }
  }

  /** The state a target names is a state of the run, the first to reach the target, or else the last of the run. */
  lemma AtIsFirst(m: Machine, target: int)
    requires Progresses(m)
    ensures var r := At(m, target);
      && After(m, r.steps) == Some(r)
      && (forall n :: 0 <= n < r.steps ==> After(m, n).Some? && After(m, n).value.Gas() < target)
      && (r.Gas() >= target || After(m, r.steps + 1) == None)
  {
    AdvanceIsFirst(m, Start(m), target);
  }

  // ----- Stopping on the way changes nothing -----

  lemma {:induction false} AdvanceInTwo(m: Machine, c: Cursor, mid: int, target: int)
    requires Progresses(m) && mid <= target
    ensures Advance(m, Advance(m, c, mid), target) == Advance(m, c, target)
    decreases Remaining(c, mid)
  {
    if c.Gas() < mid && m.step(c.state).Some? {
      AdvanceInTwo(m, Cursor(m.step(c.state).value, c.steps + 1), mid, target);
    }
  }

  lemma {:induction false} AdvanceAfterUnder(m: Machine, c: Cursor, mid: int, target: int)
    requires Progresses(m) && mid <= target
    ensures Advance(m, AdvanceUnder(m, c, mid), target) == Advance(m, c, target)
    decreases Remaining(c, mid)
  {
    if m.step(c.state).Some? && m.step(c.state).value.totalGasConsumed <= mid {
      AdvanceAfterUnder(m, Cursor(m.step(c.state).value, c.steps + 1), mid, target);
    }
  }

  /** A later target is met by running on from an earlier one. */
  lemma AtRunsOn(m: Machine, g: int, g': int)
    requires Progresses(m) && g <= g'
    ensures At(m, g') == Advance(m, At(m, g), g')
  {
    AdvanceInTwo(m, Start(m), g, g');
  }

  /** Two states of the run that are one step apart are related by the machine's step. */
  lemma OneStepApart(m: Machine, c: Cursor, target: int)
    requires Progresses(m)
    requires Advance(m, c, target).steps == c.steps + 1
    ensures m.step(c.state) == Some(Advance(m, c, target).state)
    ensures c.Gas() < target
  {
    if c.Gas() < target && m.step(c.state).Some? {
      var next := Cursor(m.step(c.state).value, c.steps + 1);
      assert Advance(m, c, target) == Advance(m, next, target);
    }
  }

  // ----- The tracker -----

  predicate Nondecreasing(s: seq<int>) {
    forall i, j :: 0 <= i < j < |s| ==> s[i] <= s[j]
  }

  predicate Increasing(s: seq<int>) {
    forall i, j :: 0 <= i < j < |s| ==> s[i] < s[j]
  }

  function Insert(x: int, s: seq<int>): (r: seq<int>)
    requires Nondecreasing(s)
    ensures |r| == |s| + 1
    ensures forall y :: y in r <==> y == x || y in s
    ensures Nondecreasing(r)
  {
    if s == [] then [x]
    else if x <= s[0] then [x] + s
    else
      var t := Insert(x, s[1..]);
      assert forall y :: y in s <==> y == s[0] || y in s[1..];
      ConsKeepsOrder(s[0], t);
      [s[0]] + t
  }

  lemma ConsKeepsOrder(x: int, t: seq<int>)
    requires Nondecreasing(t) && forall y :: y in t ==> x <= y
    ensures Nondecreasing([x] + t)
  {
    assert forall i :: 0 <= i < |t| ==> t[i] in t;
  }

  /** sort.Sort on the stop points. */
  function Sorted(s: seq<int>): (r: seq<int>)
    ensures |r| == |s|
    ensures forall g :: g in r <==> g in s
    ensures Nondecreasing(r)
  {
    if s == [] then [] else Insert(s[0], Sorted(s[1..]))
  }

  lemma {:induction false} InsertAdds(x: int, s: seq<int>)
    requires Nondecreasing(s)
    ensures multiset(Insert(x, s)) == multiset(s) + multiset{x}
  {
    if s != [] && x > s[0] {
      InsertAdds(x, s[1..]);
      assert s == [s[0]] + s[1..];
    }
  }

  /** Sorting only moves the offsets. */
  lemma {:induction false} SortedIsPermutation(s: seq<int>)
    ensures multiset(Sorted(s)) == multiset(s)
  {
    if s != [] {
      SortedIsPermutation(s[1..]);
      InsertAdds(s[0], Sorted(s[1..]));
      assert s == [s[0]] + s[1..];
    }
  }

  /** Offsets that are already in order are left alone. */
  lemma {:induction false} SortedKeepsOrder(s: seq<int>)
    requires Nondecreasing(s)
    ensures Sorted(s) == s
  {
    if s != [] {
      SortedKeepsOrder(s[1..]);
      assert s == [s[0]] + s[1..];
    }
  }

  datatype TrackerError = InvalidGasUsed

  ghost predicate Indexes(points: seq<int>, index: map<int, nat>) {
    && (forall g :: g in points <==> g in index)
    && (forall g :: g in index ==> index[g] < |points| && points[index[g]] == g)
  }

  ghost predicate CursorsAt(m: Machine, points: seq<int>, cursors: seq<Cursor>)
    requires Progresses(m)
  {
    && |cursors| <= |points|
    && forall i :: 0 <= i < |cursors| ==> cursors[i] == At(m, points[i])
  }

  /** The stop points in order, each once. */
  method Deduplicate(arg: seq<int>) returns (stopPoints: seq<int>)
    requires Nondecreasing(arg)
    ensures Increasing(stopPoints)
    ensures forall g :: g in stopPoints <==> g in arg
  {
    stopPoints := [];
    for k := 0 to |arg|
      invariant Increasing(stopPoints)
      invariant forall g :: g in stopPoints <==> g in arg[..k]
      invariant k > 0 ==> stopPoints != [] && stopPoints[|stopPoints| - 1] == arg[k - 1]
    {
      if stopPoints == [] || stopPoints[|stopPoints| - 1] != arg[k] {
        assert k == 0 ==> stopPoints == [] by {
          assert stopPoints != [] ==> stopPoints[0] in stopPoints;
        }
        stopPoints := stopPoints + [arg[k]];
      }
    }
    assert arg[..|arg|] == arg;
  }

  method IndexStopPoints(stopPoints: seq<int>) returns (index: map<int, nat>)
    requires Increasing(stopPoints)
    ensures Indexes(stopPoints, index)
  {
    index := map[];
    for k := 0 to |stopPoints|
      invariant forall g :: g in stopPoints[..k] <==> g in index
      invariant forall g :: g in index ==> index[g] < k && stopPoints[index[g]] == g
    {
      index := index[stopPoints[k] := k];
    }
    assert stopPoints[..|stopPoints|] == stopPoints;
  }

  /** The body of fillInCursors for one stop point. */
  lemma CloneReachesStopPoint(m: Machine, from: Cursor, target: int)
    requires Progresses(m)
    requires from == AdvanceUnder(m, Start(m), target) || exists g :: g <= target && from == At(m, g)
    ensures At(m, target) == Advance(m, from, target)
  {
    if from == AdvanceUnder(m, Start(m), target) {
      AdvanceAfterUnder(m, Start(m), target, target);
    } else {
      var g :| g <= target && from == At(m, g);
      AtRunsOn(m, g, target);
    }
  }

  /** ExecutionTracker with goOverGas and keepOldCursors set, as the challenge code always makes it. */
  class ExecutionTracker {
    const machine: Machine
    var sortedStopPoints: seq<int>
    var stopPointIndex: map<int, nat>
    var cursors: seq<Cursor>

    /** Every cursor filled in so far is the one its stop point names, whatever was asked before. */
    ghost predicate Valid()
      reads this
    {
      && Progresses(machine)
      && Increasing(sortedStopPoints)
      && Indexes(sortedStopPoints, stopPointIndex)
      && CursorsAt(machine, sortedStopPoints, cursors)
    }

    constructor (machine: Machine, stopPointsArg: seq<int>)
      requires Progresses(machine)
      ensures Valid() && this.machine == machine
      ensures forall g :: g in stopPointsArg <==> g in sortedStopPoints
      ensures cursors == []
    {
      var arg := Sorted(stopPointsArg);
      var stopPoints := Deduplicate(arg);
      var index := IndexStopPoints(stopPoints);
      this.machine := machine;
      sortedStopPoints, stopPointIndex, cursors := stopPoints, index, [];
    }

    /** Fills in the cursors up to `max`, each from a clone of its predecessor. */
    method FillInCursors(max: nat)
      requires Valid() && max < |sortedStopPoints|
      modifies this`cursors
      ensures Valid()
      ensures |cursors| == if old(|cursors|) <= max then max + 1 else old(|cursors|)
      ensures old(cursors) <= cursors
    {
      var i := |cursors|;
      while i <= max
        invariant i == |cursors| && old(|cursors|) <= i
        invariant i <= if old(|cursors|) <= max then max + 1 else old(|cursors|)
        invariant CursorsAt(machine, sortedStopPoints, cursors) && old(cursors) <= cursors
      {
        var nextStopPoint := sortedStopPoints[i];
        var nextCursor: Cursor;
        if i > 0 {
          nextCursor := cursors[i - 1];
        } else {
          nextCursor := AdvanceUnder(machine, Start(machine), nextStopPoint);
        }
        CloneReachesStopPoint(machine, nextCursor, nextStopPoint);
        if nextStopPoint > nextCursor.Gas() {
          var gasToExecute := nextStopPoint - nextCursor.Gas();
          nextCursor := Advance(machine, nextCursor, nextCursor.Gas() + gasToExecute);
        }
        cursors := cursors + [nextCursor];
        i := i + 1;
      }
    }

    /** GetExecutionState: the answer depends on the gas target alone. */
    method GetExecutionState(gasUsed: int) returns (r: Result<Cursor, TrackerError>)
      requires Valid()
      modifies this`cursors
      ensures Valid()
      ensures r == if gasUsed in sortedStopPoints then Ok(At(machine, gasUsed)) else Err(InvalidGasUsed)
    {
      if gasUsed !in stopPointIndex {
        return Err(InvalidGasUsed);
      }
      var index := stopPointIndex[gasUsed];
      FillInCursors(index);
      r := Ok(cursors[index]);
    }
  }
}
