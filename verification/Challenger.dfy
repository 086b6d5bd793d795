/**
 The validator's side of a challenge: computing its own cuts, finding where an opponent's bisection first
 disagrees with them, and choosing the next move (challenge/execution.go and challenge/challenger.go).
 Each method is proved against a function, and the functions are what the game is reasoned about with.
 */
module Challenger {
  import opened Hashing
  import opened Execution
  import opened Bisections

  const SEGMENT_TARGET := 400

  /** What one validator knows: its machine, the hash functions and assertion.After.TotalMessagesRead. */
  datatype View = View(machine: Machine, h: Hasher, maxMessages: int) {
    ghost predicate Valid() {
      Progresses(machine) && CountsFollow(machine)
    }

    function At(g: int): Cursor
      requires Valid()
    {
      Execution.At(machine, g)
    }

    /** Execution got to the target and had not read more messages than the assertion may. */
    predicate Reachable(g: int)
      requires Valid()
    {
      At(g).state.totalMessagesRead <= maxMessages && At(g).Gas() >= g
    }

    function Cut(g: int): Hash
      requires Valid()
    {
      if Reachable(g) then CutHash(h, At(g).state) else ZERO_HASH
    }

    function Cuts(offsets: seq<int>): (r: seq<Hash>)
      requires Valid()
      ensures |r| == |offsets|
    {
      seq(|offsets|, i requires 0 <= i < |offsets| => Cut(offsets[i]))
    }

    /** The least index from `i` on where the given cuts differ from the local ones. */
    function FirstDifference(offsets: seq<int>, cuts: seq<Hash>, i: nat): (r: nat)
      requires Valid() && i <= |offsets| <= |cuts|
      ensures i <= r <= |offsets|
      ensures forall k :: i <= k < r ==> cuts[k] == Cut(offsets[k])
      ensures r < |offsets| ==> cuts[r] != Cut(offsets[r])
      decreases |offsets| - i
    {
      if i < |offsets| && cuts[i] == Cut(offsets[i]) then FirstDifference(offsets, cuts, i + 1) else i
    }
  }

  datatype ChallengeError =
    | Tracker(error: TrackerError)
    | FirstCutUnreachable
    | NoDivergence
    | FirstCutWrong
    | BlockedMachine
    | DivisionByZero
    | StartStateMismatch
    | TooManyBisections

  datatype RawCut = RawCut(state: ExecutionState, reachable: bool, steps: nat)

  datatype DivergenceInfo = DivergenceInfo(differentIndex: nat, segmentSteps: int, endIsUnreachable: bool)

  datatype Move =
    | BisectMove(prevBisection: Bisection, startState: ExecutionState, segmentToChallenge: nat,
                 inconsistentSegment: Segment, subCuts: seq<Hash>)
    | ProveContinuedMove(prevBisection: Bisection, segmentToChallenge: nat,
                         challengedSegment: Segment, previousCut: ExecutionState)
    | OneStepProofMove(prevBisection: Bisection, segmentToChallenge: nat,
                       challengedSegment: Segment, previousCut: ExecutionState)

  // ----- The choice of a move, as a function -----

  function SegmentStart(v: View, s: Segment): Result<ExecutionState, ChallengeError>
    requires v.Valid()
  {
    if v.Reachable(s.start) then Ok(v.At(s.start).state) else Err(BlockedMachine)
  }

  function Dissect(v: View, b: Bisection, i: nat, s: Segment): Result<Move, ChallengeError>
    requires v.Valid()
  {
    var n := Degree(s.length, SEGMENT_TARGET);
    if n <= 0 then Err(DivisionByZero) else
      var subCutOffsets := Sorted(CutOffsets(s, n));
      if !v.Reachable(subCutOffsets[0]) then Err(FirstCutUnreachable)
      else Ok(BisectMove(b, v.At(subCutOffsets[0]).state, i, s, v.Cuts(subCutOffsets)))
  }

  function ProveEnd(v: View, b: Bisection, i: nat, s: Segment, steps: int): Result<Move, ChallengeError>
    requires v.Valid()
  {
    match SegmentStart(v, s)
    case Err(e) => Err(e)
    case Ok(state) => Ok(if steps < 1 then ProveContinuedMove(b, i, s, state) else OneStepProofMove(b, i, s, state))
  }

  /** The move for the piece that ends at index `d` of the opponent's cuts. */
  function MoveAt(v: View, b: Bisection, offsets: seq<int>, d: nat): Result<Move, ChallengeError>
    requires v.Valid() && 0 < d < |offsets|
  {
    var s := Segment(offsets[d - 1], offsets[d] - offsets[d - 1]);
    var steps := v.At(offsets[d]).steps - v.At(offsets[d - 1]).steps;
    if steps > 1 || v.Cut(offsets[d]) == ZERO_HASH then Dissect(v, b, d - 1, s) else ProveEnd(v, b, d - 1, s, steps)
  }

  function ChosenMove(v: View, b: Bisection): Result<Move, ChallengeError>
    requires v.Valid() && |b.cuts| > 1
  {
    var offsets := Sorted(CutOffsets(b.segment, |b.cuts| - 1));
    var d := v.FirstDifference(offsets, b.cuts, 0);
    if d == |offsets| then Err(NoDivergence)
    else if d == 0 then Err(FirstCutWrong)
    else MoveAt(v, b, offsets, d)
  }

  // ----- The source's code -----

  /** getCutRaw: the state at a target and whether an honest assertion could have got there. */
  method GetCutRaw(v: View, tracker: ExecutionTracker, gasTarget: int) returns (r: Result<RawCut, ChallengeError>)
    requires v.Valid() && tracker.Valid() && tracker.machine == v.machine
    modifies tracker`cursors
    ensures tracker.Valid()
    ensures gasTarget !in tracker.sortedStopPoints ==> r == Err(Tracker(InvalidGasUsed))
    ensures gasTarget in tracker.sortedStopPoints ==>
      r == Ok(RawCut(v.At(gasTarget).state, v.Reachable(gasTarget), v.At(gasTarget).steps))
  {
    var cursor := tracker.GetExecutionState(gasTarget);
    if cursor.Err? {
      return Err(Tracker(cursor.error));
    }
    var state := cursor.value.state;
    if state.totalMessagesRead > v.maxMessages || state.totalGasConsumed < gasTarget {
      return Ok(RawCut(state, false, cursor.value.steps));
    }
    r := Ok(RawCut(state, true, cursor.value.steps));
  }

  function CutOfRaw(h: Hasher, c: RawCut): Hash {
    if c.reachable then CutHash(h, c.state) else ZERO_HASH
  }

  /** getCut: the cut at a target, with the number of steps taken to it even when it cannot be reached. */
  method GetCut(v: View, tracker: ExecutionTracker, gasTarget: int) returns (r: Result<(Hash, nat), ChallengeError>)
    requires v.Valid() && tracker.Valid() && tracker.machine == v.machine
    modifies tracker`cursors
    ensures tracker.Valid()
    ensures gasTarget !in tracker.sortedStopPoints ==> r == Err(Tracker(InvalidGasUsed))
    ensures gasTarget in tracker.sortedStopPoints ==> r == Ok((v.Cut(gasTarget), v.At(gasTarget).steps))
  {
    var raw := GetCutRaw(v, tracker, gasTarget);
    if raw.Err? {
      return Err(raw.error);
    }
    r := Ok((CutOfRaw(v.h, raw.value), raw.value.steps));
  }

  /** GetCuts: the start state and the local cut at every offset. The tracker sorts the offsets in place. */
  method GetCuts(v: View, offsets: seq<int>)
    returns (r: Result<(Option<ExecutionState>, seq<Hash>), ChallengeError>)
    requires v.Valid()
    ensures offsets == [] ==> r == Ok((None, []))
    ensures |offsets| > 0 && !v.Reachable(Sorted(offsets)[0]) ==> r == Err(FirstCutUnreachable)
    ensures |offsets| > 0 && v.Reachable(Sorted(offsets)[0]) ==>
      r == Ok((Some(v.At(Sorted(offsets)[0]).state), v.Cuts(Sorted(offsets))))
  {
    var tracker := new ExecutionTracker(v.machine, offsets);
    var sorted := Sorted(offsets);
    var cuts: seq<Hash> := [];
    var startState: Option<ExecutionState> := None;
    for i := 0 to |sorted|
      invariant tracker.Valid() && tracker.machine == v.machine && fresh(tracker)
      invariant forall g :: g in sorted ==> g in tracker.sortedStopPoints
      invariant cuts == v.Cuts(sorted)[..i]
      invariant i > 0 ==> v.Reachable(sorted[0]) && startState == Some(v.At(sorted[0]).state)
      invariant i == 0 ==> startState == None
    {
      var cut := GetCutRaw(v, tracker, sorted[i]);
      assert cut.Ok?;  // every offset is a stop point of this tracker
      if i == 0 {
        if !cut.value.reachable {
          return Err(FirstCutUnreachable);
        }
        startState := Some(cut.value.state);
      }
      cuts := cuts + [CutOfRaw(v.h, cut.value)];
    }
    assert cuts == v.Cuts(sorted);
    r := Ok((startState, cuts));
  }

  function DivergenceAt(v: View, offsets: seq<int>, d: nat): DivergenceInfo
    requires v.Valid() && d < |offsets|
  {
    DivergenceInfo(d, v.At(offsets[d]).steps - (if d == 0 then 0 else v.At(offsets[d - 1]).steps),
                   v.Cut(offsets[d]) == ZERO_HASH)
  }

  /** FindFirstDivergence: the first cut that differs, and how many steps separate it from the one before. */
  method FindFirstDivergence(v: View, offsets: seq<int>, cuts: seq<Hash>)
    returns (r: Result<DivergenceInfo, ChallengeError>)
    requires v.Valid() && |offsets| == |cuts|
    ensures v.FirstDifference(Sorted(offsets), cuts, 0) == |offsets| ==> r == Err(NoDivergence)
    ensures v.FirstDifference(Sorted(offsets), cuts, 0) < |offsets| ==>
      r == Ok(DivergenceAt(v, Sorted(offsets), v.FirstDifference(Sorted(offsets), cuts, 0)))
  {
    var tracker := new ExecutionTracker(v.machine, offsets);
    r := CompareCuts(v, tracker, Sorted(offsets), cuts);
  }

  /** The loop of FindFirstDivergence. */
  method CompareCuts(v: View, tracker: ExecutionTracker, offsets: seq<int>, cuts: seq<Hash>)
    returns (r: Result<DivergenceInfo, ChallengeError>)
    requires v.Valid() && tracker.Valid() && tracker.machine == v.machine && |offsets| == |cuts|
    requires forall g :: g in offsets ==> g in tracker.sortedStopPoints
    modifies tracker`cursors
    ensures v.FirstDifference(offsets, cuts, 0) == |offsets| ==> r == Err(NoDivergence)
    ensures v.FirstDifference(offsets, cuts, 0) < |offsets| ==>
      r == Ok(DivergenceAt(v, offsets, v.FirstDifference(offsets, cuts, 0)))
  {
    ghost var d := v.FirstDifference(offsets, cuts, 0);
    var lastSteps: int := 0;
    for i := 0 to |offsets|
      invariant tracker.Valid()
      invariant i <= d
      invariant lastSteps == if i == 0 then 0 else v.At(offsets[i - 1]).steps
    {
      var cut := GetCut(v, tracker, offsets[i]);
      assert cut.Ok?;  // every offset is a stop point of this tracker
      var localCut := cut.value.0;
      var newSteps: int := cut.value.1;
      if localCut != cuts[i] {
        return Ok(DivergenceInfo(i, newSteps - lastSteps, localCut == ZERO_HASH));
      }
      lastSteps := newSteps;
    }
    r := Err(NoDivergence);
  }

  /** getSegmentStartInfo, without the machine it also clones. */
  method GetSegmentStartInfo(v: View, s: Segment) returns (r: Result<ExecutionState, ChallengeError>)
    requires v.Valid()
    ensures r == SegmentStart(v, s)
    ensures r == Err(BlockedMachine) <==> !v.Reachable(s.start)
    ensures r.Ok? ==> r.value == v.At(s.start).state
  {
    var tracker := new ExecutionTracker(v.machine, [s.start]);
    var raw := GetCutRaw(v, tracker, s.start);
    assert raw.Ok?;
    if !raw.value.reachable {
      return Err(BlockedMachine);
    }
    r := Ok(raw.value.state);
  }

  /** The first branch of handleChallenge. */
  method DissectFurther(v: View, prevBisection: Bisection, cutToChallenge: nat, inconsistentSegment: Segment)
    returns (r: Result<Move, ChallengeError>)
    requires v.Valid()
    ensures r == Dissect(v, prevBisection, cutToChallenge, inconsistentSegment)
  {
    var segmentCount := SEGMENT_TARGET;
    if inconsistentSegment.length < segmentCount {
      segmentCount := inconsistentSegment.length;
    }
    if segmentCount <= 0 {
      return Err(DivisionByZero);
    }
    var subCutOffsets := GenerateBisectionCutOffsets(inconsistentSegment, segmentCount);
    var cuts := GetCuts(v, subCutOffsets);
    if cuts.Err? {
      return Err(cuts.error);
    }
    r := Ok(BisectMove(prevBisection, cuts.value.0.value, cutToChallenge, inconsistentSegment, cuts.value.1));
  }

  /** The other branch: the piece is at most one step of execution. */
  method ProvePieceEnd(v: View, prevBisection: Bisection, cutToChallenge: nat, inconsistentSegment: Segment,
                       segmentSteps: int)
    returns (r: Result<Move, ChallengeError>)
    requires v.Valid()
    ensures r == ProveEnd(v, prevBisection, cutToChallenge, inconsistentSegment, segmentSteps)
  {
    var previousCut := GetSegmentStartInfo(v, inconsistentSegment);
    if previousCut.Err? {
      return Err(previousCut.error);
    }
    if segmentSteps < 1 {
      r := Ok(ProveContinuedMove(prevBisection, cutToChallenge, inconsistentSegment, previousCut.value));
    } else {
      r := Ok(OneStepProofMove(prevBisection, cutToChallenge, inconsistentSegment, previousCut.value));
    }
  }

  /** handleChallenge. */
  method HandleChallenge(v: View, prevBisection: Bisection) returns (r: Result<Move, ChallengeError>)
    requires v.Valid() && |prevBisection.cuts| > 1
    ensures r == ChosenMove(v, prevBisection)
  {
    var prevCutOffsets := GenerateBisectionCutOffsets(prevBisection.segment, |prevBisection.cuts| - 1);
    var divergence := FindFirstDivergence(v, prevCutOffsets, prevBisection.cuts);
    prevCutOffsets := Sorted(prevCutOffsets);
    if divergence.Err? {
      return Err(divergence.error);
    }
    var info := divergence.value;
    if info.differentIndex == 0 {
      return Err(FirstCutWrong);
    }
    var cutToChallenge := info.differentIndex - 1;
    var inconsistentSegment :=
      Segment(prevCutOffsets[cutToChallenge], prevCutOffsets[cutToChallenge + 1] - prevCutOffsets[cutToChallenge]);
    if info.segmentSteps > 1 || info.endIsUnreachable {
      r := DissectFurther(v, prevBisection, cutToChallenge, inconsistentSegment);
    } else {
      r := ProvePieceEnd(v, prevBisection, cutToChallenge, inconsistentSegment, info.segmentSteps);
    }
  }
}
