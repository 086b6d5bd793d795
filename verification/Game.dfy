/**
 The whole challenge: a validator that moves by handleChallenge against an opponent who may send the contract
 any call at all. Safety, progress and the bound on the length of the game.
 */
module Game {
  import opened Hashing
  import opened Merkle
  import opened Execution
  import opened Bisections
  import opened Challenger
  import opened ChallengeContract

  const MAX_CUTS := SEGMENT_TARGET + 1

  // ----- Local execution over increasing targets -----

  /** Unreachability is final: once the machine falls short of a target or reads too much, it stays so. */
  lemma UnreachableStays(v: View, g: int, g': int)
    requires v.Valid() && g <= g' && !v.Reachable(g)
    ensures !v.Reachable(g')
  {
    AtRunsOn(v.machine, g, g');
  }

  /** What the number of steps between two targets says about the machine. */
  lemma StepsBetween(v: View, g: int, g': int)
    requires v.Valid() && g <= g' && v.Reachable(g)
    ensures v.At(g').steps >= v.At(g).steps
    ensures v.At(g').steps == v.At(g).steps <==> v.At(g') == v.At(g)
    ensures v.Reachable(g') ==> (v.At(g') == v.At(g) <==> v.At(g).Gas() >= g')
    ensures !v.Reachable(g') ==> v.At(g).Gas() < g'
    ensures v.At(g').steps == v.At(g).steps + 1 ==> v.machine.step(v.At(g).state) == Some(v.At(g').state)
    ensures v.At(g').steps > v.At(g).steps ==> v.At(g).Gas() < g'
    ensures v.At(g').steps > v.At(g).steps + 1 ==> g' - g >= 2
  {
    var c := v.At(g);
    AtRunsOn(v.machine, g, g');
    if v.At(g').steps == c.steps + 1 {
      OneStepApart(v.machine, c, g');
    }
  }

  /** A proof of continued execution or of one step leads from a state at `g` to the state at `g'`. */
  lemma StepReaches(v: View, g: int, g': int, after: ExecutionState)
    requires v.Valid() && g <= g' && v.Reachable(g)
    requires v.machine.step(v.At(g).state) == Some(after)
    requires v.At(g).Gas() < g' <= after.totalGasConsumed
    ensures v.At(g').state == after
  {
    AtRunsOn(v.machine, g, g');
  }

  // ----- The invariant -----

  /** After the validator's own bisection every cut is the local one. */
  ghost predicate HonestCuts(v: View, b: Bisection)
    requires v.Valid()
  {
    && 1 < |b.cuts| <= MAX_CUTS
    && b.segment.length >= 0
    && v.Reachable(b.segment.start)
    && forall i :: 0 <= i < |b.cuts| ==> b.cuts[i] == v.Cut(CutOffset(b.segment, |b.cuts| - 1, i))
  }

  /** After the opponent's bisection the validator agrees with the first cut and disputes the last. */
  ghost predicate DisputedCuts(v: View, b: Bisection)
    requires v.Valid()
  {
    && 1 < |b.cuts| <= MAX_CUTS
    && b.segment.length >= 0
    && v.Reachable(b.segment.start)
    && b.cuts[0] == v.Cut(b.segment.start)
    && b.cuts[|b.cuts| - 1] != v.Cut(b.segment.End())
  }

  ghost predicate Live(v: View, g: Game) {
    |g.bisection.cuts| > 1 && g.challengeState == BisectionRoot(v.h, g.bisection)
  }

  ghost predicate Invariant(v: View, me: Turn, g: Game)
    requires v.Valid()
  {
    if g.challengeState == ZERO_HASH then g.turn != me
    else Live(v, g) && if g.turn == me then DisputedCuts(v, g.bisection) else HonestCuts(v, g.bisection)
  }

  // ----- The opponent's moves -----

  lemma RootIsNotZero(h: Hasher, b: Bisection)
    requires CollisionFree(h) && |b.cuts| > 1
    ensures BisectionRoot(h, b) != ZERO_HASH
  {
    var chunks := Chunks(h, b);
    var n := |b.cuts| - 1;
    var from, to := CutOffset(b.segment, n, 0), CutOffset(b.segment, n, 1);
    ChunkIsNotPair(h, from, to - from, b.cuts[0], b.cuts[1], 0, 0);
    FoldIsNotZero(h, Siblings(h.pair, chunks, 0), PathToInt(Reverse(Turns(h.pair, chunks, 0))), chunks[0]);
    ProofRebuildsRoot(h.pair, chunks, 0);
  }

  lemma SameAssertion(h: Hasher, s: ExecutionState, gas: int, rest: Hash)
    requires AssertionInjective(h) && h.assertion(gas, rest) == CutHash(h, s)
    ensures gas == s.totalGasConsumed && rest == RestHash(h, s)
  {
  }

  lemma SameState(h: Hasher, s: ExecutionState, s': ExecutionState)
    requires AssertionInjective(h) && RestInjective(h) && CutHash(h, s) == CutHash(h, s')
    ensures s == s'
  {
    SameAssertion(h, s', s.totalGasConsumed, RestHash(h, s));
  }

  /** A piece that starts at a real cut of honest cuts starts at a reachable local state. */
  lemma PieceStartsReachable(v: View, b: Bisection, p: PieceProof, startHash: Hash)
    requires v.Valid() && CollisionFree(v.h) && HonestCuts(v, b)
    requires PieceIsProven(v.h, BisectionRoot(v.h, b), p, startHash) && startHash != ZERO_HASH
    ensures p.segment.length >= 0
    ensures v.Reachable(p.segment.start) && startHash == CutHash(v.h, v.At(p.segment.start).state)
    ensures p.oldEnd == v.Cut(p.segment.End())
  {
    var i := ProvenPieceIsReal(v.h, b, p, startHash);
    OffsetsPartitionSegment(b.segment, |b.cuts| - 1);
  }

  lemma NoFalseContinuation(v: View, b: Bisection, c: Call)
    requires v.Valid() && CollisionFree(v.h) && HonestCuts(v, b)
    requires c.ProveContinuedExecution?
    ensures !ContinuationAllowed(v.h, BisectionRoot(v.h, b), c)
  {
    if ContinuationAllowed(v.h, BisectionRoot(v.h, b), c) {
      var s := c.piece.segment;
      var start := v.h.assertion(c.gasUsedBefore, c.assertionRest);
      PieceStartsReachable(v, b, c.piece, start);
      SameAssertion(v.h, v.At(s.start).state, c.gasUsedBefore, c.assertionRest);
      StepsBetween(v, s.start, s.End());
      AtRunsOn(v.machine, s.start, s.End());
    }
  }

  lemma NoFalseStep(v: View, b: Bisection, c: Call)
    requires v.Valid() && CollisionFree(v.h) && HonestCuts(v, b)
    requires c.OneStepProveExecution?
    ensures !OneStepAllowed(v.h, BisectionRoot(v.h, b), c, v.machine, v.maxMessages)
  {
    if OneStepAllowed(v.h, BisectionRoot(v.h, b), c, v.machine, v.maxMessages) {
      var s := c.piece.segment;
      HashesAgree(v.h, v.machine, ProvenState(c), c);
      PieceStartsReachable(v, b, c.piece, CutHash(v.h, ProvenState(c)));
      SameState(v.h, ProvenState(c), v.At(s.start).state);
      StepReaches(v, s.start, s.End(), v.machine.step(ProvenState(c)).value);
    }
  }

  /** The gas and the rest a bisection names are those of the state its piece starts in, and do not end the piece. */
  lemma BisectionStartsTrue(v: View, b: Bisection, c: Call)
    requires v.Valid() && CollisionFree(v.h) && HonestCuts(v, b)
    requires c.BisectExecution? && BisectionAllowed(v.h, BisectionRoot(v.h, b), c, SEGMENT_TARGET)
    ensures v.Reachable(c.piece.segment.start)
    ensures c.gasUsedBefore == v.At(c.piece.segment.start).Gas() < c.piece.segment.End()
    ensures c.assertionRest == RestHash(v.h, v.At(c.piece.segment.start).state)
  {
    PieceStartsReachable(v, b, c.piece, c.chainHashes[0]);
    SameAssertion(v.h, v.At(c.piece.segment.start).state, c.gasUsedBefore, c.assertionRest);
  }

  /** On honest cuts the opponent can prove nothing: every call the contract accepts is a bisection to dispute. */
  lemma OpponentOnlyBisects(v: View, me: Turn, g: Game, c: Call)
    requires v.Valid() && CollisionFree(v.h)
    requires Invariant(v, me, g) && g.turn != me
    requires Accept(v, SEGMENT_TARGET, g, c).Some?
    ensures c.BisectExecution?
    ensures g.challengeState != ZERO_HASH
    ensures v.Reachable(c.piece.segment.start)
    ensures c.gasUsedBefore == v.At(c.piece.segment.start).Gas() < c.piece.segment.End()
    ensures c.assertionRest == RestHash(v.h, v.At(c.piece.segment.start).state)
    ensures Invariant(v, me, Accept(v, SEGMENT_TARGET, g, c).value)
  {
    if g.challengeState == ZERO_HASH {
      NobodyMovesAfterWin(v, SEGMENT_TARGET, g, c);
    }
    var b := g.bisection;
    match c
    case BisectExecution(p, gas, rest, hashes) =>
      PieceStartsReachable(v, b, p, hashes[0]);
      BisectionStartsTrue(v, b, c);
      RootIsNotZero(v.h, Bisection(p.segment, hashes));
    case ProveContinuedExecution(p, gas, rest) =>
      NoFalseContinuation(v, b, c);
    case OneStepProveExecution(_, _, _, _, _, _, _, _) =>
      NoFalseStep(v, b, c);
  }

  // ----- The validator's moves -----

  function Offsets(b: Bisection): seq<int>
    requires |b.cuts| > 1
  {
    CutOffsets(b.segment, |b.cuts| - 1)
  }

  /** The index of the first of the opponent's cuts the validator disagrees with. */
  function DisputedIndex(v: View, b: Bisection): nat
    requires v.Valid() && |b.cuts| > 1
  {
    v.FirstDifference(Offsets(b), b.cuts, 0)
  }

  /** The piece handleChallenge picks: the validator agrees with where it starts and not with where it ends. */
  ghost predicate PieceInDispute(v: View, b: Bisection, d: nat)
    requires v.Valid() && |b.cuts| > 1
  {
    && 0 < d < |b.cuts|
    && b.cuts[d - 1] == v.Cut(Offsets(b)[d - 1])
    && b.cuts[d] != v.Cut(Offsets(b)[d])
  }

  lemma OffsetsInOrder(b: Bisection)
    requires |b.cuts| > 1 && b.segment.length >= 0
    ensures Nondecreasing(Offsets(b)) && Sorted(Offsets(b)) == Offsets(b)
    ensures Offsets(b)[0] == b.segment.start && Offsets(b)[|b.cuts| - 1] == b.segment.End()
  {
    OffsetsPartitionSegment(b.segment, |b.cuts| - 1);
    SortedKeepsOrder(Offsets(b));
  }

  lemma DifferenceInside(v: View, offsets: seq<int>, cuts: seq<Hash>)
    requires v.Valid() && |offsets| == |cuts| > 0
    requires cuts[0] == v.Cut(offsets[0]) && cuts[|cuts| - 1] != v.Cut(offsets[|cuts| - 1])
    ensures var d := v.FirstDifference(offsets, cuts, 0);
      0 < d < |cuts| && cuts[d - 1] == v.Cut(offsets[d - 1]) && cuts[d] != v.Cut(offsets[d])
  {
  }

  /** handleChallenge finds a divergence, and not at the first cut. */
  lemma DisputeIsFound(v: View, b: Bisection)
    requires v.Valid() && DisputedCuts(v, b)
    ensures PieceInDispute(v, b, DisputedIndex(v, b))
    ensures Nondecreasing(Offsets(b))
    ensures ChosenMove(v, b) == MoveAt(v, b, Offsets(b), DisputedIndex(v, b))
  {
    OffsetsInOrder(b);
    DifferenceInside(v, Offsets(b), b.cuts);
  }

  /** The game after the validator plays a move, when the contract accepts its call. */
  function Played(v: View, g: Game, m: Move): Option<Game>
    requires WellFormedMove(m)
  {
    match CallOf(v.h, m)
    case None => None
    case Some(c) => Accept(v, SEGMENT_TARGET, g, c)
  }

  ghost predicate PlayedWell(v: View, me: Turn, g: Game, r: Result<Move, ChallengeError>)
    requires v.Valid()
  {
    && r.Ok? && WellFormedMove(r.value)
    && Played(v, g, r.value).Some?
    && Invariant(v, me, Played(v, g, r.value).value)
    && Played(v, g, r.value).value.turn != me
  }

  /** The validator's own dissection of a piece. */
  function OwnBisection(v: View, s: Segment): (b: Bisection)
    requires v.Valid() && s.length > 0
    ensures |b.cuts| == Degree(s.length, SEGMENT_TARGET) + 1 && b.segment == s
  {
    Bisection(s, v.Cuts(CutOffsets(s, Degree(s.length, SEGMENT_TARGET))))
  }

  lemma OwnCutAt(v: View, s: Segment, k: nat)
    requires v.Valid() && s.length > 0 && k <= Degree(s.length, SEGMENT_TARGET)
    ensures OwnBisection(v, s).cuts[k] == v.Cut(CutOffset(s, Degree(s.length, SEGMENT_TARGET), k))
  {
    assert CutOffsets(s, Degree(s.length, SEGMENT_TARGET))[k] == CutOffset(s, Degree(s.length, SEGMENT_TARGET), k);
  }

  /** All the cuts of the validator's own dissection are honest, from the start to the end of the piece. */
  lemma OwnCutsAreHonest(v: View, s: Segment)
    requires v.Valid() && s.length > 0 && v.Reachable(s.start)
    ensures HonestCuts(v, OwnBisection(v, s))
    ensures OwnBisection(v, s).cuts[0] == CutHash(v.h, v.At(s.start).state)
    ensures OwnBisection(v, s).cuts[|OwnBisection(v, s).cuts| - 1] == v.Cut(s.End())
  {
    var n := Degree(s.length, SEGMENT_TARGET);
    forall k | 0 <= k <= n ensures OwnBisection(v, s).cuts[k] == v.Cut(CutOffset(s, n, k)) {
      OwnCutAt(v, s, k);
    }
    OffsetsPartitionSegment(s, n);
  }

  lemma DissectionOf(v: View, b: Bisection, i: nat, s: Segment)
    requires v.Valid() && s.length > 0 && v.Reachable(s.start)
    ensures Dissect(v, b, i, s) == Ok(BisectMove(b, v.At(s.start).state, i, s, OwnBisection(v, s).cuts))
  {
    SubOffsets(s, Degree(s.length, SEGMENT_TARGET));
  }

  lemma SubOffsets(s: Segment, n: int)
    requires n > 0 && s.length >= 0
    ensures var sub := CutOffsets(s, n);
      sub[0] == s.start && sub[n] == s.End() && Nondecreasing(sub) && Sorted(sub) == sub
  {
    OffsetsPartitionSegment(s, n);
    SortedKeepsOrder(CutOffsets(s, n));
  }

  /** What the validator knows about the piece [s.start, s.End()] at index `i` when it moves. */
  ghost predicate MovesOn(v: View, me: Turn, g: Game, i: nat, s: Segment)
    requires v.Valid()
  {
    && Live(v, g) && g.turn == me && 1 < |g.bisection.cuts| <= MAX_CUTS && i + 1 < |g.bisection.cuts|
    && s.start == CutOffset(g.bisection.segment, |g.bisection.cuts| - 1, i)
    && s.End() == CutOffset(g.bisection.segment, |g.bisection.cuts| - 1, i + 1)
    && s.length >= 0
    && v.Reachable(s.start)
    && g.bisection.cuts[i] == v.Cut(s.start)
    && g.bisection.cuts[i + 1] != v.Cut(s.End())
  }

  lemma OwnBisectionAllowed(v: View, me: Turn, g: Game, i: nat, s: Segment)
    requires v.Valid() && CollisionFree(v.h) && MovesOn(v, me, g, i, s)
    requires v.At(s.start).Gas() < s.End()
    requires v.Cut(s.End()) != ZERO_HASH ==> s.length > 1
    ensures s.length > 0
    ensures BisectionAllowed(v.h, g.challengeState,
      BisectExecution(ProofOf(v.h, g.bisection, i, s), v.At(s.start).Gas(), RestHash(v.h, v.At(s.start).state),
                      OwnBisection(v, s).cuts), SEGMENT_TARGET)
  {
    OwnCutsAreHonest(v, s);
    PieceCanBeProven(v.h, g.bisection, i);
  }

  /** The validator's own bisection, once allowed, leaves the opponent cuts that are all the validator's. */
  lemma OwnBisectionPlayed(v: View, me: Turn, g: Game, c: Call, own: Bisection)
    requires v.Valid() && CollisionFree(v.h) && g.turn == me && HonestCuts(v, own)
    requires c.BisectExecution? && c.piece.segment == own.segment && c.chainHashes == own.cuts
    requires BisectionAllowed(v.h, g.challengeState, c, SEGMENT_TARGET)
    ensures Accept(v, SEGMENT_TARGET, g, c) == Some(Game(BisectionRoot(v.h, own), Other(me), own))
    ensures Invariant(v, me, Game(BisectionRoot(v.h, own), Other(me), own))
  {
    RootIsNotZero(v.h, own);
    assert Bisection(c.piece.segment, c.chainHashes) == own;
  }

  lemma DissectionPlayed(v: View, me: Turn, g: Game, i: nat, s: Segment)
    requires v.Valid() && CollisionFree(v.h) && MovesOn(v, me, g, i, s)
    requires v.At(s.start).Gas() < s.End()
    requires v.Cut(s.End()) != ZERO_HASH ==> s.length > 1
    ensures s.length > 0
    ensures var own, r := OwnBisection(v, s), Dissect(v, g.bisection, i, s);
      && r.Ok? && WellFormedMove(r.value)
      && Played(v, g, r.value) == Some(Game(BisectionRoot(v.h, own), Other(me), own))
      && Invariant(v, me, Game(BisectionRoot(v.h, own), Other(me), own))
  {
    OwnBisectionAllowed(v, me, g, i, s);
    DissectionOf(v, g.bisection, i, s);
    OwnCutsAreHonest(v, s);
    var own, c := OwnBisection(v, s), v.At(s.start);
    var call := BisectExecution(ProofOf(v.h, g.bisection, i, s), c.Gas(), RestHash(v.h, c.state), own.cuts);
    OwnBisectionPlayed(v, me, g, call, own);
    assert CallOf(v.h, BisectMove(g.bisection, c.state, i, s, own.cuts)) == Some(call);
  }

  /** More than one step, or an end the validator cannot reach: a bisection the contract accepts. */
  lemma DissectionAccepted(v: View, me: Turn, g: Game, i: nat, s: Segment)
    requires v.Valid() && CollisionFree(v.h) && MovesOn(v, me, g, i, s)
    requires v.At(s.End()).steps > v.At(s.start).steps + 1 || v.Cut(s.End()) == ZERO_HASH
    ensures PlayedWell(v, me, g, Dissect(v, g.bisection, i, s))
  {
    StepsBetween(v, s.start, s.End());
    DissectionPlayed(v, me, g, i, s);
  }

  lemma ContinuationIsAllowed(v: View, me: Turn, g: Game, i: nat, s: Segment)
    requires v.Valid() && MovesOn(v, me, g, i, s)
    requires v.At(s.End()).steps <= v.At(s.start).steps && v.Cut(s.End()) != ZERO_HASH
    ensures var before := v.At(s.start).state;
      ContinuationAllowed(v.h, g.challengeState, ProveContinuedExecution(
        ProofOf(v.h, g.bisection, i, s), before.totalGasConsumed, RestHash(v.h, before)))
  {
    StepsBetween(v, s.start, s.End());
    PieceCanBeProven(v.h, g.bisection, i);
  }

  /** No step to a reachable end: the contract accepts that execution continued, and nobody can move again. */
  lemma ContinuationAccepted(v: View, me: Turn, g: Game, i: nat, s: Segment)
    requires v.Valid() && MovesOn(v, me, g, i, s)
    requires v.At(s.End()).steps <= v.At(s.start).steps && v.Cut(s.End()) != ZERO_HASH
    ensures var m := ProveContinuedMove(g.bisection, i, s, v.At(s.start).state);
      PlayedWell(v, me, g, Ok(m)) && Played(v, g, m).value.challengeState == ZERO_HASH
  {
    ContinuationIsAllowed(v, me, g, i, s);
  }

  lemma OneStepIsAllowed(v: View, me: Turn, g: Game, i: nat, s: Segment)
    requires v.Valid() && MovesOn(v, me, g, i, s)
    requires v.At(s.End()).steps == v.At(s.start).steps + 1 && v.Cut(s.End()) != ZERO_HASH
    ensures OneStepAllowed(v.h, g.challengeState,
      OneStepCall(ProofOf(v.h, g.bisection, i, s), v.At(s.start).state), v.machine, v.maxMessages)
  {
    var c := OneStepCall(ProofOf(v.h, g.bisection, i, s), v.At(s.start).state);
    assert ProvenState(c) == v.At(s.start).state;
    HashesAgree(v.h, v.machine, v.At(s.start).state, c);
    StepsBetween(v, s.start, s.End());
    PieceCanBeProven(v.h, g.bisection, i);
  }

  /** One step to a reachable end: the contract accepts the proof of the step. */
  lemma OneStepAccepted(v: View, me: Turn, g: Game, i: nat, s: Segment)
    requires v.Valid() && MovesOn(v, me, g, i, s)
    requires v.At(s.End()).steps == v.At(s.start).steps + 1 && v.Cut(s.End()) != ZERO_HASH
    ensures var m := OneStepProofMove(g.bisection, i, s, v.At(s.start).state);
      PlayedWell(v, me, g, Ok(m)) && Played(v, g, m).value.challengeState == ZERO_HASH
  {
    OneStepIsAllowed(v, me, g, i, s);
  }

  lemma EndIsProven(v: View, me: Turn, g: Game, i: nat, s: Segment, steps: int)
    requires v.Valid() && MovesOn(v, me, g, i, s) && v.Cut(s.End()) != ZERO_HASH
    requires steps == v.At(s.End()).steps - v.At(s.start).steps <= 1
    ensures PlayedWell(v, me, g, ProveEnd(v, g.bisection, i, s, steps))
  {
    if steps < 1 {
      ContinuationAccepted(v, me, g, i, s);
    } else {
      OneStepAccepted(v, me, g, i, s);
    }
  }

  lemma MoveOnPiece(v: View, me: Turn, g: Game, o: seq<int>, d: nat, s: Segment)
    requires v.Valid() && CollisionFree(v.h) && 0 < d < |o|
    requires s.start == o[d - 1] && s.End() == o[d] && MovesOn(v, me, g, d - 1, s)
    ensures PlayedWell(v, me, g, MoveAt(v, g.bisection, o, d))
  {
    assert s == Segment(o[d - 1], o[d] - o[d - 1]);
    var steps := v.At(s.End()).steps - v.At(s.start).steps;
    if steps > 1 || v.Cut(s.End()) == ZERO_HASH {
      DissectionAccepted(v, me, g, d - 1, s);
    } else {
      EndIsProven(v, me, g, d - 1, s, steps);
    }
  }

  lemma DisputedPiece(v: View, me: Turn, g: Game, o: seq<int>, d: nat, s: Segment)
    requires v.Valid() && Live(v, g) && g.turn == me && DisputedCuts(v, g.bisection)
    requires PieceInDispute(v, g.bisection, d) && o == Offsets(g.bisection) && Nondecreasing(o)
    requires s.start == o[d - 1] && s.End() == o[d] && g.bisection.cuts[d - 1] != ZERO_HASH
    ensures MovesOn(v, me, g, d - 1, s)
  {
  }

  /**
   The validator's turn, whole: when the cut before the disputed one is a real one, handleChallenge returns a
   move without error, the contract accepts the node's call, and the invariant holds again at the opponent's turn.
   */
  lemma ValidatorMoves(v: View, me: Turn, g: Game)
    requires v.Valid() && CollisionFree(v.h) && Invariant(v, me, g) && g.turn == me
    requires g.bisection.cuts[DisputedIndex(v, g.bisection) - 1] != ZERO_HASH
    ensures PlayedWell(v, me, g, ChosenMove(v, g.bisection))
  {
    var b, d := g.bisection, DisputedIndex(v, g.bisection);
    DisputeIsFound(v, b);
    var o := Offsets(b);
    var s := Segment(o[d - 1], o[d] - o[d - 1]);
    DisputedPiece(v, me, g, o, d, s);
    MoveOnPiece(v, me, g, o, d, s);
  }

  // ----- Which move, and when there is one -----

  /** A bisection that never returns from "unreachable" to a real cut, as GetCuts makes them. */
  predicate UnreachableIsSuffix(cuts: seq<Hash>) {
    forall i, j :: 0 <= i < j < |cuts| && cuts[i] == ZERO_HASH ==> cuts[j] == ZERO_HASH
  }

  lemma OwnCutsEndUnreachable(v: View, offsets: seq<int>)
    requires v.Valid() && NeverUnreachable(v.h) && Nondecreasing(offsets)
    ensures UnreachableIsSuffix(v.Cuts(offsets))
  {
    forall i, j | 0 <= i < j < |offsets| && v.Cut(offsets[i]) == ZERO_HASH
      ensures v.Cut(offsets[j]) == ZERO_HASH
    {
      UnreachableStays(v, offsets[i], offsets[j]);
    }
  }

  lemma NoDissectionFromUnreachable(v: View, b: Bisection, i: nat, s: Segment)
    requires v.Valid() && !v.Reachable(s.start)
    ensures Dissect(v, b, i, s) == Err(if s.length <= 0 then DivisionByZero else FirstCutUnreachable)
  {
    if s.length > 0 {
      var n := Degree(s.length, SEGMENT_TARGET);
      OffsetsPartitionSegment(s, n);
      SortedKeepsOrder(CutOffsets(s, n));
    }
  }

  /** handleChallenge has a move exactly when the cut it agrees with last, just before the dispute, is a real one. */
  lemma MoveExistsIff(v: View, b: Bisection)
    requires v.Valid() && NeverUnreachable(v.h) && DisputedCuts(v, b)
    ensures ChosenMove(v, b).Ok? <==> b.cuts[DisputedIndex(v, b) - 1] != ZERO_HASH
    ensures ChosenMove(v, b).Err? ==> ChosenMove(v, b).error in {FirstCutUnreachable, DivisionByZero}
  {
    DisputeIsFound(v, b);
    var d, o := DisputedIndex(v, b), Offsets(b);
    var s := Segment(o[d - 1], o[d] - o[d - 1]);
    if v.Reachable(o[d - 1]) {
      ReachableStartMoves(v, b, o, d, s);
    } else {
      UnreachableStartFails(v, b, o, d, s);
    }
  }

  lemma ReachableStartMoves(v: View, b: Bisection, o: seq<int>, d: nat, s: Segment)
    requires v.Valid() && NeverUnreachable(v.h) && 0 < d < |o| && v.Reachable(o[d - 1])
    requires s == Segment(o[d - 1], o[d] - o[d - 1]) && s.length >= 0
    ensures MoveAt(v, b, o, d).Ok?
  {
    StepsBetween(v, o[d - 1], o[d]);
    if s.length > 0 {
      DissectionOf(v, b, d - 1, s);
    }
  }

  lemma UnreachableStartFails(v: View, b: Bisection, o: seq<int>, d: nat, s: Segment)
    requires v.Valid() && 0 < d < |o| && !v.Reachable(o[d - 1])
    requires s == Segment(o[d - 1], o[d] - o[d - 1]) && s.length >= 0
    ensures MoveAt(v, b, o, d) == Err(if s.length <= 0 then DivisionByZero else FirstCutUnreachable)
  {
    UnreachableStays(v, o[d - 1], o[d]);
    NoDissectionFromUnreachable(v, b, d - 1, s);
  }

  lemma SuffixIsEnough(v: View, b: Bisection)
    requires v.Valid() && NeverUnreachable(v.h) && DisputedCuts(v, b) && UnreachableIsSuffix(b.cuts)
    ensures b.cuts[DisputedIndex(v, b) - 1] != ZERO_HASH
  {
    var d := DisputedIndex(v, b);
    DisputeIsFound(v, b);
    if b.cuts[d - 1] == ZERO_HASH {
      UnreachableStays(v, Offsets(b)[d - 1], Offsets(b)[d]);
    }
  }

  lemma NoDifferenceIff(v: View, offsets: seq<int>, cuts: seq<Hash>)
    requires v.Valid() && |offsets| == |cuts|
    ensures v.FirstDifference(offsets, cuts, 0) == |offsets| <==> cuts == v.Cuts(offsets)
  {
    var d := v.FirstDifference(offsets, cuts, 0);
    if d < |offsets| {
      assert cuts[d] != v.Cuts(offsets)[d];
    }
  }

  lemma MoveIsNoAgreement(v: View, b: Bisection, o: seq<int>, d: nat)
    requires v.Valid() && 0 < d < |o|
    ensures MoveAt(v, b, o, d) != Err(NoDivergence)
  {
  }

  /** handleChallenge finds nothing to dispute exactly in a bisection whose every cut is the local one. */
  lemma OnlyOwnBisectionIsUndisputed(v: View, b: Bisection)
    requires v.Valid() && |b.cuts| > 1 && b.segment.length >= 0
    ensures ChosenMove(v, b) == Err(NoDivergence) <==> b.cuts == v.Cuts(Offsets(b))
  {
    var o, d := Offsets(b), DisputedIndex(v, b);
    OffsetsInOrder(b);
    NoDifferenceIff(v, o, b.cuts);
    if 0 < d < |o| {
      MoveIsNoAgreement(v, b, o, d);
    }
  }

  /** Which of the errors, or a move, handleChallenge comes to on any bisection. */
  lemma MoveOutcome(v: View, b: Bisection)
    requires v.Valid() && NeverUnreachable(v.h) && |b.cuts| > 1 && b.segment.length >= 0
    ensures var o, d, r := Offsets(b), DisputedIndex(v, b), ChosenMove(v, b);
      && (r == Err(NoDivergence) <==> forall k :: 0 <= k < |b.cuts| ==> b.cuts[k] == v.Cut(o[k]))
      && (r == Err(FirstCutWrong) <==> b.cuts[0] != v.Cut(b.segment.start))
      && (r == Err(FirstCutUnreachable) <==> 0 < d < |b.cuts| && b.cuts[d - 1] == ZERO_HASH && o[d - 1] < o[d])
      && (r == Err(DivisionByZero) <==> 0 < d < |b.cuts| && b.cuts[d - 1] == ZERO_HASH && o[d - 1] == o[d])
      && (r.Ok? <==> 0 < d < |b.cuts| && b.cuts[d - 1] != ZERO_HASH)
  {
    var o, d := Offsets(b), DisputedIndex(v, b);
    OffsetsInOrder(b);
    if 0 < d < |o| {
      var s := Segment(o[d - 1], o[d] - o[d - 1]);
      assert b.cuts[d - 1] == v.Cut(o[d - 1]) && b.cuts[d] != v.Cut(o[d]);
      if v.Reachable(o[d - 1]) {
        ReachableStartMoves(v, b, o, d, s);
      } else {
        UnreachableStartFails(v, b, o, d, s);
      }
    }
  }

  /** A machine blocked from the start, at gas 0. */
  function BlockedView(h: Hasher): View {
    View(Machine(ExecutionState(0, 0, 0, 0, 0, 0, 0), _ => None), h, 0)
  }

  lemma BlockedCuts(v: View, g: nat)
    requires v == BlockedView(v.h)
    ensures v.Valid() && v.At(g) == Cursor(v.machine.init, 0)
    ensures v.Cut(g) == if g == 0 then CutHash(v.h, v.machine.init) else ZERO_HASH
    ensures v.Reachable(g) <==> g == 0
  {
  }

  /** A bisection of three units of gas that returns from "unreachable". */
  function ReturningBisection(h: Hasher): Bisection {
    Bisection(Segment(0, 3), [CutHash(h, BlockedView(h).machine.init), ZERO_HASH, 7, 7])
  }

  /**
   Without that condition the move can fail: the validator agrees up to the unreachable cut and then has no start
   state to dissect from. ReturningRun shows a challenge that gets there.
   */
  lemma ReturningCutsStall(h: Hasher)
    requires NeverUnreachable(h)
    ensures var v, b := BlockedView(h), ReturningBisection(h);
      v.Valid() && DisputedCuts(v, b) && ChosenMove(v, b) == Err(FirstCutUnreachable)
  {
    var v, b := BlockedView(h), ReturningBisection(h);
    var o := Offsets(b);
    assert o[0] == 0 && o[1] == 1 && o[2] == 2 && o[3] == 3;
    BlockedCuts(v, 0);
    BlockedCuts(v, 1);
    BlockedCuts(v, 2);
    BlockedCuts(v, 3);
    DisputeIsFound(v, b);
    var d := DisputedIndex(v, b);
    assert d != 1 && d != 3 by {
      assert b.cuts[1] == v.Cut(o[1]) && b.cuts[2] != v.Cut(o[2]);
    }
    NoDissectionFromUnreachable(v, b, 1, Segment(1, 1));
  }

  /**
   The three moves against the machine, when the end of the piece can be reached: continued execution when the
   state at its start has already used the gas of the whole piece, a one step proof when one step crosses its end,
   and otherwise a bisection of a piece of at least two units of gas.
   */
  lemma MoveMatchesExecution(v: View, b: Bisection)
    requires v.Valid() && NeverUnreachable(v.h) && DisputedCuts(v, b) && ChosenMove(v, b).Ok?
    ensures 0 < DisputedIndex(v, b) < |b.cuts|
    ensures
      var d := DisputedIndex(v, b);
      var from, to, m := Offsets(b)[d - 1], Offsets(b)[d], ChosenMove(v, b).value;
      && v.Reachable(from)
      && (m.ProveContinuedMove? <==> v.Reachable(to) && v.At(from).Gas() >= to)
      && (m.OneStepProofMove? <==> v.Reachable(to) && v.At(from).Gas() < to &&
                                   v.machine.step(v.At(from).state) == Some(v.At(to).state))
      && (m.BisectMove? ==> !v.Reachable(to) || to - from >= 2)
      && (m.BisectMove? ==> v.At(from).Gas() < to)
  {
    MoveExistsIff(v, b);
    DisputeIsFound(v, b);
    var d := DisputedIndex(v, b);
    var from, to := Offsets(b)[d - 1], Offsets(b)[d];
    StepsBetween(v, from, to);
    if v.At(from).Gas() < to && v.machine.step(v.At(from).state) == Some(v.At(to).state) && v.Reachable(to) {
      OneStepOnly(v, from, to);
    }
  }

  lemma OneStepOnly(v: View, g: int, g': int)
    requires v.Valid() && g <= g' && v.Reachable(g) && v.Reachable(g')
    requires v.At(g).Gas() < g' && v.machine.step(v.At(g).state) == Some(v.At(g').state)
    ensures v.At(g').steps == v.At(g).steps + 1
  {
    AtRunsOn(v.machine, g, g');
  }

  // ----- How long a challenge can last -----

  lemma {:induction false} RoundsMonotone(a: int, b: int)
    requires a <= b
    ensures Rounds(a) <= Rounds(b)
    decreases b
  {
    if a > 1 {
      RoundsMonotone((a + 1) / 2, (b + 1) / 2);
    }
  }

  /** Every bisection but the first, which has one piece, has as many pieces as the contract asks for. */
  ghost predicate Sized(b: Bisection) {
    && |b.cuts| > 1 && b.segment.length >= 0
    && (|b.cuts| == 2 || |b.cuts| - 1 == BisectionDegree(b.segment.length, SEGMENT_TARGET))
  }

  /** No piece of a sized bisection is longer than this. */
  function Longest(b: Bisection): int {
    if |b.cuts| == 2 then b.segment.length else (b.segment.length + 1) / 2
  }

  lemma PieceFitsLongest(b: Bisection, i: nat)
    requires Sized(b) && i + 1 < |b.cuts|
    ensures 0 <= CutOffset(b.segment, |b.cuts| - 1, i + 1) - CutOffset(b.segment, |b.cuts| - 1, i) <= Longest(b)
  {
    PieceLength(b.segment, |b.cuts| - 1, i);
    if |b.cuts| == 2 {
      OnePiece(b.segment.length);
    } else {
      PiecesHalve(b.segment.length, SEGMENT_TARGET);
    }
  }

  lemma OnePiece(length: int)
    ensures FirstPiece(length, 1) == length
  {
  }

  /** A piece of one unit that ends unreachable: the contract allows no bisection of it with another end. */
  predicate IsLastPiece(b: Bisection) {
    b.segment.length == 1 && |b.cuts| == 2 && b.cuts[1] == ZERO_HASH
  }

  /** A bound on the bisections still to come. */
  function Dissections(b: Bisection): nat {
    (if IsLastPiece(b) then 0 else 1) + Rounds(Longest(b))
  }

  /** A bound on the calls the contract can still accept. */
  function Potential(g: Game): nat {
    if g.challengeState == ZERO_HASH then 0 else 1 + Dissections(g.bisection)
  }

  lemma DissectionIsUsed(b: Bisection, b': Bisection)
    requires |b.cuts| > 1 && |b'.cuts| - 1 == BisectionDegree(b'.segment.length, SEGMENT_TARGET) > 0
    requires b'.segment.length <= Longest(b)
    requires b'.cuts[|b'.cuts| - 1] != ZERO_HASH ==> b'.segment.length > 1
    requires IsLastPiece(b) ==> b'.cuts[|b'.cuts| - 1] != ZERO_HASH
    ensures Dissections(b') < Dissections(b)
  {
    if b'.segment.length > 1 {
      RoundsMonotone(b'.segment.length, Longest(b));
    }
  }

  lemma BisectionUsesPotential(v: View, g: Game, c: Call)
    requires CollisionFree(v.h) && Live(v, g) && Sized(g.bisection)
    requires c.BisectExecution? && BisectionAllowed(v.h, g.challengeState, c, SEGMENT_TARGET)
    ensures Sized(Bisection(c.piece.segment, c.chainHashes))
    ensures Dissections(Bisection(c.piece.segment, c.chainHashes)) < Dissections(g.bisection)
  {
    var i := ProvenPieceIsReal(v.h, g.bisection, c.piece, c.chainHashes[0]);
    PieceFitsLongest(g.bisection, i);
    DissectionIsUsed(g.bisection, Bisection(c.piece.segment, c.chainHashes));
  }

  /** Every accepted call, by either player, uses some of the potential up. */
  lemma EveryCallCounts(v: View, g: Game, c: Call)
    requires CollisionFree(v.h) && Sized(g.bisection)
    requires g.challengeState == ZERO_HASH || Live(v, g)
    requires Accept(v, SEGMENT_TARGET, g, c).Some?
    ensures var g' := Accept(v, SEGMENT_TARGET, g, c).value;
      && Sized(g'.bisection)
      && (g'.challengeState == ZERO_HASH || Live(v, g'))
      && Potential(g') < Potential(g)
  {
    if g.challengeState == ZERO_HASH {
      NobodyMovesAfterWin(v, SEGMENT_TARGET, g, c);
    }
    if c.BisectExecution? {
      BisectionUsesPotential(v, g, c);
    }
  }

  // ----- Whole challenges -----

  /** One accepted call: the validator's chosen move, or any call at all by the opponent. */
  ghost predicate Step(v: View, me: Turn, g: Game, g': Game)
    requires v.Valid()
  {
    if g.turn == me then
      && |g.bisection.cuts| > 1 && g.challengeState != ZERO_HASH
      && ChosenMove(v, g.bisection).Ok? && WellFormedMove(ChosenMove(v, g.bisection).value)
      && Played(v, g, ChosenMove(v, g.bisection).value) == Some(g')
    else
      exists c :: Accept(v, SEGMENT_TARGET, g, c) == Some(g')
  }

  ghost predicate IsRun(v: View, me: Turn, before: ExecutionState, after: ExecutionState, gs: seq<Game>)
    requires v.Valid()
  {
    && |gs| > 0 && gs[0] == InitialGame(v.h, before, after)
    && forall i :: 0 <= i < |gs| - 1 ==> Step(v, me, gs[i], gs[i + 1])
  }

  /**
   A challenge worth winning: the assertion starts where the validator's own execution is, and it ends somewhere
   else when the validator challenges it, or there when the validator made it.
   */
  ghost predicate RightSide(v: View, me: Turn, before: ExecutionState, after: ExecutionState)
    requires v.Valid()
  {
    && before.totalGasConsumed <= after.totalGasConsumed
    && v.Reachable(before.totalGasConsumed)
    && CutHash(v.h, before) == v.Cut(before.totalGasConsumed)
    && (me == ChallengerTurn <==> CutHash(v.h, after) != v.Cut(after.totalGasConsumed))
  }

  lemma InitialIsLive(v: View, before: ExecutionState, after: ExecutionState)
    ensures Live(v, InitialGame(v.h, before, after))
    ensures Offsets(InitialBisection(v.h, before, after)) == [before.totalGasConsumed, after.totalGasConsumed]
  {
    var b := InitialBisection(v.h, before, after);
    assert CutOffset(b.segment, 1, 1) == after.totalGasConsumed;
    assert Chunks(v.h, b) == [Chunk(v.h, b, 0)];
  }

  lemma InitialInvariant(v: View, me: Turn, before: ExecutionState, after: ExecutionState)
    requires v.Valid() && CollisionFree(v.h) && RightSide(v, me, before, after)
    ensures Invariant(v, me, InitialGame(v.h, before, after))
  {
    InitialIsLive(v, before, after);
    RootIsNotZero(v.h, InitialBisection(v.h, before, after));
    var b := InitialBisection(v.h, before, after);
    assert Offsets(b)[0] == CutOffset(b.segment, 1, 0) && Offsets(b)[1] == CutOffset(b.segment, 1, 1);
  }

  lemma ValidatorStepKeeps(v: View, me: Turn, g: Game, g': Game)
    requires v.Valid() && CollisionFree(v.h) && Invariant(v, me, g) && g.turn == me && Step(v, me, g, g')
    ensures Invariant(v, me, g')
  {
    MoveExistsIff(v, g.bisection);
    ValidatorMoves(v, me, g);
  }

  lemma OpponentStepKeeps(v: View, me: Turn, g: Game, g': Game)
    requires v.Valid() && CollisionFree(v.h) && Invariant(v, me, g) && g.turn != me && Step(v, me, g, g')
    ensures Invariant(v, me, g')
  {
    var c :| Accept(v, SEGMENT_TARGET, g, c) == Some(g');
    OpponentOnlyBisects(v, me, g, c);
  }

  lemma StepKeepsInvariant(v: View, me: Turn, g: Game, g': Game)
    requires v.Valid() && CollisionFree(v.h) && Invariant(v, me, g) && Step(v, me, g, g')
    ensures Invariant(v, me, g')
  {
    if g.turn == me {
      ValidatorStepKeeps(v, me, g, g');
    } else {
      OpponentStepKeeps(v, me, g, g');
    }
  }

  /**
   Safety, over every run against every opponent: whenever the validator is to move, nobody has won, it agrees
   with the first cut of the opponent's bisection and disputes the last; whenever the opponent is to move and has
   not lost, every cut on chain is the validator's own.
   */
  lemma {:induction false} EveryRunKeepsInvariant(v: View, me: Turn, before: ExecutionState, after: ExecutionState,
                                                  gs: seq<Game>, i: nat)
    requires v.Valid() && CollisionFree(v.h) && RightSide(v, me, before, after)
    requires IsRun(v, me, before, after, gs) && i < |gs|
    ensures Invariant(v, me, gs[i])
  {
    if i == 0 {
      InitialInvariant(v, me, before, after);
    } else {
      EveryRunKeepsInvariant(v, me, before, after, gs, i - 1);
      StepKeepsInvariant(v, me, gs[i - 1], gs[i]);
    }
  }

  lemma StepUsesPotential(v: View, me: Turn, g: Game, g': Game)
    requires v.Valid() && CollisionFree(v.h) && Step(v, me, g, g')
    requires Sized(g.bisection) && (g.challengeState == ZERO_HASH || Live(v, g))
    ensures Sized(g'.bisection)
    ensures g'.challengeState == ZERO_HASH || Live(v, g')
    ensures Potential(g') < Potential(g)
  {
    var c :| Accept(v, SEGMENT_TARGET, g, c) == Some(g');
    EveryCallCounts(v, g, c);
  }

  lemma {:induction false} PotentialRunsDown(v: View, me: Turn, before: ExecutionState, after: ExecutionState,
                                             gs: seq<Game>, i: nat)
    requires v.Valid() && CollisionFree(v.h) && before.totalGasConsumed <= after.totalGasConsumed
    requires IsRun(v, me, before, after, gs) && i < |gs|
    ensures Sized(gs[i].bisection)
    ensures gs[i].challengeState == ZERO_HASH || Live(v, gs[i])
    ensures Potential(gs[i]) + i <= Rounds(after.totalGasConsumed - before.totalGasConsumed) + 2
  {
    if i == 0 {
      InitialIsLive(v, before, after);
    } else {
      PotentialRunsDown(v, me, before, after, gs, i - 1);
      StepUsesPotential(v, me, gs[i - 1], gs[i]);
    }
  }

  /** Every challenge over at most 2^k units of gas is over after at most k + 2 calls, whoever is right. */
  lemma {:induction false} ChallengesAreShort(v: View, me: Turn, before: ExecutionState, after: ExecutionState, gs: seq<Game>, k: nat)
    requires v.Valid() && CollisionFree(v.h)
    requires 0 <= after.totalGasConsumed - before.totalGasConsumed <= Pow2(k)
    requires IsRun(v, me, before, after, gs)
    ensures |gs| - 1 <= k + 2
  {
    PotentialRunsDown(v, me, before, after, gs, |gs| - 1);
    RoundsIsLog(after.totalGasConsumed - before.totalGasConsumed, k);
  }

  lemma SameChunkSamePiece(h: Hasher, b: Bisection, b': Bisection, i: nat)
    requires ChunkInjective(h) && |b.cuts| == |b'.cuts| && i + 1 < |b.cuts| && Chunks(h, b) == Chunks(h, b')
    ensures b.cuts[i] == b'.cuts[i] && b.cuts[i + 1] == b'.cuts[i + 1]
    ensures CutOffset(b.segment, |b.cuts| - 1, i) == CutOffset(b'.segment, |b.cuts| - 1, i)
    ensures CutOffset(b.segment, |b.cuts| - 1, i + 1) == CutOffset(b'.segment, |b.cuts| - 1, i + 1)
  {
    var n := |b.cuts| - 1;
    assert Chunks(h, b)[i] == Chunk(h, b, i) && Chunks(h, b')[i] == Chunk(h, b', i);
    var from, to := CutOffset(b.segment, n, i), CutOffset(b.segment, n, i + 1);
    var from', to' := CutOffset(b'.segment, n, i), CutOffset(b'.segment, n, i + 1);
    ChunkParts(h, from, to - from, b.cuts[i], b.cuts[i + 1], from', to' - from', b'.cuts[i], b'.cuts[i + 1]);
  }

  /** A bisection is told apart by its root: its chunks are, and they tell its segment and its cuts. */
  lemma RootTellsBisection(h: Hasher, b: Bisection, b': Bisection)
    requires CollisionFree(h) && |b.cuts| > 1 && |b'.cuts| > 1
    requires BisectionRoot(h, b) == BisectionRoot(h, b')
    ensures b == b'
  {
    forall x, y ensures h.pair(x, y) !in Chunks(h, b) && h.pair(x, y) !in Chunks(h, b') {
      ChunksAreNoPairs(h, b, x, y);
      ChunksAreNoPairs(h, b', x, y);
    }
    RootIsBinding(h.pair, Chunks(h, b), Chunks(h, b'));
    var n := |b.cuts| - 1;
    assert |Chunks(h, b')| == n;
    forall k | 0 <= k <= n ensures b.cuts[k] == b'.cuts[k] {
      SameChunkSamePiece(h, b, b', if k < n then k else k - 1);
    }
    SameChunkSamePiece(h, b, b', 0);
    SameChunkSamePiece(h, b, b', n - 1);
    OffsetsPartitionSegment(b.segment, n);
    OffsetsPartitionSegment(b'.segment, n);
  }

  lemma {:induction false} PotentialFalls(v: View, me: Turn, before: ExecutionState, after: ExecutionState,
                                          gs: seq<Game>, i: nat, j: nat)
    requires v.Valid() && CollisionFree(v.h) && before.totalGasConsumed <= after.totalGasConsumed
    requires IsRun(v, me, before, after, gs) && i < j < |gs|
    ensures Potential(gs[j]) < Potential(gs[i])
  {
    PotentialRunsDown(v, me, before, after, gs, j - 1);
    StepUsesPotential(v, me, gs[j - 1], gs[j]);
    if i < j - 1 {
      PotentialFalls(v, me, before, after, gs, i, j - 1);
    }
  }

  /** No state of a challenge comes back. */
  lemma {:induction false} NoStateRecurs(v: View, me: Turn, before: ExecutionState, after: ExecutionState, gs: seq<Game>, i: nat, j: nat)
    requires v.Valid() && CollisionFree(v.h) && before.totalGasConsumed <= after.totalGasConsumed
    requires IsRun(v, me, before, after, gs) && i < j < |gs|
    ensures gs[i].challengeState != gs[j].challengeState
  {
    PotentialRunsDown(v, me, before, after, gs, i);
    PotentialRunsDown(v, me, before, after, gs, j);
    PotentialFalls(v, me, before, after, gs, i, j);
    if gs[i].challengeState == gs[j].challengeState != ZERO_HASH {
      RootTellsBisection(v.h, gs[i].bisection, gs[j].bisection);
    }
  }

  /** Of the calls, bisectExecution alone leaves a state in which the other side can move, and only it logs an event. */
  lemma OnlyBisectionsAreLogged(v: View, g: Game, c: Call)
    requires CollisionFree(v.h) && Accept(v, SEGMENT_TARGET, g, c).Some?
    ensures Accept(v, SEGMENT_TARGET, g, c).value.challengeState != ZERO_HASH <==> c.BisectExecution?
  {
    if c.BisectExecution? {
      RootIsNotZero(v.h, Bisection(c.piece.segment, c.chainHashes));
    }
  }

  /** The Bisected events of a run. */
  function Log(gs: seq<Game>): seq<Event> {
    if |gs| <= 1 then []
    else
      var g := gs[|gs| - 1];
      Log(gs[..|gs| - 1]) + if g.challengeState == ZERO_HASH then [] else [Bisected(g.challengeState, g.bisection)]
  }

  lemma {:induction false} NotLoggedBefore(v: View, me: Turn, before: ExecutionState, after: ExecutionState,
                                           gs: seq<Game>, n: nat, j: nat)
    requires v.Valid() && CollisionFree(v.h) && before.totalGasConsumed <= after.totalGasConsumed
    requires IsRun(v, me, before, after, gs) && n <= j < |gs|
    ensures MatchingLogs(Log(gs[..n]), gs[j].challengeState) == []
  {
    if n > 1 {
      assert gs[..n][..n - 1] == gs[..n - 1] && gs[..n][n - 1] == gs[n - 1];
      NotLoggedBefore(v, me, before, after, gs, n - 1, j);
      NoStateRecurs(v, me, before, after, gs, n - 1, j);
      LastLog(Log(gs[..n - 1]), Bisected(gs[n - 1].challengeState, gs[n - 1].bisection), gs[j].challengeState);
    }
  }

  lemma LastLog(log: seq<Event>, e: Event, state: Hash)
    ensures MatchingLogs(log + [e], state) == MatchingLogs(log, state) + if e.challengeState == state then [e] else []
    ensures MatchingLogs(log + [], state) == MatchingLogs(log, state)
  {
    assert (log + [e])[..|log|] == log && log + [] == log;
  }

  /** In every run, the lookup of the current state finds the current bisection, and never two. */
  lemma {:induction false} LookupFindsBisection(v: View, me: Turn, before: ExecutionState, after: ExecutionState, gs: seq<Game>, last: Game)
    requires v.Valid() && CollisionFree(v.h) && before.totalGasConsumed <= after.totalGasConsumed
    requires IsRun(v, me, before, after, gs) && last == gs[|gs| - 1] && last.challengeState != ZERO_HASH
    ensures LookupBisection(Log(gs), last.challengeState) == Ok(if |gs| == 1 then None else Some(last.bisection))
  {
    var n := |gs| - 1;
    if n > 0 {
      NotLoggedBefore(v, me, before, after, gs, n, n);
      LastLog(Log(gs[..n]), Bisected(last.challengeState, last.bisection), last.challengeState);
    }
  }

  ghost predicate CanGoOn(v: View, me: Turn, g: Game)
    requires v.Valid()
  {
    exists g' :: Step(v, me, g, g')
  }

  ghost predicate NoCallLeft(v: View, g: Game) {
    forall c :: Accept(v, SEGMENT_TARGET, g, c) == None
  }

  /** The validator can move exactly when the cut before the disputed one is a real one. */
  lemma ValidatorCanGoOn(v: View, me: Turn, g: Game)
    requires v.Valid() && CollisionFree(v.h) && Invariant(v, me, g) && g.turn == me
    ensures CanGoOn(v, me, g) <==> g.bisection.cuts[DisputedIndex(v, g.bisection) - 1] != ZERO_HASH
  {
    MoveExistsIff(v, g.bisection);
    if g.bisection.cuts[DisputedIndex(v, g.bisection) - 1] != ZERO_HASH {
      ValidatorMoves(v, me, g);
      assert Step(v, me, g, Played(v, g, ChosenMove(v, g.bisection).value).value);
    }
  }

  lemma OpponentIsOutOfCalls(v: View, me: Turn, g: Game)
    requires v.Valid() && g.turn != me && !CanGoOn(v, me, g)
    ensures NoCallLeft(v, g)
  {
    forall c ensures Accept(v, SEGMENT_TARGET, g, c) == None {
      if Accept(v, SEGMENT_TARGET, g, c).Some? {
        assert Step(v, me, g, Accept(v, SEGMENT_TARGET, g, c).value);
        assert false;
      }
    }
  }

  /**
   Where a challenge comes to a halt, exactly: on the validator if the opponent's last bisection has the unreachable
   word just before the first cut it disputes, and otherwise on the opponent, who has no call left to make and can only
   time out.
   */
  lemma {:induction false} ChallengeHalts(v: View, me: Turn, before: ExecutionState, after: ExecutionState, gs: seq<Game>, last: Game)
    requires v.Valid() && CollisionFree(v.h) && RightSide(v, me, before, after)
    requires IsRun(v, me, before, after, gs) && last == gs[|gs| - 1]
    ensures Invariant(v, me, last)
    ensures !CanGoOn(v, me, last) <==>
      if last.turn == me then last.bisection.cuts[DisputedIndex(v, last.bisection) - 1] == ZERO_HASH
      else NoCallLeft(v, last)
  {
    EveryRunKeepsInvariant(v, me, before, after, gs, |gs| - 1);
    if last.turn == me {
      ValidatorCanGoOn(v, me, last);
    } else if !CanGoOn(v, me, last) {
      OpponentIsOutOfCalls(v, me, last);
    }
  }

  /** The validator prevails when the opponent's last bisection does not return from unreachable. */
  lemma {:induction false} ValidatorPrevails(v: View, me: Turn, before: ExecutionState, after: ExecutionState, gs: seq<Game>, last: Game)
    requires v.Valid() && CollisionFree(v.h) && RightSide(v, me, before, after)
    requires IsRun(v, me, before, after, gs) && last == gs[|gs| - 1]
    requires UnreachableIsSuffix(last.bisection.cuts)
    requires !CanGoOn(v, me, last)
    ensures last.turn != me && NoCallLeft(v, last)
  {
    ChallengeHalts(v, me, before, after, gs, last);
    if last.turn == me {
      SuffixIsEnough(v, last.bisection);
    }
  }

  // ----- A challenge that stalls the validator -----

  /** An assertion over 402 units of gas, of a machine that is blocked from the start. */
  const FALSE_CLAIM := ExecutionState(1, 0, 402, 0, 0, 0, 0)

  /** The validator's first move against it: 400 pieces, the first of three units. */
  function FirstDissection(h: Hasher): Bisection {
    OwnBisection(BlockedView(h), Segment(0, 402))
  }

  lemma ClaimIsFalse(h: Hasher)
    requires CollisionFree(h)
    ensures RightSide(BlockedView(h), ChallengerTurn, BlockedView(h).machine.init, FALSE_CLAIM)
  {
    BlockedCuts(BlockedView(h), 0);
    BlockedCuts(BlockedView(h), 402);
  }

  /** A single piece whose end the validator cannot reach is dissected whole. */
  lemma OnePieceIsDissected(v: View, b: Bisection)
    requires v.Valid() && |b.cuts| == 2 && DisputedCuts(v, b) && v.Cut(b.segment.End()) == ZERO_HASH
    ensures ChosenMove(v, b) == Dissect(v, b, 0, b.segment)
  {
    OffsetsInOrder(b);
    DisputeIsFound(v, b);
  }

  lemma OnePieceMovesOn(v: View, me: Turn, g: Game)
    requires v.Valid() && Live(v, g) && g.turn == me && |g.bisection.cuts| == 2 && DisputedCuts(v, g.bisection)
    ensures MovesOn(v, me, g, 0, g.bisection.segment)
  {
    OffsetsPartitionSegment(g.bisection.segment, 1);
  }

  lemma WholeIsDissected(v: View, me: Turn, g: Game)
    requires v.Valid() && CollisionFree(v.h) && Live(v, g) && g.challengeState != ZERO_HASH && g.turn == me
    requires |g.bisection.cuts| == 2 && DisputedCuts(v, g.bisection) && v.Cut(g.bisection.segment.End()) == ZERO_HASH
    requires v.At(g.bisection.segment.start).Gas() < g.bisection.segment.End()
    ensures g.bisection.segment.length > 0
    ensures var own := OwnBisection(v, g.bisection.segment);
      Step(v, me, g, Game(BisectionRoot(v.h, own), Other(me), own))
  {
    OnePieceMovesOn(v, me, g);
    OnePieceIsDissected(v, g.bisection);
    DissectionPlayed(v, me, g, 0, g.bisection.segment);
  }

  lemma ValidatorDissects(h: Hasher)
    requires CollisionFree(h)
    ensures var v, own := BlockedView(h), FirstDissection(h);
      Step(v, ChallengerTurn, InitialGame(h, v.machine.init, FALSE_CLAIM), Game(BisectionRoot(h, own), AsserterTurn, own))
  {
    var v, me := BlockedView(h), ChallengerTurn;
    var g := InitialGame(h, v.machine.init, FALSE_CLAIM);
    ClaimIsFalse(h);
    InitialInvariant(v, me, v.machine.init, FALSE_CLAIM);
    RootIsNotZero(h, g.bisection);
    BlockedCuts(v, 0);
    BlockedCuts(v, 402);
    WholeIsDissected(v, me, g);
  }

  lemma FirstPieceOfThree(h: Hasher)
    requires NeverUnreachable(h)
    ensures var own := FirstDissection(h);
      && |own.cuts| == 401 && own.segment == Segment(0, 402)
      && CutOffset(own.segment, 400, 0) == 0 && CutOffset(own.segment, 400, 1) == 3
      && own.cuts[0] == CutHash(h, BlockedView(h).machine.init) && own.cuts[1] == ZERO_HASH
  {
    var v := BlockedView(h);
    OwnCutAt(v, Segment(0, 402), 0);
    OwnCutAt(v, Segment(0, 402), 1);
    BlockedCuts(v, 0);
    BlockedCuts(v, 3);
  }

  /** The contract accepts a bisection of a proven piece whatever lies between its first and its last cut. */
  lemma AnyMiddleIsAccepted(v: View, g: Game, i: nat, b: Bisection, start: ExecutionState)
    requires Live(v, g) && i + 1 < |g.bisection.cuts| <= MAX_CUTS && NeverUnreachable(v.h)
    requires b.segment.start == CutOffset(g.bisection.segment, |g.bisection.cuts| - 1, i)
    requires b.segment.End() == CutOffset(g.bisection.segment, |g.bisection.cuts| - 1, i + 1)
    requires b.segment.length > 1 && |b.cuts| == BisectionDegree(b.segment.length, SEGMENT_TARGET) + 1
    requires b.cuts[0] == g.bisection.cuts[i] == CutHash(v.h, start) && start.totalGasConsumed < b.segment.End()
    requires b.cuts[|b.cuts| - 1] != g.bisection.cuts[i + 1]
    ensures var c := BisectExecution(ProofOf(v.h, g.bisection, i, b.segment), start.totalGasConsumed,
                                     RestHash(v.h, start), b.cuts);
      Accept(v, SEGMENT_TARGET, g, c) == Some(Game(BisectionRoot(v.h, b), Other(g.turn), b))
  {
    PieceCanBeProven(v.h, g.bisection, i);
    assert Bisection(b.segment, b.cuts) == b;
  }

  lemma OpponentReturns(h: Hasher)
    requires CollisionFree(h)
    ensures var v, own, b := BlockedView(h), FirstDissection(h), ReturningBisection(h);
      Step(v, ChallengerTurn, Game(BisectionRoot(h, own), AsserterTurn, own), Game(BisectionRoot(h, b), ChallengerTurn, b))
  {
    var v, own, b := BlockedView(h), FirstDissection(h), ReturningBisection(h);
    FirstPieceOfThree(h);
    AnyMiddleIsAccepted(v, Game(BisectionRoot(h, own), AsserterTurn, own), 0, b, v.machine.init);
  }

  /** A whole challenge that halts on a validator who is right: its dissection, and the returning bisection in reply. */
  lemma ReturningRun(h: Hasher) returns (gs: seq<Game>)
    requires CollisionFree(h)
    ensures var v := BlockedView(h);
      && v.Valid() && RightSide(v, ChallengerTurn, v.machine.init, FALSE_CLAIM)
      && IsRun(v, ChallengerTurn, v.machine.init, FALSE_CLAIM, gs) && |gs| == 3
      && gs[2].bisection == ReturningBisection(h) && gs[2].turn == ChallengerTurn
      && !CanGoOn(v, ChallengerTurn, gs[2])
  {
    var v, own, b := BlockedView(h), FirstDissection(h), ReturningBisection(h);
    ClaimIsFalse(h);
    ValidatorDissects(h);
    OpponentReturns(h);
    ReturningCutsStall(h);
    gs := [InitialGame(h, v.machine.init, FALSE_CLAIM), Game(BisectionRoot(h, own), AsserterTurn, own),
           Game(BisectionRoot(h, b), ChallengerTurn, b)];
    assert !CanGoOn(v, ChallengerTurn, gs[2]);
  }

  // ----- HandleConflict -----

  lemma ChosenMoveIsWellFormed(v: View, b: Bisection)
    requires v.Valid() && |b.cuts| > 1 && ChosenMove(v, b).Ok?
    ensures WellFormedMove(ChosenMove(v, b).value)
  {
  }

  /** What a validator does when it looks at its challenge. */
  datatype Response = Nothing | CallTimeout | Play(call: Call)

  /** The call of the chosen move, which is never sent when the start state does not match. */
  function ChosenCall(v: View, b: Bisection): Result<Response, ChallengeError>
    requires v.Valid() && |b.cuts| > 1
  {
    match ChosenMove(v, b)
    case Err(e) => Err(e)
    case Ok(m) =>
      ChosenMoveIsWellFormed(v, b);
      match CallOf(v.h, m)
      case None => Err(StartStateMismatch)
      case Some(c) => Ok(Play(c))
  }

  /** Logged bisections have at least one piece: the contract accepts no others. */
  predicate Whole(log: seq<Event>) {
    forall e :: e in log ==> |e.bisection.cuts| > 1
  }

  lemma {:induction false} FoundIsWhole(log: seq<Event>, challengeState: Hash)
    requires Whole(log)
    ensures Whole(MatchingLogs(log, challengeState))
  {
    if log != [] {
      FoundIsWhole(log[..|log| - 1], challengeState);
    }
  }

  function ChosenResponse(v: View, before: ExecutionState, after: ExecutionState, log: seq<Event>, challengeState: Hash)
    : Result<Response, ChallengeError>
    requires v.Valid() && Whole(log)
  {
    FoundIsWhole(log, challengeState);
    match LookupBisection(log, challengeState)
    case Err(e) => Err(e)
    case Ok(None) => ChosenCall(v, InitialBisection(v.h, before, after))
    case Ok(Some(b)) => ChosenCall(v, b)
  }

  /** HandleConflict: what it reads of the contract and of the log, and what it does. */
  method HandleConflict(v: View, before: ExecutionState, after: ExecutionState, me: Turn, isTimedOut: bool,
                        responder: Turn, challengeState: Hash, log: seq<Event>)
    returns (r: Result<Response, ChallengeError>)
    requires v.Valid() && Whole(log)
    ensures isTimedOut ==> r == Ok(CallTimeout)
    ensures !isTimedOut && (responder != me || challengeState == ZERO_HASH) ==> r == Ok(Nothing)
    ensures !isTimedOut && responder == me && challengeState != ZERO_HASH ==>
      r == ChosenResponse(v, before, after, log, challengeState)
  {
    if isTimedOut {
      return Ok(CallTimeout);
    }
    if responder != me {
      return Ok(Nothing);
    }
    if challengeState == ZERO_HASH {
      return Ok(Nothing);
    }
    FoundIsWhole(log, challengeState);
    var prevBisection := LookupBisection(log, challengeState);
    if prevBisection.Err? {
      return Err(prevBisection.error);
    }
    var b := if prevBisection.value == None then InitialBisection(v.h, before, after) else prevBisection.value.value;
    var move := HandleChallenge(v, b);
    if move.Err? {
      return Err(move.error);
    }
    ChosenMoveIsWellFormed(v, b);
    var call := Execute(v.h, move.value);
    r := if call.Some? then Ok(Play(call.value)) else Err(StartStateMismatch);
  }

  lemma {:induction false} RunLogIsWhole(v: View, me: Turn, before: ExecutionState, after: ExecutionState,
                                         gs: seq<Game>, n: nat)
    requires v.Valid() && CollisionFree(v.h) && before.totalGasConsumed <= after.totalGasConsumed
    requires IsRun(v, me, before, after, gs) && n <= |gs|
    ensures Whole(Log(gs[..n]))
  {
    if n > 1 {
      assert gs[..n][..n - 1] == gs[..n - 1];
      RunLogIsWhole(v, me, before, after, gs, n - 1);
      PotentialRunsDown(v, me, before, after, gs, n - 1);
    }
  }

  lemma CallIsAccepted(v: View, me: Turn, g: Game)
    requires v.Valid() && CollisionFree(v.h) && Invariant(v, me, g) && g.turn == me
    ensures var r := ChosenCall(v, g.bisection);
      && (r.Ok? <==> g.bisection.cuts[DisputedIndex(v, g.bisection) - 1] != ZERO_HASH)
      && (r.Ok? ==> r.value.Play? && Accept(v, SEGMENT_TARGET, g, r.value.call).Some?)
  {
    MoveExistsIff(v, g.bisection);
    if g.bisection.cuts[DisputedIndex(v, g.bisection) - 1] != ZERO_HASH {
      ValidatorMoves(v, me, g);
    }
  }

  /**
   HandleConflict in every run, whenever it is the validator's turn: from the log of the run it finds the bisection, and
   it has a call, which the contract accepts, exactly when the cut before the disputed one is a real one.
   */
  lemma {:induction false} ConflictIsHandled(v: View, me: Turn, before: ExecutionState, after: ExecutionState, gs: seq<Game>, last: Game)
    requires v.Valid() && CollisionFree(v.h) && RightSide(v, me, before, after)
    requires IsRun(v, me, before, after, gs) && last == gs[|gs| - 1] && last.turn == me
    ensures Invariant(v, me, last) && Whole(Log(gs))
    ensures var r := ChosenResponse(v, before, after, Log(gs), last.challengeState);
      && (r.Ok? <==> last.bisection.cuts[DisputedIndex(v, last.bisection) - 1] != ZERO_HASH)
      && (r.Ok? ==> r.value.Play? && Accept(v, SEGMENT_TARGET, last, r.value.call).Some?)
  {
    EveryRunKeepsInvariant(v, me, before, after, gs, |gs| - 1);
    RunLogIsWhole(v, me, before, after, gs, |gs|);
    assert gs[..|gs|] == gs;
    LookupFindsBisection(v, me, before, after, gs, last);
    CallIsAccepted(v, me, last);
  }
}
