/**
 The challenge contract (packages/arb-bridge-eth/contracts/challenge/Challenge.sol) as a transition function,
 and the node code that turns a chosen move into a call of it (packages/arb-node-core/ethbridge/challenge.go).
 A revert is None. Deadlines are not modelled, and the one step proof executors are taken to run the machine's
 step.
 */
module ChallengeContract {
  import opened Hashing
  import opened Merkle
  import opened Execution
  import opened Bisections
  import opened Challenger

  datatype Turn = AsserterTurn | ChallengerTurn

  function Other(t: Turn): Turn {
    if t == AsserterTurn then ChallengerTurn else AsserterTurn
  }

  /** The contract's state, and the bisection LookupBisection finds for it in the event log. */
  datatype Game = Game(challengeState: Hash, turn: Turn, bisection: Bisection)

  /** A proof that one piece belongs to the bisection the contract stores the root of. */
  datatype PieceProof = PieceProof(nodes: seq<Hash>, route: nat, segment: Segment, oldEnd: Hash)

  datatype Call =
    | BisectExecution(piece: PieceProof, gasUsedBefore: int, assertionRest: Hash, chainHashes: seq<Hash>)
    | ProveContinuedExecution(piece: PieceProof, gasUsedBefore: int, assertionRest: Hash)
    | OneStepProveExecution(piece: PieceProof, messagesRead: int, sendAcc: Hash, logAcc: Hash, gasUsedBefore: int,
                            sendCount: int, logCount: int, machineHash: Hash)

  // ----- The contract's hashes -----

  function AssertionRestHash(h: Hasher, totalMessagesRead: int, machineState: Hash, sendAcc: Hash, sendCount: int,
                             logAcc: Hash, logCount: int): Hash
  {
    h.rest(totalMessagesRead, machineState, sendAcc, sendCount, logAcc, logCount)
  }

  function AssertionHash(h: Hasher, avmGasUsed: int, restHash: Hash): Hash {
    h.assertion(avmGasUsed, restHash)
  }

  /** RollupLib.executionStateChallengeHash. */
  function ExecutionStateChallengeHash(h: Hasher, s: ExecutionState): Hash {
    AssertionHash(h, s.totalGasConsumed,
      AssertionRestHash(h, s.totalMessagesRead, s.machineHash, s.sendAcc, s.totalSendCount, s.logAcc, s.totalLogCount))
  }

  /** RollupLib.executionHash. */
  function ExecutionHash(h: Hasher, before: ExecutionState, after: ExecutionState): Hash {
    h.chunk(before.totalGasConsumed, after.totalGasConsumed - before.totalGasConsumed,
            ExecutionStateChallengeHash(h, before), ExecutionStateChallengeHash(h, after))
  }

  /** oneStepProofExecutionBefore, the machine's hash coming from the proof. */
  function ExecutionBefore(h: Hasher, c: Call): Hash
    requires c.OneStepProveExecution?
  {
    AssertionHash(h, c.gasUsedBefore,
      AssertionRestHash(h, c.messagesRead, c.machineHash, c.sendAcc, c.sendCount, c.logAcc, c.logCount))
  }

  /** The state the proof opens. */
  function ProvenState(c: Call): ExecutionState
    requires c.OneStepProveExecution?
  {
    ExecutionState(machineHash := c.machineHash, totalMessagesRead := c.messagesRead, totalGasConsumed := c.gasUsedBefore,
                   sendAcc := c.sendAcc, totalSendCount := c.sendCount, logAcc := c.logAcc, totalLogCount := c.logCount)
  }

  /** oneStepProofExecutionAfter: the counts of sends and logs are told by their accumulators. */
  function ExecutionAfter(h: Hasher, c: Call, after: ExecutionState): Hash
    requires c.OneStepProveExecution?
  {
    var gasUsed := after.totalGasConsumed - c.gasUsedBefore;
    var newSendCount := c.sendCount + if c.sendAcc == after.sendAcc then 0 else 1;
    var newLogCount := c.logCount + if c.logAcc == after.logAcc then 0 else 1;
    AssertionHash(h, c.gasUsedBefore + gasUsed,
      AssertionRestHash(h, after.totalMessagesRead, after.machineHash, after.sendAcc, newSendCount, after.logAcc, newLogCount))
  }

  /** The contract hashes states as the node does, those it only infers included. */
  lemma HashesAgree(h: Hasher, m: Machine, s: ExecutionState, c: Call)
    ensures ExecutionStateChallengeHash(h, s) == CutHash(h, s)
    ensures c.OneStepProveExecution? ==> ExecutionBefore(h, c) == CutHash(h, ProvenState(c))
    ensures c.OneStepProveExecution? && CountsFollow(m) && m.step(ProvenState(c)).Some? ==>
      ExecutionAfter(h, c, m.step(ProvenState(c)).value) == CutHash(h, m.step(ProvenState(c)).value)
  {
  }

  // ----- The contract -----

  /** Assertion.InitialExecutionBisection. */
  function InitialBisection(h: Hasher, before: ExecutionState, after: ExecutionState): Bisection {
    Bisection(Segment(before.totalGasConsumed, after.totalGasConsumed - before.totalGasConsumed),
              [CutHash(h, before), CutHash(h, after)])
  }

  /** The state initializeChallenge starts from: the challenger moves first. */
  function InitialGame(h: Hasher, before: ExecutionState, after: ExecutionState): Game {
    Game(ExecutionHash(h, before, after), ChallengerTurn, InitialBisection(h, before, after))
  }

  function BisectionRoot(h: Hasher, b: Bisection): Hash
    requires |b.cuts| > 1
  {
    Root(h.pair, Chunks(h, b))
  }

  function BisectionDegree(chainLength: int, targetDegree: int): int {
    if chainLength < targetDegree then chainLength else targetDegree
  }

  /** verifySegmentProof on the chunk that starts with `startHash`. */
  predicate PieceIsProven(h: Hasher, challengeState: Hash, p: PieceProof, startHash: Hash) {
    && |p.nodes| <= 256
    && challengeState == Fold(h.pair, p.nodes, p.route,
                              h.chunk(p.segment.start, p.segment.length, startHash, p.oldEnd))
  }

  predicate BisectionAllowed(h: Hasher, challengeState: Hash, c: Call, degree: int)
    requires c.BisectExecution?
  {
    var hashes := c.chainHashes;
    && |hashes| > 0
    && (hashes[|hashes| - 1] != ZERO_HASH ==> c.piece.segment.length > 1)
    && |hashes| == BisectionDegree(c.piece.segment.length, degree) + 1
    && hashes[|hashes| - 1] != c.piece.oldEnd
    && hashes[0] == AssertionHash(h, c.gasUsedBefore, c.assertionRest)
    && hashes[0] != ZERO_HASH
    && c.gasUsedBefore < c.piece.segment.End()
    && PieceIsProven(h, challengeState, c.piece, hashes[0])
  }

  predicate ContinuationAllowed(h: Hasher, challengeState: Hash, c: Call)
    requires c.ProveContinuedExecution?
  {
    var beforeChainHash := AssertionHash(h, c.gasUsedBefore, c.assertionRest);
    && PieceIsProven(h, challengeState, c.piece, beforeChainHash)
    && c.gasUsedBefore >= c.piece.segment.End()
    && beforeChainHash != c.piece.oldEnd
  }

  predicate OneStepAllowed(h: Hasher, challengeState: Hash, c: Call, m: Machine, maxMessageCount: int)
    requires c.OneStepProveExecution?
  {
    match m.step(ProvenState(c))
    case None => false
    case Some(after) =>
      && after.totalMessagesRead <= maxMessageCount
      && c.gasUsedBefore < c.piece.segment.End()
      && after.totalGasConsumed >= c.piece.segment.End()
      && c.piece.oldEnd != ExecutionAfter(h, c, after)
      && PieceIsProven(h, challengeState, c.piece, ExecutionBefore(h, c))
  }

  /** One call by the player whose turn it is. A successful proof leaves the opponent a state nobody can move in. */
  function Accept(v: View, degree: int, g: Game, c: Call): (r: Option<Game>)
    requires degree > 0
  {
    match c
    case BisectExecution(p, _, _, chainHashes) =>
      if BisectionAllowed(v.h, g.challengeState, c, degree) then
        var b := Bisection(p.segment, chainHashes);
        Some(Game(BisectionRoot(v.h, b), Other(g.turn), b))
      else None
    case ProveContinuedExecution(_, _, _) =>
      if ContinuationAllowed(v.h, g.challengeState, c) then
        Some(g.(challengeState := ZERO_HASH, turn := Other(g.turn)))
      else None
    case OneStepProveExecution(_, _, _, _, _, _, _, _) =>
      if OneStepAllowed(v.h, g.challengeState, c, v.machine, v.maxMessages) then
        Some(g.(challengeState := ZERO_HASH, turn := Other(g.turn)))
      else None
  }

  /** calculateRoot reverts on a proof of more than 256 nodes, whatever it would fold to. */
  lemma LongProofsAreRefused(v: View, degree: int, g: Game, c: Call)
    requires degree > 0 && |c.piece.nodes| > 256
    ensures Accept(v, degree, g, c) == None
  {
  }

  // ----- The event log -----

  /** A Bisected event: the new state and the bisection it is the root of. */
  datatype Event = Bisected(challengeState: Hash, bisection: Bisection)

  /** The events filtered by a state. */
  function MatchingLogs(log: seq<Event>, challengeState: Hash): seq<Event> {
    if log == [] then []
    else
      var last := log[|log| - 1];
      MatchingLogs(log[..|log| - 1], challengeState) + if last.challengeState == challengeState then [last] else []
  }

  /** LookupBisection: none for the state the challenge started from, an error when a state was logged twice. */
  function LookupBisection(log: seq<Event>, challengeState: Hash): Result<Option<Bisection>, ChallengeError> {
    var logs := MatchingLogs(log, challengeState);
    if |logs| == 0 then Ok(None)
    else if |logs| > 1 then Err(TooManyBisections)
    else Ok(Some(logs[0].bisection))
  }

  lemma {:induction false} MatchingAre(log: seq<Event>, challengeState: Hash)
    ensures forall e :: e in MatchingLogs(log, challengeState) <==> e in log && e.challengeState == challengeState
    ensures multiset(MatchingLogs(log, challengeState)) <= multiset(log)
  {
    if log != [] {
      MatchingAre(log[..|log| - 1], challengeState);
      assert log == log[..|log| - 1] + [log[|log| - 1]];
    }
  }

  /** Two events with the state are two matching logs. */
  lemma {:induction false} TwoAreFound(log: seq<Event>, i: nat, j: nat, challengeState: Hash)
    requires i < j < |log| && log[i].challengeState == log[j].challengeState == challengeState
    ensures |MatchingLogs(log, challengeState)| > 1
  {
    if j < |log| - 1 {
      TwoAreFound(log[..|log| - 1], i, j, challengeState);
    } else {
      MatchingAre(log[..j], challengeState);
      assert log[i] in log[..j];
    }
  }

  /** One event with the state is one matching log. */
  lemma {:induction false} OneIsFound(log: seq<Event>, challengeState: Hash)
    requires |MatchingLogs(log, challengeState)| > 1
    ensures exists i, j :: 0 <= i < j < |log| && log[i].challengeState == log[j].challengeState == challengeState
  {
    var last := |log| - 1;
    if log[last].challengeState == challengeState {
      var others := MatchingLogs(log[..last], challengeState);
      MatchingAre(log[..last], challengeState);
      assert others[0] in log[..last];
    } else {
      OneIsFound(log[..last], challengeState);
      var i, j :| 0 <= i < j < |log[..last]|
        && log[..last][i].challengeState == log[..last][j].challengeState == challengeState;
      assert log[i] == log[..last][i] && log[j] == log[..last][j];
    }
  }

  /** The lookup finds nothing, one event's bisection, or an error, as no, one or more events have the state. */
  lemma LookupIsUnique(log: seq<Event>, challengeState: Hash)
    ensures LookupBisection(log, challengeState) == Ok(None) <==>
      forall i :: 0 <= i < |log| ==> log[i].challengeState != challengeState
    ensures LookupBisection(log, challengeState).Err? <==>
      exists i, j :: 0 <= i < j < |log| && log[i].challengeState == log[j].challengeState == challengeState
    ensures forall b :: LookupBisection(log, challengeState) == Ok(Some(b)) ==> Bisected(challengeState, b) in log
  {
    var logs := MatchingLogs(log, challengeState);
    MatchingAre(log, challengeState);
    forall i | 0 <= i < |log| && log[i].challengeState == challengeState ensures logs != [] {
      assert log[i] in log;
    }
    if logs != [] {
      assert logs[0] in logs && logs[0] in log;
    }
    if |logs| > 1 {
      OneIsFound(log, challengeState);
    }
    forall i, j | 0 <= i < j < |log| && log[i].challengeState == log[j].challengeState == challengeState
      ensures |logs| > 1
    {
      TwoAreFound(log, i, j, challengeState);
    }
  }

  // ----- The node's calls -----

  function ProofOf(h: Hasher, b: Bisection, i: nat, s: Segment): PieceProof
    requires i + 1 < |b.cuts|
  {
    var chunks := Chunks(h, b);
    PieceProof(Siblings(h.pair, chunks, i), PathToInt(Reverse(Turns(h.pair, chunks, i))), s, b.cuts[i + 1])
  }

  predicate WellFormedMove(m: Move) {
    m.segmentToChallenge + 1 < |m.prevBisection.cuts| && (m.BisectMove? ==> |m.subCuts| > 0)
  }

  /** The arguments of oneStepProveExecution, taken from the state before. */
  function OneStepCall(p: PieceProof, before: ExecutionState): Call {
    OneStepProveExecution(p, before.totalMessagesRead, before.sendAcc, before.logAcc, before.totalGasConsumed,
                          before.totalSendCount, before.totalLogCount, before.machineHash)
  }

  /** The call a move makes; None when the start state of a bisection does not hash to its first cut. */
  function CallOf(h: Hasher, m: Move): Option<Call>
    requires WellFormedMove(m)
  {
    match m
    case BisectMove(b, startState, i, s, subCuts) =>
      if CutHash(h, startState) != subCuts[0] then None
      else Some(BisectExecution(ProofOf(h, b, i, s), startState.totalGasConsumed, RestHash(h, startState), subCuts))
    case ProveContinuedMove(b, i, s, previousCut) =>
      Some(ProveContinuedExecution(ProofOf(h, b, i, s), previousCut.totalGasConsumed, RestHash(h, previousCut)))
    case OneStepProofMove(b, i, s, previousCut) =>
      Some(OneStepCall(ProofOf(h, b, i, s), previousCut))
  }

  method ProvePiece(h: Hasher, b: Bisection, i: nat, s: Segment) returns (p: PieceProof)
    requires i + 1 < |b.cuts|
    ensures p == ProofOf(h, b, i, s)
  {
    var layers := CalculateBisectionTree(h, b);
    var nodes, route := GetProof(h.pair, layers, Chunks(h, b), i);
    p := PieceProof(nodes, route, s, b.cuts[i + 1]);
  }

  /** Move.execute up to the transaction. */
  method Execute(h: Hasher, m: Move) returns (c: Option<Call>)
    requires WellFormedMove(m)
    ensures c == CallOf(h, m)
    ensures c == None <==> m.BisectMove? && CutHash(h, m.startState) != m.subCuts[0]
  {
    match m
    case BisectMove(b, startState, i, s, subCuts) =>
      if CutHash(h, startState) != subCuts[0] {
        return None;
      }
      var p := ProvePiece(h, b, i, s);
      c := Some(BisectExecution(p, startState.totalGasConsumed, RestHash(h, startState), subCuts));
    case ProveContinuedMove(b, i, s, previousCut) =>
      var p := ProvePiece(h, b, i, s);
      c := Some(ProveContinuedExecution(p, previousCut.totalGasConsumed, RestHash(h, previousCut)));
    case OneStepProofMove(b, i, s, previousCut) =>
      var p := ProvePiece(h, b, i, s);
      c := Some(OneStepProveExecution(p, previousCut.totalMessagesRead, previousCut.sendAcc, previousCut.logAcc,
        previousCut.totalGasConsumed, previousCut.totalSendCount, previousCut.totalLogCount, previousCut.machineHash));
  }

  // ----- Pieces and their proofs -----

  lemma LeafCanBeProven(h: Hasher, chunks: seq<Hash>, i: nat)
    requires i < |chunks| <= 512
    ensures |Siblings(h.pair, chunks, i)| <= 256
    ensures Root(h.pair, chunks)
         == Fold(h.pair, Siblings(h.pair, chunks, i), PathToInt(Reverse(Turns(h.pair, chunks, i))), chunks[i])
  {
    ProofRebuildsRoot(h.pair, chunks, i);
    assert Pow2(9) == 512;
    ProofIsShort(h.pair, chunks, i, 9);
  }

  lemma PieceFolds(h: Hasher, chunks: seq<Hash>, i: nat, start: int, length: int, startCut: Hash, endCut: Hash)
    requires i < |chunks| <= 512 && chunks[i] == h.chunk(start, length, startCut, endCut)
    ensures PieceIsProven(h, Root(h.pair, chunks),
      PieceProof(Siblings(h.pair, chunks, i), PathToInt(Reverse(Turns(h.pair, chunks, i))), Segment(start, length), endCut),
      startCut)
  {
    LeafCanBeProven(h, chunks, i);
  }

  /** Every piece of a stored bisection can be proved by the node's proof. */
  lemma PieceCanBeProven(h: Hasher, b: Bisection, i: nat)
    requires i + 1 < |b.cuts| <= 513
    ensures var n := |b.cuts| - 1;
      var from, to := CutOffset(b.segment, n, i), CutOffset(b.segment, n, i + 1);
      PieceIsProven(h, BisectionRoot(h, b), ProofOf(h, b, i, Segment(from, to - from)), b.cuts[i])
  {
    var n := |b.cuts| - 1;
    var from, to := CutOffset(b.segment, n, i), CutOffset(b.segment, n, i + 1);
    PieceFolds(h, Chunks(h, b), i, from, to - from, b.cuts[i], b.cuts[i + 1]);
  }

  lemma ChunksAreNoPairs(h: Hasher, b: Bisection, a: Hash, c: Hash)
    requires ChunksAreNotPairs(h) && |b.cuts| > 1
    ensures h.pair(a, c) !in Chunks(h, b)
  {
    var chunks, n := Chunks(h, b), |b.cuts| - 1;
    forall k | 0 <= k < n ensures chunks[k] != h.pair(a, c) {
      var from, to := CutOffset(b.segment, n, k), CutOffset(b.segment, n, k + 1);
      ChunkIsNotPair(h, from, to - from, b.cuts[k], b.cuts[k + 1], a, c);
    }
  }

  lemma ProvenChunkIsLeaf(h: Hasher, b: Bisection, nodes: seq<Hash>, route: nat, s: int, l: int, start: Hash, end: Hash)
    returns (i: nat)
    requires CollisionFree(h) && |b.cuts| > 1
    requires Fold(h.pair, nodes, route, h.chunk(s, l, start, end)) == BisectionRoot(h, b)
    ensures i + 1 < |b.cuts| && Chunk(h, b, i) == h.chunk(s, l, start, end)
  {
    var chunks, item := Chunks(h, b), h.chunk(s, l, start, end);
    forall a, c ensures h.pair(a, c) !in chunks && h.pair(a, c) != item {
      ChunkIsNotPair(h, s, l, start, end, a, c);
      ChunksAreNoPairs(h, b, a, c);
    }
    ProvenItemIsLeaf(h.pair, chunks, nodes, route, item);
    i :| 0 <= i < |chunks| && chunks[i] == item;
  }

  /** And nothing else can: a proven piece is one of the stored ones, with its own start cut and end cut. */
  lemma ProvenPieceIsReal(h: Hasher, b: Bisection, p: PieceProof, startHash: Hash) returns (i: nat)
    requires CollisionFree(h) && |b.cuts| > 1
    requires PieceIsProven(h, BisectionRoot(h, b), p, startHash)
    ensures i + 1 < |b.cuts|
    ensures p.segment.start == CutOffset(b.segment, |b.cuts| - 1, i)
    ensures p.segment.End() == CutOffset(b.segment, |b.cuts| - 1, i + 1)
    ensures startHash == b.cuts[i] && p.oldEnd == b.cuts[i + 1]
  {
    var n := |b.cuts| - 1;
    i := ProvenChunkIsLeaf(h, b, p.nodes, p.route, p.segment.start, p.segment.length, startHash, p.oldEnd);
    var from, to := CutOffset(b.segment, n, i), CutOffset(b.segment, n, i + 1);
    ChunkParts(h, from, to - from, b.cuts[i], b.cuts[i + 1], p.segment.start, p.segment.length, startHash, p.oldEnd);
  }

  /** No proof can be checked against the zero state a won challenge is left in. */
  lemma {:induction false} FoldIsNotZero(h: Hasher, nodes: seq<Hash>, route: nat, item: Hash)
    requires ChunksAreNotPairs(h) && item != ZERO_HASH
    ensures Fold(h.pair, nodes, route, item) != ZERO_HASH
  {
    if nodes != [] {
      var up := if route % 2 == 0 then h.pair(nodes[0], item) else h.pair(item, nodes[0]);
      ChunkIsNotPair(h, 0, 0, 0, 0, nodes[0], item);
      ChunkIsNotPair(h, 0, 0, 0, 0, item, nodes[0]);
      FoldIsNotZero(h, nodes[1..], route / 2, up);
    }
  }

  lemma NobodyMovesAfterWin(v: View, degree: int, g: Game, c: Call)
    requires CollisionFree(v.h) && degree > 0 && g.challengeState == ZERO_HASH
    ensures Accept(v, degree, g, c) == None
  {
    forall start | PieceIsProven(v.h, ZERO_HASH, c.piece, start) ensures false {
      var p := c.piece;
      FoldIsNotZero(v.h, p.nodes, p.route, v.h.chunk(p.segment.start, p.segment.length, start, p.oldEnd));
    }
  }
}
