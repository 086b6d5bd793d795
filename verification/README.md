# Verified model of the rollup's disputes, inbox, traces, sends and codecs

This project models five parts of the Arbitrum repository in which a small mistake would be expensive, and proves that
they do what the rest of the system relies on. `dafny verify dfyconfig.toml` checks everything.

**The fraud-proof challenge** (`Hashing`, `Merkle`, `Execution`, `Bisections`, `Challenger`, `ChallengeContract`,
`Game`). Two stakers disagree about the result of an execution. They take turns cutting a gas interval into pieces and
committing to the machine state at every cut; whoever moves picks a piece that starts right and ends wrong. The model
has the validator's code (cut offsets, execution tracker, first divergence, choice of move, Merkle proofs of pieces),
the Solidity contract as a transition function, and the game between the validator and an opponent who may send the
contract any call whatever. Proved: the opponent can prove nothing against honest cuts; whenever the validator is to
move it finds a dispute, picks the right kind of move, and the contract accepts its call; the game over at most 2^k
units of gas is over after at most k + 2 calls; no state comes back, so the event log always shows the bisection to
answer; and the game halts on the opponent. One condition is needed and exact: the opponent's cut before the disputed
one must not be the "unreachable" word. `Game.ReturningRun` is a whole challenge in which the contract accepts a
bisection that returns from "unreachable" to real cuts, and in which a validator who is right has no move left.

**The sequencer inbox** (`SequencerBatch`, `SequencerBatchLaws`, `SequencerInbox`, `SequencerInboxLaws`). The log of a
batch does not say how many delayed messages preceded it. `GetItems` infers it backwards and then emits the items
forwards. Proved: the inference is exact, the items tile the batch's sequence numbers and chain its accumulator, and a
batch can be cut after any section. The contract adds up its counts of items modulo 2^256 without a check. A batch it
accepts is rebuilt from its event if and only if no announced count exceeds the number of messages in the call; a
count that wraps around is accepted (`SequencerInbox.WrappingBatch`), and `GetItems` then fails. Otherwise the
contract accepts exactly the batches that `GetItems` rebuilds from sections that pass its checks, and the delayed info
the node derives is the delayed inbox's own count and accumulator. Forced inclusions are always rebuilt.

**The call tree of a trace** (`FrameTree`, `FrameTreeLaws`). A stack machine over a flat trace, which also rewrites
the senders of delegate calls in place. Proved: it accepts exactly the flattenings of complete call trees whose
delegate calls have a caller to run for, it is the inverse of flattening up to those senders, every such sender comes
out as the receiver of the nearest call above that is neither a delegate call nor a call code, and every error says
what is wrong.

**Sends to the outer chain** (`SendTree`, `Outbox`). Trees of any shape built from a tuple value, proofs extracted
from them, and the outbox contract that executes sends against proofs. Proved: the leaves of the tree are the sends of
the value in their order, padded to their sizes, numbered without gaps; a proof for exactly the indices of the tree,
acceptance of every generated proof, rejection of every other one, and over any history of calls that no send is
executed more often than it was sent while every send not yet executed, also one of several with the same contents,
still can be.

**Self-delimiting codecs** (`Rlp`, `TransactionBatch`, `CompressedTx`, `CompressedTxLaws`, `CompressedTxFormat`). RLP
strings and integers (Appendix B of the Ethereum Yellow Paper, decoded canonically), transaction batches, and
compressed transactions. Proved: round trips in both directions for batches, and for compressed transactions exactly
which bytes decode and to what, which transactions survive encoding and decoding, and what comes back in every other
case.

Hash functions are parameters. Most results hold for every hash function. What an adversary cannot do is proved under
an idealised collision resistance (`Hashing.CollisionFree`, `Outbox.NoSendsCollide`): the functions are injective,
their ranges are disjoint where the layouts differ in length, and zero is not a hash. The machine is any step function
that uses gas at every step and never unreads a message (`Execution.Progresses`), and whose counts of sends and logs
grow by one just when their accumulators change (`Execution.CountsFollow`), which is what lets the contract infer
them.

Each method follows the code it models and is proved to compute a function of its inputs; the laws are lemmas about
those functions.

## Model

| member | source | states |
|---|---|---|
| Merkle.NewMerkleTree | packages/arb-util/protocol/merkleTree.go:29-52 | the layers it builds pair up neighbours and move an unpaired last node up unchanged, until one is left |
| Merkle.GetProof | packages/arb-util/protocol/merkleTree.go:62-88 | the nodes are the siblings on the way from the leaf to the root, and the route is the number spelled by the turns, the one nearest the root first |
| Merkle.PathSliceToInt | packages/arb-util/protocol/merkleTree.go:90-99 | the number whose binary digits the path is |
| Merkle.LayersTellPath | packages/arb-util/protocol/merkleTree.go:66-80 | over the layers of a tree the loop collects the siblings and turns on the way from a leaf to the root |
| Merkle.GenerateRoot | packages/arb-bridge-eth/contracts/libraries/MerkleLib.sol:22-38 | the contract's root of a list of hashes is the root of the same tree |
| Merkle.CalculateRoot | packages/arb-bridge-eth/contracts/libraries/MerkleLib.sol:40-57 | folds a leaf with its proof, lowest bit of the route first, and reverts on more than 256 nodes |
| Merkle.TreeEndsAtRoot | packages/arb-util/protocol/merkleTree.go:54-56 | the last layer of the node's tree is the contract's root alone |
| Merkle.SmallTrees | packages/arb-bridge-eth/contracts/libraries/MerkleLib.sol:22-57 | which side is hashed first, what becomes of an odd node, and which bit of the route is which turn, on trees of up to four leaves |
| Merkle.ProofRebuildsRoot | packages/arb-util/protocol/merkleTree.go:62-88 | completeness: for every leaf of every nonempty tree the extracted proof folds back to the root |
| Merkle.ProofIsShort | packages/arb-bridge-eth/contracts/libraries/MerkleLib.sol:45-46 | a tree of at most 2^k leaves has proofs of at most k nodes |
| Merkle.ProvenItemIsLeaf | packages/arb-bridge-eth/contracts/libraries/MerkleLib.sol:40-57 | soundness: with injective hashing, whatever folds to the root and is not a pair hash is a leaf |
| Merkle.RootIsBinding | packages/arb-bridge-eth/contracts/libraries/MerkleLib.sol:22-38 | with injective hashing, lists without pair hashes that have the same root are the same, whatever their lengths |
| Execution.Deduplicate | packages/arb-util/core/execution.go:40-49 | the stop points strictly increasing, and the same set |
| Execution.IndexStopPoints | packages/arb-util/core/execution.go:52-55 | every stop point maps to its place, and nothing else is mapped |
| Execution.ExecutionTracker.constructor | packages/arb-util/core/execution.go:38-64 | a tracker over just the given stop points, with no cursor yet |
| Execution.ExecutionTracker.FillInCursors | packages/arb-util/core/execution.go:72-108 | fills in cursors up to an index, leaves earlier ones alone, and each is the state its own target names |
| Execution.ExecutionTracker.GetExecutionState | packages/arb-util/core/execution.go:113-135 | the answer is the first state at or past the gas target, or where the machine blocks, whatever was asked before; other targets are errors |
| Execution.CloneReachesStopPoint | packages/arb-util/core/execution.go:74-101 | running on from a clone stopped at an earlier target, or under this one, ends where running from the start ends |
| Execution.AtRunsOn | packages/arb-util/core/execution.go:97-101 | a later target is met by running on from an earlier one |
| Execution.AtIsFirst | packages/arb-util/core/execution.go:97-101 | the state a target names is a state of the run, no earlier one reaches the target, and it reaches it or is the last |
| Execution.SortedKeepsOrder | packages/arb-util/core/execution.go:39 | sorting the caller's offsets in place leaves ordered offsets alone |
| Execution.SortedIsPermutation | packages/arb-util/core/execution.go:39 | sorting only moves the offsets |
| Bisections.GenerateBisectionCutOffsets | packages/arb-node-core/challenge/challenger.go:155-168 | the validator's offsets are those of the partition |
| Bisections.CalculateBisectionTree | packages/arb-node-core/ethbridge/challenge.go:43-55 | the node's leaves are the hashes of the pieces of the same partition |
| Bisections.UpdatedBisectionRoot | packages/arb-bridge-eth/contracts/challenge/ChallengeLib.sol:82-109 | the contract's root is that of the same pieces |
| Bisections.ChunkIs | packages/arb-node-core/ethbridge/challenge.go:48-52 | leaf i hashes a piece that starts at the validator's offset i and is as long as the gap to offset i + 1 |
| Bisections.OffsetsPartitionSegment | packages/arb-node-core/challenge/challenger.go:155-168 | the offsets run from the start to the end of the segment in order, and strictly when there are no more pieces than gas |
| Bisections.PieceLength | packages/arb-node-core/challenge/challenger.go:161-164 | no piece is longer than the first, and none is empty when there are no more pieces than gas |
| Bisections.OnlyFirstPieceDiffers | packages/arb-node-core/challenge/challenger.go:161-164 | all pieces but the first have one length, the first is longer by less than their number, and together they make the segment |
| Bisections.PiecesHalve | packages/arb-node-core/challenge/challenger.go:108-113 | a dissected segment of length L of at least 2 has pieces of length l with 2 l at most L + 1 and l less than L |
| Challenger.View.FirstDifference | packages/arb-node-core/challenge/execution.go:85-97 | the least index at which the given cuts differ from the local ones |
| Challenger.GetCutRaw | packages/arb-node-core/challenge/execution.go:23-34 | the state at a target, and unreachable if it read too much or fell short |
| Challenger.GetCut | packages/arb-node-core/challenge/execution.go:36-49 | the local cut at a target, with the steps to it even when it is unreachable |
| Challenger.GetCuts | packages/arb-node-core/challenge/execution.go:51-69 | the start state and the local cut at every offset, or an error exactly when the first is unreachable |
| Challenger.FindFirstDivergence | packages/arb-node-core/challenge/execution.go:77-100 | the first differing index, the steps from the cut before it, and whether it is locally unreachable; an error when nothing differs |
| Challenger.CompareCuts | packages/arb-node-core/challenge/execution.go:85-99 | the same for offsets in order and any tracker that knows them |
| Challenger.GetSegmentStartInfo | packages/arb-node-core/challenge/execution.go:102-118 | the state at the start of a segment, or an error exactly when it is unreachable |
| Challenger.DissectFurther | packages/arb-node-core/challenge/challenger.go:106-124 | the bisection into min(400, length) pieces, an error for length 0 or an unreachable start |
| Challenger.ProvePieceEnd | packages/arb-node-core/challenge/challenger.go:125-152 | continued execution for no step, a one step proof for one |
| Challenger.HandleChallenge | packages/arb-node-core/challenge/challenger.go:83-153 | the move chosen against any bisection, or which error |
| ChallengeContract.ProvePiece | packages/arb-node-core/ethbridge/challenge.go:102-103 | the proof sent for a piece is the one extracted from the tree over the previous bisection |
| ChallengeContract.HashesAgree | packages/arb-bridge-eth/contracts/rollup/RollupLib.sol:120-137 | the contract hashes a state, the state a one step proof opens, and the state after it, whose counts it only infers, as the node does |
| ChallengeContract.Execute | packages/arb-node-core/ethbridge/challenge.go:90-183 | the call each move makes, and none when the start state does not hash to the first cut |
| ChallengeContract.PieceCanBeProven | packages/arb-bridge-eth/contracts/challenge/Challenge.sol:185-199 | every piece of a stored bisection passes the contract's proof check with the node's proof |
| ChallengeContract.ProvenPieceIsReal | packages/arb-bridge-eth/contracts/challenge/Challenge.sol:185-199 | and only they do: a proven piece has the bounds, start cut and end cut of one of the stored pieces |
| ChallengeContract.NobodyMovesAfterWin | packages/arb-bridge-eth/contracts/challenge/Challenge.sol:372-382 | after a successful proof the contract accepts no call at all |
| ChallengeContract.LongProofsAreRefused | packages/arb-bridge-eth/contracts/libraries/MerkleLib.sol:45-46 | no call with a proof of more than 256 nodes is accepted |
| ChallengeContract.LookupIsUnique | packages/arb-node-core/ethbridge/challengeWatcher.go:145-180 | on any log: nothing, a logged bisection, or an error, exactly as no, one or more events have the state |
| Game.UnreachableStays | packages/arb-node-core/challenge/execution.go:28-32 | a target past an unreachable one is unreachable |
| Game.StepsBetween | packages/arb-node-core/challenge/challenger.go:105-125 | the number of steps between two targets tells none, one and more machine steps apart, also against an unreachable end |
| Game.OwnCutsEndUnreachable | packages/arb-node-core/challenge/execution.go:51-69 | local cut lists are real hashes followed only by the unreachable word |
| Game.NoFalseContinuation | packages/arb-bridge-eth/contracts/challenge/Challenge.sol:216-250 | no proof of continued execution is accepted against honest cuts |
| Game.NoFalseStep | packages/arb-bridge-eth/contracts/challenge/Challenge.sol:260-332 | no one step proof is accepted against honest cuts |
| Game.BisectionStartsTrue | packages/arb-bridge-eth/contracts/challenge/Challenge.sol:173-183 | the gas and the rest an accepted bisection of honest cuts names are those of the state its piece starts in, and that gas is short of the end of the piece |
| Game.OpponentOnlyBisects | packages/arb-bridge-eth/contracts/challenge/Challenge.sol:152-332 | all an opponent can do to honest cuts is a bisection with a true first cut, the gas and the rest of the state there, of a piece that this gas does not exhaust, and a false last cut |
| Game.DisputeIsFound | packages/arb-node-core/challenge/challenger.go:91-103 | with an agreed first and a disputed last cut, neither "no divergence" nor "first cut wrong" occurs, and the piece picked starts agreed and ends disputed |
| Game.OwnCutsAreHonest | packages/arb-node-core/ethbridge/challenge.go:98-100 | every cut of the validator's own bisection is the local one, and its start state passes the start-state check |
| Game.OwnBisectionAllowed | packages/arb-bridge-eth/contracts/challenge/Challenge.sol:152-199 | the validator's bisection passes every check of the contract |
| Game.DissectionAccepted | packages/arb-node-core/challenge/challenger.go:106-124 | with more than one step to go, or an unreachable end, the bisection is accepted and leaves honest cuts |
| Game.ContinuationAccepted | packages/arb-node-core/challenge/challenger.go:125-140 | with no step to a reachable end, the proof of continued execution is accepted and ends the game |
| Game.OneStepAccepted | packages/arb-node-core/challenge/challenger.go:141-152 | with one step to a reachable end, the one step proof is accepted and ends the game |
| Game.ValidatorMoves | packages/arb-node-core/challenge/challenger.go:83-153 | the validator's whole turn: a move without error, accepted by the contract, after which the invariant holds |
| Game.MoveExistsIff | packages/arb-node-core/challenge/challenger.go:83-153 | a move is found if and only if the opponent's cut before the first disputed one is not the unreachable word |
| Game.SuffixIsEnough | packages/arb-node-core/challenge/challenger.go:83-153 | that condition holds whenever the opponent's cuts never return from unreachable |
| Game.ReturningCutsStall | packages/arb-node-core/challenge/execution.go:60-63 | a bisection whose cuts do return, on which the validator stops with "first cut is unreachable" |
| Game.AnyMiddleIsAccepted | packages/arb-bridge-eth/contracts/challenge/Challenge.sol:162-199 | of a proven piece the contract accepts a bisection with a true first and a changed last cut, whatever lies between |
| Game.ReturningRun | packages/arb-bridge-eth/contracts/challenge/Challenge.sol:152-214 | a whole run, from a false assertion over 402 units of gas, in which the contract accepts that bisection and a validator who is right has no move |
| Game.OnlyOwnBisectionIsUndisputed | packages/arb-node-core/challenge/execution.go:77-100 | nothing is found to dispute exactly when every cut is the local one |
| Game.MoveOutcome | packages/arb-node-core/challenge/challenger.go:83-153 | for any bisection, when exactly each error occurs and when a move is found |
| Game.MoveMatchesExecution | packages/arb-node-core/challenge/challenger.go:105-152 | which of the three moves is made, in terms of the machine's step and the gas at the start of the piece, both ways |
| Merkle.RoundsIsLog | packages/arb-node-core/challenge/challenger.go:108-113 | halving rounding up ends within k rounds exactly from 2^k down |
| Game.PieceFitsLongest | packages/arb-node-core/challenge/challenger.go:108-113 | every piece of a bisection of the required size is at most half its length, rounded up |
| Game.EveryCallCounts | packages/arb-bridge-eth/contracts/challenge/Challenge.sol:152-332 | every accepted call, by either side, lowers a bound on the calls still possible |
| Game.InitialInvariant | packages/arb-util/core/assertion.go:40-48 | a validator on the right side of a challenge starts inside the invariant |
| Game.EveryRunKeepsInvariant | packages/arb-node-core/challenge/challenger.go:83-153 | safety over every run against every opponent: at the validator's turns the first cut is agreed, the last disputed and nobody has won; at the opponent's turns every cut is the validator's own |
| Game.ChallengesAreShort | packages/arb-bridge-eth/contracts/challenge/Challenge.sol:152-332 | a challenge over at most 2^k gas has at most k + 2 accepted calls, whoever is right |
| Game.ChallengeHalts | packages/arb-node-core/challenge/challenger.go:83-153 | where a run halts, exactly: on the validator if the last bisection has the unreachable word before its first disputed cut, otherwise on an opponent without an acceptable call |
| Game.ValidatorPrevails | packages/arb-node-core/challenge/challenger.go:83-153 | a run that has come to a halt, and whose last bisection does not return from unreachable, has halted on the opponent, who has no acceptable call left |
| Game.RootTellsBisection | packages/arb-bridge-eth/contracts/challenge/ChallengeLib.sol:82-109 | bisections with the same root are the same |
| Game.NoStateRecurs | packages/arb-bridge-eth/contracts/challenge/Challenge.sol:201-206 | no state comes back in a run |
| Game.OnlyBisectionsAreLogged | packages/arb-bridge-eth/contracts/challenge/Challenge.sol:208-213 | a call leaves a nonzero state exactly if it is a bisection |
| Game.LookupFindsBisection | packages/arb-node-core/ethbridge/challengeWatcher.go:145-180 | in every run the lookup of the current state finds the current bisection, none for the first state, and never two |
| Game.HandleConflict | packages/arb-node-core/challenge/challenger.go:38-81 | the timeout call, nothing out of turn or after a loss, otherwise the call of the move chosen against the bisection looked up, or its error |
| Game.ConflictIsHandled | packages/arb-node-core/challenge/challenger.go:38-81 | in every run, when it is the validator's turn, the log yields a call, which the contract accepts, exactly if the cut before the disputed one is a real one |
| SequencerBatch.ParseSections | packages/arb-node-core/ethbridge/sequencerInboxWatcher.go:170-184 | five numbers to a section, an incomplete last one ignored |
| SequencerBatch.AccountBackwards | packages/arb-node-core/ethbridge/sequencerInboxWatcher.go:189-205 | the backward pass leaves what no later section accounts for |
| SequencerBatch.EmitMessage | packages/arb-node-core/ethbridge/sequencerInboxWatcher.go:223-242 | the next message is cut off the data, made an item of its kind and chained; a length or data out of range is a panic |
| SequencerBatch.EmitMessages | packages/arb-node-core/ethbridge/sequencerInboxWatcher.go:222-243 | a section's messages are cut off the data in order and chained; too few are a panic |
| SequencerBatch.EmitDelayed | packages/arb-node-core/ethbridge/sequencerInboxWatcher.go:245-269 | a delayed item and its end-of-block message exactly when the total grows |
| SequencerBatch.EmitSections | packages/arb-node-core/ethbridge/sequencerInboxWatcher.go:216-270 | the forward pass emits what the sections mean one after the other |
| SequencerBatch.CheckEnd | packages/arb-node-core/ethbridge/sequencerInboxWatcher.go:272-288 | the two final errors in their order, and the delayed info when its accumulator is not zero |
| SequencerBatch.GetItems | packages/arb-node-core/ethbridge/sequencerInboxWatcher.go:169-289 | the two passes and the final checks agree with the section-by-section meaning, in results and in errors; fewer than five numbers of metadata give no items |
| SequencerBatchLaws.PriorCountIsRecovered | packages/arb-node-core/ethbridge/sequencerInboxWatcher.go:189-213 | whatever the prior delayed count was, the backward pass finds it |
| SequencerBatchLaws.PriorCountExistsIff | packages/arb-node-core/ethbridge/sequencerInboxWatcher.go:206-213 | a fitting prior count exists if and only if the unaccounted rest is not negative and not 1, and only then the inferred one fits |
| SequencerBatchLaws.CountsNeverFail | packages/arb-node-core/ethbridge/sequencerInboxWatcher.go:189-274 | on such a batch neither count error can occur and the forward pass starts from that count |
| SequencerBatchLaws.SuccessMeansFit | packages/arb-node-core/ethbridge/sequencerInboxWatcher.go:189-274 | conversely, on success with nondecreasing totals every count fits in 64 bits and the counts fit the inferred prior count |
| SequencerBatchLaws.ItemsTileBatch | packages/arb-node-core/ethbridge/sequencerInboxWatcher.go:215-278 | on success the items tile the range from BeforeCount to AfterCount without gap or overlap, each accumulator chained from the one before, ending in AfterAcc |
| SequencerBatchLaws.KindsAndSenders | packages/arb-node-core/ethbridge/sequencerInboxWatcher.go:226-269 | a message ends a block exactly if it is empty; after every delayed item comes an empty one from address zero, and every other message is from the sequencer |
| SequencerBatchLaws.Int64IsLow | packages/arb-node-core/ethbridge/sequencerInboxWatcher.go:222-224 | Int64 is the one signed number of 64 bits that differs by a multiple of 2^64 |
| SequencerBatchLaws.CutInTwo | packages/arb-node-core/ethbridge/sequencerInboxWatcher.go:224-238 | the first n messages use up the first n lengths and just their bytes |
| SequencerBatchLaws.CutBatchDecodesAlike | packages/arb-node-core/ethbridge/sequencerInboxWatcher.go:169-289 | whenever GetItems succeeds, it succeeds on the halves of the batch cut after any section, their items concatenated are those of the whole, and the delayed info is that of the last half that reads delayed messages |
| SequencerInbox.CalcTakesMessages | packages/arb-bridge-eth/contracts/bridge/SequencerInbox.sol:384-416 | the contract hashes the messages the node will cut out, and stands where the node will stand |
| SequencerInbox.DelayedItemsMatch | packages/arb-bridge-eth/contracts/bridge/SequencerInbox.sol:419-452 | the contract's two delayed hashes are the accumulators of the node's two items |
| SequencerInbox.SectionAdvances | packages/arb-bridge-eth/contracts/bridge/SequencerInbox.sol:333-367 | an accepted section's count wraps around modulo 2^256 exactly if it exceeds the number of lengths, and then none of its items is taken |
| SequencerInbox.AcceptedSpan | packages/arb-bridge-eth/contracts/bridge/SequencerInbox.sol:319-368 | where accepted sections arrive: at the span they announce less the counts that wrap around |
| SequencerInbox.AcceptedSectionsAreRead | packages/arb-bridge-eth/contracts/bridge/SequencerInbox.sol:319-368 | sections accepted without wrapping around are read by the node and leave both in the same place |
| SequencerInbox.SectionsParsedAlike | packages/arb-bridge-eth/contracts/bridge/SequencerInbox.sol:319-368 | the contract and the node read the same sections out of the same words |
| SequencerInbox.AcceptedBatchIsRebuilt | packages/arb-bridge-eth/contracts/bridge/SequencerInbox.sol:274-382 | on an accepted batch GetItems succeeds if and only if no count exceeds the number of lengths; it then infers the contract's own delayed count and ends where the contract ends, at the announced accumulator, and otherwise fails with a negative count |
| SequencerInbox.WrappingBatch | packages/arb-bridge-eth/contracts/bridge/SequencerInbox.sol:404-405 | whatever the inbox, a concrete batch with a count of 2^256 - 1 that the contract accepts and GetItems fails on |
| SequencerInbox.ForcedBatchIsRebuilt | packages/arb-node-core/ethbridge/sequencerInboxWatcher.go:362-383 | an accepted forced inclusion reads on, up to the delayed inbox's own accumulator, and GetItems yields the delayed item, the end-of-block message and the delayed info |
| SequencerInboxLaws.AcceptsExactlyRebuildable | packages/arb-bridge-eth/contracts/bridge/SequencerInbox.sol:319-381 | a call with true counts is accepted if and only if its sections pass the window, initialisation and delayed-inbox checks, its lengths can be hashed, it has an item, and GetItems succeeds on the batch it would deliver |
| SequencerInboxLaws.AcceptedItemsAndInfo | packages/arb-bridge-eth/contracts/bridge/SequencerInbox.sol:350-367 | of an accepted batch the items are some, each with or after the first delayed message, and the delayed info is exactly the count read up to and the delayed inbox's accumulator there, when the count grew and the accumulator is not zero |
| SequencerInboxLaws.InfoIsAccumulator | packages/arb-bridge-eth/contracts/bridge/SequencerInbox.sol:427-428 | the delayed accumulator left by sections that pass is that of the last one to read on, in the delayed inbox |
| FrameTree.FindCaller | packages/arb-evm/evm/tracing.go:533-541 | the receiver of the nearest open call that is neither delegate call nor call code |
| FrameTree.CloseFrame | packages/arb-evm/evm/tracing.go:550-565 | a return closes the top frame into its parent, or ends the trace, or is an error |
| FrameTree.ProcessItem | packages/arb-evm/evm/tracing.go:496-566 | one turn of the loop, with what it writes to the items and what it leaves alone |
| FrameTree.FrameTree | packages/arb-evm/evm/tracing.go:490-568 | result and rewritten items are those of the stack machine over the original items; an empty trace has no tree |
| FrameTreeLaws.ParsesFlattened | packages/arb-evm/evm/tracing.go:490-568 | parsing the flattening of any complete tree gives the tree, delegate senders filled in, and leaves that tree's flattening as the items |
| FrameTreeLaws.AcceptedIsTree | packages/arb-evm/evm/tracing.go:490-568 | whatever is accepted from any open stack is the rest of the flattening of one complete tree |
| FrameTreeLaws.AcceptsExactlyTrees | packages/arb-evm/evm/tracing.go:490-568 | a list is accepted if and only if it is the flattening of a complete tree whose delegate calls all have a caller |
| FrameTreeLaws.ResolveIsComplete | packages/arb-evm/evm/tracing.go:531-546 | filling in senders keeps trees complete and does nothing the second time |
| FrameTreeLaws.ResultFlattensBack | packages/arb-evm/evm/tracing.go:490-568 | every frame of the result has returned, the result flattens to the rewritten items, and parsing those again changes nothing |
| FrameTreeLaws.OnlySendersChange | packages/arb-evm/evm/tracing.go:545 | accepted or not, only senders of delegate calls are rewritten, and a call right after a create keeps its sender |
| FrameTreeLaws.ResultSendersAreCallers | packages/arb-evm/evm/tracing.go:531-546 | in the result every delegate call is sent by the receiver of the nearest call above it that is neither delegate call nor call code |
| FrameTreeLaws.ErrorsTellWhy | packages/arb-evm/evm/tracing.go:496-568 | each of the six errors says what is wrong with the trace |
| FrameTreeLaws.SmallTraces | packages/arb-evm/evm/tracing.go:508-549 | a create opens a create frame, a create2 a create2 frame, and a call a plain one |
| SendTree.GenerateProof | packages/arb-evm/evm/merkleRootResult.go:199-231 | the loop walks down to the index, the nodes come back leaf first and the path root first |
| SendTree.ParsedTreeIsNumbered | packages/arb-evm/evm/merkleRootResult.go:152-191 | a parsed tree numbers its leaves from minIndex on, left to right without gaps, as long as they fit in 64 bits |
| SendTree.EntriesAreSends | packages/arb-evm/evm/merkleRootResult.go:152-191 | the leaves of a parsed tree are the sends of its value from left to right, one by one the contents with zeros after them up to the size modulo 2^64 |
| SendTree.ParsesTrees | packages/arb-evm/evm/merkleRootResult.go:152-191 | exactly the values that are trees of sends with room for their contents are parsed, and an error tells the fault |
| SendTree.HashIsOfValue | packages/arb-evm/evm/merkleRootResult.go:44-88 | the hash of a parsed tree is the one computed on the value |
| SendTree.NumberedRange | packages/arb-evm/evm/merkleRootResult.go:93-103 | lowest, highest and ContainsIndex describe just the numbers of the leaves |
| SendTree.OneChildCovers | packages/arb-evm/evm/merkleRootResult.go:206-212 | exactly one child covers an index of the tree |
| SendTree.ProofsCoverEntries | packages/arb-evm/evm/merkleRootResult.go:199-231 | a proof exists for exactly the indices of the tree and carries the entry of its index |
| SendTree.ProofRebuildsTree | packages/arb-evm/evm/merkleRootResult.go:199-231 | folding the leaf hash with the nodes against the path read backwards gives the hash of the tree, for every shape |
| Outbox.Outbox.RecordOutputAsSpent | packages/arb-bridge-eth/contracts/bridge/Outbox.sol:202-226 | the checks in their order, the key recorded in the entry of that batch alone, nothing changed on a revert |
| Outbox.GeneratedProofIsAccepted | packages/arb-bridge-eth/contracts/bridge/Outbox.sol:202-226 | the node's proof of a send is accepted if and only if it is shorter than 256 nodes and was not used |
| Outbox.FoldedProofIsGenerated | packages/arb-bridge-eth/contracts/bridge/Outbox.sol:211-212 | whatever folds to the root of a tree is the generated proof of one of its leaves, for that leaf's item |
| Outbox.AcceptedSpendIsGenerated | packages/arb-bridge-eth/contracts/bridge/Outbox.sol:202-226 | an accepted call brings the generated proof of a leaf and that leaf's own item |
| Outbox.KeyPicksLeaf | packages/arb-bridge-eth/contracts/bridge/Outbox.sol:216-219 | the pair of path and proof length identifies a unique leaf |
| Outbox.NoSendIsExecutedTwice | packages/arb-bridge-eth/contracts/bridge/Outbox.sol:202-226 | over every history of calls the executed items, with multiplicity, are among the batch's sends |
| Outbox.SpentLeafWasExecuted | packages/arb-bridge-eth/contracts/bridge/Outbox.sol:216-224 | a leaf's key is spent exactly if that leaf's own call was accepted |
| Outbox.UnexecutedSendIsAccepted | packages/arb-bridge-eth/contracts/bridge/Outbox.sol:202-226 | after every history a leaf's own proof is accepted if and only if it is shorter than 256 nodes and was not accepted before |
| Outbox.NoEntryNoSpend | packages/arb-bridge-eth/contracts/bridge/Outbox.sol:213-214 | over every history of calls a batch without an entry executes nothing |
| Rlp.StringRoundTrip | packages/arb-evm/message/data.go:145-149 | decoding an encoded byte string gives it back and leaves what follows |
| Rlp.StringIsCanonical | packages/arb-evm/message/data.go:145-149 | whatever decodes is the encoding of its value followed by what is left |
| Rlp.IntRoundTrip | packages/arb-evm/message/data.go:83-96 | the same round trip for nonnegative integers |
| Rlp.IntIsCanonical | packages/arb-evm/message/data.go:95-98 | the same canonicity for integers, without leading zeros |
| Rlp.KnownStrings | packages/arb-evm/message/data.go:145-149 | encodings given by the standard, for strings |
| Rlp.KnownInts | packages/arb-evm/message/data.go:83-86 | and for integers |
| Rlp.KnownHeaders | packages/arb-evm/message/data.go:145-149 | the lengths at which one layout of the header gives way to the next |
| TransactionBatch.AsDataSafe | packages/arb-evm/message/l2Message.go:622-634 | each transaction preceded by its encoded length, in order |
| TransactionBatch.NewTransactionBatchFromData | packages/arb-evm/message/l2Message.go:561-581 | reads transactions off until a length does not parse or announces more than there is |
| TransactionBatch.DecodeUndoesEncode | packages/arb-evm/message/l2Message.go:561-634 | decoding an encoded list followed by any bytes gives the list followed by what those bytes decode to |
| TransactionBatch.EncodeUndoesDecode | packages/arb-evm/message/l2Message.go:561-634 | re-encoding what was decoded is a prefix of the data, and nothing can be read from the rest |
| TransactionBatch.DecodesTo | packages/arb-evm/message/l2Message.go:561-634 | data decodes to a list if and only if it is the list's encoding and an end in which nothing can be read |
| TransactionBatch.StartsWithLength | packages/arb-evm/message/l2Message.go:622-634 | what is written first is the length of the first transaction, then that transaction |
| CompressedTx.EncodeAmount | packages/arb-evm/message/data.go:75-92 | the mantissa and the number of trailing zeros modulo 256; the caller's integer is left at the mantissa |
| CompressedTx.DecodeAmount | packages/arb-evm/message/data.go:94-109 | the mantissa times a power of ten, a zero mantissa without an exponent, an error when the exponent is missing |
| CompressedTx.DecodeAddress | packages/arb-evm/message/data.go:145-166 | nothing, an index of fewer than 20 bytes, a full address of 20, an error beyond |
| CompressedTx.EncodeUnsignedTx | packages/arb-evm/message/data.go:168-202 | the fields in order and the calldata, or an error for a negative field; the payment is left at its mantissa |
| CompressedTx.DecodeCompressedTx | packages/arb-evm/message/data.go:204-243 | the fields read one after the other, the first error, and the rest as calldata |
| CompressedTx.DecodeECDSASig | packages/arb-evm/message/data.go:253-267 | two words and a byte, an error when there is less |
| CompressedTx.NewCompressedECDSATxFromData | packages/arb-evm/message/l2Message.go:452-475 | too short, the wrong first byte, or the transaction between it and the last 65 bytes |
| CompressedTxLaws.MantissaAndZeros | packages/arb-evm/message/data.go:79-82 | the mantissa does not end in zero, and times ten to the number of zeros it is the amount |
| CompressedTxLaws.AmountComesBack | packages/arb-evm/message/data.go:75-109 | which amount is read back from an encoded one |
| CompressedTxLaws.AmountSurvives | packages/arb-evm/message/data.go:75-109 | it is the same if and only if the amount ends in at most 255 zeros |
| CompressedTxLaws.ToSurvives | packages/arb-evm/message/data.go:145-166 | an address survives if and only if it is not an index, or an index from 1 up to below 2^152 |
| CompressedTxLaws.WordComesBack | packages/arb-evm/message/data.go:245-251 | U256Bytes is 32 bytes that spell the number modulo 2^256 |
| CompressedTxLaws.EncodesIffNonnegative | packages/arb-evm/message/data.go:168-202 | a transaction can be encoded if and only if none of its integers is negative |
| CompressedTxLaws.DecodeAfterEncode | packages/arb-evm/message/l2Message.go:452-498 | what is read back from any encoded transaction: the same, another one, or an address error |
| CompressedTxLaws.RoundTrip | packages/arb-evm/message/l2Message.go:452-498 | the transaction itself is read back if and only if its address survives, its payment ends in at most 255 zeros, and r and s are 256-bit words |
| CompressedTxLaws.EncodingAgain | packages/arb-evm/message/data.go:79-91 | encoding the same transaction a second time gives the same bytes if and only if its number of zeros is a multiple of 256 |
| CompressedTxFormat.TxDecodesExactly | packages/arb-evm/message/data.go:204-243 | what decodes to an unsigned transaction: three canonical integers, a string of at most 20 bytes that is the address, a mantissa with an exponent byte exactly if it is not zero, and the calldata |
| CompressedTxFormat.SigDecodesExactly | packages/arb-evm/message/data.go:253-267 | what decodes to a signature: two words of 32 bytes and a byte |
| CompressedTxFormat.DecodesExactly | packages/arb-evm/message/l2Message.go:452-475 | data decodes to a signed transaction if and only if it is 0xff, the fields of the transaction as above, and 65 bytes of signature |
| CompressedTxFormat.WhatIsRefused | packages/arb-evm/message/l2Message.go:452-475 | the errors for data that is short, asks for a function table, has an address of more than 20 bytes, or lacks an exponent |

## Left out

- Hashes are abstract functions into the integers, and collision resistance is idealised as injectivity; no probability of a collision is modelled.
- The one step proof executors of the contract are taken to run the machine's own step; proof bytes, opcodes, buffer proofs and inbox proofs (`NewOneStepProofMove`) are not modelled.
- Deadlines: whether a player's time is up is an input, and the timeout call is not modelled. A game that halts on a player is one this player loses by timing out.
- Overflow checks of the challenge contract's additions, which go through SafeMath; they only reject calls with numbers no honest party sends.
- The contract's bisection degree is the 400 set in Rollup.sol, line 159. An administrator can set another one, with which the validator's calls would not fit.
- `ExecutionState.InboxAcc`, which no hash of the challenge covers.
- ExecutionTracker.constructor: the flags goOverGas and keepOldCursors are fixed at true, as the challenge code always sets them, an initial cursor is not modelled, and stop points are told apart as integers, where the source's map keys drop the sign, because gas offsets are never negative.
- GetSegmentStartInfo: does not return the machine, because only the executors would use it.
- PieceCanBeProven: is stated for bisections of at most 512 pieces, because the contract allows at most 400.
- FillInCursors: leaves out the branches for an initial cursor and for discarding cursors, because the challenge code uses neither.
- ProvePieceEnd: leaves out the errors of marshalling the proof and of the inbox lookup, because those calls are not modelled.
- HandleChallenge: leaves out the same errors.
- AcceptedBatchIsRebuilt: there are fewer than 2^63 lengths and delayed messages, and a hash over 2^63 bytes or more runs out of gas, because memory and gas allow no more; sums of such numbers are not wrapped around. The window of block numbers and times is an arbitrary predicate, and the check that a batch comes from a sequencer is left out.
- AcceptsExactlyRebuildable: is stated under the same bounds, and for calls whose counts do not exceed the number of lengths; `SequencerInbox.AcceptedBatchIsRebuilt` says what becomes of the others.
- FrameTree: the items are an array and call records are values in it, so two items that share one record, which the trace parser never makes, are not modelled; frames are values, not references.
- ParsedTreeIsNumbered: is stated for trees whose numbers fit in 64 bits, because past 2^64 leaves the source's numbering wraps around.
- RecordOutputAsSpent: the recorded key is the pair of path and proof length rather than its hash; the bridge call that follows is not modelled.
- StringRoundTrip: lengths are below 2^64, because RLP has no longer ones.
- NewTransactionBatchFromData: the conversion of the length to 64 bits is left out, because the length was just compared with what is left to read.
- DecodesExactly: is stated for data of fewer than 2^64 bytes, because no slice is longer; `WhatIsRefused` does not tell apart the errors of an RLP value that does not parse, which are those of a library.
- DecodeAfterEncode: the integers of a transaction have fewer than 2^64 bytes, because no machine holds longer ones.
- Go's readers after an error: how far a failed read advanced is not modelled, because every caller gives up.
- A transaction read from non-canonical amounts or indices need not re-encode to the same bytes; only encoding followed by decoding is promised and proved.
- `NewInitFromData`, the fixed-width messages, the field-by-field tuple parsers, the function table and address remapping: straight copying of fields.
- Ethereum client calls, log filtering, ABI packing, wallets, generated bindings and the C++ machine.
