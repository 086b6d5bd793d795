/**
 The outbox of the outer chain, which executes each send of a batch against a proof from the send tree
 (packages/arb-bridge-eth/contracts/bridge/Outbox.sol): every send can be executed, and none twice.
 */
module Outbox {
  import opened Hashing
  import opened Merkle
  import opened SendTree

  /** Stands for the hash of the path and the length of the proof. */
  type UniqueKey = (nat, nat)

  datatype OutboxEntry = OutboxEntry(root: Hash, spentOutput: set<UniqueKey>)

  datatype Revert = ProofTooLong | PathNotMinimal | NoOutboxEntry | AlreadySpent | BadRoot

  /** A call to execute one send of a batch. */
  datatype Spend = Spend(proof: seq<Hash>, path: nat, item: Hash)

  function KeyOf(s: Spend): UniqueKey {
    (s.path, |s.proof|)
  }

  /** An entry that was never created reads as zeros. */
  const NO_ENTRY := OutboxEntry(ZERO_HASH, {})

  function RootIn(h: SendHasher, s: Spend): Hash {
    Fold(h.pair, s.proof, s.path, h.single(s.item))
  }

  /** What recordOutputAsSpent does to the entry of the batch, in the order of its checks. */
  function Record(h: SendHasher, entry: OutboxEntry, s: Spend): Result<OutboxEntry, Revert> {
    if |s.proof| >= 256 then Err(ProofTooLong)
    else if s.path >= Pow2(|s.proof|) then Err(PathNotMinimal)
    else if entry.root == ZERO_HASH then Err(NoOutboxEntry)
    else if KeyOf(s) in entry.spentOutput then Err(AlreadySpent)
    else if RootIn(h, s) != entry.root then Err(BadRoot)
    else Ok(entry.(spentOutput := entry.spentOutput + {KeyOf(s)}))
  }

  class Outbox {
    var outboxEntries: map<int, OutboxEntry>

    function Entry(batchNum: int): OutboxEntry
      reads this
    {
      if batchNum in outboxEntries then outboxEntries[batchNum] else NO_ENTRY
    }

    method RecordOutputAsSpent(h: SendHasher, batchNum: int, s: Spend) returns (r: Result<UniqueKey, Revert>)
      modifies this
      ensures match Record(h, old(Entry(batchNum)), s)
        case Err(e) => r == Err(e) && unchanged(this)
        case Ok(entry) => r == Ok(KeyOf(s)) && outboxEntries == old(outboxEntries)[batchNum := entry]
    {
      if |s.proof| >= 256 {
        return Err(ProofTooLong);
      }
      if s.path >= Pow2(|s.proof|) {
        return Err(PathNotMinimal);
      }
      var calcRoot := CalculateRoot(h.pair, s.proof, s.path, h.single(s.item));
      var outboxEntry := Entry(batchNum);
      if outboxEntry.root == ZERO_HASH {
        return Err(NoOutboxEntry);
      }
      var uniqueKey := (s.path, |s.proof|);
      if uniqueKey in outboxEntry.spentOutput {
        return Err(AlreadySpent);
      }
      if calcRoot != Some(outboxEntry.root) {
        return Err(BadRoot);
      }
      outboxEntries :=
        outboxEntries[batchNum := outboxEntry.(spentOutput := outboxEntry.spentOutput + {uniqueKey})];
      r := Ok(uniqueKey);
    }
  }

  // ----- Every send can be executed -----

  /** The call a user makes with the proof the node generated. */
  function SpendOf(h: SendHasher, p: Proof): Spend {
    Spend(Reverse(p.nodes), PathToInt(p.path), h.inner(p.data))
  }

  lemma {:induction false} PathIsMinimal(path: seq<bool>)
    ensures PathToInt(path) < Pow2(|path|)
  {
    if path != [] {
      PathIsMinimal(path[..|path| - 1]);
    }
  }

  /** The proof generated for a send is accepted unless it was used before or the tree is 256 levels deep. */
  lemma GeneratedProofIsAccepted(h: SendHasher, t: Node, i: int, entry: OutboxEntry)
    requires WayDown(h, t, i).Ok? && entry.root == HashOf(h, t) != ZERO_HASH
    ensures var p := WayDown(h, t, i).value;
      Record(h, entry, SpendOf(h, p)).Ok? <==> |p.nodes| < 256 && KeyOf(SpendOf(h, p)) !in entry.spentOutput
  {
    ProofRebuildsTree(h, t, i);
    PathIsMinimal(WayDown(h, t, i).value.path);
  }

  /** A history of calls on one batch: the entry at the end and the calls accepted; reverted calls leave no trace. */
  function Replay(h: SendHasher, entry: OutboxEntry, calls: seq<Spend>): (OutboxEntry, seq<Spend>) {
    if calls == [] then (entry, [])
    else
      var (before, accepted) := Replay(h, entry, calls[..|calls| - 1]);
      match Record(h, before, calls[|calls| - 1])
      case Err(_) => (before, accepted)
      case Ok(after) => (after, accepted + [calls[|calls| - 1]])
  }

  /** A batch whose entry was never created executes nothing. */
  lemma {:induction false} NoEntryNoSpend(h: SendHasher, entry: OutboxEntry, calls: seq<Spend>)
    requires entry.root == ZERO_HASH
    ensures Replay(h, entry, calls) == (entry, [])
  {
    if calls != [] {
      NoEntryNoSpend(h, entry, calls[..|calls| - 1]);
    }
  }

  // ----- Only sends can be executed -----

  /** Collision resistance, idealised: a leaf's hash is taken twice so that it is never the hash of a pair. */
  ghost predicate NoSendsCollide(h: SendHasher) {
    && PairInjective(h.pair)
    && (forall a, b :: h.single(a) == h.single(b) ==> a == b)
    && (forall a, b, c :: h.single(a) != h.pair(b, c))
  }

  lemma SingleParts(h: SendHasher, a: Hash, b: Hash)
    requires NoSendsCollide(h) && h.single(a) == h.single(b)
    ensures a == b
  {
  }

  lemma SingleIsNotPair(h: SendHasher, a: Hash, b: Hash, c: Hash)
    requires NoSendsCollide(h)
    ensures h.single(a) != h.pair(b, c)
  {
  }

  /** Read from the root: the last join of a fold is with the first node passed on the way down. */
  lemma FoldFromRoot(pair: PairHash, nodes: seq<Hash>, path: seq<bool>, item: Hash)
    requires |nodes| == |path| > 0
    ensures Fold(pair, Reverse(nodes), PathToInt(path), item)
         == Join(pair, path[0], Fold(pair, Reverse(nodes[1..]), PathToInt(path[1..]), item), nodes[0])
  {
    ReverseTwice(path);
    ReverseTwice(path[1..]);
    FoldOneMore(pair, Reverse(nodes[1..]), Reverse(path[1..]), nodes[0], path[0], item);
  }

  /** A proof that folds to the root is the generated proof of one of the leaves, and its item is that leaf's. */
  lemma {:induction false} FoldedProofIsGenerated(h: SendHasher, t: Node, from: int, nodes: seq<Hash>, path: seq<bool>,
                                                  item: Hash)
    returns (i: int)
    requires NoSendsCollide(h) && Numbered(t, from) && |nodes| == |path|
    requires Fold(h.pair, Reverse(nodes), PathToInt(path), h.single(item)) == HashOf(h, t)
    ensures from <= i < from + Leaves(t)
    ensures WayDown(h, t, i).Ok?
    ensures WayDown(h, t, i).value.nodes == nodes && WayDown(h, t, i).value.path == path
    ensures h.inner(WayDown(h, t, i).value.data) == item
    decreases t, 1
  {
    if nodes == [] {
      i := FirstLeaf(h, t, from, item);
    } else {
      var below := Fold(h.pair, Reverse(nodes[1..]), PathToInt(path[1..]), h.single(item));
      FoldFromRoot(h.pair, nodes, path, h.single(item));
      if t.Leaf? {
        SingleIsNotPair(h, h.inner(t.data), below, nodes[0]);
        SingleIsNotPair(h, h.inner(t.data), nodes[0], below);
        assert false;
      } else {
        i := Below(h, t, from, nodes, path, item, below);
      }
    }
  }

  lemma FirstLeaf(h: SendHasher, t: Node, from: int, item: Hash) returns (i: int)
    requires NoSendsCollide(h) && Numbered(t, from) && h.single(item) == HashOf(h, t)
    ensures i == from && Leaves(t) == 1
    ensures WayDown(h, t, i).Ok? && h.inner(WayDown(h, t, i).value.data) == item
    ensures WayDown(h, t, i).value.nodes == [] && WayDown(h, t, i).value.path == []
  {
    i := from;
    if t.Leaf? {
      SingleParts(h, item, h.inner(t.data));
    } else {
      SingleIsNotPair(h, item, HashOf(h, t.left), HashOf(h, t.right));
      assert false;
    }
  }

  lemma {:induction false} Below(h: SendHasher, t: Node, from: int, nodes: seq<Hash>, path: seq<bool>, item: Hash,
                                 below: Hash)
    returns (i: int)
    requires NoSendsCollide(h) && Numbered(t, from) && |nodes| == |path| > 0 && t.Interior?
    requires below == Fold(h.pair, Reverse(nodes[1..]), PathToInt(path[1..]), h.single(item))
    requires Join(h.pair, path[0], below, nodes[0]) == HashOf(h, t)
    ensures from <= i < from + Leaves(t)
    ensures WayDown(h, t, i).Ok?
    ensures WayDown(h, t, i).value.nodes == nodes && WayDown(h, t, i).value.path == path
    ensures h.inner(WayDown(h, t, i).value.data) == item
    decreases t, 0
  {
    var mid := from + Leaves(t.left);
    LeavesPositive(t.left);
    NumberedRange(t.left, from);
    NumberedRange(t.right, mid);
    assert nodes == [nodes[0]] + nodes[1..] && path == [path[0]] + path[1..];
    if path[0] {
      PairParts(h.pair, below, nodes[0], HashOf(h, t.left), HashOf(h, t.right));
      i := FoldedProofIsGenerated(h, t.left, from, nodes[1..], path[1..], item);
    } else {
      PairParts(h.pair, nodes[0], below, HashOf(h, t.left), HashOf(h, t.right));
      i := FoldedProofIsGenerated(h, t.right, mid, nodes[1..], path[1..], item);
    }
  }

  lemma LastDigit(path: seq<bool>, last: bool)
    ensures PathToInt(path + [last]) == 2 * PathToInt(path) + Bit(last)
  {
    assert (path + [last])[..|path|] == path;
  }

  /** A minimal route spells a path with one turn for each node. */
  lemma {:induction false} RouteIsPath(route: nat, n: nat) returns (path: seq<bool>)
    requires route < Pow2(n)
    ensures |path| == n && PathToInt(path) == route
  {
    path := [];
    if n > 0 {
      var half := RouteIsPath(route / 2, n - 1);
      LastDigit(half, route % 2 == 1);
      path := half + [route % 2 == 1];
    }
  }

  /** Soundness: a call is accepted only with the generated proof of a leaf, for that leaf's own item. */
  lemma AcceptedSpendIsGenerated(h: SendHasher, t: Node, from: int, entry: OutboxEntry, s: Spend) returns (i: int)
    requires NoSendsCollide(h) && Numbered(t, from) && entry.root == HashOf(h, t)
    requires Record(h, entry, s).Ok?
    ensures from <= i < from + Leaves(t)
    ensures WayDown(h, t, i).Ok? && s == SpendOf(h, WayDown(h, t, i).value)
  {
    var path := RouteIsPath(s.path, |s.proof|);
    ReverseTwice(s.proof);
    i := FoldedProofIsGenerated(h, t, from, Reverse(s.proof), path, s.item);
  }

  // ----- No send is executed twice -----

  lemma {:induction false} PathIsItsNumber(a: seq<bool>, b: seq<bool>)
    requires |a| == |b| && PathToInt(a) == PathToInt(b)
    ensures a == b
  {
    if a != [] {
      PathIsItsNumber(a[..|a| - 1], b[..|b| - 1]);
      assert a == a[..|a| - 1] + [a[|a| - 1]] && b == b[..|b| - 1] + [b[|b| - 1]];
    }
  }

  lemma {:induction false} PathPicksLeaf(h: SendHasher, t: Node, i: int, j: int)
    requires WayDown(h, t, i).Ok? && WayDown(h, t, j).Ok?
    requires WayDown(h, t, i).value.path == WayDown(h, t, j).value.path
    ensures i == j
  {
    if t.Interior? {
      var left := t.left.ContainsIndex(i);
      var p, q := WayDown(h, t, i).value.path, WayDown(h, t, j).value.path;
      assert left == p[0] && t.left.ContainsIndex(j) == q[0];
      var child := if left then t.left else t.right;
      assert WayDown(h, child, i).value.path == p[1..] && WayDown(h, child, j).value.path == q[1..];
      PathPicksLeaf(h, child, i, j);
    }
  }

  /** The path and the length of the proof identify a unique leaf. */
  lemma KeyPicksLeaf(h: SendHasher, t: Node, i: int, j: int)
    requires WayDown(h, t, i).Ok? && WayDown(h, t, j).Ok?
    requires KeyOf(SpendOf(h, WayDown(h, t, i).value)) == KeyOf(SpendOf(h, WayDown(h, t, j).value))
    ensures i == j
  {
    ProofRebuildsTree(h, t, i);
    ProofRebuildsTree(h, t, j);
    PathIsItsNumber(WayDown(h, t, i).value.path, WayDown(h, t, j).value.path);
    PathPicksLeaf(h, t, i, j);
  }

  function ItemsOf(spends: seq<Spend>): (r: seq<Hash>)
    ensures |r| == |spends|
  {
    seq(|spends|, k requires 0 <= k < |spends| => spends[k].item)
  }

  function Inners(h: SendHasher, sends: seq<Bytes>): (r: seq<Hash>)
    ensures |r| == |sends|
  {
    seq(|sends|, k requires 0 <= k < |sends| => h.inner(sends[k]))
  }

  /** The keys of the given leaves. */
  function KeysOf(h: SendHasher, t: Node, leaves: seq<int>): set<UniqueKey> {
    if leaves == [] then {}
    else
      var others := KeysOf(h, t, leaves[..|leaves| - 1]);
      match WayDown(h, t, leaves[|leaves| - 1])
      case Err(_) => others
      case Ok(p) => others + {KeyOf(SpendOf(h, p))}
  }

  /** A leaf's key is among those of given leaves only if the leaf is. */
  lemma {:induction false} KeysAreOwn(h: SendHasher, t: Node, leaves: seq<int>, i: int)
    requires WayDown(h, t, i).Ok?
    ensures KeyOf(SpendOf(h, WayDown(h, t, i).value)) in KeysOf(h, t, leaves) <==> i in leaves
  {
    if leaves != [] {
      var j := leaves[|leaves| - 1];
      var others := leaves[..|leaves| - 1];
      KeysAreOwn(h, t, others, i);
      assert leaves == others + [j];
      if WayDown(h, t, j).Ok? && KeyOf(SpendOf(h, WayDown(h, t, i).value)) == KeyOf(SpendOf(h, WayDown(h, t, j).value)) {
        KeyPicksLeaf(h, t, i, j);
      }
    }
  }

  /** The call is that of leaf `i` of the tree. */
  ghost predicate IsSpendOf(h: SendHasher, t: Node, from: int, i: int, s: Spend) {
    && from <= i < from + Leaves(t)
    && WayDown(h, t, i).Ok? && s == SpendOf(h, WayDown(h, t, i).value)
  }

  /** `picked` are the leaves executed: they are distinct, they account for the calls, and just their keys are spent. */
  ghost predicate Accounts(h: SendHasher, t: Node, from: int, picked: seq<int>, entry: OutboxEntry, accepted: seq<Spend>) {
    && entry == OutboxEntry(HashOf(h, t), KeysOf(h, t, picked))
    && |picked| == |accepted|
    && (forall k :: 0 <= k < |picked| ==> IsSpendOf(h, t, from, picked[k], accepted[k]))
    && (forall k, l :: 0 <= k < l < |picked| ==> picked[k] != picked[l])
  }

  lemma {:induction false} ExecutedLeaves(h: SendHasher, t: Node, from: int, entry: OutboxEntry, calls: seq<Spend>)
    returns (picked: seq<int>)
    requires NoSendsCollide(h) && Numbered(t, from) && entry == OutboxEntry(HashOf(h, t), {})
    ensures Accounts(h, t, from, picked, Replay(h, entry, calls).0, Replay(h, entry, calls).1)
  {
    picked := [];
    if calls != [] {
      var s := calls[|calls| - 1];
      var (before, accepted) := Replay(h, entry, calls[..|calls| - 1]);
      picked := ExecutedLeaves(h, t, from, entry, calls[..|calls| - 1]);
      if Record(h, before, s).Ok? {
        var i := AcceptedSpendIsGenerated(h, t, from, before, s);
        picked := OneMoreLeaf(h, t, from, picked, before, accepted, s, i);
      }
    }
  }

  lemma OneMoreLeaf(h: SendHasher, t: Node, from: int, picked: seq<int>, before: OutboxEntry, accepted: seq<Spend>,
                    s: Spend, i: int)
    returns (more: seq<int>)
    requires Accounts(h, t, from, picked, before, accepted) && Record(h, before, s).Ok?
    requires IsSpendOf(h, t, from, i, s)
    ensures Accounts(h, t, from, more, Record(h, before, s).value, accepted + [s])
  {
    more := picked + [i];
    KeysAreOwn(h, t, picked, i);
    assert more[..|picked|] == picked;
  }

  lemma {:induction false} RemoveOne<T>(s: seq<T>, k: nat)
    requires k < |s|
    ensures multiset(s) == multiset(s[..k] + s[k + 1..]) + multiset{s[k]}
  {
    assert s == s[..k] + [s[k]] + s[k + 1..];
  }

  /** `values` stand at the given places of `all`, which are distinct. */
  ghost predicate Picks<T(!new)>(all: seq<T>, places: seq<int>, values: seq<T>) {
    && |places| == |values|
    && (forall k :: 0 <= k < |places| ==> 0 <= places[k] < |all| && all[places[k]] == values[k])
    && (forall k, l :: 0 <= k < l < |places| ==> places[k] != places[l])
  }

  lemma DropPick<T(!new)>(all: seq<T>, places: seq<int>, values: seq<T>, k: nat)
    requires Picks(all, places, values) && k < |places| && places[k] == |all| - 1
    ensures Picks(all[..|all| - 1], places[..k] + places[k + 1..], values[..k] + values[k + 1..])
  {
  }

  /** Values picked at distinct places are no more than are there. */
  lemma {:induction false} DistinctPicks<T(!new)>(all: seq<T>, places: seq<int>, values: seq<T>)
    requires Picks(all, places, values)
    ensures multiset(values) <= multiset(all)
  {
    if all == [] {
      assert values == [];
    } else {
      var n := |all| - 1;
      RemoveOne(all, n);
      assert all[..n] + all[n + 1..] == all[..n];
      if k :| 0 <= k < |places| && places[k] == n {
        DropPick(all, places, values, k);
        DistinctPicks(all[..n], places[..k] + places[k + 1..], values[..k] + values[k + 1..]);
        RemoveOne(values, k);
      } else {
        assert Picks(all[..n], places, values);
        DistinctPicks(all[..n], places, values);
      }
    }
  }

  /** Conservation: whatever calls are made, in whatever order, no send is executed more often than it was sent. */
  lemma NoSendIsExecutedTwice(h: SendHasher, t: Node, from: int, entry: OutboxEntry, calls: seq<Spend>)
    requires NoSendsCollide(h) && Numbered(t, from) && entry == OutboxEntry(HashOf(h, t), {})
    ensures multiset(ItemsOf(Replay(h, entry, calls).1)) <= multiset(Inners(h, t.Entries()))
  {
    var picked := ExecutedLeaves(h, t, from, entry, calls);
    ExecutedItemsAreSends(h, t, from, picked, Replay(h, entry, calls).0, Replay(h, entry, calls).1);
  }

  lemma ExecutedItemsAreSends(h: SendHasher, t: Node, from: int, picked: seq<int>, entry: OutboxEntry,
                              accepted: seq<Spend>)
    requires Accounts(h, t, from, picked, entry, accepted) && Numbered(t, from)
    ensures multiset(ItemsOf(accepted)) <= multiset(Inners(h, t.Entries()))
  {
    var places := seq(|picked|, k requires 0 <= k < |picked| => picked[k] - from);
    var sends := Inners(h, t.Entries());
    LeavesPositive(t);
    forall k | 0 <= k < |picked|
      ensures sends[places[k]] == ItemsOf(accepted)[k]
    {
      assert IsSpendOf(h, t, from, picked[k], accepted[k]);
      ProofsCoverEntries(h, t, from, picked[k]);
    }
    DistinctPicks(sends, places, ItemsOf(accepted));
  }

  /** The key of a leaf is spent exactly if that leaf's own call was accepted before. */
  lemma SpentLeafWasExecuted(h: SendHasher, t: Node, from: int, picked: seq<int>, entry: OutboxEntry,
                             accepted: seq<Spend>, i: int)
    requires Accounts(h, t, from, picked, entry, accepted) && WayDown(h, t, i).Ok?
    ensures var s := SpendOf(h, WayDown(h, t, i).value); KeyOf(s) in entry.spentOutput <==> s in accepted
  {
    var s := SpendOf(h, WayDown(h, t, i).value);
    KeysAreOwn(h, t, picked, i);
    if i in picked {
      var k :| 0 <= k < |picked| && picked[k] == i;
      assert IsSpendOf(h, t, from, i, accepted[k]);
    }
    if s in accepted {
      var k :| 0 <= k < |accepted| && accepted[k] == s;
      assert IsSpendOf(h, t, from, picked[k], s);
      KeyPicksLeaf(h, t, i, picked[k]);
    }
  }

  /**
   After whatever calls, leaf by leaf: a send's own proof is accepted exactly if it is shorter than 256 nodes and was not
   accepted before, also when other sends of the batch have the same contents.
   */
  lemma UnexecutedSendIsAccepted(h: SendHasher, t: Node, from: int, entry: OutboxEntry, calls: seq<Spend>, i: int)
    requires NoSendsCollide(h) && Numbered(t, from) && entry == OutboxEntry(HashOf(h, t), {}) && entry.root != ZERO_HASH
    requires WayDown(h, t, i).Ok?
    ensures var p := WayDown(h, t, i).value;
      Record(h, Replay(h, entry, calls).0, SpendOf(h, p)).Ok? <==>
        |p.nodes| < 256 && SpendOf(h, p) !in Replay(h, entry, calls).1
  {
    var picked := ExecutedLeaves(h, t, from, entry, calls);
    var (after, accepted) := Replay(h, entry, calls);
    SpentLeafWasExecuted(h, t, from, picked, after, accepted, i);
    GeneratedProofIsAccepted(h, t, i, after);
  }
}
