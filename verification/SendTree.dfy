/**
 The tree of sends to the outer chain: building it from a tuple value, and the proofs a user takes to the outbox
 (packages/arb-evm/evm/merkleRootResult.go).
 */
module SendTree {
  import opened Hashing
  import opened Merkle

  datatype Value = IntValue(n: int) | BufferValue(contents: Bytes) | TupleValue(items: seq<Value>) | OtherValue

  datatype TreeError = NotATuple | WrongTupleLength | SizeNotInt | ContentsNotBuffer | BufferTooSmall | InvalidTree

  /** MerkleNode: the indices are uint64. */
  datatype Node =
    | Leaf(data: Bytes, index: int)
    | Interior(left: Node, right: Node, lowest: int, highest: int)
  {
    function Lowest(): int {
      if Leaf? then index else lowest
    }

    function Highest(): int {
      if Leaf? then index else highest
    }

    predicate ContainsIndex(i: int) {
      if Leaf? then i == index else lowest <= i <= highest
    }

    function Entries(): seq<Bytes> {
      match this
      case Leaf(data, _) => [data]
      case Interior(l, r, _, _) => l.Entries() + r.Entries()
    }
  }

  /** `inner` hashes a send, `single` hashes that hash once more, `pair` hashes two nodes. */
  datatype SendHasher = SendHasher(inner: Bytes -> Hash, single: Hash -> Hash, pair: PairHash)

  function LeafHash(h: SendHasher, data: Bytes): Hash {
    h.single(h.inner(data))
  }

  function HashOf(h: SendHasher, t: Node): Hash {
    match t
    case Leaf(data, _) => LeafHash(h, data)
    case Interior(l, r, _, _) => h.pair(HashOf(h, l), HashOf(h, r))
  }

  // ----- Building -----

  /** inbox.BufAndLengthToBytes: the contents padded with zeros to the given size. */
  function BufAndLengthToBytes(size: int, contents: Bytes): Result<Bytes, TreeError> {
    var n := size % TWO_64;
    if |contents| > n then Err(BufferTooSmall) else Ok(contents + seq(n - |contents|, _ => 0))
  }

  function NewMerkleInteriorNode(left: Node, right: Node): Node {
    Interior(left, right, left.Lowest(), right.Highest())
  }

  /** newMerkleTreeFromValue; the next index wraps around as a uint64 does. */
  function NewMerkleTreeFromValue(val: Value, minIndex: int): Result<Node, TreeError> {
    match val
    case TupleValue(items) =>
      if |items| == 2 then
        match NewMerkleTreeFromValue(items[0], minIndex)
        case Err(e) => Err(e)
        case Ok(node1) =>
          match NewMerkleTreeFromValue(items[1], (node1.Highest() + 1) % TWO_64)
          case Err(e) => Err(e)
          case Ok(node2) => Ok(NewMerkleInteriorNode(node1, node2))
      else if |items| == 3 then
        if !items[0].IntValue? then Err(SizeNotInt)
        else if !items[1].BufferValue? then Err(ContentsNotBuffer)
        else
          match BufAndLengthToBytes(items[0].n, items[1].contents)
          case Err(e) => Err(e)
          case Ok(data) => Ok(Leaf(data, minIndex))
      else Err(WrongTupleLength)
    case _ => Err(NotATuple)
  }

  // ----- Proofs -----

  datatype Proof = Proof(nodes: seq<Hash>, path: seq<bool>, data: Bytes)

  /** The way down to an index: the siblings passed, root first, whether each step went left, and the leaf's data. */
  function WayDown(h: SendHasher, t: Node, index: int): Result<Proof, TreeError> {
    match t
    case Leaf(data, i) => if index != i then Err(InvalidTree) else Ok(Proof([], [], data))
    case Interior(l, r, _, _) =>
      if l.ContainsIndex(index) then Extend(HashOf(h, r), true, WayDown(h, l, index))
      else if r.ContainsIndex(index) then Extend(HashOf(h, l), false, WayDown(h, r, index))
      else Err(InvalidTree)
  }

  function Extend(node: Hash, left: bool, rest: Result<Proof, TreeError>): Result<Proof, TreeError> {
    match rest
    case Err(e) => Err(e)
    case Ok(p) => Ok(Proof([node] + p.nodes, [left] + p.path, p.data))
  }

  /** The way down from further up, `nodes` and `path` having been passed on the way to here. */
  function After(nodes: seq<Hash>, path: seq<bool>, rest: Result<Proof, TreeError>): Result<Proof, TreeError> {
    match rest
    case Err(e) => Err(e)
    case Ok(p) => Ok(Proof(nodes + p.nodes, path + p.path, p.data))
  }

  lemma AfterOneMore(nodes: seq<Hash>, path: seq<bool>, node: Hash, left: bool, rest: Result<Proof, TreeError>)
    ensures After(nodes, path, Extend(node, left, rest)) == After(nodes + [node], path + [left], rest)
    ensures After([], [], rest) == rest
  {
    if rest.Ok? {
      var p := rest.value;
      assert nodes + ([node] + p.nodes) == (nodes + [node]) + p.nodes;
      assert path + ([left] + p.path) == (path + [left]) + p.path;
      assert [] + p.nodes == p.nodes && [] + p.path == p.path;
    }
  }

  /** GenerateProof: the nodes are reversed at the end, the path is not. */
  method GenerateProof(h: SendHasher, tree: Node, index: int) returns (r: Result<Proof, TreeError>)
    ensures r == match WayDown(h, tree, index)
      case Err(e) => Err(e)
      case Ok(p) => Ok(p.(nodes := Reverse(p.nodes)))
  {
    var nodes: seq<Hash> := [];
    var path: seq<bool> := [];
    var nd := tree;
    AfterOneMore([], [], 0, true, WayDown(h, tree, index));
    while nd.Interior?
      invariant After(nodes, path, WayDown(h, nd, index)) == WayDown(h, tree, index)
      decreases nd
    {
      AfterOneMore(nodes, path, HashOf(h, nd.right), true, WayDown(h, nd.left, index));
      AfterOneMore(nodes, path, HashOf(h, nd.left), false, WayDown(h, nd.right, index));
      if nd.left.ContainsIndex(index) {
        nodes := nodes + [HashOf(h, nd.right)];
        path := path + [true];
        nd := nd.left;
      } else if nd.right.ContainsIndex(index) {
        nodes := nodes + [HashOf(h, nd.left)];
        nd := nd.right;
        path := path + [false];
      } else {
        return Err(InvalidTree);
      }
    }
    if index != nd.index {
      return Err(InvalidTree);
    }
    assert nodes + [] == nodes && path + [] == path;
    var reversed := ReverseSlice(nodes);
    r := Ok(Proof(reversed, path, nd.data));
  }

  // ----- Numbering -----

  function Leaves(t: Node): nat {
    if t.Leaf? then 1 else Leaves(t.left) + Leaves(t.right)
  }

  /** The leaves are numbered from `from` on, left to right and without gaps. */
  predicate Numbered(t: Node, from: int) {
    match t
    case Leaf(_, index) => index == from
    case Interior(l, r, lowest, highest) =>
      Numbered(l, from) && Numbered(r, from + Leaves(l)) && lowest == from && highest == from + Leaves(t) - 1
  }

  lemma {:induction false} LeavesPositive(t: Node)
    ensures Leaves(t) > 0 && |t.Entries()| == Leaves(t)
  {
    if t.Interior? {
      LeavesPositive(t.left);
      LeavesPositive(t.right);
    }
  }

  lemma {:induction false} NumberedRange(t: Node, from: int)
    requires Numbered(t, from)
    ensures t.Lowest() == from && t.Highest() == from + Leaves(t) - 1
    ensures forall i :: t.ContainsIndex(i) <==> from <= i < from + Leaves(t)
  {
    LeavesPositive(t);
  }

  lemma InteriorIsNumbered(left: Node, right: Node, from: int)
    requires Numbered(left, from) && Numbered(right, from + Leaves(left))
    ensures Numbered(NewMerkleInteriorNode(left, right), from)
  {
    NumberedRange(left, from);
    NumberedRange(right, from + Leaves(left));
  }

  lemma NoWrap(n: int)
    requires 0 <= n < TWO_64
    ensures n % TWO_64 == n
  {
  }

  /** A tree parsed from a value numbers its leaves from the given index on, as long as they fit in a uint64. */
  lemma {:induction false} ParsedTreeIsNumbered(val: Value, minIndex: int)
    requires NewMerkleTreeFromValue(val, minIndex).Ok? && minIndex >= 0
    requires minIndex + Leaves(NewMerkleTreeFromValue(val, minIndex).value) <= TWO_64
    ensures Numbered(NewMerkleTreeFromValue(val, minIndex).value, minIndex)
    decreases val
  {
    var t := NewMerkleTreeFromValue(val, minIndex).value;
    if t.Interior? {
      var next := minIndex + Leaves(t.left);
      LeavesPositive(t.left);
      LeavesPositive(t.right);
      ParsedTreeIsNumbered(val.items[0], minIndex);
      NumberedRange(t.left, minIndex);
      NoWrap(next);
      ParsedTreeIsNumbered(val.items[1], next);
      InteriorIsNumbered(t.left, t.right, minIndex);
    }
  }

  /** Exactly one child covers an index of the tree. */
  lemma OneChildCovers(t: Node, from: int, i: int)
    requires Numbered(t, from) && t.Interior? && t.ContainsIndex(i)
    ensures t.left.ContainsIndex(i) <==> !t.right.ContainsIndex(i)
  {
    NumberedRange(t, from);
    NumberedRange(t.left, from);
    NumberedRange(t.right, from + Leaves(t.left));
  }

  // ----- The value parsed -----

  /** A value that is a tree of sends: pairs of trees, down to triples with a size, room enough and contents. */
  predicate IsTreeValue(val: Value) {
    && val.TupleValue?
    && (|val.items| == 2 || |val.items| == 3)
    && (|val.items| == 2 ==> IsTreeValue(val.items[0]) && IsTreeValue(val.items[1]))
    && (|val.items| == 3 ==>
          val.items[0].IntValue? && val.items[1].BufferValue? && |val.items[1].contents| <= val.items[0].n % TWO_64)
  }

  /** The sends of a value from left to right, each with its size and its contents. */
  function SendsIn(val: Value): seq<(int, Bytes)>
    requires IsTreeValue(val)
  {
    if |val.items| == 2 then SendsIn(val.items[0]) + SendsIn(val.items[1])
    else [(val.items[0].n, val.items[1].contents)]
  }

  /** The contents, and zeros after them up to the size, which is read as 64 bits. */
  predicate IsPadded(data: Bytes, size: int, contents: Bytes) {
    && |contents| <= |data| == size % TWO_64
    && (forall j :: 0 <= j < |contents| ==> data[j] == contents[j])
    && (forall j :: |contents| <= j < |data| ==> data[j] == 0)
  }

  lemma {:induction false} EntriesAreSends(val: Value, minIndex: int)
    requires IsTreeValue(val)
    ensures NewMerkleTreeFromValue(val, minIndex).Ok?
    ensures var entries, sends := NewMerkleTreeFromValue(val, minIndex).value.Entries(), SendsIn(val);
      && |entries| == |sends|
      && forall k :: 0 <= k < |sends| ==> IsPadded(entries[k], sends[k].0, sends[k].1)
    decreases val
  {
    if |val.items| == 2 {
      EntriesAreSends(val.items[0], minIndex);
      var left := NewMerkleTreeFromValue(val.items[0], minIndex).value;
      EntriesAreSends(val.items[1], (left.Highest() + 1) % TWO_64);
    }
  }

  /** What is wrong with a value that is no tree, at its first fault from the left. */
  predicate HasFault(val: Value, e: TreeError) {
    if !val.TupleValue? then e == NotATuple
    else if |val.items| == 2 then
      HasFault(val.items[0], e) || (IsTreeValue(val.items[0]) && HasFault(val.items[1], e))
    else match e
      case WrongTupleLength => |val.items| != 3
      case SizeNotInt => |val.items| == 3 && !val.items[0].IntValue?
      case ContentsNotBuffer => |val.items| == 3 && val.items[0].IntValue? && !val.items[1].BufferValue?
      case BufferTooSmall =>
        && |val.items| == 3 && val.items[0].IntValue? && val.items[1].BufferValue?
        && |val.items[1].contents| > val.items[0].n % TWO_64
      case _ => false
  }

  /** Exactly the trees of sends are parsed, and an error tells the fault. */
  lemma {:induction false} ParsesTrees(val: Value, minIndex: int)
    ensures NewMerkleTreeFromValue(val, minIndex).Ok? <==> IsTreeValue(val)
    ensures NewMerkleTreeFromValue(val, minIndex).Err? ==> HasFault(val, NewMerkleTreeFromValue(val, minIndex).error)
    decreases val
  {
    if val.TupleValue? && |val.items| == 2 {
      ParsesTrees(val.items[0], minIndex);
      if IsTreeValue(val.items[0]) {
        var left := NewMerkleTreeFromValue(val.items[0], minIndex).value;
        ParsesTrees(val.items[1], (left.Highest() + 1) % TWO_64);
      }
    }
  }

  /** The root computed on the value itself. */
  function ValueHash(h: SendHasher, val: Value): Hash
    requires IsTreeValue(val)
  {
    if |val.items| == 2 then h.pair(ValueHash(h, val.items[0]), ValueHash(h, val.items[1]))
    else
      var contents := val.items[1].contents;
      h.single(h.inner(seq(val.items[0].n % TWO_64, j requires 0 <= j => if j < |contents| then contents[j] else 0)))
  }

  lemma {:induction false} HashIsOfValue(h: SendHasher, val: Value, minIndex: int)
    requires IsTreeValue(val)
    ensures NewMerkleTreeFromValue(val, minIndex).Ok?
    ensures HashOf(h, NewMerkleTreeFromValue(val, minIndex).value) == ValueHash(h, val)
    decreases val
  {
    if |val.items| == 2 {
      HashIsOfValue(h, val.items[0], minIndex);
      var left := NewMerkleTreeFromValue(val.items[0], minIndex).value;
      HashIsOfValue(h, val.items[1], (left.Highest() + 1) % TWO_64);
    } else {
      var contents := val.items[1].contents;
      assert NewMerkleTreeFromValue(val, minIndex).value.data
          == seq(val.items[0].n % TWO_64, j requires 0 <= j => if j < |contents| then contents[j] else 0);
    }
  }

  // ----- What the proofs prove -----

  /** A proof exists for exactly the indices of the tree, and carries the entry of its index. */
  lemma {:induction false} ProofsCoverEntries(h: SendHasher, t: Node, from: int, i: int)
    requires Numbered(t, from)
    ensures from <= i < from + Leaves(t) <==> WayDown(h, t, i).Ok?
    ensures |t.Entries()| == Leaves(t)
    ensures WayDown(h, t, i).Ok? ==> WayDown(h, t, i).value.data == t.Entries()[i - from]
  {
    LeavesPositive(t);
    if t.Interior? {
      var mid := from + Leaves(t.left);
      NumberedRange(t.left, from);
      NumberedRange(t.right, mid);
      LeavesPositive(t.left);
      ProofsCoverEntries(h, t.left, from, i);
      ProofsCoverEntries(h, t.right, mid, i);
    }
  }

  function Join(pair: PairHash, left: bool, node: Hash, sibling: Hash): Hash {
    if left then pair(node, sibling) else pair(sibling, node)
  }

  /** One more sibling at the far end of a proof is joined last. */
  lemma {:induction false} FoldOneMore(pair: PairHash, nodes: seq<Hash>, turns: seq<bool>, sibling: Hash, left: bool, item: Hash)
    requires |nodes| == |turns|
    ensures Fold(pair, nodes + [sibling], PathToInt(Reverse(turns + [left])), item)
         == Join(pair, left, Fold(pair, nodes, PathToInt(Reverse(turns)), item), sibling)
  {
    ProofStep(pair, nodes + [sibling], turns + [left], item);
    if nodes == [] {
      assert (turns + [left])[1..] == [] && (nodes + [sibling])[1..] == [];
    } else {
      assert (nodes + [sibling])[1..] == nodes[1..] + [sibling];
      assert (turns + [left])[1..] == turns[1..] + [left];
      ProofStep(pair, nodes, turns, item);
      FoldOneMore(pair, nodes[1..], turns[1..], sibling, left, Join(pair, turns[0], item, nodes[0]));
    }
  }

  lemma {:induction false} ReverseAppend<T>(a: seq<T>, b: seq<T>)
    ensures Reverse(a + b) == Reverse(b) + Reverse(a)
  {
  }

  lemma {:induction false} ReverseTwice<T>(s: seq<T>)
    ensures Reverse(Reverse(s)) == s
  {
  }

  /** Folding a leaf with its proof, reading the path as the number the node hands out, rebuilds the root. */
  lemma {:induction false} ProofRebuildsTree(h: SendHasher, t: Node, i: int)
    requires WayDown(h, t, i).Ok?
    ensures var p := WayDown(h, t, i).value;
      && |p.nodes| == |p.path|
      && Fold(h.pair, Reverse(p.nodes), PathToInt(p.path), LeafHash(h, p.data)) == HashOf(h, t)
  {
    if t.Interior? {
      var left := t.left.ContainsIndex(i);
      var child, other := if left then t.left else t.right, if left then t.right else t.left;
      ProofRebuildsTree(h, child, i);
      var p := WayDown(h, child, i).value;
      ReverseAppend([HashOf(h, other)], p.nodes);
      ReverseAppend(Reverse(p.path), [left]);
      ReverseTwice(p.path);
      FoldOneMore(h.pair, Reverse(p.nodes), Reverse(p.path), HashOf(h, other), left, LeafHash(h, p.data));
      assert Reverse([left]) == [left] && Reverse([HashOf(h, other)]) == [HashOf(h, other)];
    }
  }
}
