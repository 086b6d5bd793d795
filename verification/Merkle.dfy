/**
 The Merkle tree over the pieces of a bisection. The node builds it and extracts proofs in Go
 (packages/arb-util/protocol/merkleTree.go); the contract rebuilds the root and checks proofs in Solidity
 (packages/arb-bridge-eth/contracts/libraries/MerkleLib.sol). The tree need not be full: an unpaired last
 node moves up a layer unchanged.
 */
module Merkle {
  import opened Hashing

  type PairHash = (Hash, Hash) -> Hash

  // ----- Reference definitions -----

  function NextLayer(pair: PairHash, l: seq<Hash>): (r: seq<Hash>)
    ensures |r| == (|l| + 1) / 2
  {
    seq((|l| + 1) / 2, i requires 0 <= i < (|l| + 1) / 2 =>
      if 2 * i + 1 < |l| then pair(l[2 * i], l[2 * i + 1]) else l[2 * i])
  }

  function Layers(pair: PairHash, l: seq<Hash>): (r: seq<seq<Hash>>)
    ensures |r| > 0 && r[0] == l
    decreases |l|
  {
    if |l| <= 1 then [l] else [l] + Layers(pair, NextLayer(pair, l))
  }

  function Root(pair: PairHash, l: seq<Hash>): Hash
    requires |l| > 0
    decreases |l|
  {
    if |l| == 1 then l[0] else Root(pair, NextLayer(pair, l))
  }

  function PairIndex(i: nat): nat {
    if i % 2 == 0 then i + 1 else i - 1
  }

  function NodeAt(layer: seq<Hash>, at: nat): seq<Hash> {
    if PairIndex(at) < |layer| then [layer[PairIndex(at)]] else []
  }

  function TurnAt(layer: seq<Hash>, at: nat): seq<bool> {
    if PairIndex(at) < |layer| then [at % 2 == 0] else []
  }

  /** What GetProof's loop collects from some layers: the hash each node on the way is paired with, if any. */
  function NodesOf(layers: seq<seq<Hash>>, at: nat): seq<Hash> {
    if layers == [] then [] else NodeAt(layers[0], at) + NodesOf(layers[1..], at / 2)
  }

  function TurnsOf(layers: seq<seq<Hash>>, at: nat): seq<bool> {
    if layers == [] then [] else TurnAt(layers[0], at) + TurnsOf(layers[1..], at / 2)
  }

  /** The sibling hashes met on the way from leaf `i` to the root; a layer where the node is unpaired adds none. */
  function Siblings(pair: PairHash, l: seq<Hash>, i: nat): seq<Hash>
    decreases |l|
  {
    if |l| <= 1 then [] else NodeAt(l, i) + Siblings(pair, NextLayer(pair, l), i / 2)
  }

  /** For each sibling, leaf to root: is the node on the path the left one of its pair? */
  function Turns(pair: PairHash, l: seq<Hash>, i: nat): seq<bool>
    decreases |l|
  {
    if |l| <= 1 then [] else TurnAt(l, i) + Turns(pair, NextLayer(pair, l), i / 2)
  }

  function Bit(b: bool): nat {
    if b then 1 else 0
  }

  /** The number whose binary digits, most significant first, are `path`. */
  function PathToInt(path: seq<bool>): nat {
    if path == [] then 0 else 2 * PathToInt(path[..|path| - 1]) + Bit(path[|path| - 1])
  }

  function Reverse<T>(s: seq<T>): (r: seq<T>)
    ensures |r| == |s|
    ensures forall k :: 0 <= k < |s| ==> r[k] == s[|s| - 1 - k]
  {
    if s == [] then [] else Reverse(s[1..]) + [s[0]]
  }

  /** Rebuilds a root from a leaf, reading one turn from each bit of `route`, lowest first. */
  function Fold(pair: PairHash, nodes: seq<Hash>, route: nat, item: Hash): Hash {
    if nodes == [] then item
    else Fold(pair, nodes[1..], route / 2, if route % 2 == 0 then pair(nodes[0], item) else pair(item, nodes[0]))
  }

  function Pow2(k: nat): (r: nat)
    ensures r > 0
  {
    if k == 0 then 1 else 2 * Pow2(k - 1)
  }

  // ----- The Go tree -----

  /** The inner loop of NewMerkleTree. */
  method PairUp(pair: PairHash, elements: seq<Hash>) returns (nextLayer: seq<Hash>)
    ensures nextLayer == NextLayer(pair, elements)
  {
    nextLayer := [];
    for i := 0 to |elements|
      invariant nextLayer == NextLayer(pair, elements)[..(i + 1) / 2]
    {
      if i % 2 != 1 {
        if i + 1 >= |elements| {
          nextLayer := nextLayer + [elements[i]];
        } else {
          nextLayer := nextLayer + [pair(elements[i], elements[i + 1])];
        }
      }
    }
  }

  /** NewMerkleTree: the layers, leaves first. */
  method NewMerkleTree(pair: PairHash, elements: seq<Hash>) returns (layers: seq<seq<Hash>>)
    ensures layers == Layers(pair, elements)
  {
    layers := [elements];
    ghost var below: seq<seq<Hash>> := [];
    while |layers[|layers| - 1]| > 1
      invariant |layers| > 0 && layers == below + [layers[|layers| - 1]]
      invariant below + Layers(pair, layers[|layers| - 1]) == Layers(pair, elements)
      decreases |layers[|layers| - 1]|
    {
      var current := layers[|layers| - 1];
      var nextLayer := PairUp(pair, current);
      assert below + Layers(pair, current) == below + [current] + Layers(pair, nextLayer);
      below := below + [current];
      layers := layers + [nextLayer];
    }
  }

  /** The in-place reversal of a slice that GetProof and GenerateProof end with. */
  method ReverseSlice<T>(s: seq<T>) returns (r: seq<T>)
    ensures r == Reverse(s)
  {
    r := s;
    var i, j := 0, |s| - 1;
    while i < j
      invariant |r| == |s| && 0 <= i && j == |s| - 1 - i
      invariant i <= j + 1
      invariant forall k :: i <= k <= j ==> r[k] == s[k]
      invariant forall k :: 0 <= k < i ==> r[k] == s[|s| - 1 - k]
      invariant forall k :: j < k < |s| ==> r[k] == s[|s| - 1 - k]
    {
      var left, right := r[i], r[j];
      assert left == s[i] && right == s[j];
      r := r[i := right][j := left];
      i, j := i + 1, j - 1;
    }
  }

  method PathSliceToInt(path: seq<bool>) returns (route: nat)
    ensures route == PathToInt(path)
  {
    route := 0;
    for k := 0 to |path|
      invariant route == PathToInt(path[..k])
    {
      assert path[..k + 1][..k] == path[..k];
      route := route * 2;
      if path[k] {
        route := route + 1;
      }
    }
    assert path[..|path|] == path;
  }

  /** The loop of GetProof. */
  method CollectProof(layers: seq<seq<Hash>>, index: nat) returns (proof: seq<Hash>, path: seq<bool>)
    ensures proof == NodesOf(layers, index) && path == TurnsOf(layers, index)
  {
    proof, path := [], [];
    var at := index;
    assert layers[0..] == layers;
    for k := 0 to |layers|
      invariant 0 <= at
      invariant proof + NodesOf(layers[k..], at) == NodesOf(layers, index)
      invariant path + TurnsOf(layers[k..], at) == TurnsOf(layers, index)
    {
      assert layers[k..][0] == layers[k] && layers[k..][1..] == layers[k + 1..];
      Associate(proof, NodeAt(layers[k], at), NodesOf(layers[k + 1..], at / 2));
      Associate(path, TurnAt(layers[k], at), TurnsOf(layers[k + 1..], at / 2));
      var pairIndex := if at % 2 == 0 then at + 1 else at - 1;
      if pairIndex < |layers[k]| {
        path := path + [at % 2 == 0];
        proof := proof + [layers[k][pairIndex]];
      }
      at := at / 2;
    }
  }

  /** Over the layers of a tree the loop collects the way from a leaf to the root. */
  lemma {:induction false} LayersTellPath(pair: PairHash, l: seq<Hash>, at: nat)
    requires at < |l|
    ensures NodesOf(Layers(pair, l), at) == Siblings(pair, l, at)
    ensures TurnsOf(Layers(pair, l), at) == Turns(pair, l, at)
    decreases |l|
  {
    if |l| > 1 {
      var next := NextLayer(pair, l);
      assert Layers(pair, l)[1..] == Layers(pair, next);
      LayersTellPath(pair, next, at / 2);
    }
  }

  /** GetProof on a tree built by NewMerkleTree from `elements`. */
  method GetProof(pair: PairHash, layers: seq<seq<Hash>>, ghost elements: seq<Hash>, index: nat)
    returns (proof: seq<Hash>, route: nat)
    requires layers == Layers(pair, elements)
    requires index < |elements|
    ensures proof == Siblings(pair, elements, index)
    ensures route == PathToInt(Reverse(Turns(pair, elements, index)))
  {
    if index == 0 && |layers| == 1 {
      assert |elements| == 1;
      return [], 0;
    }
    LayersTellPath(pair, elements, index);
    var nodes, path := CollectProof(layers, index);
    var reversed := ReverseSlice(path);
    proof := nodes;
    route := PathSliceToInt(reversed);
  }

  // ----- The Solidity library -----

  /** The inner loop of generateRoot. */
  method NextSolidityLayer(pair: PairHash, prevLayer: seq<Hash>) returns (nextLayer: seq<Hash>)
    ensures nextLayer == NextLayer(pair, prevLayer)
  {
    nextLayer := [];
    for i := 0 to (|prevLayer| + 1) / 2
      invariant nextLayer == NextLayer(pair, prevLayer)[..i]
    {
      if 2 * i + 1 < |prevLayer| {
        nextLayer := nextLayer + [pair(prevLayer[2 * i], prevLayer[2 * i + 1])];
      } else {
        nextLayer := nextLayer + [prevLayer[2 * i]];
      }
    }
  }

  method GenerateRoot(pair: PairHash, hashes: seq<Hash>) returns (root: Hash)
    requires |hashes| > 0
    ensures root == Root(pair, hashes)
  {
    var prevLayer := hashes;
    while |prevLayer| > 1
      invariant |prevLayer| > 0 && Root(pair, prevLayer) == Root(pair, hashes)
      decreases |prevLayer|
    {
      var nextLayer := NextSolidityLayer(pair, prevLayer);
      prevLayer := nextLayer;
    }
    root := prevLayer[0];
  }

  /** calculateRoot; None is the revert on a proof of more than 256 nodes. */
  method CalculateRoot(pair: PairHash, nodes: seq<Hash>, route: nat, item: Hash) returns (root: Option<Hash>)
    ensures root == if |nodes| <= 256 then Some(Fold(pair, nodes, route, item)) else None
  {
    if |nodes| > 256 {
      return None;
    }
    var h, bits := item, route;
    for i := 0 to |nodes|
      invariant Fold(pair, nodes[i..], bits, h) == Fold(pair, nodes, route, item)
    {
      assert nodes[i..][1..] == nodes[i + 1..];
      if bits % 2 == 0 {
        h := pair(nodes[i], h);
      } else {
        h := pair(h, nodes[i]);
      }
      bits := bits / 2;
    }
    root := Some(h);
  }

  // ----- What the proofs prove -----

  /** Left before right, an odd one moved up as it is, and a bit of the route set where the proven node is on the left. */
  lemma SmallTrees(pair: PairHash, a: Hash, b: Hash, c: Hash, d: Hash)
    ensures Root(pair, [a]) == a && Root(pair, [a, b]) == pair(a, b)
    ensures Root(pair, [a, b, c]) == pair(pair(a, b), c)
    ensures Root(pair, [a, b, c, d]) == pair(pair(a, b), pair(c, d))
    ensures Fold(pair, [b], 0, a) == pair(b, a) && Fold(pair, [b], 1, a) == pair(a, b)
    ensures Fold(pair, [b, c], 1, a) == pair(c, pair(a, b)) && Fold(pair, [b, c], 2, a) == pair(pair(b, a), c)
  {
    RootOfTwo(pair, a, b);
    assert NextLayer(pair, [a, b, c]) == [pair(a, b), c];
    RootOfTwo(pair, pair(a, b), c);
    assert NextLayer(pair, [a, b, c, d]) == [pair(a, b), pair(c, d)];
    RootOfTwo(pair, pair(a, b), pair(c, d));
    assert [b, c][1..] == [c] && [c][1..] == [];
    assert Fold(pair, [b, c], 1, a) == Fold(pair, [c], 0, pair(a, b));
    assert Fold(pair, [b, c], 2, a) == Fold(pair, [c], 1, pair(b, a));
  }

  lemma RootOfTwo(pair: PairHash, a: Hash, b: Hash)
    ensures Root(pair, [a, b]) == pair(a, b)
  {
    assert NextLayer(pair, [a, b]) == [pair(a, b)];
  }

  /** Reading the reversed path as a number puts the turn nearest the leaf in the lowest bit. */
  lemma RouteLowestBit(turns: seq<bool>)
    requires turns != []
    ensures PathToInt(Reverse(turns)) == Bit(turns[0]) + 2 * PathToInt(Reverse(turns[1..]))
  {
    var r := Reverse(turns);
    assert r[..|r| - 1] == Reverse(turns[1..]);
  }

  /** The node's tree and the contract's layer loop end at the same root. */
  lemma {:induction false} TreeEndsAtRoot(pair: PairHash, l: seq<Hash>)
    requires |l| > 0
    ensures Layers(pair, l)[|Layers(pair, l)| - 1] == [Root(pair, l)]
    decreases |l|
  {
    if |l| > 1 {
      TreeEndsAtRoot(pair, NextLayer(pair, l));
    }
  }

  lemma FoldOnce(pair: PairHash, nodes: seq<Hash>, left: bool, route: nat, item: Hash)
    requires nodes != []
    ensures Fold(pair, nodes, Bit(left) + 2 * route, item)
         == Fold(pair, nodes[1..], route, if left then pair(item, nodes[0]) else pair(nodes[0], item))
  {
    var whole := Bit(left) + 2 * route;
    assert whole / 2 == route && (whole % 2 == 0 <==> !left);
  }

  lemma ProofStep(pair: PairHash, nodes: seq<Hash>, turns: seq<bool>, item: Hash)
    requires nodes != [] && turns != []
    ensures Fold(pair, nodes, PathToInt(Reverse(turns)), item)
         == Fold(pair, nodes[1..], PathToInt(Reverse(turns[1..])),
                 if turns[0] then pair(item, nodes[0]) else pair(nodes[0], item))
  {
    RouteLowestBit(turns);
    FoldOnce(pair, nodes, turns[0], PathToInt(Reverse(turns[1..])), item);
  }

  /** The parent of node `i` is the hash of its pair, or the node itself when it has no pair. */
  lemma ParentOf(pair: PairHash, l: seq<Hash>, i: nat)
    requires i < |l| && |l| > 1
    ensures i / 2 < |NextLayer(pair, l)|
    ensures NextLayer(pair, l)[i / 2] ==
      if PairIndex(i) >= |l| then l[i]
      else if i % 2 == 0 then pair(l[i], l[PairIndex(i)])
      else pair(l[PairIndex(i)], l[i])
  {
  }

  /** One layer up, a proof loses its first node if there is one in that layer. */
  lemma FoldOneLayer(pair: PairHash, layer: seq<Hash>, at: nat, nodes: seq<Hash>, turns: seq<bool>)
    requires at < |layer| && |layer| > 1
    ensures at / 2 < |NextLayer(pair, layer)|
    ensures Fold(pair, NodeAt(layer, at) + nodes, PathToInt(Reverse(TurnAt(layer, at) + turns)), layer[at])
         == Fold(pair, nodes, PathToInt(Reverse(turns)), NextLayer(pair, layer)[at / 2])
  {
    ParentOf(pair, layer, at);
    if PairIndex(at) < |layer| {
      var all, allTurns := [layer[PairIndex(at)]] + nodes, [at % 2 == 0] + turns;
      assert all[1..] == nodes && allTurns[1..] == turns;
      ProofStep(pair, all, allTurns, layer[at]);
    } else {
      assert [] + nodes == nodes && [] + turns == turns;
    }
  }

  /** Completeness: the proof extracted for any leaf of any nonempty tree folds back to the root. */
  lemma {:induction false} ProofRebuildsRoot(pair: PairHash, l: seq<Hash>, i: nat)
    requires i < |l|
    ensures Fold(pair, Siblings(pair, l, i), PathToInt(Reverse(Turns(pair, l, i))), l[i]) == Root(pair, l)
    decreases |l|
  {
    if |l| > 1 {
      var next := NextLayer(pair, l);
      FoldOneLayer(pair, l, i, Siblings(pair, next, i / 2), Turns(pair, next, i / 2));
      ProofRebuildsRoot(pair, next, i / 2);
    }
  }

  /** Halvings, rounding up, until at most 1 is left. */
  function Rounds(length: int): (r: nat)
    decreases length
  {
    if length <= 1 then 0 else 1 + Rounds((length + 1) / 2)
  }

  /** Rounds is the base-2 logarithm, rounded up. */
  lemma {:induction false} RoundsIsLog(length: int, k: nat)
    ensures Rounds(length) <= k <==> length <= Pow2(k)
  {
    if length > 1 && k > 0 {
      RoundsIsLog((length + 1) / 2, k - 1);
    }
  }

  lemma {:induction false} ProofFitsRounds(pair: PairHash, l: seq<Hash>, i: nat)
    ensures |Siblings(pair, l, i)| <= Rounds(|l|)
    decreases |l|
  {
    if |l| > 1 {
      ProofFitsRounds(pair, NextLayer(pair, l), i / 2);
    }
  }

  /** A tree of at most 2^k leaves has proofs of at most k nodes. */
  lemma ProofIsShort(pair: PairHash, l: seq<Hash>, i: nat, k: nat)
    requires |l| <= Pow2(k)
    ensures |Siblings(pair, l, i)| <= k
  {
    ProofFitsRounds(pair, l, i);
    RoundsIsLog(|l|, k);
  }

  lemma PairParts(pair: PairHash, a: Hash, b: Hash, c: Hash, d: Hash)
    requires PairInjective(pair) && pair(a, b) == pair(c, d)
    ensures a == c && b == d
  {
  }

  lemma RootOfNext(pair: PairHash, l: seq<Hash>)
    requires |l| > 0
    ensures Root(pair, NextLayer(pair, l)) == Root(pair, l)
  {
    if |l| == 1 {
      assert NextLayer(pair, l) == l;
    }
  }

  lemma NextOfParts(pair: PairHash, l: seq<Hash>, k: nat)
    requires 0 < k < |NextLayer(pair, l)|
    ensures 2 * k < |l|
    ensures NextLayer(pair, l[..2 * k]) == NextLayer(pair, l)[..k]
    ensures NextLayer(pair, l[2 * k..]) == NextLayer(pair, l)[k..]
  {
  }

  /** A root over more than one leaf is the hash of the roots over two parts. */
  lemma {:induction false} RootSplits(pair: PairHash, l: seq<Hash>) returns (m: nat)
    requires |l| > 1
    ensures 0 < m < |l|
    ensures Root(pair, l) == pair(Root(pair, l[..m]), Root(pair, l[m..]))
    decreases |l|
  {
    var next := NextLayer(pair, l);
    if |next| == 1 {
      m := 1;
    } else {
      var k := RootSplits(pair, next);
      m := 2 * k;
      NextOfParts(pair, l, k);
      RootOfNext(pair, l[..m]);
      RootOfNext(pair, l[m..]);
    }
  }

  lemma BothSingle(pair: PairHash, a: seq<Hash>, b: seq<Hash>)
    requires |a| > 0 && |b| == 1 && Root(pair, a) == Root(pair, b)
    requires forall x, y :: pair(x, y) !in b
    ensures |a| == 1
  {
    assert b[0] in b;
    if |a| > 1 {
      var m := RootSplits(pair, a);
    }
  }

  /** Binding: lists without pair hashes, of whatever lengths, that have the same root are the same. */
  lemma {:induction false} RootIsBinding(pair: PairHash, a: seq<Hash>, b: seq<Hash>)
    requires PairInjective(pair) && |a| > 0 && |b| > 0 && Root(pair, a) == Root(pair, b)
    requires forall x, y :: pair(x, y) !in a && pair(x, y) !in b
    ensures a == b
    decreases |a|
  {
    if |b| == 1 {
      BothSingle(pair, a, b);
    } else if |a| == 1 {
      BothSingle(pair, b, a);
    } else {
      var m := RootSplits(pair, a);
      var n := RootSplits(pair, b);
      PairParts(pair, Root(pair, a[..m]), Root(pair, a[m..]), Root(pair, b[..n]), Root(pair, b[n..]));
      RootIsBinding(pair, a[..m], b[..n]);
      RootIsBinding(pair, a[m..], b[n..]);
      assert a == a[..m] + a[m..] && b == b[..n] + b[n..];
    }
  }

  ghost predicate InTree(pair: PairHash, l: seq<Hash>, x: Hash)
    decreases |l|
  {
    x in l || (|l| > 1 && InTree(pair, NextLayer(pair, l), x))
  }

  lemma {:induction false} RootInTree(pair: PairHash, l: seq<Hash>)
    requires |l| > 0
    ensures InTree(pair, l, Root(pair, l))
    decreases |l|
  {
    if |l| > 1 {
      RootInTree(pair, NextLayer(pair, l));
    }
  }

  /** Every node of the tree is a leaf or the hash of two nodes of the tree. */
  lemma {:induction false} NodeSplits(pair: PairHash, l: seq<Hash>, x: Hash) returns (a: Hash, b: Hash)
    requires InTree(pair, l, x)
    ensures x in l || (x == pair(a, b) && InTree(pair, l, a) && InTree(pair, l, b))
    decreases |l|
  {
    a, b := 0, 0;
    if x !in l {
      var next := NextLayer(pair, l);
      a, b := NodeSplits(pair, next, x);
      if x in next {
        var k :| 0 <= k < |next| && next[k] == x;
        a, b := l[2 * k], if 2 * k + 1 < |l| then l[2 * k + 1] else 0;
      }
    }
  }

  /** If a fold ends inside the tree, and leaves are never hashes of pairs, it also started inside. */
  lemma {:induction false} FoldStaysInTree(pair: PairHash, l: seq<Hash>, nodes: seq<Hash>, route: nat, item: Hash)
    requires PairInjective(pair)
    requires forall a, b :: pair(a, b) !in l
    requires InTree(pair, l, Fold(pair, nodes, route, item))
    ensures InTree(pair, l, item)
  {
    if nodes != [] {
      var up := if route % 2 == 0 then pair(nodes[0], item) else pair(item, nodes[0]);
      FoldStaysInTree(pair, l, nodes[1..], route / 2, up);
      var a, b := NodeSplits(pair, l, up);
      if route % 2 == 0 {
        PairParts(pair, nodes[0], item, a, b);
      } else {
        PairParts(pair, item, nodes[0], a, b);
      }
    }
  }

  /** Soundness: an item that is not itself the hash of a pair can only be proved against a root if it is a leaf. */
  lemma ProvenItemIsLeaf(pair: PairHash, l: seq<Hash>, nodes: seq<Hash>, route: nat, item: Hash)
    requires |l| > 0
    requires PairInjective(pair)
    requires forall a, b :: pair(a, b) !in l
    requires forall a, b :: pair(a, b) != item
    requires Fold(pair, nodes, route, item) == Root(pair, l)
    ensures item in l
  {
    RootInTree(pair, l);
    FoldStaysInTree(pair, l, nodes, route, item);
    var a, b := NodeSplits(pair, l, item);
  }
}
