/**
 How a disputed gas interval is cut into pieces. Three pieces of code compute the same partition: the
 validator's cut offsets (challenger.go), the node's chunk hashes (ethbridge/challenge.go) and the contract's
 chunk hashes (ChallengeLib.sol). All three are proved against `CutOffset` and `Chunks`.
 */
module Bisections {
  import opened Hashing
  import opened Merkle

  datatype Segment = Segment(start: int, length: int) {
    function End(): int {
      start + length
    }
  }

  datatype Bisection = Bisection(segment: Segment, cuts: seq<Hash>)

  /** Where piece `i` of `n` starts; the remainder of the division goes to the first piece. */
  function CutOffset(s: Segment, n: int, i: int): int
    requires n > 0
  {
    if i == 0 then s.start else s.start + s.length % n + i * (s.length / n)
  }

  function CutOffsets(s: Segment, n: int): (r: seq<int>)
    requires n > 0
    ensures |r| == n + 1
  {
    seq(n + 1, i => CutOffset(s, n, i))
  }

  function Chunk(h: Hasher, b: Bisection, i: nat): Hash
    requires i + 1 < |b.cuts|
  {
    var n := |b.cuts| - 1;
    var from, to := CutOffset(b.segment, n, i), CutOffset(b.segment, n, i + 1);
    h.chunk(from, to - from, b.cuts[i], b.cuts[i + 1])
  }

  function Chunks(h: Hasher, b: Bisection): (r: seq<Hash>)
    requires |b.cuts| > 1
    ensures |r| == |b.cuts| - 1
  {
    seq(|b.cuts| - 1, i requires 0 <= i < |b.cuts| - 1 => Chunk(h, b, i))
  }

  function CalculateBisectionChunkCount(segmentIndex: int, segmentCount: int, totalLength: int): int
    requires segmentCount > 0
  {
    totalLength / segmentCount + if segmentIndex == 0 then totalLength % segmentCount else 0
  }

  lemma NextOffset(s: Segment, n: int, i: int)
    requires n > 0 && i >= 0
    ensures CutOffset(s, n, i + 1) == CutOffset(s, n, i) + CalculateBisectionChunkCount(i, n, s.length)
  {
    var q := s.length / n;
    assert (i + 1) * q == i * q + q;
  }

  lemma ChunkIs(h: Hasher, b: Bisection, i: nat)
    requires i + 1 < |b.cuts|
    ensures var n := |b.cuts| - 1; var count := CalculateBisectionChunkCount(i, n, b.segment.length);
      && Chunks(h, b)[i] == h.chunk(CutOffset(b.segment, n, i), count, b.cuts[i], b.cuts[i + 1])
      && CutOffset(b.segment, n, i + 1) == CutOffset(b.segment, n, i) + count
  {
    NextOffset(b.segment, |b.cuts| - 1, i);
    assert Chunks(h, b)[i] == Chunk(h, b, i);
  }

  // ----- The validator -----

  method GenerateBisectionCutOffsets(s: Segment, subSegmentCount: int) returns (cutOffsets: seq<int>)
    requires subSegmentCount > 0
    ensures cutOffsets == CutOffsets(s, subSegmentCount)
  {
    var offset := s.start;
    cutOffsets := [];
    for i := 0 to subSegmentCount + 1
      invariant offset == CutOffset(s, subSegmentCount, i)
      invariant cutOffsets == CutOffsets(s, subSegmentCount)[..i]
    {
      cutOffsets := cutOffsets + [offset];
      var subSegmentLength := s.length / subSegmentCount;
      NextOffset(s, subSegmentCount, i);
      if i == 0 {
        subSegmentLength := subSegmentLength + s.length % subSegmentCount;
      }
      offset := offset + subSegmentLength;
    }
  }

  // ----- The node -----

  /** calculateBisectionTree: the layers of the tree over the chunk hashes. */
  method CalculateBisectionTree(h: Hasher, b: Bisection) returns (layers: seq<seq<Hash>>)
    requires |b.cuts| > 1
    ensures layers == Layers(h.pair, Chunks(h, b))
  {
    var segmentCount := |b.cuts| - 1;
    var chunks: seq<Hash> := [];
    var segmentStart := b.segment.start;
    for i := 0 to segmentCount
      invariant segmentStart == CutOffset(b.segment, segmentCount, i)
      invariant chunks == Chunks(h, b)[..i]
    {
      var segmentLength := CalculateBisectionChunkCount(i, segmentCount, b.segment.length);
      ChunkIs(h, b, i);
      chunks := chunks + [h.chunk(segmentStart, segmentLength, b.cuts[i], b.cuts[i + 1])];
      segmentStart := segmentStart + segmentLength;
    }
    assert chunks == Chunks(h, b);
    layers := NewMerkleTree(h.pair, chunks);
  }

  // ----- The contract -----

  /** ChallengeLib.updatedBisectionRoot. */
  method UpdatedBisectionRoot(h: Hasher, chainHashes: seq<Hash>, segmentStart: int, segmentLength: int)
    returns (root: Hash)
    requires |chainHashes| > 1
    ensures root == Root(h.pair, Chunks(h, Bisection(Segment(segmentStart, segmentLength), chainHashes)))
  {
    var bisectionCount := |chainHashes| - 1;
    ghost var b := Bisection(Segment(segmentStart, segmentLength), chainHashes);
    var chunkSize := segmentLength / bisectionCount + segmentLength % bisectionCount;
    var start := segmentStart;
    ChunkIs(h, b, 0);
    var hashes := [h.chunk(start, chunkSize, chainHashes[0], chainHashes[1])];
    start := start + chunkSize;
    chunkSize := segmentLength / bisectionCount;
    for i := 1 to bisectionCount
      invariant start == CutOffset(b.segment, bisectionCount, i)
      invariant hashes == Chunks(h, b)[..i]
    {
      ChunkIs(h, b, i);
      hashes := hashes + [h.chunk(start, chunkSize, chainHashes[i], chainHashes[i + 1])];
      start := start + chunkSize;
    }
    assert hashes == Chunks(h, b);
    root := GenerateRoot(h.pair, hashes);
  }

  // ----- Laws of the partition -----

  /** The offsets run from the start of the segment to its end, in order, and strictly when no piece is empty. */
  lemma OffsetsPartitionSegment(s: Segment, n: int)
    requires n > 0
    ensures CutOffset(s, n, 0) == s.start && CutOffset(s, n, n) == s.End()
    ensures s.length >= 0 ==> forall i, j :: 0 <= i <= j <= n ==> CutOffset(s, n, i) <= CutOffset(s, n, j)
    ensures n <= s.length ==> forall i, j :: 0 <= i < j <= n ==> CutOffset(s, n, i) < CutOffset(s, n, j)
  {
    var q, r := s.length / n, s.length % n;
    assert n * q + r == s.length;
    if s.length >= 0 {
      QuotientSign(s.length, n);
      forall i, j | 0 <= i <= j <= n
        ensures CutOffset(s, n, i) <= CutOffset(s, n, j)
        ensures n <= s.length && i < j ==> CutOffset(s, n, i) < CutOffset(s, n, j)
      {
        assert j * q - i * q == (j - i) * q;
        MulSign(j - i, q);
        MulSign(i, q);
      }
    }
  }

  lemma QuotientSign(l: int, n: int)
    requires n > 0 && l >= 0
    ensures l / n >= 0
    ensures n <= l ==> l / n >= 1
  {
  }

  lemma MulSign(a: int, q: int)
    requires a >= 0 && q >= 0
    ensures a * q >= 0
    ensures a > 0 && q > 0 ==> a * q > 0
  {
  }

  /** The longest piece is the first. */
  function FirstPiece(length: int, n: int): int
    requires n > 0
  {
    length / n + length % n
  }

  lemma PieceLength(s: Segment, n: int, i: int)
    requires n > 0 && s.length >= 0 && 0 <= i < n
    ensures 0 <= CutOffset(s, n, i + 1) - CutOffset(s, n, i) <= FirstPiece(s.length, n)
    ensures n <= s.length ==> CutOffset(s, n, i + 1) - CutOffset(s, n, i) >= 1
  {
    NextOffset(s, n, i);
    QuotientSign(s.length, n);
  }

  /** All pieces but the first are of one length, and the first is longer by less than the number of pieces. */
  lemma OnlyFirstPieceDiffers(s: Segment, n: int, i: int)
    requires n > 0 && 0 < i < n
    ensures var first, other := CutOffset(s, n, 1) - CutOffset(s, n, 0), CutOffset(s, n, i + 1) - CutOffset(s, n, i);
      0 <= first - other < n && first + (n - 1) * other == s.length
  {
    var q, r := s.length / n, s.length % n;
    NextOffset(s, n, 0);
    NextOffset(s, n, i);
    assert n * q + r == s.length && (n - 1) * q == n * q - q;
  }

  /** The number of pieces: the target degree, or one piece for each unit of gas in a shorter segment. */
  function Degree(length: int, target: int): int {
    if length < target then length else target
  }

  /** Dissecting at least halves a segment, whatever the target degree: the source of the logarithmic bound. */
  lemma PiecesHalve(length: int, target: int)
    requires length >= 2 && target >= 2
    ensures 2 * FirstPiece(length, Degree(length, target)) <= length + 1
    ensures 1 <= FirstPiece(length, Degree(length, target)) < length
  {
    var n := Degree(length, target);
    var q, r := length / n, length % n;
    assert n * q + r == length;
    if n == length {
      assert q == 1 && r == 0;
    } else {
      QuotientSign(length, n);
      HalvingBound(n, q, r);
    }
  }

  lemma HalvingBound(n: int, q: int, r: int)
    requires n >= 2 && q >= 1 && 0 <= r < n
    ensures 2 * (q + r) <= n * q + r + 1
    ensures q + r < n * q + r
  {
    MulSign(q - 1, n - 2);
    assert (q - 1) * (n - 2) == n * q - 2 * q - n + 2;
  }
}
