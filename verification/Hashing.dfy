/** Bytes, words, hash functions, the two small result types and the one fact of sequences every other module uses. */
module Hashing {

  datatype Option<+T> = None | Some(value: T)

  datatype Result<+T, +E> = Ok(value: T) | Err(error: E)

  /** Concatenation associates, and the empty sequence is its unit. */
  lemma Associate<T>(a: seq<T>, b: seq<T>, c: seq<T>)
    ensures (a + b) + c == a + (b + c)
    ensures a + [] == a && [] + c == c
  {
  }

  newtype byte = x: int | 0 <= x < 0x100
  type Bytes = seq<byte>

  const TWO_64: int := 0x1_0000_0000_0000_0000
  const TWO_256: int := 0x1_0000_0000_0000_0000_0000_0000_0000_0000_0000_0000_0000_0000_0000_0000_0000_0000

  /** A 32-byte word. */
  type Hash = int

  /** The all-zero word: the cut of a state that cannot be reached, and the contract's "no move possible". */
  const ZERO_HASH: Hash := 0

  /** The keccak calls of the challenge, one function for each layout of hashed fields. */
  datatype Hasher = Hasher(
    pair: (Hash, Hash) -> Hash,
    chunk: (int, int, Hash, Hash) -> Hash,
    assertion: (int, Hash) -> Hash,
    rest: (int, Hash, Hash, int, Hash, int) -> Hash)

  /** No execution state hashes to the word that stands for "unreachable". */
  ghost predicate NeverUnreachable(h: Hasher) {
    forall gas, rest :: h.assertion(gas, rest) != ZERO_HASH
  }

  ghost predicate PairInjective(pair: (Hash, Hash) -> Hash) {
    forall a, b, c, d :: pair(a, b) == pair(c, d) ==> a == c && b == d
  }

  ghost predicate ChunkInjective(h: Hasher) {
    forall s, l, a, b, s', l', a', b' ::
      h.chunk(s, l, a, b) == h.chunk(s', l', a', b') ==> s == s' && l == l' && a == a' && b == b'
  }

  ghost predicate AssertionInjective(h: Hasher) {
    forall g, r, g', r' :: h.assertion(g, r) == h.assertion(g', r') ==> g == g' && r == r'
  }

  ghost predicate RestInjective(h: Hasher) {
    forall m, x, s, c, l, d, m', x', s', c', l', d' ::
      h.rest(m, x, s, c, l, d) == h.rest(m', x', s', c', l', d') ==>
        m == m' && x == x' && s == s' && c == c' && l == l' && d == d'
  }

  /** Hashes of chunks (128 bytes) and of pairs of nodes (64 bytes) never coincide, and neither is zero. */
  ghost predicate ChunksAreNotPairs(h: Hasher) {
    && (forall s, l, a, b, c, d :: h.chunk(s, l, a, b) != h.pair(c, d))
    && (forall s, l, a, b :: h.chunk(s, l, a, b) != ZERO_HASH)
    && (forall a, b :: h.pair(a, b) != ZERO_HASH)
  }

  /** Collision resistance, idealised. Only the results about what an opponent can do need it. */
  ghost predicate CollisionFree(h: Hasher) {
    && NeverUnreachable(h)
    && PairInjective(h.pair)
    && ChunkInjective(h)
    && AssertionInjective(h)
    && RestInjective(h)
    && ChunksAreNotPairs(h)
  }

  lemma ChunkParts(h: Hasher, s: int, l: int, a: Hash, b: Hash, s': int, l': int, a': Hash, b': Hash)
    requires ChunkInjective(h) && h.chunk(s, l, a, b) == h.chunk(s', l', a', b')
    ensures s == s' && l == l' && a == a' && b == b'
  {
  }

  lemma ChunkIsNotPair(h: Hasher, s: int, l: int, a: Hash, b: Hash, c: Hash, d: Hash)
    requires ChunksAreNotPairs(h)
    ensures h.chunk(s, l, a, b) != h.pair(c, d) && h.chunk(s, l, a, b) != ZERO_HASH && h.pair(c, d) != ZERO_HASH
  {
  }
}
