/** Byte strings, digests and the two hash functions of the tree.

    SHA-256 itself is a parameter `h` of every function and lemma below, so each statement
    holds for every function from byte strings to 32-byte digests.  Nothing assumes that `h`
    is injective (it cannot be).  A security claim reads "the claim holds, or this pair of
    byte strings, computed from the inputs, is a collision of `h`". */
module Hashing {
  newtype byte = i: int | 0 <= i < 256

  type Bytes = seq<byte>

  const HASH_SIZE: nat := 32

  type Digest = b: Bytes | |b| == HASH_SIZE witness seq(HASH_SIZE, _ => 0)

  type HashFn = Bytes -> Digest

  const LEAF_PREFIX: byte := 0x00
  const INTERNAL_PREFIX: byte := 0x01

  /** The byte string that is hashed for a leaf. */
  function LeafInput(data: Bytes): Bytes {
    [LEAF_PREFIX] + data
  }

  /** The byte string that is hashed for an internal node. */
  function NodeInput(left: Bytes, right: Bytes): Bytes {
    [INTERNAL_PREFIX] + (left + right)
  }

  function HashLeaf(h: HashFn, data: Bytes): Digest {
    h(LeafInput(data))
  }

  function HashChildren(h: HashFn, left: Bytes, right: Bytes): Digest {
    h(NodeInput(left, right))
  }

  datatype Pair = Pair(x: Bytes, y: Bytes)

  const NO_PAIR: Pair := Pair([], [])

  /** Two different inputs with the same hash. */
  predicate Collides(h: HashFn, p: Pair) {
    p.x != p.y && h(p.x) == h(p.y)
  }

  /** The first of two candidate pairs that collides. */
  function Either(h: HashFn, p: Pair, q: Pair): (c: Pair)
    ensures Collides(h, p) || Collides(h, q) <==> Collides(h, c)
  {
    if Collides(h, p) then p else q
  }

  function NodePair(l: Bytes, r: Bytes, l': Bytes, r': Bytes): Pair {
    Pair(NodeInput(l, r), NodeInput(l', r'))
  }

  /** Two equal nodes have equal children, unless their inputs collide: the concatenation can
      be split again as soon as one side of the cut has a known length. */
  lemma {:induction false} EqualNodes(h: HashFn, l: Bytes, r: Bytes, l': Bytes, r': Bytes)
    requires HashChildren(h, l, r) == HashChildren(h, l', r')
    ensures Collides(h, NodePair(l, r, l', r')) || l + r == l' + r'
    ensures Collides(h, NodePair(l, r, l', r')) || |l| + |r| == |l'| + |r'|
    ensures Collides(h, NodePair(l, r, l', r')) || (|l| == |l'| || |r| == |r'| ==> l == l' && r == r')
  {
    if !Collides(h, NodePair(l, r, l', r')) {
      assert l + r == NodeInput(l, r)[1..] == NodeInput(l', r')[1..] == l' + r';
      assert |l| + |r| == |l' + r'|;
      if |l| == |l'| || |r| == |r'| {
        assert l == (l + r)[..|l|] && r == (l + r)[|l|..];
      }
    }
  }
}
