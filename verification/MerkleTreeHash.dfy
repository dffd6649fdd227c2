/** The Merkle Tree Hash of section 2.1 of RFC 6962, and the bridge between its top-down
    definition and the level-by-level walk of the verifiers.

    The recursions of the source work on windows of one leaf list; a window is given here by
    its two ends. */
module MerkleTreeHash {
  import opened Hashing

  predicate IsPowerOfTwo(n: nat) {
    n == 1 || (n > 0 && n % 2 == 0 && IsPowerOfTwo(n / 2))
  }

  /** The size of the next level up: pairs are joined, an odd last node is promoted. */
  function HalfUp(n: nat): nat {
    (n + 1) / 2
  }

  /** Doubling k as long as it stays below n. */
  function Doubled(k: nat, n: nat): (r: nat)
    requires 0 < k < n
    ensures k <= r < n <= 2 * r
    decreases n - k
  {
    if 2 * k < n then Doubled(2 * k, n) else k
  }

  /** The split point of a tree with n leaves. */
  function SplitPoint(n: nat): (k: nat)
    requires n >= 2
    ensures 0 < k < n <= 2 * k
  {
    Doubled(1, n)
  }

  lemma {:induction false} DoubledHalf(k: nat, n: nat)
    requires 0 < k && 2 * k < n
    ensures Doubled(2 * k, n) == 2 * Doubled(k, HalfUp(n))
    decreases n - k
  {
    if 4 * k < n {
      DoubledHalf(2 * k, n);
    }
  }

  /** The split point halves from level to level. */
  lemma {:induction false} SplitPointUp(n: nat)
    requires n > 2
    ensures SplitPoint(n) == 2 * SplitPoint(HalfUp(n))
  {
    DoubledHalf(1, n);
  }

  /** Of two different powers of two, the larger is at least twice the smaller. */
  lemma {:induction false} PowersApart(k: nat, l: nat)
    requires IsPowerOfTwo(k) && IsPowerOfTwo(l) && k < l
    ensures 2 * k <= l
  {
    if k > 1 {
      PowersApart(k / 2, l / 2);
    }
  }

  /** The loop of the source returns the one power of two k with k < n <= 2 * k. */
  method LargestPowerOfTwoLessThan(n: nat) returns (k: nat)
    requires n >= 2
    ensures k == SplitPoint(n)
    ensures IsPowerOfTwo(k) && k < n
    ensures forall l: nat :: IsPowerOfTwo(l) && l < n ==> l <= k
  {
    k := 1;
    while 2 * k < n
      invariant IsPowerOfTwo(k) && k < n
      invariant Doubled(k, n) == SplitPoint(n)
    {
      k := 2 * k;
    }
    forall l: nat | IsPowerOfTwo(l) && l < n
      ensures l <= k
    {
      if k < l {
        PowersApart(k, l);
      }
    }
  }

  /** The Merkle Tree Hash of the leaves from lo up to hi. */
  function Mth(h: HashFn, leaves: seq<Digest>, lo: nat, hi: nat): Digest
    requires lo <= hi <= |leaves|
    decreases hi - lo
  {
    if lo == hi then h([])
    else if lo + 1 == hi then leaves[lo]
    else
      var mid := lo + SplitPoint(hi - lo);
      HashChildren(h, Mth(h, leaves, lo, mid), Mth(h, leaves, mid, hi))
  }

  /** The root of a whole tree. */
  function Root(h: HashFn, leaves: seq<Digest>): Digest {
    Mth(h, leaves, 0, |leaves|)
  }

  /** The i-th node of the level above `level`. */
  function Parent(h: HashFn, level: seq<Digest>, i: nat): Digest
    requires i < HalfUp(|level|)
  {
    if 2 * i + 1 < |level| then HashChildren(h, level[2 * i], level[2 * i + 1]) else level[2 * i]
  }

  /** Hash adjacent pairs and promote an odd last node. */
  function Up(h: HashFn, level: seq<Digest>): (up: seq<Digest>)
    ensures |up| == HalfUp(|level|)
    ensures forall i {:trigger Parent(h, level, i)} :: 0 <= i < |up| ==> up[i] == Parent(h, level, i)
  {
    seq(HalfUp(|level|), i requires 0 <= i < HalfUp(|level|) => Parent(h, level, i))
  }

  /** A window that starts at a pair and ends at a pair, or at the end of the level. */
  predicate Aligned(level: seq<Digest>, lo: nat, hi: nat, i: nat, j: nat) {
    lo == 2 * i && lo < hi <= |level| && (hi == 2 * j || (hi == 2 * j - 1 && hi == |level|))
  }

  /** The two halves of an aligned window are aligned. */
  lemma {:induction false} HalvesAligned(level: seq<Digest>, lo: nat, hi: nat, i: nat, j: nat)
    requires Aligned(level, lo, hi, i, j) && hi - lo > 2
    ensures j - i >= 2
    ensures var mid, up := lo + SplitPoint(hi - lo), i + SplitPoint(j - i);
            Aligned(level, lo, mid, i, up) && Aligned(level, mid, hi, up, j)
  {
    assert HalfUp(hi - lo) == j - i;
    SplitPointUp(hi - lo);
  }

  /** Going up one level keeps the hash of every aligned window. */
  lemma {:induction false} MthUp(h: HashFn, leaves: seq<Digest>, lo: nat, hi: nat, i: nat, j: nat)
    requires Aligned(leaves, lo, hi, i, j)
    ensures Mth(h, Up(h, leaves), i, j) == Mth(h, leaves, lo, hi)
    decreases hi - lo
  {
    if hi - lo <= 2 {
      assert Up(h, leaves)[i] == Parent(h, leaves, i);
    } else {
      var mid, up := lo + SplitPoint(hi - lo), i + SplitPoint(j - i);
      HalvesAligned(leaves, lo, hi, i, j);
      MthUp(h, leaves, lo, mid, i, up);
      MthUp(h, leaves, mid, hi, up, j);
      EqualHalves(h, Up(h, leaves), i, up, j, leaves, lo, mid, hi);
    }
  }

  /** Windows with equal halves have equal hashes. */
  lemma {:induction false} EqualHalves(h: HashFn, a: seq<Digest>, i: nat, m: nat, j: nat, b: seq<Digest>, lo: nat,
                                       mid: nat, hi: nat)
    requires i + 1 < j <= |a| && m == i + SplitPoint(j - i)
    requires lo + 1 < hi <= |b| && mid == lo + SplitPoint(hi - lo)
    requires Mth(h, a, i, m) == Mth(h, b, lo, mid) && Mth(h, a, m, j) == Mth(h, b, mid, hi)
    ensures Mth(h, a, i, j) == Mth(h, b, lo, hi)
  {
  }

  /** Top-down equals bottom-up: hashing adjacent pairs, with an odd last node promoted, keeps
      the root. */
  lemma {:induction false} RootUp(h: HashFn, leaves: seq<Digest>)
    ensures Root(h, Up(h, leaves)) == Root(h, leaves)
  {
    if |leaves| > 0 {
      MthUp(h, leaves, 0, |leaves|, 0, HalfUp(|leaves|));
    }
  }

  /** Where equal parents of different pairs hide a collision: the first j pairs of two levels. */
  function PairsCollision(h: HashFn, a: seq<Digest>, b: seq<Digest>, j: nat): Pair
    requires 2 * j <= |a| && 2 * j <= |b|
  {
    if j == 0 then NO_PAIR
    else
      var t := 2 * j - 2;
      Either(h, NodePair(a[t], a[t + 1], b[t], b[t + 1]), PairsCollision(h, a, b, j - 1))
  }

  lemma {:induction false} PairsInjective(h: HashFn, a: seq<Digest>, b: seq<Digest>, j: nat)
    requires 2 * j <= |a| && 2 * j <= |b|
    requires Up(h, a)[..j] == Up(h, b)[..j]
    ensures a[..2 * j] == b[..2 * j] || Collides(h, PairsCollision(h, a, b, j))
  {
    if j > 0 {
      var t := 2 * j - 2;
      assert Up(h, a)[..j - 1] == Up(h, a)[..j][..j - 1] == Up(h, b)[..j - 1];
      PairsInjective(h, a, b, j - 1);
      assert Parent(h, a, j - 1) == Up(h, a)[..j][j - 1] == Up(h, b)[..j][j - 1] == Parent(h, b, j - 1);
      EqualNodes(h, a[t], a[t + 1], b[t], b[t + 1]);
      assert a[..2 * j] == a[..t] + [a[t], a[t + 1]] && b[..2 * j] == b[..t] + [b[t], b[t + 1]];
    }
  }

  /** Where two leaf lists of the same length with the same root hide a collision. */
  function RootCollision(h: HashFn, a: seq<Digest>, b: seq<Digest>): Pair
    requires |a| == |b|
    decreases |a|
  {
    if |a| < 2 then NO_PAIR
    else Either(h, PairsCollision(h, a, b, |a| / 2), RootCollision(h, Up(h, a), Up(h, b)))
  }

  /** Equal roots of equal sizes mean equal leaves. */
  lemma {:induction false} RootInjective(h: HashFn, a: seq<Digest>, b: seq<Digest>)
    requires |a| == |b| && Root(h, a) == Root(h, b)
    ensures a == b || Collides(h, RootCollision(h, a, b))
    decreases |a|
  {
    if |a| >= 2 {
      var j := |a| / 2;
      RootUp(h, a);
      RootUp(h, b);
      RootInjective(h, Up(h, a), Up(h, b));
      if Up(h, a) == Up(h, b) {
        PairsInjective(h, a, b, j);
        if |a| == 2 * j + 1 {
          assert Parent(h, a, j) == Up(h, a)[j] == Up(h, b)[j] == Parent(h, b, j);
          assert a == a[..2 * j] + [a[2 * j]] && b == b[..2 * j] + [b[2 * j]];
        }
      }
    }
  }

  /** The leaf hashes of a log of payloads. */
  function LeafHashes(h: HashFn, log: seq<Bytes>): (leaves: seq<Digest>)
    ensures |leaves| == |log|
    ensures forall i :: 0 <= i < |log| ==> leaves[i] == HashLeaf(h, log[i])
  {
    seq(|log|, i requires 0 <= i < |log| => HashLeaf(h, log[i]))
  }

  function LogRoot(h: HashFn, log: seq<Bytes>): Digest {
    Root(h, LeafHashes(h, log))
  }

  /** The hash tree over a log, with the payloads at its leaves. */
  datatype Tree = Empty | Leaf(data: Bytes) | Node(left: Tree, right: Tree)

  function Shape(log: seq<Bytes>, lo: nat, hi: nat): Tree
    requires lo <= hi <= |log|
    decreases hi - lo
  {
    if lo == hi then Empty
    else if lo + 1 == hi then Leaf(log[lo])
    else
      var mid := lo + SplitPoint(hi - lo);
      Node(Shape(log, lo, mid), Shape(log, mid, hi))
  }

  function Payloads(t: Tree): seq<Bytes> {
    match t
    case Empty => []
    case Leaf(data) => [data]
    case Node(l, r) => Payloads(l) + Payloads(r)
  }

  /** The byte string whose hash is the root of a tree. */
  function Input(h: HashFn, t: Tree): Bytes
    decreases t, 0
  {
    match t
    case Empty => []
    case Leaf(data) => LeafInput(data)
    case Node(l, r) => NodeInput(TreeHash(h, l), TreeHash(h, r))
  }

  function TreeHash(h: HashFn, t: Tree): Digest
    decreases t, 1
  {
    h(Input(h, t))
  }

  lemma {:induction false} ShapeHash(h: HashFn, log: seq<Bytes>, lo: nat, hi: nat)
    requires lo <= hi <= |log|
    ensures TreeHash(h, Shape(log, lo, hi)) == Mth(h, LeafHashes(h, log), lo, hi)
    ensures Payloads(Shape(log, lo, hi)) == log[lo..hi]
    decreases hi - lo
  {
    if lo + 1 < hi {
      var mid := lo + SplitPoint(hi - lo);
      ShapeHash(h, log, lo, mid);
      ShapeHash(h, log, mid, hi);
      assert log[lo..hi] == log[lo..mid] + log[mid..hi];
    }
  }

  /** Where two different trees with the same hash hide a collision. */
  function TreeCollision(h: HashFn, t: Tree, u: Tree): Pair {
    var c := Pair(Input(h, t), Input(h, u));
    if t.Node? && u.Node? then
      Either(h, c, Either(h, TreeCollision(h, t.left, u.left), TreeCollision(h, t.right, u.right)))
    else c
  }

  /** Domain separation: the prefix byte tells leaves from nodes, and nothing else is empty. */
  lemma {:induction false} SameInput(h: HashFn, t: Tree, u: Tree)
    requires Input(h, t) == Input(h, u)
    ensures t == Empty <==> u == Empty
    ensures t.Leaf? ==> u == t
    ensures t.Node? ==> u.Node?
    ensures t.Node? ==> TreeHash(h, t.left) == TreeHash(h, u.left) && TreeHash(h, t.right) == TreeHash(h, u.right)
  {
    var x, y := Input(h, t), Input(h, u);
    assert |x| == |y| && (|x| > 0 ==> x[0] == y[0] && x[1..] == y[1..]);
    if t.Leaf? {
      assert x[1..] == t.data && (u.Leaf? ==> y[1..] == u.data);
    } else if t.Node? && u.Node? {
      EqualNodes(h, TreeHash(h, t.left), TreeHash(h, t.right), TreeHash(h, u.left), TreeHash(h, u.right));
    }
  }

  lemma {:induction false} TreeBinds(h: HashFn, t: Tree, u: Tree)
    requires TreeHash(h, t) == TreeHash(h, u)
    ensures t == u || Collides(h, TreeCollision(h, t, u))
  {
    if Input(h, t) == Input(h, u) {
      SameInput(h, t, u);
      if t.Node? {
        TreeBinds(h, t.left, u.left);
        TreeBinds(h, t.right, u.right);
      }
    }
  }

  function LogCollision(h: HashFn, p: seq<Bytes>, q: seq<Bytes>): Pair {
    TreeCollision(h, Shape(p, 0, |p|), Shape(q, 0, |q|))
  }

  /** A root binds the size and the contents of a log: logs of any two sizes with the same root
      are equal, or a collision of `h` is computed from them. */
  lemma {:induction false} RootBindsLog(h: HashFn, p: seq<Bytes>, q: seq<Bytes>)
    requires LogRoot(h, p) == LogRoot(h, q)
    ensures p == q || Collides(h, LogCollision(h, p, q))
  {
    ShapeHash(h, p, 0, |p|);
    ShapeHash(h, q, 0, |q|);
    TreeBinds(h, Shape(p, 0, |p|), Shape(q, 0, |q|));
    assert p[0..|p|] == p && q[0..|q|] == q;
  }

  /** The first trees in the bytes of section 2.1 of RFC 6962: the empty string for the empty tree,
      0x00 before a leaf's data, 0x01 before the two hashes of a node, left before right. */
  lemma {:induction false} ReferenceRoots(h: HashFn, p: Bytes, q: Bytes, r: Bytes)
    ensures var a, b, c := h([0x00] + p), h([0x00] + q), h([0x00] + r);
            && |a| == 32
            && LogRoot(h, []) == h([])
            && LogRoot(h, [p]) == a
            && LogRoot(h, [p, q]) == h([0x01] + (a + b))
            && LogRoot(h, [p, q, r]) == h([0x01] + (h([0x01] + (a + b)) + c))
  {
    var one, two, three := LeafHashes(h, [p]), LeafHashes(h, [p, q]), LeafHashes(h, [p, q, r]);
    assert Mth(h, one, 0, 1) == one[0];
    assert SplitPoint(2) == 1 && SplitPoint(3) == 2;
    assert Mth(h, two, 0, 2) == HashChildren(h, Mth(h, two, 0, 1), Mth(h, two, 1, 2));
    assert Mth(h, three, 0, 2) == HashChildren(h, Mth(h, three, 0, 1), Mth(h, three, 1, 2));
    assert Mth(h, three, 2, 3) == three[2];
  }
}
