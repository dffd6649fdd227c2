/** The root-consistency check of a historical root against the live tree, which reads the tree
    three times under three separate locks. */
module Verifier {
  import opened Hashing
  import opened MerkleTreeHash
  import opened Inclusion
  import opened Consistency
  import opened Wrappers
  import TreeStore

  /** The outcome of the check when the tree held `atSize`, `atRoot` and `atProof` at the three
      reads: of the size, of the root and of the proof. */
  function HistoricalVerdict(h: HashFn, atSize: seq<Digest>, atRoot: seq<Digest>, atProof: seq<Digest>,
                             root: Bytes, size: nat): Verdict
    requires |atSize| <= |atProof|
  {
    if size > |atSize| then Rejected(SizeRegression)
    else ConsistencyVerdict(h, root, Root(h, atRoot), size, |atSize|, RangeProof(h, size, atProof[..|atSize|]))
  }

  /** The text of a report: nothing yet, the two sizes that do not fit, an error of the proof check, or
      that the roots are consistent. */
  datatype Message = Unset | SizesRegress(historical: nat, live: nat) | CheckFailed(error: ProofError) | Consistent

  datatype Report = Report(ok: bool, message: Message, historicalRoot: string, historicalSize: nat, liveRoot: string,
                           liveSize: nat)

  function HexChar(n: int): char
    requires 0 <= n < 16
  {
    if n < 10 then (0x30 + n) as char else (0x57 + n) as char
  }

  /** Two lowercase hexadecimal digits for each byte. */
  function HexText(b: Bytes): (text: string)
    ensures |text| == 2 * |b|
  {
    if b == [] then "" else HexText(b[..|b| - 1]) + [HexChar(b[|b| - 1] as int / 16), HexChar(b[|b| - 1] as int % 16)]
  }

  /** Two digits for each byte, the high half first, from the digits 0 to 9 and a to f. */
  lemma {:induction false} HexTextAt(b: Bytes, k: nat)
    requires k < |b|
    ensures var digits, n := "0123456789abcdef", b[k] as int;
            HexText(b)[2 * k] == digits[n / 16] && HexText(b)[2 * k + 1] == digits[n % 16]
  {
    var last := |b| - 1;
    if k < last {
      HexTextAt(b[..last], k);
      assert HexText(b)[..2 * last] == HexText(b[..last]);
    } else {
      HexCharTable(b[k] as int / 16);
      HexCharTable(b[k] as int % 16);
    }
  }

  lemma {:induction false} HexCharTable(n: int)
    requires 0 <= n < 16
    ensures HexChar(n) == "0123456789abcdef"[n]
  {
  }

  /** A report names its roots: equal texts are the texts of equal byte strings. */
  lemma {:induction false} HexTextInjective(b: Bytes, b': Bytes)
    requires HexText(b) == HexText(b')
    ensures b == b'
  {
    if b != [] {
      var n := |b| - 1;
      assert HexText(b)[..2 * n] == HexText(b[..n]) && HexText(b')[..2 * n] == HexText(b'[..n]);
      HexTextInjective(b[..n], b'[..n]);
      assert HexText(b)[2 * n] == HexText(b')[2 * n] && HexText(b)[2 * n + 1] == HexText(b')[2 * n + 1];
      DigitsTell(b[n] as int, b'[n] as int);
      assert b == b[..n] + [b[n]] && b' == b'[..n] + [b'[n]];
    }
  }

  lemma {:induction false} DigitsTell(x: int, y: int)
    requires 0 <= x < 256 && 0 <= y < 256
    requires HexChar(x / 16) == HexChar(y / 16) && HexChar(x % 16) == HexChar(y % 16)
    ensures x == y
  {
    assert HexChar(x / 16) as int == HexChar(y / 16) as int && HexChar(x % 16) as int == HexChar(y % 16) as int;
    assert x / 16 == y / 16 && x % 16 == y % 16;
  }

  class RootVerifier {
    const tree: TreeStore.Tree

    constructor (tree: TreeStore.Tree)
      ensures this.tree == tree
    {
      this.tree := tree;
    }

    /** What other goroutines append between two reads. */
    method Interfere(payloads: seq<Bytes>)
      requires tree.Valid()
      modifies tree`leaves, tree.file
      ensures tree.Valid()
      ensures tree.leaves == if tree.closed then old(tree.leaves) else old(tree.leaves) + LeafHashes(tree.h, payloads)
    {
      assert LeafHashes(tree.h, payloads[..0]) == [];
      for i := 0 to |payloads|
        invariant tree.Valid() && tree.file == old(tree.file)
        invariant tree.leaves == if tree.closed then old(tree.leaves)
            else old(tree.leaves) + LeafHashes(tree.h, payloads[..i])
      {
        var _ := tree.Append(payloads[i], TreeStore.NoFault);
        assert LeafHashes(tree.h, payloads[..i + 1])
            == LeafHashes(tree.h, payloads[..i]) + [HashLeaf(tree.h, payloads[i])];
      }
      assert payloads[..|payloads|] == payloads;
    }

    /** The check, with `first` appended between the reads of size and root and `second` between
        the reads of root and proof. */
    method VerifyHistoricalRoot(historicalRoot: Bytes, historicalSize: nat, first: seq<Bytes>, second: seq<Bytes>)
      returns (report: Report, verdict: Verdict)
      requires tree.Valid()
      modifies tree`leaves, tree.file
      ensures tree.Valid()
      ensures var atSize := old(tree.leaves);
              var atRoot := if tree.closed then atSize else atSize + LeafHashes(tree.h, first);
              var atProof := if tree.closed then atRoot else atRoot + LeafHashes(tree.h, second);
              && tree.leaves == atProof
              && verdict == HistoricalVerdict(tree.h, atSize, atRoot, atProof, historicalRoot, historicalSize)
              && report == Report(verdict == Accepted,
                                  if historicalSize > |atSize| then SizesRegress(historicalSize, |atSize|)
                                  else if verdict == Accepted then Consistent else CheckFailed(verdict.error),
                                  HexText(historicalRoot), historicalSize, HexText(Root(tree.h, atRoot)), |atSize|)
    {
      var liveSize := |tree.leaves|;
      ghost var atSize := tree.leaves;
      Interfere(first);
      var _, liveRoot := tree.Snapshot();
      Interfere(second);
      report := Report(false, Unset, HexText(historicalRoot), historicalSize, HexText(liveRoot), liveSize);
      if historicalSize > liveSize {
        report := report.(message := SizesRegress(historicalSize, liveSize));
        return report, Rejected(SizeRegression);
      }
      var proof := tree.ProofForRange(historicalSize, liveSize);
      verdict := VerifyConsistency(tree.h, historicalRoot, liveRoot, historicalSize, liveSize, proof.value);
      if verdict != Accepted {
        report := report.(message := CheckFailed(verdict.error));
        return;
      }
      report := report.(ok := true, message := Consistent);
    }
  }

  /** Where an accepted wrong root of a power-of-two size hides its collision. */
  function VerifierCollision(h: HashFn, live: seq<Digest>, root: Bytes, size: nat): Pair
    requires 0 < size < |live| && IsPowerOfTwo(size)
  {
    BitTrickExact(size);
    var level := StripLevel(h, size - 1, live);
    InclusionCollision(h, root, 0, level, AuditPath(h, 0, level))
  }

  /** From node 0 the old-root walk keeps its value. */
  lemma {:induction false} ClimbOldZero(h: HashFn, r: Bytes, n: nat, proof: seq<Bytes>)
    requires n > 0
    ensures ClimbOld(h, r, 0, n, proof).Some? ==> ClimbOld(h, r, 0, n, proof).value == r
    decreases n
  {
    if n > 1 && proof != [] {
      ClimbOldZero(h, r, HalfUp(n), proof[1..]);
    }
  }

  /** The root of a level whose first node is replaced by `root`.  The replacement is written one
      level up, so it is defined for byte strings of any length. */
  function Spliced(h: HashFn, root: Bytes, level: seq<Digest>): Digest
    requires |level| >= 2
  {
    Root(h, Up(h, level)[0 := HashChildren(h, root, level[1])])
  }

  lemma {:induction false} SplicedDigest(h: HashFn, root: Digest, level: seq<Digest>)
    requires |level| >= 2
    ensures Spliced(h, root, level) == Root(h, level[0 := root])
  {
    UpUpdate(h, root, 0, level);
    RootUp(h, level[0 := root]);
  }

  /** A tree larger than the old one is larger on the level where stripping stops. */
  lemma {:induction false} StripStaysBelow(fn: nat, n: nat)
    requires fn + 1 < n
    ensures Strip(fn) + 1 < StripSize(fn, n)
  {
    if fn % 2 == 1 {
      StripStaysBelow(fn / 2, HalfUp(n));
    }
  }

  /** Walking from node 0 with any byte string splices it in. */
  lemma {:induction false} ClimbSpliced(h: HashFn, root: Bytes, level: seq<Digest>)
    requires |level| >= 2
    ensures Climb(h, root, 0, |level|, AuditPath(h, 0, level)) == Some(Spliced(h, root, level))
  {
    var proof := AuditPath(h, 0, level);
    PathUp(h, 0, level);
    assert proof[0] == level[1] && proof[1..] == AuditPath(h, 0, Up(h, level));
    ClimbPath(h, HashChildren(h, root, level[1]), 0, Up(h, level));
  }

  /** The level a power of two leads to: its first node is the old tree, and the proof handed out is
      the audit path of that node. */
  lemma {:induction false} PowerLevel(h: HashFn, live: seq<Digest>, size: nat)
    requires 0 < size < |live| && IsPowerOfTwo(size)
    ensures var level := StripLevel(h, size - 1, live);
            && Strip(size - 1) == 0 && |level| == StripSize(size - 1, |live|) >= 2
            && level[0] == Root(h, live[..size])
            && RangeProof(h, size, live) == AuditPath(h, 0, level)
  {
    BitTrickExact(size);
    StripFacts(h, size, size - 1, live, 0, StripLevel(h, size - 1, live));
    StripStaysBelow(size - 1, |live|);
    SubproofStrip(h, size, live);
  }

  lemma {:induction false} SplicedVerdict(h: HashFn, newRoot: Bytes, root: Bytes, level: seq<Digest>, size: nat, n: nat)
    requires 0 < size < n && Strip(size - 1) == 0 && |level| == StripSize(size - 1, n) >= 2
    ensures ConsistencyVerdict(h, root, newRoot, size, n, AuditPath(h, 0, level)) == Accepted
       <==> newRoot == Spliced(h, root, level)
  {
    var proof := AuditPath(h, 0, level);
    ClimbSpliced(h, root, level);
    WalksAgree(h, root, root, 0, |level|, proof);
    ClimbOldZero(h, root, |level|, proof);
  }

  /** Below the live size, for a power of two: the given root is used as the first node. */
  lemma {:induction false} PowerVerdict(h: HashFn, live: seq<Digest>, newRoot: Bytes, root: Bytes, size: nat)
    requires 0 < size < |live| && IsPowerOfTwo(size)
    ensures var level := StripLevel(h, size - 1, live);
            && |level| >= 2 && level[0] == Root(h, live[..size])
            && (ConsistencyVerdict(h, root, newRoot, size, |live|, RangeProof(h, size, live)) == Accepted
                <==> newRoot == Spliced(h, root, level))
  {
    PowerLevel(h, live, size);
    SplicedVerdict(h, newRoot, root, StripLevel(h, size - 1, live), size, |live|);
  }

  /** Below the live size, for any other size: the first node is in the proof. */
  lemma {:induction false} OtherVerdict(h: HashFn, live: seq<Digest>, newRoot: Bytes, root: Bytes, size: nat)
    requires 0 < size < |live| && !IsPowerOfTwo(size)
    ensures ConsistencyVerdict(h, root, newRoot, size, |live|, RangeProof(h, size, live)) == Accepted
       <==> root == Root(h, live[..size]) && newRoot == Root(h, live)
  {
    var i, level, proof := Strip(size - 1), StripLevel(h, size - 1, live), RangeProof(h, size, live);
    BitTrickExact(size);
    StripFacts(h, size, size - 1, live, i, level);
    SubproofStrip(h, size, live);
    HonestWalk(h, i, level);
    assert proof[0] == level[i] && proof[1..] == AuditPath(h, i, level);
  }

  /** Against the honest proof: any root is judged by the leaves, except that a wrong root of a
      power-of-two size, which the verifier uses in place of a proof node, needs a collision. */
  lemma {:induction false} HonestProofExact(h: HashFn, live: seq<Digest>, root: Bytes, size: nat)
    requires 0 < size < |live|
    ensures var verdict := ConsistencyVerdict(h, root, Root(h, live), size, |live|, RangeProof(h, size, live));
            && (root == Root(h, live[..size]) ==> verdict == Accepted)
            && (verdict == Accepted && !IsPowerOfTwo(size) ==> root == Root(h, live[..size]))
            && (verdict == Accepted && IsPowerOfTwo(size) ==>
                  root == Root(h, live[..size]) || Collides(h, VerifierCollision(h, live, root, size)))
  {
    if IsPowerOfTwo(size) {
      var level := StripLevel(h, size - 1, live);
      PowerVerdict(h, live, Root(h, live), root, size);
      ClimbSpliced(h, root, level);
      if root == level[0] {
        SplicedDigest(h, root, level);
        assert level[0 := root] == level;
      }
      if Spliced(h, root, level) == Root(h, level) {
        ClimbSound(h, root, 0, level, AuditPath(h, 0, level));
      }
    } else {
      OtherVerdict(h, live, Root(h, live), root, size);
    }
  }

  /** The verifier is exact when nothing is appended between its first two reads (later appends
      are harmless): it accepts the root of the first `size` leaves and no other, except that it
      accepts any root for size 0 on a non-empty tree, and that for a power-of-two size below the
      live size a wrong accepted root comes with a collision. */
  lemma {:induction false} VerifierExact(h: HashFn, live: seq<Digest>, atProof: seq<Digest>, root: Bytes, size: nat)
    requires live <= atProof
    ensures var verdict := HistoricalVerdict(h, live, live, atProof, root, size);
            && (size > |live| <==> verdict == Rejected(SizeRegression))
            && (size == 0 < |live| ==> verdict == Accepted)
            && (size <= |live| && root == Root(h, live[..size]) ==> verdict == Accepted)
            && (verdict == Accepted && (size > 0 || live == []) ==>
                  || root == Root(h, live[..size])
                  || (IsPowerOfTwo(size) && size < |live| && Collides(h, VerifierCollision(h, live, root, size))))
  {
    assert atProof[..|live|] == live;
    if size == |live| {
      assert live[..size] == live;
    } else if 0 < size < |live| {
      HonestProofExact(h, live, root, size);
    }
  }

  // Appends between the first two reads

  /** The verdict on every root of every size, whatever is appended between the reads.  The size
      belongs to the tree of the first read, the root to the tree of the second.
      At the live size the root of the second tree is accepted, and no other.  At a smaller size that
      is not a power of two only the true root is accepted, and only if the two trees have the same
      root.  At a smaller power of two the given root is used as a node, and it is accepted if and
      only if the first tree, with that node in it, has the root of the second. */
  lemma {:induction false} RaceVerdict(h: HashFn, atSize: seq<Digest>, atRoot: seq<Digest>, atProof: seq<Digest>,
                                       root: Bytes, size: nat)
    requires atSize <= atProof
    ensures var verdict := HistoricalVerdict(h, atSize, atRoot, atProof, root, size);
            && (size > |atSize| ==> verdict == Rejected(SizeRegression))
            && (size == 0 < |atSize| ==> verdict == Accepted)
            && (size == |atSize| ==> (verdict == Accepted <==> root == Root(h, atRoot)))
            && (0 < size < |atSize| && !IsPowerOfTwo(size) ==>
                  (verdict == Accepted <==> root == Root(h, atSize[..size]) && Root(h, atRoot) == Root(h, atSize)))
            && (0 < size < |atSize| && IsPowerOfTwo(size) ==>
                  var level := StripLevel(h, size - 1, atSize);
                  && |level| >= 2 && level[0] == Root(h, atSize[..size])
                  && (verdict == Accepted <==> Root(h, atRoot) == Spliced(h, root, level))
                  && (|root| == HASH_SIZE ==> Spliced(h, root, level) == Root(h, level[0 := root])))
  {
    assert atProof[..|atSize|] == atSize;
    if 0 < size < |atSize| {
      if IsPowerOfTwo(size) {
        PowerVerdict(h, atSize, Root(h, atRoot), root, size);
        if |root| == HASH_SIZE {
          SplicedDigest(h, root, StripLevel(h, size - 1, atSize));
        }
      } else {
        OtherVerdict(h, atSize, Root(h, atRoot), root, size);
      }
    }
  }

  /** The true historical root is accepted exactly when the two trees have the same root.  For two
      different logs of payloads that is a collision (RootBindsLog). */
  lemma {:induction false} TrueRootVerdict(h: HashFn, atSize: seq<Digest>, atRoot: seq<Digest>, atProof: seq<Digest>,
                                           size: nat)
    requires atSize <= atProof && 0 < size <= |atSize|
    ensures HistoricalVerdict(h, atSize, atRoot, atProof, Root(h, atSize[..size]), size) == Accepted
       <==> Root(h, atRoot) == Root(h, atSize)
  {
    RaceVerdict(h, atSize, atRoot, atProof, Root(h, atSize[..size]), size);
    if size == |atSize| {
      assert atSize[..size] == atSize;
    } else if IsPowerOfTwo(size) {
      var level := StripLevel(h, size - 1, atSize);
      assert level[0 := level[0]] == level;
    }
  }

  /** A payload appended between the first two reads makes the check reject the true root of
      every anchored size, or yields a collision. */
  lemma {:induction false} RaceRejectsTrueRoot(h: HashFn, log: seq<Bytes>, first: seq<Bytes>, second: seq<Bytes>,
                                               size: nat)
    requires 0 < size <= |log| && first != []
    ensures var atSize, atRoot := LeafHashes(h, log), LeafHashes(h, log + first);
            var atProof := LeafHashes(h, log + first + second);
            || HistoricalVerdict(h, atSize, atRoot, atProof, Root(h, atSize[..size]), size) != Accepted
            || Collides(h, LogCollision(h, log + first, log))
  {
    var atSize, atRoot, atProof := LeafHashes(h, log), LeafHashes(h, log + first), LeafHashes(h, log + first + second);
    assert atProof[..|log|] == atSize;
    TrueRootVerdict(h, atSize, atRoot, atProof, size);
    if Root(h, atRoot) == Root(h, atSize) {
      RootBindsLog(h, log + first, log);
      assert |log + first| != |log|;
    }
  }

  /** It also makes the check report OK for a wrong root: the root of the longer log is accepted for
      the size of the shorter one, with an empty proof, although the first leaves do not hash to it. */
  lemma {:induction false} RaceAcceptsWrongRoot(h: HashFn, log: seq<Bytes>, first: seq<Bytes>, second: seq<Bytes>)
    requires first != []
    ensures var atSize, atRoot := LeafHashes(h, log), LeafHashes(h, log + first);
            var atProof := LeafHashes(h, log + first + second);
            && HistoricalVerdict(h, atSize, atRoot, atProof, Root(h, atRoot), |log|) == Accepted
            && (Root(h, atRoot) != Root(h, atSize[..|log|]) || Collides(h, LogCollision(h, log + first, log)))
  {
    var atSize, atRoot, atProof := LeafHashes(h, log), LeafHashes(h, log + first), LeafHashes(h, log + first + second);
    assert atProof[..|log|] == atSize;
    RaceVerdict(h, atSize, atRoot, atProof, Root(h, atRoot), |log|);
    assert atSize[..|log|] == atSize;
    if Root(h, atRoot) == Root(h, atSize) {
      RootBindsLog(h, log + first, log);
      assert |log + first| != |log|;
    }
  }

  lemma {:induction false} FourLeaves(h: HashFn, a: seq<Digest>)
    requires |a| >= 4
    ensures Mth(h, a, 0, 4) == HashChildren(h, HashChildren(h, a[0], a[1]), HashChildren(h, a[2], a[3]))
  {
    assert SplitPoint(4) == 2 && SplitPoint(2) == 1;
    assert Mth(h, a, 0, 2) == HashChildren(h, Mth(h, a, 0, 1), Mth(h, a, 1, 2));
    assert Mth(h, a, 2, 4) == HashChildren(h, Mth(h, a, 2, 3), Mth(h, a, 3, 4));
  }

  /** Five leaves hash as the root of the first four and the fifth; three, as a node and the third. */
  lemma {:induction false} PairedRoots(h: HashFn, three: seq<Digest>, five: seq<Digest>, four: seq<Digest>,
                                       root: Digest)
    requires |three| == 3 && |five| == 5 && |four| == 4
    requires three[2] == five[4] && five[..4] == four && root == Root(h, four)
    ensures Root(h, five) == HashChildren(h, root, five[4])
    ensures Root(h, StripLevel(h, 1, three)[0 := root]) == HashChildren(h, root, five[4])
  {
    FourLeaves(h, four);
    FourLeaves(h, five);
    assert forall i :: 0 <= i < 4 ==> five[i] == five[..4][i];
    assert SplitPoint(5) == 4 && SplitPoint(2) == 1;
    assert Mth(h, five, 4, 5) == five[4];
    var up := Up(h, three);
    assert up[1] == Parent(h, three, 1) == three[2];
    var level := up[0 := root];
    assert StripLevel(h, 1, three) == StripLevel(h, 0, up) == up;
    assert Mth(h, level, 0, 2) == HashChildren(h, Mth(h, level, 0, 1), Mth(h, level, 1, 2));
  }

  /** The root of the first four of five leaves, taken for the root of two of three. */
  lemma {:induction false} WrongNode(h: HashFn, three: seq<Digest>, five: seq<Digest>, four: seq<Digest>)
    requires |three| == 3 && |five| == 5 && |four| == 4
    requires three <= five && three[2] == five[4] && five[..4] == four
    ensures HistoricalVerdict(h, three, five, five, Root(h, four), 2) == Accepted
  {
    RaceVerdict(h, three, five, five, Root(h, four), 2);
    PairedRoots(h, three, five, four, Root(h, four));
  }

  /** And below the live size: with payloads p, q, r at the first read and p, q, r, s, r at the
      second, the root of p, q, r, s is accepted as the root of size 2. */
  lemma {:induction false} RaceAcceptsWrongNode(h: HashFn, p: Bytes, q: Bytes, r: Bytes, s: Bytes)
    ensures var atSize, atRoot := LeafHashes(h, [p, q, r]), LeafHashes(h, [p, q, r, s, r]);
            var root := LogRoot(h, [p, q, r, s]);
            && HistoricalVerdict(h, atSize, atRoot, atRoot, root, 2) == Accepted
            && (root != Root(h, atSize[..2]) || Collides(h, LogCollision(h, [p, q, r, s], [p, q])))
  {
    var log := [p, q, r, s];
    WrongNode(h, LeafHashes(h, [p, q, r]), LeafHashes(h, [p, q, r, s, r]), LeafHashes(h, log));
    assert LeafHashes(h, [p, q, r])[..2] == LeafHashes(h, [p, q]);
    if LogRoot(h, log) == LogRoot(h, [p, q]) {
      RootBindsLog(h, log, [p, q]);
    }
  }

  // Chains of roots

  /** Roots of growing logs, each linked to the next by an accepted consistency proof. */
  ghost predicate Linked(h: HashFn, logs: seq<seq<Digest>>, proofs: seq<seq<Bytes>>) {
    && |proofs| + 1 == |logs|
    && forall i {:trigger proofs[i]} :: 0 <= i < |proofs| ==>
         ConsistencyVerdict(h, Root(h, logs[i]), Root(h, logs[i + 1]), |logs[i]|, |logs[i + 1]|, proofs[i]) == Accepted
  }

  /** The first collision along a chain. */
  function ChainCollision(h: HashFn, logs: seq<seq<Digest>>, proofs: seq<seq<Bytes>>): Pair
    requires |proofs| + 1 == |logs|
  {
    if |proofs| == 0 then NO_PAIR
    else
      var last := |proofs| - 1;
      Either(h, ChainCollision(h, logs[..|logs| - 1], proofs[..last]),
             if |logs[last]| <= |logs[last + 1]| then ConsistencyCollision(h, logs[last], logs[last + 1], proofs[last])
             else NO_PAIR)
  }

  /** Along a chain of accepted consistency proofs every log is a prefix of every later one, or a
      collision is computed. */
  lemma {:induction false} ChainIsPrefix(h: HashFn, logs: seq<seq<Digest>>, proofs: seq<seq<Bytes>>, i: nat)
    requires Linked(h, logs, proofs) && i < |logs|
    ensures logs[i] <= logs[|logs| - 1] || Collides(h, ChainCollision(h, logs, proofs))
    decreases |logs|
  {
    if i < |logs| - 1 {
      var last := |proofs| - 1;
      ChainIsPrefix(h, logs[..|logs| - 1], proofs[..last], i);
      assert proofs[last] == proofs[last];
      ConsistencySound(h, logs[last], logs[last + 1], proofs[last]);
      assert logs[..|logs| - 1][last] == logs[last] && logs[..|logs| - 1][i] == logs[i];
    }
  }

  /** A leaf proved under one root of a chain is the leaf at that index under the last root. */
  lemma {:induction false} IncludedStaysIncluded(h: HashFn, logs: seq<seq<Digest>>, proofs: seq<seq<Bytes>>, i: nat,
                                                 leafHash: Bytes, idx: nat, path: seq<Bytes>)
    requires Linked(h, logs, proofs) && i < |logs|
    requires InclusionVerdict(h, leafHash, idx, |logs[i]|, path, Root(h, logs[i])) == Accepted
    ensures idx < |logs[i]|
    ensures var last := logs[|logs| - 1];
            || (idx < |last| && last[idx] == leafHash)
            || Collides(h, InclusionCollision(h, leafHash, idx, logs[i], path))
            || Collides(h, ChainCollision(h, logs, proofs))
  {
    InclusionSound(h, leafHash, idx, logs[i], path);
    ChainIsPrefix(h, logs, proofs, i);
  }
}
