/** Consistency proofs: the recursive prover SUBPROOF (section 2.1.2 of RFC 6962), the
    bottom-up verifier loop (section 2.1.4.2 of RFC 9162), and the proof that they agree. */
module Consistency {
  import opened Hashing
  import opened MerkleTreeHash
  import opened Inclusion
  import opened Wrappers

  /** Bitwise AND of two naturals. */
  function BitAnd(a: nat, b: nat): nat {
    if a == 0 || b == 0 then 0 else 2 * BitAnd(a / 2, b / 2) + (a % 2) * (b % 2)
  }

  predicate HasOneBit(n: nat) {
    n > 0 && BitAnd(n, n - 1) == 0
  }

  /** Removing the trailing one bits of fn: the counter after the first loop of the verifier. */
  function Strip(fn: nat): nat {
    if fn % 2 == 1 then Strip(fn / 2) else fn
  }

  lemma {:induction false} BitSquare(b: nat)
    requires b < 2
    ensures b * b == b
  {
    assert b == 0 || b == 1;
  }

  lemma {:induction false} BitAndSelf(n: nat)
    ensures BitAnd(n, n) == n
  {
    if n > 0 {
      BitAndSelf(n / 2);
      BitSquare(n % 2);
    }
  }

  /** The bit trick decides exactly the powers of two, and those are the old sizes whose counter
      is zero after stripping. */
  lemma {:induction false} BitTrickExact(n: nat)
    ensures HasOneBit(n) <==> IsPowerOfTwo(n)
    ensures n > 0 ==> (Strip(n - 1) == 0 <==> IsPowerOfTwo(n))
  {
    if n > 1 {
      if n % 2 == 0 {
        BitTrickExact(n / 2);
        assert (n - 1) / 2 == n / 2 - 1 && (n - 1) % 2 == 1;
      } else {
        assert (n - 1) / 2 == n / 2;
        BitAndSelf(n / 2);
      }
    }
  }

  /** SUBPROOF(m, D[n], b) on the window from lo to hi; the old tree ends at m. */
  function Subproof(h: HashFn, m: nat, leaves: seq<Digest>, lo: nat, hi: nat, atRoot: bool): seq<Digest>
    requires lo < m <= hi <= |leaves|
    decreases hi - lo
  {
    if m == hi then
      if atRoot then [] else [Mth(h, leaves, lo, hi)]
    else
      var mid := lo + SplitPoint(hi - lo);
      if m <= mid then Subproof(h, m, leaves, lo, mid, atRoot) + [Mth(h, leaves, mid, hi)]
      else Subproof(h, m, leaves, mid, hi, false) + [Mth(h, leaves, lo, mid)]
  }

  /** An even prefix of the leaves is a prefix of their parents. */
  lemma {:induction false} SubproofUp(h: HashFn, m: nat, q: nat, leaves: seq<Digest>, lo: nat, hi: nat, i: nat,
                                      j: nat, atRoot: bool)
    requires Aligned(leaves, lo, hi, i, j) && lo < m == 2 * q <= hi
    ensures i < q <= j
    ensures Subproof(h, m, leaves, lo, hi, atRoot) == Subproof(h, q, Up(h, leaves), i, j, atRoot)
    decreases hi - lo
  {
    if m == hi {
      MthUp(h, leaves, lo, hi, i, j);
    } else {
      var mid, up := lo + SplitPoint(hi - lo), i + SplitPoint(j - i);
      HalvesAligned(leaves, lo, hi, i, j);
      MthUp(h, leaves, lo, mid, i, up);
      MthUp(h, leaves, mid, hi, up, j);
      if m <= mid {
        SubproofUp(h, m, q, leaves, lo, mid, i, up, atRoot);
      } else {
        SubproofUp(h, m, q, leaves, mid, hi, up, j, false);
      }
      SubproofJoin(h, m, leaves, lo, mid, hi, q, Up(h, leaves), i, up, j, atRoot);
    }
  }

  lemma {:induction false} SubproofJoin(h: HashFn, m: nat, a: seq<Digest>, lo: nat, mid: nat, hi: nat,
                                        q: nat, b: seq<Digest>, i: nat, up: nat, j: nat, atRoot: bool)
    requires lo < m < hi <= |a| && mid == lo + SplitPoint(hi - lo)
    requires i < q < j <= |b| && up == i + SplitPoint(j - i)
    requires m <= mid <==> q <= up
    requires Mth(h, a, lo, mid) == Mth(h, b, i, up) && Mth(h, a, mid, hi) == Mth(h, b, up, j)
    requires m <= mid ==> Subproof(h, m, a, lo, mid, atRoot) == Subproof(h, q, b, i, up, atRoot)
    requires m > mid ==> Subproof(h, m, a, mid, hi, false) == Subproof(h, q, b, up, j, false)
    ensures Subproof(h, m, a, lo, hi, atRoot) == Subproof(h, q, b, i, j, atRoot)
  {
  }

  /** The last node of an odd prefix, followed by its audit path, is the consistency proof; the
      first element is left out when it would be the whole old tree. */
  lemma {:induction false} SubproofPath(h: HashFn, m: nat, leaves: seq<Digest>, lo: nat, hi: nat, i: nat, j: nat,
                                        atRoot: bool)
    requires Aligned(leaves, lo, hi, i, j) && lo < m <= hi && m % 2 == 1
    requires m == hi ==> hi == lo + 1
    requires atRoot ==> lo == 0
    ensures Subproof(h, m, leaves, lo, hi, atRoot)
         == (if atRoot && m == 1 then [] else [leaves[m - 1]]) + Path(h, m - 1, leaves, lo, hi)
    decreases hi - lo
  {
    var first := if atRoot && m == 1 then [] else [leaves[m - 1]];
    if hi - lo <= 2 {
      assert m == lo + 1 && lo % 2 == 0;
    } else {
      var mid, up := lo + SplitPoint(hi - lo), i + SplitPoint(j - i);
      HalvesAligned(leaves, lo, hi, i, j);
      if m <= mid {
        SubproofPath(h, m, leaves, lo, mid, i, up, atRoot);
      } else {
        SubproofPath(h, m, leaves, mid, hi, up, j, false);
      }
      SubproofGlue(h, m, m - 1, leaves, lo, mid, hi, atRoot, first);
    }
  }

  lemma {:induction false} SubproofGlue(h: HashFn, m: nat, fn: nat, leaves: seq<Digest>, lo: nat, mid: nat, hi: nat,
                                        atRoot: bool, first: seq<Digest>)
    requires lo <= fn < m < hi <= |leaves| && mid == lo + SplitPoint(hi - lo)
    requires m <= mid <==> fn < mid
    requires m <= mid ==> Subproof(h, m, leaves, lo, mid, atRoot) == first + Path(h, fn, leaves, lo, mid)
    requires m > mid ==> Subproof(h, m, leaves, mid, hi, false) == first + Path(h, fn, leaves, mid, hi)
    ensures Subproof(h, m, leaves, lo, hi, atRoot) == first + Path(h, fn, leaves, lo, hi)
  {
    if m <= mid {
      Glue(Subproof(h, m, leaves, lo, hi, atRoot), Subproof(h, m, leaves, lo, mid, atRoot),
           Path(h, fn, leaves, lo, hi), Path(h, fn, leaves, lo, mid), first, Mth(h, leaves, mid, hi));
    } else {
      Glue(Subproof(h, m, leaves, lo, hi, atRoot), Subproof(h, m, leaves, mid, hi, false),
           Path(h, fn, leaves, lo, hi), Path(h, fn, leaves, mid, hi), first, Mth(h, leaves, lo, mid));
    }
  }

  /** The level on which the verifier starts, for the node that ends the old tree. */
  function StripLevel(h: HashFn, fn: nat, level: seq<Digest>): (up: seq<Digest>)
    requires fn < |level|
    ensures Strip(fn) < |up| <= |level|
    ensures Root(h, up) == Root(h, level)
    decreases |level|
  {
    if fn % 2 == 1 then
      RootUp(h, level);
      StripLevel(h, fn / 2, Up(h, level))
    else level
  }

  lemma {:induction false} SubproofStrip(h: HashFn, m: nat, leaves: seq<Digest>)
    requires 0 < m < |leaves|
    ensures var i, level := Strip(m - 1), StripLevel(h, m - 1, leaves);
            Subproof(h, m, leaves, 0, |leaves|, true) == (if i == 0 then [] else [level[i]]) + AuditPath(h, i, level)
    decreases |leaves|
  {
    if m % 2 == 0 {
      SubproofUp(h, m, m / 2, leaves, 0, |leaves|, 0, HalfUp(|leaves|), true);
      assert (m - 1) / 2 == m / 2 - 1;
      SubproofStrip(h, m / 2, Up(h, leaves));
    } else {
      SubproofPath(h, m, leaves, 0, |leaves|, 0, HalfUp(|leaves|), true);
    }
  }

  /** The proof handed out for a pair of sizes. */
  function RangeProof(h: HashFn, m: nat, leaves: seq<Digest>): seq<Digest>
    requires m <= |leaves|
  {
    if m == 0 || m == |leaves| then [] else Subproof(h, m, leaves, 0, |leaves|, true)
  }

  /** What the old-root side of the walk computes: it joins left siblings only. */
  function ClimbOld(h: HashFn, fr: Bytes, fn: nat, n: nat, proof: seq<Bytes>): Option<Bytes>
    requires fn < n
    decreases n
  {
    if n == 1 then
      if proof == [] then Some(fr) else None
    else if fn % 2 == 0 && fn + 1 == n then
      ClimbOld(h, fr, fn / 2, HalfUp(n), proof)
    else if proof == [] then
      None
    else
      ClimbOld(h, MergeOld(h, fn, fr, proof[0]), fn / 2, HalfUp(n), proof[1..])
  }

  function MergeOld(h: HashFn, fn: nat, fr: Bytes, p: Bytes): Bytes {
    if fn % 2 == 1 then Merge(h, fn, fr, p) else fr
  }

  /** The sizes of the level on which the verifier starts. */
  function StripSize(fn: nat, n: nat): (n': nat)
    requires fn < n
    ensures Strip(fn) < n' <= n
  {
    if fn % 2 == 1 then StripSize(fn / 2, HalfUp(n)) else n
  }

  lemma {:induction false} StripLevelSize(h: HashFn, fn: nat, level: seq<Digest>)
    requires fn < |level|
    ensures |StripLevel(h, fn, level)| == StripSize(fn, |level|)
    decreases |level|
  {
    if fn % 2 == 1 {
      StripLevelSize(h, fn / 2, Up(h, level));
    }
  }

  /** The verdict of the two walks from the first node. */
  function WalkVerdict(h: HashFn, oldRoot: Bytes, newRoot: Bytes, first: Bytes, fn: nat, n: nat,
                       proof: seq<Bytes>): Verdict
    requires fn < n
  {
    match (ClimbOld(h, first, fn, n, proof), Climb(h, first, fn, n, proof))
    case (Some(fr), Some(sr)) =>
      if fr == oldRoot && sr == newRoot then Accepted else Rejected(RootMismatch)
    case _ => Rejected(InvalidProof)
  }

  /** The verdict on a consistency proof, stated by levels. */
  function ConsistencyVerdict(h: HashFn, oldRoot: Bytes, newRoot: Bytes, oldSize: nat, newSize: nat,
                              proof: seq<Bytes>): Verdict {
    if oldSize > newSize then Rejected(SizeRegression)
    else if oldSize == newSize then
      if oldRoot != newRoot then Rejected(RootMismatch)
      else if proof != [] then Rejected(InvalidProof) else Accepted
    else if oldSize == 0 then
      if proof != [] then Rejected(InvalidProof) else Accepted
    else
      var fn, n := Strip(oldSize - 1), StripSize(oldSize - 1, newSize);
      if fn == 0 then WalkVerdict(h, oldRoot, newRoot, oldRoot, fn, n, proof)
      else if proof == [] then Rejected(InvalidProof)
      else WalkVerdict(h, oldRoot, newRoot, proof[0], fn, n, proof[1..])
  }

  /** The main loop of the source: one element per round, with the inner shift loop that skips
      the levels on which the node is promoted in both trees. */
  method Walk(h: HashFn, oldRoot: Bytes, newRoot: Bytes, first: Bytes, fn0: nat, sn0: nat, proof: seq<Bytes>)
    returns (verdict: Verdict)
    requires fn0 <= sn0
    ensures verdict == WalkVerdict(h, oldRoot, newRoot, first, fn0, sn0 + 1, proof)
  {
    var fn, sn, fr, sr, work := fn0, sn0, first, first, proof;
    WalksAgree(h, first, first, fn0, sn0 + 1, proof);
    while sn > 0
      invariant fn <= sn
      invariant ClimbOld(h, first, fn0, sn0 + 1, proof) == ClimbOld(h, fr, fn, sn + 1, work)
      invariant Climb(h, first, fn0, sn0 + 1, proof) == Climb(h, sr, fn, sn + 1, work)
      decreases sn
    {
      if |work| == 0 {
        ClimbNeedsProof(h, sr, fn, sn + 1);
        return Rejected(InvalidProof);
      }
      var c := work[0];
      ghost var fr1, sr1, sn1, work1 := fr, sr, sn, work;
      work := work[1..];
      if fn % 2 == 1 || fn == sn {
        fr := HashChildren(h, c, fr);
        sr := HashChildren(h, c, sr);
        while fn % 2 == 0 && fn != 0
          invariant 0 < fn <= sn <= sn1 && (fn % 2 == 1 || fn == sn)
          invariant ClimbOld(h, first, fn0, sn0 + 1, proof) == ClimbOld(h, fr1, fn, sn + 1, work1)
          invariant Climb(h, first, fn0, sn0 + 1, proof) == Climb(h, sr1, fn, sn + 1, work1)
        {
          fn := fn / 2;
          sn := sn / 2;
        }
      } else {
        sr := HashChildren(h, sr, c);
      }
      fn := fn / 2;
      sn := sn / 2;
    }
    if |work| != 0 {
      return Rejected(InvalidProof);
    }
    if fr != oldRoot {
      return Rejected(RootMismatch);
    }
    if sr != newRoot {
      return Rejected(RootMismatch);
    }
    return Accepted;
  }

  /** The verifier of the source: size checks, stripping loop, choice of the first node, walk. */
  method VerifyConsistency(h: HashFn, oldRoot: Bytes, newRoot: Bytes, oldSize: nat, newSize: nat, proof: seq<Bytes>)
    returns (verdict: Verdict)
    ensures verdict == ConsistencyVerdict(h, oldRoot, newRoot, oldSize, newSize, proof)
  {
    if oldSize > newSize {
      return Rejected(SizeRegression);
    }
    if oldSize == newSize {
      if oldRoot != newRoot {
        return Rejected(RootMismatch);
      }
      if |proof| != 0 {
        return Rejected(InvalidProof);
      }
      return Accepted;
    }
    if oldSize == 0 {
      if |proof| != 0 {
        return Rejected(InvalidProof);
      }
      return Accepted;
    }
    var fn: nat, sn: nat := oldSize - 1, newSize - 1;
    while fn % 2 == 1
      invariant fn <= sn
      invariant Strip(fn) == Strip(oldSize - 1)
      invariant StripSize(fn, sn + 1) == StripSize(oldSize - 1, newSize)
      decreases fn
    {
      fn := fn / 2;
      sn := sn / 2;
    }
    BitTrickExact(oldSize);
    if HasOneBit(oldSize) {
      verdict := Walk(h, oldRoot, newRoot, oldRoot, fn, sn, proof);
    } else {
      if |proof| == 0 {
        return Rejected(InvalidProof);
      }
      verdict := Walk(h, oldRoot, newRoot, proof[0], fn, sn, proof[1..]);
    }
  }

  /** Both walks run out of proof, or have proof left over, together. */
  lemma {:induction false} WalksAgree(h: HashFn, fr: Bytes, sr: Bytes, fn: nat, n: nat, proof: seq<Bytes>)
    requires fn < n
    ensures ClimbOld(h, fr, fn, n, proof).Some? <==> Climb(h, sr, fn, n, proof).Some?
    decreases n
  {
    if n > 1 {
      if fn % 2 == 0 && fn + 1 == n {
        WalksAgree(h, fr, sr, fn / 2, HalfUp(n), proof);
      } else if proof != [] {
        WalksAgree(h, MergeOld(h, fn, fr, proof[0]), Merge(h, fn, sr, proof[0]), fn / 2, HalfUp(n), proof[1..]);
      }
    }
  }

  // Completeness

  /** One level up, an old tree that ends in node fn ends in the merged node. */
  lemma {:induction false} UpPrefix(h: HashFn, fr: Digest, fn: nat, level: seq<Digest>)
    requires fn < |level|
    ensures Up(h, level[..fn] + [fr]) == Up(h, level)[..fn / 2] + [MergeOldHonest(h, fr, fn, level)]
  {
    var tree, j := level[..fn] + [fr], fn / 2;
    forall i | 0 <= i < j
      ensures Up(h, tree)[i] == Up(h, level)[i]
    {
      assert Up(h, tree)[i] == Parent(h, tree, i) == Parent(h, level, i) == Up(h, level)[i];
    }
    assert Up(h, tree)[j] == Parent(h, tree, j) == MergeOldHonest(h, fr, fn, level);
  }

  function MergeOldHonest(h: HashFn, fr: Digest, fn: nat, level: seq<Digest>): Digest
    requires fn < |level|
  {
    if fn % 2 == 1 then HashChildren(h, level[fn - 1], fr) else fr
  }

  /** Along an honest path, the old-root walk computes the root of the leaves before fn followed
      by the digest it started from. */
  lemma {:induction false} ClimbOldPath(h: HashFn, fr: Digest, fn: nat, level: seq<Digest>)
    requires fn < |level|
    ensures ClimbOld(h, fr, fn, |level|, AuditPath(h, fn, level)) == Some(Root(h, level[..fn] + [fr]))
    decreases |level|
  {
    if |level| > 1 {
      var up, proof := Up(h, level), AuditPath(h, fn, level);
      PathUp(h, fn, level);
      UpPrefix(h, fr, fn, level);
      RootUp(h, level[..fn] + [fr]);
      ClimbOldPath(h, MergeOldHonest(h, fr, fn, level), fn / 2, up);
      if Sibling(fn, level) != [] {
        assert proof[0] == Sibling(fn, level)[0] && proof[1..] == AuditPath(h, fn / 2, up);
      } else {
        assert proof == AuditPath(h, fn / 2, up);
      }
    }
  }

  /** The parents of an even prefix are a prefix of the parents. */
  lemma {:induction false} UpTake(h: HashFn, level: seq<Digest>, m: nat, j: nat)
    requires m == 2 * j <= |level|
    ensures Up(h, level[..m]) == Up(h, level)[..j]
  {
    forall i | 0 <= i < j
      ensures Up(h, level[..m])[i] == Up(h, level)[i]
    {
      assert Up(h, level[..m])[i] == Parent(h, level[..m], i) == Parent(h, level, i) == Up(h, level)[i];
    }
  }

  /** Stripping keeps the old tree: its leaves are all below the nodes up to the stripped one. */
  lemma {:induction false} StripPrefix(h: HashFn, fn: nat, level: seq<Digest>)
    requires fn < |level|
    ensures Root(h, StripLevel(h, fn, level)[..Strip(fn) + 1]) == Root(h, level[..fn + 1])
    decreases |level|
  {
    if fn % 2 == 1 {
      UpTake(h, level, fn + 1, fn / 2 + 1);
      RootUp(h, level[..fn + 1]);
      StripPrefix(h, fn / 2, Up(h, level));
    }
  }

  lemma {:induction false} HonestWalk(h: HashFn, i: nat, level: seq<Digest>)
    requires i < |level|
    ensures ClimbOld(h, level[i], i, |level|, AuditPath(h, i, level)) == Some(Root(h, level[..i + 1]))
    ensures Climb(h, level[i], i, |level|, AuditPath(h, i, level)) == Some(Root(h, level))
  {
    ClimbOldPath(h, level[i], i, level);
    assert level[..i] + [level[i]] == level[..i + 1];
    ClimbPath(h, level[i], i, level);
    assert level[i := level[i]] == level;
  }

  lemma {:induction false} WalkAccepted(h: HashFn, oldRoot: Bytes, newRoot: Bytes, m: nat, n: nat, first: Bytes,
                                        work: seq<Bytes>, proof: seq<Bytes>)
    requires 0 < m < n
    requires ClimbOld(h, first, Strip(m - 1), StripSize(m - 1, n), work) == Some(oldRoot)
    requires Climb(h, first, Strip(m - 1), StripSize(m - 1, n), work) == Some(newRoot)
    requires if Strip(m - 1) == 0 then first == oldRoot && proof == work else proof == [first] + work
    ensures ConsistencyVerdict(h, oldRoot, newRoot, m, n, proof) == Accepted
  {
    assert ([first] + work)[1..] == work;
  }

  /** The level on which the verifier starts: its size, and the roots over it. */
  lemma {:induction false} StripFacts(h: HashFn, m: nat, fn: nat, leaves: seq<Digest>, i: nat, level: seq<Digest>)
    requires fn + 1 == m < |leaves|
    requires i == Strip(fn) && level == StripLevel(h, fn, leaves)
    ensures |level| == StripSize(fn, |leaves|)
    ensures Root(h, level) == Root(h, leaves)
    ensures Root(h, level[..i + 1]) == Root(h, leaves[..m])
    ensures i == 0 ==> level[i] == Root(h, leaves[..m])
  {
    StripLevelSize(h, fn, leaves);
    StripPrefix(h, fn, leaves);
    FirstRoot(h, level);
  }

  lemma {:induction false} FirstRoot(h: HashFn, level: seq<Digest>)
    requires |level| > 0
    ensures Root(h, level[..1]) == level[0]
  {
  }

  /** Completeness: for every tree and every pair of sizes, the proof handed out is accepted
      against the two roots. */
  lemma {:induction false} ConsistencyComplete(h: HashFn, m: nat, leaves: seq<Digest>)
    requires m <= |leaves|
    ensures ConsistencyVerdict(h, Root(h, leaves[..m]), Root(h, leaves), m, |leaves|, RangeProof(h, m, leaves))
        == Accepted
  {
    if m == |leaves| {
      assert leaves[..m] == leaves;
    } else if m > 0 {
      var i, level := Strip(m - 1), StripLevel(h, m - 1, leaves);
      StripFacts(h, m, m - 1, leaves, i, level);
      HonestWalk(h, i, level);
      SubproofStrip(h, m, leaves);
      WalkAccepted(h, Root(h, leaves[..m]), Root(h, leaves), m, |leaves|, level[i], AuditPath(h, i, level),
                   RangeProof(h, m, leaves));
    }
  }

  /** A consistency proof of a tree with at most 2^b leaves has at most b + 1 elements. */
  lemma {:induction false} RangeProofSize(h: HashFn, m: nat, leaves: seq<Digest>, b: nat)
    requires m <= |leaves| <= Pow2(b)
    ensures |RangeProof(h, m, leaves)| <= b + 1
  {
    if 0 < m < |leaves| {
      var i, level := Strip(m - 1), StripLevel(h, m - 1, leaves);
      SubproofStrip(h, m, leaves);
      PathSize(h, i, level, b);
    }
  }

  /** With no assumption on the hash, a proof of any other length than the one handed out is rejected
      as invalid, whatever the roots; at equal sizes unequal roots are reported first. */
  lemma {:induction false} WrongProofLengthRejected(h: HashFn, m: nat, leaves: seq<Digest>, oldRoot: Bytes,
                                                    newRoot: Bytes, proof: seq<Bytes>)
    requires m <= |leaves| && |proof| != |RangeProof(h, m, leaves)|
    ensures ConsistencyVerdict(h, oldRoot, newRoot, m, |leaves|, proof)
         == Rejected(if m == |leaves| && oldRoot != newRoot then RootMismatch else InvalidProof)
  {
    if 0 < m < |leaves| && (Strip(m - 1) == 0 || proof != []) {
      var i, level := Strip(m - 1), StripLevel(h, m - 1, leaves);
      var first, work := if i == 0 then oldRoot else proof[0], if i == 0 then proof else proof[1..];
      SubproofStrip(h, m, leaves);
      StripLevelSize(h, m - 1, leaves);
      WalksAgree(h, first, first, i, |level|, work);
      ClimbLength(h, first, i, level, work);
    }
  }

  // Soundness

  /** The inputs hashed by one step of the two walks, against the inputs hashed for the true
      parents in the old and in the new tree. */
  function StepCollision(h: HashFn, a: seq<Digest>, d: seq<Digest>, fr: Bytes, sr: Bytes, p: Bytes): Pair
    requires 0 < |a| <= |d| && Sibling(|a| - 1, d) != []
  {
    var fn := |a| - 1;
    var c := MergePair(fn, sr, p, d);
    if fn % 2 == 0 then c
    else Either(h, c, Either(h, MergePair(fn, fr, p, a), MergePair(fn, a[fn], a[fn - 1], d)))
  }

  /** Where an accepted walk over trees a and d, with a not a prefix of d, hides its collision. */
  function WalkCollision(h: HashFn, a: seq<Digest>, d: seq<Digest>, fr: Bytes, sr: Bytes, proof: seq<Bytes>): Pair
    requires 0 < |a| <= |d|
    decreases |d|
  {
    var fn := |a| - 1;
    var below := PairsCollision(h, a, d, fn / 2);
    if |d| == 1 then NO_PAIR
    else if Sibling(fn, d) == [] then
      Either(h, below, WalkCollision(h, Up(h, a), Up(h, d), fr, sr, proof))
    else if proof == [] then NO_PAIR
    else
      var fr', sr' := MergeOld(h, fn, fr, proof[0]), Merge(h, fn, sr, proof[0]);
      Either(h, below,
             Either(h, StepCollision(h, a, d, fr, sr, proof[0]),
                    WalkCollision(h, Up(h, a), Up(h, d), fr', sr', proof[1..])))
  }

  /** What the two walks establish about the last node of the old tree, when they started from
      one value, or when the new one already holds a digest. */
  ghost predicate Agrees(a: seq<Digest>, d: seq<Digest>, fr: Bytes, sr: Bytes)
    requires 0 < |a| <= |d|
  {
    var fn := |a| - 1;
    && a[..fn] == d[..fn]
    && (fr == sr ==> a[fn] == d[fn])
    && (|sr| == HASH_SIZE ==> fr == a[fn] && sr == d[fn])
  }

  /** One level down where the last old node is a right child. */
  lemma {:induction false} OddStep(h: HashFn, a: seq<Digest>, d: seq<Digest>, j: nat, fr: Bytes, sr: Bytes, p: Bytes)
    requires |a| == 2 * j + 2 <= |d|
    requires fr == sr || |sr| == HASH_SIZE
    requires Agrees(Up(h, a), Up(h, d), HashChildren(h, p, fr), HashChildren(h, p, sr))
    ensures || Agrees(a, d, fr, sr)
            || Collides(h, StepCollision(h, a, d, fr, sr, p))
            || Collides(h, PairsCollision(h, a, d, j))
  {
    PairsInjective(h, a, d, j);
    if a[..2 * j] == d[..2 * j] {
      OddMerge(h, a, d, j, fr, sr, p);
    }
  }

  lemma {:induction false} OddMerge(h: HashFn, a: seq<Digest>, d: seq<Digest>, j: nat, fr: Bytes, sr: Bytes, p: Bytes)
    requires |a| == 2 * j + 2 <= |d|
    requires fr == sr || |sr| == HASH_SIZE
    requires a[..2 * j] == d[..2 * j]
    requires Up(h, a)[j] == HashChildren(h, p, fr) && Up(h, d)[j] == HashChildren(h, p, sr)
    ensures Agrees(a, d, fr, sr) || Collides(h, StepCollision(h, a, d, fr, sr, p))
  {
    var fn := 2 * j + 1;
    assert fn % 2 == 1 && fn / 2 == j;
    MergeSound(h, fn, sr, p, d);
    MergeSound(h, fn, fr, p, a);
    if fr == sr {
      assert Up(h, a)[j] == Parent(h, a, j) == Merge(h, fn, a[fn], a[2 * j]);
      MergeSound(h, fn, a[fn], a[2 * j], d);
    }
    assert a[..fn] == a[..2 * j] + [a[2 * j]] && d[..fn] == d[..2 * j] + [d[2 * j]];
  }

  /** One level down where the last old node is a left child with a right sibling. */
  lemma {:induction false} EvenStep(h: HashFn, a: seq<Digest>, d: seq<Digest>, j: nat, fr: Bytes, sr: Bytes, p: Bytes)
    requires |a| == 2 * j + 1 < |d|
    requires fr == sr || |sr| == HASH_SIZE
    requires Agrees(Up(h, a), Up(h, d), fr, HashChildren(h, sr, p))
    ensures || Agrees(a, d, fr, sr)
            || Collides(h, StepCollision(h, a, d, fr, sr, p))
            || Collides(h, PairsCollision(h, a, d, j))
  {
    PairsInjective(h, a, d, j);
    assert 2 * j % 2 == 0 && 2 * j / 2 == j;
    MergeSound(h, 2 * j, sr, p, d);
    assert Up(h, a)[j] == Parent(h, a, j);
  }

  /** One level down where the last old node is the last new node and is promoted. */
  lemma {:induction false} PromotedStep(h: HashFn, a: seq<Digest>, d: seq<Digest>, j: nat, fr: Bytes, sr: Bytes)
    requires |a| == |d| == 2 * j + 1
    requires Agrees(Up(h, a), Up(h, d), fr, sr)
    ensures Agrees(a, d, fr, sr) || Collides(h, PairsCollision(h, a, d, j))
  {
    PairsInjective(h, a, d, j);
    assert Up(h, a)[j] == Parent(h, a, j) && Up(h, d)[j] == Parent(h, d, j);
  }

  /** The two walks, from the last node of a, reach the roots of a and d. */
  ghost predicate Walks(h: HashFn, a: seq<Digest>, d: seq<Digest>, fr: Bytes, sr: Bytes, proof: seq<Bytes>)
    requires 0 < |a| <= |d|
  {
    && ClimbOld(h, fr, |a| - 1, |d|, proof) == Some(Root(h, a))
    && Climb(h, sr, |a| - 1, |d|, proof) == Some(Root(h, d))
  }

  lemma {:induction false} WalkPromoted(h: HashFn, a: seq<Digest>, d: seq<Digest>, fr: Bytes, sr: Bytes,
                                        proof: seq<Bytes>)
    requires 0 < |a| <= |d| && |d| > 1 && Sibling(|a| - 1, d) == []
    requires Walks(h, a, d, fr, sr, proof)
    ensures Walks(h, Up(h, a), Up(h, d), fr, sr, proof)
  {
    assert (|a| - 1) / 2 == |Up(h, a)| - 1;
    RootUp(h, a);
    RootUp(h, d);
  }

  lemma {:induction false} WalkMerged(h: HashFn, a: seq<Digest>, d: seq<Digest>, fr: Bytes, sr: Bytes,
                                      proof: seq<Bytes>)
    requires 0 < |a| <= |d| && Sibling(|a| - 1, d) != []
    requires Walks(h, a, d, fr, sr, proof)
    ensures proof != []
    ensures var p := proof[0];
            Walks(h, Up(h, a), Up(h, d), MergeOld(h, |a| - 1, fr, p), Merge(h, |a| - 1, sr, p), proof[1..])
  {
    assert (|a| - 1) / 2 == |Up(h, a)| - 1;
    RootUp(h, a);
    RootUp(h, d);
  }

  /** A collision found one level up, or on the way, is the collision of the walk. */
  lemma {:induction false} PromotedCollides(h: HashFn, a: seq<Digest>, d: seq<Digest>, fr: Bytes, sr: Bytes,
                                            proof: seq<Bytes>)
    requires 0 < |a| <= |d| && |d| > 1 && Sibling(|a| - 1, d) == []
    ensures Collides(h, PairsCollision(h, a, d, (|a| - 1) / 2)) ==> Collides(h, WalkCollision(h, a, d, fr, sr, proof))
    ensures Collides(h, WalkCollision(h, Up(h, a), Up(h, d), fr, sr, proof)) ==>
        Collides(h, WalkCollision(h, a, d, fr, sr, proof))
  {
  }

  lemma {:induction false} MergedCollides(h: HashFn, a: seq<Digest>, d: seq<Digest>, fr: Bytes, sr: Bytes,
                                          proof: seq<Bytes>)
    requires 0 < |a| <= |d| && Sibling(|a| - 1, d) != [] && proof != []
    ensures var fn, p := |a| - 1, proof[0];
            && (Collides(h, PairsCollision(h, a, d, fn / 2)) ==> Collides(h, WalkCollision(h, a, d, fr, sr, proof)))
            && (Collides(h, StepCollision(h, a, d, fr, sr, p)) ==> Collides(h, WalkCollision(h, a, d, fr, sr, proof)))
            && (var fr', sr' := MergeOld(h, fn, fr, p), Merge(h, fn, sr, p);
                Collides(h, WalkCollision(h, Up(h, a), Up(h, d), fr', sr', proof[1..])) ==>
                  Collides(h, WalkCollision(h, a, d, fr, sr, proof)))
  {
  }

  /** Soundness of the walks, jointly for both roots and for proof elements of any length. */
  lemma {:induction false} WalkSound(h: HashFn, a: seq<Digest>, d: seq<Digest>, fr: Bytes, sr: Bytes, proof: seq<Bytes>)
    requires 0 < |a| <= |d|
    requires fr == sr || |sr| == HASH_SIZE
    requires Walks(h, a, d, fr, sr, proof)
    ensures Agrees(a, d, fr, sr) || Collides(h, WalkCollision(h, a, d, fr, sr, proof))
    decreases |d|
  {
    if |d| > 1 {
      var fn, j := |a| - 1, (|a| - 1) / 2;
      if Sibling(fn, d) == [] {
        WalkPromoted(h, a, d, fr, sr, proof);
        WalkSound(h, Up(h, a), Up(h, d), fr, sr, proof);
        if Agrees(Up(h, a), Up(h, d), fr, sr) {
          PromotedStep(h, a, d, j, fr, sr);
        }
        PromotedCollides(h, a, d, fr, sr, proof);
      } else {
        var p := proof[0];
        WalkMerged(h, a, d, fr, sr, proof);
        WalkSound(h, Up(h, a), Up(h, d), MergeOld(h, fn, fr, p), Merge(h, fn, sr, p), proof[1..]);
        if Agrees(Up(h, a), Up(h, d), MergeOld(h, fn, fr, p), Merge(h, fn, sr, p)) {
          if fn % 2 == 1 {
            OddStep(h, a, d, j, fr, sr, p);
          } else {
            EvenStep(h, a, d, j, fr, sr, p);
          }
        }
        MergedCollides(h, a, d, fr, sr, proof);
      }
    }
  }

  /** Where an accepted consistency proof for a log that was rewritten hides its collision. */
  function StripCollision(h: HashFn, a: seq<Digest>, d: seq<Digest>, first: Bytes, proof: seq<Bytes>): Pair
    requires 0 < |a| <= |d|
    decreases |d|
  {
    if |a| % 2 == 0 then
      Either(h, PairsCollision(h, a, d, |a| / 2), StripCollision(h, Up(h, a), Up(h, d), first, proof))
    else
      WalkCollision(h, a, d, first, first, proof)
  }

  /** The two walks, from the level on which the verifier starts. */
  ghost predicate StripWalks(h: HashFn, a: seq<Digest>, d: seq<Digest>, first: Bytes, proof: seq<Bytes>)
    requires 0 < |a| <= |d|
  {
    var fn, n := Strip(|a| - 1), StripSize(|a| - 1, |d|);
    && ClimbOld(h, first, fn, n, proof) == Some(Root(h, a))
    && Climb(h, first, fn, n, proof) == Some(Root(h, d))
  }

  lemma {:induction false} StripUp(h: HashFn, a: seq<Digest>, d: seq<Digest>, first: Bytes, proof: seq<Bytes>)
    requires 0 < |a| <= |d| && |a| % 2 == 0
    requires StripWalks(h, a, d, first, proof)
    ensures StripWalks(h, Up(h, a), Up(h, d), first, proof)
  {
    StripNumbers(|a|, |d|);
    RootUp(h, a);
    RootUp(h, d);
  }

  lemma {:induction false} StripNumbers(m: nat, n: nat)
    requires 0 < m <= n && m % 2 == 0
    ensures HalfUp(m) == m / 2 && Strip(m - 1) == Strip(m / 2 - 1)
    ensures StripSize(m - 1, n) == StripSize(m / 2 - 1, HalfUp(n))
  {
    assert (m - 1) / 2 == m / 2 - 1;
  }

  lemma {:induction false} StripSound(h: HashFn, a: seq<Digest>, d: seq<Digest>, first: Bytes, proof: seq<Bytes>)
    requires 0 < |a| <= |d|
    requires StripWalks(h, a, d, first, proof)
    ensures a <= d || Collides(h, StripCollision(h, a, d, first, proof))
    decreases |d|
  {
    if |a| % 2 == 0 {
      StripUp(h, a, d, first, proof);
      StripSound(h, Up(h, a), Up(h, d), first, proof);
      if Up(h, a) <= Up(h, d) {
        EvenBelow(h, a, d, |a| / 2);
      }
    } else {
      StripDone(h, a, d, first, proof);
      WalkSound(h, a, d, first, first, proof);
      if Agrees(a, d, first, first) {
        LastAgrees(a, d);
      }
    }
  }

  lemma {:induction false} EvenBelow(h: HashFn, a: seq<Digest>, d: seq<Digest>, j: nat)
    requires |a| == 2 * j <= |d| && Up(h, a) <= Up(h, d)
    ensures a <= d || Collides(h, PairsCollision(h, a, d, j))
  {
    PairsInjective(h, a, d, j);
    assert a[..2 * j] == a;
  }

  lemma {:induction false} StripDone(h: HashFn, a: seq<Digest>, d: seq<Digest>, first: Bytes, proof: seq<Bytes>)
    requires 0 < |a| <= |d| && |a| % 2 == 1
    requires StripWalks(h, a, d, first, proof)
    ensures Walks(h, a, d, first, first, proof)
  {
  }

  lemma {:induction false} LastAgrees(a: seq<Digest>, d: seq<Digest>)
    requires 0 < |a| <= |d|
    requires var fn := |a| - 1; a[..fn] == d[..fn] && a[fn] == d[fn]
    ensures a <= d
  {
    assert a == a[..|a| - 1] + [a[|a| - 1]];
  }

  function ConsistencyCollision(h: HashFn, a: seq<Digest>, d: seq<Digest>, proof: seq<Bytes>): Pair
    requires |a| <= |d|
  {
    if |a| == |d| then RootCollision(h, a, d)
    else if |a| == 0 then NO_PAIR
    else if Strip(|a| - 1) == 0 then StripCollision(h, a, d, Root(h, a), proof)
    else if proof == [] then NO_PAIR
    else StripCollision(h, a, d, proof[0], proof[1..])
  }

  /** Soundness: if any proof at all, with elements of any length, is accepted for the roots of
      two logs, the older log is a prefix of the newer, or a collision of `h` is computed. */
  lemma {:induction false} ConsistencySound(h: HashFn, a: seq<Digest>, d: seq<Digest>, proof: seq<Bytes>)
    requires ConsistencyVerdict(h, Root(h, a), Root(h, d), |a|, |d|, proof) == Accepted
    ensures |a| <= |d|
    ensures a <= d || Collides(h, ConsistencyCollision(h, a, d, proof))
  {
    if |a| == |d| {
      RootInjective(h, a, d);
    } else if |a| > 0 {
      if Strip(|a| - 1) == 0 {
        StripSound(h, a, d, Root(h, a), proof);
      } else {
        StripSound(h, a, d, proof[0], proof[1..]);
      }
    }
  }

  // The verdict on other inputs

  /** The sizes that need no walk, and which error each refusal is. */
  lemma {:induction false} TrivialSizes(h: HashFn, oldRoot: Bytes, newRoot: Bytes, m: nat, n: nat, proof: seq<Bytes>)
    ensures var verdict := ConsistencyVerdict(h, oldRoot, newRoot, m, n, proof);
            && (m > n <==> verdict == Rejected(SizeRegression))
            && (m == n ==> (verdict == Accepted <==> oldRoot == newRoot && proof == []))
            && (m == n ==> (verdict == Rejected(RootMismatch) <==> oldRoot != newRoot))
            && (m == n ==> (verdict == Rejected(InvalidProof) <==> oldRoot == newRoot && proof != []))
            && (m == 0 < n ==> verdict == if proof == [] then Accepted else Rejected(InvalidProof))
  {
  }

  /** A proof of the right length is never invalid: it is accepted, or the roots do not match. */
  lemma {:induction false} RightLengthDecided(h: HashFn, m: nat, leaves: seq<Digest>, oldRoot: Bytes, newRoot: Bytes,
                                              proof: seq<Bytes>)
    requires 0 < m < |leaves| && |proof| == |RangeProof(h, m, leaves)|
    ensures var verdict := ConsistencyVerdict(h, oldRoot, newRoot, m, |leaves|, proof);
            verdict == Accepted || verdict == Rejected(RootMismatch)
  {
    var i, level := Strip(m - 1), StripLevel(h, m - 1, leaves);
    RangeProofLength(h, m, leaves);
    if i == 0 {
      WalkDecided(h, oldRoot, i, level, proof);
    } else {
      WalkDecided(h, proof[0], i, level, proof[1..]);
    }
  }

  lemma {:induction false} RangeProofLength(h: HashFn, m: nat, leaves: seq<Digest>)
    requires 0 < m < |leaves|
    ensures var i, level := Strip(m - 1), StripLevel(h, m - 1, leaves);
            && |level| == StripSize(m - 1, |leaves|)
            && |RangeProof(h, m, leaves)| == (if i == 0 then 0 else 1) + |AuditPath(h, i, level)|
  {
    SubproofStrip(h, m, leaves);
    StripLevelSize(h, m - 1, leaves);
  }

  lemma {:induction false} WalkDecided(h: HashFn, first: Bytes, i: nat, level: seq<Digest>, work: seq<Bytes>)
    requires i < |level| && |work| == |AuditPath(h, i, level)|
    ensures ClimbOld(h, first, i, |level|, work).Some? && Climb(h, first, i, |level|, work).Some?
  {
    WalksAgree(h, first, first, i, |level|, work);
    ClimbLength(h, first, i, level, work);
  }

  /** The verdict for small sizes in terms of the hashed bytes, for roots and proof elements of any
      length: one leaf grown to two, two to three, and three to four. */
  lemma {:induction false} ReferenceConsistency(h: HashFn, oldRoot: Bytes, newRoot: Bytes, p: Bytes, q: Bytes, r: Bytes)
    ensures ConsistencyVerdict(h, oldRoot, newRoot, 1, 2, [p]) == Accepted <==> newRoot == h([0x01] + (oldRoot + p))
    ensures ConsistencyVerdict(h, oldRoot, newRoot, 2, 3, [p]) == Accepted <==> newRoot == h([0x01] + (oldRoot + p))
    ensures ConsistencyVerdict(h, oldRoot, newRoot, 3, 4, [p, q, r]) == Accepted
       <==> oldRoot == h([0x01] + (r + p)) && newRoot == h([0x01] + (r + h([0x01] + (p + q))))
  {
    ReferenceWalks(h, oldRoot, p, [p], [q, r]);
    assert [p, q, r][1..] == [q, r];
    assert Strip(0) == 0 && StripSize(0, 2) == 2;
    assert Strip(1) == 0 && StripSize(1, 3) == 2;
    assert Strip(2) == 2 && StripSize(2, 4) == 4;
  }

  lemma {:induction false} ReferenceWalks(h: HashFn, fr: Bytes, p: Bytes, one: seq<Bytes>, two: seq<Bytes>)
    requires |one| == 1 && |two| == 2
    ensures ClimbOld(h, fr, 0, 2, one) == Some(fr) && Climb(h, fr, 0, 2, one) == Some(HashChildren(h, fr, one[0]))
    ensures ClimbOld(h, p, 2, 4, two) == Some(HashChildren(h, two[1], p))
    ensures Climb(h, p, 2, 4, two) == Some(HashChildren(h, two[1], HashChildren(h, p, two[0])))
  {
    assert one[1..] == [] && two[1..][1..] == [] && two[1..][0] == two[1];
  }
}
