/** Inclusion proofs: the recursive prover PATH (section 2.1.1 of RFC 6962), the bottom-up
    verifier loop (section 2.1.3.2 of RFC 9162), and the proof that they agree. */
module Inclusion {
  import opened Hashing
  import opened MerkleTreeHash
  import opened Wrappers

  datatype ProofError = SizeRegression | RootMismatch | InvalidProof

  datatype Verdict = Accepted | Rejected(error: ProofError)

  /** PATH(m, D[n]) on the window from lo to hi: the sibling hashes of leaf m, from the leaf up. */
  function Path(h: HashFn, m: nat, leaves: seq<Digest>, lo: nat, hi: nat): seq<Digest>
    requires lo <= m < hi <= |leaves|
    decreases hi - lo
  {
    if lo + 1 == hi then []
    else
      var mid := lo + SplitPoint(hi - lo);
      if m < mid then Path(h, m, leaves, lo, mid) + [Mth(h, leaves, mid, hi)]
      else Path(h, m, leaves, mid, hi) + [Mth(h, leaves, lo, mid)]
  }

  /** The audit path of leaf m in a whole tree. */
  function AuditPath(h: HashFn, m: nat, leaves: seq<Digest>): seq<Digest>
    requires m < |leaves|
  {
    Path(h, m, leaves, 0, |leaves|)
  }

  /** The sibling of node m on its own level, if it has one. */
  function Sibling(m: nat, level: seq<Digest>): seq<Digest>
    requires m < |level|
  {
    if m % 2 == 1 then [level[m - 1]]
    else if m + 1 < |level| then [level[m + 1]]
    else []
  }

  /** The top-down path is the sibling on the leaf level, followed by the path of the parent one
      level up. */
  lemma {:induction false} WindowPathUp(h: HashFn, m: nat, leaves: seq<Digest>, lo: nat, hi: nat, i: nat, j: nat)
    requires Aligned(leaves, lo, hi, i, j) && lo <= m < hi
    ensures i <= m / 2 < j
    ensures Path(h, m, leaves, lo, hi) == Sibling(m, leaves) + Path(h, m / 2, Up(h, leaves), i, j)
    decreases hi - lo
  {
    if hi - lo <= 2 {
      assert m == lo || m == lo + 1;
    } else {
      var mid, up := lo + SplitPoint(hi - lo), i + SplitPoint(j - i);
      HalvesAligned(leaves, lo, hi, i, j);
      MthUp(h, leaves, lo, mid, i, up);
      MthUp(h, leaves, mid, hi, up, j);
      if m < mid {
        WindowPathUp(h, m, leaves, lo, mid, i, up);
      } else {
        WindowPathUp(h, m, leaves, mid, hi, up, j);
      }
      PathGlue(h, m, leaves, lo, mid, hi, m / 2, Up(h, leaves), i, up, j, Sibling(m, leaves));
    }
  }

  /** Two paths that agree, up to a first part, in the half of the window that holds the leaf,
      and see the same hash of the other half, agree in the window. */
  lemma {:induction false} PathGlue(h: HashFn, m: nat, a: seq<Digest>, lo: nat, mid: nat, hi: nat,
                                    n: nat, b: seq<Digest>, i: nat, up: nat, j: nat, first: seq<Digest>)
    requires lo <= m < hi <= |a| && lo + 1 < hi && mid == lo + SplitPoint(hi - lo)
    requires i <= n < j <= |b| && i + 1 < j && up == i + SplitPoint(j - i)
    requires m < mid <==> n < up
    requires m < mid ==> Path(h, m, a, lo, mid) == first + Path(h, n, b, i, up)
    requires m < mid ==> Mth(h, a, mid, hi) == Mth(h, b, up, j)
    requires m >= mid ==> Path(h, m, a, mid, hi) == first + Path(h, n, b, up, j)
    requires m >= mid ==> Mth(h, a, lo, mid) == Mth(h, b, i, up)
    ensures Path(h, m, a, lo, hi) == first + Path(h, n, b, i, j)
  {
    if m < mid {
      Glue(Path(h, m, a, lo, hi), Path(h, m, a, lo, mid), Path(h, n, b, i, j), Path(h, n, b, i, up), first,
           Mth(h, a, mid, hi));
    } else {
      Glue(Path(h, m, a, lo, hi), Path(h, m, a, mid, hi), Path(h, n, b, i, j), Path(h, n, b, up, j), first,
           Mth(h, a, lo, mid));
    }
  }

  lemma {:induction false} Glue(whole: seq<Digest>, part: seq<Digest>, up: seq<Digest>, upPart: seq<Digest>,
                                first: seq<Digest>, last: Digest)
    requires whole == part + [last] && up == upPart + [last] && part == first + upPart
    ensures whole == first + up
  {
  }

  lemma {:induction false} PathUp(h: HashFn, m: nat, leaves: seq<Digest>)
    requires m < |leaves|
    ensures AuditPath(h, m, leaves) == Sibling(m, leaves) + AuditPath(h, m / 2, Up(h, leaves))
  {
    WindowPathUp(h, m, leaves, 0, |leaves|, 0, HalfUp(|leaves|));
  }

  /** One step up: join node fn, with hash r, and its sibling, with hash p. */
  function Merge(h: HashFn, fn: nat, r: Bytes, p: Bytes): Digest {
    if fn % 2 == 1 then HashChildren(h, p, r) else HashChildren(h, r, p)
  }

  /** What a walk from node fn, on a level of n nodes, to the root computes: one level at a
      time, consuming a proof element at each level where the node has a sibling.  `None` when
      the proof is too short or too long. */
  function Climb(h: HashFn, r: Bytes, fn: nat, n: nat, proof: seq<Bytes>): Option<Bytes>
    requires fn < n
    decreases n
  {
    if n == 1 then
      if proof == [] then Some(r) else None
    else if fn % 2 == 0 && fn + 1 == n then
      Climb(h, r, fn / 2, HalfUp(n), proof)
    else if proof == [] then
      None
    else
      Climb(h, Merge(h, fn, r, proof[0]), fn / 2, HalfUp(n), proof[1..])
  }

  predicate AllDigests(proof: seq<Bytes>) {
    forall i :: 0 <= i < |proof| ==> |proof[i]| == HASH_SIZE
  }

  /** The verdict on an inclusion proof, stated by levels. */
  function InclusionVerdict(h: HashFn, leafHash: Bytes, idx: nat, size: nat, proof: seq<Bytes>, root: Bytes): Verdict {
    if idx >= size || |root| != HASH_SIZE || !AllDigests(proof) then Rejected(InvalidProof)
    else
      match Climb(h, leafHash, idx, size, proof)
      case None => Rejected(InvalidProof)
      case Some(r) => if r == root then Accepted else Rejected(RootMismatch)
  }

  /** The loop of the source, with its pair of counters and its inner shift loop that skips
      promoted nodes, computes the verdict. */
  method VerifyInclusionFromHash(h: HashFn, leafHash: Bytes, idx: nat, size: nat, proof: seq<Bytes>, root: Bytes)
    returns (verdict: Verdict)
    ensures verdict == InclusionVerdict(h, leafHash, idx, size, proof, root)
  {
    if size == 0 {
      return Rejected(InvalidProof);
    }
    if idx >= size {
      return Rejected(InvalidProof);
    }
    if |root| != HASH_SIZE {
      return Rejected(InvalidProof);
    }
    var r := leafHash;
    var fn: nat, sn: nat := idx, size - 1;
    for i := 0 to |proof|
      invariant fn <= sn
      invariant AllDigests(proof[..i])
      invariant Climb(h, leafHash, idx, size, proof) == Climb(h, r, fn, sn + 1, proof[i..])
    {
      var p := proof[i];
      if |p| != HASH_SIZE {
        return Rejected(InvalidProof);
      }
      if sn == 0 {
        return Rejected(InvalidProof);
      }
      if fn % 2 == 1 || fn == sn {
        ghost var r0 := r;
        r := HashChildren(h, p, r);
        while fn % 2 == 0 && fn != 0
          invariant 0 < fn <= sn && (fn % 2 == 1 || fn == sn)
          invariant Climb(h, leafHash, idx, size, proof) == Climb(h, r0, fn, sn + 1, proof[i..])
        {
          fn := fn / 2;
          sn := sn / 2;
        }
      } else {
        r := HashChildren(h, r, p);
      }
      fn := fn / 2;
      sn := sn / 2;
      assert proof[i..][1..] == proof[i + 1..];
    }
    assert proof[..|proof|] == proof;
    if sn != 0 {
      ClimbNeedsProof(h, r, fn, sn + 1);
      return Rejected(InvalidProof);
    }
    if r != root {
      return Rejected(RootMismatch);
    }
    return Accepted;
  }

  lemma {:induction false} ClimbNeedsProof(h: HashFn, r: Bytes, fn: nat, n: nat)
    requires fn < n && n > 1
    ensures Climb(h, r, fn, n, []) == None
    decreases n
  {
    if fn % 2 == 0 && fn + 1 == n {
      ClimbNeedsProof(h, r, fn / 2, HalfUp(n));
    }
  }

  /** Climbing along an honest path with any digest in place of leaf m gives the root of the
      leaf list with that digest at position m. */
  lemma {:induction false} ClimbPath(h: HashFn, r: Digest, m: nat, leaves: seq<Digest>)
    requires m < |leaves|
    ensures Climb(h, r, m, |leaves|, AuditPath(h, m, leaves)) == Some(Root(h, leaves[m := r]))
    decreases |leaves|
  {
    if |leaves| > 1 {
      var up := Up(h, leaves);
      var r' := Parent(h, leaves[m := r], m / 2);
      PathUp(h, m, leaves);
      ClimbPath(h, r', m / 2, up);
      UpUpdate(h, r, m, leaves);
      RootUp(h, leaves[m := r]);
      var proof := AuditPath(h, m, leaves);
      if Sibling(m, leaves) != [] {
        assert proof[0] == Sibling(m, leaves)[0] && proof[1..] == AuditPath(h, m / 2, up);
      } else {
        assert proof == AuditPath(h, m / 2, up);
      }
    }
  }

  /** Replacing one node replaces its parent and nothing else one level up. */
  lemma {:induction false} UpUpdate(h: HashFn, r: Digest, m: nat, level: seq<Digest>)
    requires m < |level|
    ensures Up(h, level[m := r]) == Up(h, level)[m / 2 := Parent(h, level[m := r], m / 2)]
  {
    forall i | 0 <= i < HalfUp(|level|) && i != m / 2
      ensures Up(h, level[m := r])[i] == Up(h, level)[i]
    {
      assert Up(h, level[m := r])[i] == Parent(h, level[m := r], i);
      assert Up(h, level)[i] == Parent(h, level, i);
    }
  }

  /** Completeness: for every tree and every leaf of it, the audit path verifies. */
  lemma {:induction false} InclusionComplete(h: HashFn, m: nat, leaves: seq<Digest>)
    requires m < |leaves|
    ensures InclusionVerdict(h, leaves[m], m, |leaves|, AuditPath(h, m, leaves), Root(h, leaves)) == Accepted
  {
    ClimbPath(h, leaves[m], m, leaves);
    assert leaves[m := leaves[m]] == leaves;
  }

  /** The inputs hashed by Merge and for the true parent of node m. */
  function MergePair(m: nat, r: Bytes, p: Bytes, level: seq<Digest>): Pair
    requires m < |level| && Sibling(m, level) != []
  {
    if m % 2 == 1 then NodePair(p, r, level[m - 1], level[m]) else NodePair(r, p, level[m], level[m + 1])
  }

  lemma {:induction false} MergeSound(h: HashFn, m: nat, r: Bytes, p: Bytes, level: seq<Digest>)
    requires m < |level| && Sibling(m, level) != []
    requires Merge(h, m, r, p) == Up(h, level)[m / 2]
    ensures Collides(h, MergePair(m, r, p, level)) ||
            (|p| == HASH_SIZE || |r| == HASH_SIZE ==> r == level[m] && p == Sibling(m, level)[0])
  {
    assert Up(h, level)[m / 2] == Parent(h, level, m / 2);
    var x: Digest, y: Digest := level[m], Sibling(m, level)[0];
    if m % 2 == 1 {
      assert m - 1 == 2 * (m / 2);
      EqualNodes(h, p, r, y, x);
    } else {
      assert m == 2 * (m / 2);
      EqualNodes(h, r, p, x, y);
    }
  }

  /** Where an accepted proof of a wrong leaf hides its collision. */
  function InclusionCollision(h: HashFn, r: Bytes, m: nat, leaves: seq<Digest>, proof: seq<Bytes>): Pair
    requires m < |leaves|
    decreases |leaves|
  {
    if |leaves| == 1 then NO_PAIR
    else if Sibling(m, leaves) == [] then InclusionCollision(h, r, m / 2, Up(h, leaves), proof)
    else if proof == [] then NO_PAIR
    else
      Either(h, MergePair(m, r, proof[0], leaves),
             InclusionCollision(h, Merge(h, m, r, proof[0]), m / 2, Up(h, leaves), proof[1..]))
  }

  /** One level down from a parent that was reached along its path. */
  lemma {:induction false} MergedPath(h: HashFn, m: nat, r: Bytes, leaves: seq<Digest>, proof: seq<Bytes>)
    requires m < |leaves| && Sibling(m, leaves) != []
    requires proof != [] && |proof[0]| == HASH_SIZE
    requires Merge(h, m, r, proof[0]) == Up(h, leaves)[m / 2] && proof[1..] == AuditPath(h, m / 2, Up(h, leaves))
    ensures || (r == leaves[m] && proof == AuditPath(h, m, leaves))
            || Collides(h, MergePair(m, r, proof[0], leaves))
  {
    PathUp(h, m, leaves);
    MergeSound(h, m, r, proof[0], leaves);
    assert proof == [proof[0]] + proof[1..];
  }

  lemma {:induction false} PromotedPath(h: HashFn, m: nat, leaves: seq<Digest>)
    requires m < |leaves| && Sibling(m, leaves) == []
    ensures AuditPath(h, m, leaves) == AuditPath(h, m / 2, Up(h, leaves))
    ensures Up(h, leaves)[m / 2] == leaves[m]
  {
    PathUp(h, m, leaves);
    assert Up(h, leaves)[m / 2] == Parent(h, leaves, m / 2);
  }

  /** Soundness of the climb: whatever the proof elements, reaching the root of `leaves` from
      position m means having started at leaf m and having used its audit path. */
  lemma {:induction false} ClimbSound(h: HashFn, r: Bytes, m: nat, leaves: seq<Digest>, proof: seq<Bytes>)
    requires m < |leaves| && AllDigests(proof)
    requires Climb(h, r, m, |leaves|, proof) == Some(Root(h, leaves))
    ensures || (r == leaves[m] && proof == AuditPath(h, m, leaves))
            || Collides(h, InclusionCollision(h, r, m, leaves, proof))
    decreases |leaves|
  {
    if |leaves| > 1 {
      var up := Up(h, leaves);
      RootUp(h, leaves);
      if Sibling(m, leaves) == [] {
        PromotedPath(h, m, leaves);
        ClimbSound(h, r, m / 2, up, proof);
      } else {
        var r' := Merge(h, m, r, proof[0]);
        ClimbSound(h, r', m / 2, up, proof[1..]);
        if r' == up[m / 2] && proof[1..] == AuditPath(h, m / 2, up) {
          MergedPath(h, m, r, leaves, proof);
        }
      }
    }
  }

  /** Soundness and uniqueness: an accepted proof against the root of `leaves` proves leaf m of
      `leaves` and is its audit path, or a collision of `h` is computed. */
  lemma {:induction false} InclusionSound(h: HashFn, leafHash: Bytes, m: nat, leaves: seq<Digest>, proof: seq<Bytes>)
    requires InclusionVerdict(h, leafHash, m, |leaves|, proof, Root(h, leaves)) == Accepted
    ensures m < |leaves|
    ensures || (leafHash == leaves[m] && proof == AuditPath(h, m, leaves))
            || Collides(h, InclusionCollision(h, leafHash, m, leaves, proof))
  {
    ClimbSound(h, leafHash, m, leaves, proof);
  }

  /** A climb succeeds exactly on proofs of one length, the length of the audit path; the path
      has at most ceil(log2 n) elements. */
  lemma {:induction false} ClimbLength(h: HashFn, r: Bytes, m: nat, leaves: seq<Digest>, proof: seq<Bytes>)
    requires m < |leaves|
    ensures Climb(h, r, m, |leaves|, proof).Some? <==> |proof| == |AuditPath(h, m, leaves)|
    decreases |leaves|
  {
    var n, up := |leaves|, Up(h, leaves);
    if n > 1 {
      PathUp(h, m, leaves);
      if m % 2 == 0 && m + 1 == n {
        ClimbLength(h, r, m / 2, up, proof);
      } else if proof != [] {
        ClimbLength(h, Merge(h, m, r, proof[0]), m / 2, up, proof[1..]);
      }
    }
  }

  /** With no assumption on the hash, a proof of any other length than the audit path is
      rejected as invalid. */
  lemma {:induction false} WrongLengthRejected(h: HashFn, leafHash: Bytes, m: nat, leaves: seq<Digest>,
                                               proof: seq<Bytes>, root: Bytes)
    requires m < |leaves| && |proof| != |AuditPath(h, m, leaves)|
    ensures InclusionVerdict(h, leafHash, m, |leaves|, proof, root) == Rejected(InvalidProof)
  {
    ClimbLength(h, leafHash, m, leaves, proof);
  }

  function Pow2(b: nat): nat {
    if b == 0 then 1 else 2 * Pow2(b - 1)
  }

  /** A tree of at most 2^b leaves has audit paths of at most b elements. */
  lemma {:induction false} PathSize(h: HashFn, m: nat, leaves: seq<Digest>, b: nat)
    requires m < |leaves| <= Pow2(b)
    ensures |AuditPath(h, m, leaves)| <= b
    decreases b
  {
    if |leaves| > 1 {
      PathUp(h, m, leaves);
      PathSize(h, m / 2, Up(h, leaves), b - 1);
    }
  }

  // The verdict on other inputs

  /** Malformed input is invalid: an index outside the tree, a root or a proof element that is not 32
      bytes long. */
  lemma {:induction false} MalformedRejected(h: HashFn, leafHash: Bytes, idx: nat, size: nat, proof: seq<Bytes>,
                                             root: Bytes)
    requires idx >= size || |root| != 32 || exists i :: 0 <= i < |proof| && |proof[i]| != 32
    ensures InclusionVerdict(h, leafHash, idx, size, proof, root) == Rejected(InvalidProof)
  {
  }

  /** With the audit path of leaf m, every leaf hash and every 32-byte root is decided: the root must
      be that of the leaves with the leaf hash at m, and any other is a mismatch. */
  lemma {:induction false} HonestPathExact(h: HashFn, leafHash: Digest, m: nat, leaves: seq<Digest>, root: Digest)
    requires m < |leaves|
    ensures InclusionVerdict(h, leafHash, m, |leaves|, AuditPath(h, m, leaves), root)
         == if root == Root(h, leaves[m := leafHash]) then Accepted else Rejected(RootMismatch)
  {
    ClimbPath(h, leafHash, m, leaves);
  }

  /** The verdict for one, two and three leaves in terms of the hashed bytes, for any leaf hash. */
  lemma {:induction false} ReferenceInclusion(h: HashFn, leafHash: Bytes, root: Digest, p: Digest, q: Digest)
    ensures InclusionVerdict(h, leafHash, 0, 1, [], root) == Accepted <==> root == leafHash
    ensures InclusionVerdict(h, leafHash, 0, 2, [p], root) == Accepted <==> root == h([0x01] + (leafHash + p))
    ensures InclusionVerdict(h, leafHash, 1, 2, [p], root) == Accepted <==> root == h([0x01] + (p + leafHash))
    ensures InclusionVerdict(h, leafHash, 0, 3, [p, q], root) == Accepted
       <==> root == h([0x01] + (h([0x01] + (leafHash + p)) + q))
    ensures InclusionVerdict(h, leafHash, 2, 3, [p], root) == Accepted <==> root == h([0x01] + (p + leafHash))
  {
    ReferenceClimbs(h, leafHash, [p], [p, q]);
  }

  lemma {:induction false} ReferenceClimbs(h: HashFn, r: Bytes, one: seq<Bytes>, two: seq<Bytes>)
    requires |one| == 1 && |two| == 2
    ensures Climb(h, r, 0, 2, one) == Some(HashChildren(h, r, one[0]))
    ensures Climb(h, r, 1, 2, one) == Some(HashChildren(h, one[0], r))
    ensures Climb(h, r, 0, 3, two) == Some(HashChildren(h, HashChildren(h, r, two[0]), two[1]))
    ensures Climb(h, r, 2, 3, one) == Some(HashChildren(h, one[0], r))
  {
    assert one[1..] == [] && two[1..][1..] == [] && two[1..][0] == two[1];
  }
}
