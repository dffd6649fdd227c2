/** Anchoring: one committer snapshots a growing tree and commits (size, root) to a ledger that
    only accepts growing sizes.

    A commit is broadcast as a transaction; the transaction may be mined at any later time, after
    other transactions, or never, and the committer may or may not learn that it was. */
module Anchoring {
  import opened Hashing
  import opened MerkleTreeHash
  import opened Inclusion
  import opened Consistency
  import opened Wrappers
  import Verifier

  /** An entry of the ledger. */
  datatype Entry = Entry(treeSize: nat, root: Digest, timestamp: int, blockNumber: nat)

  datatype Revert = NotCommitter | EmptyTree | TreeShrank(last: nat, next: nat) | ZeroAddress | OutOfBounds

  /** The contract's check: sizes are positive and strictly growing. */
  function ContractCheck(ledger: seq<Entry>, treeSize: nat): Option<Revert> {
    if treeSize == 0 then Some(EmptyTree)
    else if |ledger| > 0 && treeSize <= ledger[|ledger| - 1].treeSize
        then Some(TreeShrank(ledger[|ledger| - 1].treeSize, treeSize))
    else None
  }

  datatype Fate = Pending | Mined | Reverted

  datatype Tx = Tx(treeSize: nat, root: Digest, timestamp: int, fate: Fate)

  /** The tree, the ledger, every transaction broadcast so far, the one the committer waits for,
      and what the committer remembers: the last reported size and the anchor shown to readers. */
  datatype World = World(leaves: seq<Digest>, ledger: seq<Entry>, pool: seq<Tx>, inflight: Option<nat>,
                         lastCommitted: nat, latest: Option<(nat, Digest)>)

  const GENESIS: World := World([], [], [], None, 0, None)

  datatype Act =
    | AppendLeaf(leaf: Digest)
    | Broadcast(now: int)            // a tick: snapshot, decide, send
    | Mine(index: nat, block: nat)   // the chain executes a pending transaction
    | Report(ok: bool)               // the client call returns

  function MineTx(w: World, i: nat, block: nat): World
    requires i < |w.pool|
  {
    var tx := w.pool[i];
    if ContractCheck(w.ledger, tx.treeSize).None? then
      w.(ledger := w.ledger + [Entry(tx.treeSize, tx.root, tx.timestamp, block)],
         pool := w.pool[i := tx.(fate := Mined)])
    else w.(pool := w.pool[i := tx.(fate := Reverted)])
  }

  function Do(h: HashFn, w: World, act: Act): World {
    match act
    case AppendLeaf(leaf) => w.(leaves := w.leaves + [leaf])
    case Broadcast(now) =>
      var size := |w.leaves|;
      if w.inflight.Some? || size == 0 || size <= w.lastCommitted then w
      else w.(pool := w.pool + [Tx(size, Root(h, w.leaves), now, Pending)], inflight := Some(|w.pool|))
    case Mine(i, block) => if i < |w.pool| && w.pool[i].fate.Pending? then MineTx(w, i, block) else w
    case Report(ok) =>
      if w.inflight.None? || w.inflight.value >= |w.pool| then w
      else
        var tx := w.pool[w.inflight.value];
        if !ok then w.(inflight := None)
        else if tx.fate.Mined? then
          w.(inflight := None, lastCommitted := tx.treeSize, latest := Some((tx.treeSize, tx.root)))
        else w
  }

  function RunAnchors(h: HashFn, acts: seq<Act>): World {
    if acts == [] then GENESIS else Do(h, RunAnchors(h, acts[..|acts| - 1]), acts[|acts| - 1])
  }

  // Invariant

  /** A positive size of the tree, with the root of that many leaves. */
  predicate Genuine(h: HashFn, leaves: seq<Digest>, size: nat, root: Digest) {
    0 < size <= |leaves| && root == Root(h, leaves[..size])
  }

  ghost predicate Growing(ledger: seq<Entry>) {
    forall i, j :: 0 <= i < j < |ledger| ==> ledger[i].treeSize < ledger[j].treeSize
  }

  predicate Anchored(ledger: seq<Entry>, size: nat, root: Digest) {
    exists k :: 0 <= k < |ledger| && ledger[k].treeSize == size && ledger[k].root == root
  }

  ghost predicate WorldOk(h: HashFn, w: World) {
    && (forall k :: 0 <= k < |w.ledger| ==> Genuine(h, w.leaves, w.ledger[k].treeSize, w.ledger[k].root))
    && Growing(w.ledger)
    && (forall i :: 0 <= i < |w.pool| ==> Genuine(h, w.leaves, w.pool[i].treeSize, w.pool[i].root))
    && (forall i :: 0 <= i < |w.pool| && w.pool[i].fate.Mined? ==>
        Anchored(w.ledger, w.pool[i].treeSize, w.pool[i].root))
    && (w.latest.None? ==> w.lastCommitted == 0)
    && (w.latest.Some? ==> w.latest.value.0 == w.lastCommitted)
    && (w.latest.Some? ==> Anchored(w.ledger, w.latest.value.0, w.latest.value.1))
  }

  lemma {:induction false} GenuineGrows(h: HashFn, leaves: seq<Digest>, leaf: Digest, size: nat, root: Digest)
    requires Genuine(h, leaves, size, root)
    ensures Genuine(h, leaves + [leaf], size, root)
  {
    assert (leaves + [leaf])[..size] == leaves[..size];
  }

  lemma {:induction false} AnchoredGrows(ledger: seq<Entry>, e: Entry, size: nat, root: Digest)
    ensures Anchored(ledger, size, root) ==> Anchored(ledger + [e], size, root)
    ensures Anchored(ledger + [e], e.treeSize, e.root)
  {
    if Anchored(ledger, size, root) {
      var k :| 0 <= k < |ledger| && ledger[k].treeSize == size && ledger[k].root == root;
      assert (ledger + [e])[k] == ledger[k];
    }
    assert (ledger + [e])[|ledger|] == e;
  }

  lemma {:induction false} AppendKeeps(h: HashFn, w: World, leaf: Digest)
    requires WorldOk(h, w)
    ensures WorldOk(h, Do(h, w, AppendLeaf(leaf)))
  {
    forall k | 0 <= k < |w.ledger|
      ensures Genuine(h, w.leaves + [leaf], w.ledger[k].treeSize, w.ledger[k].root)
    {
      GenuineGrows(h, w.leaves, leaf, w.ledger[k].treeSize, w.ledger[k].root);
    }
    forall i | 0 <= i < |w.pool|
      ensures Genuine(h, w.leaves + [leaf], w.pool[i].treeSize, w.pool[i].root)
    {
      GenuineGrows(h, w.leaves, leaf, w.pool[i].treeSize, w.pool[i].root);
    }
  }

  /** The new entry is as genuine as its transaction, and larger than every other. */
  lemma {:induction false} MinedLedger(h: HashFn, leaves: seq<Digest>, ledger: seq<Entry>, e: Entry)
    requires Growing(ledger) && ContractCheck(ledger, e.treeSize).None?
    requires Genuine(h, leaves, e.treeSize, e.root)
    requires forall k :: 0 <= k < |ledger| ==> Genuine(h, leaves, ledger[k].treeSize, ledger[k].root)
    ensures Growing(ledger + [e])
    ensures var ledger' := ledger + [e];
            forall k :: 0 <= k < |ledger'| ==> Genuine(h, leaves, ledger'[k].treeSize, ledger'[k].root)
  {
  }

  lemma {:induction false} MineKeeps(h: HashFn, w: World, i: nat, block: nat)
    requires WorldOk(h, w) && i < |w.pool|
    ensures WorldOk(h, MineTx(w, i, block))
  {
    var tx, w' := w.pool[i], MineTx(w, i, block);
    if ContractCheck(w.ledger, tx.treeSize).None? {
      var e := Entry(tx.treeSize, tx.root, tx.timestamp, block);
      MinedLedger(h, w.leaves, w.ledger, e);
      forall j | 0 <= j < |w'.pool| && w'.pool[j].fate.Mined?
        ensures Anchored(w'.ledger, w'.pool[j].treeSize, w'.pool[j].root)
      {
        AnchoredGrows(w.ledger, e, w'.pool[j].treeSize, w'.pool[j].root);
      }
      if w.latest.Some? {
        AnchoredGrows(w.ledger, e, w.latest.value.0, w.latest.value.1);
      }
    }
  }

  lemma {:induction false} DoKeeps(h: HashFn, w: World, act: Act)
    requires WorldOk(h, w)
    ensures WorldOk(h, Do(h, w, act))
  {
    match act
    case AppendLeaf(leaf) => AppendKeeps(h, w, leaf);
    case Broadcast(now) => assert w.leaves[..|w.leaves|] == w.leaves;
    case Mine(i, block) =>
      if i < |w.pool| {
        MineKeeps(h, w, i, block);
      }
    case Report(ok) =>
  }

  lemma {:induction false} WorldAlwaysOk(h: HashFn, acts: seq<Act>)
    ensures WorldOk(h, RunAnchors(h, acts))
    decreases |acts|
  {
    if acts != [] {
      WorldAlwaysOk(h, acts[..|acts| - 1]);
      DoKeeps(h, RunAnchors(h, acts[..|acts| - 1]), acts[|acts| - 1]);
    }
  }

  // Results

  /** The ledger and the tree only grow: entries and leaves never change. */
  lemma {:induction false} NothingIsRewritten(h: HashFn, acts: seq<Act>, more: seq<Act>)
    ensures RunAnchors(h, acts).ledger <= RunAnchors(h, acts + more).ledger
    ensures RunAnchors(h, acts).leaves <= RunAnchors(h, acts + more).leaves
    decreases |more|
  {
    if more == [] {
      assert acts + more == acts;
    } else {
      var init := more[..|more| - 1];
      NothingIsRewritten(h, acts, init);
      assert (acts + more)[..|acts + more| - 1] == acts + init;
    }
  }

  /** Anchors verify for ever: in every run, however commits are mined and reported, ledger sizes
      are positive and strictly increasing, every anchored root is the root of that many leaves of
      the current tree, and the historical check accepts it. */
  lemma {:induction false} AnchorsVerify(h: HashFn, acts: seq<Act>, atProof: seq<Digest>, k: nat)
    requires k < |RunAnchors(h, acts).ledger| && RunAnchors(h, acts).leaves <= atProof
    ensures var w := RunAnchors(h, acts); var e := w.ledger[k];
            && 0 < e.treeSize <= |w.leaves|
            && (k > 0 ==> w.ledger[k - 1].treeSize < e.treeSize)
            && e.root == Root(h, w.leaves[..e.treeSize])
            && Verifier.HistoricalVerdict(h, w.leaves, w.leaves, atProof, e.root, e.treeSize) == Accepted
  {
    var w := RunAnchors(h, acts);
    WorldAlwaysOk(h, acts);
    assert Genuine(h, w.leaves, w.ledger[k].treeSize, w.ledger[k].root);
    Verifier.VerifierExact(h, w.leaves, atProof, w.ledger[k].root, w.ledger[k].treeSize);
  }

  /** What the committer reports to readers is on the ledger, and it never claims a size the
      ledger does not have, so a size it skips is anchored. */
  lemma {:induction false} ReportedIsAnchored(h: HashFn, acts: seq<Act>)
    ensures var w := RunAnchors(h, acts);
            && (w.latest.Some? ==> Anchored(w.ledger, w.latest.value.0, w.latest.value.1))
            && (w.lastCommitted > 0 ==> w.ledger != [] && w.lastCommitted <= w.ledger[|w.ledger| - 1].treeSize)
  {
    WorldAlwaysOk(h, acts);
    var w := RunAnchors(h, acts);
    if w.lastCommitted > 0 {
      var k :| 0 <= k < |w.ledger| && w.ledger[k].treeSize == w.latest.value.0 && w.ledger[k].root == w.latest.value.1;
      assert k < |w.ledger| - 1 ==> w.ledger[k].treeSize < w.ledger[|w.ledger| - 1].treeSize;
    }
  }

  /** The audit guarantee: take an anchor of a past run, any later log `d` the operator presents,
      any accepted consistency proof from the anchored root to the root of `d`, and any accepted
      inclusion proof under that root for an anchored position.  The proved leaf is the leaf that
      was in the tree when the anchor was made, or a collision is computed. */
  lemma {:induction false} AnchoredLeavesAreFixed(h: HashFn, acts: seq<Act>, k: nat, d: seq<Digest>, proof: seq<Bytes>,
                                                  leafHash: Bytes, idx: nat, path: seq<Bytes>)
    requires k < |RunAnchors(h, acts).ledger|
    requires var e := RunAnchors(h, acts).ledger[k];
             && ConsistencyVerdict(h, e.root, Root(h, d), e.treeSize, |d|, proof) == Accepted
             && idx < e.treeSize
    requires InclusionVerdict(h, leafHash, idx, |d|, path, Root(h, d)) == Accepted
    ensures var w := RunAnchors(h, acts); var e := w.ledger[k];
            && idx < |d| && idx < e.treeSize <= |w.leaves| && e.treeSize <= |d|
            && (|| leafHash == w.leaves[idx]
                || Collides(h, InclusionCollision(h, leafHash, idx, d, path))
                || Collides(h, ConsistencyCollision(h, w.leaves[..e.treeSize], d, proof)))
  {
    var w := RunAnchors(h, acts);
    var e := w.ledger[k];
    WorldAlwaysOk(h, acts);
    assert Genuine(h, w.leaves, e.treeSize, e.root);
    ConsistencySound(h, w.leaves[..e.treeSize], d, proof);
    InclusionSound(h, leafHash, idx, d, path);
    assert w.leaves[..e.treeSize] <= d ==> d[idx] == w.leaves[..e.treeSize][idx];
  }

  /** A commit is refused exactly for size zero and for a size that does not exceed the last entry's. */
  lemma {:induction false} ContractCheckExact(ledger: seq<Entry>, treeSize: nat)
    ensures var n := |ledger|;
            && (ContractCheck(ledger, treeSize) == None
                <==> treeSize > 0 && (n == 0 || ledger[n - 1].treeSize < treeSize))
            && (ContractCheck(ledger, treeSize) == Some(EmptyTree) <==> treeSize == 0)
            && (n > 0 && 0 < treeSize <= ledger[n - 1].treeSize ==>
                  ContractCheck(ledger, treeSize) == Some(TreeShrank(ledger[n - 1].treeSize, treeSize)))
  {
  }

  /** One undisturbed commit of a tree larger than the last entry and than the last reported size: it is
      anchored, remembered and shown. */
  lemma {:induction false} UndisturbedCommit(h: HashFn, w: World, now: int, block: nat)
    requires w.inflight.None? && |w.leaves| > w.lastCommitted
    requires w.ledger == [] || w.ledger[|w.ledger| - 1].treeSize < |w.leaves|
    ensures var size, root := |w.leaves|, Root(h, w.leaves);
            var w' := Do(h, Do(h, Do(h, w, Broadcast(now)), Mine(|w.pool|, block)), Report(true));
            && w'.ledger == w.ledger + [Entry(size, root, now, block)]
            && w'.lastCommitted == size && w'.latest == Some((size, root))
            && w'.inflight == None && w'.leaves == w.leaves
  {
    ContractCheckExact(w.ledger, |w.leaves|);
  }

  /** In any reachable world of an idle committer that knows the last entry, growth by one leaf is
      enough for a commit, and without growth a tick does nothing. */
  lemma {:induction false} GrowthIsCommitted(h: HashFn, acts: seq<Act>, now: int, block: nat)
    requires var w := RunAnchors(h, acts);
             && w.inflight.None?
             && (w.ledger == [] || w.ledger[|w.ledger| - 1].treeSize == w.lastCommitted)
    ensures var w := RunAnchors(h, acts);
            var size := |w.leaves|;
            var w' := Do(h, Do(h, Do(h, w, Broadcast(now)), Mine(|w.pool|, block)), Report(true));
            && (size == w.lastCommitted ==> Do(h, w, Broadcast(now)) == w)
            && (size > w.lastCommitted ==> w'.ledger == w.ledger + [Entry(size, Root(h, w.leaves), now, block)])
            && size >= w.lastCommitted
  {
    var w := RunAnchors(h, acts);
    WorldAlwaysOk(h, acts);
    ReportedIsAnchored(h, acts);
    assert w.ledger != [] ==> Genuine(h, w.leaves, w.ledger[|w.ledger| - 1].treeSize, w.ledger[|w.ledger| - 1].root);
    if |w.leaves| > w.lastCommitted {
      UndisturbedCommit(h, w, now, block);
    }
  }

  /** A tick sends the snapshot of a grown tree when no call is in flight, and nothing otherwise. */
  lemma {:induction false} BroadcastExact(h: HashFn, w: World, now: int)
    ensures var w' := Do(h, w, Broadcast(now));
            if w.inflight == None && |w.leaves| > w.lastCommitted then
              && w'.pool == w.pool + [Tx(|w.leaves|, Root(h, w.leaves), now, Pending)]
              && w'.inflight == Some(|w.pool|)
              && w'.ledger == w.ledger && w'.lastCommitted == w.lastCommitted && w'.latest == w.latest
            else w' == w
  {
  }

  /** Mining runs a pending transaction once: it adds its entry or reverts, by the growth of the ledger. */
  lemma {:induction false} MineExact(h: HashFn, w: World, i: nat, block: nat)
    requires i < |w.pool|
    ensures var tx, w', n := w.pool[i], Do(h, w, Mine(i, block)), |w.ledger|;
            var grows := tx.treeSize > 0 && (n == 0 || w.ledger[n - 1].treeSize < tx.treeSize);
            && (tx.fate != Pending ==> w' == w)
            && (tx.fate == Pending ==>
                  && w'.ledger == w.ledger + (if grows then [Entry(tx.treeSize, tx.root, tx.timestamp, block)] else [])
                  && w'.pool == w.pool[i := tx.(fate := if grows then Mined else Reverted)]
                  && w'.lastCommitted == w.lastCommitted && w'.latest == w.latest)
  {
    ContractCheckExact(w.ledger, w.pool[i].treeSize);
  }

  /** A report ends the call in flight.  Success, which needs a mined transaction, moves what the
      committer remembers and shows; failure moves nothing, even when the transaction was mined. */
  lemma {:induction false} ReportExact(h: HashFn, w: World, ok: bool)
    requires w.inflight.Some? && w.inflight.value < |w.pool|
    ensures var tx, w' := w.pool[w.inflight.value], Do(h, w, Report(ok));
            && (!ok ==> w' == w.(inflight := None))
            && (ok && tx.fate == Mined ==>
                  w' == w.(inflight := None, lastCommitted := tx.treeSize, latest := Some((tx.treeSize, tx.root))))
            && (ok && tx.fate != Mined ==> w' == w)
  {
  }
}
