/** The ledger contract, the in-memory client, the cache of the latest anchor and the committer as
    objects. */
module AnchorObjects {
  import opened Hashing
  import opened Wrappers
  import opened Anchoring
  import MerkleTreeHash
  import TreeStore

  type Address = nat

  /** The ledger contract.  The sender and the block number are arguments of each call. */
  class AuditAnchor {
    var owner: Address
    var committer: Address
    var anchors: seq<Entry>

    ghost predicate Valid()
      reads this
    {
      Growing(anchors) && (forall k :: 0 <= k < |anchors| ==> anchors[k].treeSize > 0)
    }

    constructor (sender: Address, initialCommitter: Address)
      ensures Valid() && anchors == [] && owner == sender && committer == initialCommitter
    {
      owner, committer, anchors := sender, initialCommitter, [];
    }

    /** Deployment refuses the zero address. */
    static method Deploy(sender: Address, initialCommitter: Address) returns (r: Result<AuditAnchor, Revert>)
      ensures r.Failure? <==> initialCommitter == 0
      ensures r.Failure? ==> r.error == ZeroAddress
      ensures r.Success? ==> fresh(r.value) && r.value.Valid() && r.value.anchors == []
      ensures r.Success? ==> r.value.owner == sender && r.value.committer == initialCommitter
    {
      if initialCommitter == 0 {
        return Failure(ZeroAddress);
      }
      var c := new AuditAnchor(sender, initialCommitter);
      return Success(c);
    }

    /** Only the committer may commit, only growing sizes, and older entries stay as they are. */
    method Commit(sender: Address, treeSize: nat, root: Digest, timestamp: int, block: nat)
        returns (r: Result<nat, Revert>)
      requires Valid()
      modifies this`anchors
      ensures Valid()
      ensures r == if sender != committer then Failure(NotCommitter)
                   else match ContractCheck(old(anchors), treeSize)
                        case Some(revert) => Failure(revert)
                        case None => Success(|old(anchors)|)
      ensures r.Success? <==>
                sender == committer && treeSize > 0
                && (old(anchors) == [] || old(anchors)[|old(anchors)| - 1].treeSize < treeSize)
      ensures r == Failure(NotCommitter) <==> sender != committer
      ensures r == Failure(EmptyTree) <==> sender == committer && treeSize == 0
      ensures sender == committer && old(anchors) != [] && 0 < treeSize <= old(anchors)[|old(anchors)| - 1].treeSize ==>
                r == Failure(TreeShrank(old(anchors)[|old(anchors)| - 1].treeSize, treeSize))
      ensures anchors == if r.Success? then old(anchors) + [Entry(treeSize, root, timestamp, block)] else old(anchors)
    {
      if sender != committer {
        return Failure(NotCommitter);
      }
      if treeSize == 0 {
        return Failure(EmptyTree);
      }
      var n := |anchors|;
      if n > 0 {
        var last := anchors[n - 1].treeSize;
        if treeSize <= last {
          return Failure(TreeShrank(last, treeSize));
        }
      }
      anchors := anchors + [Entry(treeSize, root, timestamp, block)];
      return Success(n);
    }

    method AnchorAt(id: nat) returns (r: Result<Entry, Revert>)
      ensures r == if id < |anchors| then Success(anchors[id]) else Failure(OutOfBounds)
    {
      if id >= |anchors| {
        return Failure(OutOfBounds);
      }
      return Success(anchors[id]);
    }

    /** The latest entry is the largest. */
    method Latest() returns (r: Result<Entry, Revert>)
      requires Valid()
      ensures r.Failure? <==> anchors == []
      ensures r.Failure? ==> r.error == EmptyTree
      ensures r.Success? ==> r.value in anchors && forall k :: 0 <= k < |anchors| ==>
          anchors[k].treeSize <= r.value.treeSize
    {
      var n := |anchors|;
      if n == 0 {
        return Failure(EmptyTree);
      }
      return Success(anchors[n - 1]);
    }
  }

  datatype AnchorError = ErrTreeShrank | ErrInvalidRoot | ErrEmptyTree | ErrNoAnchorYet | ErrCommitFailed | ErrInjected

  datatype Anchor = Anchor(id: nat, entry: Entry)

  /** The sanity checks shared by committer and client. */
  function ValidateCommit(treeSize: nat, root: Bytes): Option<AnchorError> {
    if treeSize == 0 then Some(ErrEmptyTree)
    else if |root| != HASH_SIZE then Some(ErrInvalidRoot)
    else None
  }

  /** The in-memory client enforces the same growth as the contract. */
  class FakeEVMClient {
    var anchors: seq<Entry>
    var nextId: nat
    var failNext: Option<AnchorError>
    var calls: nat

    /** Ids are positions, and the entries satisfy the contract's invariant. */
    ghost predicate Valid()
      reads this
    {
      nextId == |anchors| && Growing(anchors) && (forall k :: 0 <= k < |anchors| ==> anchors[k].treeSize > 0)
    }

    constructor ()
      ensures Valid() && anchors == [] && failNext == None && calls == 0
    {
      anchors, nextId, failNext, calls := [], 0, None, 0;
    }

    /** Commit in the contract's terms: an armed error is used up by one call that passes the sanity
        checks, and the growth check is the contract's. */
    method Commit(treeSize: nat, root: Bytes, timestamp: int) returns (r: Result<nat, AnchorError>)
      requires Valid()
      modifies this
      ensures Valid() && calls == old(calls) + 1
      ensures failNext == if ValidateCommit(treeSize, root).None? then None else old(failNext)
      ensures r == if ValidateCommit(treeSize, root).Some? then Failure(ValidateCommit(treeSize, root).value)
                   else if old(failNext).Some? then Failure(old(failNext).value)
                   else if ContractCheck(old(anchors), treeSize).Some? then Failure(ErrTreeShrank)
                   else Success(|old(anchors)|)
      ensures r.Success? <==>
                treeSize > 0 && |root| == 32 && old(failNext) == None
                && (old(anchors) == [] || old(anchors)[|old(anchors)| - 1].treeSize < treeSize)
      ensures treeSize == 0 ==> r == Failure(ErrEmptyTree)
      ensures treeSize > 0 && |root| != 32 ==> r == Failure(ErrInvalidRoot)
      ensures treeSize > 0 && |root| == 32 && old(failNext).Some? ==> r == Failure(old(failNext).value)
      ensures treeSize > 0 && |root| == 32 && old(failNext) == None && r.Failure? ==> r.error == ErrTreeShrank
      ensures failNext == if treeSize > 0 && |root| == 32 then None else old(failNext)
      ensures anchors == if r.Success? then old(anchors) + [Entry(treeSize, root, timestamp, 0)] else old(anchors)
    {
      calls := calls + 1;
      var invalid := ValidateCommit(treeSize, root);
      if invalid.Some? {
        return Failure(invalid.value);
      }
      if failNext.Some? {
        r := Failure(failNext.value);
        failNext := None;
        return;
      }
      var n := |anchors|;
      if n > 0 && treeSize <= anchors[n - 1].treeSize {
        return Failure(ErrTreeShrank);
      }
      var id := nextId;
      nextId := nextId + 1;
      anchors := anchors + [Entry(treeSize, root, timestamp, 0)];
      return Success(id);
    }
  }

  /** The anchor shown to readers. */
  class LatestStore {
    var latest: Option<Anchor>

    constructor ()
      ensures latest == None
    {
      latest := None;
    }

    method Set(a: Anchor)
      modifies this
      ensures latest == Some(a)
    {
      latest := Some(a);
    }

    method Latest() returns (r: Result<Anchor, AnchorError>)
      ensures r == if latest.Some? then Success(latest.value) else Failure(ErrNoAnchorYet)
    {
      if latest == None {
        return Failure(ErrNoAnchorYet);
      }
      return Success(latest.value);
    }
  }

  class Committer {
    const tree: TreeStore.Tree
    const client: FakeEVMClient
    const store: LatestStore
    var lastCommitted: nat

    constructor (tree: TreeStore.Tree, client: FakeEVMClient, store: LatestStore)
      ensures this.tree == tree && this.client == client && this.store == store && lastCommitted == 0
    {
      this.tree, this.client, this.store, lastCommitted := tree, client, store, 0;
    }

    /** The part of the world that committer, client and store hold, with no call in flight. */
    function View(): World
      reads this, tree, client, store
    {
      World(tree.leaves, client.anchors, [], None, lastCommitted,
            match store.latest
            case None => None
            case Some(a) => Some((a.entry.treeSize, a.entry.root)))
    }

    /** The unit of work: a grown tree is committed and remembered, and anything else, including a
        failed commit, leaves memory and store as they were. */
    method Commit(now: int) returns (r: Result<Anchor, AnchorError>)
      requires client.Valid()
      modifies this`lastCommitted, client, store
      ensures client.Valid()
      ensures r.Failure? ==> lastCommitted == old(lastCommitted) && store.latest == old(store.latest)
      ensures r.Failure? ==> client.anchors == old(client.anchors)
      ensures |tree.leaves| == 0 ==> r == Failure(ErrEmptyTree)
      ensures 0 < |tree.leaves| <= old(lastCommitted) ==> r == Failure(ErrTreeShrank)
      ensures |tree.leaves| > old(lastCommitted) ==>
                (r.Failure? <==> old(client.failNext).Some? || ContractCheck(old(client.anchors), |tree.leaves|).Some?)
      ensures r.Success? <==>
                |tree.leaves| > old(lastCommitted) && old(client.failNext) == None
                && (old(client.anchors) == []
                    || old(client.anchors)[|old(client.anchors)| - 1].treeSize < |tree.leaves|)
      ensures |tree.leaves| > old(lastCommitted) && r.Failure? ==> r.error == ErrCommitFailed
      ensures r.Success? ==> lastCommitted == |tree.leaves| && client.anchors == old(client.anchors) + [r.value.entry]
      ensures r.Success? ==>
                && r.value == Anchor(|old(client.anchors)|,
                                     Entry(|tree.leaves|, MerkleTreeHash.Root(tree.h, tree.leaves), now, 0))
                && store.latest == Some(r.value)
                && View() == Do(tree.h, Do(tree.h, Do(tree.h, old(View()), Broadcast(now)), Mine(0, 0)),
                                Report(true)).(pool := [])
    {
      var size, root := tree.Snapshot();
      if size == 0 {
        return Failure(ErrEmptyTree);
      }
      if ValidateCommit(size, root) != None {
        return Failure(ErrInvalidRoot);
      }
      if size <= lastCommitted {
        return Failure(ErrTreeShrank);
      }
      var receipt := client.Commit(size, root, now);
      if receipt.Failure? {
        return Failure(ErrCommitFailed);
      }
      UndisturbedCommit(tree.h, old(View()), now, 0);
      var a := Anchor(receipt.value, Entry(size, root, now, 0));
      store.Set(a);
      lastCommitted := size;
      return Success(a);
    }
  }
}
