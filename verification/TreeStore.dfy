/** The append-only tree, in memory and on its flat file.

    A file is a byte string with the write offset of the one handle open on it.  The file is
    not opened in append mode: a write goes to the offset, over whatever is there. */
module TreeStore {
  import opened Hashing
  import opened Wrappers
  import MerkleTreeHash
  import Inclusion
  import Consistency

  // The flat file as a value

  /** What a write of `data` at `offset` leaves in a file; a gap is filled with zeros. */
  function Overwrite(content: Bytes, offset: nat, data: Bytes): Bytes {
    var padded := if offset <= |content| then content else content + seq(offset - |content|, _ => 0);
    var end := offset + |data|;
    padded[..offset] + data + (if end < |padded| then padded[end..] else [])
  }

  /** Every byte of the file after a write: the data at the offset, the old content around it, and zeros
      in a gap before it. */
  lemma {:induction false} OverwriteExact(content: Bytes, offset: nat, data: Bytes, i: nat)
    ensures var w, end := Overwrite(content, offset, data), offset + |data|;
            && |w| == (if end < |content| then |content| else end)
            && (i < |w| ==>
                  w[i] == if offset <= i < end then data[i - offset] else if i < |content| then content[i] else 0)
  {
  }

  /** The concatenation of the leaves. */
  function Flat(leaves: seq<Digest>): (b: Bytes)
    ensures |b| == HASH_SIZE * |leaves|
  {
    if leaves == [] then [] else Flat(leaves[..|leaves| - 1]) + leaves[|leaves| - 1]
  }

  /** The i-th 32-byte record of a file. */
  function Record(content: Bytes, i: nat): Digest
    requires HASH_SIZE * (i + 1) <= |content|
  {
    content[HASH_SIZE * i..HASH_SIZE * (i + 1)]
  }

  /** The leaves read from a file, one record at a time. */
  function Records(content: Bytes, n: nat): (leaves: seq<Digest>)
    requires HASH_SIZE * n <= |content|
    ensures |leaves| == n
  {
    if n == 0 then [] else Records(content, n - 1) + [Record(content, n - 1)]
  }

  lemma {:induction false} RecordsFlat(leaves: seq<Digest>, n: nat, torn: Bytes)
    requires n <= |leaves|
    ensures Records(Flat(leaves) + torn, n) == leaves[..n]
    decreases |leaves| + n
  {
    if n > 0 {
      RecordsFlat(leaves, n - 1, torn);
      FlatAt(leaves, n - 1, torn);
      assert leaves[..n] == leaves[..n - 1] + [leaves[n - 1]];
    }
  }

  lemma {:induction false} FlatAt(leaves: seq<Digest>, i: nat, torn: Bytes)
    requires i < |leaves|
    ensures Record(Flat(leaves) + torn, i) == leaves[i]
    decreases |leaves|
  {
    var last := |leaves| - 1;
    if i < last {
      FlatAt(leaves[..last], i, leaves[last] + torn);
      assert Flat(leaves) + torn == Flat(leaves[..last]) + (leaves[last] + torn);
    }
  }

  lemma {:induction false} FlatTake(leaves: seq<Digest>, n: nat)
    requires n <= |leaves|
    ensures Flat(leaves)[..HASH_SIZE * n] == Flat(leaves[..n])
    decreases |leaves|
  {
    if n < |leaves| {
      var last := |leaves| - 1;
      FlatTake(leaves[..last], n);
      assert leaves[..last][..n] == leaves[..n];
    } else {
      assert leaves[..n] == leaves;
    }
  }

  // Runs of one process after another on one file

  datatype Handle = Handle(leaves: seq<Digest>, offset: nat)

  /** A file and the tree that has it open, if any. */
  datatype Disk = Disk(content: Bytes, tree: Option<Handle>)

  datatype DiskOp = Open | Append(leaf: Digest) | Close | Crash(kept: nat)

  /** One operation on the file: `Open` loads all records and leaves the offset where the read
      loop stopped, or refuses; `Append` writes at the offset; a crash loses the handle and all
      bytes after the first `kept`. */
  function Apply(d: Disk, op: DiskOp): Disk {
    match op
    case Open =>
      if d.tree.Some? || |d.content| % HASH_SIZE != 0 then d
      else
        var n := |d.content| / HASH_SIZE;
        d.(tree := Some(Handle(Records(d.content, n), HASH_SIZE * n)))
    case Append(leaf) =>
      if d.tree.None? then d
      else
        var Handle(leaves, offset) := d.tree.value;
        Disk(Overwrite(d.content, offset, leaf), Some(Handle(leaves + [leaf], offset + HASH_SIZE)))
    case Close => d.(tree := None)
    case Crash(kept) => Disk(if kept <= |d.content| then d.content[..kept] else d.content, None)
  }

  function RunDisk(ops: seq<DiskOp>): Disk {
    if ops == [] then Disk([], None) else Apply(RunDisk(ops[..|ops| - 1]), ops[|ops| - 1])
  }

  /** The meaning of a file: a log of leaves, and the rest of a record that a crash tore. */
  datatype Log = Log(leaves: seq<Digest>, torn: Bytes, isOpen: bool)

  function ApplyLog(l: Log, op: DiskOp): Log {
    match op
    case Open => l.(isOpen := l.isOpen || l.torn == [])
    case Append(leaf) => if l.isOpen then l.(leaves := l.leaves + [leaf]) else l
    case Close => l.(isOpen := false)
    case Crash(kept) =>
      if kept >= HASH_SIZE * |l.leaves| + |l.torn| then l.(isOpen := false)
      else if kept >= HASH_SIZE * |l.leaves| then Log(l.leaves, l.torn[..kept - HASH_SIZE * |l.leaves|], false)
      else
        var n := kept / HASH_SIZE;
        Log(l.leaves[..n], l.leaves[n][..kept % HASH_SIZE], false)
  }

  function RunLog(ops: seq<DiskOp>): Log {
    if ops == [] then Log([], [], false) else ApplyLog(RunLog(ops[..|ops| - 1]), ops[|ops| - 1])
  }

  /** The file holds the log, byte for byte, and the tree that has it open holds the same leaves
      and writes at the end. */
  ghost predicate Holds(d: Disk, l: Log) {
    && d.content == Flat(l.leaves) + l.torn
    && |l.torn| < HASH_SIZE
    && (d.tree.Some? <==> l.isOpen)
    && (l.isOpen ==> l.torn == [] && d.tree.value == Handle(l.leaves, |d.content|))
  }

  lemma {:induction false} AppendHolds(d: Disk, l: Log, leaf: Digest)
    requires Holds(d, l)
    ensures Holds(Apply(d, Append(leaf)), ApplyLog(l, Append(leaf)))
  {
    if l.isOpen {
      assert (l.leaves + [leaf])[..|l.leaves|] == l.leaves;
      assert d.content == Flat(l.leaves);
      assert Overwrite(d.content, |d.content|, leaf) == d.content + leaf;
      assert Flat(l.leaves + [leaf]) == d.content + leaf;
    }
  }

  lemma {:induction false} OpenHolds(d: Disk, l: Log)
    requires Holds(d, l)
    ensures Holds(Apply(d, Open), ApplyLog(l, Open))
  {
    var n := |l.leaves|;
    assert |d.content| == HASH_SIZE * n + |l.torn|;
    assert |d.content| % HASH_SIZE == |l.torn| && |d.content| / HASH_SIZE == n;
    RecordsFlat(l.leaves, n, l.torn);
    assert l.leaves[..n] == l.leaves;
  }

  lemma {:induction false} CrashHolds(d: Disk, l: Log, kept: nat)
    requires Holds(d, l)
    ensures Holds(Apply(d, Crash(kept)), ApplyLog(l, Crash(kept)))
  {
    var size := HASH_SIZE * |l.leaves|;
    if kept < size {
      var n := kept / HASH_SIZE;
      var m := kept - HASH_SIZE * n;
      FlatTake(l.leaves, n);
      FlatTake(l.leaves, n + 1);
      assert l.leaves[..n + 1][..n] == l.leaves[..n];
      assert d.content[..kept] == Flat(l.leaves)[..kept] == Flat(l.leaves[..n + 1])[..kept];
      assert Flat(l.leaves[..n + 1]) == Flat(l.leaves[..n]) + l.leaves[n];
      assert d.content[..kept] == Flat(l.leaves[..n]) + l.leaves[n][..m];
    } else if kept < size + |l.torn| {
      assert d.content[..kept] == Flat(l.leaves) + l.torn[..kept - size];
    }
  }

  /** The file refines the log, over any number of open, append, close and crash steps: the
      bytes are the concatenation of the leaves, reopening rebuilds them, and a torn record makes
      `Open` refuse. */
  lemma {:induction false} FileRefinesLog(ops: seq<DiskOp>)
    ensures Holds(RunDisk(ops), RunLog(ops))
    decreases |ops|
  {
    if ops != [] {
      var op, before := ops[|ops| - 1], ops[..|ops| - 1];
      FileRefinesLog(before);
      match op
      case Open => OpenHolds(RunDisk(before), RunLog(before));
      case Append(leaf) => AppendHolds(RunDisk(before), RunLog(before), leaf);
      case Close =>
      case Crash(kept) => CrashHolds(RunDisk(before), RunLog(before), kept);
    }
  }

  /** After a crash, `Open` either refuses, exactly when the length is not a multiple of the
      record size, or rebuilds a prefix of the leaves written before. */
  lemma {:induction false} CrashThenOpen(ops: seq<DiskOp>, kept: nat)
    ensures var before, after := RunDisk(ops), RunDisk(ops + [Crash(kept), Open]);
            && (after.tree.None? <==> |after.content| % HASH_SIZE != 0)
            && (after.tree.Some? && before.tree.Some? ==> after.tree.value.leaves <= before.tree.value.leaves)
            && (after.tree.Some? ==> after.content == Flat(after.tree.value.leaves))
  {
    var crashed := ops + [Crash(kept)];
    var reopened := crashed + [Open];
    assert reopened == ops + [Crash(kept), Open];
    assert crashed[..|ops|] == ops && reopened[..|crashed|] == crashed;
    FileRefinesLog(ops);
    FileRefinesLog(crashed);
    FileRefinesLog(reopened);
    var l := RunLog(crashed);
    assert |RunDisk(crashed).content| == HASH_SIZE * |l.leaves| + |l.torn|;
    assert Flat(RunLog(reopened).leaves) + [] == Flat(RunLog(reopened).leaves);
  }

  // Failing files

  /** What goes wrong in one append: the write stops early, or the flush after it fails. */
  datatype Fault = NoFault | ShortWrite(written: nat) | SyncFails

  /** The bytes of a write that reach the file. */
  function Reached(data: Bytes, fault: Fault): (b: Bytes)
    ensures b <= data
    ensures !fault.ShortWrite? ==> b == data
    ensures fault.ShortWrite? ==> |b| == if fault.written < |data| then fault.written else |data|
  {
    if fault.ShortWrite? && fault.written < |data| then data[..fault.written] else data
  }

  /** A failed append: some bytes are written and the offset moves, but the leaf is not kept. */
  function FailedAppend(d: Disk, written: Bytes): Disk {
    match d.tree
    case None => d
    case Some(Handle(leaves, offset)) =>
      Disk(Overwrite(d.content, offset, written), Some(Handle(leaves, offset + |written|)))
  }

  /** After a failed append the file still holds the log in memory if and only if no byte was written.
      Opened again, it is refused if the record is torn, and it has a leaf that memory never had if the
      record is whole. */
  lemma {:induction false} FailedAppendReopens(d: Disk, leaves: seq<Digest>, leaf: Digest, fault: Fault)
    requires Holds(d, Log(leaves, [], true)) && fault != NoFault
    ensures var written := Reached(leaf, fault);
            var failed := FailedAppend(d, written);
            var reopened := Apply(Apply(failed, Close), Open).tree;
            && (Holds(failed, Log(leaves, [], true)) <==> written == [])
            && (reopened.None? <==> 0 < |written| < HASH_SIZE)
            && (written == [] ==> reopened.Some? && reopened.value.leaves == leaves)
            && (written == leaf ==> reopened.Some? && reopened.value.leaves == leaves + [leaf])
  {
    var written := Reached(leaf, fault);
    var failed := FailedAppend(d, written);
    assert Flat(leaves) + [] == Flat(leaves);
    assert failed.content == Flat(leaves) + written;
    if written == [] {
      assert failed.content == Flat(leaves) + [];
      OpenHolds(Apply(failed, Close), Log(leaves, [], false));
    } else if written == leaf {
      AppendHolds(d, Log(leaves, [], true), leaf);
      OpenHolds(Apply(failed, Close), Log(leaves + [leaf], [], false));
    }
  }

  // The file and the tree as objects

  class File {
    var content: Bytes
    var offset: nat

    constructor (bytes: Bytes)
      ensures content == bytes && offset == 0
    {
      content, offset := bytes, 0;
    }

    method Write(data: Bytes, fault: Fault) returns (ok: bool)
      modifies this
      ensures content == Overwrite(old(content), old(offset), Reached(data, fault))
      ensures offset == old(offset) + |Reached(data, fault)|
      ensures ok <==> !fault.ShortWrite?
    {
      var written := Reached(data, fault);
      content := Overwrite(content, offset, written);
      offset := offset + |written|;
      ok := !fault.ShortWrite?;
    }

    method Sync(fault: Fault) returns (ok: bool)
      ensures ok <==> !fault.SyncFails?
    {
      ok := !fault.SyncFails?;
    }

    /** Read exactly n bytes; fail at the end of the file, or when the read does. */
    method ReadFull(n: nat, readable: bool) returns (data: Option<Bytes>)
      modifies this`offset
      ensures data == if readable && old(offset) + n <= |content| then Some(content[old(offset)..old(offset) + n])
          else None
      ensures data.Some? ==> offset == old(offset) + n
    {
      if readable && offset + n <= |content| {
        data := Some(content[offset..offset + n]);
        offset := offset + n;
      } else {
        data := None;
      }
    }
  }

  /** What goes wrong when a file is opened and read: nothing, or opening it, or asking for its size, or
      reading one of its records. */
  datatype OpenFault = Opens | OpenFails | StatFails | ReadFails(record: nat)

  /** The error of opening a file with this content, if there is one. */
  function OpenError(content: Bytes, fault: OpenFault): Option<TreeError> {
    match fault
    case OpenFails => Some(ErrOpen)
    case StatFails => Some(ErrStat)
    case _ =>
      if |content| % HASH_SIZE != 0 then Some(ErrFileSize)
      else if fault.ReadFails? && fault.record < |content| / HASH_SIZE then Some(ErrRead)
      else None
  }

  datatype TreeError =
    | ErrOpen | ErrStat | ErrFileSize | ErrRead
    | ErrClosed | ErrLeafSize | ErrWrite | ErrSync
    | ErrInvalidProof | ErrSizeRegression

  class Tree {
    const h: HashFn
    var leaves: seq<Digest>
    var file: File?
    var closed: bool

    /** The state as a value of the file model. */
    ghost function View(): Disk
      reads this, file
      requires file != null
    {
      Disk(file.content, Some(Handle(leaves, file.offset)))
    }

    /** A closed tree has no file. */
    ghost predicate Valid()
      reads this
    {
      closed ==> file == null
    }

    /** An open file holds exactly the leaves, and writes go to its end.  A failed append breaks this. */
    ghost predicate Synced()
      reads this, file
    {
      file != null ==> Holds(View(), Log(leaves, [], true))
    }

    /** The error of an append, if it fails. */
    function AppendError(fault: Fault): Option<TreeError>
      reads this
    {
      if closed then Some(ErrClosed)
      else if file == null then None
      else
        match fault
        case NoFault => None
        case ShortWrite(_) => Some(ErrWrite)
        case SyncFails => Some(ErrSync)
    }

    constructor (h: HashFn)
      ensures Valid() && Synced() && this.h == h && leaves == [] && file == null && !closed
    {
      this.h := h;
      leaves, file, closed := [], null, false;
    }

    /** A tree over an existing file; the handle starts at offset 0. */
    constructor Attach(h: HashFn, f: File)
      ensures this.h == h && leaves == [] && file == f && !closed
    {
      this.h := h;
      leaves, file, closed := [], f, false;
    }

    /** Open a file: refuse it, or load all its leaves and stop at its end. */
    static method OpenFile(h: HashFn, f: File, fault: OpenFault) returns (r: Result<Tree, TreeError>)
      modifies f`offset
      ensures r.Failure? <==> OpenError(f.content, fault).Some?
      ensures r.Failure? ==> Some(r.error) == OpenError(f.content, fault)
      ensures r == Failure(ErrOpen) <==> fault == OpenFails
      ensures r == Failure(ErrStat) <==> fault == StatFails
      ensures r == Failure(ErrFileSize) <==> fault != OpenFails && fault != StatFails && |f.content| % 32 != 0
      ensures r == Failure(ErrRead) <==> |f.content| % 32 == 0 && fault.ReadFails? && fault.record < |f.content| / 32
      ensures fault == Opens ==> (r.Success? <==> |f.content| % 32 == 0)
      ensures fault == Opens ==> (r.Success? <==> Apply(Disk(f.content, None), Open).tree.Some?)
      ensures r.Success? ==> fresh(r.value) && r.value.h == h && r.value.file == f && !r.value.closed
      ensures r.Success? ==> r.value.Valid() && r.value.Synced() && r.value.View() == Apply(Disk(f.content, None), Open)
    {
      if fault == OpenFails {
        return Failure(ErrOpen);
      }
      f.offset := 0;
      var t := new Tree.Attach(h, f);
      var err := t.Load(fault);
      if err.Some? {
        return Failure(err.value);
      }
      RecordsThenFlat(f.content, |f.content| / HASH_SIZE);
      assert f.content[..|f.content|] == f.content;
      assert Flat(t.leaves) + [] == Flat(t.leaves);
      return Success(t);
    }

    /** The read loop. */
    method Load(fault: OpenFault) returns (err: Option<TreeError>)
      requires file != null && file.offset == 0 && leaves == [] && fault != OpenFails
      modifies this`leaves, file`offset
      ensures err == OpenError(file.content, fault)
      ensures err == Some(ErrStat) <==> fault == StatFails
      ensures err == Some(ErrFileSize) <==> fault != StatFails && |file.content| % 32 != 0
      ensures err == Some(ErrRead) <==>
                |file.content| % 32 == 0 && fault.ReadFails? && fault.record < |file.content| / 32
      ensures fault == Opens ==> (err == None <==> |file.content| % 32 == 0)
      ensures err.None? ==> leaves == Records(file.content, |file.content| / HASH_SIZE) && file.offset == |file.content|
    {
      if fault == StatFails {
        return Some(ErrStat);
      }
      var size := |file.content|;
      if size % HASH_SIZE != 0 {
        return Some(ErrFileSize);
      }
      var n := size / HASH_SIZE;
      if n == 0 {
        return None;
      }
      for i := 0 to n
        invariant file == old(file) && file.content == old(file.content)
        invariant file.offset == HASH_SIZE * i
        invariant leaves == Records(file.content, i)
        invariant fault.ReadFails? ==> fault.record >= i
      {
        var buf := file.ReadFull(HASH_SIZE, fault != ReadFails(i));
        if buf.None? {
          return Some(ErrRead);
        }
        leaves := leaves + [buf.value];
      }
      return None;
    }

    /** Write a leaf hash at the offset and flush it; `fault` is what the file system does. */
    method Persist(leafHash: Digest, fault: Fault) returns (err: Option<TreeError>)
      requires Valid()
      modifies file
      ensures err == AppendError(fault)
      ensures err == Some(ErrClosed) <==> closed
      ensures err == Some(ErrWrite) <==> !closed && file != null && fault.ShortWrite?
      ensures err == Some(ErrSync) <==> !closed && file != null && fault.SyncFails?
      ensures err == None <==> !closed && (file == null || fault == NoFault)
      ensures file != null ==> file.content == Overwrite(old(file.content), old(file.offset), Reached(leafHash, fault))
      ensures file != null ==> file.offset == old(file.offset) + |Reached(leafHash, fault)|
    {
      if closed {
        return Some(ErrClosed);
      }
      if file == null {
        return None;
      }
      var written := file.Write(leafHash, fault);
      if !written {
        return Some(ErrWrite);
      }
      var flushed := file.Sync(fault);
      if !flushed {
        return Some(ErrSync);
      }
      return None;
    }

    /** Add a leaf hash: on success it is the last leaf, in memory and on file; on failure memory is as
        before. */
    method AppendDigest(leafHash: Digest, fault: Fault) returns (r: Result<nat, TreeError>)
      requires Valid()
      modifies this`leaves, file
      ensures Valid()
      ensures r == match old(AppendError(fault)) case Some(e) => Failure(e) case None => Success(|old(leaves)|)
      ensures leaves == if r.Failure? then old(leaves) else old(leaves) + [leafHash]
      ensures file != null ==> View() == if r.Success? then Apply(old(View()), DiskOp.Append(leafHash))
                                         else FailedAppend(old(View()), Reached(leafHash, fault))
      ensures r.Success? && old(Synced()) ==> Synced()
    {
      if file != null && Synced() {
        AppendHolds(View(), Log(leaves, [], true), leafHash);
      }
      var err := Persist(leafHash, fault);
      if err.Some? {
        return Failure(err.value);
      }
      leaves := leaves + [leafHash];
      return Success(|leaves| - 1);
    }

    /** Hash a payload and append it. */
    method Append(data: Bytes, fault: Fault) returns (r: Result<nat, TreeError>)
      requires Valid()
      modifies this`leaves, file
      ensures Valid()
      ensures r.Success? <==> !closed && (file == null || fault == NoFault)
      ensures r == match old(AppendError(fault)) case Some(e) => Failure(e) case None => Success(|old(leaves)|)
      ensures leaves == if r.Failure? then old(leaves) else old(leaves) + [HashLeaf(h, data)]
      ensures file != null ==> View() == if r.Success? then Apply(old(View()), DiskOp.Append(HashLeaf(h, data)))
                                         else FailedAppend(old(View()), Reached(HashLeaf(h, data), fault))
      ensures r.Success? && old(Synced()) ==> Synced()
    {
      r := AppendDigest(HashLeaf(h, data), fault);
    }

    /** Append a leaf hash from outside, refused unless it has the size of a digest. */
    method AppendHashed(leafHash: Bytes, fault: Fault) returns (r: Result<nat, TreeError>)
      requires Valid()
      modifies this`leaves, file
      ensures Valid()
      ensures r.Success? <==> |leafHash| == 32 && !closed && (file == null || fault == NoFault)
      ensures r == if |leafHash| != HASH_SIZE then Failure(ErrLeafSize)
                   else match old(AppendError(fault)) case Some(e) => Failure(e) case None => Success(|old(leaves)|)
      ensures leaves == if r.Failure? then old(leaves) else old(leaves) + [leafHash]
      ensures |leafHash| == HASH_SIZE && file != null ==>
                View() == if r.Success? then Apply(old(View()), DiskOp.Append(leafHash))
                          else FailedAppend(old(View()), Reached(leafHash, fault))
      ensures r.Success? && old(Synced()) ==> Synced()
    {
      if |leafHash| != HASH_SIZE {
        return Failure(ErrLeafSize);
      }
      r := AppendDigest(leafHash, fault);
    }

    /** Close the file; a tree without one is left as it is. */
    method CloseFile()
      requires Valid()
      modifies this`file, this`closed
      ensures Valid() && Synced()
      ensures old(file) == null ==> file == null && closed == old(closed)
      ensures old(file) != null ==> file == null && closed
    {
      if file == null {
        return;
      }
      file := null;
      closed := true;
    }

    /** Size and root under one lock. */
    method Snapshot() returns (size: nat, root: Digest)
      ensures size == |leaves| && root == MerkleTreeHash.Root(h, leaves)
    {
      size := |leaves|;
      root := MerkleTreeHash.Root(h, leaves);
    }

    method RootAt(size: nat) returns (r: Result<Digest, TreeError>)
      ensures r == if size > |leaves| then Failure(ErrInvalidProof) else Success(MerkleTreeHash.Root(h, leaves[..size]))
    {
      if size > |leaves| {
        return Failure(ErrInvalidProof);
      }
      return Success(MerkleTreeHash.Root(h, leaves[..size]));
    }

    /** An inclusion proof for leaf idx in the tree of the first `size` leaves; it verifies
        against that tree's root. */
    method ProofAt(idx: nat, size: nat) returns (r: Result<seq<Digest>, TreeError>)
      ensures r.Success? <==> idx < size <= |leaves|
      ensures r.Failure? ==> r.error == ErrInvalidProof
      ensures r.Success? ==>
                Inclusion.InclusionVerdict(h, leaves[idx], idx, size, r.value, MerkleTreeHash.Root(h, leaves[..size]))
                == Inclusion.Accepted
      ensures r.Success? ==> r.value == Inclusion.AuditPath(h, idx, leaves[..size])
    {
      if size > |leaves| {
        return Failure(ErrInvalidProof);
      }
      if size == 0 {
        return Failure(ErrInvalidProof);
      }
      if idx >= size {
        return Failure(ErrInvalidProof);
      }
      Inclusion.InclusionComplete(h, idx, leaves[..size]);
      return Success(Inclusion.AuditPath(h, idx, leaves[..size]));
    }

    /** A consistency proof between two sizes; it is accepted for the two roots. */
    method ProofForRange(oldSize: nat, newSize: nat) returns (r: Result<seq<Digest>, TreeError>)
      ensures r.Failure? ==> r.error == if newSize > |leaves| then ErrInvalidProof else ErrSizeRegression
      ensures r.Success? <==> oldSize <= newSize <= |leaves|
      ensures r.Success? ==>
                Consistency.ConsistencyVerdict(h, MerkleTreeHash.Root(h, leaves[..oldSize]),
                                               MerkleTreeHash.Root(h, leaves[..newSize]),
                                               oldSize, newSize, r.value)
                == Inclusion.Accepted
      ensures r.Success? ==> r.value == Consistency.RangeProof(h, oldSize, leaves[..newSize])
    {
      if newSize > |leaves| {
        return Failure(ErrInvalidProof);
      }
      if oldSize > newSize {
        return Failure(ErrSizeRegression);
      }
      Consistency.ConsistencyComplete(h, oldSize, leaves[..newSize]);
      assert leaves[..newSize][..oldSize] == leaves[..oldSize];
      if oldSize == 0 || oldSize == newSize {
        return Success([]);
      }
      return Success(Consistency.Subproof(h, oldSize, leaves[..newSize], 0, newSize, true));
    }
  }

  lemma {:induction false} RecordsThenFlat(content: Bytes, n: nat)
    requires HASH_SIZE * n <= |content|
    ensures Flat(Records(content, n)) == content[..HASH_SIZE * n]
  {
    if n > 0 {
      var leaves := Records(content, n);
      RecordsThenFlat(content, n - 1);
      assert leaves[..n - 1] == Records(content, n - 1);
      assert content[..HASH_SIZE * n] == content[..HASH_SIZE * (n - 1)] + Record(content, n - 1);
    }
  }

  /** From any state a run reaches: closing and opening a file that was open gives the same tree, an
      append adds one leaf in memory and on file, and a crash keeps exactly the first bytes. */
  lemma {:induction false} StepsOfARun(ops: seq<DiskOp>, leaf: Digest, kept: nat)
    ensures var d := RunDisk(ops);
            var crashed := Apply(d, Crash(kept));
            && (d.tree.Some? ==> Apply(Apply(d, Close), Open) == d)
            && (d.tree.Some? ==>
                  var leaves := d.tree.value.leaves + [leaf];
                  Apply(d, DiskOp.Append(leaf)) == Disk(d.content + leaf, Some(Handle(leaves, |d.content| + 32))))
            && (d.tree.None? ==> Apply(d, DiskOp.Append(leaf)) == d)
            && crashed == Disk(if kept < |d.content| then d.content[..kept] else d.content, None)
  {
    var d := RunDisk(ops);
    FileRefinesLog(ops);
    if d.tree.Some? {
      ReopenedSame(d, RunLog(ops));
      assert Overwrite(d.content, |d.content|, leaf) == d.content + leaf;
    }
    assert kept == |d.content| ==> d.content[..kept] == d.content;
  }

  lemma {:induction false} ReopenedSame(d: Disk, l: Log)
    requires Holds(d, l) && l.isOpen
    ensures Apply(Apply(d, Close), Open) == d
  {
    OpenHolds(Apply(d, Close), ApplyLog(l, Close));
  }
}
