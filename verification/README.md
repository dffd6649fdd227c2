# Verified model of the tamper-evident audit log

The repository is an audit log for agent actions. Agents sign actions; a key server checks them and
appends each one to an RFC 6962 Merkle tree; a dashboard follows the log over an event stream; a
committer anchors the tree's size and root on a ledger; auditors check old roots against the live
tree. This project models those parts in Dafny and proves what they promise.

| file | what it models |
|---|---|
| `Hashing.dfy`, `MerkleTreeHash.dfy` | leaf and node hashes, the Merkle Tree Hash, and the level-by-level view of it |
| `Inclusion.dfy`, `Consistency.dfy` | provers (recursive, from the root) and verifiers (loops, from the leaves) |
| `TreeStore.dfy`, `Verifier.dfy` | the tree with its flat file; the check of a historical root; chains of roots |
| `ActionSchema.dfy`, `CanonicalJson.dfy` | validation, canonical encoding, decoding |
| `Pipeline.dfy`, `AuditPipeline.dfy`, `Audit.dfy` | the audit pipeline as a state machine and as an object; what a root says about actions |
| `Stream.dfy`, `StreamObjects.dfy`, `Resync.dfy` | server connection and dashboard client over every interleaving; progress by a reconnect |
| `Anchoring.dfy`, `AnchorObjects.dfy` | tree, committer and ledger over every run; contract, client, store, committer as objects |

Main results:

1. **The two sides of the proof protocol agree, for all sizes.** Every honest inclusion or
   consistency proof is accepted (`InclusionComplete`, `ConsistencyComplete`). The bridge is
   `RootUp`: hashing adjacent pairs and promoting an odd last node keeps the root.
2. **Accepted proofs are sound.** An accepted inclusion proof names the true leaf and an accepted
   consistency proof relates a log to a prefix of it, or two different inputs with the same hash are
   computed (`InclusionSound`, `ConsistencySound`). Consistency soundness needs no assumption on
   the length of the proof's elements, which the source does not check.
3. **A root binds everything below it**: size and payloads of a log (`RootBindsLog`), and, through
   the pipeline and the decoder, the signed actions in their order (`RootBindsActions`).
4. **Replay safety over whole runs**, under any interleaving and any clock, with the exact
   conditions under which it holds (`ReplaySafe`, `CacheAlwaysExact`, `ExactIffNextIsSafe`,
   `TimestampBound`, `PayloadsNeverRepeat`), and log, tree and events in step in every reachable
   state (`LogAlwaysMatchesTree`).
5. **The event stream** is ordered and exactly-once if and only if no dropped event is overtaken
   (`ExactPrefixIff`), and one reconnect always catches up (`ResyncCatchesUp`).
6. **Anchors verify for ever** (`AnchorsVerify`), and end to end an anchored leaf can not be changed
   by any later log, proof or path (`AnchoredLeavesAreFixed`).
7. **The flat file refines the log** over any number of open, append, close and crash steps
   (`FileRefinesLog`).

How hashes are treated: SHA-256 is a parameter `h`, so every statement holds for every function from
byte strings to 32-byte digests. A collision is always a pair computed by a function of the inputs;
that some collision exists would say nothing. Ed25519 is an uninterpreted predicate on a 32-byte key,
a message and a 64-byte signature.

## What the code does that its documentation does not say

- The comment at `go-key-service/internal/merkle/consistency.go:48` names RFC 6962; the algorithm is
  section 2.1.4.2 of RFC 9162, and the inclusion verifier is section 2.1.3.2 of RFC 9162.
- `VerifyHistoricalRoot` promises OK if and only if the first leaves hash to the given root. For size
  0 on a non-empty tree it accepts any root. An append between its first two reads makes it err both
  ways: it rejects true roots (`RaceRejectsTrueRoot`), and it reports OK for wrong ones, at the live
  size for every log (`RaceAcceptsWrongRoot`) and below it (`RaceAcceptsWrongNode`).
  `VerifierExact` decides every root without such an append and `RaceVerdict` with one.
- The skew check subtracts and negates in 64 bits. `SkewExact` gives the exact set of accepted
  differences, `SkewWraps` an accepted timestamp that is not within 30 seconds, and
  `SkewAsDocumented` the condition under which the documented rule is what is decided.
- A stale cache entry is deleted before the append that should replace it. If that append fails the
  entry is lost. `CacheAlwaysExact` states that the cache stays exact throughout a run if and only if
  this never happens, `ExactIffNextIsSafe` that a lost entry is exactly what lets a next call break
  replay safety, and `FailedAppendBreaksReplay` is a run that appends one action twice, one
  nanosecond apart. The failing append must be a short write or a failed flush of a tree with a file:
  after a close all appends fail, which is harmless (`ClosedTreeIsSafe`), and the key server's tree
  in memory never fails (`SuccessKeepsEntries`).
- A failed write or flush also leaves bytes of a leaf in the file that memory does not have;
  `FailedAppendReopens` states what the file opens as.
- `go-key-service/internal/auditlog/pipeline.go:154-155` lets a slow consumer re-synchronise on
  reconnect. The dashboard resumes after the last number it kept, so an event that a full channel
  dropped and a later event overtook is never received: `OvertakenNeverReceived`, and a concrete run
  in `SlowClientLosesAnEvent`.
- JSON strings follow Go's encoder (short escapes for five control characters, `\u2028` and `\u2029`
  escaped); `docs/schema.md:27` names only `\u00xx`. `EscapesDiffer` names the seven characters.

## Model

| member | source | states |
|---|---|---|
| Hashing.EqualNodes | go-key-service/internal/merkle/tree.go:45-52 | Equal node hashes mean equal children whenever one side of the cut has the same length, or the two node inputs collide. |
| MerkleTreeHash.LargestPowerOfTwoLessThan | go-key-service/internal/merkle/tree.go:146-157 | The doubling loop returns a power of two below n that is at least every power of two below n. |
| MerkleTreeHash.SplitPointUp | go-key-service/internal/merkle/tree.go:148-157 | The split point of n leaves is twice the split point of the next level up. |
| MerkleTreeHash.MthUp | go-key-service/internal/merkle/tree.go:131-144 | Hashing adjacent pairs keeps the hash of every window that starts at a pair. |
| MerkleTreeHash.RootUp | go-key-service/internal/merkle/tree.go:131-144 | Top-down equals bottom-up: pairing up a level and promoting an odd last node keeps the root, for every list. |
| MerkleTreeHash.RootInjective | go-key-service/internal/merkle/tree.go:131-144 | Two leaf lists of one size with the same root are equal, or a collision is computed. |
| MerkleTreeHash.ShapeHash | go-key-service/internal/merkle/tree.go:131-144 | The recursive hash of a window is the hash of an explicit tree whose leaves, read in order, are the payloads of that window. |
| MerkleTreeHash.SameInput | go-key-service/internal/merkle/tree.go:37-52 | Domain separation: the byte strings hashed for an empty tree, a leaf and a node are never confused, and they determine what they were built from. |
| MerkleTreeHash.TreeBinds | go-key-service/internal/merkle/tree.go:37-52 | Two hash trees of any shapes with the same hash are equal, or a collision is computed. |
| MerkleTreeHash.RootBindsLog | go-key-service/internal/merkle/tree.go:37-66 | A root binds size and contents: payload logs of any two sizes with equal roots are equal, or a collision is computed. |
| MerkleTreeHash.ReferenceRoots | go-key-service/internal/merkle/tree.go:37-52 | The roots of zero to three payloads in the bytes that are hashed: prefixes 0x00 and 0x01, left before right. |
| Inclusion.WindowPathUp | go-key-service/internal/merkle/inclusion.go:41-52 | The recursive path of a leaf is its sibling followed by the path of its parent one level up. |
| Inclusion.VerifyInclusionFromHash | go-key-service/internal/merkle/inclusion.go:71-113 | The loop with two counters and the inner shift loop returns the verdict of the level-by-level walk, for every input including malformed ones. |
| Inclusion.ClimbPath | go-key-service/internal/merkle/inclusion.go:41-113 | Walking an honest path from any digest in place of leaf m gives the root of the list with that digest at m. |
| Inclusion.InclusionComplete | go-key-service/internal/merkle/inclusion.go:24-113 | The path of every leaf of every tree is accepted against its root. |
| Inclusion.ClimbSound | go-key-service/internal/merkle/inclusion.go:82-112 | A walk that reaches the root started from the true leaf and used its audit path, whatever the proof elements, or a collision is computed. |
| Inclusion.InclusionSound | go-key-service/internal/merkle/inclusion.go:71-113 | An accepted proof proves leaf idx of the tree behind the root and is the audit path of that leaf, or a collision is computed. |
| Inclusion.ClimbLength | go-key-service/internal/merkle/inclusion.go:86-108 | A walk succeeds if and only if the proof is exactly as long as the path of that leaf. |
| Inclusion.WrongLengthRejected | go-key-service/internal/merkle/inclusion.go:86-108 | With no assumption on the hash, a proof of any other length is rejected as invalid. |
| Inclusion.MalformedRejected | go-key-service/internal/merkle/inclusion.go:72-89 | An index outside the tree, or a root or proof element that is not 32 bytes long, is invalid. |
| Inclusion.HonestPathExact | go-key-service/internal/merkle/inclusion.go:106-112 | With the audit path of a leaf every leaf hash and root is decided, and every refusal is a mismatch. |
| Inclusion.ReferenceInclusion | go-key-service/internal/merkle/inclusion.go:82-112 | For one to three leaves the verdict in the bytes that are hashed, for any leaf hash. |
| Inclusion.PathSize | go-key-service/internal/merkle/inclusion.go:41-52 | In a tree of at most 2^b leaves a path has at most b elements. |
| Consistency.BitTrickExact | go-key-service/internal/merkle/consistency.go:127-129 | `n & (n-1) == 0` decides exactly the powers of two, and those are the old sizes whose counter is zero after the stripping loop. |
| Consistency.SubproofUp | go-key-service/internal/merkle/consistency.go:28-46 | The recursive proof for an even old size is the proof for half of it one level up. |
| Consistency.SubproofPath | go-key-service/internal/merkle/consistency.go:28-46 | For an odd old size the recursive proof is the last old node followed by its audit path; the node is omitted when it is the whole old tree. |
| Consistency.SubproofStrip | go-key-service/internal/merkle/consistency.go:28-46 | For every old size the recursive proof is the node the verifier starts from (omitted for powers of two) and its audit path on the level where stripping stops. |
| Consistency.Walk | go-key-service/internal/merkle/consistency.go:95-124 | The main loop, with its inner shift loop, returns the verdict of the two level-by-level walks. |
| Consistency.VerifyConsistency | go-key-service/internal/merkle/consistency.go:51-125 | The whole verifier, with its size checks, its stripping loop and its first node, returns the level-by-level verdict on every input. |
| Consistency.WalksAgree | go-key-service/internal/merkle/consistency.go:95-117 | The old-root and the new-root walk run out of proof, or have proof left over, together. |
| Consistency.ClimbOldPath | go-key-service/internal/merkle/consistency.go:95-120 | Along an honest path the old-root walk computes the root of the leaves before the node followed by the digest it started from. |
| Consistency.ConsistencyComplete | go-key-service/internal/merkle/consistency.go:13-125 | For every tree and all sizes m <= n the proof handed out is accepted against the two roots. |
| Consistency.RangeProofSize | go-key-service/internal/merkle/consistency.go:13-46 | In a tree of at most 2^b leaves a consistency proof has at most b + 1 elements. |
| Consistency.WrongProofLengthRejected | go-key-service/internal/merkle/consistency.go:64-117 | With no assumption on the hash, a proof of any other length than the one handed out is rejected as invalid, whatever the roots; only at equal sizes are unequal roots reported first. |
| Consistency.RightLengthDecided | go-key-service/internal/merkle/consistency.go:95-124 | A proof of the right length is accepted or the roots do not match; it is never invalid. |
| Consistency.TrivialSizes | go-key-service/internal/merkle/consistency.go:52-70 | Which error each refusal is for a shrunk, an equal and an empty old tree. |
| Consistency.ReferenceConsistency | go-key-service/internal/merkle/consistency.go:72-125 | For the smallest sizes the verdict in the bytes that are hashed, for roots and proof elements of any length. |
| Consistency.WalkSound | go-key-service/internal/merkle/consistency.go:95-124 | Two walks that reach the roots of an old and a new level establish that the old level is a prefix of the new up to its last node, and that node too when both started from one value; or a collision is computed. |
| Consistency.StripSound | go-key-service/internal/merkle/consistency.go:72-124 | From the stripped level down to the leaves: an accepted walk means the old log is a prefix of the new, or a collision is computed. |
| Consistency.ConsistencySound | go-key-service/internal/merkle/consistency.go:51-125 | If any proof whatever is accepted for the roots of two logs, the older is a prefix of the newer, or a collision is computed. |
| TreeStore.FileRefinesLog | go-key-service/internal/merkle/persistence.go:14-95 | Over any sequence of open, append, close and crash steps the bytes of the file are the concatenation of the log's leaves and a torn record, and an open tree holds those leaves and writes at the end. |
| TreeStore.CrashThenOpen | go-key-service/internal/merkle/persistence.go:51-77 | After a crash, opening refuses exactly when the length is not a multiple of 32, and otherwise rebuilds a prefix of the leaves. |
| TreeStore.RecordsFlat | go-key-service/internal/merkle/persistence.go:62-76 | Reading back the concatenation of the leaves, record by record, gives the leaves, whatever follows them. |
| TreeStore.OverwriteExact | go-key-service/internal/merkle/persistence.go:88 | Every byte of a file after a write at an offset, inside, across or beyond its end. |
| TreeStore.StepsOfARun | go-key-service/internal/merkle/README.md:44-45 | From every reachable state, closing and opening gives the same tree, an append adds 32 bytes and one leaf, and a crash keeps exactly the first bytes. |
| TreeStore.RecordsThenFlat | go-key-service/internal/merkle/README.md:44-45 | The leaves read from a file, written out again, are its bytes. |
| TreeStore.FailedAppendReopens | go-key-service/internal/merkle/persistence.go:88-93 | After a failed write or flush the file holds the log in memory if and only if no byte was written; opened again it is refused when the record is torn and has a leaf that memory never had when it is whole. |
| TreeStore.Tree.OpenFile | go-key-service/internal/merkle/persistence.go:24-35 | Each of the four errors under its own condition on fault and length; without a fault opening succeeds exactly when the length is a multiple of 32, the empty file included, and then the tree holds all records and the write offset is the end of the file. |
| TreeStore.Tree.Load | go-key-service/internal/merkle/persistence.go:53-77 | Each error of the read loop under its own condition; otherwise every record is rebuilt and the offset is the end of the file. |
| TreeStore.Tree.Persist | go-key-service/internal/merkle/persistence.go:81-95 | A closed tree refuses; an in-memory one does nothing; a file-backed one overwrites at its offset with the bytes the write reaches, and a short write or a failed flush is an error. |
| TreeStore.Tree.Append | go-key-service/internal/merkle/tree.go:57-66 | The hash of the payload becomes the last leaf in memory and on file and its index is returned; a closed tree, a short write or a failed flush is an error and leaves memory as it was. |
| TreeStore.Tree.AppendHashed | go-key-service/internal/merkle/tree.go:70-83 | A leaf hash of another size is refused before anything is written; any other is appended as it is, with the same errors. |
| TreeStore.Tree.CloseFile | go-key-service/internal/merkle/persistence.go:39-49 | A file-backed tree is closed for good; an in-memory tree is left as it is. |
| TreeStore.Tree.Snapshot | go-key-service/internal/merkle/tree.go:101-105 | Size and root belong to the same leaves. |
| TreeStore.Tree.RootAt | go-key-service/internal/merkle/tree.go:108-115 | The root of the first leaves, or an error beyond the current size. |
| TreeStore.Tree.ProofAt | go-key-service/internal/merkle/inclusion.go:26-39 | A proof is handed out exactly for idx < size <= current size, and it verifies against the root at that size. |
| TreeStore.Tree.ProofForRange | go-key-service/internal/merkle/consistency.go:13-26 | A proof is handed out exactly for oldSize <= newSize <= current size, and it is accepted for the two roots; otherwise the error says which bound failed. |
| Verifier.RootVerifier.VerifyHistoricalRoot | go-key-service/internal/merkle/verifier.go:28-58 | Every field of the report, its message and hexadecimal roots included, and the error, with arbitrary appends between the three reads of the tree. |
| Verifier.HexTextInjective | go-key-service/internal/merkle/verifier.go:32-35 | The hexadecimal text of a root in a report determines the root. |
| Verifier.HexTextAt | go-key-service/internal/merkle/verifier.go:32-35 | Each byte of a root in a report is two digits of 0 to 9 and a to f, the high half first. |
| Verifier.HonestProofExact | go-key-service/internal/merkle/consistency.go:80-124 | Against the honest proof a root is accepted if and only if it is the root of that many leaves; for a power-of-two size a wrong accepted root comes with a collision. |
| Verifier.PowerVerdict | go-key-service/internal/merkle/consistency.go:80-93 | For a power of two below the live size, any byte string given as old root is accepted if and only if the live tree with it as a node has the new root. |
| Verifier.OtherVerdict | go-key-service/internal/merkle/consistency.go:86-93 | For any other size below the live size, acceptance means both roots are the true ones. |
| Verifier.VerifierExact | go-key-service/internal/merkle/verifier.go:24-58 | With no append between the first two reads the check is exact; the two exceptions (size 0, power-of-two sizes below the live size) are stated. |
| Verifier.RaceVerdict | go-key-service/internal/merkle/verifier.go:28-50 | The verdict on every root of every size, whatever is appended between the reads: at the live size exactly the root of the second tree; below it, exactly the true root when the two trees have one root, or, for powers of two, exactly the nodes that turn the first tree into one with the root of the second. |
| Verifier.TrueRootVerdict | go-key-service/internal/merkle/verifier.go:28-50 | With appends between the reads a true root is accepted if and only if the two trees have the same root. |
| Verifier.RaceRejectsTrueRoot | go-key-service/internal/merkle/verifier.go:28-50 | A payload appended between the first two reads makes the check reject every true root, or a collision is computed. |
| Verifier.RaceAcceptsWrongRoot | go-key-service/internal/merkle/verifier.go:28-50 | For every log, a payload appended between the first two reads makes the check report OK for a root the first leaves do not hash to, or a collision is computed. |
| Verifier.RaceAcceptsWrongNode | go-key-service/internal/merkle/verifier.go:28-50 | The same below the live size: three leaves at the first read, five at the second, and the root of four other leaves accepted for size 2. |
| Verifier.ChainIsPrefix | go-key-service/internal/merkle/consistency.go:51-125 | Along any chain of roots linked by accepted proofs every log is a prefix of the last, or a collision is computed. |
| Verifier.IncludedStaysIncluded | go-key-service/internal/merkle/inclusion.go:71-113 | A leaf proved under one root of a chain is the leaf at that index under the last root, or a collision is computed. |
| ActionSchema.ValidateExact | go-key-service/internal/action/action.go:37-56 | Validation accepts exactly version 1, non-empty fields and a nonce of 32 lowercase hexadecimal characters. |
| ActionSchema.EscapesDiffer | docs/schema.md:27 | The encoding of a character differs from the documented minimal escaping for exactly seven characters. |
| ActionSchema.EscapeTable | go-key-service/internal/action/action.go:74-79 | The escapes as text. |
| ActionSchema.ControlEscapes | docs/schema.md:27 | Every other control character is written with two lowercase hexadecimal digits. |
| ActionSchema.Utf8Form | docs/schema.md:24 | Every other character is written in UTF-8: length, lead byte and continuation bytes by code point. |
| ActionSchema.PlainText | docs/schema.md:27 | ASCII text without quotes, backslashes and control characters is written as it is. |
| ActionSchema.DigitsDecimal | docs/schema.md:28 | Integers are decimal digits without leading zeros. |
| ActionSchema.EncodeBraces | go-key-service/internal/action/action.go:77-85 | The canonical bytes open with a left brace and close with a right brace. |
| ActionSchema.ReadJsonText | docs/schema.md:27 | Reading an escaped string up to its closing quote gives back the text, for every text. |
| ActionSchema.ReadActionBack | go-key-service/internal/action/action.go:58-86 | Decoding the canonical bytes gives back the action, for every text in its fields and every timestamp. |
| ActionSchema.PayloadRoundTrip | go-key-service/internal/auditlog/pipeline.go:251-253 | Leaf payloads are uniquely decodable: action and signature come back from the concatenation. |
| ActionSchema.DecodeRefuses | go-key-service/internal/auditlog/pipeline.go:251-253 | A payload whose object is not closed before the 64-byte signature is not decoded. |
| CanonicalJson.EncodeMap | go-key-service/internal/action/action.go:74-79 | Sorting the keys and writing the members gives the object over the ascending keys of the map and a newline, for every map. |
| CanonicalJson.SortKeys | go-key-service/internal/action/action.go:64-79 | The keys of any map are listed once each in ascending code point order. |
| CanonicalJson.SortedKeysUnique | docs/schema.md:25 | A map has only one such list, so the encoding does not depend on how the map is walked. |
| CanonicalJson.FieldNamesSorted | docs/schema.md:25 | The six field names, in the order written, are exactly the keys of the map in ascending code point order. |
| CanonicalJson.ObjectIsEncoding | go-key-service/internal/action/action.go:64-79 | What the encoder writes for the field map is the closed form of the canonical encoding and a newline. |
| CanonicalJson.CanonicalBytes | go-key-service/internal/action/action.go:60-86 | Map, encoder and trimmed newline return the canonical encoding of a valid action, and the validation error of any other. |
| CanonicalJson.ReferenceVector | docs/schema.md:32-45 | The canonical bytes of the documented action are the documented string. |
| CanonicalJson.ReferenceValid | docs/schema.md:32-45 | The documented action is valid, so those are the bytes it is signed with. |
| Pipeline.CheckExact | go-key-service/internal/auditlog/pipeline.go:200-236 | Which submissions pass, and which reason is broadcast for each that does not, as conditions on version, names, nonce, clock, key and Ed25519 signature in order of precedence. |
| Pipeline.SignatureDecides | go-key-service/internal/auditlog/pipeline.go:228-231 | An event is returned, or a leaf added, only for a 64-byte Ed25519 signature on the canonical bytes by a 32-byte key; every other action that passes the earlier checks is refused as "invalid_signature". |
| Pipeline.RefusedSubmission | go-key-service/internal/auditlog/pipeline.go:298-312 | A refused submission is answered with its reason and logged with its action, agent, type, target and reason; a failed lookup changes nothing. |
| Pipeline.RejectionRecorded | go-key-service/internal/auditlog/pipeline.go:286-296 | A denial detected elsewhere is logged with its four fields and changes neither tree nor cache. |
| Pipeline.StepShape | go-key-service/internal/auditlog/pipeline.go:314-325 | Every call leaves the log as it is, or adds one event numbered by its position and offers it to every channel. |
| Pipeline.ChannelsExact | go-key-service/internal/auditlog/pipeline.go:319-324 | A logged event is put at the end of every channel with room and on no other. |
| Pipeline.ChannelsBounded | go-key-service/internal/auditlog/pipeline.go:346-352 | No channel ever holds more than its capacity. |
| Pipeline.StepKeepsLog | go-key-service/internal/auditlog/pipeline.go:240-325 | Every call keeps the event log and the tree in step. |
| Pipeline.LogAlwaysMatchesTree | go-key-service/internal/auditlog/pipeline.go:240-325 | In every reachable state positions are sequence numbers, the k-th appended event carries leaf k with a valid signature and skew, and events are leaves plus rejections. |
| Pipeline.AppendedAreSigned | go-key-service/internal/auditlog/pipeline.go:228-270 | Every appended event of every run is signed under the key it records, and its leaf is the hash of 0x00, the canonical bytes and the signature. |
| Pipeline.EventsSinceRebuildsLeaves | go-key-service/internal/auditlog/pipeline.go:368-387 | An auditor that asks for the events since s rebuilds exactly the leaves from s on. |
| Pipeline.AcceptKeepsCache | go-key-service/internal/auditlog/pipeline.go:240-280 | From an exact cache, the locked section keeps it exact if and only if it does not evict a stale entry and then fail to append. |
| Pipeline.StepKeepsCache | go-key-service/internal/auditlog/pipeline.go:199-325 | From an exact cache, a call keeps it exact if and only if it is not a passing submission that takes that branch. |
| Pipeline.CacheAlwaysExact | go-key-service/internal/auditlog/pipeline.go:240-280 | The cache is exact throughout a run if and only if the run never evicts a stale entry and then fails to append; appended events with one key are then spaced by more than the window. |
| Pipeline.SuccessKeepsEntries | go-key-service/internal/merkle/persistence.go:81-87 | A run whose appends all succeed, as with a tree in memory, never takes that branch. |
| Pipeline.StepSpaced | go-key-service/internal/auditlog/pipeline.go:240-280 | From any reachable state, whatever was lost: a call breaks the spacing of the log if and only if it appends an action whose last event is within the window and no longer cached. |
| Pipeline.SpacedIff | go-key-service/internal/auditlog/pipeline.go:240-280 | In every run whatsoever a cache entry is the last appended event of its key, and the log is spaced if and only if no call did that. |
| Pipeline.CachedReplyIsLast | go-key-service/internal/auditlog/pipeline.go:199-246 | In every run whatsoever, a submission answered from the cache changes nothing and gets the last appended event of the same agent and nonce, recorded within the window. |
| Pipeline.RepeatIsCached | go-key-service/internal/auditlog/pipeline.go:243-246 | In a run that lost no cache entry, a passing submission whose agent and nonce were last appended at most 630 s before is answered with that event and changes nothing. |
| Pipeline.NewIsAppended | go-key-service/internal/auditlog/pipeline.go:247-280 | Any other passing submission is logged and returned as an event with the action, signature, key, clock, the next numbers and the next leaf; or fails without a trace in log, tree and channels. |
| Pipeline.ReplayKeyInjective | go-key-service/internal/auditlog/pipeline.go:421-423 | Keys with nonces of one length determine agent and nonce, even when names contain the separator. |
| Pipeline.ReplaySafe | go-key-service/internal/auditlog/pipeline.go:213-280 | Events of one agent and nonce are recorded more than 630 s apart, the later in the log being the later in time, if and only if no call of the run repeated one within the window; and so in every run that loses no cache entry. |
| Pipeline.ExactIffNextIsSafe | go-key-service/internal/auditlog/pipeline.go:243-258 | In a run that is safe so far, the cache is exact if and only if every possible next call keeps replay safety: if an entry is lost, the event it held can be submitted again as it was. |
| Pipeline.ClosedTreeIsSafe | go-key-service/internal/merkle/persistence.go:81-94 | If appends, once they fail, fail for good, as on a closed tree, replay safety holds although entries are lost. |
| Pipeline.FailedAppendBreaksReplay | go-key-service/internal/auditlog/pipeline.go:243-258 | With one failed write or flush between two successful appends the claim fails: a run of three submissions that appends one action twice. |
| Pipeline.SkewExact | go-key-service/internal/auditlog/pipeline.go:214-217 | Exactly which differences of clock and timestamp the 64-bit check accepts. |
| Pipeline.SkewAsDocumented | docs/schema.md:54 | When the difference fits, the check rejects exactly beyond 30 000 ms either way. |
| Pipeline.SkewWraps | go-key-service/internal/auditlog/pipeline.go:442-447 | The smallest timestamp passes at clock zero, because its negation overflows. |
| Pipeline.FoldsExact | go-key-service/internal/auditlog/pipeline.go:214-217 | An accepted difference of clock and timestamp is a multiple of 2^63 up to the skew, and exact at odd multiples; one that fits is folded zero times. |
| Pipeline.TimestampBound | go-key-service/internal/auditlog/pipeline.go:213-280 | Two appended actions with the same agent and nonce carry timestamps at least 570 000 ms apart unless 64-bit arithmetic folded the later difference more often than the earlier; in that case, on a clock of less than 2^62 ms, the later timestamp lies before the earlier. |
| Pipeline.PayloadsNeverRepeat | go-key-service/internal/auditlog/pipeline.go:251-280 | Two leaves carry the same payload only if the clock moved by 2^63 - 30 000 ms between them, so a signed action enters the tree at most once. |
| Pipeline.AcceptedTwiceAtBound | go-key-service/internal/auditlog/pipeline.go:214-217 | That bound is reached: one timestamp passes at two clock readings exactly so far apart. |
| AuditPipeline.AuditLog.constructor | go-key-service/internal/auditlog/pipeline.go:176-189 | A new pipeline is in the initial state, with the leaves the tree has. |
| AuditPipeline.AuditLog.Submit | go-key-service/internal/auditlog/pipeline.go:191-281 | New state and reply are those of the submission step; the append fails for a closed tree and for a failed write or flush of its file. |
| AuditPipeline.AuditLog.AppendLocked | go-key-service/internal/auditlog/pipeline.go:238-280 | The locked section: cache hit, eviction, append, new event, broadcast. |
| AuditPipeline.AuditLog.Broadcast | go-key-service/internal/auditlog/pipeline.go:272-278 | Whatever order the channels are visited in, each gets the event if it has room and loses it otherwise. |
| AuditPipeline.AuditLog.PublishEvent | go-key-service/internal/auditlog/pipeline.go:314-325 | The event is appended to the log and offered to every channel. |
| AuditPipeline.AuditLog.RecordRejection | go-key-service/internal/auditlog/pipeline.go:286-296 | A denial detected elsewhere becomes the next event and touches neither tree nor cache. |
| AuditPipeline.AuditLog.RecordRejectionFromAction | go-key-service/internal/auditlog/pipeline.go:301-312 | A refused action becomes the next event, with the fields of the action. |
| AuditPipeline.AuditLog.Subscribe | go-key-service/internal/auditlog/pipeline.go:346-352 | A new subscriber gets an unused id and an empty channel. |
| AuditPipeline.AuditLog.Cancel | go-key-service/internal/auditlog/pipeline.go:354-364 | The subscriber is removed and its channel closed with what it holds; cancelling again changes nothing. |
| AuditPipeline.AuditLog.Receive | go-key-service/internal/auditlog/http/handler.go:144-147 | Receiving removes and returns the oldest event, waits on an empty open channel, drains a closed one and then reports that it is closed. |
| AuditPipeline.AuditLog.EventsFrom | go-key-service/internal/auditlog/pipeline.go:373-387 | The filtering loop returns the appended events from a leaf index on, in order. |
| AuditPipeline.AuditLog.AllEventsFrom | go-key-service/internal/auditlog/pipeline.go:394-405 | The suffix of the log from a sequence number on; nothing beyond its end. |
| Audit.LeavesAreHashedPayloads | go-key-service/internal/auditlog/pipeline.go:251-266 | The leaves of the tree are the leaf hashes of the payloads of the appended events, in order. |
| Audit.RootBindsActions | docs/threat_model.md:14-15 | Two pipelines, run in any way, whose trees have the same root appended the same signed actions in the same order, or a collision is computed. |
| Stream.CallOk | go-key-service/internal/auditlog/pipeline.go:314-325 | A call by anyone else keeps the stream invariant: a new event joins the channel, or is recorded as dropped. |
| Stream.DeliverOk | dashboard/src/hooks/useAuditStream.ts:37-48 | Handling a message keeps the invariant; the numbers it passes over were dropped by the channel. |
| Stream.TailChannelOk | go-key-service/internal/auditlog/http/handler.go:144-157 | Forwarding or suppressing the head of the channel keeps the invariant. |
| Stream.SendBacklogOk | go-key-service/internal/auditlog/http/handler.go:130-136 | Writing one backlog event keeps the invariant. |
| Stream.RunOk | go-key-service/internal/auditlog/http/handler.go:116-158 | The stream invariant holds in every reachable state. |
| Stream.ReceivedExactly | dashboard/src/hooks/useAuditStream.ts:27-62 | What the client received is strictly increasing, agrees with the log, and misses exactly the dropped and overtaken numbers. |
| Stream.ExactPrefixIff | dashboard/src/hooks/useAuditStream.ts:27-62 | The client holds exactly the log prefix up to its last number if and only if no dropped event was overtaken. |
| Stream.ExactlyOnce | dashboard/src/hooks/useAuditStream.ts:13-15 | Without drops after the backlog, cuts and reconnects at any point lose and repeat nothing. |
| Stream.WindowIsLast500 | dashboard/src/hooks/useAuditStream.ts:44-48 | The display holds the last 500 received events, or all of them. |
| Stream.CaughtUp | go-key-service/internal/auditlog/http/handler.go:130-157 | When a live connection has nothing left to send or deliver, only dropped events are missing after the last number; without drops the client has the whole log. |
| Stream.TailExact | go-key-service/internal/auditlog/http/handler.go:144-157 | A waiting event leaves the channel and is written exactly if its number is beyond the last one sent. |
| Stream.EndsExact | go-key-service/internal/auditlog/http/handler.go:116-117 | A stop and a cut unregister the subscriber; what was written survives a stop and not a cut. |
| Stream.LostExact | go-key-service/internal/auditlog/pipeline.go:319-324 | A drop is recorded exactly when an event is logged and the channel does not get it. |
| Resync.ResyncCatchesUp | dashboard/src/hooks/useAuditStream.ts:13-15 | From every reachable state one undisturbed reconnect delivers the rest of the log, each event once and in order. |
| Resync.ResyncIsComplete | dashboard/src/hooks/useAuditStream.ts:13-15 | The client then holds the whole log if and only if nothing was overtaken before. |
| Stream.OvertakenNeverReceived | go-key-service/internal/auditlog/pipeline.go:152-155 | An overtaken number is never received, whatever happens afterwards. |
| Stream.SlowClientLosesAnEvent | go-key-service/internal/auditlog/pipeline.go:152-155 | A concrete run, with a channel of one place, in which the client ends at number 2 without number 1. |
| StreamObjects.StreamHandler.constructor | go-key-service/internal/auditlog/http/handler.go:116-129 | The handler subscribes before it reads the backlog and has sent nothing. |
| StreamObjects.StreamHandler.Replay | go-key-service/internal/auditlog/http/handler.go:130-137 | The loop writes the backlog in order, and on a failed write exactly the part before it. |
| StreamObjects.ReplayIsSteps | go-key-service/internal/auditlog/http/handler.go:130-137 | A replay of k events is k backlog steps of the stream model. |
| StreamObjects.StreamHandler.TailOne | go-key-service/internal/auditlog/http/handler.go:144-157 | One round of the tail loop is one channel step of the stream model; a closed channel is reported. |
| StreamObjects.StreamHandler.Stop | go-key-service/internal/auditlog/http/handler.go:116-117 | Leaving the handler removes its subscriber. |
| StreamObjects.StreamClient.Connect | dashboard/src/hooks/useAuditStream.ts:27-30 | A connection resumes after the last number, or at 0; none is opened after unmounting. |
| StreamObjects.StreamClient.Opened | dashboard/src/hooks/useAuditStream.ts:31-36 | Opening clears the error and resets the wait, unless unmounted. |
| StreamObjects.StreamClient.Message | dashboard/src/hooks/useAuditStream.ts:37-52 | A seen number changes nothing; a new one is kept, displayed and remembered; data that does not parse only sets the error. |
| StreamObjects.StreamClient.ConnectionLost | dashboard/src/hooks/useAuditStream.ts:53-61 | The connection is closed and the wait doubles up to 8 s, unless unmounted. |
| StreamObjects.StreamClient.Unmount | dashboard/src/hooks/useAuditStream.ts:65-68 | Unmounting closes the connection and silences every callback. |
| Anchoring.DoKeeps | go-key-service/internal/anchor/committer.go:150-187 | Appends, broadcasts, mining in any order and reports of either outcome keep the anchoring invariant. |
| Anchoring.NothingIsRewritten | contracts/src/AuditAnchor.sol:45-47 | Ledger and tree only grow; entries and leaves never change. |
| Anchoring.AnchorsVerify | contracts/src/AuditAnchor.sol:72-88 | In every run, entries have positive, strictly increasing sizes, each is the root of that many leaves of the current tree, and the historical check accepts it. |
| Anchoring.ReportedIsAnchored | go-key-service/internal/anchor/committer.go:160-177 | What is shown to readers is on the ledger, and the remembered size never exceeds the ledger's. |
| Anchoring.AnchoredLeavesAreFixed | docs/threat_model.md:44 | Whatever later log, consistency proof and inclusion proof are presented against an anchor, a leaf accepted at an anchored position is the leaf of the time of the anchor, or a collision is computed. |
| Anchoring.UndisturbedCommit | go-key-service/internal/anchor/committer.go:146-187 | An undisturbed commit of a tree larger than the last entry and than the last reported size is anchored, remembered and shown. |
| Anchoring.ContractCheckExact | contracts/src/AuditAnchor.sol:77-82 | A commit is refused exactly for size zero and for a size that does not exceed the last entry. |
| Anchoring.GrowthIsCommitted | go-key-service/internal/anchor/committer.go:150-187 | In every reachable world of an idle committer that knows the last entry, growth by one leaf is committed and no growth does nothing. |
| Anchoring.BroadcastExact | go-key-service/internal/anchor/committer.go:151-164 | A tick sends the snapshot of a grown tree and otherwise nothing. |
| Anchoring.MineExact | contracts/src/AuditAnchor.sol:76-88 | A pending transaction is run once and adds its entry or reverts. |
| Anchoring.ReportExact | go-key-service/internal/anchor/committer.go:164-177 | A reported success moves what is remembered and shown; a reported failure moves nothing, even when the transaction was mined. |
| AnchorObjects.AuditAnchor.Deploy | contracts/src/AuditAnchor.sol:56-60 | Deployment fails exactly for the zero address; otherwise the ledger is empty, the sender is the owner and the given address the committer. |
| AnchorObjects.AuditAnchor.Commit | contracts/src/AuditAnchor.sol:76-88 | It succeeds exactly for the committer and a size above zero and above the last entry; each revert has its own condition and numbers; otherwise one entry is added and the id is its position. |
| AnchorObjects.AuditAnchor.AnchorAt | contracts/src/AuditAnchor.sol:90-94 | Entry id, or a revert out of bounds. |
| AnchorObjects.AuditAnchor.Latest | contracts/src/AuditAnchor.sol:96-101 | The entry with the greatest size, or a revert on an empty ledger. |
| AnchorObjects.FakeEVMClient.Commit | go-key-service/internal/anchor/client.go:53-80 | It succeeds exactly for a size above zero and above the last entry, a 32-byte root and no armed error; each error has its own condition, and an armed error is used up by one call. |
| AnchorObjects.LatestStore.Latest | go-key-service/internal/anchor/anchor.go:121-134 | The last anchor set, or an error before the first. |
| AnchorObjects.LatestStore.Set | go-key-service/internal/anchor/anchor.go:110-119 | The shown anchor is replaced. |
| AnchorObjects.Committer.Commit | go-key-service/internal/anchor/committer.go:146-187 | It succeeds exactly when the tree is larger than the last reported size and the last entry and no error is armed, and then is broadcast, mined and reported in the anchoring model; a failure leaves ledger, memory and store as they were. |

## Left out

- Integer widths: sizes and indices are naturals. The counters never exceed the sizes passed in, so 64-bit arithmetic gives the same values; the overflow of `k<<1` for lists of more than 2^62 leaves is not modelled. Sequence numbers in the dashboard are exact, as JavaScript numbers are below 2^53.
- Verifier.VerifierExact: for size 0 on a non-empty tree the check accepts any root, as the code does; anchors always have a positive size.
- TreeStore.FileRefinesLog: its runs have no file error except a crash that cuts the file; failed writes and flushes are in `TreeStore.Tree.Persist` and `TreeStore.FailedAppendReopens`.
- TreeStore.File: one handle on a file at a time; errors of closing it are not modelled.
- Verifier.RootVerifier.VerifyHistoricalRoot: messages are constructors with their numbers and errors, not formatted text; the error of `ProofForRange` cannot occur there because the tree never shrinks.
- AuditPipeline.AuditLog: Go channels are queues held by the pipeline; goroutines are interleaved as atomic steps.
- Pipeline.Expired: durations are unbounded; Go's saturate near 292 years, on the same side of the window. The monotonic clock reading inside Go's times is one integer clock here.
- ActionSchema.ReadActionBack: text fields are sequences of Unicode scalar values; byte strings that are not well-formed UTF-8, which Go's encoder replaces, are not modelled.
- Stream.Next: one mounted client; timers and the flush of the response are not modelled, but delivery may be delayed or cut at any point. Parse errors and unmounting are in `StreamObjects.StreamClient`.
- StreamObjects.StreamHandler.Replay: the request's `since` is a number; the error replies for a malformed one or a writer without flush are left out.
- AnchorObjects.Committer.Commit: one committer; concurrent one-off commits, the ticker loop, logging and the wrapped error text are left out. It runs against the in-memory client, while `Anchoring` covers delayed and unreported transactions.
- AnchorObjects.FakeEVMClient.Commit: transaction hashes and the lock around the call are left out; the error a caller may arm is one constructor.
- AnchorObjects.AuditAnchor: emitted events, rotation of the committer and the ownership handover are left out; `block.number` and the sender are arguments.
- Process restart of the key server: its tree, sequence numbers and anchors start over, so stream and anchor claims are about one process.
- SHA-256, Ed25519, key store, capability tokens, access control, HTTP routing, configuration, CLI, React components and the shell-out to `cast`: I/O, wrappers or short guard chains.
- The accessors `Size`, `Root`, `LeafHashes` and `Proof`, and the variants `VerifyInclusion` and `VerifyInclusionHash`: each is a special case of a modelled member.
- The Python SDK's gate and proposal flow: a weaker copy of the pipeline's replay check.
