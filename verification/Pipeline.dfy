/** The audit pipeline: replay cache, event log, tree and subscriber channels under one lock.

    A call of the pipeline reads no shared state before it takes the lock, so every interleaving
    of calls is a sequence of the atomic steps below.  Clock readings are arguments: `now` is read
    before the lock is taken and need not grow from step to step.  Times are nanoseconds. */
module Pipeline {
  import opened Hashing
  import opened Wrappers
  import opened ActionSchema

  /** What the pipeline is built with: the hash, the signature check on (public key, message,
      signature), and the size of a subscriber channel. */
  datatype Config = Config(h: HashFn, ed25519: (Bytes, Bytes, Bytes) -> bool, buffer: nat)

  datatype Event =
    | Appended(seqNo: nat, leafIndex: nat, leafHash: Digest, action: Action, signature: Bytes, publicKey: Bytes,
               recordedAt: int)
    | Rejected(seqNo: nat, refused: Option<Action>, agentId: string, actionType: string, target: string,
               reason: string, recordedAt: int)

  datatype State = State(leaves: seq<Digest>, seen: map<string, Event>, events: seq<Event>,
                         subs: map<nat, seq<Event>>, nextId: nat)

  const INITIAL: State := State([], map[], [], map[], 0)

  // Clocks and windows

  const NANOS_PER_MILLI: int := 1_000_000
  const WINDOW_NANOS: int := (MAX_SKEW_MILLIS + NONCE_WINDOW_MS) * NANOS_PER_MILLI
  const TWO_63: int := 0x8000_0000_0000_0000
  const TWO_64: int := 0x1_0000_0000_0000_0000

  function Millis(nanos: int): int {
    nanos / NANOS_PER_MILLI
  }

  /** Two's complement 64-bit arithmetic. */
  function Wrap64(x: int): int64 {
    (x + TWO_63) % TWO_64 - TWO_63
  }

  function AbsInt64(v: int64): int64 {
    if v < 0 then Wrap64(-(v as int)) else v
  }

  predicate SkewTooLarge(now: int, timestampMs: int64) {
    AbsInt64(Wrap64(Millis(now) - timestampMs)) > MAX_SKEW_MILLIS
  }

  predicate Expired(recordedAt: int, now: int) {
    now - recordedAt > WINDOW_NANOS
  }

  function ReplayKey(agentId: string, nonce: string): string {
    agentId + "|" + nonce
  }

  // The checks before the lock

  datatype Lookup = Found(publicKey: Bytes) | NotFound | LookupFailed

  /** The outcome of the checks: the key found and the canonical bytes, or a refusal that is
      broadcast, or an error that is not. */
  datatype Check = Pass(publicKey: Bytes, canonical: Bytes) | Refuse(reason: string) | Abort

  function RefusalReason(e: ActionError): string {
    match e
    case ErrEmptyField => "invalid_action"
    case ErrNonceShape => "invalid_nonce"
    case ErrSchemaVersion => "schema_version"
  }

  /** A signature is checked on the canonical bytes, with keys and signatures of the right size. */
  predicate Signed(c: Config, canonical: Bytes, signature: Bytes, publicKey: Bytes) {
    && |publicKey| == PUBLIC_KEY_SIZE
    && |signature| == SIGNATURE_SIZE
    && c.ed25519(publicKey, canonical, signature)
  }

  function CheckAction(c: Config, a: Action, signature: Bytes, now: int, lookup: Lookup): Check {
    match Validate(a)
    case Some(e) => Refuse(RefusalReason(e))
    case None =>
      if SkewTooLarge(now, a.timestampMs) then Refuse("timestamp_skew")
      else
        match lookup
        case NotFound => Refuse("unknown_agent")
        case LookupFailed => Abort
        case Found(publicKey) =>
          if Signed(c, Encode(a), signature, publicKey) then Pass(publicKey, Encode(a)) else Refuse("invalid_signature")
  }

  /** What a submission is checked for, in plain conditions: version 1 and named parties, a nonce of 32
      lowercase hexadecimal characters, and an Ed25519 signature on the canonical bytes by a 32-byte key. */
  predicate Named(a: Action) {
    a.agentId != "" && a.actionType != "" && a.target != ""
  }

  predicate HexNonce(a: Action) {
    |a.nonce| == 32 && forall i :: 0 <= i < 32 ==> '0' <= a.nonce[i] <= '9' || 'a' <= a.nonce[i] <= 'f'
  }

  /** A submission passes exactly when the action is well formed, fresh, from a known agent and
      signed; otherwise the first check that fails decides the reason that is broadcast. */
  lemma {:induction false} CheckExact(c: Config, a: Action, signature: Bytes, now: int, lookup: Lookup)
    ensures var check := CheckAction(c, a, signature, now, lookup);
            var shaped := a.schemaVersion == 1 && Named(a) && HexNonce(a);
            var recent := shaped && !SkewTooLarge(now, a.timestampMs);
            var signed := lookup.Found? && |lookup.publicKey| == 32 && |signature| == 64
                          && c.ed25519(lookup.publicKey, Encode(a), signature);
            && (check == Refuse("schema_version") <==> a.schemaVersion != 1)
            && (check == Refuse("invalid_action") <==> a.schemaVersion == 1 && !Named(a))
            && (check == Refuse("invalid_nonce") <==> a.schemaVersion == 1 && Named(a) && !HexNonce(a))
            && (check == Refuse("timestamp_skew") <==> shaped && SkewTooLarge(now, a.timestampMs))
            && (check == Refuse("unknown_agent") <==> recent && lookup.NotFound?)
            && (check.Abort? <==> recent && lookup.LookupFailed?)
            && (check == Refuse("invalid_signature") <==> recent && lookup.Found? && !signed)
            && (check.Pass? <==> recent && signed)
            && (check.Pass? ==> check == Pass(lookup.publicKey, Encode(a)))
  {
    ValidateExact(a);
    ValidateKind(a);
  }

  lemma {:induction false} ValidateKind(a: Action)
    ensures Validate(a) == Some(ErrSchemaVersion) <==> a.schemaVersion != 1
    ensures Validate(a) == Some(ErrEmptyField) <==>
        a.schemaVersion == 1 && (a.agentId == "" || a.actionType == "" || a.target == "")
  {
  }

  // The atomic steps

  datatype Call =
    | Submit(request: Option<Action>, signature: Bytes, now: int, lookup: Lookup, rejectedAt: int, appendOk: bool)
    | RecordRejection(agentId: string, actionType: string, target: string, reason: string, at: int)
    | Subscribe
    | Cancel(id: nat)
    | Receive(id: nat)

  datatype Reply = Fresh(event: Event) | Cached(event: Event) | Refusal(reason: string) | Failed

  /** Put an event on every channel that has room; the others lose it. */
  function Offer(subs: map<nat, seq<Event>>, e: Event, buffer: nat): map<nat, seq<Event>> {
    map id | id in subs :: if |subs[id]| < buffer then subs[id] + [e] else subs[id]
  }

  function Publish(c: Config, s: State, e: Event): State {
    s.(events := s.events + [e], subs := Offer(s.subs, e, c.buffer))
  }

  function RejectedEvent(s: State, a: Action, reason: string, at: int): Event {
    Rejected(|s.events|, Some(a), a.agentId, a.actionType, a.target, reason, at)
  }

  function AppendedEvent(c: Config, s: State, a: Action, canonical: Bytes, signature: Bytes, publicKey: Bytes,
                         now: int): Event {
    Appended(|s.events|, |s.leaves|, HashLeaf(c.h, canonical + signature), a, signature, publicKey, now)
  }

  /** The cache hit of a submission, if it has one. */
  predicate Hit(s: State, key: string, now: int) {
    key in s.seen && !Expired(s.seen[key].recordedAt, now)
  }

  /** The locked section of a submission that passed its checks. */
  function Accept(c: Config, s: State, a: Action, canonical: Bytes, signature: Bytes, publicKey: Bytes, now: int,
                  appendOk: bool): (State, Reply) {
    var key := ReplayKey(a.agentId, a.nonce);
    if Hit(s, key, now) then (s, Cached(s.seen[key]))
    else if !appendOk then (s.(seen := s.seen - {key}), Failed)
    else
      var e := AppendedEvent(c, s, a, canonical, signature, publicKey, now);
      (Publish(c, s.(leaves := s.leaves + [e.leafHash], seen := s.seen[key := e]), e), Fresh(e))
  }

  /** A submission after its checks. */
  function Submitted(c: Config, s: State, a: Action, signature: Bytes, now: int, check: Check, rejectedAt: int,
                     appendOk: bool): (State, Reply) {
    match check
    case Refuse(reason) => (Publish(c, s, RejectedEvent(s, a, reason, rejectedAt)), Refusal(reason))
    case Abort => (s, Failed)
    case Pass(publicKey, canonical) => Accept(c, s, a, canonical, signature, publicKey, now, appendOk)
  }

  function SubmitStep(c: Config, s: State, request: Option<Action>, signature: Bytes, now: int, lookup: Lookup,
                      rejectedAt: int, appendOk: bool): (State, Reply) {
    match request
    case None => (s, Failed)
    case Some(a) => Submitted(c, s, a, signature, now, CheckAction(c, a, signature, now, lookup), rejectedAt, appendOk)
  }

  function Step(c: Config, s: State, call: Call): State {
    match call
    case Submit(request, signature, now, lookup, rejectedAt, appendOk) =>
      SubmitStep(c, s, request, signature, now, lookup, rejectedAt, appendOk).0
    case RecordRejection(agentId, actionType, target, reason, at) =>
      Publish(c, s, Rejected(|s.events|, None, agentId, actionType, target, reason, at))
    case Subscribe => s.(subs := s.subs[s.nextId := []], nextId := s.nextId + 1)
    case Cancel(id) => s.(subs := s.subs - {id})
    case Receive(id) => if id in s.subs && s.subs[id] != [] then s.(subs := s.subs[id := s.subs[id][1..]]) else s
  }

  function Run(c: Config, calls: seq<Call>): State {
    if calls == [] then INITIAL else Step(c, Run(c, calls[..|calls| - 1]), calls[|calls| - 1])
  }

  /** Every step leaves the log and all channels as they are for a given subscriber, or publishes
      one event, numbered by its position. */
  predicate Publishes(c: Config, s: State, s': State) {
    && |s'.events| == |s.events| + 1 && s.events <= s'.events
    && s'.events[|s.events|].seqNo == |s.events|
    && s'.subs == Offer(s.subs, s'.events[|s.events|], c.buffer)
  }

  lemma {:induction false} SubmittedShape(c: Config, s: State, a: Action, signature: Bytes, now: int, check: Check,
                                          rejectedAt: int, appendOk: bool)
    ensures var s' := Submitted(c, s, a, signature, now, check, rejectedAt, appendOk).0;
            Publishes(c, s, s') || (s'.events == s.events && s'.subs == s.subs && s'.leaves == s.leaves)
  {
  }

  lemma {:induction false} StepShape(c: Config, s: State, call: Call)
    ensures var s' := Step(c, s, call);
            || Publishes(c, s, s')
            || (s'.events == s.events && s'.leaves == s.leaves && (call.Submit? ==> s'.subs == s.subs))
    ensures !call.Submit? ==> Step(c, s, call).leaves == s.leaves
  {
    if call.Submit? && call.request.Some? {
      var a := call.request.value;
      SubmittedShape(c, s, a, call.signature, call.now, CheckAction(c, a, call.signature, call.now, call.lookup),
                     call.rejectedAt, call.appendOk);
    }
  }

  // Log and tree agree

  /** The appended events of a log, in order. */
  function AppendedOf(events: seq<Event>): seq<Event> {
    if events == [] then []
    else
      var before, last := AppendedOf(events[..|events| - 1]), events[|events| - 1];
      if last.Appended? then before + [last] else before
  }

  function RejectionsOf(events: seq<Event>): nat {
    if events == [] then 0
    else RejectionsOf(events[..|events| - 1]) + if events[|events| - 1].Rejected? then 1 else 0
  }

  /** An event that carries leaf k: a valid action within the skew, signed under the recorded key,
      whose payload hashes to the leaf. */
  predicate Carries(c: Config, e: Event, k: nat, leaf: Digest) {
    && e.Appended?
    && e.leafIndex == k && e.leafHash == leaf
    && leaf == HashLeaf(c.h, Payload(e.action, e.signature))
    && Validate(e.action).None?
    && Signed(c, Encode(e.action), e.signature, e.publicKey)
    && !SkewTooLarge(e.recordedAt, e.action.timestampMs)
  }

  ghost predicate LogMatchesTree(c: Config, s: State) {
    && (forall i :: 0 <= i < |s.events| ==> s.events[i].seqNo == i)
    && |AppendedOf(s.events)| == |s.leaves|
    && (forall k :: 0 <= k < |s.leaves| ==> Carries(c, AppendedOf(s.events)[k], k, s.leaves[k]))
  }

  lemma {:induction false} AppendedOfPush(events: seq<Event>, e: Event)
    ensures AppendedOf(events + [e]) == if e.Appended? then AppendedOf(events) + [e] else AppendedOf(events)
    ensures RejectionsOf(events + [e]) == RejectionsOf(events) + if e.Appended? then 0 else 1
  {
    assert (events + [e])[..|events|] == events;
  }

  /** What a submission that passed its checks has been checked for. */
  predicate Checked(c: Config, a: Action, canonical: Bytes, signature: Bytes, publicKey: Bytes, now: int) {
    && Validate(a).None?
    && canonical == Encode(a)
    && Signed(c, canonical, signature, publicKey)
    && !SkewTooLarge(now, a.timestampMs)
  }

  lemma {:induction false} PassIsChecked(c: Config, a: Action, signature: Bytes, now: int, lookup: Lookup)
    ensures var check := CheckAction(c, a, signature, now, lookup);
            check.Pass? ==> Checked(c, a, check.canonical, signature, check.publicKey, now)
  {
  }

  lemma {:induction false} NewLeafCarried(c: Config, s: State, a: Action, canonical: Bytes, signature: Bytes,
                                          publicKey: Bytes, now: int)
    requires Checked(c, a, canonical, signature, publicKey, now)
    ensures var e := AppendedEvent(c, s, a, canonical, signature, publicKey, now);
            Carries(c, e, |s.leaves|, e.leafHash)
  {
  }

  /** Adding an event that carries the next leaf, or a rejection, keeps log and tree in step. */
  lemma {:induction false} PushKeepsLog(c: Config, s: State, s': State, e: Event)
    requires LogMatchesTree(c, s)
    requires s'.events == s.events + [e] && e.seqNo == |s.events|
    requires e.Rejected? ==> s'.leaves == s.leaves
    requires e.Appended? ==> s'.leaves == s.leaves + [e.leafHash] && Carries(c, e, |s.leaves|, e.leafHash)
    ensures LogMatchesTree(c, s')
  {
    AppendedOfPush(s.events, e);
  }

  lemma {:induction false} AcceptKeepsLog(c: Config, s: State, a: Action, canonical: Bytes, signature: Bytes,
                                          publicKey: Bytes, now: int, appendOk: bool)
    requires LogMatchesTree(c, s) && Checked(c, a, canonical, signature, publicKey, now)
    ensures LogMatchesTree(c, Accept(c, s, a, canonical, signature, publicKey, now, appendOk).0)
  {
    var s' := Accept(c, s, a, canonical, signature, publicKey, now, appendOk).0;
    if s'.events != s.events {
      var e := AppendedEvent(c, s, a, canonical, signature, publicKey, now);
      NewLeafCarried(c, s, a, canonical, signature, publicKey, now);
      PushKeepsLog(c, s, s', e);
    }
  }

  lemma {:induction false} StepKeepsLog(c: Config, s: State, call: Call)
    requires LogMatchesTree(c, s)
    ensures LogMatchesTree(c, Step(c, s, call))
  {
    match call
    case Submit(request, signature, now, lookup, rejectedAt, appendOk) =>
      if request.Some? {
        SubmittedKeepsLog(c, s, request.value, signature, now, lookup,
                          CheckAction(c, request.value, signature, now, lookup), rejectedAt, appendOk);
      }
    case RecordRejection(agentId, actionType, target, reason, at) =>
      PushKeepsLog(c, s, Step(c, s, call), Rejected(|s.events|, None, agentId, actionType, target, reason, at));
    case _ =>
  }

  lemma {:induction false} SubmittedKeepsLog(c: Config, s: State, a: Action, signature: Bytes, now: int,
                                             lookup: Lookup, check: Check, rejectedAt: int, appendOk: bool)
    requires LogMatchesTree(c, s) && check == CheckAction(c, a, signature, now, lookup)
    ensures LogMatchesTree(c, Submitted(c, s, a, signature, now, check, rejectedAt, appendOk).0)
  {
    PassIsChecked(c, a, signature, now, lookup);
    match check
    case Refuse(reason) =>
      PushKeepsLog(c, s, Submitted(c, s, a, signature, now, check, rejectedAt, appendOk).0,
                   RejectedEvent(s, a, reason, rejectedAt));
    case Abort =>
    case Pass(publicKey, canonical) => AcceptKeepsLog(c, s, a, canonical, signature, publicKey, now, appendOk);
  }

  /** In every reachable state of a pipeline that started on an empty tree and is its only
      appender, positions are sequence numbers, the k-th appended event carries leaf k, and every
      event that is not a leaf is a rejection. */
  lemma {:induction false} LogAlwaysMatchesTree(c: Config, calls: seq<Call>)
    ensures LogMatchesTree(c, Run(c, calls))
    ensures var s := Run(c, calls); |s.events| == |s.leaves| + RejectionsOf(s.events)
    decreases |calls|
  {
    EventsCounted(Run(c, calls).events);
    if calls != [] {
      LogAlwaysMatchesTree(c, calls[..|calls| - 1]);
      StepKeepsLog(c, Run(c, calls[..|calls| - 1]), calls[|calls| - 1]);
    }
  }

  /** Every event is an append or a rejection. */
  lemma {:induction false} EventsCounted(events: seq<Event>)
    ensures |events| == |AppendedOf(events)| + RejectionsOf(events)
  {
    if events != [] {
      EventsCounted(events[..|events| - 1]);
    }
  }

  /** The appended events with a leaf index of at least `since`. */
  function EventsSince(events: seq<Event>, since: nat): seq<Event> {
    if events == [] then []
    else
      var before, last := EventsSince(events[..|events| - 1], since), events[|events| - 1];
      if last.Appended? && last.leafIndex >= since then before + [last] else before
  }

  ghost predicate Indexed(appended: seq<Event>) {
    forall k :: 0 <= k < |appended| ==> appended[k].Appended? && appended[k].leafIndex == k
  }

  lemma {:induction false} EventsSinceIsSuffix(events: seq<Event>, since: nat)
    requires Indexed(AppendedOf(events))
    ensures EventsSince(events, since) ==
            if since <= |AppendedOf(events)| then AppendedOf(events)[since..] else []
  {
    if events != [] {
      var before, last := events[..|events| - 1], events[|events| - 1];
      var appended := AppendedOf(before);
      assert forall k :: 0 <= k < |appended| ==> appended[k] == AppendedOf(events)[k];
      EventsSinceIsSuffix(before, since);
      if last.Appended? {
        assert AppendedOf(events)[|appended|] == last;
      }
    }
  }

  function HashesOf(events: seq<Event>): (hashes: seq<Digest>)
    requires forall i :: 0 <= i < |events| ==> events[i].Appended?
    ensures |hashes| == |events|
    ensures forall i :: 0 <= i < |events| ==> hashes[i] == events[i].leafHash
  {
    seq(|events|, i requires 0 <= i < |events| => events[i].leafHash)
  }

  /** An auditor that asks for the events since s rebuilds exactly the leaves from s on. */
  lemma {:induction false} EventsSinceRebuildsLeaves(c: Config, calls: seq<Call>, since: nat)
    requires since <= |Run(c, calls).leaves|
    ensures var s := Run(c, calls); var es := EventsSince(s.events, since);
            (forall i :: 0 <= i < |es| ==> es[i].Appended?) && HashesOf(es) == s.leaves[since..]
  {
    var s := Run(c, calls);
    LogAlwaysMatchesTree(c, calls);
    EventsSinceIsSuffix(s.events, since);
    var es := EventsSince(s.events, since);
    forall i | 0 <= i < |es|
      ensures es[i].Appended? && es[i].leafHash == s.leaves[since..][i]
    {
      assert Carries(c, AppendedOf(s.events)[since + i], since + i, s.leaves[since + i]);
    }
  }

  // Replay safety

  predicate HasKey(e: Event, key: string) {
    e.Appended? && ReplayKey(e.action.agentId, e.action.nonce) == key
  }

  /** The last appended event with a key. */
  function LastWith(events: seq<Event>, key: string): Option<Event> {
    if events == [] then None
    else if HasKey(events[|events| - 1], key) then Some(events[|events| - 1])
    else LastWith(events[..|events| - 1], key)
  }

  function CacheEntry(seen: map<string, Event>, key: string): Option<Event> {
    if key in seen then Some(seen[key]) else None
  }

  /** The replay cache holds exactly the last appended event of every key. */
  ghost predicate CacheExact(s: State) {
    forall key: string :: CacheEntry(s.seen, key) == LastWith(s.events, key)
  }

  /** Appended events with the same key are recorded more than the window apart, the later in the
      log being the later in time. */
  ghost predicate Spaced(events: seq<Event>) {
    forall i, j :: 0 <= i < j < |events| && events[i].Appended? && events[j].Appended?
                   && ReplayKey(events[i].action.agentId, events[i].action.nonce)
                      == ReplayKey(events[j].action.agentId, events[j].action.nonce)
      ==> events[j].recordedAt - events[i].recordedAt > WINDOW_NANOS
  }

  lemma {:induction false} LastWithPush(events: seq<Event>, e: Event, key: string)
    ensures LastWith(events + [e], key) == if HasKey(e, key) then Some(e) else LastWith(events, key)
  {
    assert (events + [e])[..|events|] == events;
  }

  /** The last event of a key is the latest. */
  lemma {:induction false} LastIsLatest(events: seq<Event>, key: string, i: nat)
    requires Spaced(events) && i < |events| && HasKey(events[i], key)
    ensures LastWith(events, key).Some? && LastWith(events, key).value.recordedAt >= events[i].recordedAt
    decreases |events|
  {
    var n := |events| - 1;
    if i < n && !HasKey(events[n], key) {
      LastIsLatest(events[..n], key, i);
    }
  }

  lemma {:induction false} PushRejected(s: State, s': State, e: Event)
    requires CacheExact(s) && Spaced(s.events)
    requires e.Rejected? && s'.events == s.events + [e] && s'.seen == s.seen
    ensures CacheExact(s') && Spaced(s'.events)
  {
    forall key: string
      ensures CacheEntry(s'.seen, key) == LastWith(s'.events, key)
    {
      LastWithPush(s.events, e, key);
    }
  }

  lemma {:induction false} PushAppended(s: State, s': State, e: Event, key: string)
    requires CacheExact(s) && Spaced(s.events)
    requires HasKey(e, key) && !Hit(s, key, e.recordedAt)
    requires s'.events == s.events + [e] && s'.seen == s.seen[key := e]
    ensures CacheExact(s') && Spaced(s'.events)
  {
    forall k: string
      ensures CacheEntry(s'.seen, k) == LastWith(s'.events, k)
    {
      LastWithPush(s.events, e, k);
      assert CacheEntry(s.seen, k) == LastWith(s.events, k);
    }
    forall i | 0 <= i < |s.events| && HasKey(s.events[i], key)
      ensures e.recordedAt - s.events[i].recordedAt > WINDOW_NANOS
    {
      LastIsLatest(s.events, key, i);
      assert CacheEntry(s.seen, key) == LastWith(s.events, key);
    }
  }

  /** The branch that loses a cache entry: the entry is stale and evicted, and the append fails. */
  predicate EvictsWithoutAppend(s: State, a: Action, now: int, appendOk: bool) {
    var key := ReplayKey(a.agentId, a.nonce);
    key in s.seen && Expired(s.seen[key].recordedAt, now) && !appendOk
  }

  /** The locked section keeps the cache exact if and only if it does not take that branch. */
  lemma {:induction false} AcceptKeepsCache(c: Config, s: State, a: Action, canonical: Bytes, signature: Bytes,
                                            publicKey: Bytes, now: int, appendOk: bool)
    requires CacheExact(s) && Spaced(s.events)
    ensures var s' := Accept(c, s, a, canonical, signature, publicKey, now, appendOk).0;
            Spaced(s'.events) && (CacheExact(s') <==> !EvictsWithoutAppend(s, a, now, appendOk))
  {
    var key := ReplayKey(a.agentId, a.nonce);
    var s' := Accept(c, s, a, canonical, signature, publicKey, now, appendOk).0;
    if !Hit(s, key, now) {
      if appendOk {
        PushAppended(s, s', AppendedEvent(c, s, a, canonical, signature, publicKey, now), key);
      } else {
        assert CacheEntry(s.seen, key) == LastWith(s.events, key);
        assert CacheEntry(s'.seen, key) == None;
        if key !in s.seen {
          assert s'.seen == s.seen;
        }
      }
    }
  }

  /** A submission that passed its checks and takes that branch. */
  predicate LosesEntry(c: Config, s: State, call: Call) {
    match call
    case Submit(Some(a), signature, now, lookup, _, appendOk) =>
      CheckAction(c, a, signature, now, lookup).Pass? && EvictsWithoutAppend(s, a, now, appendOk)
    case _ => false
  }

  /** Every other call keeps the cache exact, and that one never does. */
  lemma {:induction false} StepKeepsCache(c: Config, s: State, call: Call)
    requires CacheExact(s) && Spaced(s.events)
    ensures Spaced(Step(c, s, call).events)
    ensures CacheExact(Step(c, s, call)) <==> !LosesEntry(c, s, call)
  {
    match call
    case Submit(request, signature, now, lookup, rejectedAt, appendOk) =>
      if request.Some? {
        var check := CheckAction(c, request.value, signature, now, lookup);
        SubmittedKeepsCache(c, s, request.value, signature, now, check, rejectedAt, appendOk);
      } else {
        SameCache(s, Step(c, s, call));
      }
    case RecordRejection(agentId, actionType, target, reason, at) =>
      PushRejected(s, Step(c, s, call), Rejected(|s.events|, None, agentId, actionType, target, reason, at));
    case _ => SameCache(s, Step(c, s, call));
  }

  lemma {:induction false} SameCache(s: State, s': State)
    requires CacheExact(s) && Spaced(s.events) && s'.seen == s.seen && s'.events == s.events
    ensures CacheExact(s') && Spaced(s'.events)
  {
  }

  lemma {:induction false} SubmittedKeepsCache(c: Config, s: State, a: Action, signature: Bytes, now: int, check: Check,
                                               rejectedAt: int, appendOk: bool)
    requires CacheExact(s) && Spaced(s.events)
    ensures var s' := Submitted(c, s, a, signature, now, check, rejectedAt, appendOk).0;
            Spaced(s'.events) && (CacheExact(s') <==> !(check.Pass? && EvictsWithoutAppend(s, a, now, appendOk)))
  {
    match check
    case Refuse(reason) =>
      var s' := Submitted(c, s, a, signature, now, check, rejectedAt, appendOk).0;
      PushRejected(s, s', RejectedEvent(s, a, reason, rejectedAt));
    case Abort =>
    case Pass(publicKey, canonical) => AcceptKeepsCache(c, s, a, canonical, signature, publicKey, now, appendOk);
  }

  /** A run in which no submission evicts a stale entry and then fails to append. */
  predicate KeepsEntries(c: Config, calls: seq<Call>) {
    calls == [] ||
    var before, last := calls[..|calls| - 1], calls[|calls| - 1];
    KeepsEntries(c, before) && !LosesEntry(c, Run(c, before), last)
  }

  /** The cache is exact after every call of the run. */
  ghost predicate AlwaysExact(c: Config, calls: seq<Call>) {
    CacheExact(Run(c, calls)) && (calls == [] || AlwaysExact(c, calls[..|calls| - 1]))
  }

  /** The cache is exact throughout a run if and only if the run never takes the branch that loses an
      entry; and then appended events with one key are more than the window apart. */
  lemma {:induction false} CacheAlwaysExact(c: Config, calls: seq<Call>)
    ensures AlwaysExact(c, calls) <==> KeepsEntries(c, calls)
    ensures KeepsEntries(c, calls) ==> CacheExact(Run(c, calls)) && Spaced(Run(c, calls).events)
    decreases |calls|
  {
    if calls != [] {
      var before, last := calls[..|calls| - 1], calls[|calls| - 1];
      CacheAlwaysExact(c, before);
      if KeepsEntries(c, before) {
        StepKeepsCache(c, Run(c, before), last);
      }
    }
  }

  /** A run in which every tree append succeeds, as with a tree in memory. */
  predicate AppendsSucceed(calls: seq<Call>) {
    forall i :: 0 <= i < |calls| && calls[i].Submit? ==> calls[i].appendOk
  }

  lemma {:induction false} SuccessKeepsEntries(c: Config, calls: seq<Call>)
    requires AppendsSucceed(calls)
    ensures KeepsEntries(c, calls)
    decreases |calls|
  {
    if calls != [] {
      SuccessKeepsEntries(c, calls[..|calls| - 1]);
      assert calls[|calls| - 1].Submit? ==> calls[|calls| - 1].appendOk;
    }
  }

  // Runs that may lose entries

  /** What is left of exactness in every run: an entry is the last appended event of its key. */
  ghost predicate SeenSound(s: State) {
    forall key :: key in s.seen ==> LastWith(s.events, key) == Some(s.seen[key])
  }

  /** A submission that is appended although the last event with its key is within the window: its
      entry was lost before. */
  predicate RepeatsWithin(s: State, a: Action, now: int, appendOk: bool) {
    var key := ReplayKey(a.agentId, a.nonce);
    var last := LastWith(s.events, key);
    appendOk && key !in s.seen && last.Some? && !Expired(last.value.recordedAt, now)
  }

  predicate Repeats(c: Config, s: State, call: Call) {
    match call
    case Submit(Some(a), signature, now, lookup, _, appendOk) =>
      CheckAction(c, a, signature, now, lookup).Pass? && RepeatsWithin(s, a, now, appendOk)
    case _ => false
  }

  predicate NeverRepeats(c: Config, calls: seq<Call>) {
    calls == [] ||
    var before, last := calls[..|calls| - 1], calls[|calls| - 1];
    NeverRepeats(c, before) && !Repeats(c, Run(c, before), last)
  }

  lemma {:induction false} SpacedPrefix(events: seq<Event>, e: Event)
    requires Spaced(events + [e])
    ensures Spaced(events)
  {
    assert forall i :: 0 <= i < |events| ==> events[i] == (events + [e])[i];
  }

  /** Adding a rejection, or nothing, changes neither. */
  lemma {:induction false} SeenStays(s: State, s': State, e: Event)
    requires SeenSound(s) && e.Rejected? && s'.seen == s.seen && (s'.events == s.events || s'.events == s.events + [e])
    ensures SeenSound(s') && (Spaced(s'.events) <==> Spaced(s.events))
  {
    forall key | key in s.seen
      ensures LastWith(s'.events, key) == Some(s.seen[key])
    {
      LastWithPush(s.events, e, key);
    }
    if Spaced(s'.events) && s'.events != s.events {
      SpacedPrefix(s.events, e);
    }
  }

  /** The new event is the last of its key; the log stays spaced unless the last before it is near. */
  lemma {:induction false} SeenPushed(s: State, s': State, e: Event, key: string)
    requires SeenSound(s) && HasKey(e, key) && !Hit(s, key, e.recordedAt)
    requires s'.events == s.events + [e] && s'.seen == s.seen[key := e]
    ensures SeenSound(s')
    ensures var last := LastWith(s.events, key);
            var near := key !in s.seen && last.Some? && !Expired(last.value.recordedAt, e.recordedAt);
            Spaced(s'.events) <==> Spaced(s.events) && !near
  {
    forall k | k in s'.seen
      ensures LastWith(s'.events, k) == Some(s'.seen[k])
    {
      LastWithPush(s.events, e, k);
    }
    if Spaced(s'.events) {
      SpacedPrefix(s.events, e);
      if LastWith(s.events, key).Some? {
        LastWithIsLogged(s.events, key);
        var i :| 0 <= i < |s.events| && s.events[i] == LastWith(s.events, key).value;
        assert s'.events[i] == s.events[i] && s'.events[|s.events|] == e;
      }
    } else if Spaced(s.events) && (key in s.seen || LastWith(s.events, key).None?
                                   || Expired(LastWith(s.events, key).value.recordedAt, e.recordedAt)) {
      SpacedPush(s.events, e, key);
    }
  }

  /** A log stays spaced when the new event is far from the last of its key. */
  lemma {:induction false} SpacedPush(events: seq<Event>, e: Event, key: string)
    requires Spaced(events) && HasKey(e, key)
    requires LastWith(events, key).Some? ==> Expired(LastWith(events, key).value.recordedAt, e.recordedAt)
    ensures Spaced(events + [e])
  {
    forall i | 0 <= i < |events| && HasKey(events[i], key)
      ensures e.recordedAt - events[i].recordedAt > WINDOW_NANOS
    {
      LastIsLatest(events, key, i);
    }
  }

  lemma {:induction false} AcceptSpaced(c: Config, s: State, a: Action, canonical: Bytes, signature: Bytes,
                                        publicKey: Bytes, now: int, appendOk: bool)
    requires SeenSound(s)
    ensures var s' := Accept(c, s, a, canonical, signature, publicKey, now, appendOk).0;
            SeenSound(s') && (Spaced(s'.events) <==> Spaced(s.events) && !RepeatsWithin(s, a, now, appendOk))
  {
    var key := ReplayKey(a.agentId, a.nonce);
    var s' := Accept(c, s, a, canonical, signature, publicKey, now, appendOk).0;
    if !Hit(s, key, now) && appendOk {
      SeenPushed(s, s', AppendedEvent(c, s, a, canonical, signature, publicKey, now), key);
    }
  }

  /** From any reachable state, whatever was lost: a call breaks the spacing of the log if and only if
      it repeats an event within the window. */
  lemma {:induction false} StepSpaced(c: Config, s: State, call: Call)
    requires SeenSound(s)
    ensures SeenSound(Step(c, s, call))
    ensures Spaced(Step(c, s, call).events) <==> Spaced(s.events) && !Repeats(c, s, call)
  {
    var s' := Step(c, s, call);
    match call
    case Submit(None, _, _, _, _, _) =>
    case Submit(Some(a), signature, now, lookup, rejectedAt, appendOk) =>
      match CheckAction(c, a, signature, now, lookup) {
        case Refuse(reason) => SeenStays(s, s', RejectedEvent(s, a, reason, rejectedAt));
        case Abort =>
        case Pass(publicKey, canonical) => AcceptSpaced(c, s, a, canonical, signature, publicKey, now, appendOk);
      }
    case RecordRejection(agentId, actionType, target, reason, at) =>
      SeenStays(s, s', Rejected(|s.events|, None, agentId, actionType, target, reason, at));
    case _ =>
  }

  /** In every run whatsoever: cache entries are last events, and the log is spaced if and only if no
      call of the run repeated an event within the window. */
  lemma {:induction false} SpacedIff(c: Config, calls: seq<Call>)
    ensures SeenSound(Run(c, calls))
    ensures Spaced(Run(c, calls).events) <==> NeverRepeats(c, calls)
    decreases |calls|
  {
    if calls != [] {
      SpacedIff(c, calls[..|calls| - 1]);
      StepSpaced(c, Run(c, calls[..|calls| - 1]), calls[|calls| - 1]);
    }
  }

  lemma {:induction false} LastWithIsLogged(events: seq<Event>, key: string)
    requires LastWith(events, key).Some?
    ensures LastWith(events, key).value in events && HasKey(LastWith(events, key).value, key)
    decreases |events|
  {
    if !HasKey(events[|events| - 1], key) {
      LastWithIsLogged(events[..|events| - 1], key);
    }
  }

  /** No event after the last one with a key has it. */
  lemma {:induction false} LastWithIsLast(events: seq<Event>, key: string) returns (i: nat)
    requires LastWith(events, key).Some?
    ensures i < |events| && events[i] == LastWith(events, key).value && HasKey(events[i], key)
    ensures forall j :: i < j < |events| ==> !HasKey(events[j], key)
    decreases |events|
  {
    var n := |events| - 1;
    i := n;
    if !HasKey(events[n], key) {
      i := LastWithIsLast(events[..n], key);
      assert forall j :: i < j < n ==> events[j] == events[..n][j];
    }
  }

  /** Keys of validated nonces tell the agent from the nonce. */
  lemma {:induction false} ReplayKeyInjective(agentId: string, nonce: string, agentId': string, nonce': string)
    requires |nonce| == |nonce'| && ReplayKey(agentId, nonce) == ReplayKey(agentId', nonce')
    ensures agentId == agentId' && nonce == nonce'
  {
    var key, n := ReplayKey(agentId, nonce), |agentId|;
    assert |key| == n + 1 + |nonce| == |agentId'| + 1 + |nonce'|;
    assert agentId == key[..n] == agentId';
    assert nonce == key[n + 1..] == nonce';
  }

  /** Event i of a log, found among the appended events. */
  lemma {:induction false} AppendedCarriesLeaf(c: Config, s: State, i: nat)
    requires LogMatchesTree(c, s) && i < |s.events| && s.events[i].Appended?
    ensures var e := s.events[i]; Carries(c, e, e.leafIndex, e.leafHash)
    ensures |s.events[i].action.nonce| == NONCE_HEX_LEN
  {
    AppendedHas(s.events, i);
    var k :| 0 <= k < |AppendedOf(s.events)| && AppendedOf(s.events)[k] == s.events[i];
    assert Carries(c, AppendedOf(s.events)[k], k, s.leaves[k]);
    ValidateExact(s.events[i].action);
  }

  lemma {:induction false} AppendedHas(events: seq<Event>, i: nat)
    requires i < |events| && events[i].Appended?
    ensures events[i] in AppendedOf(events)
    decreases |events|
  {
    if i < |events| - 1 {
      AppendedHas(events[..|events| - 1], i);
    }
  }

  predicate SameRequest(a: Action, a': Action) {
    a.agentId == a'.agentId && a.nonce == a'.nonce
  }

  /** Two appended events with the same agent and nonce are recorded more than 630 seconds apart, the
      later in the log being the later in time. */
  ghost predicate ReplaySafeLog(events: seq<Event>) {
    forall i, j :: 0 <= i < j < |events| && events[i].Appended? && events[j].Appended?
                   && SameRequest(events[i].action, events[j].action)
      ==> events[j].recordedAt - events[i].recordedAt > 630 * 1_000_000_000
  }

  /** In a log of validated actions the joined keys say the same as agents and nonces. */
  lemma {:induction false} SpacedIsReplaySafe(c: Config, s: State)
    requires LogMatchesTree(c, s)
    ensures Spaced(s.events) <==> ReplaySafeLog(s.events)
  {
    if ReplaySafeLog(s.events) {
      forall i, j | 0 <= i < j < |s.events| && s.events[i].Appended? && s.events[j].Appended?
                    && ReplayKey(s.events[i].action.agentId, s.events[i].action.nonce)
                       == ReplayKey(s.events[j].action.agentId, s.events[j].action.nonce)
        ensures s.events[j].recordedAt - s.events[i].recordedAt > WINDOW_NANOS
      {
        AppendedCarriesLeaf(c, s, i);
        AppendedCarriesLeaf(c, s, j);
        var a, a' := s.events[i].action, s.events[j].action;
        ReplayKeyInjective(a.agentId, a.nonce, a'.agentId, a'.nonce);
        assert SameRequest(a, a');
      }
    }
  }

  /** Replay safety over whole runs, under any interleaving and with any clock.  It holds if and only
      if no call of the run appended an action while the last event of its agent and nonce was within
      the window; and it holds in every run that never evicts a stale entry and then fails to append. */
  lemma {:induction false} ReplaySafe(c: Config, calls: seq<Call>)
    ensures ReplaySafeLog(Run(c, calls).events) <==> NeverRepeats(c, calls)
    ensures KeepsEntries(c, calls) ==> NeverRepeats(c, calls)
  {
    LogAlwaysMatchesTree(c, calls);
    SpacedIsReplaySafe(c, Run(c, calls));
    SpacedIff(c, calls);
    CacheAlwaysExact(c, calls);
  }

  lemma {:induction false} Apart(c: Config, calls: seq<Call>, i: nat, j: nat)
    requires KeepsEntries(c, calls)
    requires var es := Run(c, calls).events;
             i < j < |es| && es[i].Appended? && es[j].Appended? && SameRequest(es[i].action, es[j].action)
    ensures var es := Run(c, calls).events; es[j].recordedAt - es[i].recordedAt > WINDOW_NANOS
  {
    ReplaySafe(c, calls);
  }

  /** The cache is exact if and only if every next call is safe.  If an entry is lost, a copy of the
      event it held passes all checks and is appended again, by a call whose clock was read when that
      event was recorded. */
  lemma {:induction false} ExactIffNextIsSafe(c: Config, calls: seq<Call>)
    requires NeverRepeats(c, calls)
    ensures var s := Run(c, calls);
            CacheExact(s) <==> forall call :: ReplaySafeLog(Step(c, s, call).events)
  {
    var s := Run(c, calls);
    LogAlwaysMatchesTree(c, calls);
    SpacedIff(c, calls);
    forall call
      ensures ReplaySafeLog(Step(c, s, call).events) <==> !Repeats(c, s, call)
    {
      StepKeepsLog(c, s, call);
      StepSpaced(c, s, call);
      SpacedIsReplaySafe(c, Step(c, s, call));
    }
    if CacheExact(s) {
      forall call
        ensures !Repeats(c, s, call)
      {
        ExactNeverRepeats(c, s, call);
      }
    } else {
      var key :| CacheEntry(s.seen, key) != LastWith(s.events, key);
      assert key !in s.seen;
      var call := LostEntryRepeats(c, s, key);
      assert !ReplaySafeLog(Step(c, s, call).events);
    }
  }

  lemma {:induction false} ExactNeverRepeats(c: Config, s: State, call: Call)
    requires CacheExact(s)
    ensures !Repeats(c, s, call)
  {
    if call.Submit? && call.request.Some? {
      var key := ReplayKey(call.request.value.agentId, call.request.value.nonce);
      assert CacheEntry(s.seen, key) == LastWith(s.events, key);
    }
  }

  /** The event of a lost entry, submitted again as it was. */
  lemma {:induction false} LostEntryRepeats(c: Config, s: State, key: string) returns (call: Call)
    requires LogMatchesTree(c, s) && key !in s.seen && LastWith(s.events, key).Some?
    ensures Repeats(c, s, call)
  {
    var i := LastWithIsLast(s.events, key);
    var e := s.events[i];
    AppendedCarriesLeaf(c, s, i);
    call := Submit(Some(e.action), e.signature, e.recordedAt, Found(e.publicKey), 0, true);
  }

  /** Once an append fails, all later ones fail: a tree that was closed. */
  predicate FailsForGood(calls: seq<Call>) {
    forall i, j :: 0 <= i < j < |calls| && calls[i].Submit? && calls[j].Submit? && calls[j].appendOk ==>
        calls[i].appendOk
  }

  /** A closed tree never appends again, so the entries lost to it do no harm: breaking replay safety
      takes a failed write or flush that later succeeds. */
  lemma {:induction false} ClosedTreeIsSafe(c: Config, calls: seq<Call>)
    requires FailsForGood(calls)
    ensures ReplaySafeLog(Run(c, calls).events)
  {
    ClosedTreeNeverRepeats(c, calls);
    ReplaySafe(c, calls);
  }

  lemma {:induction false} ClosedTreeNeverRepeats(c: Config, calls: seq<Call>)
    requires FailsForGood(calls)
    ensures NeverRepeats(c, calls)
    decreases |calls|
  {
    if calls != [] {
      var before, last := calls[..|calls| - 1], calls[|calls| - 1];
      if last.Submit? && last.appendOk {
        assert forall i :: 0 <= i < |before| && before[i].Submit? ==> calls[i].appendOk;
        SuccessKeepsEntries(c, calls);
        ReplaySafe(c, calls);
      } else {
        ClosedTreeNeverRepeats(c, before);
      }
    }
  }

  /** A submission answered from the cache, in any run whatsoever: nothing changes, and the answer is
      the last appended event of the same agent and nonce, recorded within the window. */
  lemma {:induction false} CachedReplyIsLast(c: Config, calls: seq<Call>, a: Action, signature: Bytes, now: int,
                                             lookup: Lookup, rejectedAt: int, appendOk: bool)
    ensures var s := Run(c, calls);
            var (s', reply) := SubmitStep(c, s, Some(a), signature, now, lookup, rejectedAt, appendOk);
            reply.Cached? ==>
              var e := reply.event;
              && s' == s
              && e.seqNo < |s.events| && s.events[e.seqNo] == e && e.Appended?
              && SameRequest(e.action, a) && now - e.recordedAt <= 630 * 1_000_000_000
              && (forall j :: e.seqNo < j < |s.events| && s.events[j].Appended? ==> !SameRequest(s.events[j].action, a))
  {
    var s, key, check := Run(c, calls), ReplayKey(a.agentId, a.nonce), CheckAction(c, a, signature, now, lookup);
    LogAlwaysMatchesTree(c, calls);
    SpacedIff(c, calls);
    PassIsChecked(c, a, signature, now, lookup);
    if check.Pass? && Hit(s, key, now) {
      var i := LastWithIsLast(s.events, key);
      var a' := s.events[i].action;
      AppendedCarriesLeaf(c, s, i);
      ValidateExact(a);
      ReplayKeyInjective(a'.agentId, a'.nonce, a.agentId, a.nonce);
    }
  }

  /** A run that breaks it.  A first action is appended; one with the same nonce, after the window,
      evicts the stale entry, but writing or flushing its leaf fails; the first action again, whose clock
      was read before it waited for the lock, is appended one nanosecond apart. */
  lemma {:induction false} FailedAppendBreaksReplay(c: Config, calls: seq<Call>, a: Action, a': Action,
                                                    signature: Bytes, signature': Bytes, publicKey: Bytes)
    requires Validate(a).None? && a.timestampMs == 0 && a' == a.(timestampMs := 630_000)
    requires Signed(c, Encode(a), signature, publicKey) && Signed(c, Encode(a'), signature', publicKey)
    requires |calls| == 3
    requires calls[0] == Submit(Some(a), signature, 0, Found(publicKey), 0, true)
    requires calls[1] == Submit(Some(a'), signature', WINDOW_NANOS + 1, Found(publicKey), 0, false)
    requires calls[2] == Submit(Some(a), signature, 1, Found(publicKey), 0, true)
    ensures var es := Run(c, calls).events;
            && |es| == 2 && es[0].Appended? && es[1].Appended? && es[0].action == es[1].action == a
            && es[1].recordedAt - es[0].recordedAt == 1
  {
    assert calls[..0] == [] && calls[..3] == calls;
    SubmissionsPass(a, a');
    AcceptAt(c, calls, 0, a, signature, 0, publicKey, true);
    AcceptAt(c, calls, 1, a', signature', WINDOW_NANOS + 1, publicKey, false);
    AcceptAt(c, calls, 2, a, signature, 1, publicKey, true);
    EvictionAdmits(c, a, a', Encode(a), Encode(a'), signature, signature', publicKey);
  }

  lemma {:induction false} SubmissionsPass(a: Action, a': Action)
    requires Validate(a).None? && a' == a.(timestampMs := 630_000)
    ensures Validate(a').None?
    ensures !SkewTooLarge(0, 0) && !SkewTooLarge(1, 0) && !SkewTooLarge(WINDOW_NANOS + 1, 630_000)
  {
    ValidateExact(a);
    ValidateExact(a');
  }

  lemma {:induction false} EvictionAdmits(c: Config, a: Action, a': Action, canonical: Bytes, canonical': Bytes,
                                          signature: Bytes, signature': Bytes, publicKey: Bytes)
    requires a'.agentId == a.agentId && a'.nonce == a.nonce
    ensures var s1 := Accept(c, INITIAL, a, canonical, signature, publicKey, 0, true).0;
            var s2 := Accept(c, s1, a', canonical', signature', publicKey, WINDOW_NANOS + 1, false).0;
            var es := Accept(c, s2, a, canonical, signature, publicKey, 1, true).0.events;
            && |es| == 2 && es[0].Appended? && es[1].Appended? && es[0].action == es[1].action == a
            && es[1].recordedAt - es[0].recordedAt == 1
  {
  }

  /** A submission that passes its checks takes the locked section. */
  lemma {:induction false} AcceptAt(c: Config, calls: seq<Call>, i: nat, a: Action, signature: Bytes, now: int,
                                    publicKey: Bytes, appendOk: bool)
    requires i < |calls| && calls[i] == Submit(Some(a), signature, now, Found(publicKey), 0, appendOk)
    requires Validate(a).None? && !SkewTooLarge(now, a.timestampMs) && Signed(c, Encode(a), signature, publicKey)
    ensures Run(c, calls[..i + 1]) == Accept(c, Run(c, calls[..i]), a, Encode(a), signature, publicKey, now, appendOk).0
  {
    assert calls[..i + 1][..i] == calls[..i];
  }

  // Timestamps

  /** The exact reach of the skew check: it accepts the documented skews, and those that 64-bit
      subtraction or negation folds onto them. */
  lemma {:induction false} SkewExact(now: int, timestampMs: int64)
    requires -TWO_63 <= Millis(now) < TWO_63
    ensures var d := Millis(now) - timestampMs;
            !SkewTooLarge(now, timestampMs) <==>
            -MAX_SKEW_MILLIS <= d <= MAX_SKEW_MILLIS || d == TWO_63 || d == -TWO_63
            || d >= TWO_64 - MAX_SKEW_MILLIS || d <= MAX_SKEW_MILLIS - TWO_64
  {
  }

  /** The difference of clock and timestamp fits a signed 64-bit integer with its negation. */
  predicate Fits(now: int, timestampMs: int64) {
    -TWO_63 < Millis(now) - timestampMs < TWO_63
  }

  /** How often 64-bit arithmetic folds the difference of clock and timestamp before it accepts it. */
  function Folds(now: int, timestampMs: int64): int {
    (Millis(now) - timestampMs + MAX_SKEW_MILLIS) / TWO_63
  }

  /** An accepted difference is that many times 2^63, up to the skew; at odd multiples it is exact. */
  lemma {:induction false} FoldsExact(now: int, timestampMs: int64)
    requires !SkewTooLarge(now, timestampMs)
    ensures var f := Folds(now, timestampMs);
            var rest := Millis(now) - timestampMs - f * TWO_63;
            -MAX_SKEW_MILLIS <= rest <= MAX_SKEW_MILLIS && (f % 2 != 0 ==> rest == 0)
    ensures Fits(now, timestampMs) ==> Folds(now, timestampMs) == 0
  {
    var d, f := Millis(now) - timestampMs, Folds(now, timestampMs);
    var w := Wrap64(d);
    var q := (d + TWO_63) / TWO_64;
    assert d == w + q * TWO_64;
    if w == -TWO_63 {
      assert d + MAX_SKEW_MILLIS == (2 * q - 1) * TWO_63 + MAX_SKEW_MILLIS;
      assert f == 2 * q - 1;
    } else {
      assert d + MAX_SKEW_MILLIS == 2 * q * TWO_63 + (w + MAX_SKEW_MILLIS);
      assert f == 2 * q;
    }
  }

  /** The documented rule is what the check decides whenever the difference fits. */
  lemma {:induction false} SkewAsDocumented(now: int, timestampMs: int64)
    requires Fits(now, timestampMs)
    ensures SkewTooLarge(now, timestampMs) <==>
            Millis(now) - timestampMs > 30_000 || Millis(now) - timestampMs < -30_000
  {
  }

  /** It is not when the difference does not fit: at clock zero the smallest timestamp passes. */
  lemma {:induction false} SkewWraps()
    ensures !SkewTooLarge(0, -TWO_63) && !Fits(0, -TWO_63)
  {
  }

  /** Skew check and replay window together, for two appended actions with the same agent and nonce.
      Their timestamps are at least 570 seconds apart unless the later difference was folded more often
      than the earlier one; and then, for clock readings less than 2^62 ms apart, the later timestamp
      lies before the earlier.  Differences that fit are not folded. */
  lemma {:induction false} TimestampBound(c: Config, calls: seq<Call>, i: nat, j: nat)
    requires KeepsEntries(c, calls)
    requires var es := Run(c, calls).events;
             i < j < |es| && es[i].Appended? && es[j].Appended? && SameRequest(es[i].action, es[j].action)
    ensures var es := Run(c, calls).events;
            var e, e' := es[i], es[j];
            var gap := e'.action.timestampMs - e.action.timestampMs;
            var f, f' := Folds(e.recordedAt, e.action.timestampMs), Folds(e'.recordedAt, e'.action.timestampMs);
            && (f' <= f ==> gap >= 570_000)
            && (f' > f && Millis(e'.recordedAt) - Millis(e.recordedAt) < 0x4000_0000_0000_0000 ==> gap < 0)
            && (Fits(e.recordedAt, e.action.timestampMs) ==> f == 0)
            && (Fits(e'.recordedAt, e'.action.timestampMs) ==> f' == 0)
  {
    var s := Run(c, calls);
    Apart(c, calls, i, j);
    LogAlwaysMatchesTree(c, calls);
    AppendedCarriesLeaf(c, s, i);
    AppendedCarriesLeaf(c, s, j);
    FoldsExact(s.events[i].recordedAt, s.events[i].action.timestampMs);
    FoldsExact(s.events[j].recordedAt, s.events[j].action.timestampMs);
    MillisApart(s.events[i].recordedAt, s.events[j].recordedAt);
  }

  lemma {:induction false} MillisApart(early: int, late: int)
    requires late - early > WINDOW_NANOS
    ensures Millis(late) - Millis(early) >= 630_000
  {
  }

  /** No two leaves carry the same payload, so a signed action enters the tree at most once, within any
      2^63 - 30 000 ms of the clock (292 million years), whatever its timestamp. */
  lemma {:induction false} PayloadsNeverRepeat(c: Config, calls: seq<Call>, i: nat, j: nat)
    requires KeepsEntries(c, calls)
    requires var es := Run(c, calls).events; i < j < |es| && es[i].Appended? && es[j].Appended?
    ensures var es := Run(c, calls).events;
            Payload(es[i].action, es[i].signature) == Payload(es[j].action, es[j].signature) ==>
              Millis(es[j].recordedAt) - Millis(es[i].recordedAt) >= TWO_63 - MAX_SKEW_MILLIS
  {
    var s := Run(c, calls);
    var e, e' := s.events[i], s.events[j];
    LogAlwaysMatchesTree(c, calls);
    AppendedCarriesLeaf(c, s, i);
    AppendedCarriesLeaf(c, s, j);
    if Payload(e.action, e.signature) == Payload(e'.action, e'.signature) {
      PayloadRoundTrip(e.action, e.signature);
      PayloadRoundTrip(e'.action, e'.signature);
      Apart(c, calls, i, j);
      MillisApart(e.recordedAt, e'.recordedAt);
      AcceptedTwice(e.recordedAt, e'.recordedAt, e.action.timestampMs);
    }
  }

  /** One timestamp passes the skew check at two clock readings that far apart only if the difference is
      folded between them. */
  lemma {:induction false} AcceptedTwice(early: int, late: int, timestampMs: int64)
    requires !SkewTooLarge(early, timestampMs) && !SkewTooLarge(late, timestampMs)
    requires Millis(late) - Millis(early) >= 630_000
    ensures Millis(late) - Millis(early) >= TWO_63 - MAX_SKEW_MILLIS
  {
    FoldsExact(early, timestampMs);
    FoldsExact(late, timestampMs);
    var f, f' := Folds(early, timestampMs), Folds(late, timestampMs);
    if f' == f + 1 {
      assert f % 2 != 0 || f' % 2 != 0;
    }
  }

  /** The bound is reached: timestamp zero passes at 30 000 ms and again at 2^63 ms. */
  lemma {:induction false} AcceptedTwiceAtBound()
    ensures !SkewTooLarge(30_000 * NANOS_PER_MILLI, 0) && !SkewTooLarge(TWO_63 * NANOS_PER_MILLI, 0)
  {
  }

  // Replies and events of a submission

  /** A submission that fails a check is answered with the reason, and the next event records the action
      and the reason; nothing else changes.  A failed lookup changes nothing. */
  lemma {:induction false} RefusedSubmission(c: Config, s: State, a: Action, signature: Bytes, now: int, lookup: Lookup,
                                             rejectedAt: int, appendOk: bool)
    ensures var (s', reply) := SubmitStep(c, s, Some(a), signature, now, lookup, rejectedAt, appendOk);
            var check := CheckAction(c, a, signature, now, lookup);
            && (check.Refuse? ==>
                  var e := Rejected(|s.events|, Some(a), a.agentId, a.actionType, a.target, check.reason, rejectedAt);
                  && reply == Refusal(check.reason) && s'.events == s.events + [e]
                  && s'.leaves == s.leaves && s'.seen == s.seen && s'.nextId == s.nextId)
            && (check.Abort? ==> reply == Failed && s' == s)
            && (!check.Refuse? ==> !reply.Refusal?)
  {
  }

  /** No reply but a refusal or a failure without a valid signature: an event that is returned answers an
      action with a 64-byte Ed25519 signature on its canonical bytes by the agent's 32-byte key, and every
      other action that passes the earlier checks is refused as "invalid_signature". */
  lemma {:induction false} SignatureDecides(c: Config, s: State, a: Action, signature: Bytes, now: int, lookup: Lookup,
                                            rejectedAt: int, appendOk: bool)
    ensures var (s', reply) := SubmitStep(c, s, Some(a), signature, now, lookup, rejectedAt, appendOk);
            var recent := a.schemaVersion == 1 && Named(a) && HexNonce(a) && !SkewTooLarge(now, a.timestampMs);
            var signed := lookup.Found? && |lookup.publicKey| == 32 && |signature| == 64
                          && c.ed25519(lookup.publicKey, Encode(a), signature);
            && (reply.Fresh? || reply.Cached? ==> recent && signed)
            && (reply == Refusal("invalid_signature") <==> recent && lookup.Found? && !signed)
            && (s'.leaves != s.leaves ==> recent && signed)
  {
    CheckExact(c, a, signature, now, lookup);
    RefusedSubmission(c, s, a, signature, now, lookup, rejectedAt, appendOk);
  }

  /** Every appended event of every run is signed under the key it records, and its leaf is the hash of
      0x00, the canonical bytes and the signature. */
  lemma {:induction false} AppendedAreSigned(c: Config, calls: seq<Call>, i: nat)
    requires i < |Run(c, calls).events| && Run(c, calls).events[i].Appended?
    ensures var s := Run(c, calls); var e := s.events[i];
            && |e.publicKey| == 32 && |e.signature| == 64
            && c.ed25519(e.publicKey, Encode(e.action), e.signature)
            && e.action.schemaVersion == 1 && Named(e.action) && HexNonce(e.action)
            && e.leafIndex < |s.leaves|
            && s.leaves[e.leafIndex] == e.leafHash == c.h([0x00] + (Encode(e.action) + e.signature))
  {
    var s := Run(c, calls);
    LogAlwaysMatchesTree(c, calls);
    AppendedHas(s.events, i);
    var k :| 0 <= k < |AppendedOf(s.events)| && AppendedOf(s.events)[k] == s.events[i];
    assert Carries(c, AppendedOf(s.events)[k], k, s.leaves[k]);
    ValidateExact(s.events[i].action);
  }

  /** Event i is the last appended event of the agent and nonce of an action. */
  ghost predicate IsLastOf(events: seq<Event>, i: nat, a: Action) {
    && i < |events| && events[i].Appended? && SameRequest(events[i].action, a)
    && forall j :: i < j < |events| && events[j].Appended? ==> !SameRequest(events[j].action, a)
  }

  lemma {:induction false} LastWithAt(events: seq<Event>, key: string, i: nat)
    requires i < |events| && HasKey(events[i], key)
    requires forall j :: i < j < |events| ==> !HasKey(events[j], key)
    ensures LastWith(events, key) == Some(events[i])
    decreases |events|
  {
    if i < |events| - 1 {
      LastWithAt(events[..|events| - 1], key, i);
    }
  }

  /** In a log of validated actions the last event of a key is the last of the agent and nonce. */
  lemma {:induction false} LastOfKey(c: Config, s: State, a: Action, i: nat)
    requires LogMatchesTree(c, s) && |a.nonce| == NONCE_HEX_LEN && i < |s.events|
    ensures var key := ReplayKey(a.agentId, a.nonce);
            IsLastOf(s.events, i, a) <==>
            HasKey(s.events[i], key) && forall j :: i < j < |s.events| ==> !HasKey(s.events[j], key)
  {
    var key := ReplayKey(a.agentId, a.nonce);
    forall j | 0 <= j < |s.events| && s.events[j].Appended?
      ensures HasKey(s.events[j], key) <==> SameRequest(s.events[j].action, a)
    {
      var a' := s.events[j].action;
      AppendedCarriesLeaf(c, s, j);
      if HasKey(s.events[j], key) {
        ReplayKeyInjective(a'.agentId, a'.nonce, a.agentId, a.nonce);
      }
    }
  }

  /** The cache entry of an action's key is the last event of its agent and nonce. */
  lemma {:induction false} EntryIsLast(c: Config, s: State, a: Action)
    requires LogMatchesTree(c, s) && CacheExact(s) && |a.nonce| == NONCE_HEX_LEN
    ensures var entry := CacheEntry(s.seen, ReplayKey(a.agentId, a.nonce));
            && (forall i: nat :: IsLastOf(s.events, i, a) ==> entry == Some(s.events[i]))
            && (entry.Some? ==> exists i: nat :: IsLastOf(s.events, i, a))
  {
    var key := ReplayKey(a.agentId, a.nonce);
    assert CacheEntry(s.seen, key) == LastWith(s.events, key);
    forall i: nat | IsLastOf(s.events, i, a)
      ensures LastWith(s.events, key) == Some(s.events[i])
    {
      LastOfKey(c, s, a, i);
      LastWithAt(s.events, key, i);
    }
    if LastWith(s.events, key).Some? {
      var i := LastWithIsLast(s.events, key);
      LastOfKey(c, s, a, i);
      assert IsLastOf(s.events, i, a);
    }
  }

  /** A repeated submission, in a run that lost no cache entry: if it passes its checks and the last event
      of its agent and nonce is at most 630 seconds old, that event is the reply and nothing changes. */
  lemma {:induction false} RepeatIsCached(c: Config, calls: seq<Call>, i: nat, a: Action, signature: Bytes, now: int,
                                          lookup: Lookup, rejectedAt: int, appendOk: bool)
    requires KeepsEntries(c, calls) && CheckAction(c, a, signature, now, lookup).Pass?
    requires var es := Run(c, calls).events;
             IsLastOf(es, i, a) && now - es[i].recordedAt <= 630 * 1_000_000_000
    ensures var s := Run(c, calls);
            SubmitStep(c, s, Some(a), signature, now, lookup, rejectedAt, appendOk) == (s, Cached(s.events[i]))
  {
    LogAlwaysMatchesTree(c, calls);
    CacheAlwaysExact(c, calls);
    CheckExact(c, a, signature, now, lookup);
    EntryIsLast(c, Run(c, calls), a);
  }

  /** Any other submission that passes its checks: a new event with the action, the next numbers and the
      next leaf is logged and returned; or, if the append fails, log, tree and channels stay. */
  lemma {:induction false} NewIsAppended(c: Config, calls: seq<Call>, a: Action, signature: Bytes, now: int,
                                         lookup: Lookup, rejectedAt: int, appendOk: bool)
    requires KeepsEntries(c, calls) && CheckAction(c, a, signature, now, lookup).Pass?
    requires var es := Run(c, calls).events;
             forall i: nat :: IsLastOf(es, i, a) ==> now - es[i].recordedAt > 630 * 1_000_000_000
    ensures var s := Run(c, calls);
            var (s', reply) := SubmitStep(c, s, Some(a), signature, now, lookup, rejectedAt, appendOk);
            var leaf := c.h([0x00] + (Encode(a) + signature));
            var e := Appended(|s.events|, |s.leaves|, leaf, a, signature, lookup.publicKey, now);
            && (appendOk ==> reply == Fresh(e) && s'.events == s.events + [e] && s'.leaves == s.leaves + [leaf])
            && (!appendOk ==> reply == Failed && s'.events == s.events && s'.leaves == s.leaves && s'.subs == s.subs)
            && s'.nextId == s.nextId
  {
    LogAlwaysMatchesTree(c, calls);
    CacheAlwaysExact(c, calls);
    CheckExact(c, a, signature, now, lookup);
    EntryIsLast(c, Run(c, calls), a);
  }

  /** A denial detected elsewhere is the next event, with its four fields. */
  lemma {:induction false} RejectionRecorded(c: Config, s: State, agentId: string, actionType: string, target: string,
                                             reason: string, at: int)
    ensures var s' := Step(c, s, RecordRejection(agentId, actionType, target, reason, at));
            && s'.events == s.events + [Rejected(|s.events|, None, agentId, actionType, target, reason, at)]
            && s'.leaves == s.leaves && s'.seen == s.seen && s'.nextId == s.nextId
  {
  }

  // Channels

  /** A call that logs an event puts it on every channel with room, at the end, and on no other. */
  lemma {:induction false} ChannelsExact(c: Config, s: State, call: Call)
    requires Step(c, s, call).events != s.events
    ensures var s' := Step(c, s, call);
            && s'.subs.Keys == s.subs.Keys
            && forall id :: id in s.subs ==>
                 s'.subs[id] == s.subs[id] + if |s.subs[id]| < c.buffer then [s'.events[|s.events|]] else []
  {
    StepShape(c, s, call);
    assert Publishes(c, s, Step(c, s, call));
  }

  /** No channel ever holds more than its capacity. */
  lemma {:induction false} ChannelsBounded(c: Config, calls: seq<Call>)
    ensures forall id :: id in Run(c, calls).subs ==> |Run(c, calls).subs[id]| <= c.buffer
    decreases |calls|
  {
    if calls != [] {
      var before, last := Run(c, calls[..|calls| - 1]), calls[|calls| - 1];
      ChannelsBounded(c, calls[..|calls| - 1]);
      StepShape(c, before, last);
    }
  }
}
