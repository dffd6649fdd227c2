/** Pipeline and tree together: what a root says about the actions behind it. */
module Audit {
  import opened Hashing
  import opened MerkleTreeHash
  import opened ActionSchema
  import opened Pipeline

  /** The leaf payloads of the appended events, in order. */
  function PayloadsOf(appended: seq<Event>): (log: seq<Bytes>)
    requires forall k :: 0 <= k < |appended| ==> appended[k].Appended?
    ensures |log| == |appended|
    ensures forall k :: 0 <= k < |log| ==> log[k] == Payload(appended[k].action, appended[k].signature)
  {
    seq(|appended|, k requires 0 <= k < |appended| => Payload(appended[k].action, appended[k].signature))
  }

  lemma {:induction false} AllAppended(events: seq<Event>)
    ensures forall k :: 0 <= k < |AppendedOf(events)| ==> AppendedOf(events)[k].Appended?
  {
    if events != [] {
      AllAppended(events[..|events| - 1]);
    }
  }

  /** The log of payloads behind a run. */
  ghost function History(c: Config, calls: seq<Call>): seq<Bytes> {
    AllAppended(Run(c, calls).events);
    PayloadsOf(AppendedOf(Run(c, calls).events))
  }

  /** The leaves of the tree are the leaf hashes of the payloads of the appended events. */
  lemma {:induction false} LeavesAreHashedPayloads(c: Config, calls: seq<Call>)
    ensures Run(c, calls).leaves == LeafHashes(c.h, History(c, calls))
  {
    var s := Run(c, calls);
    AllAppended(s.events);
    LogAlwaysMatchesTree(c, calls);
    forall k | 0 <= k < |s.leaves|
      ensures s.leaves[k] == LeafHashes(c.h, History(c, calls))[k]
    {
      assert Carries(c, AppendedOf(s.events)[k], k, s.leaves[k]);
    }
  }

  /** Two pipelines, run in any way, whose trees have the same root have appended the same signed
      actions in the same order, or a collision is computed from their histories. */
  lemma {:induction false} RootBindsActions(c: Config, calls: seq<Call>, c': Config, calls': seq<Call>)
    requires c'.h == c.h
    requires Root(c.h, Run(c, calls).leaves) == Root(c.h, Run(c', calls').leaves)
    ensures var es, es' := AppendedOf(Run(c, calls).events), AppendedOf(Run(c', calls').events);
            || Collides(c.h, LogCollision(c.h, History(c, calls), History(c', calls')))
            || (&& |es| == |es'|
                && forall k :: 0 <= k < |es| ==>
                     es[k].Appended? && es'[k].Appended? && es[k].action == es'[k].action
                         && es[k].signature == es'[k].signature)
  {
    var p, q := History(c, calls), History(c', calls');
    LeavesAreHashedPayloads(c, calls);
    LeavesAreHashedPayloads(c', calls');
    RootBindsLog(c.h, p, q);
    if p == q {
      var es, es' := AppendedOf(Run(c, calls).events), AppendedOf(Run(c', calls').events);
      forall k | 0 <= k < |es|
        ensures es[k].Appended? && es'[k].Appended? && es[k].action == es'[k].action
            && es[k].signature == es'[k].signature
      {
        AllAppended(Run(c, calls).events);
        AllAppended(Run(c', calls').events);
        SamePayload(c, calls, c', calls', k);
      }
    }
  }

  lemma {:induction false} SamePayload(c: Config, calls: seq<Call>, c': Config, calls': seq<Call>, k: nat)
    requires k < |AppendedOf(Run(c, calls).events)| && k < |AppendedOf(Run(c', calls').events)|
    requires |History(c, calls)| > k && |History(c', calls')| > k && History(c, calls)[k] == History(c', calls')[k]
    ensures var e, e' := AppendedOf(Run(c, calls).events)[k], AppendedOf(Run(c', calls').events)[k];
            e.Appended? && e'.Appended? && e.action == e'.action && e.signature == e'.signature
  {
    AllAppended(Run(c, calls).events);
    AllAppended(Run(c', calls').events);
    var e, e' := AppendedOf(Run(c, calls).events)[k], AppendedOf(Run(c', calls').events)[k];
    GenuineEvent(c, calls, k);
    GenuineEvent(c', calls', k);
    PayloadRoundTrip(e.action, e.signature);
    PayloadRoundTrip(e'.action, e'.signature);
  }

  lemma {:induction false} GenuineEvent(c: Config, calls: seq<Call>, k: nat)
    requires k < |AppendedOf(Run(c, calls).events)|
    ensures var e := AppendedOf(Run(c, calls).events)[k];
            e.Appended? && Validate(e.action).None? && |e.signature| == SIGNATURE_SIZE
  {
    var s := Run(c, calls);
    LogAlwaysMatchesTree(c, calls);
    assert Carries(c, AppendedOf(s.events)[k], k, s.leaves[k]);
  }
}
