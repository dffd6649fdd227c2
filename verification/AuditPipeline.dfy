/** The pipeline as an object: its methods take the atomic steps of the pipeline model. */
module AuditPipeline {
  import opened Hashing
  import opened Wrappers
  import opened ActionSchema
  import opened Pipeline
  import CanonicalJson
  import TreeStore

  /** What a receiver gets from its channel: an event, a wait, or the news that it was closed. */
  datatype Received = Got(event: Event) | Waiting | Closed

  class AuditLog {
    const c: Config
    const tree: TreeStore.Tree
    var seen: map<string, Event>
    var events: seq<Event>
    var subs: map<nat, seq<Event>>
    var nextId: nat

    /** What cancelled subscribers can still receive from their closed channels. */
    var drains: map<nat, seq<Event>>

    constructor (c: Config, tree: TreeStore.Tree)
      ensures this.c == c && this.tree == tree && View() == INITIAL.(leaves := tree.leaves) && drains == map[]
    {
      this.c, this.tree := c, tree;
      seen, events, subs, nextId, drains := map[], [], map[], 0, map[];
    }

    /** The state as a value of the model. */
    function View(): State
      reads this, tree
    {
      State(tree.leaves, seen, events, subs, nextId)
    }

    ghost predicate Valid()
      reads this, tree
    {
      tree.Valid() && tree.h == c.h
    }

    /** Offer the event to every channel in turn, in any order; a full channel drops it. */
    method Broadcast(e: Event)
      modifies this`subs
      ensures subs == Offer(old(subs), e, c.buffer)
      ensures subs.Keys == old(subs).Keys
      ensures forall id :: id in subs ==>
                subs[id] == old(subs)[id] + if |old(subs)[id]| < c.buffer then [e] else []
    {
      var waiting := subs.Keys;
      while waiting != {}
        invariant waiting <= old(subs).Keys == subs.Keys
        invariant forall id :: id in subs ==>
                    subs[id] == if id in waiting then old(subs)[id] else Offer(old(subs), e, c.buffer)[id]
        decreases waiting
      {
        var id :| id in waiting;
        if |subs[id]| < c.buffer {
          subs := subs[id := subs[id] + [e]];
        }
        waiting := waiting - {id};
      }
    }

    /** Append an event to the log and broadcast it. */
    method PublishEvent(e: Event)
      modifies this`events, this`subs
      ensures events == old(events) + [e] && subs == Offer(old(subs), e, c.buffer)
    {
      events := events + [e];
      Broadcast(e);
    }

    method RecordRejectionFromAction(a: Action, reason: string, at: int)
      modifies this`events, this`subs
      ensures View() == Publish(c, old(View()), RejectedEvent(old(View()), a, reason, at))
      ensures events == old(events)
                        + [Rejected(|old(events)|, Some(a), a.agentId, a.actionType, a.target, reason, at)]
    {
      PublishEvent(Rejected(|events|, Some(a), a.agentId, a.actionType, a.target, reason, at));
    }

    /** A denial detected elsewhere. */
    method RecordRejection(agentId: string, actionType: string, target: string, reason: string, at: int)
      modifies this`events, this`subs
      ensures View() == Step(c, old(View()), Call.RecordRejection(agentId, actionType, target, reason, at))
      ensures events == old(events) + [Rejected(|old(events)|, None, agentId, actionType, target, reason, at)]
    {
      PublishEvent(Rejected(|events|, None, agentId, actionType, target, reason, at));
    }

    /** Verify and append an action; `now` and `rejectedAt` are the two clock readings and
        `lookup` what the key store returned, and `fault` is what a file behind the tree does. */
    method Submit(request: Option<Action>, signature: Bytes, now: int, lookup: Lookup, rejectedAt: int,
                  fault: TreeStore.Fault)
      returns (reply: Reply)
      requires Valid()
      modifies this`seen, this`events, this`subs, tree`leaves, tree.file
      ensures Valid()
      ensures request == None ==> reply == Failed && View() == old(View())
      ensures (View(), reply) == SubmitStep(c, old(View()), request, signature, now, lookup, rejectedAt,
                                             old(tree.AppendError(fault)).None?)
    {
      if request == None {
        return Failed;
      }
      var a := request.value;
      var invalid := Validate(a);
      if invalid.Some? {
        RecordRejectionFromAction(a, RefusalReason(invalid.value), rejectedAt);
        return Refusal(RefusalReason(invalid.value));
      }
      if SkewTooLarge(now, a.timestampMs) {
        RecordRejectionFromAction(a, "timestamp_skew", rejectedAt);
        return Refusal("timestamp_skew");
      }
      if lookup == NotFound {
        RecordRejectionFromAction(a, "unknown_agent", rejectedAt);
        return Refusal("unknown_agent");
      }
      if lookup == LookupFailed {
        return Failed;
      }
      var encoded := CanonicalJson.CanonicalBytes(a);
      var canonical := encoded.value;
      if !Signed(c, canonical, signature, lookup.publicKey) {
        RecordRejectionFromAction(a, "invalid_signature", rejectedAt);
        return Refusal("invalid_signature");
      }
      reply := AppendLocked(a, canonical, signature, lookup.publicKey, now, fault);
    }

    /** The locked section of a submission. */
    method AppendLocked(a: Action, canonical: Bytes, signature: Bytes, publicKey: Bytes, now: int,
                        fault: TreeStore.Fault)
      returns (reply: Reply)
      requires Valid()
      modifies this`seen, this`events, this`subs, tree`leaves, tree.file
      ensures Valid()
      ensures (View(), reply) == Accept(c, old(View()), a, canonical, signature, publicKey, now,
                                        old(tree.AppendError(fault)).None?)
    {
      var key := ReplayKey(a.agentId, a.nonce);
      if key in seen {
        if !Expired(seen[key].recordedAt, now) {
          return Cached(seen[key]);
        }
        seen := seen - {key};
      }
      assert key !in old(seen) ==> old(seen) - {key} == old(seen);
      var payload := canonical + signature;
      var idx := tree.Append(payload, fault);
      if idx.Failure? {
        return Failed;
      }
      var e := Appended(|events|, idx.value, HashLeaf(c.h, payload), a, signature, publicKey, now);
      assert seen[key := e] == old(seen)[key := e];
      seen := seen[key := e];
      PublishEvent(e);
      return Fresh(e);
    }

    method Subscribe() returns (id: nat)
      modifies this`subs, this`nextId
      ensures View() == Step(c, old(View()), Call.Subscribe) && id == old(nextId)
      ensures subs == old(subs)[id := []] && nextId == id + 1
    {
      id := nextId;
      nextId := nextId + 1;
      subs := subs[id := []];
    }

    /** Unregister a subscriber and close its channel, which keeps what it holds.  Safe to call more than
        once: cancelling an unknown subscriber changes nothing. */
    method Cancel(id: nat)
      modifies this`subs, this`drains
      ensures View() == Step(c, old(View()), Call.Cancel(id)) && subs == old(subs) - {id}
      ensures drains == if id in old(subs) then old(drains)[id := old(subs)[id]] else old(drains)
      ensures id !in old(subs) ==> View() == old(View())
    {
      if id in subs {
        drains := drains[id := subs[id]];
        subs := subs - {id};
      }
      assert id !in old(subs) ==> old(subs) - {id} == old(subs);
    }

    /** Take the oldest event of a channel; an empty one makes the receiver wait, or tells it that the
        channel is closed. */
    method Receive(id: nat) returns (r: Received)
      modifies this`subs, this`drains
      ensures View() == Step(c, old(View()), Call.Receive(id))
      ensures id in old(subs) ==>
                && subs == old(subs)[id := if old(subs)[id] == [] then [] else old(subs)[id][1..]]
                && drains == old(drains) && r == if old(subs)[id] != [] then Got(old(subs)[id][0]) else Waiting
      ensures id !in old(subs) ==>
                && r == (if id in old(drains) && old(drains)[id] != [] then Got(old(drains)[id][0]) else Closed)
                && drains == if r.Got? then old(drains)[id := old(drains)[id][1..]] else old(drains)
    {
      if id in subs {
        if subs[id] == [] {
          return Waiting;
        }
        r := Got(subs[id][0]);
        subs := subs[id := subs[id][1..]];
      } else if id in drains && drains[id] != [] {
        r := Got(drains[id][0]);
        drains := drains[id := drains[id][1..]];
      } else {
        r := Closed;
      }
    }

    /** The appended events from a leaf index on, in append order. */
    method EventsFrom(since: nat) returns (out: seq<Event>)
      ensures out == EventsSince(events, since)
    {
      out := [];
      for i := 0 to |events|
        invariant out == EventsSince(events[..i], since)
      {
        assert events[..i + 1][..i] == events[..i];
        var e := events[i];
        if !e.Appended? {
          continue;
        }
        if e.leafIndex < since {
          continue;
        }
        out := out + [e];
      }
      assert events[..|events|] == events;
    }

    /** All events from a sequence number on, in record order. */
    method AllEventsFrom(since: nat) returns (out: seq<Event>)
      ensures out == if since <= |events| then events[since..] else []
    {
      if since >= |events| {
        return [];
      }
      out := [];
      for i := since to |events|
        invariant out == events[since..i]
      {
        out := out + [events[i]];
      }
    }
  }
}
