/** Progress of the stream: from any reachable state, one reconnect brings the client to the end of the
    log. */
module Resync {
  import opened Wrappers
  import opened Pipeline
  import opened Stream
  import opened StreamObjects

  lemma {:induction false} RunPush(c: Config, moves: seq<Move>, m: Move)
    ensures RunStream(c, moves + [m]) == Next(c, RunStream(c, moves), m)
  {
    assert (moves + [m])[..|moves|] == moves;
  }

  lemma {:induction false} NextAllPush(c: Config, sys: System, moves: seq<Move>, m: Move)
    ensures NextAll(c, sys, moves + [m]) == Next(c, NextAll(c, sys, moves), m)
  {
    assert (moves + [m])[..|moves|] == moves;
  }

  /** A run continued from the state it reached. */
  lemma {:induction false} RunOn(c: Config, moves: seq<Move>, more: seq<Move>)
    ensures RunStream(c, moves + more) == NextAll(c, RunStream(c, moves), more)
    decreases |more|
  {
    if more == [] {
      assert moves + more == moves;
    } else {
      var init, m := more[..|more| - 1], more[|more| - 1];
      RunOn(c, moves, init);
      RunPush(c, moves + init, m);
      NextAllPush(c, RunStream(c, moves), init, m);
      assert moves + init + [m] == moves + more && init + [m] == more;
    }
  }

  lemma {:induction false} NextAllOn(c: Config, sys: System, moves: seq<Move>, more: seq<Move>)
    ensures NextAll(c, sys, moves + more) == NextAll(c, NextAll(c, sys, moves), more)
    decreases |more|
  {
    if more == [] {
      assert moves + more == moves;
    } else {
      var init, m := more[..|more| - 1], more[|more| - 1];
      NextAllOn(c, sys, moves, init);
      NextAllPush(c, sys, moves + init, m);
      NextAllPush(c, NextAll(c, sys, moves), init, m);
      assert moves + init + [m] == moves + more && init + [m] == more;
    }
  }

  function Repeat(m: Move, k: nat): (moves: seq<Move>)
    ensures |moves| == k && forall i :: 0 <= i < k ==> moves[i] == m
  {
    seq(k, _ => m)
  }

  /** The client after some messages. */
  function Fed(client: Client, es: seq<Event>): Client {
    if es == [] then client else OnMessage(Fed(client, es[..|es| - 1]), es[|es| - 1])
  }

  /** Messages numbered without gaps from the client's next number on. */
  predicate WithoutGaps(client: Client, es: seq<Event>) {
    forall i :: 0 <= i < |es| ==> es[i].seqNo == client.lastSeq + 1 + i
  }

  /** They are all kept. */
  lemma {:induction false} FedAll(client: Client, es: seq<Event>)
    requires WithoutGaps(client, es)
    ensures Fed(client, es).lastSeq == client.lastSeq + |es|
    ensures Fed(client, es).received == client.received + es
  {
    if es == [] {
      assert client.received + es == client.received;
    } else {
      var init := es[..|es| - 1];
      FedAll(client, init);
      assert client.received + init + [es[|es| - 1]] == client.received + es;
    }
  }

  /** Delivering the first messages on the wire, when they are numbered without gaps. */
  lemma {:induction false} DeliverAll(c: Config, sys: System, k: nat)
    requires sys.conn.Some? && k <= |sys.conn.value.wire| && WithoutGaps(sys.client, sys.conn.value.wire)
    ensures var conn := sys.conn.value;
            NextAll(c, sys, Repeat(Deliver, k)) ==
            sys.(conn := Some(conn.(wire := conn.wire[k..])), client := Fed(sys.client, conn.wire[..k]))
  {
    var conn := sys.conn.value;
    if k == 0 {
      assert conn.wire[..0] == [] && conn.wire[0..] == conn.wire;
    } else {
      DeliverAll(c, sys, k - 1);
      var before := NextAll(c, sys, Repeat(Deliver, k - 1));
      assert Repeat(Deliver, k)[..k - 1] == Repeat(Deliver, k - 1);
      FedAll(sys.client, conn.wire[..k - 1]);
      assert conn.wire[k - 1..][0] == conn.wire[k - 1] && conn.wire[k - 1..][1..] == conn.wire[k..];
      assert conn.wire[..k][..k - 1] == conn.wire[..k - 1];
      var passed := set n | n in conn.dropped && before.client.lastSeq < n < conn.wire[k - 1].seqNo;
      assert passed == {};
      assert sys.overtaken + {} == sys.overtaken;
    }
  }

  lemma {:induction false} WriteAllWire(conn: Conn, es: seq<Event>)
    ensures WriteAll(conn, es).wire == conn.wire + es
    ensures WriteAll(conn, es).dropped == conn.dropped
  {
    if es == [] {
      assert conn.wire + es == conn.wire;
    } else {
      WriteAllWire(conn, es[..|es| - 1]);
      assert conn.wire + es[..|es| - 1] + [es[|es| - 1]] == conn.wire + es;
    }
  }

  /** A cut, a reconnect, the backlog of k events, and their delivery. */
  function ResyncMoves(k: nat): seq<Move> {
    [Cut, Connect, ReadBacklog] + Repeat(SendBacklog, k) + Repeat(Deliver, k)
  }

  /** The first three moves: a new connection holds the rest of the log as its backlog. */
  lemma {:induction false} Reconnected(c: Config, sys: System)
    requires SystemOk(sys)
    ensures var s := NextAll(c, sys, [Cut, Connect, ReadBacklog]);
            var since := sys.client.lastSeq + 1;
            && since <= |sys.log.events|
            && s.log.events == sys.log.events && s.client == sys.client && s.overtaken == sys.overtaken
            && s.conn.Some? && s.conn.value.alive && s.conn.value.wire == []
            && s.conn.value.backlog == Some(sys.log.events[since..])
  {
    var moves := [Cut, Connect, ReadBacklog];
    var s1 := Next(c, sys, Cut);
    var s2 := Next(c, s1, Connect);
    assert moves[..2] == [Cut, Connect] && moves[..2][..1] == [Cut] && moves[..1][..0] == [];
    assert NextAll(c, sys, [Cut]) == s1;
    assert NextAll(c, sys, [Cut, Connect]) == s2;
  }

  /** Progress: from every reachable state one reconnect, undisturbed, delivers the rest of the log, each
      event once and in order, and the client ends at the last event. */
  lemma {:induction false} ResyncCatchesUp(c: Config, moves: seq<Move>)
    ensures var sys := RunStream(c, moves);
            var k := |sys.log.events| - 1 - sys.client.lastSeq;
            && -1 <= sys.client.lastSeq < |sys.log.events|
            && var after := RunStream(c, moves + ResyncMoves(k));
               && after.log.events == sys.log.events && after.overtaken == sys.overtaken
               && after.client.lastSeq == |sys.log.events| - 1
               && after.client.received == sys.client.received + sys.log.events[sys.client.lastSeq + 1..]
  {
    var sys := RunStream(c, moves);
    var events := sys.log.events;
    var k := |events| - 1 - sys.client.lastSeq;
    RunOk(c, moves);
    var open := [Cut, Connect, ReadBacklog];
    RunOn(c, moves, ResyncMoves(k));
    NextAllOn(c, sys, open + Repeat(SendBacklog, k), Repeat(Deliver, k));
    NextAllOn(c, sys, open, Repeat(SendBacklog, k));
    Reconnected(c, sys);
    Delivered(c, NextAll(c, sys, open), k);
  }

  /** The client then holds the whole log if and only if nothing was overtaken before. */
  lemma {:induction false} ResyncIsComplete(c: Config, moves: seq<Move>)
    ensures var sys := RunStream(c, moves);
            && -1 <= sys.client.lastSeq < |sys.log.events|
            && var k := |sys.log.events| - 1 - sys.client.lastSeq;
               RunStream(c, moves + ResyncMoves(k)).client.received == sys.log.events <==> sys.overtaken == {}
  {
    var sys := RunStream(c, moves);
    var k := |sys.log.events| - 1 - sys.client.lastSeq;
    ResyncCatchesUp(c, moves);
    ExactPrefixIff(c, moves + ResyncMoves(k));
    assert sys.log.events[..|sys.log.events|] == sys.log.events;
  }

  /** The backlog is sent and delivered. */
  lemma {:induction false} Delivered(c: Config, s: System, k: nat)
    requires s.conn.Some? && s.conn.value.alive && s.conn.value.wire == []
    requires s.conn.value.backlog.Some? && |s.conn.value.backlog.value| == k
    requires WithoutGaps(s.client, s.conn.value.backlog.value)
    ensures var after := NextAll(c, NextAll(c, s, Repeat(SendBacklog, k)), Repeat(Deliver, k));
            && after.log == s.log && after.overtaken == s.overtaken
            && after.client.lastSeq == s.client.lastSeq + k
            && after.client.received == s.client.received + s.conn.value.backlog.value
  {
    var conn, backlog := s.conn.value, s.conn.value.backlog.value;
    ReplayIsSteps(c, s, k, Repeat(SendBacklog, k));
    assert backlog[..k] == backlog;
    WriteAllWire(conn, backlog);
    var sent := NextAll(c, s, Repeat(SendBacklog, k));
    assert sent.conn.value.wire == backlog;
    DeliverAll(c, sent, k);
    FedAll(s.client, backlog);
  }
}
