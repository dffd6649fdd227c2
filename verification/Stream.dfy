/** The event stream: a server connection that subscribes, replays a backlog and tails the
    channel, and a dashboard client that resumes after the last sequence number it kept.

    One client and its current connection run beside arbitrary pipeline calls.  Every step is
    atomic; a connection may be cut at any point. */
module Stream {
  import opened Wrappers
  import opened Pipeline

  const MAX_EVENTS: nat := 500
  const FIRST_BACKOFF_MS: nat := 500
  const MAX_BACKOFF_MS: nat := 8000

  // The client

  /** `received` is every event the client kept so far; `kept` is its display window. */
  datatype Client = Client(lastSeq: int, received: seq<Event>, kept: seq<Event>)

  const NEW_CLIENT: Client := Client(-1, [], [])

  /** The sequence number to resume from. */
  function Since(client: Client): nat {
    if client.lastSeq >= 0 then client.lastSeq + 1 else 0
  }

  /** The display window after one more event: the oldest are dropped first. */
  function PushWindow(kept: seq<Event>, e: Event): seq<Event> {
    (if |kept| >= MAX_EVENTS then kept[|kept| - MAX_EVENTS + 1..] else kept) + [e]
  }

  function OnMessage(client: Client, e: Event): Client {
    if e.seqNo <= client.lastSeq then client
    else Client(e.seqNo, client.received + [e], PushWindow(client.kept, e))
  }

  // The connection

  /** The server side of a connection: its channel, whether the handler still runs, where the
      client resumed, the rest of the backlog once it was read, and the last number sent.
      `wire` is what was written and not yet delivered.  `backlogEnd` and `dropped` are history:
      the length of the log when the backlog was read, and the numbers published since then that
      the full channel lost. */
  datatype Conn = Conn(id: nat, alive: bool, since: nat, backlog: Option<seq<Event>>, lastSent: nat, lastSentSet: bool,
                       wire: seq<Event>, backlogEnd: nat, dropped: set<nat>)

  /** The last number sent, or the one before the first the client asked for. */
  function Sent(conn: Conn): int {
    if conn.lastSentSet then conn.lastSent else conn.since - 1
  }

  function Write(conn: Conn, e: Event): Conn {
    conn.(wire := conn.wire + [e], lastSent := e.seqNo, lastSentSet := true)
  }

  /** The handler takes an event off its channel: duplicates of the backlog are suppressed. */
  function Tail(conn: Conn, e: Event): Conn {
    if conn.lastSentSet && e.seqNo <= conn.lastSent then conn else Write(conn, e)
  }

  /** `overtaken` is history: the dropped numbers that a later event of the same connection
      passed on its way to the client. */
  datatype System = System(log: State, conn: Option<Conn>, client: Client, overtaken: set<nat>)

  const START: System := System(INITIAL, None, NEW_CLIENT, {})

  datatype Move =
    | PipelineCall(call: Call)   // any other call of the pipeline
    | Connect                    // the client opens a connection; the handler subscribes
    | ReadBacklog                // the handler reads the backlog
    | SendBacklog                // it writes one event of it
    | TailChannel                // it takes one event off its channel
    | StopHandler                // a write failed or the request ended; it unsubscribes
    | Deliver                    // the client handles one message
    | Cut                        // the client sees an error and closes the connection

  /** Calls that other parties make do not touch the channel of the current connection. */
  predicate Foreign(sys: System, call: Call) {
    (call.Cancel? || call.Receive?) ==> sys.conn.None? || call.id != sys.conn.value.id
  }

  predicate Enabled(sys: System, m: Move) {
    match m
    case PipelineCall(call) => Foreign(sys, call)
    case Connect => sys.conn.None?
    case ReadBacklog => sys.conn.Some? && sys.conn.value.alive && sys.conn.value.backlog.None?
    case SendBacklog => sys.conn.Some? && sys.conn.value.alive && sys.conn.value.backlog.Some?
        && sys.conn.value.backlog.value != []
    case TailChannel =>
      && sys.conn.Some? && sys.conn.value.alive && sys.conn.value.backlog == Some([])
      && sys.conn.value.id in sys.log.subs && sys.log.subs[sys.conn.value.id] != []
    case StopHandler => sys.conn.Some? && sys.conn.value.alive
    case Deliver => sys.conn.Some? && sys.conn.value.wire != []
    case Cut => sys.conn.Some?
  }

  /** The numbers published by a call that did not fit the channel of a connection. */
  function Lost(c: Config, conn: Conn, log: State, log': State): set<nat> {
    if conn.alive && conn.backlog.Some? && conn.id in log.subs && |log'.events| > |log.events|
        && |log.subs[conn.id]| >= c.buffer
    then {|log.events|} else {}
  }

  function AfterCall(c: Config, sys: System, log': State): System {
    match sys.conn
    case None => sys.(log := log')
    case Some(conn) => sys.(log := log', conn := Some(conn.(dropped := conn.dropped + Lost(c, conn, sys.log, log'))))
  }

  function AfterDeliver(sys: System): System
    requires Enabled(sys, Deliver)
  {
    var conn := sys.conn.value;
    var e := conn.wire[0];
    sys.(conn := Some(conn.(wire := conn.wire[1..])),
         client := OnMessage(sys.client, e),
         overtaken := sys.overtaken + set n | n in conn.dropped && sys.client.lastSeq < n < e.seqNo)
  }

  function Next(c: Config, sys: System, m: Move): System {
    if !Enabled(sys, m) then sys
    else
      match m
      case PipelineCall(call) => AfterCall(c, sys, Step(c, sys.log, call))
      case Connect =>
        sys.(log := Step(c, sys.log, Subscribe),
             conn := Some(Conn(sys.log.nextId, true, Since(sys.client), None, 0, false, [], 0, {})))
      case ReadBacklog =>
        var conn, events := sys.conn.value, sys.log.events;
        var backlog := if conn.since <= |events| then events[conn.since..] else [];
        sys.(conn := Some(conn.(backlog := Some(backlog), backlogEnd := |events|)))
      case SendBacklog =>
        var conn := sys.conn.value;
        sys.(conn := Some(Write(conn, conn.backlog.value[0]).(backlog := Some(conn.backlog.value[1..]))))
      case TailChannel =>
        var conn := sys.conn.value;
        sys.(log := Step(c, sys.log, Receive(conn.id)), conn := Some(Tail(conn, sys.log.subs[conn.id][0])))
      case StopHandler =>
        var conn := sys.conn.value;
        sys.(log := Step(c, sys.log, Cancel(conn.id)), conn := Some(conn.(alive := false)))
      case Deliver => AfterDeliver(sys)
      case Cut =>
        var conn := sys.conn.value;
        sys.(log := if conn.alive then Step(c, sys.log, Cancel(conn.id)) else sys.log, conn := None)
  }

  function RunStream(c: Config, moves: seq<Move>): System {
    if moves == [] then START else Next(c, RunStream(c, moves[..|moves| - 1]), moves[|moves| - 1])
  }

  // Invariants

  /** Positions are sequence numbers, and subscriber ids are not reused. */
  ghost predicate Numbered(log: State) {
    && (forall i :: 0 <= i < |log.events| ==> log.events[i].seqNo == i)
    && (forall id :: id in log.subs ==> id < log.nextId)
  }

  /** Events of the log, in order, with numbers above `low`. */
  ghost predicate Ascending(xs: seq<Event>, low: int, events: seq<Event>) {
    && (forall i :: 0 <= i < |xs| ==> low < xs[i].seqNo < |events| && events[xs[i].seqNo] == xs[i])
    && (forall i, j :: 0 <= i < j < |xs| ==> xs[i].seqNo < xs[j].seqNo)
  }

  predicate Has(xs: seq<Event>, n: nat) {
    exists i :: 0 <= i < |xs| && xs[i].seqNo == n
  }

  /** The client: its events ascend and agree with the log, end in the last number, and miss
      exactly the overtaken numbers. */
  ghost predicate ClientOk(client: Client, overtaken: set<nat>, events: seq<Event>) {
    && -1 <= client.lastSeq < |events|
    && Ascending(client.received, -1, events)
    && (if client.received == [] then client.lastSeq == -1
        else client.lastSeq == client.received[|client.received| - 1].seqNo)
    && (forall n: nat :: n <= client.lastSeq ==> (Has(client.received, n) <==> n !in overtaken))
    && (forall n :: n in overtaken ==> n <= client.lastSeq)
  }

  /** The connection: what is on the wire, still to be sent, on the channel or dropped covers the
      log beyond the client's last number. */
  ghost predicate ConnOk(conn: Conn, lastSeq: int, queue: seq<Event>, events: seq<Event>) {
    && conn.since <= |events|
    && conn.since - 1 <= lastSeq <= Sent(conn) < |events|
    && Ascending(conn.wire, lastSeq, events)
    && (forall i :: 0 <= i < |conn.wire| ==> conn.wire[i].seqNo <= Sent(conn))
    && (forall n: nat :: lastSeq < n <= Sent(conn) ==> Has(conn.wire, n) || n in conn.dropped)
    && (conn.backlog.None? ==> conn.wire == [] && !conn.lastSentSet && conn.dropped == {})
    && (conn.alive ==> Ascending(queue, conn.since - 1, events))
    && (conn.alive && conn.backlog.Some? ==> TailOk(conn, queue, events))
  }

  /** The handler has read its backlog: the backlog continues what was sent, and everything after
      it is on the channel or dropped. */
  ghost predicate TailOk(conn: Conn, queue: seq<Event>, events: seq<Event>)
    requires conn.backlog.Some?
  {
    && conn.backlogEnd <= |events|
    && conn.backlog.value == (if Sent(conn) + 1 <= conn.backlogEnd then events[Sent(conn) + 1..conn.backlogEnd] else [])
    && (forall n :: n in conn.dropped ==> n < |events|)
    && (forall n: nat :: conn.backlogEnd <= n < |events| && Sent(conn) < n ==> Has(queue, n) || n in conn.dropped)
  }

  function Queue(log: State, id: nat): seq<Event> {
    if id in log.subs then log.subs[id] else []
  }

  ghost predicate SystemOk(sys: System) {
    && Numbered(sys.log)
    && ClientOk(sys.client, sys.overtaken, sys.log.events)
    && (sys.conn.Some? ==>
          && sys.conn.value.id < sys.log.nextId
          && (sys.conn.value.alive ==> sys.conn.value.id in sys.log.subs)
          && ConnOk(sys.conn.value, sys.client.lastSeq, Queue(sys.log, sys.conn.value.id), sys.log.events))
  }

  // Preservation

  lemma {:induction false} HasPush(xs: seq<Event>, e: Event, n: nat)
    ensures Has(xs + [e], n) <==> Has(xs, n) || e.seqNo == n
  {
    if Has(xs, n) {
      var i :| 0 <= i < |xs| && xs[i].seqNo == n;
      assert (xs + [e])[i] == xs[i];
    }
    assert (xs + [e])[|xs|] == e;
  }

  lemma {:induction false} HasPop(xs: seq<Event>, n: nat)
    requires xs != []
    ensures Has(xs, n) <==> xs[0].seqNo == n || Has(xs[1..], n)
  {
    if Has(xs, n) && xs[0].seqNo != n {
      var i :| 0 <= i < |xs| && xs[i].seqNo == n;
      assert xs[1..][i - 1] == xs[i];
    }
    if Has(xs[1..], n) {
      var i :| 0 <= i < |xs[1..]| && xs[1..][i].seqNo == n;
      assert xs[i + 1] == xs[1..][i];
    }
  }

  /** Nothing in an ascending list lies below its head. */
  lemma {:induction false} HeadIsLeast(xs: seq<Event>, low: int, events: seq<Event>, n: nat)
    requires Ascending(xs, low, events) && xs != [] && Has(xs, n)
    ensures xs[0].seqNo <= n
  {
  }

  /** The client takes a number above its last one; what it passes over is overtaken. */
  lemma {:induction false} MessageOk(client: Client, overtaken: set<nat>, passed: set<nat>, events: seq<Event>,
                                     e: Event)
    requires ClientOk(client, overtaken, events)
    requires client.lastSeq < e.seqNo < |events| && events[e.seqNo] == e
    requires forall n: nat :: n in passed <==> client.lastSeq < n < e.seqNo
    ensures ClientOk(OnMessage(client, e), overtaken + passed, events)
  {
    forall n: nat | n <= e.seqNo
      ensures Has(client.received + [e], n) <==> n !in overtaken + passed
    {
      HasPush(client.received, e, n);
    }
  }

  /** Delivery: the client takes the least number on the wire; what it passes over was dropped. */
  lemma {:induction false} DeliverConnOk(conn: Conn, lastSeq: int, queue: seq<Event>, events: seq<Event>)
    requires ConnOk(conn, lastSeq, queue, events) && conn.wire != []
    ensures ConnOk(conn.(wire := conn.wire[1..]), conn.wire[0].seqNo, queue, events)
    ensures forall n: nat :: lastSeq < n < conn.wire[0].seqNo ==> n in conn.dropped
  {
    var e := conn.wire[0];
    forall n: nat | lastSeq < n <= Sent(conn)
      ensures n < e.seqNo ==> n in conn.dropped
      ensures n > e.seqNo ==> Has(conn.wire[1..], n) || n in conn.dropped
    {
      assert Has(conn.wire, n) || n in conn.dropped;
      HasPop(conn.wire, n);
      if Has(conn.wire, n) {
        HeadIsLeast(conn.wire, lastSeq, events, n);
      }
    }
    assert Ascending(conn.wire[1..], e.seqNo, events);
  }

  lemma {:induction false} DeliverOk(sys: System)
    requires SystemOk(sys) && Enabled(sys, Deliver)
    ensures SystemOk(AfterDeliver(sys))
  {
    var conn, e, events := sys.conn.value, sys.conn.value.wire[0], sys.log.events;
    var passed := set n | n in conn.dropped && sys.client.lastSeq < n < e.seqNo;
    DeliverConnOk(conn, sys.client.lastSeq, Queue(sys.log, conn.id), events);
    MessageOk(sys.client, sys.overtaken, passed, events, e);
  }

  /** What any foreign call does to a channel and to the log. */
  lemma {:induction false} CallShape(c: Config, log: State, call: Call, id: nat)
    requires Numbered(log)
    requires (call.Cancel? || call.Receive?) ==> call.id != id
    ensures var log' := Step(c, log, call);
            && Numbered(log') && log.nextId <= log'.nextId
            && (id < log.nextId && id in log.subs ==> id in log'.subs)
            && (Publishes(c, log, log') || log'.events == log.events)
            && (id < log.nextId && log'.events == log.events ==> Queue(log', id) == Queue(log, id))
  {
    StepShape(c, log, call);
    var log' := Step(c, log, call);
    if Publishes(c, log, log') {
      assert log'.nextId == log.nextId;
      assert log'.events == log.events + [log'.events[|log.events|]];
    }
  }

  lemma {:induction false} PublishClientOk(client: Client, overtaken: set<nat>, events: seq<Event>, e: Event)
    requires ClientOk(client, overtaken, events)
    ensures ClientOk(client, overtaken, events + [e])
  {
    assert forall i :: 0 <= i < |client.received| ==> (events + [e])[client.received[i].seqNo] == client.received[i];
  }

  /** A new event keeps the lists of the log, and may be added to them. */
  lemma {:induction false} AscendingPush(xs: seq<Event>, low: int, events: seq<Event>, e: Event)
    requires Ascending(xs, low, events) && e.seqNo == |events| && low < |events|
    ensures Ascending(xs, low, events + [e])
    ensures Ascending(xs + [e], low, events + [e])
  {
  }

  function Marked(conn: Conn, n: nat, full: bool): Conn {
    conn.(dropped := conn.dropped + if conn.alive && conn.backlog.Some? && full then {n} else {})
  }

  /** A publish: the event joins the channel, or the channel is full and its number is recorded as
      dropped. */
  lemma {:induction false} PublishConnOk(conn: Conn, lastSeq: int, queue: seq<Event>, events: seq<Event>, e: Event,
                                         full: bool)
    requires ConnOk(conn, lastSeq, queue, events) && e.seqNo == |events|
    ensures ConnOk(Marked(conn, |events|, full), lastSeq, if full then queue else queue + [e], events + [e])
  {
    var conn' := Marked(conn, |events|, full);
    AscendingPush(conn.wire, lastSeq, events, e);
    forall n: nat | lastSeq < n <= Sent(conn)
      ensures Has(conn'.wire, n) || n in conn'.dropped
    {
      assert Has(conn.wire, n) || n in conn.dropped;
    }
    if conn.alive {
      AscendingPush(queue, conn.since - 1, events, e);
      if conn.backlog.Some? {
        PublishTailOk(conn, queue, events, e, full);
      }
    }
  }

  lemma {:induction false} PublishTailOk(conn: Conn, queue: seq<Event>, events: seq<Event>, e: Event, full: bool)
    requires conn.alive && conn.backlog.Some? && Sent(conn) >= -1
    requires TailOk(conn, queue, events) && e.seqNo == |events|
    ensures TailOk(Marked(conn, |events|, full), if full then queue else queue + [e], events + [e])
  {
    forall n: nat | conn.backlogEnd <= n <= |events| && Sent(conn) < n
      ensures Has(if full then queue else queue + [e], n) || n in Marked(conn, |events|, full).dropped
    {
      HasPush(queue, e, n);
      assert n < |events| ==> Has(queue, n) || n in conn.dropped;
    }
    if Sent(conn) + 1 <= conn.backlogEnd {
      assert (events + [e])[Sent(conn) + 1..conn.backlogEnd] == events[Sent(conn) + 1..conn.backlogEnd];
    }
  }

  lemma {:induction false} CallOk(c: Config, sys: System, call: Call)
    requires SystemOk(sys) && Foreign(sys, call)
    ensures SystemOk(AfterCall(c, sys, Step(c, sys.log, call)))
  {
    var log, log' := sys.log, Step(c, sys.log, call);
    var id := if sys.conn.Some? then sys.conn.value.id else if call.Cancel? || call.Receive? then call.id + 1 else 0;
    CallShape(c, log, call, id);
    if Publishes(c, log, log') {
      var e := log'.events[|log.events|];
      assert log'.events == log.events + [e];
      PublishClientOk(sys.client, sys.overtaken, log.events, e);
      if sys.conn.Some? {
        var full := id in log.subs && |log.subs[id]| >= c.buffer;
        PublishConnOk(sys.conn.value, sys.client.lastSeq, Queue(log, id), log.events, e, full);
        if !sys.conn.value.alive {
          var queue := if full then Queue(log, id) else Queue(log, id) + [e];
          NoQueue(AfterCall(c, sys, log').conn.value, sys.client.lastSeq, queue, Queue(log', id), log'.events);
        }
      }
    } else if sys.conn.Some? {
      assert sys.conn.value.dropped + {} == sys.conn.value.dropped;
    }
  }

  /** A stopped connection does not depend on its channel. */
  lemma {:induction false} NoQueue(conn: Conn, lastSeq: int, queue: seq<Event>, queue': seq<Event>, events: seq<Event>)
    requires ConnOk(conn, lastSeq, queue, events) && !conn.alive
    ensures ConnOk(conn, lastSeq, queue', events)
  {
  }

  /** Writing the next event: everything between it and the last one sent must be covered. */
  lemma {:induction false} WriteOk(conn: Conn, lastSeq: int, events: seq<Event>, e: Event)
    requires conn.since - 1 <= lastSeq <= Sent(conn) < e.seqNo < |events| && events[e.seqNo] == e
    requires Ascending(conn.wire, lastSeq, events)
    requires forall i :: 0 <= i < |conn.wire| ==> conn.wire[i].seqNo <= Sent(conn)
    requires forall n: nat :: lastSeq < n <= Sent(conn) ==> Has(conn.wire, n) || n in conn.dropped
    requires forall n: nat :: Sent(conn) < n < e.seqNo ==> n in conn.dropped
    ensures var conn' := Write(conn, e);
            && Ascending(conn'.wire, lastSeq, events)
            && (forall i :: 0 <= i < |conn'.wire| ==> conn'.wire[i].seqNo <= Sent(conn'))
            && (forall n: nat :: lastSeq < n <= Sent(conn') ==> Has(conn'.wire, n) || n in conn'.dropped)
  {
    forall n: nat | lastSeq < n <= e.seqNo
      ensures Has(conn.wire + [e], n) || n in conn.dropped
    {
      HasPush(conn.wire, e, n);
    }
  }

  /** Writing the first event of the backlog. */
  lemma {:induction false} SendConnOk(conn: Conn, lastSeq: int, queue: seq<Event>, events: seq<Event>)
    requires ConnOk(conn, lastSeq, queue, events) && conn.alive && conn.backlog.Some? && conn.backlog.value != []
    requires forall i :: 0 <= i < |events| ==> events[i].seqNo == i
    ensures ConnOk(Write(conn, conn.backlog.value[0]).(backlog := Some(conn.backlog.value[1..])), lastSeq, queue,
                   events)
  {
    var e := conn.backlog.value[0];
    assert e == events[Sent(conn) + 1] && e.seqNo == Sent(conn) + 1;
    WriteOk(conn, lastSeq, events, e);
    if e.seqNo + 1 <= conn.backlogEnd {
      assert conn.backlog.value[1..] == events[e.seqNo + 1..conn.backlogEnd];
    }
  }

  lemma {:induction false} SendBacklogOk(c: Config, sys: System)
    requires SystemOk(sys) && Enabled(sys, SendBacklog)
    ensures SystemOk(Next(c, sys, SendBacklog))
  {
    SendConnOk(sys.conn.value, sys.client.lastSeq, Queue(sys.log, sys.conn.value.id), sys.log.events);
  }

  /** Taking the head of the channel. */
  lemma {:induction false} TailConnOk(conn: Conn, lastSeq: int, queue: seq<Event>, events: seq<Event>)
    requires ConnOk(conn, lastSeq, queue, events) && conn.alive && conn.backlog == Some([]) && queue != []
    ensures ConnOk(Tail(conn, queue[0]), lastSeq, queue[1..], events)
  {
    var e, sent := queue[0], Sent(conn);
    assert Ascending(queue[1..], conn.since - 1, events);
    assert sent + 1 >= conn.backlogEnd;
    if e.seqNo > sent {
      forall n: nat | sent < n < e.seqNo
        ensures n in conn.dropped
      {
        assert Has(queue, n) || n in conn.dropped;
        if Has(queue, n) {
          HeadIsLeast(queue, conn.since - 1, events, n);
        }
      }
      WriteOk(conn, lastSeq, events, e);
    }
    TailPopOk(conn, queue, events);
  }

  lemma {:induction false} TailPopOk(conn: Conn, queue: seq<Event>, events: seq<Event>)
    requires conn.backlog == Some([]) && queue != [] && conn.since <= queue[0].seqNo < |events|
    requires Sent(conn) + 1 >= conn.backlogEnd && TailOk(conn, queue, events)
    ensures TailOk(Tail(conn, queue[0]), queue[1..], events)
  {
    var conn' := Tail(conn, queue[0]);
    forall n: nat | conn.backlogEnd <= n < |events| && Sent(conn') < n
      ensures Has(queue[1..], n) || n in conn'.dropped
    {
      HasPop(queue, n);
      assert Has(queue, n) || n in conn.dropped;
    }
  }

  lemma {:induction false} TailChannelOk(c: Config, sys: System)
    requires SystemOk(sys) && Enabled(sys, TailChannel)
    ensures SystemOk(Next(c, sys, TailChannel))
  {
    var conn, queue := sys.conn.value, sys.log.subs[sys.conn.value.id];
    TailConnOk(conn, sys.client.lastSeq, queue, sys.log.events);
    assert Queue(Next(c, sys, TailChannel).log, conn.id) == queue[1..];
  }

  lemma {:induction false} OpenCloseOk(c: Config, sys: System, m: Move)
    requires SystemOk(sys) && Enabled(sys, m)
    requires m.Connect? || m.ReadBacklog? || m.StopHandler? || m.Cut?
    ensures SystemOk(Next(c, sys, m))
  {
    if m.ReadBacklog? {
      var conn, events := sys.conn.value, sys.log.events;
      assert Sent(conn) + 1 == conn.since;
      assert events[conn.since..] == events[conn.since..|events|];
    }
  }

  lemma {:induction false} NextOk(c: Config, sys: System, m: Move)
    requires SystemOk(sys)
    ensures SystemOk(Next(c, sys, m))
  {
    if Enabled(sys, m) {
      match m
      case PipelineCall(call) => CallOk(c, sys, call);
      case SendBacklog => SendBacklogOk(c, sys);
      case TailChannel => TailChannelOk(c, sys);
      case Deliver => DeliverOk(sys);
      case _ => OpenCloseOk(c, sys, m);
    }
  }

  lemma {:induction false} RunOk(c: Config, moves: seq<Move>)
    ensures SystemOk(RunStream(c, moves))
    decreases |moves|
  {
    if moves != [] {
      RunOk(c, moves[..|moves| - 1]);
      NextOk(c, RunStream(c, moves[..|moves| - 1]), moves[|moves| - 1]);
    }
  }

  // Results

  /** Over every interleaving of calls, cuts and reconnects: what the client received is strictly
      increasing and agrees with the log, and up to the client's last number it misses exactly the
      numbers that a full channel dropped and a later event of the same connection overtook. */
  lemma {:induction false} ReceivedExactly(c: Config, moves: seq<Move>)
    ensures var sys := RunStream(c, moves); var got, events := sys.client.received, sys.log.events;
            && (forall i, j :: 0 <= i < j < |got| ==> got[i].seqNo < got[j].seqNo)
            && (forall i :: 0 <= i < |got| ==> got[i].seqNo < |events| && events[got[i].seqNo] == got[i])
            && (forall n: nat :: n <= sys.client.lastSeq ==> (Has(got, n) <==> n !in sys.overtaken))
  {
    RunOk(c, moves);
  }

  /** Exactly once: the client holds the log prefix up to its last number if and only if no dropped
      event was overtaken. */
  lemma {:induction false} ExactPrefixIff(c: Config, moves: seq<Move>)
    ensures var sys := RunStream(c, moves);
            && -1 <= sys.client.lastSeq < |sys.log.events|
            && (sys.client.received == sys.log.events[..sys.client.lastSeq + 1] <==> sys.overtaken == {})
  {
    RunOk(c, moves);
    var sys := RunStream(c, moves);
    var got, events, last := sys.client.received, sys.log.events, sys.client.lastSeq;
    if sys.overtaken == {} {
      forall n: nat | n <= last
        ensures n < |got| && got[n].seqNo == n
      {
        NoGap(got, events, last, n);
      }
      if got != [] {
        NumberAtLeastPlace(got, events, |got| - 1);
      }
      assert |got| == last + 1;
      assert got == events[..last + 1];
    }
    if got == events[..last + 1] {
      forall n: nat | n <= last
        ensures n !in sys.overtaken
      {
        assert got[n].seqNo == n;
        assert Has(got, n);
      }
    }
  }

  lemma {:induction false} NumberAtLeastPlace(got: seq<Event>, events: seq<Event>, i: nat)
    requires Ascending(got, -1, events) && i < |got|
    ensures got[i].seqNo >= i
  {
    if i > 0 {
      NumberAtLeastPlace(got, events, i - 1);
      assert got[i - 1].seqNo < got[i].seqNo;
    }
  }

  /** An ascending list of the log that has every number up to `last` has number n at place n. */
  lemma {:induction false} NoGap(got: seq<Event>, events: seq<Event>, last: int, n: nat)
    requires Ascending(got, -1, events) && n <= last
    requires forall k: nat :: k <= last ==> Has(got, k)
    ensures n < |got| && got[n].seqNo == n
  {
    assert Has(got, n);
    var i :| 0 <= i < |got| && got[i].seqNo == n;
    NumberAtLeastPlace(got, events, i);
    if n > 0 {
      NoGap(got, events, last, n - 1);
    }
    assert i == n;
  }

  /** A drop is recorded exactly when an event is logged and the connection's channel does not get it. */
  lemma {:induction false} LostExact(c: Config, log: State, call: Call, conn: Conn)
    requires conn.alive && conn.backlog.Some? && conn.id in log.subs
    ensures var log' := Step(c, log, call);
            Lost(c, conn, log, log') ==
            if log'.events != log.events && conn.id in log'.subs && log'.subs[conn.id] == log.subs[conn.id]
            then {|log.events|} else {}
  {
    StepShape(c, log, call);
  }

  /** The end of a connection: a handler that stops, and a client that cuts, unregister the subscriber.
      What was written is still delivered after a stop, and lost by a cut; log and client stay. */
  lemma {:induction false} EndsExact(c: Config, sys: System)
    requires sys.conn.Some? && sys.conn.value.alive
    ensures var conn, stopped, cut := sys.conn.value, Next(c, sys, StopHandler), Next(c, sys, Cut);
            && stopped.log == sys.log.(subs := sys.log.subs - {conn.id}) == cut.log
            && stopped.conn == Some(conn.(alive := false)) && cut.conn == None
            && stopped.client == sys.client == cut.client
            && stopped.overtaken == sys.overtaken == cut.overtaken
  {
  }

  /** One round of a live tail with an event waiting: it leaves the channel, and is written exactly if its
      number is beyond the last one sent. */
  lemma {:induction false} TailExact(c: Config, sys: System)
    requires sys.conn.Some? && sys.conn.value.alive && sys.conn.value.backlog == Some([])
    requires sys.conn.value.id in sys.log.subs && sys.log.subs[sys.conn.value.id] != []
    ensures var conn, s := sys.conn.value, Next(c, sys, TailChannel);
            var queue := sys.log.subs[conn.id];
            var e := queue[0];
            var fresh' := !conn.lastSentSet || conn.lastSent < e.seqNo;
            && s.log == sys.log.(subs := sys.log.subs[conn.id := queue[1..]])
            && s.conn.Some? && s.conn.value.wire == conn.wire + (if fresh' then [e] else [])
            && (fresh' ==> s.conn.value.lastSentSet && s.conn.value.lastSent == e.seqNo)
            && (!fresh' ==> s.conn == sys.conn)
            && s.client == sys.client
  {
  }

  /** Runs in which no channel loses an event after its connection read the backlog. */
  predicate NeverDrops(c: Config, moves: seq<Move>) {
    moves == [] ||
    var before := RunStream(c, moves[..|moves| - 1]);
    var m := moves[|moves| - 1];
    && NeverDrops(c, moves[..|moves| - 1])
    && (m.PipelineCall? && before.conn.Some? ==>
        Lost(c, before.conn.value, before.log, Step(c, before.log, m.call)) == {})
  }

  lemma {:induction false} NothingDropped(c: Config, moves: seq<Move>)
    requires NeverDrops(c, moves)
    ensures var sys := RunStream(c, moves); sys.overtaken == {} && (sys.conn.Some? ==> sys.conn.value.dropped == {})
    decreases |moves|
  {
    if moves != [] {
      NothingDropped(c, moves[..|moves| - 1]);
      NothingDroppedStep(c, RunStream(c, moves[..|moves| - 1]), moves[|moves| - 1]);
    }
  }

  lemma {:induction false} NothingDroppedStep(c: Config, sys: System, m: Move)
    requires sys.overtaken == {} && (sys.conn.Some? ==> sys.conn.value.dropped == {})
    requires m.PipelineCall? && sys.conn.Some? ==> Lost(c, sys.conn.value, sys.log, Step(c, sys.log, m.call)) == {}
    ensures var sys' := Next(c, sys, m); sys'.overtaken == {} && (sys'.conn.Some? ==> sys'.conn.value.dropped == {})
  {
  }

  /** Without drops the client holds exactly the log prefix, whatever is cut and reconnected. */
  lemma {:induction false} ExactlyOnce(c: Config, moves: seq<Move>)
    requires NeverDrops(c, moves)
    ensures var sys := RunStream(c, moves);
            -1 <= sys.client.lastSeq < |sys.log.events|
                && sys.client.received == sys.log.events[..sys.client.lastSeq + 1]
  {
    NothingDropped(c, moves);
    ExactPrefixIff(c, moves);
  }

  /** The last 500 events of a list, or all of them. */
  function LastWindow(xs: seq<Event>): seq<Event> {
    if |xs| <= 500 then xs else xs[|xs| - 500..]
  }

  /** The display shows the last 500 received events, or all of them. */
  lemma {:induction false} WindowIsLast500(c: Config, moves: seq<Move>)
    ensures var client := RunStream(c, moves).client; client.kept == LastWindow(client.received)
    decreases |moves|
  {
    if moves != [] {
      WindowIsLast500(c, moves[..|moves| - 1]);
      NextWindow(c, RunStream(c, moves[..|moves| - 1]), moves[|moves| - 1]);
    }
  }

  lemma {:induction false} NextWindow(c: Config, sys: System, m: Move)
    requires sys.client.kept == LastWindow(sys.client.received)
    ensures var client := Next(c, sys, m).client; client.kept == LastWindow(client.received)
  {
    if m.Deliver? && Enabled(sys, m) {
      WindowStep(sys.client.received, sys.conn.value.wire[0]);
    }
  }

  lemma {:induction false} WindowStep(received: seq<Event>, e: Event)
    ensures PushWindow(LastWindow(received), e) == LastWindow(received + [e])
  {
  }

  /** When a connection has nothing left to send or deliver, everything after the client's last
      number was dropped by its channel; without drops the client has the whole log. */
  lemma {:induction false} CaughtUp(c: Config, moves: seq<Move>)
    requires var sys := RunStream(c, moves);
             && sys.conn.Some? && sys.conn.value.alive && sys.conn.value.wire == []
                 && sys.conn.value.backlog == Some([])
             && Queue(sys.log, sys.conn.value.id) == []
    ensures var sys := RunStream(c, moves);
            && (forall n: nat :: sys.client.lastSeq < n < |sys.log.events| ==> n in sys.conn.value.dropped)
            && (NeverDrops(c, moves) ==> sys.client.received == sys.log.events)
  {
    var sys := RunStream(c, moves);
    RunOk(c, moves);
    forall n: nat | sys.client.lastSeq < n < |sys.log.events|
      ensures n in sys.conn.value.dropped
    {
      if n <= Sent(sys.conn.value) {
        assert Has(sys.conn.value.wire, n) || n in sys.conn.value.dropped;
      } else {
        assert Has([], n) || n in sys.conn.value.dropped;
      }
    }
    var last := |sys.log.events| - 1;
    assert last in sys.conn.value.dropped || sys.client.lastSeq >= last;
    if NeverDrops(c, moves) {
      NothingDropped(c, moves);
      ExactlyOnce(c, moves);
      assert sys.log.events[..last + 1] == sys.log.events;
    }
  }

  lemma {:induction false} OvertakenGrows(c: Config, moves: seq<Move>, more: seq<Move>)
    ensures RunStream(c, moves).overtaken <= RunStream(c, moves + more).overtaken
    decreases |more|
  {
    if more == [] {
      assert moves + more == moves;
    } else {
      var init := more[..|more| - 1];
      OvertakenGrows(c, moves, init);
      assert (moves + more)[..|moves + more| - 1] == moves + init;
    }
  }

  /** A number overtaken once is never received, whatever reconnects follow: the client resumes
      after its last number, which lies beyond the gap. */
  lemma {:induction false} OvertakenNeverReceived(c: Config, moves: seq<Move>, more: seq<Move>, n: nat)
    requires n in RunStream(c, moves).overtaken
    ensures !Has(RunStream(c, moves + more).client.received, n)
  {
    OvertakenGrows(c, moves, more);
    RunOk(c, moves + more);
  }

  /** The gap is real: on a channel with room for one event, the second of two events published in
      a row is dropped, and the third overtakes it. */
  lemma {:induction false} SlowClientLosesAnEvent(c: Config, moves: seq<Move>)
    requires c.buffer == 1 && SlowMoves(moves)
    ensures var sys := RunStream(c, moves); sys.client.lastSeq == 2 && !Has(sys.client.received, 1)
  {
    var s := seq(10, i requires 0 <= i < 10 => RunStream(c, moves[..i]));
    assert moves[..0] == [] && moves[..9] == moves;
    forall i | 0 <= i < 9
      ensures StepAt(c, moves, s, i)
    {
      RunPush(c, moves, i);
    }
    SlowPath(c, moves, s);
  }

  /** Connect, read the empty backlog, two publishes, a send, a publish, a send, two deliveries. */
  predicate SlowMoves(moves: seq<Move>) {
    var p := PipelineCall(RecordRejection("", "", "", "", 0));
    && |moves| == 9
    && moves[0] == Connect && moves[1] == ReadBacklog && moves[2] == moves[3] == p && moves[4] == TailChannel
    && moves[5] == p && moves[6] == TailChannel && moves[7] == moves[8] == Deliver
  }

  predicate StepAt(c: Config, moves: seq<Move>, s: seq<System>, i: nat)
    requires i < 9 && |moves| == 9 && |s| == 10
  {
    s[i + 1] == Next(c, s[i], moves[i])
  }

  /** The states of that run. */
  predicate SlowStates(c: Config, moves: seq<Move>, s: seq<System>) {
    && c.buffer == 1 && SlowMoves(moves)
    && |s| == 10 && s[0] == START
    && forall i {:trigger StepAt(c, moves, s, i)} :: 0 <= i < 9 ==> StepAt(c, moves, s, i)
  }

  lemma {:induction false} SlowPath(c: Config, moves: seq<Move>, s: seq<System>)
    requires SlowStates(c, moves, s)
    ensures s[9].client.lastSeq == 2 && !Has(s[9].client.received, 1)
  {
    var e0, e1, e2, idle := Denied(0), Denied(1), Denied(2), Idle(0);
    var sent := Write(idle.(dropped := {1}), e0);
    OpenAt(c, moves, s);
    PublishAt(c, moves, s, 2, [], [], idle);
    PublishAt(c, moves, s, 3, [e0], [e0], idle);
    assert {} + {1} == {1};
    TailAt(c, moves, s, 4, [e0, e1], e0, idle.(dropped := {1}));
    PublishAt(c, moves, s, 5, [e0, e1], [], sent);
    TailAt(c, moves, s, 6, [e0, e1, e2], e2, sent);
    DeliverAt(c, moves, s, [e0, e1, e2], Write(sent, e2), e0, e2);
  }

  lemma {:induction false} OpenAt(c: Config, moves: seq<Move>, s: seq<System>)
    requires SlowStates(c, moves, s)
    ensures s[2] == Alone([], [], Idle(0))
  {
    assert StepAt(c, moves, s, 0) && StepAt(c, moves, s, 1);
  }

  /** A denial logged beside one subscriber with a channel of one place. */
  lemma {:induction false} DenialStep(c: Config, log: State, events: seq<Event>, queue: seq<Event>)
    requires c.buffer == 1 && log == State([], map[], events, map[0 := queue], 1)
    ensures var e := Denied(|events|);
            Step(c, log, RecordRejection("", "", "", "", 0))
            == State([], map[], events + [e], map[0 := if queue == [] then [e] else queue], 1)
  {
    var e := Denied(|events|);
    assert [] + [e] == [e];
    assert Offer(map[0 := queue], e, 1) == map[0 := if queue == [] then [e] else queue];
  }

  lemma {:induction false} PublishAt(c: Config, moves: seq<Move>, s: seq<System>, i: nat, events: seq<Event>,
                                     queue: seq<Event>, conn: Conn)
    requires SlowStates(c, moves, s) && (i == 2 || i == 3 || i == 5)
    requires s[i] == Alone(events, queue, conn) && conn.id == 0 && conn.alive && conn.backlog.Some?
    ensures s[i + 1] == Alone(events + [Denied(|events|)], if queue == [] then [Denied(|events|)] else queue,
                              if queue == [] then conn else conn.(dropped := conn.dropped + {|events|}))
  {
    var log := s[i].log;
    assert StepAt(c, moves, s, i);
    assert moves[i] == PipelineCall(RecordRejection("", "", "", "", 0));
    DenialStep(c, log, events, queue);
    assert s[i + 1] == AfterCall(c, s[i], Step(c, log, moves[i].call));
    assert conn.dropped + {} == conn.dropped;
  }

  lemma {:induction false} TailAt(c: Config, moves: seq<Move>, s: seq<System>, i: nat, events: seq<Event>, e: Event,
                                  conn: Conn)
    requires SlowStates(c, moves, s) && (i == 4 || i == 6)
    requires s[i] == Alone(events, [e], conn) && conn.id == 0 && conn.alive && conn.backlog == Some([])
    requires conn.lastSentSet ==> conn.lastSent < e.seqNo
    ensures s[i + 1] == Alone(events, [], Write(conn, e))
  {
    assert StepAt(c, moves, s, i);
    assert map[0 := [e]][0 := []] == map[0 := []];
  }

  lemma {:induction false} DeliverAt(c: Config, moves: seq<Move>, s: seq<System>, events: seq<Event>, conn: Conn,
                                     e: Event, e': Event)
    requires SlowStates(c, moves, s)
    requires s[7] == Alone(events, [], conn) && conn.wire == [e, e'] && e.seqNo == 0 && e'.seqNo == 2
    ensures s[9].client.lastSeq == 2 && !Has(s[9].client.received, 1)
  {
    assert StepAt(c, moves, s, 7) && StepAt(c, moves, s, 8);
    assert s[8].conn.value.wire == [e'];
    assert s[9].client.received == [e, e'];
  }

  /** A connection that has read an empty backlog and sent nothing. */
  function Idle(id: nat): Conn {
    Conn(id, true, 0, Some([]), 0, false, [], 0, {})
  }

  function Denied(n: nat): Event {
    Rejected(n, None, "", "", "", "", 0)
  }

  /** A system with one subscriber and a client that has received nothing. */
  function Alone(events: seq<Event>, queue: seq<Event>, conn: Conn): System {
    System(State([], map[], events, map[0 := queue], 1), Some(conn), NEW_CLIENT, {})
  }

  lemma {:induction false} RunPush(c: Config, moves: seq<Move>, i: nat)
    requires i < |moves|
    ensures RunStream(c, moves[..i + 1]) == Next(c, RunStream(c, moves[..i]), moves[i])
  {
    assert moves[..i + 1][..i] == moves[..i];
  }
}
