/** The stream's two ends as objects: the handler of one connection and the dashboard client.
    Their methods take the steps of the stream model. */
module StreamObjects {
  import opened Wrappers
  import opened Pipeline
  import opened Stream
  import AuditPipeline

  /** Writing a list of events, one after another. */
  function WriteAll(conn: Conn, es: seq<Event>): Conn {
    if es == [] then conn else Write(WriteAll(conn, es[..|es| - 1]), es[|es| - 1])
  }

  class StreamHandler {
    const log: AuditPipeline.AuditLog
    const id: nat
    const since: nat
    var lastSent: nat
    var lastSentSet: bool
    var written: seq<Event>

    /** The handler subscribes before it reads anything. */
    constructor (log: AuditPipeline.AuditLog, since: nat)
      modifies log`subs, log`nextId
      ensures this.log == log && this.since == since && id == old(log.nextId)
      ensures log.View() == Step(log.c, old(log.View()), Subscribe)
      ensures View() == Conn(id, true, since, None, 0, false, [], 0, {})
    {
      var channel := log.Subscribe();
      this.log, this.id, this.since := log, channel, since;
      lastSent, lastSentSet, written := 0, false, [];
    }

    /** The connection this handler serves, with nothing delivered yet. */
    function View(): Conn
      reads this
    {
      Conn(id, true, since, None, lastSent, lastSentSet, written, 0, {})
    }

    /** Replay the backlog; `room` is how many writes succeed before the connection fails. */
    method Replay(room: nat) returns (ok: bool)
      modifies this`lastSent, this`lastSentSet, this`written
      ensures var backlog := if since <= |log.events| then log.events[since..] else [];
              && (ok <==> |backlog| <= room)
              && View() == WriteAll(old(View()), if ok then backlog else backlog[..room])
    {
      var backlog := log.AllEventsFrom(since);
      ghost var before := View();
      for i := 0 to |backlog|
        invariant i <= room && View() == WriteAll(before, backlog[..i])
      {
        if i == room {
          return false;
        }
        assert backlog[..i + 1][..i] == backlog[..i];
        written := written + [backlog[i]];
        lastSent := backlog[i].seqNo;
        lastSentSet := true;
      }
      assert backlog[..|backlog|] == backlog;
      return true;
    }

    /** One round of the tail loop: take an event off the channel, if there is one, and forward it unless
        the backlog had it.  The loop ends when the channel is closed. */
    method TailOne() returns (got: AuditPipeline.Received)
      modifies this`lastSent, this`lastSentSet, this`written, log`subs, log`drains
      ensures log.View() == Step(log.c, old(log.View()), Receive(id))
      ensures id in old(log.subs) ==>
                got == if old(log.subs)[id] != [] then AuditPipeline.Got(old(log.subs)[id][0])
                    else AuditPipeline.Waiting
      ensures id !in old(log.subs) && id !in old(log.drains) ==> got == AuditPipeline.Closed
      ensures View() == if got.Got? then Tail(old(View()), got.event) else old(View())
    {
      got := log.Receive(id);
      if !got.Got? {
        return;
      }
      if lastSentSet && got.event.seqNo <= lastSent {
        return;
      }
      written := written + [got.event];
      lastSent := got.event.seqNo;
      lastSentSet := true;
    }

    method Stop()
      modifies log`subs, log`drains
      ensures log.View() == Step(log.c, old(log.View()), Cancel(id))
    {
      log.Cancel(id);
    }
  }

  /** A whole replay is the backlog steps of the stream model, one per event. */
  lemma {:induction false} ReplayIsSteps(c: Config, sys: System, k: nat, moves: seq<Move>)
    requires sys.conn.Some? && sys.conn.value.alive && sys.conn.value.backlog.Some?
        && k <= |sys.conn.value.backlog.value|
    requires |moves| == k && forall i :: 0 <= i < k ==> moves[i] == SendBacklog
    ensures var conn := sys.conn.value;
            NextAll(c, sys, moves) ==
            sys.(conn := Some(WriteAll(conn, conn.backlog.value[..k]).(backlog := Some(conn.backlog.value[k..]))))
    decreases k
  {
    var conn := sys.conn.value;
    if k == 0 {
      assert conn.backlog.value[..0] == [] && conn.backlog.value[0..] == conn.backlog.value;
    } else {
      ReplayIsSteps(c, sys, k - 1, moves[..k - 1]);
      var before := WriteAll(conn, conn.backlog.value[..k - 1]);
      WriteAllKeeps(conn, conn.backlog.value[..k - 1], Some(conn.backlog.value[k - 1..]));
      assert conn.backlog.value[..k][..k - 1] == conn.backlog.value[..k - 1];
      assert conn.backlog.value[k - 1..][1..] == conn.backlog.value[k..];
    }
  }

  function NextAll(c: Config, sys: System, moves: seq<Move>): System {
    if moves == [] then sys else Next(c, NextAll(c, sys, moves[..|moves| - 1]), moves[|moves| - 1])
  }

  /** Writing changes only the wire and the last number sent. */
  lemma {:induction false} WriteAllKeeps(conn: Conn, es: seq<Event>, backlog: Option<seq<Event>>)
    ensures WriteAll(conn, es).alive == conn.alive
    ensures WriteAll(conn, es).(backlog := backlog) == WriteAll(conn.(backlog := backlog), es)
  {
    if es != [] {
      WriteAllKeeps(conn, es[..|es| - 1], backlog);
    }
  }

  /** The dashboard's hook.  After `Unmount` every callback returns at once. */
  class StreamClient {
    var lastSeq: int
    var events: seq<Event>
    var connected: bool
    var error: Option<string>
    var backoffMs: nat
    var cancelled: bool
    var open: bool
    ghost var received: seq<Event>

    constructor ()
      ensures View() == NEW_CLIENT && lastSeq == -1 && events == []
      ensures !connected && error == None && backoffMs == 500
      ensures !cancelled && !open
    {
      lastSeq, events, received := -1, [], [];
      connected, error, backoffMs := false, None, FIRST_BACKOFF_MS;
      cancelled, open := false, false;
    }

    ghost function View(): Client
      reads this
    {
      Client(lastSeq, received, events)
    }

    /** Open a connection, unless unmounted: where it resumes. */
    method Connect() returns (since: Option<nat>)
      modifies this`open
      ensures since == if cancelled then None else Some(Since(View()))
      ensures since == if cancelled then None else Some(if lastSeq >= 0 then lastSeq + 1 else 0)
      ensures open == (old(open) || !cancelled)
    {
      if cancelled {
        return None;
      }
      open := true;
      if lastSeq >= 0 {
        since := Some(lastSeq + 1);
      } else {
        since := Some(0);
      }
    }

    method Opened()
      modifies this`connected, this`error, this`backoffMs
      ensures !cancelled ==> connected && error == None && backoffMs == 500
      ensures cancelled ==> connected == old(connected) && error == old(error) && backoffMs == old(backoffMs)
    {
      if cancelled {
        return;
      }
      connected, error, backoffMs := true, None, FIRST_BACKOFF_MS;
    }

    /** Handle a message: its data is an event, or does not parse.  An event is kept unless its number
        was seen. */
    method Message(data: Result<Event, string>)
      modifies this`lastSeq, this`events, this`error, this`received
      ensures View() == if cancelled || data.Failure? then old(View()) else OnMessage(old(View()), data.value)
      ensures var new' := !cancelled && data.Success? && data.value.seqNo > old(lastSeq);
              && lastSeq == (if new' then data.value.seqNo else old(lastSeq))
              && (!new' ==> events == old(events))
              && (new' && |old(events)| < 500 ==> events == old(events) + [data.value])
              && (new' && |old(events)| == 500 ==> events == old(events)[1..] + [data.value])
      ensures error == if cancelled then old(error)
                       else if data.Failure? then Some("parse: " + data.error)
                       else if data.value.seqNo <= old(lastSeq) then old(error) else None
    {
      if cancelled {
        return;
      }
      if data.Failure? {
        error := Some("parse: " + data.error);
        return;
      }
      var e := data.value;
      if e.seqNo <= lastSeq {
        return;
      }
      lastSeq := e.seqNo;
      error := None;
      var next := if |events| >= MAX_EVENTS then events[|events| - MAX_EVENTS + 1..] else events;
      events := next + [e];
      received := received + [e];
    }

    /** The connection was lost: close it and reconnect after the wait, and wait twice as long next time,
        up to the limit. */
    method ConnectionLost() returns (wait: Option<nat>)
      modifies this`connected, this`error, this`backoffMs, this`open
      ensures cancelled ==> wait == None && connected == old(connected) && error == old(error)
      ensures cancelled ==> backoffMs == old(backoffMs) && open == old(open)
      ensures !cancelled ==> !connected && !open && error == Some("event stream connection lost")
      ensures !cancelled ==> wait == Some(old(backoffMs))
      ensures !cancelled ==> backoffMs == if old(backoffMs) * 2 <= 8000 then old(backoffMs) * 2 else 8000
    {
      if cancelled {
        return None;
      }
      connected, error, open := false, Some("event stream connection lost"), false;
      wait := Some(backoffMs);
      backoffMs := if backoffMs * 2 <= MAX_BACKOFF_MS then backoffMs * 2 else MAX_BACKOFF_MS;
    }

    method Unmount()
      modifies this`cancelled, this`open
      ensures cancelled && !open
    {
      cancelled, open := true, false;
    }
  }
}
