/**
  The outgoing messages of a session. `inFlight` are the asynchronous writes started and not completed,
  `delivered`, `lost` and `enqueued` the history. In the source a sender calls the locking writer while
  it holds the same mutex; what is modelled is the intended meaning, one atomic step per call and per
  completion.
*/
module WriteQueue {
  datatype Queue = Queue(queued: seq<string>, isWriting: bool, inFlight: seq<string>,
                         delivered: seq<string>, lost: seq<string>, enqueued: seq<string>)

  const EMPTY := Queue([], false, [], [], [], [])

  /** Starts the write of the first message, or stops writing. */
  function DoWrite(q: Queue): Queue {
    if q.queued == [] then q.(isWriting := false)
    else q.(queued := q.queued[1..], inFlight := q.inFlight + [q.queued[0]])
  }

  function Send(q: Queue, message: string): Queue {
    var pushed := q.(queued := q.queued + [message], enqueued := q.enqueued + [message]);
    if pushed.isWriting then pushed else DoWrite(pushed.(isWriting := true))
  }

  /** The completion of the oldest write in flight. After a failure nothing is written any more. */
  function Complete(q: Queue, ok: bool): Queue
    requires q.inFlight != []
  {
    var m, rest := q.inFlight[0], q.inFlight[1..];
    if !ok then q.(inFlight := rest, lost := q.lost + [m])
    else
      var done := q.(inFlight := rest, delivered := q.delivered + [m]);
      if done.queued != [] then DoWrite(done) else done.(isWriting := false)
  }

  datatype Event = Sent(message: string) | Completed(ok: bool)

  /** A completion needs a write in flight. */
  predicate Possible(q: Queue, e: Event) {
    e.Completed? ==> q.inFlight != []
  }

  function Next(q: Queue, e: Event): Queue
    requires Possible(q, e)
  {
    match e
    case Sent(m) => Send(q, m)
    case Completed(ok) => Complete(q, ok)
  }

  ghost predicate Inv(q: Queue) {
    && |q.inFlight| + |q.lost| <= 1
    && (q.isWriting <==> q.inFlight != [] || q.lost != [])
    && (!q.isWriting ==> q.queued == [])
    && q.enqueued == q.delivered + q.inFlight + q.lost + q.queued
  }

  lemma StepKeepsInv(q: Queue, e: Event)
    requires Inv(q) && Possible(q, e)
    ensures Inv(Next(q, e))
  {
    match e {
      case Sent(m) =>
        var pushed := q.queued + [m];
        assert q.enqueued + [m] == q.delivered + q.inFlight + q.lost + pushed;
        if !q.isWriting {
          assert pushed == [pushed[0]] + pushed[1..];
        }
      case Completed(ok) =>
        var m := q.inFlight[0];
        assert q.inFlight == [m] && q.lost == [];
        if ok && q.queued != [] {
          assert q.queued == [q.queued[0]] + q.queued[1..];
        }
    }
  }

  ghost predicate Run(qs: seq<Queue>, events: seq<Event>) {
    && |qs| == |events| + 1 && qs[0] == EMPTY
    && forall i :: 0 <= i < |events| ==> Possible(qs[i], events[i]) && qs[i + 1] == Next(qs[i], events[i])
  }

  lemma {:induction false} RunsKeepInv(qs: seq<Queue>, events: seq<Event>)
    requires Run(qs, events)
    ensures Inv(qs[|events|])
    decreases |events|
  {
    if events != [] {
      var n := |events| - 1;
      RunsKeepInv(qs[..n + 1], events[..n]);
      StepKeepsInv(qs[n], events[n]);
    }
  }

  // What happened, told by the events alone.

  /** The messages sent, in order. */
  function SentMessages(events: seq<Event>): seq<string> {
    if events == [] then []
    else
      var e := events[|events| - 1];
      SentMessages(events[..|events| - 1]) + if e.Sent? then [e.message] else []
  }

  /** How many writes completed with this result. */
  function Completions(events: seq<Event>, ok: bool): nat {
    if events == [] then 0
    else Completions(events[..|events| - 1], ok) + if events[|events| - 1] == Completed(ok) then 1 else 0
  }

  lemma StepHistory(q: Queue, e: Event)
    requires Possible(q, e)
    ensures var r := Next(q, e);
            && r.enqueued == q.enqueued + (if e.Sent? then [e.message] else [])
            && |r.delivered| == |q.delivered| + (if e == Completed(true) then 1 else 0)
            && |r.lost| == |q.lost| + (if e == Completed(false) then 1 else 0)
  {
  }

  lemma {:induction false} HistoryIsKept(qs: seq<Queue>, events: seq<Event>)
    requires Run(qs, events)
    ensures var q := qs[|events|];
            && q.enqueued == SentMessages(events)
            && |q.delivered| == Completions(events, true)
            && |q.lost| == Completions(events, false)
    decreases |events|
  {
    if events != [] {
      var n := |events| - 1;
      HistoryIsKept(qs[..n + 1], events[..n]);
      StepHistory(qs[n], events[n]);
      hide Next;
      assert qs[n + 1] == Next(qs[n], events[n]);
    }
  }

  /**
    Over every interleaving of sends and completions: nothing sent is dropped, doubled or reordered; at
    most one write is in flight, and the flag is up exactly while one is or after one has failed; what
    the peer has got is a prefix of what was sent, failure or not, one message per successful completion;
    and when no write is in flight and none has failed, it is everything that was sent.
  */
  lemma MessagesAreConserved(qs: seq<Queue>, events: seq<Event>)
    requires Run(qs, events)
    ensures var q := qs[|events|];
            && q.delivered + q.inFlight + q.lost + q.queued == SentMessages(events)
            && |q.inFlight| <= 1
            && (q.isWriting <==> q.inFlight != [] || Completions(events, false) > 0)
            && q.delivered <= SentMessages(events) && |q.delivered| == Completions(events, true)
            && (q.inFlight == [] && Completions(events, false) == 0 ==> q.delivered == SentMessages(events))
  {
    RunsKeepInv(qs, events);
    HistoryIsKept(qs, events);
    var q := qs[|events|];
    assert q.delivered + [] + [] + [] == q.delivered;
  }

  /** n successful completions in a row. */
  function CompleteAll(q: Queue, n: nat): Queue
    requires Inv(q) && q.lost == [] && n <= |q.inFlight| + |q.queued|
    ensures Inv(CompleteAll(q, n)) && CompleteAll(q, n).lost == [] && CompleteAll(q, n).enqueued == q.enqueued
    ensures |CompleteAll(q, n).inFlight| + |CompleteAll(q, n).queued| == |q.inFlight| + |q.queued| - n
    decreases n
  {
    if n == 0 then q
    else
      StepKeepsInv(q, Completed(true));
      CompleteAll(Complete(q, true), n - 1)
  }

  /** If the outstanding writes all succeed, the queue drains: everything sent is delivered and writing stops. */
  lemma QueueDrains(qs: seq<Queue>, events: seq<Event>)
    requires Run(qs, events) && Completions(events, false) == 0
    ensures var q := qs[|events|];
            && Inv(q) && q.lost == []
            && CompleteAll(q, |q.inFlight| + |q.queued|).delivered == SentMessages(events)
            && !CompleteAll(q, |q.inFlight| + |q.queued|).isWriting
  {
    RunsKeepInv(qs, events);
    HistoryIsKept(qs, events);
    var q := qs[|events|];
    var r := CompleteAll(q, |q.inFlight| + |q.queued|);
    assert r.delivered + r.inFlight + r.lost + r.queued == r.delivered;
  }

  /** A failed write stops the queue for good: later sends pile up and are never written. */
  lemma {:induction false} FailureIsFinal(q: Queue, messages: seq<string>)
    requires Inv(q) && q.lost != []
    ensures SendAll(q, messages) == q.(queued := q.queued + messages, enqueued := q.enqueued + messages)
  {
    if messages == [] {
      assert q.queued + messages == q.queued && q.enqueued + messages == q.enqueued;
    } else {
      var n := |messages| - 1;
      FailureIsFinal(q, messages[..n]);
      assert messages == messages[..n] + [messages[n]];
      assert q.queued + messages[..n] + [messages[n]] == q.queued + messages;
      assert q.enqueued + messages[..n] + [messages[n]] == q.enqueued + messages;
    }
  }

  function SendAll(q: Queue, messages: seq<string>): Queue {
    if messages == [] then q else Send(SendAll(q, messages[..|messages| - 1]), messages[|messages| - 1])
  }
}

/** The heartbeat of a session as a timed machine: reads, and a timer that re-arms itself. */
module Heartbeat {
  import opened Wrappers
  import opened Clock

  const HEARTBEAT_INTERVAL := 30

  predicate IsAlive(now: int, lastHeartbeat: int) {
    WholeSeconds(now - lastHeartbeat) < HEARTBEAT_INTERVAL * 3
  }

  /**
    `due` is when the timer fires, None once the session has timed out; `timedOut` is when that happened.
    `sent` counts the heartbeats since the last read, `ticks` all timer firings.
  */
  datatype Beat = Beat(last: int, due: Option<int>, now: int, sent: nat, ticks: nat, timedOut: Option<int>)

  datatype Event = Read(at: int) | Tick(at: int)

  /** Constructed, and then accepted, which arms the timer. */
  function Start(constructed: int, accepted: int): Beat {
    Beat(constructed, Some(accepted + Seconds(HEARTBEAT_INTERVAL)), accepted, 0, 0, None)
  }

  function Next(b: Beat, e: Event): Beat {
    match e
    case Read(at) => b.(last := at, now := at, sent := 0)
    case Tick(at) =>
      if IsAlive(at, b.last)
      then b.(due := Some(at + Seconds(HEARTBEAT_INTERVAL)), now := at, sent := b.sent + 1, ticks := b.ticks + 1)
      else b.(due := None, now := at, ticks := b.ticks + 1, timedOut := Some(at))
  }

  /** Time does not go back, and an armed timer fires when due, at most `late` afterwards. */
  predicate Timely(b: Beat, e: Event, late: nat) {
    && e.at >= b.now
    && (b.due.Some? ==> e.at <= b.due.value + late)
    && (e.Tick? ==> b.due.Some? && b.due.value <= e.at)
  }

  function After(start: Beat, events: seq<Event>): Beat {
    if events == [] then start else Next(After(start, events[..|events| - 1]), events[|events| - 1])
  }

  ghost predicate TimelyRun(start: Beat, events: seq<Event>, late: nat) {
    forall i :: 0 <= i < |events| ==> Timely(After(start, events[..i]), events[i], late)
  }

  /** The time of the last read, or the construction time: the reference for silence. */
  function LastHeard(constructed: int, events: seq<Event>): int {
    if events == [] then constructed
    else if events[|events| - 1].Read? then events[|events| - 1].at
    else LastHeard(constructed, events[..|events| - 1])
  }

  /** The heartbeats sent since the last read: a timer firing sends one unless it times the session out. */
  function TicksSinceRead(events: seq<Event>): nat {
    if events == [] || events[|events| - 1].Read? then 0 else TicksSinceRead(events[..|events| - 1]) + 1
  }

  lemma {:induction false} HeartbeatsAreSent(constructed: int, accepted: int, events: seq<Event>, late: nat)
    requires TimelyRun(Start(constructed, accepted), events, late)
    requires After(Start(constructed, accepted), events).timedOut == None
    ensures After(Start(constructed, accepted), events).sent == TicksSinceRead(events)
  {
    if events != [] {
      var n := |events| - 1;
      var prev := events[..n];
      forall i | 0 <= i < n ensures Timely(After(Start(constructed, accepted), prev[..i]), prev[i], late) {
        assert prev[..i] == events[..i];
      }
      HeartbeatsAreSent(constructed, accepted, prev, late);
    }
  }

  predicate SomethingRead(events: seq<Event>) {
    events != [] && (events[|events| - 1].Read? || SomethingRead(events[..|events| - 1]))
  }

  ghost predicate Inv(b: Beat, constructed: int, accepted: int, late: nat, heard: int, read: bool) {
    && b.last == heard && heard <= b.now && accepted <= b.now
    && (read ==> accepted <= heard)
    && (!read ==> heard == constructed)
    && (b.due.Some? <==> b.timedOut.None?)
    && (b.due.Some? ==>
          var armed := b.due.value - Seconds(HEARTBEAT_INTERVAL);
          && armed <= b.now <= b.due.value + late
          && (b.ticks == 0 ==> armed == accepted && b.sent == 0)
          && (b.ticks > 0 ==> armed < b.last + Seconds(90))
          && (b.sent > 0 ==> b.ticks > 0 && b.last + Seconds(30 * (b.sent - 1)) <= armed))
  }

  lemma StepKeepsInv(b: Beat, e: Event, constructed: int, accepted: int, late: nat, heard: int, read: bool)
    requires constructed <= accepted && Inv(b, constructed, accepted, late, heard, read) && Timely(b, e, late)
    ensures Inv(Next(b, e), constructed, accepted, late, if e.Read? then e.at else heard, read || e.Read?)
  {
    if e.Tick? {
      WholeSecondsExceed(e.at - b.last, 89);
    }
  }

  lemma {:induction false} RunsKeepInv(constructed: int, accepted: int, events: seq<Event>, late: nat)
    requires constructed <= accepted && TimelyRun(Start(constructed, accepted), events, late)
    ensures Inv(After(Start(constructed, accepted), events), constructed, accepted, late, LastHeard(constructed, events), SomethingRead(events))
  {
    if events != [] {
      var n := |events| - 1;
      var prev, start := events[..n], Start(constructed, accepted);
      forall i | 0 <= i < n ensures Timely(After(start, prev[..i]), prev[i], late) {
        assert prev[..i] == events[..i];
      }
      RunsKeepInv(constructed, accepted, prev, late);
      StepKeepsInv(After(start, prev), events[n], constructed, accepted, late, LastHeard(constructed, prev), SomethingRead(prev));
    }
  }

  /** A tick times the session out if and only if nothing was read in the 90 seconds before it. */
  lemma TimeoutIff(constructed: int, accepted: int, events: seq<Event>, at: int, late: nat)
    requires constructed <= accepted && TimelyRun(Start(constructed, accepted), events, late)
    requires Timely(After(Start(constructed, accepted), events), Tick(at), late)
    ensures (Next(After(Start(constructed, accepted), events), Tick(at)).timedOut == Some(at))
         == (at - LastHeard(constructed, events) >= Seconds(90))
  {
    RunsKeepInv(constructed, accepted, events, late);
    WholeSecondsExceed(at - LastHeard(constructed, events), 89);
  }

  /**
    The timer is armed when the handshake is done. So before the first tick and the first read, silence
    counts from the construction and is bounded only after a handshake of less than 90 seconds.
  */
  ghost predicate Settled(constructed: int, accepted: int, events: seq<Event>) {
    || After(Start(constructed, accepted), events).ticks > 0
    || SomethingRead(events)
    || accepted < constructed + Seconds(90)
  }

  /**
    The bound over all timed runs: a session that has not timed out has been silent for less than 120
    seconds and the timer's lateness, with at most 3 heartbeats since it was heard.
  */
  lemma SilenceIsBounded(constructed: int, accepted: int, events: seq<Event>, late: nat)
    requires constructed <= accepted && TimelyRun(Start(constructed, accepted), events, late)
    ensures var b := After(Start(constructed, accepted), events);
            b.timedOut == None ==>
              && b.sent == TicksSinceRead(events) <= 3
              && (Settled(constructed, accepted, events) ==> b.now < LastHeard(constructed, events) + Seconds(120) + late)
  {
    if After(Start(constructed, accepted), events).timedOut == None {
      HeartbeatsAreSent(constructed, accepted, events, late);
    }
    RunsKeepInv(constructed, accepted, events, late);
  }

  /** So the timeout of a silent session comes in [90 s, 120 s + late) after it was last heard. */
  lemma TimeoutIsPrompt(constructed: int, accepted: int, events: seq<Event>, at: int, late: nat)
    requires constructed <= accepted && TimelyRun(Start(constructed, accepted), events, late)
    requires Timely(After(Start(constructed, accepted), events), Tick(at), late)
    requires Next(After(Start(constructed, accepted), events), Tick(at)).timedOut == Some(at)
    requires Settled(constructed, accepted, events)
    ensures var heard := LastHeard(constructed, events);
            heard + Seconds(90) <= at < heard + Seconds(120) + late
    ensures After(Start(constructed, accepted), events).sent <= 3
  {
    RunsKeepInv(constructed, accepted, events, late);
    TimeoutIff(constructed, accepted, events, at, late);
  }

  /** The condition is needed: otherwise the timer may come, as late as it can, when the bound has passed. */
  lemma UnsettledTimeoutIsLate(constructed: int, accepted: int, events: seq<Event>, late: nat)
    requires constructed <= accepted && TimelyRun(Start(constructed, accepted), events, late)
    requires !Settled(constructed, accepted, events)
    ensures var b, at := After(Start(constructed, accepted), events), accepted + Seconds(HEARTBEAT_INTERVAL) + late;
            && Timely(b, Tick(at), late) && Next(b, Tick(at)).timedOut == Some(at)
            && at >= LastHeard(constructed, events) + Seconds(120) + late
  {
    var at := accepted + Seconds(HEARTBEAT_INTERVAL) + late;
    RunsKeepInv(constructed, accepted, events, late);
    NoTickKeepsTimer(constructed, accepted, events);
    WholeSecondsExceed(at - LastHeard(constructed, events), 89);
  }

  lemma {:induction false} NoTickKeepsTimer(constructed: int, accepted: int, events: seq<Event>)
    requires After(Start(constructed, accepted), events).ticks == 0
    ensures After(Start(constructed, accepted), events).due == Start(constructed, accepted).due
  {
    if events != [] {
      NoTickKeepsTimer(constructed, accepted, events[..|events| - 1]);
    }
  }
}

/** The session object: its queue, its heartbeat and its status client. */
module WebsocketSession {
  import opened Wrappers
  import opened Clock
  import opened WriteQueue
  import opened Heartbeat
  import opened ClientPool

  class WebsocketSession {
    const manager: StatusClientManager
    var messageQueue: seq<string>
    var isWriting: bool
    var lastHeartbeat: int
    var timerDue: Option<int>
    var statusClient: Option<Client>
    var clientAcquired: bool
    ghost var inFlight: seq<string>
    ghost var delivered: seq<string>
    ghost var lost: seq<string>
    ghost var enqueued: seq<string>

    ghost function Messages(): Queue
      reads this
    {
      Queue(messageQueue, isWriting, inFlight, delivered, lost, enqueued)
    }

    ghost function Share(): Holder
      reads this
    {
      Holder(statusClient, clientAcquired)
    }

    constructor (manager: StatusClientManager, now: int)
      modifies manager
      ensures this.manager == manager && lastHeartbeat == now && Messages() == EMPTY && timerDue == None
      ensures (manager.State(), Share()) == Open(old(manager.State()))
    {
      this.manager, lastHeartbeat, timerDue := manager, now, None;
      messageQueue, isWriting, inFlight, delivered, lost, enqueued := [], false, [], [], [], [];
      statusClient, clientAcquired := None, false;
      new;
      if manager.initialized {
        var client := manager.AcquireClient();
        statusClient := Some(client);
        clientAcquired := true;
      } else {
        var client := manager.MakeClient();
        statusClient := Some(client);
        clientAcquired := false;
      }
    }

    method SendMessage(message: string)
      modifies this`messageQueue, this`isWriting, this`inFlight, this`enqueued
      ensures Messages() == Send(old(Messages()), message)
      ensures isWriting && enqueued == old(enqueued) + [message]
      ensures old(isWriting) ==> messageQueue == old(messageQueue) + [message] && inFlight == old(inFlight)
      ensures !old(isWriting) ==> inFlight + messageQueue == old(inFlight) + old(messageQueue) + [message]
      ensures !old(isWriting) ==> |inFlight| == |old(inFlight)| + 1
    {
      messageQueue := messageQueue + [message];
      enqueued := enqueued + [message];
      if !isWriting {
        isWriting := true;
        StartWrite();
      }
    }

    /** do_write: takes the first message and starts its asynchronous write. */
    method StartWrite()
      modifies this`messageQueue, this`isWriting, this`inFlight
      ensures Messages() == DoWrite(old(Messages()))
    {
      if messageQueue == [] {
        isWriting := false;
        return;
      }
      inFlight := inFlight + [messageQueue[0]];
      messageQueue := messageQueue[1..];
    }

    /** The completion handler of a write. */
    method OnWritten(ok: bool)
      requires inFlight != []
      modifies this, manager
      ensures Messages() == Complete(old(Messages()), ok)
      ensures ok ==> manager.State() == old(manager.State()) && Share() == old(Share())
      ensures !ok ==> (manager.State(), Share()) == ClientPool.Fail(old(manager.State()), old(Share()))
      ensures lastHeartbeat == old(lastHeartbeat) && timerDue == old(timerDue)
    {
      ghost var m := inFlight[0];
      inFlight := inFlight[1..];
      if !ok {
        lost := lost + [m];
        Fail();
        return;
      }
      delivered := delivered + [m];
      if messageQueue != [] {
        StartWrite();
      } else {
        isWriting := false;
      }
    }

    /** The part of `fail` that gives the client back. */
    method Fail()
      modifies this`statusClient, this`clientAcquired, manager
      ensures (manager.State(), Share()) == ClientPool.Fail(old(manager.State()), old(Share()))
    {
      if clientAcquired && statusClient != None {
        manager.ReleaseClient(statusClient);
        statusClient := None;
        clientAcquired := false;
      }
    }

    method OnRead(now: int)
      modifies this`lastHeartbeat
      ensures lastHeartbeat == now
    {
      lastHeartbeat := now;
    }

    /** Arms the timer. */
    method StartHeartbeat(now: int)
      modifies this`timerDue
      ensures timerDue == Some(now + Seconds(HEARTBEAT_INTERVAL))
    {
      timerDue := Some(now + Seconds(HEARTBEAT_INTERVAL));
    }

    /** The timer's handler: the next state of the heartbeat machine, and what else happens on either side. */
    method OnTimer(now: int, message: string, ghost b: Beat)
      requires b.last == lastHeartbeat && b.due == timerDue
      modifies this, manager
      ensures Heartbeat.Next(b, Tick(now)).last == lastHeartbeat && Heartbeat.Next(b, Tick(now)).due == timerDue
      ensures IsAlive(now, old(lastHeartbeat)) ==>
                Messages() == Send(old(Messages()), message) && manager.State() == old(manager.State()) && Share() == old(Share())
      ensures !IsAlive(now, old(lastHeartbeat)) ==>
                && Messages() == old(Messages())
                && (manager.State(), Share()) == ClientPool.Fail(old(manager.State()), old(Share()))
    {
      var elapsed := WholeSeconds(now - lastHeartbeat);
      if !(elapsed < HEARTBEAT_INTERVAL * 3) {
        timerDue := None;
        Fail();
        return;
      }
      SendMessage(message);
      StartHeartbeat(now);
    }
  }
}
