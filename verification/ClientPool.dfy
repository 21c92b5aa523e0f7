/**
  The pool of status clients and the sessions that hold them. A client is the number of the
  `make_shared` call that made it, so different calls give different clients.
*/
module ClientPool {
  import opened Wrappers
  import opened Arithmetic

  type Client = nat

  datatype Manager = Manager(initialized: bool, pool: seq<Client>, created: nat)

  /** A WebSocket session's share: its client, and whether it came from the manager. */
  datatype Holder = Holder(client: Option<Client>, acquired: bool)

  // ---- The operations ------------------------------------------------------------------------------

  /** One new client per attempt for which the balancer had an instance. */
  function Fill(m: Manager, found: seq<bool>): Manager {
    if found == [] then m
    else
      var filled := Fill(m, found[..|found| - 1]);
      if found[|found| - 1] then filled.(pool := filled.pool + [filled.created], created := filled.created + 1)
      else filled
  }

  function InitializePool(m: Manager, found: seq<bool>): Manager {
    if m.initialized then m else Fill(m, found).(initialized := true)
  }

  /** From the back of the pool, or new; a temporary one before initialization. */
  function Acquire(m: Manager): (Manager, Client) {
    if m.initialized && m.pool != [] then
      (m.(pool := m.pool[..|m.pool| - 1]), m.pool[|m.pool| - 1])
    else (m.(created := m.created + 1), m.created)
  }

  function Release(m: Manager, client: Option<Client>): Manager {
    if client == None || !m.initialized then m else m.(pool := m.pool + [client.value])
  }

  /** The constructor of a session. */
  function Open(m: Manager): (Manager, Holder) {
    if m.initialized then
      var (after, c) := Acquire(m);
      (after, Holder(Some(c), true))
    else (m.(created := m.created + 1), Holder(Some(m.created), false))
  }

  /** What `fail` does about the client; every error path ends here, some more than once. */
  function Fail(m: Manager, h: Holder): (Manager, Holder) {
    if h.acquired && h.client != None then (Release(m, h.client), Holder(None, false)) else (m, h)
  }

  /** Any number of further failures of a session changes nothing. */
  lemma FailsOnce(m: Manager, h: Holder)
    ensures var (m', h') := Fail(m, h); Fail(m', h') == (m', h')
  {
  }

  /** How many attempts found an instance. */
  function Found(found: seq<bool>): nat {
    if found == [] then 0 else Found(found[..|found| - 1]) + if found[|found| - 1] then 1 else 0
  }

  lemma {:induction false} FillEffect(m: Manager, found: seq<bool>)
    ensures var after := Fill(m, found);
            && after.initialized == m.initialized
            && after.created == m.created + Found(found)
            && after.pool == m.pool + seq(Found(found), i requires 0 <= i < Found(found) => m.created + i)
  {
    if found != [] {
      FillEffect(m, found[..|found| - 1]);
    }
  }

  /** The first initialization pools one new client per instance found; no later one changes anything. */
  lemma InitializesOnce(m: Manager, found: seq<bool>, again: seq<bool>)
    ensures var after := InitializePool(m, found);
            && after.initialized && InitializePool(after, again) == after
            && (!m.initialized ==> |after.pool| == |m.pool| + Found(found) && after.created == m.created + Found(found))
  {
    FillEffect(m, found);
  }

  /** An initialized manager gives a session a pooled client whenever there is one, else a new one, to be returned. */
  lemma OpenEffect(m: Manager)
    ensures var (after, h) := Open(m);
            && h.client != None && h.acquired == m.initialized && after.initialized == m.initialized
            && (m.initialized && m.pool != [] ==>
                  h.client.value == m.pool[|m.pool| - 1] && after.pool == m.pool[..|m.pool| - 1] && after.created == m.created)
            && (!m.initialized || m.pool == [] ==>
                  h.client.value == m.created && after.created == m.created + 1 && after.pool == m.pool)
  {
  }

  /** A failing session gives its client back, and the next session to open gets that one; a temporary one stays. */
  lemma FailThenOpen(m: Manager, h: Holder)
    requires h.client != None && m.initialized
    ensures var (after, left) := Fail(m, h);
            && (h.acquired ==> left == Holder(None, false) && Open(after) == (m, h))
            && (!h.acquired ==> (after, left) == (m, h))
  {
    var pool := m.pool + [h.client.value];
    assert pool[..|pool| - 1] == m.pool;
  }

  class StatusClientManager {
    var initialized: bool
    var clientPool: seq<Client>
    var created: nat // calls of make_shared so far

    ghost function State(): Manager
      reads this
    {
      Manager(initialized, clientPool, created)
    }

    constructor ()
      ensures State() == Manager(false, [], 0)
    {
      initialized, clientPool, created := false, [], 0;
    }

    method MakeClient() returns (c: Client)
      modifies this`created
      ensures c == old(created) && created == old(created) + 1
    {
      c := created;
      created := created + 1;
    }

    /** `found[i]` is whether the balancer has a healthy instance on the i-th of |found| attempts. */
    method Initialize(found: seq<bool>)
      modifies this
      ensures State() == InitializePool(old(State()), found)
    {
      if initialized {
        return;
      }
      for i := 0 to |found|
        invariant State() == Fill(old(State()), found[..i]) && !initialized
      {
        assert found[..i + 1][..i] == found[..i];
        if found[i] {
          var client := MakeClient();
          clientPool := clientPool + [client];
        }
      }
      assert found[..|found|] == found;
      initialized := true;
    }

    /** Without a pooled client one is made, for a balanced or for the default address alike. */
    method AcquireClient() returns (client: Client)
      modifies this
      ensures (State(), client) == Acquire(old(State()))
    {
      if !initialized {
        client := MakeClient();
        return;
      }
      if |clientPool| > 0 {
        client := clientPool[|clientPool| - 1];
        clientPool := clientPool[..|clientPool| - 1];
      } else {
        client := MakeClient();
      }
    }

    method ReleaseClient(client: Option<Client>)
      modifies this
      ensures State() == Release(old(State()), client)
    {
      if client == None {
        return;
      }
      if !initialized {
        return;
      }
      clientPool := clientPool + [client.value];
    }
  }

  // ---- Runs ----------------------------------------------------------------------------------------

  datatype Event = Initialized(found: seq<bool>) | Opened | Failed(session: nat)

  /** `initial` is the pool initialize made; `peak` the largest number of sessions holding a client at once. */
  datatype World = World(manager: Manager, sessions: seq<Holder>, initial: nat, peak: nat)

  predicate Holds(h: Holder) {
    h.acquired && h.client != None
  }

  function Outstanding(hs: seq<Holder>): nat {
    if hs == [] then 0 else Outstanding(hs[..|hs| - 1]) + if Holds(hs[|hs| - 1]) then 1 else 0
  }

  function Next(w: World, e: Event): World {
    match e
    case Initialized(found) =>
      var m := InitializePool(w.manager, found);
      w.(manager := m, initial := if w.manager.initialized then w.initial else |m.pool|)
    case Opened =>
      var (m, h) := Open(w.manager);
      var hs := w.sessions + [h];
      w.(manager := m, sessions := hs, peak := Max(w.peak, Outstanding(hs)))
    case Failed(i) =>
      if i < |w.sessions| then
        var (m, h) := Fail(w.manager, w.sessions[i]);
        w.(manager := m, sessions := w.sessions[i := h])
      else w
  }

  function After(events: seq<Event>): World {
    if events == [] then World(Manager(false, [], 0), [], 0, 0)
    else Next(After(events[..|events| - 1]), events[|events| - 1])
  }

  /** Every client has one place: the pool, once, or one session. */
  ghost predicate Exclusive(m: Manager, hs: seq<Holder>) {
    && (forall i :: 0 <= i < |m.pool| ==> m.pool[i] < m.created)
    && (forall i, j :: 0 <= i < j < |m.pool| ==> m.pool[i] != m.pool[j])
    && (forall i :: 0 <= i < |hs| && hs[i].client != None ==> hs[i].client.value < m.created && hs[i].client.value !in m.pool)
    && (forall i, j :: 0 <= i < j < |hs| && hs[i].client != None ==> hs[i].client != hs[j].client)
  }

  ghost predicate Conserved(w: World) {
    && Outstanding(w.sessions) <= w.peak
    && (w.manager.initialized ==> |w.manager.pool| + Outstanding(w.sessions) == Max(w.initial, w.peak))
    && (!w.manager.initialized ==> w.manager.pool == [] && w.peak == 0)
    && (forall i :: 0 <= i < |w.sessions| && w.sessions[i].acquired ==> w.manager.initialized && w.sessions[i].client != None)
  }

  lemma {:induction false} FillKeeps(m: Manager, found: seq<bool>, hs: seq<Holder>)
    requires Exclusive(m, hs)
    ensures Exclusive(Fill(m, found), hs) && Fill(m, found).initialized == m.initialized
  {
    if found != [] {
      FillKeeps(m, found[..|found| - 1], hs);
    }
  }

  lemma {:induction false} NoneOutstanding(hs: seq<Holder>)
    requires forall i :: 0 <= i < |hs| ==> !hs[i].acquired
    ensures Outstanding(hs) == 0
  {
    if hs != [] {
      NoneOutstanding(hs[..|hs| - 1]);
    }
  }

  lemma {:induction false} OutstandingUpdate(hs: seq<Holder>, i: nat, h: Holder)
    requires i < |hs|
    ensures Outstanding(hs[i := h]) == Outstanding(hs) - (if Holds(hs[i]) then 1 else 0) + if Holds(h) then 1 else 0
    decreases |hs|
  {
    var n := |hs| - 1;
    if i < n {
      OutstandingUpdate(hs[..n], i, h);
      assert hs[i := h][..n] == hs[..n][i := h];
    } else {
      assert hs[i := h][..n] == hs[..n];
    }
  }

  lemma OutstandingAppend(hs: seq<Holder>, h: Holder)
    ensures Outstanding(hs + [h]) == Outstanding(hs) + if Holds(h) then 1 else 0
  {
    assert (hs + [h])[..|hs|] == hs;
  }

  /** The client a session opens with is nobody else's. */
  lemma OpenKeepsExclusive(m: Manager, hs: seq<Holder>)
    requires Exclusive(m, hs)
    ensures Exclusive(Open(m).0, hs + [Open(m).1])
  {
    assert forall i :: 0 <= i < |m.pool| ==> m.pool[i] in m.pool;
  }

  lemma OpenKeeps(w: World)
    requires Exclusive(w.manager, w.sessions) && Conserved(w)
    ensures var t := Next(w, Opened); Exclusive(t.manager, t.sessions) && Conserved(t)
  {
    hide Exclusive, Outstanding;
    OpenKeepsExclusive(w.manager, w.sessions);
    OutstandingAppend(w.sessions, Open(w.manager).1);
  }

  lemma FailKeeps(w: World, i: nat)
    requires Exclusive(w.manager, w.sessions) && Conserved(w) && i < |w.sessions|
    ensures var t := Next(w, Failed(i)); Exclusive(t.manager, t.sessions) && Conserved(t)
  {
    var (m, h) := Fail(w.manager, w.sessions[i]);
    OutstandingUpdate(w.sessions, i, h);
    assert w.sessions[i := w.sessions[i]] == w.sessions;
  }

  lemma {:induction false} RunsKeep(events: seq<Event>)
    ensures Exclusive(After(events).manager, After(events).sessions) && Conserved(After(events))
  {
    if events != [] {
      var n := |events| - 1;
      var w := After(events[..n]);
      RunsKeep(events[..n]);
      match events[n] {
        case Initialized(found) =>
          FillKeeps(w.manager, found, w.sessions);
          if !w.manager.initialized {
            NoneOutstanding(w.sessions);
          }
        case Opened => OpenKeeps(w);
        case Failed(i) =>
          if i < |w.sessions| {
            FailKeeps(w, i);
          }
      }
    }
  }

  /** In every run no client is in two sessions, or in a session and the pool, or in the pool twice. */
  lemma ClientsAreExclusive(events: seq<Event>)
    ensures Exclusive(After(events).manager, After(events).sessions)
  {
    RunsKeep(events);
  }

  /** How many instances the first initialization found; None if there was none. */
  function FirstFound(events: seq<Event>): Option<nat> {
    if events == [] then None
    else
      var before, e := FirstFound(events[..|events| - 1]), events[|events| - 1];
      if before == None && e.Initialized? then Some(Found(e.found)) else before
  }

  lemma {:induction false} InitialIsFirstFound(events: seq<Event>)
    ensures After(events).manager.initialized <==> FirstFound(events) != None
    ensures FirstFound(events) != None ==> After(events).initial == FirstFound(events).value
  {
    if events != [] {
      var n := |events| - 1;
      var m := After(events[..n]).manager;
      InitialIsFirstFound(events[..n]);
      RunsKeep(events[..n]);
      match events[n] {
        case Initialized(found) => FillEffect(m, found);
        case Opened => OpenEffect(m);
        case Failed(i) =>
      }
    }
  }

  /**
    Once there was an initialization, pooled and outstanding clients together number the larger of the
    instances it found and the most sessions that ever held a client at once.
  */
  lemma ClientsAreConserved(events: seq<Event>)
    requires FirstFound(events) != None
    ensures var w := After(events);
            |w.manager.pool| + Outstanding(w.sessions) == Max(FirstFound(events).value, w.peak) && Outstanding(w.sessions) <= w.peak
  {
    InitialIsFirstFound(events);
    RunsKeep(events);
  }
}
