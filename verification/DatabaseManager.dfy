/**
  Connecting to the database through the balancer: one attempt, and what repeated attempts amount to.
  Whether an endpoint accepts a connection is the parameter `reach`; whether the client handle can be
  allocated is `initOk`.
*/
module DatabaseManager {
  import opened Arithmetic
  import opened Wrappers
  import opened Selection
  import LB = LoadBalancer

  const SERVICE_NAME := "DatabaseService"

  type Reach = (string, int) -> bool

  datatype Handle = Null | Open // MYSQL*

  /** The tables after one attempt made while disconnected, and the position connected to. */
  function Attempt(b: Balancer, initOk: bool, reach: Reach): (Balancer, Option<nat>) {
    var (after, pick) := NextRoundRobin(b, SERVICE_NAME);
    if pick == None then (after, None)
    else
      var x := InstancesOf(b, SERVICE_NAME)[pick.value];
      if initOk && reach(x.host, x.port) then (after, pick)
      else (SetHealth(after, SERVICE_NAME, x.host, x.port, false), None)
  }

  class DatabaseManager {
    const loadBalancer: LB.LoadBalancer
    var connection: Handle
    var connected: bool
    var currentHost: string
    var currentPort: int

    /** The flag and the handle always say the same. */
    ghost predicate Valid()
      reads this
    {
      connected <==> connection == Handle.Open
    }

    constructor (loadBalancer: LB.LoadBalancer)
      ensures Valid() && !connected && this.loadBalancer == loadBalancer
    {
      this.loadBalancer := loadBalancer;
      connection, connected, currentHost, currentPort := Null, false, "", 0;
    }

    method AddDatabaseInstance(host: string, port: int, weight: int)
      requires loadBalancer.Valid()
      modifies loadBalancer
      ensures loadBalancer.Valid() && fresh(loadBalancer.repr - old(loadBalancer.repr))
      ensures loadBalancer.state == AddInstance(old(loadBalancer.state), SERVICE_NAME, host, port, weight)
    {
      loadBalancer.AddServiceInstance(SERVICE_NAME, host, port, weight);
    }

    method UpdateInstanceHealth(host: string, port: int, isHealthy: bool)
      requires loadBalancer.Valid()
      modifies loadBalancer`state, loadBalancer.repr
      ensures loadBalancer.Valid()
      ensures loadBalancer.state == SetHealth(old(loadBalancer.state), SERVICE_NAME, host, port, isHealthy)
    {
      loadBalancer.UpdateHealthStatus(SERVICE_NAME, host, port, isHealthy);
    }

    method Disconnect()
      requires Valid()
      modifies this
      ensures Valid() && !connected && currentHost == old(currentHost) && currentPort == old(currentPort)
    {
      if connection == Handle.Open {
        connection := Null;
        connected := false;
      }
    }

    method SelectInstance() returns (r: LB.ServiceInstance?)
      requires loadBalancer.Valid()
      modifies loadBalancer`currentIndices, loadBalancer`state
      ensures loadBalancer.Valid()
      ensures var (after, pick) := NextRoundRobin(old(loadBalancer.state), SERVICE_NAME);
              && loadBalancer.state == after
              && (r == null <==> pick == None)
              && (r != null ==> r.host == InstancesOf(old(loadBalancer.state), SERVICE_NAME)[pick.value].host)
              && (r != null ==> r.port == InstancesOf(old(loadBalancer.state), SERVICE_NAME)[pick.value].port)
    {
      assert |"round_robin"| == 11 && |"weighted_round_robin"| == 20 && |"least_connections"| == 17;
      r := loadBalancer.GetNextHealthyInstance(SERVICE_NAME, "round_robin", 0);
    }

    /** Allocating the handle and connecting it; both ways to fail leave no handle behind. */
    method Open(host: string, port: int, initOk: bool, reach: Reach) returns (ok: bool)
      requires Valid() && !connected
      modifies this
      ensures Valid() && ok == connected == (initOk && reach(host, port))
      ensures currentHost == host && currentPort == port
    {
      currentHost := host;
      currentPort := port;
      connection := if initOk then Handle.Open else Null;
      if connection == Null {
        return false;
      }
      if !reach(currentHost, currentPort) {
        connection := Null;
        return false;
      }
      connected := true;
      return true;
    }

    /** The caller holds the mutex. */
    method ConnectImpl(initOk: bool, reach: Reach) returns (ok: bool)
      requires Valid() && loadBalancer.Valid()
      modifies this, loadBalancer`currentIndices, loadBalancer`state, loadBalancer.repr
      ensures Valid() && loadBalancer.Valid() && ok == connected
      ensures old(connected) ==> ok && loadBalancer.state == old(loadBalancer.state)
      ensures !old(connected) ==>
        var (after, pick) := Attempt(old(loadBalancer.state), initOk, reach);
        && loadBalancer.state == after
        && (ok <==> pick != None)
        && (ok ==> currentHost == InstancesOf(old(loadBalancer.state), SERVICE_NAME)[pick.value].host)
        && (ok ==> currentPort == InstancesOf(old(loadBalancer.state), SERVICE_NAME)[pick.value].port)
    {
      if connected {
        return true;
      }
      var dbInstance := SelectInstance();
      if dbInstance == null {
        return false;
      }
      ok := Open(dbInstance.host, dbInstance.port, initOk, reach);
      if !ok {
        UpdateInstanceHealth(currentHost, currentPort, false);
      }
    }
  }

  // ---- When an attempt connects ----------------------------------------------------------------------

  /** An attempt connects to the next healthy instance, exactly if a handle can be had and it is reachable. */
  lemma AttemptConnectsIff(b: Balancer, initOk: bool, reach: Reach)
    ensures var (after, connectedTo) := Attempt(b, initOk, reach);
            var (moved, pick) := NextRoundRobin(b, SERVICE_NAME);
            var xs := InstancesOf(b, SERVICE_NAME);
            && (pick == None <==> forall k :: 0 <= k < |xs| ==> !xs[k].healthy)
            && (connectedTo != None <==> pick != None && initOk && reach(xs[pick.value].host, xs[pick.value].port))
            && (connectedTo != None ==> connectedTo == pick && xs[pick.value].healthy && after == moved && after.instances == b.instances)
  {
    SelectionIsHealthy(b, SERVICE_NAME, "", 0);
  }

  /** The first instance added to an empty service is healthy, and the next attempt connects to it if it is reachable. */
  lemma FirstInstanceConnects(b: Balancer, host: string, port: int, weight: int, reach: Reach)
    requires InstancesOf(b, SERVICE_NAME) == []
    ensures var added := AddInstance(b, SERVICE_NAME, host, port, weight);
            && NextRoundRobin(added, SERVICE_NAME).1 == Some(0)
            && InstancesOf(added, SERVICE_NAME)[0] == Instance(host, port, weight, true)
            && (reach(host, port) ==> Attempt(added, true, reach).1 == Some(0))
  {
    var added := AddInstance(b, SERVICE_NAME, host, port, weight);
    AddInstanceEffect(b, SERVICE_NAME, host, port, weight);
    NextPick(added, SERVICE_NAME);
    assert Healthy(InstancesOf(added, SERVICE_NAME)) == [0];
    AttemptConnectsIff(added, true, reach);
  }

  // ---- One failed attempt --------------------------------------------------------------------------

  function HealthyCount(xs: seq<Instance>): nat {
    if xs == [] then 0 else HealthyCount(xs[..|xs| - 1]) + if xs[|xs| - 1].healthy then 1 else 0
  }

  function UnreachableCount(xs: seq<Instance>, reach: Reach): nat {
    if xs == [] then 0
    else UnreachableCount(xs[..|xs| - 1], reach)
         + if xs[|xs| - 1].healthy && !reach(xs[|xs| - 1].host, xs[|xs| - 1].port) then 1 else 0
  }

  function Mark(xs: seq<Instance>, k: nat): seq<Instance>
    requires k < |xs|
  {
    xs[k := xs[k].(healthy := false)]
  }

  lemma {:induction false} MarkCounts(xs: seq<Instance>, k: nat, reach: Reach)
    requires k < |xs|
    ensures HealthyCount(Mark(xs, k)) == HealthyCount(xs) - if xs[k].healthy then 1 else 0
    ensures UnreachableCount(Mark(xs, k), reach)
              == UnreachableCount(xs, reach) - if xs[k].healthy && !reach(xs[k].host, xs[k].port) then 1 else 0
    decreases |xs|
  {
    var n := |xs| - 1;
    if k < n {
      MarkCounts(xs[..n], k, reach);
      assert Mark(xs, k)[..n] == Mark(xs[..n], k);
    } else {
      assert Mark(xs, k)[..n] == xs[..n];
    }
  }

  /** Every healthy instance is the first with its endpoint; unique endpoints are a special case. */
  ghost predicate HealthyAreFirst(xs: seq<Instance>) {
    forall k: nat :: k < |xs| && xs[k].healthy ==> IsFirst(xs, k)
  }

  lemma UniqueAreFirst(xs: seq<Instance>)
    requires UniqueEndpoints(xs)
    ensures HealthyAreFirst(xs)
  {
  }

  /**
    A failed attempt marks the first instance of the endpoint it tried and changes nothing else. So the
    healthy count goes down by one, unless that first instance was marked already.
  */
  lemma FailedAttempt(b: Balancer, initOk: bool, reach: Reach)
    requires Healthy(InstancesOf(b, SERVICE_NAME)) != [] && Attempt(b, initOk, reach).1 == None
    ensures var xs, ys := InstancesOf(b, SERVICE_NAME), InstancesOf(Attempt(b, initOk, reach).0, SERVICE_NAME);
            var p := NextRoundRobin(b, SERVICE_NAME).1.value;
            var first := FirstMatch(xs, xs[p].host, xs[p].port);
            && p < |xs| && xs[p].healthy && !(initOk && reach(xs[p].host, xs[p].port))
            && first <= p && xs[first].host == xs[p].host && xs[first].port == xs[p].port
            && IsFirst(xs, first) && (IsFirst(xs, p) ==> first == p)
            && ys == Mark(xs, first)
            && HealthyCount(ys) == HealthyCount(xs) - if xs[first].healthy then 1 else 0
  {
    var xs := InstancesOf(b, SERVICE_NAME);
    HealthyExactly(xs);
    var pick := NextRoundRobin(b, SERVICE_NAME).1;
    assert pick.value in Healthy(xs);
    var x := xs[pick.value];
    FirstMatchIsFirst(xs, x.host, x.port);
    MarkCounts(xs, FirstMatch(xs, x.host, x.port), reach);
  }

  // ---- Attempts one after the other ------------------------------------------------------------------

  /** A reachable instance keeps its flag, and nothing but a flag changes. */
  ghost predicate OnlyUnreachableMarked(xs: seq<Instance>, ys: seq<Instance>, reach: Reach) {
    && |ys| == |xs|
    && forall k :: 0 <= k < |xs| ==>
         || ys[k] == xs[k]
         || (xs[k].healthy && !reach(xs[k].host, xs[k].port) && ys[k] == xs[k].(healthy := false))
  }

  ghost predicate SomeReachable(xs: seq<Instance>, reach: Reach) {
    exists k :: 0 <= k < |xs| && xs[k].healthy && reach(xs[k].host, xs[k].port)
  }

  lemma MarkingKeepsReachable(xs: seq<Instance>, ys: seq<Instance>, zs: seq<Instance>, reach: Reach)
    requires OnlyUnreachableMarked(xs, ys, reach)
    ensures SomeReachable(xs, reach) <==> SomeReachable(ys, reach)
    ensures OnlyUnreachableMarked(ys, zs, reach) ==> OnlyUnreachableMarked(xs, zs, reach)
  {
    if SomeReachable(xs, reach) {
      var k :| 0 <= k < |xs| && xs[k].healthy && reach(xs[k].host, xs[k].port);
      assert ys[k].healthy && reach(ys[k].host, ys[k].port);
    }
    if SomeReachable(ys, reach) {
      var k :| 0 <= k < |ys| && ys[k].healthy && reach(ys[k].host, ys[k].port);
      assert xs[k].healthy && reach(xs[k].host, xs[k].port);
    }
  }

  lemma MarkKeepsFirsts(xs: seq<Instance>, k: nat, j: nat)
    requires k < |xs| && j < |xs|
    ensures IsFirst(Mark(xs, k), j) <==> IsFirst(xs, j)
  {
    var ys := Mark(xs, k);
    assert forall i :: 0 <= i < |xs| ==> ys[i].host == xs[i].host && ys[i].port == xs[i].port;
  }

  /**
    Where every healthy instance is the first with its endpoint, a failure lowers the healthy count by
    exactly one, and the count of healthy unreachable instances too if the one tried was unreachable.
  */
  lemma FailureDecreases(b: Balancer, initOk: bool, reach: Reach)
    requires HealthyAreFirst(InstancesOf(b, SERVICE_NAME))
    requires NextRoundRobin(b, SERVICE_NAME).1 != None && Attempt(b, initOk, reach).1 == None
    ensures var xs, ys := InstancesOf(b, SERVICE_NAME), InstancesOf(Attempt(b, initOk, reach).0, SERVICE_NAME);
            var p := NextRoundRobin(b, SERVICE_NAME).1.value;
            && ys == Mark(xs, p) && HealthyAreFirst(ys)
            && HealthyCount(ys) == HealthyCount(xs) - 1
            && UnreachableCount(ys, reach) == UnreachableCount(xs, reach) - if reach(xs[p].host, xs[p].port) then 0 else 1
  {
    var xs, p := InstancesOf(b, SERVICE_NAME), NextRoundRobin(b, SERVICE_NAME).1.value;
    FailedAttempt(b, initOk, reach);
    MarkCounts(xs, p, reach);
    forall j: nat | j < |xs| ensures IsFirst(Mark(xs, p), j) <==> IsFirst(xs, j) {
      MarkKeepsFirsts(xs, p, j);
    }
  }

  /**
    A failed attempt marks an unreachable instance if and only if the handle could be allocated or the
    instance was unreachable anyway: running out of handles marks instances that would have answered.
  */
  lemma MarksOnlyUnreachableIff(b: Balancer, initOk: bool, reach: Reach)
    requires HealthyAreFirst(InstancesOf(b, SERVICE_NAME))
    requires NextRoundRobin(b, SERVICE_NAME).1 != None && Attempt(b, initOk, reach).1 == None
    ensures var xs, ys := InstancesOf(b, SERVICE_NAME), InstancesOf(Attempt(b, initOk, reach).0, SERVICE_NAME);
            var x := xs[NextRoundRobin(b, SERVICE_NAME).1.value];
            OnlyUnreachableMarked(xs, ys, reach) <==> initOk || !reach(x.host, x.port)
  {
    FailedAttempt(b, initOk, reach);
  }

  /** What one attempt meets: whether a handle can be allocated, and which endpoints answer just then. */
  datatype Try = Try(initOk: bool, reach: Reach)

  /** The tables after attempts that each meet conditions of their own. */
  function AfterTries(b: Balancer, tries: seq<Try>): Balancer {
    if tries == [] then b
    else Attempt(AfterTries(b, tries[..|tries| - 1]), tries[|tries| - 1].initOk, tries[|tries| - 1].reach).0
  }

  ghost predicate AllFail(b: Balancer, tries: seq<Try>) {
    forall i :: 0 <= i < |tries| ==> Attempt(AfterTries(b, tries[..i]), tries[i].initOk, tries[i].reach).1 == None
  }

  lemma {:induction false} HealthyCounted(xs: seq<Instance>)
    ensures HealthyCount(xs) == |Healthy(xs)|
  {
    if xs != [] {
      HealthyCounted(xs[..|xs| - 1]);
    }
  }

  /** An attempt selects something exactly while an instance is healthy, and without one it does nothing. */
  lemma SelectsWhileHealthy(b: Balancer, initOk: bool, reach: Reach)
    ensures NextRoundRobin(b, SERVICE_NAME).1 != None <==> HealthyCount(InstancesOf(b, SERVICE_NAME)) > 0
    ensures NextRoundRobin(b, SERVICE_NAME).1 == None ==> Attempt(b, initOk, reach) == (b, None)
  {
    hide Healthy;
    HealthyCounted(InstancesOf(b, SERVICE_NAME));
  }

  /**
    Whatever each attempt meets, consecutive failures use up the healthy instances one by one: after n of
    them the healthy count is down by n, and at 0 no further attempt selects anything.
  */
  lemma {:induction false} FailuresAreBounded(b: Balancer, tries: seq<Try>)
    requires HealthyAreFirst(InstancesOf(b, SERVICE_NAME)) && AllFail(b, tries)
    ensures var xs, ys := InstancesOf(b, SERVICE_NAME), InstancesOf(AfterTries(b, tries), SERVICE_NAME);
            && HealthyAreFirst(ys)
            && HealthyCount(ys) == Max(0, HealthyCount(xs) - |tries|)
            && (NextRoundRobin(AfterTries(b, tries), SERVICE_NAME).1 != None <==> |tries| < HealthyCount(xs))
  {
    hide Attempt, NextRoundRobin, InstancesOf, HealthyAreFirst, HealthyCount;
    SelectsWhileHealthy(AfterTries(b, tries), true, (h, p) => false);
    if tries != [] {
      var prev, last := tries[..|tries| - 1], tries[|tries| - 1];
      forall i | 0 <= i < |prev| ensures Attempt(AfterTries(b, prev[..i]), prev[i].initOk, prev[i].reach).1 == None {
        assert prev[..i] == tries[..i];
      }
      FailuresAreBounded(b, prev);
      var mid := AfterTries(b, prev);
      SelectsWhileHealthy(mid, last.initOk, last.reach);
      if NextRoundRobin(mid, SERVICE_NAME).1 != None {
        FailureDecreases(mid, last.initOk, last.reach);
      }
    }
  }

  // ---- Retrying until it ends --------------------------------------------------------------------------

  datatype Run = Run(balancer: Balancer, failures: nat, connectedTo: Option<nat>)

  /** Attempts repeated until one succeeds or nothing healthy is left; handles can be allocated. */
  function Retry(b: Balancer, reach: Reach): Run
    requires HealthyAreFirst(InstancesOf(b, SERVICE_NAME))
    decreases HealthyCount(InstancesOf(b, SERVICE_NAME))
  {
    var (after, connectedTo) := Attempt(b, true, reach);
    if NextRoundRobin(b, SERVICE_NAME).1 == None || connectedTo != None then Run(after, 0, connectedTo)
    else
      FailureDecreases(b, true, reach);
      var rest := Retry(after, reach);
      rest.(failures := rest.failures + 1)
  }

  /**
    What a finished run has done: it connected exactly if some healthy instance was reachable, and then to
    a reachable one; it failed at most as often as there were healthy unreachable instances; it marked
    unreachable instances only, one per failure; and it gave up only after marking every healthy one.
  */
  ghost predicate Outcome(xs: seq<Instance>, run: Run, reach: Reach) {
    var ys := InstancesOf(run.balancer, SERVICE_NAME);
    && (run.connectedTo != None <==> SomeReachable(xs, reach))
    && run.failures <= UnreachableCount(xs, reach)
    && HealthyCount(ys) == HealthyCount(xs) - run.failures
    && (run.connectedTo == None ==> run.failures == HealthyCount(xs))
    && (run.connectedTo != None ==> run.connectedTo.value < |xs| && xs[run.connectedTo.value].healthy)
    && (run.connectedTo != None ==> reach(xs[run.connectedTo.value].host, xs[run.connectedTo.value].port))
    && OnlyUnreachableMarked(xs, ys, reach)
  }

  lemma LastAttempt(b: Balancer, reach: Reach)
    requires NextRoundRobin(b, SERVICE_NAME).1 == None || Attempt(b, true, reach).1 != None
    ensures Outcome(InstancesOf(b, SERVICE_NAME), Run(Attempt(b, true, reach).0, 0, Attempt(b, true, reach).1), reach)
  {
    var xs := InstancesOf(b, SERVICE_NAME);
    HealthyExactly(xs);
    HealthyCounted(xs);
    if NextRoundRobin(b, SERVICE_NAME).1 != None {
      assert NextRoundRobin(b, SERVICE_NAME).1.value in Healthy(xs);
    }
  }

  lemma FailureBefore(b: Balancer, reach: Reach, rest: Run)
    requires HealthyAreFirst(InstancesOf(b, SERVICE_NAME))
    requires NextRoundRobin(b, SERVICE_NAME).1 != None && Attempt(b, true, reach).1 == None
    requires Outcome(InstancesOf(Attempt(b, true, reach).0, SERVICE_NAME), rest, reach)
    ensures Outcome(InstancesOf(b, SERVICE_NAME), rest.(failures := rest.failures + 1), reach)
  {
    var xs, after := InstancesOf(b, SERVICE_NAME), Attempt(b, true, reach).0;
    assert Healthy(xs) != [];
    hide Attempt, NextRoundRobin, Healthy, HealthyCount, UnreachableCount, HealthyAreFirst, InstancesOf;
    FailedAttempt(b, true, reach);
    FailureDecreases(b, true, reach);
    MarkingKeepsReachable(xs, InstancesOf(after, SERVICE_NAME), InstancesOf(rest.balancer, SERVICE_NAME), reach);
  }

  /** Failover terminates, with that outcome: every failure lowers the healthy count. */
  lemma {:induction false} FailoverTerminates(b: Balancer, reach: Reach)
    requires HealthyAreFirst(InstancesOf(b, SERVICE_NAME))
    ensures Outcome(InstancesOf(b, SERVICE_NAME), Retry(b, reach), reach)
    decreases HealthyCount(InstancesOf(b, SERVICE_NAME))
  {
    hide Attempt, NextRoundRobin, Outcome, HealthyAreFirst, HealthyCount, InstancesOf;
    if NextRoundRobin(b, SERVICE_NAME).1 == None || Attempt(b, true, reach).1 != None {
      LastAttempt(b, reach);
    } else {
      var after := Attempt(b, true, reach).0;
      FailureDecreases(b, true, reach);
      FailoverTerminates(after, reach);
      FailureBefore(b, reach, Retry(after, reach));
    }
  }

  // ---- Duplicate endpoints -----------------------------------------------------------------------------

  /** The tables after n attempts. */
  function AfterAttempts(b: Balancer, reach: Reach, n: nat): Balancer
    decreases n
  {
    if n == 0 then b else AfterAttempts(Attempt(b, true, reach).0, reach, n - 1)
  }

  /** The next attempt is the last: it connects, or there is nothing to select. */
  predicate Stops(b: Balancer, reach: Reach) {
    Attempt(b, true, reach).1 != None || NextRoundRobin(b, SERVICE_NAME).1 == None
  }

  ghost predicate RetriesEnd(b: Balancer, reach: Reach) {
    exists n: nat :: Stops(AfterAttempts(b, reach, n), reach)
  }

  /** How far round robin is from the h-th of n healthy instances, with the next selection at `next`. */
  function Distance(next: nat, h: nat, n: nat): nat
    requires h < n && next < n
  {
    if next <= h then h - next else h + n - next
  }

  function NextPosition(b: Balancer): (p: nat)
    requires Healthy(InstancesOf(b, SERVICE_NAME)) != []
    ensures p < |Healthy(InstancesOf(b, SERVICE_NAME))|
  {
    (IndexOf(b, SERVICE_NAME) + 1) % |Healthy(InstancesOf(b, SERVICE_NAME))|
  }

  lemma AttemptIndex(b: Balancer, initOk: bool, reach: Reach)
    requires Healthy(InstancesOf(b, SERVICE_NAME)) != []
    ensures IndexOf(Attempt(b, initOk, reach).0, SERVICE_NAME) == NextPosition(b)
  {
    hide Healthy, Flag;
  }

  lemma PositionMovesOn(b: Balancer, after: Balancer)
    requires Healthy(InstancesOf(b, SERVICE_NAME)) != [] && InstancesOf(after, SERVICE_NAME) == InstancesOf(b, SERVICE_NAME)
    requires IndexOf(after, SERVICE_NAME) == NextPosition(b)
    ensures NextPosition(after)
         == if NextPosition(b) + 1 == |Healthy(InstancesOf(b, SERVICE_NAME))| then 0 else NextPosition(b) + 1
  {
    hide Healthy, InstancesOf, IndexOf;
    var n, next := |Healthy(InstancesOf(b, SERVICE_NAME))|, NextPosition(b);
    if next + 1 < n {
      RemainderSmall(next + 1, n);
    } else {
      QuotientUnique(next + 1, n, 1, 0);
    }
  }

  /** A failure either lowers the healthy count or changes nothing but the position, which moves on by one. */
  lemma FailureMovesOn(b: Balancer, reach: Reach)
    requires Healthy(InstancesOf(b, SERVICE_NAME)) != [] && Attempt(b, true, reach).1 == None
    ensures var xs, after := InstancesOf(b, SERVICE_NAME), Attempt(b, true, reach).0;
            var ys, n, next := InstancesOf(after, SERVICE_NAME), |Healthy(xs)|, NextPosition(b);
            && OnlyUnreachableMarked(xs, ys, reach)
            && !reach(xs[Healthy(xs)[next]].host, xs[Healthy(xs)[next]].port)
            && (HealthyCount(ys) == HealthyCount(xs) - 1
                || (ys == xs && NextPosition(after) == if next + 1 == n then 0 else next + 1))
  {
    hide Attempt, NextRoundRobin, InstancesOf, Healthy, HealthyCount, IndexOf;
    var xs, after := InstancesOf(b, SERVICE_NAME), Attempt(b, true, reach).0;
    FailedAttempt(b, true, reach);
    NextPick(b, SERVICE_NAME);
    AttemptIndex(b, true, reach);
    assert NextRoundRobin(b, SERVICE_NAME).1 == Some(Healthy(xs)[NextPosition(b)]);
    hide NextPosition;
    if HealthyCount(InstancesOf(after, SERVICE_NAME)) == HealthyCount(xs) {
      PositionMovesOn(b, after);
    }
  }

  /** With a reachable healthy instance round robin comes to it, or the healthy ones before it get marked. */
  lemma {:induction false} ReachableIsReached(b: Balancer, reach: Reach, h: nat) returns (n: nat)
    requires h < |Healthy(InstancesOf(b, SERVICE_NAME))|
    requires var xs := InstancesOf(b, SERVICE_NAME); reach(xs[Healthy(xs)[h]].host, xs[Healthy(xs)[h]].port)
    ensures Stops(AfterAttempts(b, reach, n), reach)
    decreases HealthyCount(InstancesOf(b, SERVICE_NAME)),
              Distance(NextPosition(b), h, |Healthy(InstancesOf(b, SERVICE_NAME))|)
  {
    hide Attempt, NextRoundRobin, InstancesOf, Healthy, HealthyCount, NextPosition;
    if Stops(b, reach) {
      n := 0;
    } else {
      var xs, after := InstancesOf(b, SERVICE_NAME), Attempt(b, true, reach).0;
      var ys, k := InstancesOf(after, SERVICE_NAME), Healthy(xs)[h];
      FailureMovesOn(b, reach);
      HealthyExactly(xs);
      HealthyExactly(ys);
      assert k in Healthy(xs) && ys[k] == xs[k];
      assert k in Healthy(ys);
      var j: nat :| j < |Healthy(ys)| && Healthy(ys)[j] == k && (ys == xs ==> j == h);
      n := ReachableIsReached(after, reach, j);
      n := n + 1;
    }
  }

  lemma {:induction false} FirstsRunOut(b: Balancer, reach: Reach) returns (n: nat)
    requires HealthyAreFirst(InstancesOf(b, SERVICE_NAME))
    ensures Stops(AfterAttempts(b, reach, n), reach)
    decreases HealthyCount(InstancesOf(b, SERVICE_NAME))
  {
    if Stops(b, reach) {
      n := 0;
    } else {
      FailureDecreases(b, true, reach);
      n := FirstsRunOut(Attempt(b, true, reach).0, reach);
      n := n + 1;
    }
  }

  lemma AttemptFails(b: Balancer, reach: Reach)
    requires Healthy(InstancesOf(b, SERVICE_NAME)) != [] && !SomeReachable(InstancesOf(b, SERVICE_NAME), reach)
    ensures NextRoundRobin(b, SERVICE_NAME).1 != None && Attempt(b, true, reach).1 == None
  {
    var xs := InstancesOf(b, SERVICE_NAME);
    HealthyExactly(xs);
    assert NextRoundRobin(b, SERVICE_NAME).1.value in Healthy(xs);
  }

  /** A healthy unreachable duplicate is never marked, so it is there to be selected for ever. */
  lemma {:induction false} DuplicateStays(b: Balancer, reach: Reach, k: nat, n: nat)
    requires var xs := InstancesOf(b, SERVICE_NAME); k < |xs| && xs[k].healthy && !IsFirst(xs, k)
    requires !SomeReachable(InstancesOf(b, SERVICE_NAME), reach)
    ensures !Stops(AfterAttempts(b, reach, n), reach)
    decreases n
  {
    hide Attempt, NextRoundRobin, InstancesOf, Healthy, HealthyCount, SomeReachable, IsFirst, NextPosition;
    var xs, after := InstancesOf(b, SERVICE_NAME), Attempt(b, true, reach).0;
    HealthyExactly(xs);
    assert k in Healthy(xs);
    AttemptFails(b, reach);
    if n > 0 {
      FailedAttempt(b, true, reach);
      FailureMovesOn(b, reach);
      var p := NextRoundRobin(b, SERVICE_NAME).1.value;
      var first := FirstMatch(xs, xs[p].host, xs[p].port);
      MarkKeepsFirsts(xs, first, k);
      MarkingKeepsReachable(xs, Mark(xs, first), xs, reach);
      DuplicateStays(after, reach, k, n - 1);
    }
  }

  /**
    Over every table, duplicates included: retries against endpoints that keep answering as they do come
    to an end if and only if some healthy instance is reachable or every healthy one is the first with
    its endpoint.
  */
  lemma RetriesEndIff(b: Balancer, reach: Reach)
    ensures var xs := InstancesOf(b, SERVICE_NAME);
            RetriesEnd(b, reach) <==> SomeReachable(xs, reach) || HealthyAreFirst(xs)
  {
    var xs := InstancesOf(b, SERVICE_NAME);
    if SomeReachable(xs, reach) {
      var k: nat :| k < |xs| && xs[k].healthy && reach(xs[k].host, xs[k].port);
      HealthyExactly(xs);
      assert k in Healthy(xs);
      var h: nat :| h < |Healthy(xs)| && Healthy(xs)[h] == k;
      var n := ReachableIsReached(b, reach, h);
    } else if HealthyAreFirst(xs) {
      var n := FirstsRunOut(b, reach);
    } else {
      var k: nat :| k < |xs| && xs[k].healthy && !IsFirst(xs, k);
      forall n: nat ensures !Stops(AfterAttempts(b, reach, n), reach) {
        DuplicateStays(b, reach, k, n);
      }
    }
  }

  lemma {:induction false} NoneHealthy(xs: seq<Instance>)
    requires forall k :: 0 <= k < |xs| ==> !xs[k].healthy
    ensures Healthy(xs) == []
  {
    if xs != [] {
      NoneHealthy(xs[..|xs| - 1]);
    }
  }

  lemma LastIsHealthy(xs: seq<Instance>)
    requires xs != [] && xs[|xs| - 1].healthy && forall k :: 0 <= k < |xs| - 1 ==> !xs[k].healthy
    ensures Healthy(xs) == [|xs| - 1]
  {
    NoneHealthy(xs[..|xs| - 1]);
  }

  /** Such a table: one unreachable endpoint listed twice. An attempt selects it, fails, and changes nothing at all. */
  lemma DuplicateDefeatsMarking() returns (b: Balancer)
    ensures var nothing: Reach := (h, p) => false;
            && NextRoundRobin(b, SERVICE_NAME).1 != None
            && Attempt(b, true, nothing) == (b, None)
            && !RetriesEnd(b, nothing)
  {
    var nothing: Reach := (h, p) => false;
    var xs := [Instance("db", 3306, 1, false), Instance("db", 3306, 1, true)];
    b := Balancer(map[SERVICE_NAME := xs], map[SERVICE_NAME := 0]);
    LastIsHealthy(xs);
    FirstMatchUnique(xs, "db", 3306, 0);
    assert Flag(xs, "db", 3306, false) == xs;
    assert InstancesOf(b, SERVICE_NAME) == xs && IndexOf(b, SERVICE_NAME) == 0;
    assert b.indices[SERVICE_NAME := 0] == b.indices;
    assert NextRoundRobin(b, SERVICE_NAME) == (b, Some(1)) by {
      RemainderSmall(0, 1);
    }
    assert b.instances[SERVICE_NAME := xs] == b.instances;
    assert !IsFirst(xs, 1);
    RetriesEndIff(b, nothing);
  }
}
