/** The registry that feeds the balancer, and the health sweep over what is registered. */
module ServiceRegistry {
  import opened Wrappers
  import opened Selection
  import LB = LoadBalancer

  datatype Registration = Registration(host: string, port: int, weight: int, metadata: string)

  type Registrations = map<string, seq<Registration>>

  function RegistrationsOf(regs: Registrations, service: string): seq<Registration> {
    if service in regs then regs[service] else []
  }

  function Register(regs: Registrations, service: string, r: Registration): Registrations {
    regs[service := RegistrationsOf(regs, service) + [r]]
  }

  function FirstRegistration(rs: seq<Registration>, host: string, port: int): (k: nat)
    ensures k <= |rs|
  {
    if rs == [] || (rs[0].host == host && rs[0].port == port) then 0 else FirstRegistration(rs[1..], host, port) + 1
  }

  /** `operator[]` leaves an empty list behind for an unknown service. */
  function Unregister(regs: Registrations, service: string, host: string, port: int): Registrations {
    var rs := RegistrationsOf(regs, service);
    regs[service := Erase(rs, FirstRegistration(rs, host, port))]
  }

  // ---- Lockstep ----------------------------------------------------------------------------------

  /** The two lists name the same endpoints with the same weights in the same order. */
  ghost predicate SameEndpoints(rs: seq<Registration>, xs: seq<Instance>) {
    && |rs| == |xs|
    && forall i :: 0 <= i < |rs| ==> rs[i].host == xs[i].host && rs[i].port == xs[i].port && rs[i].weight == xs[i].weight
  }

  ghost predicate Lockstep(regs: Registrations, b: Balancer) {
    regs.Keys == b.instances.Keys && forall s :: s in regs ==> SameEndpoints(regs[s], b.instances[s])
  }

  lemma {:induction false} FirstMatchesAgree(rs: seq<Registration>, xs: seq<Instance>, host: string, port: int)
    requires SameEndpoints(rs, xs)
    ensures FirstRegistration(rs, host, port) == FirstMatch(xs, host, port)
  {
    if rs != [] && (rs[0].host != host || rs[0].port != port) {
      FirstMatchesAgree(rs[1..], xs[1..], host, port);
    }
  }

  lemma RegisterKeepsLockstep(regs: Registrations, b: Balancer, service: string, r: Registration)
    requires Lockstep(regs, b)
    ensures Lockstep(Register(regs, service, r), AddInstance(b, service, r.host, r.port, r.weight))
  {
    assert SameEndpoints(RegistrationsOf(regs, service), InstancesOf(b, service));
  }

  /** A registration comes last in its service's list, as given, and no other service changes. */
  lemma RegisterEffect(regs: Registrations, service: string, r: Registration)
    ensures RegistrationsOf(Register(regs, service, r), service) == RegistrationsOf(regs, service) + [r]
    ensures forall s :: s != service ==> RegistrationsOf(Register(regs, service, r), s) == RegistrationsOf(regs, s)
  {
  }

  lemma UnregisterKeepsLockstep(regs: Registrations, b: Balancer, service: string, host: string, port: int)
    requires Lockstep(regs, b)
    ensures Lockstep(Unregister(regs, service, host, port), RemoveInstance(b, service, host, port))
  {
    var rs, xs := RegistrationsOf(regs, service), InstancesOf(b, service);
    assert SameEndpoints(rs, xs);
    FirstMatchesAgree(rs, xs, host, port);
    var k := FirstMatch(xs, host, port);
    assert SameEndpoints(Erase(rs, k), Erase(xs, k));
  }

  /** Health reports and selections never touch an endpoint or a weight. */
  lemma HealthKeepsLockstep(regs: Registrations, b: Balancer, service: string, host: string, port: int, healthy: bool)
    requires Lockstep(regs, b)
    ensures Lockstep(regs, SetHealth(b, service, host, port, healthy))
  {
    if service in b.instances {
      assert SameEndpoints(regs[service], Flag(b.instances[service], host, port, healthy));
    }
  }

  datatype Event =
    | Registered(service: string, registration: Registration)
    | Unregistered(service: string, host: string, port: int)
    | Reported(service: string, host: string, port: int, healthy: bool)
    | Selected(service: string)

  /** Registry and balancer after a history in which services come and go through the registry only. */
  function After(history: seq<Event>): (Registrations, Balancer) {
    if history == [] then (map[], Balancer(map[], map[]))
    else
      var (regs, b) := After(history[..|history| - 1]);
      match history[|history| - 1]
      case Registered(s, r) => (Register(regs, s, r), AddInstance(b, s, r.host, r.port, r.weight))
      case Unregistered(s, host, port) => (Unregister(regs, s, host, port), RemoveInstance(b, s, host, port))
      case Reported(s, host, port, healthy) => (regs, SetHealth(b, s, host, port, healthy))
      case Selected(s) => (regs, NextRoundRobin(b, s).0)
  }

  /** Over every such history both tables hold the same endpoints and weights, service by service. */
  lemma {:induction false} HistoriesStayInLockstep(history: seq<Event>)
    ensures Lockstep(After(history).0, After(history).1)
  {
    if history != [] {
      var n := |history| - 1;
      HistoriesStayInLockstep(history[..n]);
      var (regs, b) := After(history[..n]);
      match history[n] {
        case Registered(s, r) => RegisterKeepsLockstep(regs, b, s, r);
        case Unregistered(s, host, port) => UnregisterKeepsLockstep(regs, b, s, host, port);
        case Reported(s, host, port, healthy) => HealthKeepsLockstep(regs, b, s, host, port, healthy);
        case Selected(s) =>
      }
    }
  }

  /** How often an endpoint is registered after a history, by the events alone. */
  function TimesRegistered(history: seq<Event>, service: string, host: string, port: int): nat {
    if history == [] then 0
    else
      var n := TimesRegistered(history[..|history| - 1], service, host, port);
      match history[|history| - 1]
      case Registered(s, r) => if s == service && r.host == host && r.port == port then n + 1 else n
      case Unregistered(s, h, p) => if s == service && h == host && p == port && n > 0 then n - 1 else n
      case _ => n
  }

  /** The balancer lists every endpoint as often as it is registered: once more per registration, once less per removal. */
  lemma {:induction false} RegistrationsAreCounted(history: seq<Event>, service: string, host: string, port: int)
    ensures CountEndpoint(InstancesOf(After(history).1, service), host, port) == TimesRegistered(history, service, host, port)
  {
    if history != [] {
      hide Register, Unregister, AddInstance, RemoveInstance, SetHealth, CountEndpoint;
      var n := |history| - 1;
      RegistrationsAreCounted(history[..n], service, host, port);
      var b := After(history[..n]).1;
      match history[n] {
        case Registered(s, r) => AddInstanceCounts(b, s, r.host, r.port, r.weight, service, host, port);
        case Unregistered(s, h, p) => RemoveInstanceCounts(b, s, h, p, service, host, port);
        case Reported(s, h, p, healthy) => SetHealthCounts(b, s, h, p, healthy, service, host, port);
        case Selected(s) =>
      }
    }
  }

  class ServiceRegistry {
    const loadBalancer: LB.LoadBalancer
    var registeredServices: Registrations

    constructor (loadBalancer: LB.LoadBalancer)
      ensures this.loadBalancer == loadBalancer && registeredServices == map[]
    {
      this.loadBalancer, registeredServices := loadBalancer, map[];
    }

    method RegisterService(serviceName: string, host: string, port: int, weight: int, metadata: string)
      requires loadBalancer.Valid()
      modifies this, loadBalancer
      ensures loadBalancer.Valid() && fresh(loadBalancer.repr - old(loadBalancer.repr))
      ensures registeredServices == Register(old(registeredServices), serviceName, Registration(host, port, weight, metadata))
      ensures loadBalancer.state == AddInstance(old(loadBalancer.state), serviceName, host, port, weight)
    {
      var before := if serviceName in registeredServices then registeredServices[serviceName] else [];
      registeredServices := registeredServices[serviceName := before + [Registration(host, port, weight, metadata)]];
      loadBalancer.AddServiceInstance(serviceName, host, port, weight);
    }

    method UnregisterService(serviceName: string, host: string, port: int)
      requires loadBalancer.Valid()
      modifies this, loadBalancer
      ensures loadBalancer.Valid() && loadBalancer.repr == old(loadBalancer.repr)
      ensures registeredServices == Unregister(old(registeredServices), serviceName, host, port)
      ensures loadBalancer.state == RemoveInstance(old(loadBalancer.state), serviceName, host, port)
    {
      var services := if serviceName in registeredServices then registeredServices[serviceName] else [];
      var k := 0;
      while k < |services| && !(services[k].host == host && services[k].port == port)
        invariant 0 <= k <= |services|
        invariant FirstRegistration(services, host, port) == k + FirstRegistration(services[k..], host, port)
      {
        assert services[k..][1..] == services[k + 1..];
        k := k + 1;
      }
      registeredServices := registeredServices[serviceName := Erase(services, k)];
      loadBalancer.RemoveServiceInstance(serviceName, host, port);
    }

    method GetAllRegisteredServices() returns (all: Registrations)
      ensures all == registeredServices
    {
      all := registeredServices;
    }
  }
}

module HealthChecker {
  import opened Wrappers
  import opened Selection
  import opened ServiceRegistry
  import LB = LoadBalancer

  /** The result of each probe of a pass: of a service, by the position of its registration. */
  type Probe = string -> nat -> bool

  /** What one pass over a service's registrations does to its instance list. */
  function SweepList(xs: seq<Instance>, rs: seq<Registration>, ok: nat -> bool): seq<Instance> {
    if rs == [] then xs
    else
      var r := rs[|rs| - 1];
      Flag(SweepList(xs, rs[..|rs| - 1], ok), r.host, r.port, ok(|rs| - 1))
  }

  /** A whole pass; services the balancer does not know are skipped. */
  function Sweep(b: Balancer, regs: Registrations, probe: Probe): Balancer {
    b.(instances := map s | s in b.instances ::
         if s in regs then SweepList(b.instances[s], regs[s], probe(s)) else b.instances[s])
  }

  function SweepService(b: Balancer, s: string, rs: seq<Registration>, ok: nat -> bool): Balancer {
    if s in b.instances then b.(instances := b.instances[s := SweepList(b.instances[s], rs, ok)]) else b
  }

  /** Sweeping one registration more is one more health report. */
  lemma SweepServiceStep(b: Balancer, s: string, rs: seq<Registration>, ok: nat -> bool)
    requires rs != []
    ensures var r := rs[|rs| - 1];
            SweepService(b, s, rs, ok)
              == SetHealth(SweepService(b, s, rs[..|rs| - 1], ok), s, r.host, r.port, ok(|rs| - 1))
  {
    hide Flag;
  }

  lemma SweepNothing(b: Balancer, probe: Probe)
    ensures Sweep(b, map[], probe) == b
  {
  }

  /** Services are swept independently. */
  lemma SweepOneMore(b: Balancer, done: Registrations, s: string, rs: seq<Registration>, probe: Probe)
    requires s !in done
    ensures SweepService(Sweep(b, done, probe), s, rs, probe(s)) == Sweep(b, done[s := rs], probe)
  {
    hide SweepList;
  }

  predicate SameEndpoint(x: Instance, y: Instance) {
    x.host == y.host && x.port == y.port
  }

  /** The last of the first n entries with the endpoint of entry k. */
  function LastAlike(xs: seq<Instance>, k: nat, n: nat): (j: nat)
    requires k < n <= |xs|
    ensures k <= j < n && SameEndpoint(xs[j], xs[k])
    decreases n
  {
    if n - 1 == k || SameEndpoint(xs[n - 1], xs[k]) then n - 1 else LastAlike(xs, k, n - 1)
  }

  /** The list after a pass over its first n entries: a first instance has the last result of its endpoint. */
  ghost predicate Swept(xs: seq<Instance>, ys: seq<Instance>, n: nat, ok: nat -> bool) {
    && |ys| == |xs|
    && forall k :: 0 <= k < |xs| ==> ys[k] == xs[k].(healthy := FlagAfter(xs, k, n, ok))
  }

  predicate FlagAfter(xs: seq<Instance>, k: nat, n: nat, ok: nat -> bool)
    requires k < |xs|
  {
    if k < n <= |xs| && IsFirst(xs, k) then ok(LastAlike(xs, k, n)) else xs[k].healthy
  }

  /** The report for entry n reaches the first entry with its endpoint, which is n itself or an earlier one. */
  lemma ReportReaches(xs: seq<Instance>, ys: seq<Instance>, n: nat, ok: nat -> bool)
    requires n < |xs| && Swept(xs, ys, n, ok)
    ensures var k := FirstMatch(ys, xs[n].host, xs[n].port);
            k <= n && IsFirst(xs, k) && SameEndpoint(xs[k], xs[n]) && (k < n ==> !IsFirst(xs, n))
  {
    var k := FirstMatch(ys, xs[n].host, xs[n].port);
    FirstMatchIsFirst(ys, xs[n].host, xs[n].port);
    assert ys[n].host == xs[n].host && ys[n].port == xs[n].port;
    forall j | 0 <= j < k ensures xs[j].host != xs[n].host || xs[j].port != xs[n].port {
      assert ys[j].host == xs[j].host && ys[j].port == xs[j].port;
    }
  }

  /** One entry more changes the flag of the first instance of its endpoint, and no other. */
  lemma FlagAfterStep(xs: seq<Instance>, k: nat, n: nat, ok: nat -> bool, j: nat)
    requires n < |xs| && k <= n && j < |xs|
    requires IsFirst(xs, k) && SameEndpoint(xs[k], xs[n]) && (k < n ==> !IsFirst(xs, n))
    ensures FlagAfter(xs, j, n + 1, ok) == if j == k then ok(n) else FlagAfter(xs, j, n, ok)
  {
  }

  lemma SweptStep(xs: seq<Instance>, ys: seq<Instance>, n: nat, ok: nat -> bool)
    requires n < |xs| && Swept(xs, ys, n, ok)
    ensures Swept(xs, Flag(ys, xs[n].host, xs[n].port, ok(n)), n + 1, ok)
  {
    hide FlagAfter;
    ReportReaches(xs, ys, n, ok);
    var k := FirstMatch(ys, xs[n].host, xs[n].port);
    var zs := ys[k := ys[k].(healthy := ok(n))];
    forall j | 0 <= j < |xs| ensures zs[j] == xs[j].(healthy := FlagAfter(xs, j, n + 1, ok)) {
      FlagAfterStep(xs, k, n, ok, j);
      assert ys[j] == xs[j].(healthy := FlagAfter(xs, j, n, ok));
    }
    assert Swept(xs, zs, n + 1, ok);
  }

  lemma {:induction false} SweepListEffect(xs: seq<Instance>, rs: seq<Registration>, ok: nat -> bool)
    requires |rs| <= |xs| && forall i :: 0 <= i < |rs| ==> rs[i].host == xs[i].host && rs[i].port == xs[i].port
    ensures Swept(xs, SweepList(xs, rs, ok), |rs|, ok)
  {
    if rs != [] {
      var n := |rs| - 1;
      SweepListEffect(xs, rs[..n], ok);
      SweptStep(xs, SweepList(xs, rs[..n], ok), n, ok);
    }
  }

  /**
    A sweep sets exactly the first instance of every registered endpoint, to the last probe result of
    that endpoint; a later duplicate keeps the flag it had.
  */
  lemma SweepReachesFirsts(regs: Registrations, b: Balancer, probe: Probe, s: string)
    requires Lockstep(regs, b) && s in regs
    ensures Swept(b.instances[s], Sweep(b, regs, probe).instances[s], |b.instances[s]|, probe(s))
  {
    assert SameEndpoints(regs[s], b.instances[s]);
    SweepListEffect(b.instances[s], regs[s], probe(s));
  }

  /**
    So a sweep leaves every flag equal to its own probe result if and only if the first and the last
    probe of every endpoint agreed, and the later duplicates' flags were right already.
  */
  lemma SweepIsCompleteIff(regs: Registrations, b: Balancer, probe: Probe, s: string)
    requires Lockstep(regs, b) && s in regs
    ensures var xs, ys := b.instances[s], Sweep(b, regs, probe).instances[s];
            (|ys| == |xs| && forall k :: 0 <= k < |xs| ==> ys[k].healthy == probe(s)(k))
            <==> (forall k :: 0 <= k < |xs| ==>
                    probe(s)(k) == if IsFirst(xs, k) then probe(s)(LastAlike(xs, k, |xs|)) else xs[k].healthy)
  {
    SweepReachesFirsts(regs, b, probe, s);
  }

  /** With unique endpoints the next selection has passed its probe, and is null exactly when all failed. */
  lemma SelectionAfterSweep(regs: Registrations, b: Balancer, probe: Probe, s: string, algorithm: string, draw: int)
    requires Lockstep(regs, b) && s in regs && UniqueEndpoints(b.instances[s])
    requires DrawAllowed(InstancesOf(Sweep(b, regs, probe), s), algorithm, draw)
    ensures var xs, pick := b.instances[s], NextHealthy(Sweep(b, regs, probe), s, algorithm, draw).1;
            && (pick == None <==> forall k :: 0 <= k < |xs| ==> !probe(s)(k))
            && (pick != None ==> pick.value < |xs| && probe(s)(pick.value))
  {
    var xs, swept := b.instances[s], Sweep(b, regs, probe);
    SweepReachesFirsts(regs, b, probe, s);
    SelectionIsHealthy(swept, s, algorithm, draw);
    hide NextHealthy, Sweep;
    forall k: nat | k < |xs| ensures swept.instances[s][k].healthy == probe(s)(k) {
      assert SameEndpoint(xs[LastAlike(xs, k, |xs|)], xs[k]);
      assert LastAlike(xs, k, |xs|) == k;
    }
  }

  class HealthChecker {
    const loadBalancer: LB.LoadBalancer
    const serviceRegistry: ServiceRegistry

    constructor (loadBalancer: LB.LoadBalancer, serviceRegistry: ServiceRegistry)
      ensures this.loadBalancer == loadBalancer && this.serviceRegistry == serviceRegistry
    {
      this.loadBalancer, this.serviceRegistry := loadBalancer, serviceRegistry;
    }

    /** `ok` is the result of the probe. */
    method PerformHealthCheck(serviceName: string, host: string, port: int, ok: bool)
      requires loadBalancer.Valid()
      modifies loadBalancer`state, loadBalancer.repr
      ensures loadBalancer.Valid()
      ensures loadBalancer.state == SetHealth(old(loadBalancer.state), serviceName, host, port, ok)
    {
      loadBalancer.UpdateHealthStatus(serviceName, host, port, ok);
    }

    method CheckService(serviceName: string, instances: seq<Registration>, ok: nat -> bool)
      requires loadBalancer.Valid()
      modifies loadBalancer`state, loadBalancer.repr
      ensures loadBalancer.Valid()
      ensures loadBalancer.state == SweepService(old(loadBalancer.state), serviceName, instances, ok)
    {
      for i := 0 to |instances|
        invariant loadBalancer.Valid()
        invariant loadBalancer.state == SweepService(old(loadBalancer.state), serviceName, instances[..i], ok)
      {
        PerformHealthCheck(serviceName, instances[i].host, instances[i].port, ok(i));
        assert instances[..i + 1][..i] == instances[..i];
        SweepServiceStep(old(loadBalancer.state), serviceName, instances[..i + 1], ok);
      }
      assert instances[..|instances|] == instances;
    }

    /** One pass of the checking loop over the snapshot of the registry, services in any order. */
    method CheckAll(probe: Probe)
      requires loadBalancer.Valid()
      modifies loadBalancer`state, loadBalancer.repr
      ensures loadBalancer.Valid()
      ensures loadBalancer.state == Sweep(old(loadBalancer.state), old(serviceRegistry.registeredServices), probe)
    {
      var all := serviceRegistry.GetAllRegisteredServices();
      var left := all.Keys;
      ghost var done: Registrations := map[];
      SweepNothing(loadBalancer.state, probe);
      while left != {}
        invariant left <= all.Keys && done == all - left
        invariant loadBalancer.Valid() && loadBalancer.state == Sweep(old(loadBalancer.state), done, probe)
      {
        var s :| s in left;
        SweepOneMore(old(loadBalancer.state), done, s, all[s], probe);
        CheckService(s, all[s], probe(s));
        done := done[s := all[s]];
        left := left - {s};
      }
      assert done == all;
    }
  }
}
