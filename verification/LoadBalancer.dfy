/** The balancer's tables as values, and what its selection rules promise. */
module Selection {
  import opened Wrappers
  import opened Arithmetic

  datatype Instance = Instance(host: string, port: int, weight: int, healthy: bool)

  datatype Balancer = Balancer(instances: map<string, seq<Instance>>, indices: map<string, nat>)

  // ---- The tables --------------------------------------------------------------------------------

  function InstancesOf(b: Balancer, service: string): seq<Instance> {
    if service in b.instances then b.instances[service] else []
  }

  /** A missing index reads as 0, as `operator[]` makes it. */
  function IndexOf(b: Balancer, service: string): nat {
    if service in b.indices then b.indices[service] else 0
  }

  function AddInstance(b: Balancer, service: string, host: string, port: int, weight: int): Balancer {
    Balancer(b.instances[service := InstancesOf(b, service) + [Instance(host, port, weight, true)]],
             b.indices[service := 0])
  }

  /** `find_if` on host and port: the first match, or the length. */
  function FirstMatch(xs: seq<Instance>, host: string, port: int): (k: nat)
    ensures k <= |xs|
  {
    if xs == [] || (xs[0].host == host && xs[0].port == port) then 0 else FirstMatch(xs[1..], host, port) + 1
  }

  lemma {:induction false} FirstMatchUnique(xs: seq<Instance>, host: string, port: int, k: nat)
    requires k <= |xs| && (k < |xs| ==> xs[k].host == host && xs[k].port == port)
    requires forall j :: 0 <= j < k ==> xs[j].host != host || xs[j].port != port
    ensures FirstMatch(xs, host, port) == k
  {
    if k > 0 {
      FirstMatchUnique(xs[1..], host, port, k - 1);
    }
  }

  lemma {:induction false} FirstMatchIsFirst(xs: seq<Instance>, host: string, port: int)
    ensures var k := FirstMatch(xs, host, port);
            && (k < |xs| ==> xs[k].host == host && xs[k].port == port)
            && forall j :: 0 <= j < k ==> xs[j].host != host || xs[j].port != port
  {
    if xs != [] && (xs[0].host != host || xs[0].port != port) {
      FirstMatchIsFirst(xs[1..], host, port);
      assert forall j :: 1 <= j < |xs| ==> xs[j] == xs[1..][j - 1];
    }
  }

  /** The first instance with its endpoint: the one a health report or a removal reaches. */
  predicate IsFirst(xs: seq<Instance>, k: nat)
    requires k < |xs|
  {
    forall j :: 0 <= j < k ==> xs[j].host != xs[k].host || xs[j].port != xs[k].port
  }

  ghost predicate UniqueEndpoints(xs: seq<Instance>) {
    forall j, k :: 0 <= j < k < |xs| ==> xs[j].host != xs[k].host || xs[j].port != xs[k].port
  }

  function Erase<T>(xs: seq<T>, k: nat): seq<T> {
    if k < |xs| then xs[..k] + xs[k + 1..] else xs
  }

  /** Erases the first match; `operator[]` leaves an empty list behind for an unknown service. */
  function RemoveInstance(b: Balancer, service: string, host: string, port: int): Balancer {
    var xs := InstancesOf(b, service);
    b.(instances := b.instances[service := Erase(xs, FirstMatch(xs, host, port))])
  }

  function Flag(xs: seq<Instance>, host: string, port: int, healthy: bool): seq<Instance> {
    var k := FirstMatch(xs, host, port);
    if k < |xs| then xs[k := xs[k].(healthy := healthy)] else xs
  }

  function SetHealth(b: Balancer, service: string, host: string, port: int, healthy: bool): Balancer {
    if service in b.instances
    then b.(instances := b.instances[service := Flag(b.instances[service], host, port, healthy)])
    else b
  }

  /** The positions of the healthy instances, in order. */
  function Healthy(xs: seq<Instance>): (ps: seq<nat>)
    ensures forall i :: 0 <= i < |ps| ==> ps[i] < |xs|
  {
    if xs == [] then []
    else
      var n := |xs| - 1;
      Healthy(xs[..n]) + if xs[n].healthy then [n] else []
  }

  /** The filter keeps exactly the healthy instances, each once and in order. */
  lemma {:induction false} HealthyExactly(xs: seq<Instance>)
    ensures forall k: nat :: k in Healthy(xs) <==> k < |xs| && xs[k].healthy
    ensures forall i, j :: 0 <= i < j < |Healthy(xs)| ==> Healthy(xs)[i] < Healthy(xs)[j]
  {
    if xs != [] {
      HealthyExactly(xs[..|xs| - 1]);
    }
  }

  // ---- What the table operations change ----------------------------------------------------------

  /** A new instance is healthy, comes last, and is all that changes but the index, which starts over. */
  lemma AddInstanceEffect(b: Balancer, service: string, host: string, port: int, weight: int)
    ensures var n, after := |InstancesOf(b, service)|, AddInstance(b, service, host, port, weight);
            var xs := InstancesOf(after, service);
            && |xs| == n + 1 && xs[..n] == InstancesOf(b, service)
            && xs[n].host == host && xs[n].port == port && xs[n].weight == weight && xs[n].healthy
            && n in Healthy(xs) && Healthy(xs) == Healthy(InstancesOf(b, service)) + [n]
            && IndexOf(after, service) == 0
            && forall s :: s != service ==> InstancesOf(after, s) == InstancesOf(b, s) && IndexOf(after, s) == IndexOf(b, s)
  {
    var n, after := |InstancesOf(b, service)|, AddInstance(b, service, host, port, weight);
    assert InstancesOf(after, service)[..n] == InstancesOf(b, service);
  }

  /** How many entries have this endpoint. */
  function CountEndpoint(xs: seq<Instance>, host: string, port: int): nat {
    if xs == [] then 0
    else CountEndpoint(xs[..|xs| - 1], host, port)
         + if xs[|xs| - 1].host == host && xs[|xs| - 1].port == port then 1 else 0
  }

  lemma CountLast(xs: seq<Instance>, host: string, port: int)
    requires xs != []
    ensures CountEndpoint(xs, host, port)
         == CountEndpoint(xs[..|xs| - 1], host, port) + if xs[|xs| - 1].host == host && xs[|xs| - 1].port == port then 1 else 0
  {
  }

  lemma {:induction false} CountErase(xs: seq<Instance>, k: nat, host: string, port: int)
    requires k < |xs|
    ensures CountEndpoint(Erase(xs, k), host, port)
         == CountEndpoint(xs, host, port) - if xs[k].host == host && xs[k].port == port then 1 else 0
    decreases |xs|
  {
    hide CountEndpoint;
    var n, ys := |xs| - 1, Erase(xs, k);
    CountLast(xs, host, port);
    if k < n {
      CountErase(xs[..n], k, host, port);
      assert ys[..n - 1] == Erase(xs[..n], k) && ys[n - 1] == xs[n];
      CountLast(ys, host, port);
    } else {
      assert ys == xs[..n];
    }
  }

  lemma {:induction false} CountNone(xs: seq<Instance>, host: string, port: int)
    requires forall j :: 0 <= j < |xs| ==> xs[j].host != host || xs[j].port != port
    ensures CountEndpoint(xs, host, port) == 0
  {
    if xs != [] {
      CountNone(xs[..|xs| - 1], host, port);
    }
  }

  /**
    Removing takes the first entry with the endpoint off its service's list, if there is one, keeps the
    others in order, and touches no other service and no index.
  */
  lemma RemoveInstanceEffect(b: Balancer, service: string, host: string, port: int)
    ensures var xs, after := InstancesOf(b, service), RemoveInstance(b, service, host, port);
            var ys := InstancesOf(after, service);
            && (forall k: nat :: k < |xs| && xs[k].host == host && xs[k].port == port && IsFirst(xs, k) ==>
                  |ys| == |xs| - 1 && forall j :: 0 <= j < |ys| ==> ys[j] == xs[if j < k then j else j + 1])
            && ((forall k :: 0 <= k < |xs| ==> xs[k].host != host || xs[k].port != port) ==> ys == xs)
            && (forall s :: s != service ==> InstancesOf(after, s) == InstancesOf(b, s))
            && after.indices == b.indices
  {
    var xs := InstancesOf(b, service);
    FirstMatchIsFirst(xs, host, port);
    forall k: nat | k < |xs| && xs[k].host == host && xs[k].port == port && IsFirst(xs, k)
      ensures FirstMatch(xs, host, port) == k
    {
      FirstMatchUnique(xs, host, port, k);
    }
  }

  /** A health report changes one flag, of the first entry with the endpoint, and nothing else anywhere. */
  lemma SetHealthEffect(b: Balancer, service: string, host: string, port: int, healthy: bool)
    ensures var xs, after := InstancesOf(b, service), SetHealth(b, service, host, port, healthy);
            var ys := InstancesOf(after, service);
            && |ys| == |xs|
            && (forall k: nat :: k < |xs| ==>
                  ys[k] == if xs[k].host == host && xs[k].port == port && IsFirst(xs, k) then xs[k].(healthy := healthy) else xs[k])
            && (forall s :: s != service ==> InstancesOf(after, s) == InstancesOf(b, s))
            && after.indices == b.indices
  {
    var xs := InstancesOf(b, service);
    FirstMatchIsFirst(xs, host, port);
    forall k: nat | k < |xs| && xs[k].host == host && xs[k].port == port && IsFirst(xs, k)
      ensures FirstMatch(xs, host, port) == k
    {
      FirstMatchUnique(xs, host, port, k);
    }
  }

  /** One entry of that service and endpoint more, and no other. */
  lemma AddInstanceCounts(b: Balancer, service: string, host: string, port: int, weight: int, s: string, h: string, p: int)
    ensures CountEndpoint(InstancesOf(AddInstance(b, service, host, port, weight), s), h, p)
         == CountEndpoint(InstancesOf(b, s), h, p) + if (s, h, p) == (service, host, port) then 1 else 0
  {
    AddInstanceEffect(b, service, host, port, weight);
  }

  /** One entry of that service and endpoint less, if there was one, and no other. */
  lemma RemoveInstanceCounts(b: Balancer, service: string, host: string, port: int, s: string, h: string, p: int)
    ensures var before := CountEndpoint(InstancesOf(b, s), h, p);
            CountEndpoint(InstancesOf(RemoveInstance(b, service, host, port), s), h, p)
              == if (s, h, p) == (service, host, port) && before > 0 then before - 1 else before
  {
    var xs := InstancesOf(b, service);
    FirstMatchIsFirst(xs, host, port);
    if FirstMatch(xs, host, port) < |xs| {
      CountErase(xs, FirstMatch(xs, host, port), h, p);
      CountErase(xs, FirstMatch(xs, host, port), host, port);
    } else {
      CountNone(xs, host, port);
    }
  }

  lemma {:induction false} CountSame(xs: seq<Instance>, ys: seq<Instance>, host: string, port: int)
    requires |xs| == |ys| && forall k :: 0 <= k < |xs| ==> xs[k].host == ys[k].host && xs[k].port == ys[k].port
    ensures CountEndpoint(xs, host, port) == CountEndpoint(ys, host, port)
  {
    if xs != [] {
      CountSame(xs[..|xs| - 1], ys[..|ys| - 1], host, port);
    }
  }

  lemma SetHealthCounts(b: Balancer, service: string, host: string, port: int, healthy: bool, s: string, h: string, p: int)
    ensures CountEndpoint(InstancesOf(SetHealth(b, service, host, port, healthy), s), h, p)
         == CountEndpoint(InstancesOf(b, s), h, p)
  {
    SetHealthEffect(b, service, host, port, healthy);
    CountSame(InstancesOf(b, s), InstancesOf(SetHealth(b, service, host, port, healthy), s), h, p);
  }

  // ---- Round robin -------------------------------------------------------------------------------

  /** The next selection: the new tables and the position picked. */
  function NextRoundRobin(b: Balancer, service: string): (Balancer, Option<nat>) {
    var ps := Healthy(InstancesOf(b, service));
    if ps == [] then (b, None)
    else
      var next := (IndexOf(b, service) + 1) % |ps|;
      (b.(indices := b.indices[service := next]), Some(ps[next]))
  }

  /** The tables after m selections in a row. */
  function AfterSelections(b: Balancer, service: string, m: nat): Balancer {
    if m == 0 then b else NextRoundRobin(AfterSelections(b, service, m - 1), service).0
  }

  /** The position the i-th selection picks, counting from 1. */
  function SelectionAt(b: Balancer, service: string, i: nat): Option<nat>
    requires i >= 1
  {
    NextRoundRobin(AfterSelections(b, service, i - 1), service).1
  }

  /** How many of the first m selections pick position p. */
  function TimesSelected(b: Balancer, service: string, m: nat, p: nat): nat {
    if m == 0 then 0
    else TimesSelected(b, service, m - 1, p) + if SelectionAt(b, service, m) == Some(p) then 1 else 0
  }

  lemma {:induction false} SelectionsKeepInstances(b: Balancer, service: string, m: nat)
    ensures AfterSelections(b, service, m).instances == b.instances
  {
    if m > 0 {
      SelectionsKeepInstances(b, service, m - 1);
    }
  }

  lemma NextIndex(b: Balancer, service: string, n: nat)
    requires n == |Healthy(InstancesOf(b, service))| && n > 0
    ensures IndexOf(NextRoundRobin(b, service).0, service) == (IndexOf(b, service) + 1) % n
  {
  }

  lemma {:induction false} SelectionIndex(b: Balancer, service: string, m: nat, n: nat)
    requires m >= 1 && n == |Healthy(InstancesOf(b, service))| && n > 0
    ensures IndexOf(AfterSelections(b, service, m), service) == (IndexOf(b, service) + m) % n
  {
    hide NextRoundRobin, Healthy, IndexOf;
    var before := AfterSelections(b, service, m - 1);
    SelectionsKeepInstances(b, service, m - 1);
    NextIndex(before, service, n);
    assert IndexOf(AfterSelections(b, service, m), service) == (IndexOf(before, service) + 1) % n;
    if m > 1 {
      SelectionIndex(b, service, m - 1, n);
      RemainderNext(IndexOf(b, service) + m - 1, IndexOf(before, service), IndexOf(b, service) + m, n);
    } else {
      assert before == b;
    }
  }

  lemma NextPick(b: Balancer, service: string)
    ensures var ps := Healthy(InstancesOf(b, service));
            NextRoundRobin(b, service).1 == if ps == [] then None else Some(ps[(IndexOf(b, service) + 1) % |ps|])
  {
    hide Healthy;
  }

  /** Whatever index was stored, the i-th selection takes the (index + i)-th healthy instance, cyclically. */
  lemma RoundRobinOrder(b: Balancer, service: string, i: nat)
    requires i >= 1
    ensures var ps := Healthy(InstancesOf(b, service));
            SelectionAt(b, service, i) == (if ps == [] then None else Some(ps[(IndexOf(b, service) + i) % |ps|]))
  {
    hide NextRoundRobin, Healthy, IndexOf;
    var before, ps := AfterSelections(b, service, i - 1), Healthy(InstancesOf(b, service));
    SelectionsKeepInstances(b, service, i - 1);
    NextPick(before, service);
    if ps != [] {
      SelectionIndex(b, service, i, |ps|);
      NextIndex(before, service, |ps|);
    }
  }

  /** The first selection, counting from 1, that reaches the h-th of n healthy instances from index c. */
  function FirstTurn(c: nat, n: nat, h: nat): (i: nat)
    requires h < n
    ensures 1 <= i <= n
  {
    (h - c - 1) % n + 1
  }

  /** The selections that reach it are exactly every n-th one from there. */
  lemma TurnsOf(c: nat, n: nat, h: nat, i: nat)
    requires h < n
    ensures (c + i) % n == h <==> (i - FirstTurn(c, n, h) + n) % n == 0
  {
    var t := FirstTurn(c, n, h);
    RemainderSmall(h, n);
    RemainderInside(h - c - 1, c + 1, n);
    assert (c + t) % n == h % n;
    Congruent(c + i, c + t, n);
    RemainderShift(i - t, n);
  }

  lemma SelectedWhen(b: Balancer, service: string, m: nat, h: nat, n: nat)
    requires m >= 1 && h < n == |Healthy(InstancesOf(b, service))|
    ensures (SelectionAt(b, service, m) == Some(Healthy(InstancesOf(b, service))[h])) == ((IndexOf(b, service) + m) % n == h)
  {
    RoundRobinOrder(b, service, m);
    HealthyExactly(InstancesOf(b, service));
  }

  lemma TurnsStep(c: nat, n: nat, h: nat, m: nat)
    requires h < n && m >= 1
    ensures var t := FirstTurn(c, n, h);
            (m - t + n) / n == (m - 1 - t + n) / n + if (c + m) % n == h then 1 else 0
  {
    TurnsOf(c, n, h, m);
    QuotientStep(m - 1 - FirstTurn(c, n, h) + n, n);
  }

  lemma {:induction false} CountTurns(b: Balancer, service: string, m: nat, p: nat, c: nat, h: nat, n: nat)
    requires h < n
    requires forall i: nat :: 1 <= i <= m ==> (SelectionAt(b, service, i) == Some(p)) == ((c + i) % n == h)
    ensures TimesSelected(b, service, m, p) == (m - FirstTurn(c, n, h) + n) / n
  {
    var t := FirstTurn(c, n, h);
    if m == 0 {
      RemainderSmall(n - t, n);
    } else {
      CountTurns(b, service, m - 1, p, c, h, n);
      assert (SelectionAt(b, service, m) == Some(p)) == ((c + m) % n == h);
      TurnsStep(c, n, h, m);
    }
  }

  lemma TurnsAreEven(m: nat, t: nat, n: nat)
    requires 1 <= t <= n
    ensures m / n <= (m - t + n) / n <= (m + n - 1) / n
  {
    QuotientMonotone(m, m - t + n, n);
    QuotientMonotone(m - t + n, m + n - 1, n);
  }

  /** Fairness: over m selections every healthy instance is picked floor(m / n) or ceil(m / n) times. */
  lemma RoundRobinIsFair(b: Balancer, service: string, m: nat, p: nat)
    requires p in Healthy(InstancesOf(b, service))
    ensures var n := |Healthy(InstancesOf(b, service))|;
            m / n <= TimesSelected(b, service, m, p) <= (m + n - 1) / n
  {
    hide Healthy, InstancesOf, IndexOf, SelectionAt, TimesSelected, FirstTurn;
    var n, c := |Healthy(InstancesOf(b, service))|, IndexOf(b, service);
    var h: nat :| h < n && Healthy(InstancesOf(b, service))[h] == p;
    forall i: nat | 1 <= i <= m ensures (SelectionAt(b, service, i) == Some(p)) == ((c + i) % n == h) {
      SelectedWhen(b, service, i, h, n);
    }
    CountTurns(b, service, m, p, c, h, n);
    TurnsAreEven(m, FirstTurn(c, n, h), n);
  }

  // ---- Weighted selection --------------------------------------------------------------------------

  function Sum(ws: seq<int>): int {
    if ws == [] then 0 else Sum(ws[..|ws| - 1]) + ws[|ws| - 1]
  }

  predicate NonNegative(ws: seq<int>) {
    forall i :: 0 <= i < |ws| ==> ws[i] >= 0
  }

  /** The first position, from k on, whose running total reaches the draw; the last one if none does. */
  function Pick(ws: seq<int>, draw: int, k: nat): (i: nat)
    requires k < |ws|
    ensures k <= i < |ws|
    decreases |ws| - k
  {
    if draw <= Sum(ws[..k + 1]) || k == |ws| - 1 then k else Pick(ws, draw, k + 1)
  }

  lemma {:induction false} PickIsFirst(ws: seq<int>, draw: int, k: nat)
    requires k < |ws|
    ensures forall j :: k < j <= Pick(ws, draw, k) ==> Sum(ws[..j]) < draw
    ensures draw <= Sum(ws[..Pick(ws, draw, k) + 1]) || Pick(ws, draw, k) == |ws| - 1
    decreases |ws| - k
  {
    if !(draw <= Sum(ws[..k + 1]) || k == |ws| - 1) {
      PickIsFirst(ws, draw, k + 1);
    }
  }

  /** A draw up to the total is always reached inside the loop, whatever the weights. */
  lemma FallbackUnreachable(ws: seq<int>, draw: int)
    requires ws != [] && draw <= Sum(ws)
    ensures draw <= Sum(ws[..Pick(ws, draw, 0) + 1])
  {
    PickIsFirst(ws, draw, 0);
    assert ws[..|ws|] == ws;
  }

  /** The largest running total of the first n weights, at least 0. */
  function RunMax(ws: seq<int>, n: nat): (r: int)
    requires n <= |ws|
    ensures r >= 0
  {
    if n == 0 then 0 else Max(RunMax(ws, n - 1), Sum(ws[..n]))
  }

  lemma {:induction false} RunMaxMonotone(ws: seq<int>, i: nat, j: nat)
    requires i <= j <= |ws|
    ensures RunMax(ws, i) <= RunMax(ws, j)
    decreases j
  {
    if i < j {
      RunMaxMonotone(ws, i, j - 1);
    }
  }

  lemma {:induction false} RunMaxBelow(ws: seq<int>, n: nat, draw: int)
    requires n <= |ws| && draw >= 1 && forall j :: 0 < j <= n ==> Sum(ws[..j]) < draw
    ensures RunMax(ws, n) < draw
  {
    if n > 0 {
      RunMaxBelow(ws, n - 1, draw);
    }
  }

  /**
    Selection inverts the running totals, whatever the signs of the weights: position i owns exactly the
    draws above the largest running total before it, up to the largest with it.
  */
  lemma PickInvertsSums(ws: seq<int>, draw: int, i: nat)
    requires i < |ws| && 1 <= draw <= Sum(ws)
    ensures Pick(ws, draw, 0) == i <==> RunMax(ws, i) < draw <= RunMax(ws, i + 1)
  {
    var k := Pick(ws, draw, 0);
    FallbackUnreachable(ws, draw);
    PickIsFirst(ws, draw, 0);
    RunMaxBelow(ws, k, draw);
    if i < k {
      RunMaxMonotone(ws, i + 1, k);
    } else if k < i {
      RunMaxMonotone(ws, k + 1, i);
    }
  }

  ghost function DrawsFor(ws: seq<int>, i: nat): set<int>
    requires i < |ws|
  {
    set draw | 1 <= draw <= Sum(ws) && Pick(ws, draw, 0) == i
  }

  ghost function Interval(lo: int, hi: int): (s: set<int>)
    requires lo <= hi
    ensures forall x :: x in s <==> lo < x <= hi
    ensures |s| == hi - lo
    decreases hi - lo
  {
    if lo == hi then {} else Interval(lo, hi - 1) + {hi}
  }

  /** How many of the draws 1..total select instance i: what it adds to the largest running total, below the total. */
  lemma DrawCount(ws: seq<int>, i: nat)
    requires i < |ws|
    ensures var total := Max(0, Sum(ws));
            |DrawsFor(ws, i)| == Min(RunMax(ws, i + 1), total) - Min(RunMax(ws, i), total)
  {
    var total := Max(0, Sum(ws));
    var lo, hi := Min(RunMax(ws, i), total), Min(RunMax(ws, i + 1), total);
    RunMaxMonotone(ws, i, i + 1);
    forall draw: int ensures draw in DrawsFor(ws, i) <==> lo < draw <= hi {
      if 1 <= draw <= Sum(ws) {
        PickInvertsSums(ws, draw, i);
      }
    }
    assert DrawsFor(ws, i) == Interval(lo, hi);
  }

  /**
    An instance gets exactly as many of the draws as its weight if and only if the weight is 0, or it is
    positive and no negative weight takes from it: the running total before it is the largest so far, and
    the one with it does not exceed the total.
  */
  lemma WeightIsHonouredIff(ws: seq<int>, i: nat)
    requires i < |ws|
    ensures |DrawsFor(ws, i)| == ws[i]
      <==> ws[i] == 0 || (ws[i] > 0 && Sum(ws[..i]) == RunMax(ws, i) && Sum(ws[..i + 1]) <= Sum(ws))
  {
    DrawCount(ws, i);
    assert ws[..i + 1][..i] == ws[..i] && ws[..0] == [];
    assert Sum(ws[..i]) <= RunMax(ws, i);
  }

  lemma {:induction false} RunMaxIsSum(ws: seq<int>, n: nat)
    requires NonNegative(ws) && n <= |ws|
    ensures RunMax(ws, n) == Sum(ws[..n])
  {
    if n > 0 {
      RunMaxIsSum(ws, n - 1);
      assert ws[..n][..n - 1] == ws[..n - 1];
    } else {
      assert ws[..n] == [];
    }
  }

  /** So every instance gets as many draws as its weight if and only if no weight is negative. */
  lemma WeightsAreHonouredIff(ws: seq<int>)
    ensures (forall i :: 0 <= i < |ws| ==> |DrawsFor(ws, i)| == ws[i]) <==> NonNegative(ws)
  {
    forall i | 0 <= i < |ws| ensures ws[i] < 0 ==> |DrawsFor(ws, i)| != ws[i] {
      WeightIsHonouredIff(ws, i);
    }
    if NonNegative(ws) {
      forall i | 0 <= i < |ws| ensures |DrawsFor(ws, i)| == ws[i] {
        WeightIsHonouredIff(ws, i);
        RunMaxIsSum(ws, i);
        RunMaxIsSum(ws, i + 1);
        RunMaxMonotone(ws, i + 1, |ws|);
        RunMaxIsSum(ws, |ws|);
        assert ws[..|ws|] == ws;
      }
    }
  }

  /** The weights of the healthy instances, in order. */
  function HealthyWeights(xs: seq<Instance>): (ws: seq<int>)
    ensures |ws| == |Healthy(xs)|
    ensures forall i :: 0 <= i < |ws| ==> ws[i] == xs[Healthy(xs)[i]].weight
  {
    seq(|Healthy(xs)|, i requires 0 <= i < |Healthy(xs)| => xs[Healthy(xs)[i]].weight)
  }

  function WeightedPick(xs: seq<Instance>, draw: int): Option<nat> {
    if Healthy(xs) == [] then None else Some(Healthy(xs)[Pick(HealthyWeights(xs), draw, 0)])
  }

  /** The draws 1..total under which the balancer returns the healthy instance at position p. */
  ghost function DrawsSelecting(xs: seq<Instance>, p: nat): set<int> {
    set draw | 1 <= draw <= Sum(HealthyWeights(xs)) && WeightedPick(xs, draw) == Some(p)
  }

  /** The draw counts are about the instances themselves: where no healthy weight is negative, p gets its weight. */
  lemma WeightedSelectionCounts(xs: seq<Instance>, p: nat)
    requires p < |xs| && xs[p].healthy
    ensures var ws := HealthyWeights(xs);
            exists i :: 0 <= i < |ws| && Healthy(xs)[i] == p && ws[i] == xs[p].weight && DrawsSelecting(xs, p) == DrawsFor(ws, i)
    ensures (forall q :: q in Healthy(xs) ==> xs[q].weight >= 0) ==> |DrawsSelecting(xs, p)| == xs[p].weight
  {
    var ws := HealthyWeights(xs);
    HealthyExactly(xs);
    assert p in Healthy(xs);
    var i: nat :| i < |Healthy(xs)| && Healthy(xs)[i] == p;
    hide Healthy, Pick, Sum;
    forall draw: int ensures draw in DrawsSelecting(xs, p) <==> draw in DrawsFor(ws, i) {
    }
    assert DrawsSelecting(xs, p) == DrawsFor(ws, i);
    if forall q :: q in Healthy(xs) ==> xs[q].weight >= 0 {
      WeightsAreHonouredIff(ws);
    }
  }

  /** The least-connections draw is a position among the healthy instances; a weighted draw may be any number. */
  predicate DrawAllowed(xs: seq<Instance>, algorithm: string, draw: int) {
    Healthy(xs) != [] && algorithm == "least_connections" ==> 0 <= draw < |Healthy(xs)|
  }

  function NextHealthy(b: Balancer, service: string, algorithm: string, draw: int): (Balancer, Option<nat>)
    requires DrawAllowed(InstancesOf(b, service), algorithm, draw)
  {
    var xs := InstancesOf(b, service);
    if algorithm == "weighted_round_robin" then (b, WeightedPick(xs, draw))
    else if algorithm == "least_connections" then
      (b, if Healthy(xs) == [] then None else Some(Healthy(xs)[draw]))
    else NextRoundRobin(b, service)
  }

  /** Every algorithm returns a healthy instance, and nothing exactly when none is healthy. */
  lemma SelectionIsHealthy(b: Balancer, service: string, algorithm: string, draw: int)
    requires DrawAllowed(InstancesOf(b, service), algorithm, draw)
    ensures var xs, pick := InstancesOf(b, service), NextHealthy(b, service, algorithm, draw).1;
            && (pick == None <==> forall k :: 0 <= k < |xs| ==> !xs[k].healthy)
            && (pick != None ==> pick.value < |xs| && xs[pick.value].healthy)
  {
    HealthyExactly(InstancesOf(b, service));
    var xs := InstancesOf(b, service);
    if Healthy(xs) != [] {
      assert Healthy(xs)[0] in Healthy(xs);
    }
  }

  /**
    Which algorithm a name means. "least_connections" gives each healthy instance exactly one of the
    draws; a name other than the two is round robin; only round robin changes an index.
  */
  lemma AlgorithmByName(b: Balancer, service: string, algorithm: string, draw: int)
    requires DrawAllowed(InstancesOf(b, service), algorithm, draw)
    ensures var (after, pick) := NextHealthy(b, service, algorithm, draw);
            && (algorithm == "weighted_round_robin" || algorithm == "least_connections" ==> after == b)
            && (algorithm == "weighted_round_robin" ==> pick == WeightedPick(InstancesOf(b, service), draw))
            && (algorithm == "least_connections" && pick != None ==>
                  0 <= draw < |Healthy(InstancesOf(b, service))| && Healthy(InstancesOf(b, service))[draw] == pick.value)
            && (algorithm != "weighted_round_robin" && algorithm != "least_connections" ==>
                  (after, pick) == NextRoundRobin(b, service))
  {
    assert |"weighted_round_robin"| == 20 && |"least_connections"| == 17;
  }
}

/** The balancer as the source keeps it: shared instance objects whose health flag changes in place. */
module LoadBalancer {
  import opened Wrappers
  import opened Selection

  class ServiceInstance {
    const serviceName: string
    const host: string
    const port: int
    const weight: int
    var isHealthy: bool

    constructor (serviceName: string, host: string, port: int, weight: int)
      ensures this.serviceName == serviceName && View() == Instance(host, port, weight, true)
    {
      this.serviceName, this.host, this.port, this.weight, this.isHealthy := serviceName, host, port, weight, true;
    }

    ghost function View(): Instance
      reads this
    {
      Instance(host, port, weight, isHealthy)
    }
  }

  /** The objects of a list, read as values. */
  ghost predicate Shows(xs: seq<ServiceInstance>, vs: seq<Instance>)
    reads xs
  {
    |xs| == |vs| && forall i :: 0 <= i < |xs| ==> xs[i].View() == vs[i]
  }

  /** A list of distinct instance objects of one service, all owned by the balancer. */
  ghost predicate ValidList(service: string, xs: seq<ServiceInstance>, repr: set<ServiceInstance>) {
    && (forall i :: 0 <= i < |xs| ==> xs[i] in repr && xs[i].serviceName == service)
    && (forall i, j :: 0 <= i < j < |xs| ==> xs[i] != xs[j])
  }

  lemma EraseAt<T>(xs: seq<T>, k: nat)
    requires k < |xs|
    ensures |Erase(xs, k)| == |xs| - 1
    ensures forall i :: 0 <= i < |xs| - 1 ==> Erase(xs, k)[i] == xs[if i < k then i else i + 1]
  {
  }

  lemma EraseKeepsList(service: string, xs: seq<ServiceInstance>, repr: set<ServiceInstance>, vs: seq<Instance>, k: nat)
    requires ValidList(service, xs, repr) && Shows(xs, vs)
    ensures ValidList(service, Erase(xs, k), repr) && Shows(Erase(xs, k), Erase(vs, k))
  {
    if k < |xs| {
      EraseAt(xs, k);
      EraseAt(vs, k);
      hide Erase;
      var ys := Erase(xs, k);
      forall i, j | 0 <= i < j < |ys| ensures ys[i] != ys[j] {
        assert ys[i] == xs[if i < k then i else i + 1] && ys[j] == xs[if j < k then j else j + 1];
      }
    }
  }

  lemma OtherListsMiss(service: string, xs: seq<ServiceInstance>, repr: set<ServiceInstance>, x: ServiceInstance)
    requires ValidList(service, xs, repr) && x.serviceName != service
    ensures x !in xs
  {
  }

  lemma AppendKeepsList(service: string, xs: seq<ServiceInstance>, repr: set<ServiceInstance>, vs: seq<Instance>, x: ServiceInstance)
    requires ValidList(service, xs, repr) && Shows(xs, vs) && x !in repr && x.serviceName == service
    ensures ValidList(service, xs + [x], repr + {x}) && Shows(xs + [x], vs + [x.View()])
  {
  }

  class LoadBalancer {
    var serviceInstances: map<string, seq<ServiceInstance>>
    var currentIndices: map<string, nat>
    ghost var repr: set<ServiceInstance>
    ghost var state: Balancer // the tables as values

    ghost predicate Valid()
      reads this, repr
    {
      && state.indices == currentIndices
      && state.instances.Keys == serviceInstances.Keys
      && (forall s :: s in serviceInstances ==> ValidList(s, serviceInstances[s], repr))
      && (forall s :: s in serviceInstances ==> Shows(serviceInstances[s], state.instances[s]))
    }

    constructor ()
      ensures Valid() && repr == {} && state == Balancer(map[], map[])
    {
      serviceInstances, currentIndices, repr, state := map[], map[], {}, Balancer(map[], map[]);
    }

    method AddServiceInstance(serviceName: string, host: string, port: int, weight: int)
      requires Valid()
      modifies this
      ensures Valid() && fresh(repr - old(repr))
      ensures state == AddInstance(old(state), serviceName, host, port, weight)
    {
      var instance := new ServiceInstance(serviceName, host, port, weight);
      var before := if serviceName in serviceInstances then serviceInstances[serviceName] else [];
      AppendKeepsList(serviceName, before, repr, InstancesOf(state, serviceName), instance);
      state := AddInstance(state, serviceName, host, port, weight);
      repr := repr + {instance};
      serviceInstances := serviceInstances[serviceName := before + [instance]];
      currentIndices := currentIndices[serviceName := 0];
    }

    /** The position of the first instance with this endpoint, or the length. */
    method FindInstance(instances: seq<ServiceInstance>, host: string, port: int, ghost vs: seq<Instance>) returns (k: nat)
      requires Shows(instances, vs)
      ensures k == FirstMatch(vs, host, port)
    {
      k := 0;
      while k < |instances| && !(instances[k].host == host && instances[k].port == port)
        invariant 0 <= k <= |instances|
        invariant forall j :: 0 <= j < k ==> vs[j].host != host || vs[j].port != port
      {
        k := k + 1;
      }
      FirstMatchUnique(vs, host, port, k);
    }

    method RemoveServiceInstance(serviceName: string, host: string, port: int)
      requires Valid()
      modifies this
      ensures Valid() && repr == old(repr)
      ensures state == RemoveInstance(old(state), serviceName, host, port)
    {
      var instances := if serviceName in serviceInstances then serviceInstances[serviceName] else [];
      var k := FindInstance(instances, host, port, InstancesOf(state, serviceName));
      EraseKeepsList(serviceName, instances, repr, InstancesOf(state, serviceName), k);
      state := RemoveInstance(state, serviceName, host, port);
      serviceInstances := serviceInstances[serviceName := Erase(instances, k)];
    }

    method UpdateHealthStatus(serviceName: string, host: string, port: int, isHealthy: bool)
      requires Valid()
      modifies this`state, repr
      ensures Valid()
      ensures state == SetHealth(old(state), serviceName, host, port, isHealthy)
    {
      if serviceName !in serviceInstances {
        return;
      }
      var instances := serviceInstances[serviceName];
      var k := FindInstance(instances, host, port, state.instances[serviceName]);
      ghost var vs := state.instances[serviceName];
      assert ValidList(serviceName, instances, repr);
      forall s | s in serviceInstances && s != serviceName && k < |instances| ensures instances[k] !in serviceInstances[s] {
        OtherListsMiss(s, serviceInstances[s], repr, instances[k]);
      }
      state := SetHealth(state, serviceName, host, port, isHealthy);
      if k < |instances| {
        instances[k].isHealthy := isHealthy;
        assert Shows(instances, vs[k := vs[k].(healthy := isHealthy)]);
        forall s | s in serviceInstances && s != serviceName ensures Shows(serviceInstances[s], state.instances[s]) {
          assert instances[k] !in serviceInstances[s];
        }
      }
    }

    method GetServiceInstances(serviceName: string) returns (instances: seq<ServiceInstance>)
      requires Valid()
      ensures Shows(instances, InstancesOf(state, serviceName))
    {
      if serviceName !in serviceInstances {
        return [];
      }
      return serviceInstances[serviceName];
    }

    method FilterHealthy(instances: seq<ServiceInstance>, ghost vs: seq<Instance>) returns (healthy: seq<ServiceInstance>)
      requires Shows(instances, vs)
      ensures |healthy| == |Healthy(vs)| && forall i :: 0 <= i < |healthy| ==> healthy[i] == instances[Healthy(vs)[i]]
    {
      healthy := [];
      for n := 0 to |instances|
        invariant |healthy| == |Healthy(vs[..n])|
        invariant forall i :: 0 <= i < |healthy| ==> healthy[i] == instances[Healthy(vs[..n])[i]]
      {
        assert vs[..n + 1][..n] == vs[..n];
        if instances[n].isHealthy {
          healthy := healthy + [instances[n]];
        }
      }
      assert vs[..|instances|] == vs;
    }

    method GetNextInstanceRoundRobin(serviceName: string) returns (r: ServiceInstance?)
      requires Valid() && serviceName in serviceInstances
      modifies this`currentIndices, this`state
      ensures Valid() && state == NextRoundRobin(old(state), serviceName).0
      ensures var pick := NextRoundRobin(old(state), serviceName).1;
              r == if pick == None then null else serviceInstances[serviceName][pick.value]
    {
      ghost var vs := state.instances[serviceName];
      var healthy := FilterHealthy(serviceInstances[serviceName], vs);
      if |healthy| == 0 {
        return null;
      }
      assert ValidList(serviceName, serviceInstances[serviceName], repr);
      var name := healthy[0].serviceName;
      var index := if name in currentIndices then currentIndices[name] else 0;
      assert name == serviceName && index == IndexOf(state, serviceName);
      hide Healthy;
      index := (index + 1) % |healthy|;
      currentIndices := currentIndices[name := index];
      state := state.(indices := currentIndices);
      r := healthy[index];
    }

    /** `draw` is the random number; one above the total, which 1..total leaves out, would give the last instance. */
    method GetNextInstanceWeighted(instances: seq<ServiceInstance>, draw: int, ghost vs: seq<Instance>)
      returns (r: ServiceInstance?)
      requires Shows(instances, vs)
      ensures var pick := WeightedPick(vs, draw);
              r == if pick == None then null else instances[pick.value]
    {
      var healthy := FilterHealthy(instances, vs);
      if |healthy| == 0 {
        return null;
      }
      ghost var ws := HealthyWeights(vs);
      var currentWeight := 0;
      for i := 0 to |healthy|
        invariant currentWeight == Sum(ws[..i])
        invariant i < |healthy| ==> Pick(ws, draw, 0) == Pick(ws, draw, i)
        invariant i == |healthy| ==> Pick(ws, draw, 0) == i - 1
      {
        currentWeight := currentWeight + healthy[i].weight;
        assert ws[..i + 1][..i] == ws[..i] && ws[..|ws|] == ws;
        if draw <= currentWeight {
          return healthy[i];
        }
      }
      return healthy[|healthy| - 1];
    }

    /**
      Any other algorithm name means round robin. `draw` is used by the two random algorithms; for
      "least_connections" it is the uniformly drawn position among the healthy instances.
    */
    method GetNextHealthyInstance(serviceName: string, algorithm: string, draw: int) returns (r: ServiceInstance?)
      requires Valid() && DrawAllowed(InstancesOf(state, serviceName), algorithm, draw)
      modifies this`currentIndices, this`state
      ensures Valid()
      ensures var (after, pick) := NextHealthy(old(state), serviceName, algorithm, draw);
              && state == after
              && (pick == None ==> r == null)
              && (pick != None ==> r == serviceInstances[serviceName][pick.value])
              && (pick != None ==> r in repr && r.View() == InstancesOf(state, serviceName)[pick.value])
    {
      SelectionIsHealthy(state, serviceName, algorithm, draw);
      if serviceName !in serviceInstances || |serviceInstances[serviceName]| == 0 {
        return null;
      }
      ghost var vs := state.instances[serviceName];
      assert ValidList(serviceName, serviceInstances[serviceName], repr);
      if algorithm == "weighted_round_robin" {
        r := GetNextInstanceWeighted(serviceInstances[serviceName], draw, vs);
      } else if algorithm == "least_connections" {
        var healthy := FilterHealthy(serviceInstances[serviceName], vs);
        if |healthy| == 0 {
          return null;
        }
        r := healthy[draw];
      } else {
        r := GetNextInstanceRoundRobin(serviceName);
      }
    }
  }
}
