/**
  The pool of Redis connections. The source guards it with two different mutexes; what is modelled is
  the intended meaning, each operation as one atomic step. A context is the number of the connect call
  that made it. `isOut` and `freed` are the history of what was handed out and what was freed.
*/
module RedisPool {
  import opened Wrappers

  type Context = nat

  /** What a connect call gives: no context, a context in error, or a connection. */
  datatype Connect = NoContext | InError | Connected

  datatype Pool = Pool(pool: seq<Context>, out: set<Context>, freed: seq<Context>, created: nat,
                       poolSize: int, initialized: bool)

  /** The conversion of an int to size_t. */
  function SizeT(n: int): nat {
    n % 0x1_0000_0000_0000_0000
  }

  /** A context in error is freed on the spot. */
  function Create(p: Pool, c: Connect): (Pool, Option<Context>) {
    match c
    case NoContext => (p, None)
    case InError => (p.(created := p.created + 1, freed := p.freed + [p.created]), None)
    case Connected => (p.(created := p.created + 1), Some(p.created))
  }

  function DisconnectPool(p: Pool): Pool {
    p.(pool := [], freed := p.freed + p.pool, initialized := false)
  }

  /** Up to |cs| connections; the first failure frees everything pooled. */
  function Fill(p: Pool, cs: seq<Connect>): (Pool, bool) {
    if cs == [] then (p, true)
    else
      var (filled, ok) := Fill(p, cs[..|cs| - 1]);
      if !ok then (filled, false)
      else
        var (after, ctx) := Create(filled, cs[|cs| - 1]);
        if ctx == None then (DisconnectPool(after), false) else (after.(pool := after.pool + [ctx.value]), true)
  }

  function InitializePool(p: Pool, poolSize: int, cs: seq<Connect>): (Pool, bool)
    requires |cs| == if poolSize < 0 then 0 else poolSize
  {
    if p.initialized then (p, true)
    else
      var (filled, ok) := Fill(p.(poolSize := poolSize), cs);
      (if ok then filled.(initialized := true) else filled, ok)
  }

  function CheckOut(p: Pool, ctx: Option<Context>): Pool {
    if ctx == None then p else p.(out := p.out + {ctx.value})
  }

  /** From the back of the pool if it still answers, otherwise a new connection; null if that fails. */
  function TakeConnection(p: Pool, alive: bool, c: Connect): (Pool, Option<Context>) {
    if p.pool == [] then
      var (after, ctx) := Create(p, c);
      (CheckOut(after, ctx), ctx)
    else
      var last := p.pool[|p.pool| - 1];
      var popped := p.(pool := p.pool[..|p.pool| - 1]);
      if alive then (CheckOut(popped, Some(last)), Some(last))
      else
        var (after, ctx) := Create(popped.(freed := p.freed + [last]), c);
        (CheckOut(after, ctx), ctx)
  }

  function PutConnection(p: Pool, ctx: Option<Context>): Pool {
    if ctx == None then p
    else if |p.pool| >= SizeT(p.poolSize) then p.(out := p.out - {ctx.value}, freed := p.freed + [ctx.value])
    else p.(out := p.out - {ctx.value}, pool := p.pool + [ctx.value])
  }

  class RedisManager {
    var connectionPool: seq<Context>
    var poolSize: int
    var initialized: bool
    var created: nat // connect calls that gave a context
    ghost var isOut: set<Context>
    ghost var freed: seq<Context>

    ghost function State(): Pool
      reads this
    {
      Pool(connectionPool, isOut, freed, created, poolSize, initialized)
    }

    /** The source leaves `poolSize_` unset. */
    constructor (poolSize: int)
      ensures State() == Pool([], {}, [], 0, poolSize, false)
    {
      connectionPool, this.poolSize, initialized, created, isOut, freed := [], poolSize, false, 0, {}, [];
    }

    ghost method Free(ctx: Context)
      modifies this`freed
      ensures freed == old(freed) + [ctx]
    {
      freed := freed + [ctx];
    }

    method CreateConnection(c: Connect) returns (ctx: Option<Context>)
      modifies this`created, this`freed
      ensures (State(), ctx) == Create(old(State()), c)
    {
      if c == NoContext {
        return None;
      }
      var made := created;
      created := created + 1;
      if c == InError {
        Free(made);
        return None;
      }
      return Some(made);
    }

    method Disconnect()
      modifies this
      ensures State() == DisconnectPool(old(State()))
    {
      for i := 0 to |connectionPool|
        invariant State() == old(State()).(freed := old(freed) + connectionPool[..i])
      {
        Free(connectionPool[i]);
      }
      assert connectionPool[..|connectionPool|] == connectionPool;
      connectionPool := [];
      initialized := false;
    }

    method Initialize(poolSize: int, cs: seq<Connect>) returns (ok: bool)
      requires |cs| == if poolSize < 0 then 0 else poolSize
      modifies this
      ensures (State(), ok) == InitializePool(old(State()), poolSize, cs)
      ensures ok == initialized && (old(initialized) ==> State() == old(State()))
    {
      if initialized {
        return true;
      }
      this.poolSize := poolSize;
      ghost var start := State();
      for i := 0 to |cs|
        invariant (State(), true) == Fill(start, cs[..i])
      {
        assert cs[..i + 1][..i] == cs[..i];
        var ctx := CreateConnection(cs[i]);
        if ctx.Some? {
          connectionPool := connectionPool + [ctx.value];
        } else {
          Disconnect();
          FillStaysFailed(start, cs, i + 1);
          return false;
        }
      }
      assert cs[..|cs|] == cs;
      initialized := true;
      return true;
    }

    method GetConnection(alive: bool, c: Connect) returns (ctx: Option<Context>)
      modifies this
      ensures (State(), ctx) == TakeConnection(old(State()), alive, c)
    {
      if |connectionPool| == 0 {
        ctx := CreateConnection(c);
        isOut := CheckOut(State(), ctx).out;
        return;
      }
      var last := connectionPool[|connectionPool| - 1];
      connectionPool := connectionPool[..|connectionPool| - 1];
      ctx := Some(last);
      if !alive {
        Free(last);
        ctx := CreateConnection(c);
      }
      isOut := CheckOut(State(), ctx).out;
    }

    method ReturnConnection(ctx: Option<Context>)
      modifies this
      ensures State() == PutConnection(old(State()), ctx)
    {
      if ctx == None {
        return;
      }
      isOut := isOut - {ctx.value};
      if |connectionPool| >= SizeT(poolSize) {
        Free(ctx.value);
        return;
      }
      connectionPool := connectionPool + [ctx.value];
    }
  }

  /** After one failed connection the rest of the loop is not run. */
  lemma {:induction false} FillStaysFailed(p: Pool, cs: seq<Connect>, n: nat)
    requires n <= |cs| && !Fill(p, cs[..n]).1
    ensures Fill(p, cs) == Fill(p, cs[..n])
    decreases |cs| - n
  {
    if n == |cs| {
      assert cs[..n] == cs;
    } else {
      assert cs[..n + 1][..n] == cs[..n];
      FillStaysFailed(p, cs, n + 1);
    }
  }

  // ---- What the operations are for -----------------------------------------------------------------

  ghost predicate AllConnect(cs: seq<Connect>) {
    forall i :: 0 <= i < |cs| ==> cs[i] == Connected
  }

  lemma {:induction false} FillEffect(p: Pool, cs: seq<Connect>)
    ensures var (after, ok) := Fill(p, cs);
            && (ok <==> AllConnect(cs))
            && (ok ==> |after.pool| == |p.pool| + |cs| && after.created == p.created + |cs| && after.freed == p.freed)
            && (ok ==> after.pool[..|p.pool|] == p.pool && forall i :: |p.pool| <= i < |after.pool| ==> after.pool[i] >= p.created)
            && (!ok ==> after.pool == [] && !after.initialized && forall c :: c in p.pool ==> c in after.freed)
            && (forall c :: c in p.freed ==> c in after.freed)
            && (ok ==> after.initialized == p.initialized)
            && after.out == p.out && after.poolSize == p.poolSize && p.created <= after.created
  {
    if cs != [] {
      FillEffect(p, cs[..|cs| - 1]);
    }
  }

  /**
    An effective initialization succeeds exactly if every connection does. Then the pool has that many new
    connections and counts as initialized; otherwise nothing is pooled and what was pooled is freed.
  */
  lemma InitializeEffect(p: Pool, poolSize: int, cs: seq<Connect>)
    requires !p.initialized && |cs| == if poolSize < 0 then 0 else poolSize
    ensures var (after, ok) := InitializePool(p, poolSize, cs);
            && (ok <==> AllConnect(cs)) && (ok <==> after.initialized)
            && after.poolSize == poolSize && after.out == p.out
            && (ok ==> |after.pool| == |p.pool| + |cs| && after.pool[..|p.pool|] == p.pool && after.freed == p.freed)
            && (!ok ==> after.pool == [] && forall c :: c in p.pool ==> c in after.freed)
  {
    FillEffect(p.(poolSize := poolSize), cs);
  }

  /** Once an initialization has succeeded, every further one succeeds at once and changes nothing. */
  lemma InitializesOnce(p: Pool, poolSize: int, cs: seq<Connect>, again: int, cs': seq<Connect>)
    requires |cs| == if poolSize < 0 then 0 else poolSize
    requires |cs'| == if again < 0 then 0 else again
    requires InitializePool(p, poolSize, cs).1
    ensures InitializePool(InitializePool(p, poolSize, cs).0, again, cs') == (InitializePool(p, poolSize, cs).0, true)
  {
    if !p.initialized {
      InitializeEffect(p, poolSize, cs);
    }
  }

  /**
    What is handed out: the context last pooled if it answers, with nothing made or freed; otherwise that
    one is freed and a new one made, and there is none exactly if making it fails.
  */
  lemma TakeEffect(p: Pool, alive: bool, c: Connect)
    ensures var (after, ctx) := TakeConnection(p, alive, c);
            && (p.pool != [] && alive ==> ctx == Some(p.pool[|p.pool| - 1]) && after.created == p.created && after.freed == p.freed)
            && (p.pool != [] ==> after.pool == p.pool[..|p.pool| - 1])
            && (p.pool != [] && !alive ==> p.pool[|p.pool| - 1] in after.freed)
            && (p.pool == [] || !alive ==> (ctx != None <==> c == Connected))
            && ((p.pool == [] || !alive) && ctx != None ==> ctx.value == p.created && after.created == p.created + 1)
            && after.out == (if ctx == None then p.out else p.out + {ctx.value})
  {
  }

  /** A returned context is freed exactly if the pool is full; otherwise the next call that finds it alive gets it. */
  lemma ReturnThenTake(p: Pool, ctx: Context, c: Connect)
    ensures var after := PutConnection(p, Some(ctx));
            && ctx !in after.out
            && (|p.pool| >= SizeT(p.poolSize) ==> after.pool == p.pool && after.freed == p.freed + [ctx])
            && (|p.pool| < SizeT(p.poolSize) ==>
                  && after.freed == p.freed
                  && TakeConnection(after, true, c) == (p.(out := after.out + {ctx}), Some(ctx)))
  {
    assert (p.pool + [ctx])[..|p.pool|] == p.pool;
  }

  /** Disconnecting frees exactly what is pooled, and the next initialization starts afresh. */
  lemma DisconnectEffect(p: Pool)
    ensures var after := DisconnectPool(p);
            && after.pool == [] && after.out == p.out && after.created == p.created && !after.initialized
            && (forall c :: c in after.freed <==> c in p.freed || c in p.pool)
  {
  }

  // ---- Conservation --------------------------------------------------------------------------------

  ghost predicate NoDuplicates(xs: seq<Context>) {
    forall i, j :: 0 <= i < j < |xs| ==> xs[i] != xs[j]
  }

  /** Every created context is in exactly one of pool, handed out and freed; none is pooled or freed twice. */
  ghost predicate Partitioned(p: Pool) {
    && NoDuplicates(p.pool) && NoDuplicates(p.freed)
    && (forall c: Context :: c < p.created <==> c in p.pool || c in p.out || c in p.freed)
    && (forall c :: c in p.pool ==> c !in p.out && c !in p.freed)
    && (forall c :: c in p.out ==> c !in p.freed)
  }

  lemma AppendFresh(xs: seq<Context>, x: Context)
    requires NoDuplicates(xs) && x !in xs
    ensures NoDuplicates(xs + [x])
    ensures forall c :: c in xs + [x] <==> c in xs || c == x
  {
    assert forall i :: 0 <= i < |xs| ==> xs[i] in xs;
  }

  lemma CreateKeeps(p: Pool, c: Connect)
    requires Partitioned(p)
    ensures var (after, ctx) := Create(p, c);
            && (ctx == None ==> Partitioned(after))
            && (ctx != None ==> Partitioned(CheckOut(after, ctx)) && Partitioned(after.(pool := after.pool + [ctx.value])))
            && after.pool == p.pool && after.out == p.out && after.poolSize == p.poolSize && after.initialized == p.initialized
  {
    AppendFresh(p.freed, p.created);
    AppendFresh(p.pool, p.created);
  }

  lemma DisconnectKeeps(p: Pool)
    requires Partitioned(p)
    ensures Partitioned(DisconnectPool(p))
  {
    assert forall i :: 0 <= i < |p.freed| ==> p.freed[i] in p.freed;
    assert forall i :: 0 <= i < |p.pool| ==> p.pool[i] in p.pool;
    assert forall c :: c in p.freed + p.pool <==> c in p.freed || c in p.pool;
  }

  lemma {:induction false} FillKeeps(p: Pool, cs: seq<Connect>)
    requires Partitioned(p)
    ensures Partitioned(Fill(p, cs).0) && Fill(p, cs).0.poolSize == p.poolSize
    ensures Fill(p, cs).1 ==> |Fill(p, cs).0.pool| == |p.pool| + |cs|
    ensures !Fill(p, cs).1 ==> Fill(p, cs).0.pool == []
  {
    if cs != [] {
      var n := |cs| - 1;
      FillKeeps(p, cs[..n]);
      if Fill(p, cs[..n]).1 {
        var filled := Fill(p, cs[..n]).0;
        CreateKeeps(filled, cs[n]);
        if Create(filled, cs[n]).1 == None {
          DisconnectKeeps(Create(filled, cs[n]).0);
        }
      }
    }
  }

  lemma PopKeeps(p: Pool)
    requires Partitioned(p) && p.pool != []
    ensures var last, rest := p.pool[|p.pool| - 1], p.pool[..|p.pool| - 1];
            && Partitioned(p.(pool := rest, out := p.out + {last}))
            && Partitioned(p.(pool := rest, freed := p.freed + [last]))
  {
    var last, rest := p.pool[|p.pool| - 1], p.pool[..|p.pool| - 1];
    assert p.pool == rest + [last];
    assert forall c :: c in p.pool <==> c in rest || c == last;
    AppendFresh(p.freed, last);
  }

  lemma GetKeeps(p: Pool, alive: bool, c: Connect)
    requires Partitioned(p)
    ensures var (after, ctx) := TakeConnection(p, alive, c);
            && Partitioned(after) && |after.pool| <= |p.pool| && after.poolSize == p.poolSize
            && (ctx != None ==> ctx.value in after.out && ctx.value !in p.out)
  {
    if p.pool == [] {
      CreateKeeps(p, c);
    } else {
      PopKeeps(p);
      var last := p.pool[|p.pool| - 1];
      if !alive {
        CreateKeeps(p.(pool := p.pool[..|p.pool| - 1], freed := p.freed + [last]), c);
      }
    }
  }

  lemma ReturnKeeps(p: Pool, ctx: Context)
    requires Partitioned(p) && ctx in p.out
    ensures var after := PutConnection(p, Some(ctx));
            Partitioned(after) && |after.pool| <= (if |p.pool| < SizeT(p.poolSize) then SizeT(p.poolSize) else |p.pool|)
  {
    AppendFresh(p.freed, ctx);
    AppendFresh(p.pool, ctx);
  }

  // ---- Runs ----------------------------------------------------------------------------------------

  datatype Event =
    | Initialized(size: int, cs: seq<Connect>)
    | Got(alive: bool, c: Connect)
    | Returned(ctx: Context)
    | Disconnected

  /** What callers owe: the connect outcomes fit the size, and only what is handed out comes back. */
  predicate Possible(p: Pool, e: Event) {
    match e
    case Initialized(size, cs) => |cs| == if size < 0 then 0 else size
    case Returned(ctx) => ctx in p.out
    case _ => true
  }

  function Next(p: Pool, e: Event): Pool
    requires Possible(p, e)
  {
    match e
    case Initialized(size, cs) => InitializePool(p, size, cs).0
    case Got(alive, c) => TakeConnection(p, alive, c).0
    case Returned(ctx) => PutConnection(p, Some(ctx))
    case Disconnected => DisconnectPool(p)
  }

  ghost predicate Run(ps: seq<Pool>, events: seq<Event>) {
    && |ps| == |events| + 1
    && ps[0].pool == [] && ps[0].out == {} && ps[0].freed == [] && ps[0].created == 0 && !ps[0].initialized
    && forall i :: 0 <= i < |events| ==> Possible(ps[i], events[i]) && ps[i + 1] == Next(ps[i], events[i])
  }

  lemma StepKeeps(p: Pool, e: Event)
    requires Partitioned(p) && Possible(p, e)
    ensures Partitioned(Next(p, e))
  {
    match e {
      case Initialized(size, cs) => FillKeeps(p.(poolSize := size), cs);
      case Got(alive, c) => GetKeeps(p, alive, c);
      case Returned(ctx) => ReturnKeeps(p, ctx);
      case Disconnected => DisconnectKeeps(p);
    }
  }

  /** In every run, every context ever created has exactly one place, and nothing is freed twice. */
  lemma {:induction false} ContextsAreConserved(ps: seq<Pool>, events: seq<Event>)
    requires Run(ps, events)
    ensures Partitioned(ps[|events|])
    decreases |events|
  {
    if events != [] {
      var n := |events| - 1;
      ContextsAreConserved(ps[..n + 1], events[..n]);
      StepKeeps(ps[n], events[n]);
    }
  }

  predicate Bounded(p: Pool) {
    |p.pool| <= SizeT(p.poolSize)
  }

  /** A successful first initialization leaves the pool within its size if and only if it was empty before. */
  lemma InitializeBoundedIff(p: Pool, size: int, cs: seq<Connect>)
    requires Partitioned(p) && !p.initialized && 0 <= size == |cs| < 0x8000_0000
    requires InitializePool(p, size, cs).1
    ensures Bounded(InitializePool(p, size, cs).0) <==> p.pool == []
  {
    FillKeeps(p.(poolSize := size), cs);
  }

  /** Some initialization has returned success and no disconnect came since, by what the calls returned. */
  predicate Up(ps: seq<Pool>, events: seq<Event>, n: nat)
    requires n <= |events| < |ps|
    requires forall i :: 0 <= i < n ==> Possible(ps[i], events[i])
  {
    n > 0 &&
    assert Possible(ps[n - 1], events[n - 1]);
    match events[n - 1]
    case Initialized(size, cs) => Up(ps, events, n - 1) || InitializePool(ps[n - 1], size, cs).1
    case Disconnected => false
    case _ => Up(ps, events, n - 1)
  }

  /** The flag says exactly that. */
  lemma {:induction false} UpIsInitialized(ps: seq<Pool>, events: seq<Event>, n: nat)
    requires Run(ps, events) && n <= |events|
    ensures ps[n].initialized == Up(ps, events, n)
  {
    if n > 0 {
      UpIsInitialized(ps, events, n - 1);
      var p := ps[n - 1];
      assert ps[n] == Next(p, events[n - 1]);
      match events[n - 1] {
        case Initialized(size, cs) =>
          if !p.initialized {
            InitializeEffect(p, size, cs);
          }
        case Got(alive, c) => TakeKeepsFlag(p, alive, c);
        case _ =>
      }
    }
  }

  lemma TakeKeepsFlag(p: Pool, alive: bool, c: Connect)
    ensures TakeConnection(p, alive, c).0.initialized == p.initialized
  {
  }

  /** An int argument, and either an earlier initialization is still good or the pool is empty. */
  predicate StartsWell(ps: seq<Pool>, events: seq<Event>, i: nat)
    requires i < |events| < |ps|
    requires forall j :: 0 <= j < i ==> Possible(ps[j], events[j])
  {
    events[i].Initialized? ==> events[i].size < 0x8000_0000 && (Up(ps, events, i) || ps[i].pool == [])
  }

  /**
    In every run the pool never outgrows its size, however often it is initialized, if each initialization
    without a good one before it starts from an empty pool.
  */
  lemma {:induction false} PoolStaysBounded(ps: seq<Pool>, events: seq<Event>, n: nat)
    requires Run(ps, events) && n <= |events|
    requires forall i :: 0 <= i < n ==> StartsWell(ps, events, i)
    ensures Partitioned(ps[n]) && Bounded(ps[n])
  {
    if n > 0 {
      var p := ps[n - 1];
      PoolStaysBounded(ps, events, n - 1);
      UpIsInitialized(ps, events, n - 1);
      assert StartsWell(ps, events, n - 1) && ps[n] == Next(p, events[n - 1]);
      StepKeeps(p, events[n - 1]);
      match events[n - 1] {
        case Initialized(size, cs) => FillKeeps(p.(poolSize := size), cs);
        case Got(alive, c) => GetKeeps(p, alive, c);
        case Returned(ctx) => ReturnKeeps(p, ctx);
        case Disconnected =>
      }
    }
  }

  /** The hypothesis is needed: a context returned after a disconnect makes the next pool one too large. */
  lemma LateReturnOverfills() returns (ps: seq<Pool>, events: seq<Event>)
    ensures Run(ps, events) && !Bounded(ps[|events|])
  {
    var p0 := Pool([], {}, [], 0, 0, false);
    var e0 := Initialized(1, [Connected]);
    assert [Connected][..0] == [];
    var p1 := Next(p0, e0);
    assert p1 == Pool([0], {}, [], 1, 1, true);
    var p2 := Next(p1, Got(true, NoContext));
    assert p2 == Pool([], {0}, [], 1, 1, true);
    var p3 := Next(p2, Disconnected);
    var p4 := Next(p3, Returned(0));
    assert p4 == Pool([0], {}, [], 1, 1, false);
    var p5 := Next(p4, e0);
    assert p5 == Pool([0, 1], {}, [], 2, 1, true);
    ps, events := [p0, p1, p2, p3, p4, p5], [e0, Got(true, NoContext), Disconnected, Returned(0), e0];
  }
}
