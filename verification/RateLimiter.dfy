/**
  The per-address request limiter of the gate server: one fixed window per client address, opened by
  a request and replaced once more than `secs` whole seconds have passed.
*/
module RateLimiter {
  import opened Wrappers
  import opened Clock

  const DEFAULT_MAX_REQUESTS := 10
  const DEFAULT_WINDOW_SECONDS := 60

  datatype Window = Window(count: int, start: int)

  datatype Request = Request(ip: string, at: int)

  /** What one request does to the window of its address: the new window and the answer. */
  function Decide(w: Option<Window>, now: int, max: int, secs: int): (Window, bool) {
    match w
    case None => (Window(1, now), true)
    case Some(Window(count, start)) =>
      if WholeSeconds(now - start) > secs then (Window(1, now), true)
      else if count < max then (Window(count + 1, start), true)
      else (Window(count, start), false)
  }

  class RateLimiter {
    var requestCounts: map<string, Window>

    constructor ()
      ensures requestCounts == map[]
    {
      requestCounts := map[];
    }

    /** Atomic: the source holds its mutex for the whole call. `now` is the clock it reads. */
    method IsAllowed(clientIp: string, now: int, maxRequests: int, windowSeconds: int) returns (ok: bool)
      modifies this
      ensures ok == Decide(Lookup(old(requestCounts), clientIp), now, maxRequests, windowSeconds).1
      ensures requestCounts == old(requestCounts)[clientIp :=
        Decide(Lookup(old(requestCounts), clientIp), now, maxRequests, windowSeconds).0]
    {
      if clientIp !in requestCounts {
        requestCounts := requestCounts[clientIp := Window(1, now)];
        return true;
      }
      var entry := requestCounts[clientIp];
      var elapsed := WholeSeconds(now - entry.start);
      if elapsed > windowSeconds {
        requestCounts := requestCounts[clientIp := Window(1, now)];
        return true;
      }
      if entry.count < maxRequests {
        requestCounts := requestCounts[clientIp := entry.(count := entry.count + 1)];
        return true;
      }
      return false;
    }
  }

  // ---- One address on its own -------------------------------------------------------------

  /** The effective limit: the first request of a window is granted whatever `max` says. */
  function Limit(max: int): nat {
    if max < 1 then 1 else max
  }

  /** The window after the first n requests of a history. */
  function WindowAfter(ts: seq<int>, n: nat, max: int, secs: int): Option<Window>
    requires n <= |ts|
  {
    if n == 0 then None else Some(Decide(WindowAfter(ts, n - 1, max, secs), ts[n - 1], max, secs).0)
  }

  predicate GrantedAt(ts: seq<int>, i: nat, max: int, secs: int)
    requires i < |ts|
  {
    Decide(WindowAfter(ts, i, max, secs), ts[i], max, secs).1
  }

  /** How many of the first n requests are granted with lo <= time < hi. */
  function GrantedIn(ts: seq<int>, n: nat, lo: int, hi: int, max: int, secs: int): nat
    requires n <= |ts|
  {
    if n == 0 then 0
    else GrantedIn(ts, n - 1, lo, hi, max, secs) + if lo <= ts[n - 1] < hi && GrantedAt(ts, n - 1, max, secs) then 1 else 0
  }

  /** How many of the requests j..n-1 are granted. */
  function GrantedSince(ts: seq<int>, n: nat, j: nat, max: int, secs: int): nat
    requires n <= |ts|
  {
    if n <= j then 0 else GrantedSince(ts, n - 1, j, max, secs) + if GrantedAt(ts, n - 1, max, secs) then 1 else 0
  }

  ghost predicate Sorted(ts: seq<int>) {
    forall i, j :: 0 <= i < j < |ts| ==> ts[i] <= ts[j]
  }

  /** `Decide` in terms of the age of the window in nanoseconds. */
  lemma DecideByAge(w: Window, now: int, max: int, secs: int)
    requires w.start <= now
    ensures Decide(Some(w), now, max, secs) ==
            if now - w.start >= Seconds(secs + 1) then (Window(1, now), true)
            else if w.count < max then (Window(w.count + 1, w.start), true)
            else (w, false)
  {
    WholeSecondsExceed(now - w.start, secs);
  }

  /**
    What the window says about the requests granted in [lo, lo + (secs + 1) seconds): a window opened
    before the interval charges its opening request outside it, and at most one window opens inside.
  */
  lemma {:induction false} WindowAccounts(ts: seq<int>, n: nat, lo: int, max: int, secs: int)
    requires Sorted(ts) && 1 <= n <= |ts|
    ensures ts[n - 1] < lo ==> GrantedIn(ts, n, lo, lo + Seconds(secs + 1), max, secs) == 0
    ensures var hi := lo + Seconds(secs + 1);
            var w := WindowAfter(ts, n, max, secs).value;
            && w.start <= ts[n - 1]
            && 1 <= w.count <= Limit(max)
            && GrantedIn(ts, n, lo, hi, max, secs) <=
                 (if w.start < lo then w.count - 1
                  else if w.start < hi then w.count + Limit(max) - 1
                  else 2 * Limit(max) - 1)
  {
    if n > 1 {
      WindowAccounts(ts, n - 1, lo, max, secs);
      DecideByAge(WindowAfter(ts, n - 1, max, secs).value, ts[n - 1], max, secs);
    }
  }

  /** The sliding bound for one address, for every clock reading, limit and window length. */
  lemma SlidingBoundAlone(ts: seq<int>, lo: int, max: int, secs: int)
    requires Sorted(ts)
    ensures GrantedIn(ts, |ts|, lo, lo + Seconds(secs + 1), max, secs) <= 2 * Limit(max) - 1
  {
    if ts != [] {
      WindowAccounts(ts, |ts|, lo, max, secs);
    }
  }

  /**
    Behind the current window stands a granted request that opened it, and exactly `count` requests
    have been granted since.
  */
  lemma {:induction false} WindowOpener(ts: seq<int>, n: nat, max: int, secs: int) returns (j: nat)
    requires 1 <= n <= |ts|
    ensures j < n && GrantedAt(ts, j, max, secs)
    ensures var w := WindowAfter(ts, n, max, secs).value;
            w.start == ts[j] && w.count == GrantedSince(ts, n, j, max, secs) && 1 <= w.count <= Limit(max)
  {
    j := n - 1;
    assert GrantedSince(ts, n - 1, n - 1, max, secs) == 0;
    if n > 1 {
      var k := WindowOpener(ts, n - 1, max, secs);
      var w := WindowAfter(ts, n - 1, max, secs).value;
      if WholeSeconds(ts[n - 1] - w.start) <= secs {
        j := k;
      }
    }
  }

  /**
    A refusal is earned: some granted request less than (secs + 1) seconds old opened the window, and
    from it on exactly the limit was granted.
  */
  lemma RefusalIsEarned(ts: seq<int>, i: nat, max: int, secs: int) returns (j: nat)
    requires Sorted(ts) && i < |ts| && !GrantedAt(ts, i, max, secs)
    ensures j < i && GrantedAt(ts, j, max, secs)
    ensures ts[i] - ts[j] < Seconds(secs + 1)
    ensures GrantedSince(ts, i, j, max, secs) == Limit(max)
  {
    j := WindowOpener(ts, i, max, secs);
    DecideByAge(WindowAfter(ts, i, max, secs).value, ts[i], max, secs);
  }

  // ---- The bound is sharp ------------------------------------------------------------------

  /** One request at time 0, max - 1 in the last nanosecond of its window, and max right after it. */
  function DoubleBurst(max: nat, secs: nat): (ts: seq<int>)
    ensures |ts| == 2 * max
  {
    seq(2 * max, i => if i == 0 then 0 else if i < max then Seconds(secs + 1) - 1 else Seconds(secs + 1))
  }

  lemma {:induction false} DoubleBurstGranted(max: nat, secs: nat, n: nat, lo: int)
    requires 1 <= n <= 2 * max && lo == Seconds(secs + 1) - 1
    ensures WindowAfter(DoubleBurst(max, secs), n, max, secs)
              == Some(if n <= max then Window(n, 0) else Window(n - max, Seconds(secs + 1)))
    ensures GrantedIn(DoubleBurst(max, secs), n, lo, lo + Seconds(secs + 1), max, secs) == n - 1
  {
    var ts := DoubleBurst(max, secs);
    assert GrantedIn(ts, 0, lo, lo + Seconds(secs + 1), max, secs) == 0;
    if n > 1 {
      DoubleBurstGranted(max, secs, n - 1, lo);
      DecideByAge(WindowAfter(ts, n - 1, max, secs).value, ts[n - 1], max, secs);
    }
  }

  /** For every limit and window there is a run and an interval in which 2 * max - 1 requests pass. */
  lemma SlidingBoundIsSharp(max: nat, secs: nat) returns (ts: seq<int>, lo: int)
    requires max >= 1
    ensures Sorted(ts) && GrantedIn(ts, |ts|, lo, lo + Seconds(secs + 1), max, secs) == 2 * max - 1
  {
    ts, lo := DoubleBurst(max, secs), Seconds(secs + 1) - 1;
    DoubleBurstGranted(max, secs, 2 * max, lo);
  }

  // ---- All addresses together ----------------------------------------------------------------

  /** The shared table after the first n requests; each step is the contract of RateLimiter.IsAllowed. */
  function TableAfter(rs: seq<Request>, n: nat, max: int, secs: int): map<string, Window>
    requires n <= |rs|
  {
    if n == 0 then map[]
    else
      var t, r := TableAfter(rs, n - 1, max, secs), rs[n - 1];
      t[r.ip := Decide(Lookup(t, r.ip), r.at, max, secs).0]
  }

  predicate Granted(rs: seq<Request>, i: nat, max: int, secs: int)
    requires i < |rs|
  {
    Decide(Lookup(TableAfter(rs, i, max, secs), rs[i].ip), rs[i].at, max, secs).1
  }

  /** The request times of one address among the first n. */
  function TimesOf(rs: seq<Request>, n: nat, ip: string): (ts: seq<int>)
    requires n <= |rs|
    ensures |ts| <= n
  {
    if n == 0 then []
    else if rs[n - 1].ip == ip then TimesOf(rs, n - 1, ip) + [rs[n - 1].at]
    else TimesOf(rs, n - 1, ip)
  }

  /** The positions below n of the requests of one address granted with lo <= time < hi. */
  function GrantedTo(rs: seq<Request>, n: nat, ip: string, lo: int, hi: int, max: int, secs: int): set<nat>
    requires n <= |rs|
  {
    set i: nat | i < n && rs[i].ip == ip && lo <= rs[i].at < hi && Granted(rs, i, max, secs)
  }

  ghost predicate ClockSorted(rs: seq<Request>) {
    forall i, j :: 0 <= i < j < |rs| ==> rs[i].at <= rs[j].at
  }

  lemma {:induction false} LaterRequestsIrrelevant(ts: seq<int>, more: seq<int>, n: nat, lo: int, hi: int, max: int, secs: int)
    requires n <= |ts|
    ensures WindowAfter(ts + more, n, max, secs) == WindowAfter(ts, n, max, secs)
    ensures GrantedIn(ts + more, n, lo, hi, max, secs) == GrantedIn(ts, n, lo, hi, max, secs)
  {
    if n > 0 {
      LaterRequestsIrrelevant(ts, more, n - 1, lo, hi, max, secs);
    }
  }

  /** The shared table shows each address exactly what a limiter of its own would. */
  lemma {:induction false} TableIsolates(rs: seq<Request>, n: nat, ip: string, max: int, secs: int)
    requires n <= |rs|
    ensures var own := TimesOf(rs, n, ip);
            Lookup(TableAfter(rs, n, max, secs), ip) == WindowAfter(own, |own|, max, secs)
  {
    if n > 0 {
      var own := TimesOf(rs, n - 1, ip);
      TableIsolates(rs, n - 1, ip, max, secs);
      LaterRequestsIrrelevant(own, [rs[n - 1].at], |own|, 0, 0, max, secs);
    }
  }

  /** In any interleaved run the answer to a request is the answer of a limiter for its own address alone. */
  lemma DecisionsAreIndependent(rs: seq<Request>, i: nat, max: int, secs: int)
    requires i < |rs|
    ensures var own := TimesOf(rs, i + 1, rs[i].ip);
            own != [] && (Granted(rs, i, max, secs) <==> GrantedAt(own, |own| - 1, max, secs))
  {
    var own := TimesOf(rs, i, rs[i].ip);
    TableIsolates(rs, i, rs[i].ip, max, secs);
    LaterRequestsIrrelevant(own, [rs[i].at], |own|, 0, 0, max, secs);
  }

  lemma {:induction false} TimesAreSorted(rs: seq<Request>, n: nat, ip: string)
    requires ClockSorted(rs) && n <= |rs|
    ensures Sorted(TimesOf(rs, n, ip))
    ensures forall k :: 0 <= k < |TimesOf(rs, n, ip)| ==> n > 0 && TimesOf(rs, n, ip)[k] <= rs[n - 1].at
  {
    if n > 0 {
      TimesAreSorted(rs, n - 1, ip);
      assert n > 1 ==> rs[n - 2].at <= rs[n - 1].at;
    }
  }

  lemma GrantedToGrows(rs: seq<Request>, n: nat, ip: string, lo: int, hi: int, max: int, secs: int)
    requires n < |rs|
    ensures |GrantedTo(rs, n + 1, ip, lo, hi, max, secs)| == |GrantedTo(rs, n, ip, lo, hi, max, secs)|
              + if rs[n].ip == ip && lo <= rs[n].at < hi && Granted(rs, n, max, secs) then 1 else 0
  {
    var before, after := GrantedTo(rs, n, ip, lo, hi, max, secs), GrantedTo(rs, n + 1, ip, lo, hi, max, secs);
    assert after == before + if n in after then {n} else {};
    assert n !in before;
  }

  lemma GrantedInGrows(rs: seq<Request>, n: nat, ip: string, lo: int, hi: int, max: int, secs: int)
    requires n < |rs|
    ensures var before, after := TimesOf(rs, n, ip), TimesOf(rs, n + 1, ip);
            GrantedIn(after, |after|, lo, hi, max, secs) == GrantedIn(before, |before|, lo, hi, max, secs)
              + if rs[n].ip == ip && lo <= rs[n].at < hi && Granted(rs, n, max, secs) then 1 else 0
  {
    if rs[n].ip == ip {
      var own, k := TimesOf(rs, n + 1, ip), |TimesOf(rs, n, ip)|;
      DecisionsAreIndependent(rs, n, max, secs);
      LaterRequestsIrrelevant(TimesOf(rs, n, ip), [rs[n].at], k, lo, hi, max, secs);
      assert own[k] == rs[n].at && |own| == k + 1;
    }
  }

  lemma {:induction false} GrantedToCounts(rs: seq<Request>, n: nat, ip: string, lo: int, hi: int, max: int, secs: int)
    requires n <= |rs|
    ensures var own := TimesOf(rs, n, ip);
            |GrantedTo(rs, n, ip, lo, hi, max, secs)| == GrantedIn(own, |own|, lo, hi, max, secs)
  {
    if n == 0 {
      assert GrantedTo(rs, n, ip, lo, hi, max, secs) == {};
    } else {
      GrantedToCounts(rs, n - 1, ip, lo, hi, max, secs);
      GrantedToGrows(rs, n - 1, ip, lo, hi, max, secs);
      GrantedInGrows(rs, n - 1, ip, lo, hi, max, secs);
    }
  }

  /**
    The sliding bound over every interleaved run with a clock that does not go back: of one address at
    most 2 * max - 1 requests pass in any half-open interval of secs + 1 seconds.
  */
  lemma SlidingBound(rs: seq<Request>, ip: string, lo: int, max: int, secs: int)
    requires ClockSorted(rs)
    ensures |GrantedTo(rs, |rs|, ip, lo, lo + Seconds(secs + 1), max, secs)| <= 2 * Limit(max) - 1
  {
    GrantedToCounts(rs, |rs|, ip, lo, lo + Seconds(secs + 1), max, secs);
    TimesAreSorted(rs, |rs|, ip);
    SlidingBoundAlone(TimesOf(rs, |rs|, ip), lo, max, secs);
  }

  /** With the default arguments: at most 19 requests of one address in any 61 seconds. */
  lemma DefaultSlidingBound(rs: seq<Request>, ip: string, lo: int)
    requires ClockSorted(rs)
    ensures |GrantedTo(rs, |rs|, ip, lo, lo + Seconds(61), DEFAULT_MAX_REQUESTS, DEFAULT_WINDOW_SECONDS)| <= 19
  {
    SlidingBound(rs, ip, lo, DEFAULT_MAX_REQUESTS, DEFAULT_WINDOW_SECONDS);
  }
}
