/**
  Adding a friend: a check and two inserts, each its own database transaction, so calls interleave
  between them. `known` is the users table, which the foreign keys of the friends table refer to;
  an INSERT IGNORE that breaks a foreign key succeeds without a row.
*/
module Friendship {
  type Edge = (int, int)

  datatype Phase =
    | Checking
    | FirstInsert
    | SecondInsert
    | Succeeded
    | AlreadyFriends
    | FirstFailed
    | SecondFailed

  datatype Call = Call(user: int, friend: int, phase: Phase)

  datatype State = State(edges: set<Edge>, calls: seq<Call>)

  datatype Action =
    | Start(user: int, friend: int)
    | Proceed(call: nat, ok: bool) // one database transaction of a call, and whether it succeeds

  function InsertIgnore(edges: set<Edge>, a: int, b: int, known: set<int>): set<Edge> {
    if a in known && b in known then edges + {(a, b)} else edges
  }

  /** A failed check reads as "no such friend". */
  function PhaseAfter(c: Call, ok: bool, edges: set<Edge>): Phase {
    match c.phase
    case Checking => if ok && (c.user, c.friend) in edges then AlreadyFriends else FirstInsert
    case FirstInsert => if ok then SecondInsert else FirstFailed
    case SecondInsert => if ok then Succeeded else SecondFailed
    case _ => c.phase
  }

  function EdgesAfter(c: Call, ok: bool, edges: set<Edge>, known: set<int>): set<Edge> {
    match c.phase
    case FirstInsert => if ok then InsertIgnore(edges, c.user, c.friend, known) else edges
    case SecondInsert => if ok then InsertIgnore(edges, c.friend, c.user, known) else edges
    case _ => edges
  }

  function Next(s: State, a: Action, known: set<int>): State {
    match a
    case Start(user, friend) => s.(calls := s.calls + [Call(user, friend, Checking)])
    case Proceed(i, ok) =>
      if i < |s.calls| then
        var c := s.calls[i];
        State(EdgesAfter(c, ok, s.edges, known), s.calls[i := c.(phase := PhaseAfter(c, ok, s.edges))])
      else s
  }

  function RunFrom(edges: set<Edge>, actions: seq<Action>, known: set<int>): State {
    if actions == [] then State(edges, [])
    else Next(RunFrom(edges, actions[..|actions| - 1], known), actions[|actions| - 1], known)
  }

  // ---- Every interleaving --------------------------------------------------------------------------

  ghost predicate Symmetric(edges: set<Edge>) {
    forall a, b :: (a, b) in edges ==> (b, a) in edges
  }

  ghost predicate WithinUsers(edges: set<Edge>, known: set<int>) {
    forall a, b :: (a, b) in edges ==> a in known && b in known
  }

  /** A call that has put in its first edge and not its second: pending at it, or failed there. */
  predicate HalfDone(c: Call) {
    c.phase == SecondInsert || c.phase == SecondFailed
  }

  predicate Finished(c: Call) {
    c.phase != Checking && c.phase != FirstInsert && c.phase != SecondInsert
  }

  ghost predicate HalfDoneBy(calls: seq<Call>, a: int, b: int) {
    exists i :: 0 <= i < |calls| && calls[i].user == a && calls[i].friend == b && HalfDone(calls[i])
  }

  ghost predicate Inv(s: State, known: set<int>) {
    && WithinUsers(s.edges, known)
    && (forall i :: 0 <= i < |s.calls| && s.calls[i].user in known && s.calls[i].friend in known ==>
          && (HalfDone(s.calls[i]) ==> (s.calls[i].user, s.calls[i].friend) in s.edges)
          && (s.calls[i].phase == Succeeded ==>
                (s.calls[i].user, s.calls[i].friend) in s.edges && (s.calls[i].friend, s.calls[i].user) in s.edges))
    && (forall i :: 0 <= i < |s.calls| && s.calls[i].phase == AlreadyFriends ==>
          (s.calls[i].user, s.calls[i].friend) in s.edges)
    && (forall a, b :: (a, b) in s.edges && (b, a) !in s.edges ==> HalfDoneBy(s.calls, a, b))
  }

  lemma HalfDoneStays(calls: seq<Call>, i: nat, c: Call, a: int, b: int)
    requires i < |calls| && HalfDoneBy(calls, a, b)
    requires HalfDone(calls[i]) ==> HalfDone(c) && c.user == calls[i].user && c.friend == calls[i].friend
    ensures HalfDoneBy(calls[i := c], a, b)
  {
    var k :| 0 <= k < |calls| && calls[k].user == a && calls[k].friend == b && HalfDone(calls[k]);
    assert HalfDone(calls[i := c][k]);
  }

  lemma HalfDoneElsewhere(calls: seq<Call>, i: nat, c: Call, a: int, b: int)
    requires i < |calls| && HalfDoneBy(calls, a, b) && (calls[i].user, calls[i].friend) != (a, b)
    ensures HalfDoneBy(calls[i := c], a, b)
  {
    var k :| 0 <= k < |calls| && calls[k].user == a && calls[k].friend == b && HalfDone(calls[k]);
    assert HalfDone(calls[i := c][k]);
  }

  lemma StepKeepsHalfEdges(s: State, i: nat, ok: bool, known: set<int>)
    requires Inv(s, known) && i < |s.calls|
    ensures var t := Next(s, Proceed(i, ok), known);
            forall a, b :: (a, b) in t.edges && (b, a) !in t.edges ==> HalfDoneBy(t.calls, a, b)
  {
    var t, c := Next(s, Proceed(i, ok), known), s.calls[i];
    forall a, b | (a, b) in t.edges && (b, a) !in t.edges ensures HalfDoneBy(t.calls, a, b) {
      if (a, b) !in s.edges {
        assert t.calls[i].user == a && t.calls[i].friend == b && HalfDone(t.calls[i]);
      } else if c.phase == SecondInsert && ok {
        assert (c.user, c.friend) != (a, b);
        HalfDoneElsewhere(s.calls, i, t.calls[i], a, b);
      } else {
        HalfDoneStays(s.calls, i, t.calls[i], a, b);
      }
    }
  }

  lemma StepKeepsInv(s: State, a: Action, known: set<int>)
    requires Inv(s, known)
    ensures Inv(Next(s, a, known), known)
  {
    var t := Next(s, a, known);
    match a {
      case Start(user, friend) =>
        forall x, y | HalfDoneBy(s.calls, x, y) ensures HalfDoneBy(t.calls, x, y) {
          var k :| 0 <= k < |s.calls| && s.calls[k].user == x && s.calls[k].friend == y && HalfDone(s.calls[k]);
          assert HalfDone(t.calls[k]);
        }
      case Proceed(i, ok) =>
        if i < |s.calls| {
          StepKeepsHalfEdges(s, i, ok, known);
        }
    }
  }

  lemma {:induction false} RunsKeepInv(edges: set<Edge>, actions: seq<Action>, known: set<int>)
    requires Symmetric(edges) && WithinUsers(edges, known)
    ensures Inv(RunFrom(edges, actions, known), known)
  {
    if actions != [] {
      RunsKeepInv(edges, actions[..|actions| - 1], known);
      StepKeepsInv(RunFrom(edges, actions[..|actions| - 1], known), actions[|actions| - 1], known);
    }
  }

  /**
    Under every interleaving, with any transaction able to fail: an edge without its reverse belongs
    to a call pending at, or failed at, its second insert.
  */
  lemma HalfEdgesHaveAnOwner(edges: set<Edge>, actions: seq<Action>, known: set<int>, a: int, b: int)
    requires Symmetric(edges) && WithinUsers(edges, known)
    ensures var s := RunFrom(edges, actions, known);
            (a, b) in s.edges && (b, a) !in s.edges ==> HalfDoneBy(s.calls, a, b)
  {
    RunsKeepInv(edges, actions, known);
  }

  /** Once every call has ended, and none at a failed second insert, friendship is symmetric. */
  lemma SymmetricAtQuiescence(edges: set<Edge>, actions: seq<Action>, known: set<int>)
    requires Symmetric(edges) && WithinUsers(edges, known)
    requires var s := RunFrom(edges, actions, known);
             forall i :: 0 <= i < |s.calls| ==> Finished(s.calls[i]) && s.calls[i].phase != SecondFailed
    ensures Symmetric(RunFrom(edges, actions, known).edges)
  {
    RunsKeepInv(edges, actions, known);
  }

  /** A call that reports success has both edges in the table if and only if both users exist. */
  lemma SuccessMeansFriends(edges: set<Edge>, actions: seq<Action>, known: set<int>, i: nat)
    requires Symmetric(edges) && WithinUsers(edges, known)
    requires var s := RunFrom(edges, actions, known); i < |s.calls| && s.calls[i].phase == Succeeded
    ensures var s := RunFrom(edges, actions, known);
            var c := s.calls[i];
            ((c.user, c.friend) in s.edges && (c.friend, c.user) in s.edges) <==> c.user in known && c.friend in known
  {
    RunsKeepInv(edges, actions, known);
  }

  /** A call is told the friendship exists only if it does. */
  lemma AlreadyFriendsIsTrue(edges: set<Edge>, actions: seq<Action>, known: set<int>, i: nat)
    requires Symmetric(edges) && WithinUsers(edges, known)
    requires var s := RunFrom(edges, actions, known); i < |s.calls| && s.calls[i].phase == AlreadyFriends
    ensures var s := RunFrom(edges, actions, known); (s.calls[i].user, s.calls[i].friend) in s.edges
  {
    RunsKeepInv(edges, actions, known);
  }

  ghost predicate NothingFails(actions: seq<Action>) {
    forall i :: 0 <= i < |actions| && actions[i].Proceed? ==> actions[i].ok
  }

  lemma {:induction false} NoCallFails(edges: set<Edge>, actions: seq<Action>, known: set<int>)
    requires NothingFails(actions)
    ensures forall c :: c in RunFrom(edges, actions, known).calls ==> c.phase != FirstFailed && c.phase != SecondFailed
  {
    if actions != [] {
      NoCallFails(edges, actions[..|actions| - 1], known);
    }
  }

  /** Where no transaction fails, when every call has ended all their users are friends, both ways. */
  lemma CallsMakeFriends(edges: set<Edge>, actions: seq<Action>, known: set<int>, i: nat)
    requires Symmetric(edges) && WithinUsers(edges, known) && NothingFails(actions)
    requires var s := RunFrom(edges, actions, known);
             forall j :: 0 <= j < |s.calls| ==> Finished(s.calls[j])
    requires var s := RunFrom(edges, actions, known);
             i < |s.calls| && s.calls[i].user in known && s.calls[i].friend in known
    ensures var s := RunFrom(edges, actions, known);
            (s.calls[i].user, s.calls[i].friend) in s.edges && (s.calls[i].friend, s.calls[i].user) in s.edges
  {
    var s := RunFrom(edges, actions, known);
    RunsKeepInv(edges, actions, known);
    NoCallFails(edges, actions, known);
    assert s.calls[i] in s.calls;
    forall j | 0 <= j < |s.calls| ensures s.calls[j].phase != SecondFailed {
      assert s.calls[j] in s.calls;
    }
    SymmetricAtQuiescence(edges, actions, known);
  }

  /** How many transactions a call has before it at most. */
  function Left(c: Call): nat {
    match c.phase
    case Checking => 3
    case FirstInsert => 2
    case SecondInsert => 1
    case _ => 0
  }

  function ProceedsOf(actions: seq<Action>, i: nat): nat {
    if actions == [] then 0
    else
      var a := actions[|actions| - 1];
      ProceedsOf(actions[..|actions| - 1], i) + if a.Proceed? && a.call == i then 1 else 0
  }

  /** Every call ends: three of its own transactions suffice, whatever runs between them. */
  lemma {:induction false} CallsEnd(edges: set<Edge>, actions: seq<Action>, more: seq<Action>, known: set<int>, i: nat)
    requires i < |RunFrom(edges, actions, known).calls|
    ensures i < |RunFrom(edges, actions + more, known).calls|
    ensures var before, after := RunFrom(edges, actions, known).calls[i], RunFrom(edges, actions + more, known).calls[i];
            && after.user == before.user && after.friend == before.friend
            && Left(after) <= (if ProceedsOf(more, i) < Left(before) then Left(before) - ProceedsOf(more, i) else 0)
            && (Finished(after) <==> Left(after) == 0)
    decreases |more|
  {
    hide EdgesAfter;
    if more == [] {
      assert actions + more == actions;
    } else {
      var n := |more| - 1;
      CallsEnd(edges, actions, more[..n], known, i);
      var all := actions + more;
      assert all[..|all| - 1] == actions + more[..n] && all[|all| - 1] == more[n];
    }
  }

  /** Edges are never lost. */
  lemma {:induction false} EdgesOnlyGrow(edges: set<Edge>, actions: seq<Action>, more: seq<Action>, known: set<int>)
    ensures RunFrom(edges, actions, known).edges <= RunFrom(edges, actions + more, known).edges
    decreases |more|
  {
    if more == [] {
      assert actions + more == actions;
    } else {
      var n := |more| - 1;
      EdgesOnlyGrow(edges, actions, more[..n], known);
      var all := actions + more;
      assert all[..|all| - 1] == actions + more[..n];
    }
  }

  // ---- One call from start to end --------------------------------------------------------------------

  /** An uninterrupted call: the edges it leaves and the phase it ends in. */
  function Uninterrupted(edges: set<Edge>, a: int, b: int, checkOk: bool, firstOk: bool, secondOk: bool, known: set<int>)
    : (set<Edge>, Phase)
  {
    var s0 := State(edges, [Call(a, b, Checking)]);
    var s1 := Next(s0, Proceed(0, checkOk), known);
    var s2 := Next(s1, Proceed(0, firstOk), known);
    var s3 := Next(s2, Proceed(0, secondOk), known);
    (s3.edges, s3.calls[0].phase)
  }

  /** The edges between two users after the first and after both inserts. */
  function WithEdges(edges: set<Edge>, a: int, b: int, both: bool): set<Edge> {
    edges + {(a, b)} + if both then {(b, a)} else {}
  }

  /**
    What an uninterrupted call does, by its outcomes alone. It is refused, and changes nothing, exactly if
    a successful check finds the edge; otherwise it succeeds exactly if both inserts do, and each that
    does puts its edge in when both users exist.
  */
  lemma UninterruptedOutcome(edges: set<Edge>, a: int, b: int, checkOk: bool, firstOk: bool, secondOk: bool, known: set<int>)
    ensures var (after, phase) := Uninterrupted(edges, a, b, checkOk, firstOk, secondOk, known);
            && (phase == AlreadyFriends <==> checkOk && (a, b) in edges)
            && (phase == Succeeded <==> !(checkOk && (a, b) in edges) && firstOk && secondOk)
            && after == (if !(checkOk && (a, b) in edges) && firstOk && a in known && b in known
                         then WithEdges(edges, a, b, secondOk) else edges)
  {
    assert edges + {(a, b)} + {} == edges + {(a, b)};
  }

  /**
    A half edge (a, b) is repaired by adding in the other direction, and not by retrying: the retry is
    told the friendship exists and changes nothing.
  */
  lemma ReverseCallRepairs(edges: set<Edge>, a: int, b: int, known: set<int>)
    requires WithinUsers(edges, known) && (a, b) in edges && (b, a) !in edges
    ensures Uninterrupted(edges, b, a, true, true, true, known) == (edges + {(b, a)}, Succeeded)
    ensures forall firstOk, secondOk :: Uninterrupted(edges, a, b, true, firstOk, secondOk, known) == (edges, AlreadyFriends)
  {
    assert edges + {(b, a)} + {(a, b)} == edges + {(b, a)};
  }
}
