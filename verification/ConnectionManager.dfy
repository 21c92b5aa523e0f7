/**
  The gate server's table of live sessions: sessions by user, and the user by session. In the source
  cleanup calls the locking removal while it holds the same mutex; what is modelled is the intended
  meaning, the whole cleanup as one atomic step.
*/
module ConnectionManager {
  import opened Wrappers
  import opened Clock

  datatype SessionInfo = SessionInfo(sessionId: string, lastActivity: int, ipAddress: string)

  type Sessions = map<string, SessionInfo>

  datatype Table = Table(userSessions: map<string, Sessions>, sessionToUser: map<string, string>)

  // ---- The operations on tables ------------------------------------------------------------------

  /** `emplace` keeps an entry that is already there. */
  function Add(t: Table, user: string, info: SessionInfo): Table {
    var sessions := if user in t.userSessions then t.userSessions[user] else map[];
    var added := if info.sessionId in sessions then sessions else sessions[info.sessionId := info];
    Table(t.userSessions[user := added], t.sessionToUser[info.sessionId := user])
  }

  function Remove(t: Table, user: string, session: string): Table {
    var users :=
      if user in t.userSessions then
        var left := t.userSessions[user] - {session};
        if left == map[] then t.userSessions - {user} else t.userSessions[user := left]
      else t.userSessions;
    Table(users, t.sessionToUser - {session})
  }

  function Touch(t: Table, user: string, session: string, now: int): Table {
    if user in t.userSessions && session in t.userSessions[user] then
      t.(userSessions := t.userSessions[user :=
           t.userSessions[user][session := t.userSessions[user][session].(lastActivity := now)]])
    else t
  }

  predicate Expired(info: SessionInfo, now: int, timeout: int) {
    WholeSeconds(now - info.lastActivity) > timeout
  }

  function RemoveAll(t: Table, dead: seq<(string, string)>): Table {
    if dead == [] then t
    else Remove(RemoveAll(t, dead[..|dead| - 1]), dead[|dead| - 1].0, dead[|dead| - 1].1)
  }

  /** The sessions cleanup collects, in whatever order it meets them. */
  ghost predicate ExactlyExpired(t: Table, dead: seq<(string, string)>, now: int, timeout: int) {
    forall u, s :: (u, s) in dead <==> Listed(t, u, s) && Expired(t.userSessions[u][s], now, timeout)
  }

  /** Cleanup: the collected sessions are removed one after the other. */
  ghost predicate CleansUp(t: Table, now: int, timeout: int, t': Table) {
    exists dead :: ExactlyExpired(t, dead, now, timeout) && t' == RemoveAll(t, dead)
  }

  // ---- Agreement ---------------------------------------------------------------------------------

  /** Whether the forward index lists the session under the user. */
  predicate Listed(t: Table, user: string, session: string) {
    user in t.userSessions && session in t.userSessions[user]
  }

  /** What the forward index holds for the session of the user. */
  function Entry(t: Table, user: string, session: string): Option<SessionInfo> {
    if Listed(t, user, session) then Some(t.userSessions[user][session]) else None
  }

  /** The two indexes say the same, and no user is kept without a session. */
  ghost predicate Agree(t: Table) {
    && (forall u, s :: Listed(t, u, s) <==> Lookup(t.sessionToUser, s) == Some(u))
    && (forall u :: u in t.userSessions ==> t.userSessions[u] != map[])
  }

  /** What callers owe: they never name a session that belongs to somebody else. */
  predicate Owns(t: Table, user: string, session: string) {
    session in t.sessionToUser ==> t.sessionToUser[session] == user
  }

  class ConnectionManager {
    var userSessions: map<string, Sessions>
    var sessionToUser: map<string, string>

    ghost function State(): Table
      reads this
    {
      Table(userSessions, sessionToUser)
    }

    constructor ()
      ensures State() == Table(map[], map[])
    {
      userSessions, sessionToUser := map[], map[];
    }

    method AddConnection(userId: string, sessionId: string, ipAddress: string, now: int)
      modifies this
      ensures State() == Add(old(State()), userId, SessionInfo(sessionId, now, ipAddress))
    {
      if userId !in userSessions {
        userSessions := userSessions[userId := map[]];
      }
      if sessionId !in userSessions[userId] {
        userSessions := userSessions[userId := userSessions[userId][sessionId := SessionInfo(sessionId, now, ipAddress)]];
      }
      sessionToUser := sessionToUser[sessionId := userId];
    }

    method RemoveConnection(userId: string, sessionId: string)
      modifies this
      ensures State() == Remove(old(State()), userId, sessionId)
    {
      if userId in userSessions {
        var left := userSessions[userId] - {sessionId};
        if left == map[] {
          userSessions := userSessions - {userId};
        } else {
          userSessions := userSessions[userId := left];
        }
      }
      sessionToUser := sessionToUser - {sessionId};
    }

    /** In an agreeing table a user is online exactly when some session maps to it. */
    method IsUserOnline(userId: string) returns (online: bool)
      requires Agree(State())
      ensures online <==> userId in sessionToUser.Values
    {
      OnlineUsersAreOwners(State());
      online := userId in userSessions;
    }

    /** The online users, each once: the values of the reverse index. */
    method GetOnlineUsers() returns (users: seq<string>)
      requires Agree(State())
      ensures forall u :: u in users <==> u in sessionToUser.Values
      ensures forall i, j :: 0 <= i < j < |users| ==> users[i] != users[j]
    {
      users := [];
      var left := userSessions.Keys;
      while left != {}
        invariant left <= userSessions.Keys
        invariant forall u :: u in users <==> u in userSessions.Keys - left
        invariant forall i, j :: 0 <= i < j < |users| ==> users[i] != users[j]
      {
        var u :| u in left;
        assert u !in users;
        users := users + [u];
        left := left - {u};
      }
      OnlineUsersAreOwners(State());
    }

    /** The number of sessions that map to the user. */
    method GetSessionCount(userId: string) returns (count: nat)
      requires Agree(State())
      ensures count == |SessionsOf(State(), userId)|
    {
      ghost var t := State();
      SessionsOfListed(t, userId);
      if userId in userSessions {
        return |userSessions[userId]|;
      }
      return 0;
    }

    method UpdateSessionActivity(userId: string, sessionId: string, now: int)
      modifies this
      ensures State() == Touch(old(State()), userId, sessionId, now)
    {
      if userId in userSessions {
        if sessionId in userSessions[userId] {
          var info := userSessions[userId][sessionId];
          userSessions := userSessions[userId := userSessions[userId][sessionId := info.(lastActivity := now)]];
        }
      }
    }

    /**
      The expired sessions are collected and then removed. In an agreeing table exactly the sessions idle
      for at most `timeoutSeconds` whole seconds stay, with what was known of them.
    */
    method CleanupExpiredSessions(timeoutSeconds: int, now: int)
      modifies this
      ensures CleansUp(old(State()), now, timeoutSeconds, State())
      ensures old(Agree(State())) ==> Agree(State()) && Survivors(old(State()), now, timeoutSeconds, State())
    {
      var expired: seq<(string, string)> := [];
      var users := userSessions.Keys;
      while users != {}
        invariant users <= userSessions.Keys
        invariant forall u, s :: (u, s) in expired <==>
                    u !in users && Listed(State(), u, s) && Expired(userSessions[u][s], now, timeoutSeconds)
      {
        var u :| u in users;
        var sessions := userSessions[u].Keys;
        while sessions != {}
          invariant sessions <= userSessions[u].Keys
          invariant forall v, s :: (v, s) in expired <==>
                      && (v !in users || (v == u && s !in sessions))
                      && Listed(State(), v, s) && Expired(userSessions[v][s], now, timeoutSeconds)
        {
          var s :| s in sessions;
          if WholeSeconds(now - userSessions[u][s].lastActivity) > timeoutSeconds {
            expired := expired + [(u, s)];
          }
          sessions := sessions - {s};
        }
        users := users - {u};
      }
      ghost var before := State();
      for i := 0 to |expired|
        invariant State() == RemoveAll(before, expired[..i])
      {
        RemoveConnection(expired[i].0, expired[i].1);
        assert expired[..i + 1][..i] == expired[..i];
      }
      assert expired[..|expired|] == expired;
      assert ExactlyExpired(before, expired, now, timeoutSeconds);
      if Agree(before) {
        CleanupIsExact(before, now, timeoutSeconds, State());
      }
    }
  }

  // ---- Queries over the reverse index --------------------------------------------------------------

  ghost function SessionsOf(t: Table, user: string): set<string> {
    set s | s in t.sessionToUser && t.sessionToUser[s] == user
  }

  lemma OnlineUsersAreOwners(t: Table)
    requires Agree(t)
    ensures t.userSessions.Keys == t.sessionToUser.Values
  {
    forall u | u in t.userSessions.Keys ensures u in t.sessionToUser.Values {
      var s :| s in t.userSessions[u].Keys;
      assert Listed(t, u, s);
    }
    forall u | u in t.sessionToUser.Values ensures u in t.userSessions.Keys {
      var s :| s in t.sessionToUser && t.sessionToUser[s] == u;
      assert Listed(t, u, s);
    }
  }

  lemma SessionsOfListed(t: Table, user: string)
    requires Agree(t)
    ensures SessionsOf(t, user) == if user in t.userSessions then t.userSessions[user].Keys else {}
  {
    assert forall s :: s in SessionsOf(t, user) <==> Listed(t, user, s);
  }

  // ---- What keeps the agreement ----------------------------------------------------------------------

  /** Adding keeps the two indexes in agreement if and only if the session is new or already the user's. */
  lemma AddKeepsAgreement(t: Table, user: string, info: SessionInfo)
    requires Agree(t)
    ensures Agree(Add(t, user, info)) <==> Owns(t, user, info.sessionId)
  {
    var t', s := Add(t, user, info), info.sessionId;
    if Owns(t, user, s) {
      forall u, x ensures Listed(t', u, x) <==> Lookup(t'.sessionToUser, x) == Some(u) {
        assert Listed(t, u, x) <==> Lookup(t.sessionToUser, x) == Some(u);
      }
    } else {
      var owner := t.sessionToUser[s];
      assert Listed(t, owner, s);
      assert Listed(t', owner, s) && Lookup(t'.sessionToUser, s) == Some(user);
    }
  }

  /** Removing keeps the agreement if and only if the session is unknown or the user's own. */
  lemma RemoveKeepsAgreement(t: Table, user: string, session: string)
    requires Agree(t)
    ensures Agree(Remove(t, user, session)) <==> Owns(t, user, session)
  {
    var t' := Remove(t, user, session);
    RemoveListed(t, user, session);
    if Owns(t, user, session) {
      forall u, x ensures Listed(t', u, x) <==> Lookup(t'.sessionToUser, x) == Some(u) {
        assert Listed(t, u, x) <==> Lookup(t.sessionToUser, x) == Some(u);
      }
    } else {
      var owner := t.sessionToUser[session];
      assert Listed(t, owner, session);
      assert Listed(t', owner, session) && Lookup(t'.sessionToUser, session) == None;
    }
  }

  /** Removal takes one pair off the list and keeps the rest as it was. */
  lemma RemoveListed(t: Table, user: string, session: string)
    ensures forall u, x :: Listed(Remove(t, user, session), u, x) <==> Listed(t, u, x) && (u, x) != (user, session)
    ensures forall u, x :: Listed(Remove(t, user, session), u, x)
              ==> Remove(t, user, session).userSessions[u][x] == t.userSessions[u][x]
  {
    if user in t.userSessions {
      var left := t.userSessions[user] - {session};
      assert left == map[] ==> forall x :: x in t.userSessions[user] ==> x == session by {
        assert forall x :: x in t.userSessions[user] && x != session ==> x in left;
      }
    }
  }

  /** Adding lists the session, with its data unless it was there already, and leaves every other entry as it was. */
  lemma AddListed(t: Table, user: string, info: SessionInfo)
    ensures Entry(Add(t, user, info), user, info.sessionId)
         == if Listed(t, user, info.sessionId) then Entry(t, user, info.sessionId) else Some(info)
    ensures forall u, x :: (u, x) != (user, info.sessionId) ==> Entry(Add(t, user, info), u, x) == Entry(t, u, x)
  {
  }

  /** Touching sets the activity time of a listed session, and of that one alone. */
  lemma TouchListed(t: Table, user: string, session: string, now: int)
    ensures Entry(Touch(t, user, session, now), user, session)
         == if Listed(t, user, session) then Some(Entry(t, user, session).value.(lastActivity := now)) else None
    ensures forall u, x :: (u, x) != (user, session) ==> Entry(Touch(t, user, session, now), u, x) == Entry(t, u, x)
  {
  }

  lemma TouchKeepsAgreement(t: Table, user: string, session: string, now: int)
    requires Agree(t)
    ensures Agree(Touch(t, user, session, now))
    ensures forall u, s :: Listed(Touch(t, user, session, now), u, s) <==> Listed(t, u, s)
  {
    var t' := Touch(t, user, session, now);
    forall u, x ensures Listed(t', u, x) <==> Listed(t, u, x) {
    }
  }

  lemma {:induction false} RemoveAllKeepsOthers(t: Table, dead: seq<(string, string)>)
    requires Agree(t) && forall i :: 0 <= i < |dead| ==> Listed(t, dead[i].0, dead[i].1)
    ensures Agree(RemoveAll(t, dead))
    ensures forall u, s :: Listed(RemoveAll(t, dead), u, s) <==> Listed(t, u, s) && (u, s) !in dead
    ensures forall u, s :: Listed(RemoveAll(t, dead), u, s)
              ==> RemoveAll(t, dead).userSessions[u][s] == t.userSessions[u][s]
  {
    if dead != [] {
      var prev, last := dead[..|dead| - 1], dead[|dead| - 1];
      RemoveAllKeepsOthers(t, prev);
      var mid := RemoveAll(t, prev);
      assert Listed(t, last.0, last.1);
      assert Owns(mid, last.0, last.1) by {
        if last.1 in mid.sessionToUser {
          assert Listed(mid, mid.sessionToUser[last.1], last.1);
          assert Listed(t, mid.sessionToUser[last.1], last.1);
        }
      }
      RemoveKeepsAgreement(mid, last.0, last.1);
      RemoveListed(mid, last.0, last.1);
      assert forall p :: p in dead <==> p in prev || p == last;
    }
  }

  /** Expired means idle for a whole second more than the timeout. */
  lemma ExpiredIff(info: SessionInfo, now: int, timeout: int)
    requires info.lastActivity <= now || timeout >= 0
    ensures Expired(info, now, timeout) <==> now - info.lastActivity >= Seconds(timeout + 1)
  {
    WholeSecondsExceed(now - info.lastActivity, timeout);
  }

  /** Exactly the sessions that had not expired are left, as they were. */
  ghost predicate Survivors(t: Table, now: int, timeout: int, t': Table) {
    && (forall u, s :: Listed(t', u, s) <==> Listed(t, u, s) && !Expired(t.userSessions[u][s], now, timeout))
    && (forall u, s :: Listed(t', u, s) ==> t'.userSessions[u][s] == t.userSessions[u][s])
  }

  /** Cleanup of an agreeing table keeps the agreement and leaves exactly the survivors. */
  lemma CleanupIsExact(t: Table, now: int, timeout: int, t': Table)
    requires Agree(t) && CleansUp(t, now, timeout, t')
    ensures Agree(t') && Survivors(t, now, timeout, t')
  {
    var dead: seq<(string, string)> :| ExactlyExpired(t, dead, now, timeout) && t' == RemoveAll(t, dead);
    forall i | 0 <= i < |dead| ensures Listed(t, dead[i].0, dead[i].1) {
      assert (dead[i].0, dead[i].1) in dead;
    }
    RemoveAllKeepsOthers(t, dead);
  }

  // ---- Runs ----------------------------------------------------------------------------------------

  datatype Call =
    | CallAdd(user: string, info: SessionInfo)
    | CallRemove(user: string, session: string)
    | CallTouch(user: string, session: string, now: int)
    | CallCleanup(timeout: int, at: int)

  /** A table after the call, as the contracts of the methods say. */
  ghost predicate Step(t: Table, c: Call, t': Table) {
    match c
    case CallAdd(user, info) => t' == Add(t, user, info)
    case CallRemove(user, session) => t' == Remove(t, user, session)
    case CallTouch(user, session, now) => t' == Touch(t, user, session, now)
    case CallCleanup(timeout, at) => CleansUp(t, at, timeout, t')
  }

  ghost predicate Behaves(t: Table, c: Call) {
    match c
    case CallAdd(user, info) => Owns(t, user, info.sessionId)
    case CallRemove(user, session) => Owns(t, user, session)
    case _ => true
  }

  /** In every run from the empty table whose callers name only their own sessions, every table agrees. */
  lemma {:induction false} RunsAgree(tables: seq<Table>, calls: seq<Call>)
    requires |tables| == |calls| + 1 && tables[0] == Table(map[], map[])
    requires forall i :: 0 <= i < |calls| ==> Step(tables[i], calls[i], tables[i + 1]) && Behaves(tables[i], calls[i])
    ensures forall t :: t in tables ==> Agree(t)
    decreases |calls|
  {
    var n := |calls|;
    if n > 0 {
      RunsAgree(tables[..n], calls[..n - 1]);
      var t, c := tables[n - 1], calls[n - 1];
      assert t in tables[..n] && Agree(t);
      match c {
        case CallAdd(user, info) => AddKeepsAgreement(t, user, info);
        case CallRemove(user, session) => RemoveKeepsAgreement(t, user, session);
        case CallTouch(user, session, now) => TouchKeepsAgreement(t, user, session, now);
        case CallCleanup(timeout, at) => CleanupIsExact(t, at, timeout, tables[n]);
      }
      assert Agree(tables[n]);
      assert tables == tables[..n] + [tables[n]];
    }
  }

  /** What one call does to what is known of one session of one user. */
  function EntryAfter(e: Option<SessionInfo>, c: Call, user: string, session: string): Option<SessionInfo> {
    match c
    case CallAdd(u, info) => if u == user && info.sessionId == session && e == None then Some(info) else e
    case CallRemove(u, s) => if u == user && s == session then None else e
    case CallTouch(u, s, now) => if u == user && s == session && e != None then Some(e.value.(lastActivity := now)) else e
    case CallCleanup(timeout, at) => if e != None && Expired(e.value, at, timeout) then None else e
  }

  /** What is known of it after a history, by the calls alone. */
  function EntryByCalls(calls: seq<Call>, user: string, session: string): Option<SessionInfo> {
    if calls == [] then None
    else EntryAfter(EntryByCalls(calls[..|calls| - 1], user, session), calls[|calls| - 1], user, session)
  }

  lemma StepEntry(t: Table, c: Call, t': Table, user: string, session: string)
    requires Agree(t) && Step(t, c, t')
    ensures Entry(t', user, session) == EntryAfter(Entry(t, user, session), c, user, session)
  {
    hide Agree;
    match c {
      case CallAdd(u, info) => AddListed(t, u, info);
      case CallRemove(u, s) => RemoveListed(t, u, s);
      case CallTouch(u, s, now) => TouchListed(t, u, s, now);
      case CallCleanup(timeout, at) => CleanupIsExact(t, at, timeout, t');
    }
  }

  /**
    The table refines one independent record per session: in every such run it lists exactly the sessions
    added and since then neither removed nor found expired, each with the address it was added with and
    the time it was last touched, or added if never.
  */
  lemma {:induction false} RunsFollowCalls(tables: seq<Table>, calls: seq<Call>, user: string, session: string)
    requires |tables| == |calls| + 1 && tables[0] == Table(map[], map[])
    requires forall i :: 0 <= i < |calls| ==> Step(tables[i], calls[i], tables[i + 1]) && Behaves(tables[i], calls[i])
    ensures Entry(tables[|calls|], user, session) == EntryByCalls(calls, user, session)
    decreases |calls|
  {
    hide Step, Agree, Behaves, EntryAfter;
    var n := |calls|;
    if n > 0 {
      RunsFollowCalls(tables[..n], calls[..n - 1], user, session);
      RunsAgree(tables[..n], calls[..n - 1]);
      assert tables[n - 1] in tables[..n];
      StepEntry(tables[n - 1], calls[n - 1], tables[n], user, session);
    }
  }
}
