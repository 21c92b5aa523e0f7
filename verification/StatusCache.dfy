/** The online status of users: a database table behind a Redis cache. */
module StatusCache {
  import opened Wrappers
  import opened Text
  import opened RedisStore

  // The protocol's enum; it is open, so a request may carry any other number too.
  const OFFLINE := 0
  const ONLINE := 1
  const AWAY := 2
  const BUSY := 3

  function StatusName(status: int): string {
    if status == ONLINE then "ONLINE"
    else if status == AWAY then "AWAY"
    else if status == BUSY then "BUSY"
    else "OFFLINE"
  }

  function StatusValue(name: string): int {
    if name == "ONLINE" then ONLINE
    else if name == "AWAY" then AWAY
    else if name == "BUSY" then BUSY
    else OFFLINE
  }

  /** Every status survives being written as text and read back; an unknown number becomes OFFLINE. */
  lemma StatusRoundTrip(status: int)
    ensures StatusValue(StatusName(status)) == if 0 <= status <= 3 then status else OFFLINE
  {
    assert |"ONLINE"| == 6 && |"AWAY"| == 4 && |"BUSY"| == 4 && |"OFFLINE"| == 7;
    assert "AWAY"[0] != "BUSY"[0];
  }

  /** The protocol's numbers against the texts of the table's ENUM column, as the schema seeds them. */
  lemma StatusTexts()
    ensures StatusName(0) == "OFFLINE" && StatusName(1) == "ONLINE" && StatusName(2) == "AWAY" && StatusName(3) == "BUSY"
    ensures StatusValue("OFFLINE") == 0 && StatusValue("ONLINE") == 1 && StatusValue("AWAY") == 2 && StatusValue("BUSY") == 3
  {
    assert |"ONLINE"| == 6 && |"AWAY"| == 4 && |"BUSY"| == 4 && |"OFFLINE"| == 7;
    assert "AWAY"[0] != "BUSY"[0];
  }

  function StatusKey(user: int): string {
    "user:status:" + ToDecimal(user)
  }

  lemma StatusKeysDiffer(u: int, v: int)
    requires u != v
    ensures StatusKey(u) != StatusKey(v)
  {
    if StatusKey(u) == StatusKey(v) {
      assert ToDecimal(u) == StatusKey(u)[12..] && ToDecimal(v) == StatusKey(v)[12..];
      DecimalInjective(u, v);
    }
  }

  /** The three HSETs of an update, each of which may fail. */
  datatype Writes = Writes(status: bool, token: bool, stamp: bool)

  function HSetIf(ok: bool, s: Store, key: string, field: string, value: string): Store {
    if ok then HSet(s, key, field, value) else s
  }

  function CacheStatus(s: Store, user: int, status: int, token: string, stamp: string, w: Writes): Store {
    var key := StatusKey(user);
    var s1 := HSetIf(w.status, s, key, "status", StatusName(status));
    var s2 := HSetIf(w.token, s1, key, "session_token", token);
    HSetIf(w.stamp, s2, key, "last_updated", stamp)
  }

  /** The hash of the user has each field whose HSET succeeded, and everything else in Redis is as it was. */
  lemma CacheWriteFields(s: Store, user: int, status: int, token: string, stamp: string, w: Writes)
    ensures var key, after := StatusKey(user), CacheStatus(s, user, status, token, stamp, w);
            && (w.status ==> "status" in HGetAll(after, key) && HGetAll(after, key)["status"] == StatusName(status))
            && (w.token ==> "session_token" in HGetAll(after, key) && HGetAll(after, key)["session_token"] == token)
            && (w.stamp ==> "last_updated" in HGetAll(after, key) && HGetAll(after, key)["last_updated"] == stamp)
            && (forall k :: k != key ==> HGetAll(after, k) == HGetAll(s, k))
            && after.zsets == s.zsets
  {
    hide StatusKey, StatusName;
    assert |"status"| == 6 && |"session_token"| == 13 && |"last_updated"| == 12;
  }

  /** What a successful cache read answers: an absent hash or field reads as OFFLINE. */
  function CachedStatus(s: Store, user: int): int {
    var h := HGetAll(s, StatusKey(user));
    if "status" in h then StatusValue(h["status"]) else OFFLINE
  }

  type Rows = map<int, string>

  function RowStatus(rows: Rows, user: int): int {
    if user in rows then StatusValue(rows[user]) else OFFLINE
  }

  /** The database write of an update. */
  function WriteRow(rows: Rows, user: int, status: int, ok: bool): Rows {
    if ok then rows[user := StatusName(status)] else rows
  }

  /** Cache and database give the same answer for the user. */
  predicate Coherent(rows: Rows, s: Store, user: int) {
    CachedStatus(s, user) == RowStatus(rows, user)
  }

  /** A cache write sets the status it names, if its first HSET succeeds, and no other user's. */
  lemma CacheStatusEffect(s: Store, user: int, status: int, token: string, stamp: string, w: Writes, u: int)
    ensures CachedStatus(CacheStatus(s, user, status, token, stamp, w), u)
              == if u == user && w.status then StatusValue(StatusName(status)) else CachedStatus(s, u)
  {
    assert |"status"| == 6 && |"session_token"| == 13 && |"last_updated"| == 12;
    if u != user {
      StatusKeysDiffer(u, user);
    }
  }

  /**
    What an update does to the coherence of any user u, from any state. Another user keeps what it had;
    two successful writes make u coherent, two failed ones leave it as it was, and a single write makes
    it coherent if and only if it writes what the other store says.
  */
  lemma UpdateCoherence(rows: Rows, s: Store, user: int, status: int, token: string, stamp: string,
                        dbOk: bool, w: Writes, u: int)
    ensures Coherent(WriteRow(rows, user, status, dbOk), CacheStatus(s, user, status, token, stamp, w), u)
         == if u != user || (!dbOk && !w.status) then Coherent(rows, s, u)
            else if dbOk && w.status then true
            else StatusValue(StatusName(status)) == if dbOk then CachedStatus(s, u) else RowStatus(rows, u)
  {
    CacheStatusEffect(s, user, status, token, stamp, w, u);
  }

  /** Writing a row's own status back makes its user coherent if the first HSET succeeds, and changes no other. */
  lemma WriteBackCoherence(rows: Rows, s: Store, user: int, token: string, stamp: string, w: Writes, u: int)
    requires user in rows
    ensures Coherent(rows, CacheStatus(s, user, RowStatus(rows, user), token, stamp, w), u)
         == (Coherent(rows, s, u) || (u == user && w.status))
  {
    CacheStatusEffect(s, user, RowStatus(rows, user), token, stamp, w, u);
    StatusRoundTrip(RowStatus(rows, user));
  }

  /** GetUserStatus: the cache first, then the table; None is "user not found". */
  function Answer(rows: Rows, s: Store, user: int, cacheReadOk: bool, dbReadOk: bool): Option<int> {
    if cacheReadOk then Some(CachedStatus(s, user))
    else if dbReadOk && user in rows then Some(RowStatus(rows, user))
    else None
  }

  /** There is an answer exactly if the cache can be read, or the table can and has a row; a hit answers from the cache. */
  lemma AnswerExistsIff(rows: Rows, s: Store, user: int, cacheReadOk: bool, dbReadOk: bool)
    ensures var answer := Answer(rows, s, user, cacheReadOk, dbReadOk);
            && (answer != None <==> cacheReadOk || (dbReadOk && user in rows))
            && (cacheReadOk ==> answer == Some(CachedStatus(s, user)))
            && (!cacheReadOk && answer != None ==> answer == Some(RowStatus(rows, user)))
  {
  }

  // ---- Runs --------------------------------------------------------------------------------------

  datatype Event =
    | Update(user: int, status: int, token: string, stamp: string, dbOk: bool, writes: Writes)
    | WriteBack(user: int, token: string, stamp: string, writes: Writes)

  function After(rows: Rows, s: Store, history: seq<Event>): (Rows, Store) {
    if history == [] then (rows, s)
    else
      var (r, c) := After(rows, s, history[..|history| - 1]);
      match history[|history| - 1]
      case Update(u, status, token, stamp, dbOk, w) => (WriteRow(r, u, status, dbOk), CacheStatus(c, u, status, token, stamp, w))
      case WriteBack(u, token, stamp, w) =>
        (r, if u in r then CacheStatus(c, u, RowStatus(r, u), token, stamp, w) else c)
  }

  /** The reference map: the status last written for a user, over what the table started with. */
  function LastWritten(rows: Rows, history: seq<Event>, user: int): int {
    if history == [] then RowStatus(rows, user)
    else
      var e := history[|history| - 1];
      if e.Update? && e.user == user && e.dbOk then StatusValue(StatusName(e.status))
      else LastWritten(rows, history[..|history| - 1], user)
  }

  /** Every update of the user writes its status to both stores or to neither. */
  ghost predicate WritesAgree(history: seq<Event>, user: int) {
    forall i :: 0 <= i < |history| && history[i].Update? && history[i].user == user
      ==> history[i].dbOk == history[i].writes.status
  }

  /** The history has put a status of the user into the cache: by an update, or by writing the row back. */
  predicate Touched(rows: Rows, s: Store, history: seq<Event>, user: int) {
    history != [] &&
    var before, e := history[..|history| - 1], history[|history| - 1];
    || Touched(rows, s, before, user)
    || (e.user == user && if e.Update? then e.dbOk else e.writes.status && user in After(rows, s, before).0)
  }

  /** The table is the last-written map, whatever the cache does. */
  lemma {:induction false} TableIsLastWritten(rows: Rows, s: Store, history: seq<Event>, user: int)
    ensures RowStatus(After(rows, s, history).0, user) == LastWritten(rows, history, user)
  {
    if history != [] {
      TableIsLastWritten(rows, s, history[..|history| - 1], user);
    }
  }

  /** The user's row: there from the start, or put in by a successful update. */
  predicate HasRow(rows: Rows, history: seq<Event>, user: int) {
    if history == [] then user in rows
    else
      var e := history[|history| - 1];
      (e.Update? && e.user == user && e.dbOk) || HasRow(rows, history[..|history| - 1], user)
  }

  lemma {:induction false} RowsAreKept(rows: Rows, s: Store, history: seq<Event>, user: int)
    ensures user in After(rows, s, history).0 <==> HasRow(rows, history, user)
  {
    if history != [] {
      RowsAreKept(rows, s, history[..|history| - 1], user);
    }
  }

  /**
    Whether there is an answer, over every history; and without the cache it is always the last status
    written, whatever the cache holds.
  */
  lemma AnswersWithoutCache(rows: Rows, s: Store, history: seq<Event>, user: int, cacheReadOk: bool, dbReadOk: bool)
    ensures var (r, c) := After(rows, s, history);
            var answer := Answer(r, c, user, cacheReadOk, dbReadOk);
            && (answer != None <==> cacheReadOk || (dbReadOk && HasRow(rows, history, user)))
            && (!cacheReadOk && dbReadOk && HasRow(rows, history, user) ==>
                  answer == Some(LastWritten(rows, history, user)))
  {
    var (r, c) := After(rows, s, history);
    RowsAreKept(rows, s, history, user);
    TableIsLastWritten(rows, s, history, user);
    AnswerExistsIff(r, c, user, cacheReadOk, dbReadOk);
  }

  /** After any history a user is coherent if and only if it was touched or coherent from the start. */
  lemma {:induction false} CoherentAfterIff(rows: Rows, s: Store, history: seq<Event>, user: int)
    requires WritesAgree(history, user)
    ensures Coherent(After(rows, s, history).0, After(rows, s, history).1, user)
        <==> Touched(rows, s, history, user) || Coherent(rows, s, user)
  {
    hide Coherent;
    if history != [] {
      var n := |history| - 1;
      CoherentAfterIff(rows, s, history[..n], user);
      var (r, c) := After(rows, s, history[..n]);
      match history[n] {
        case Update(u, status, token, stamp, dbOk, w) =>
          UpdateCoherence(r, c, u, status, token, stamp, dbOk, w, user);
        case WriteBack(u, token, stamp, w) =>
          if u in r {
            WriteBackCoherence(r, c, u, token, stamp, w, user);
          }
      }
    }
  }

  /**
    The cached table refines a plain map, user by user and from any start, exactly as far as it can: if
    the two status writes of every update of a user succeed or fail together, then every answer about
    the user, whichever store it comes from, is the last status written, or OFFLINE if there is none,
    if and only if the history has touched the user or its cache entry was right to begin with.
  */
  lemma AnswersAreLastWrittenIff(rows: Rows, s: Store, history: seq<Event>, user: int)
    requires WritesAgree(history, user)
    ensures var (r, c) := After(rows, s, history);
            (forall cacheReadOk, dbReadOk ::
               var answer := Answer(r, c, user, cacheReadOk, dbReadOk);
               answer != None ==> answer.value == LastWritten(rows, history, user))
            <==> Touched(rows, s, history, user) || Coherent(rows, s, user)
    ensures forall dbReadOk ::
              Answer(After(rows, s, history).0, After(rows, s, history).1, user, true, dbReadOk) != None
  {
    var (r, c) := After(rows, s, history);
    CoherentAfterIff(rows, s, history, user);
    TableIsLastWritten(rows, s, history, user);
    assert Answer(r, c, user, true, true) == Some(CachedStatus(c, user));
  }

  /** Such a start is the schema's: a seeded row beside an empty cache reads as OFFLINE until it is touched. */
  lemma UncachedRowReadsOffline(user: int, dbReadOk: bool)
    ensures var rows, empty := map[user := "ONLINE"], Store(map[], map[]);
            && RowStatus(rows, user) == ONLINE
            && Answer(rows, empty, user, true, dbReadOk) == Some(OFFLINE)
            && !Coherent(rows, empty, user)
  {
    StatusRoundTrip(ONLINE);
    var rows, empty := map[user := "ONLINE"], Store(map[], map[]);
    assert CachedStatus(empty, user) != RowStatus(rows, user);
  }

  /** With an empty cache exactly the users whose row says OFFLINE, or who have no row, start coherent. */
  lemma CoherentWithEmptyCache(rows: Rows, s: Store, user: int)
    requires s.hashes == map[]
    ensures Coherent(rows, s, user) <==> RowStatus(rows, user) == OFFLINE
  {
  }
}
