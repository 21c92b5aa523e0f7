/**
  The status service: a status table and a friends table, with Redis in front of both. Every database
  query and every Redis command either succeeds or fails; which of them do are the parameters. One call
  is one atomic step here; interleaved AddFriend calls are in module Friendship.
*/
module StatusService {
  import opened Wrappers
  import opened Text
  import opened RedisStore
  import opened StatusCache
  import opened FriendsCache
  import opened Friendship

  /** The outcomes of the commands GetFriendsStatus issues, by position of the friend where there are many. */
  datatype Outcomes = Outcomes(
    listRead: bool, listQuery: bool, listDel: bool, listAdds: nat -> bool,
    statusRead: nat -> bool, statusQuery: nat -> bool, writeBack: nat -> Writes, stamp: string)

  /** The list GetFriendsStatus works from, and the cache after looking it up; `queried` is what the query returns. */
  function ListLookup(s: Store, user: int, queried: seq<int>, o: Outcomes): (Store, seq<int>) {
    var cached := if o.listRead then CachedFriends(s, user) else [];
    if cached != [] then (s, cached)
    else (CacheFriends(s, user, queried, o.listDel, seq(|queried|, i requires 0 <= i < |queried| => o.listAdds(i))), queried)
  }

  /** One friend: the cache after a possible write-back, and the status if one could be read. */
  function FriendLookup(rows: Rows, s: Store, id: int, i: nat, o: Outcomes): (Store, Option<int>) {
    if o.statusRead(i) then (s, Some(CachedStatus(s, id)))
    else if o.statusQuery(i) && id in rows then
      (CacheStatus(s, id, RowStatus(rows, id), "", o.stamp, o.writeBack(i)), Some(RowStatus(rows, id)))
    else (s, None)
  }

  /** The cache and the reply entries after the first n friends. */
  function FriendsPass(rows: Rows, s: Store, ids: seq<int>, n: nat, o: Outcomes): (Store, seq<(int, int)>)
    requires n <= |ids|
  {
    if n == 0 then (s, [])
    else
      var (s1, replies) := FriendsPass(rows, s, ids, n - 1, o);
      var (s2, status) := FriendLookup(rows, s1, ids[n - 1], n - 1, o);
      (s2, replies + if status == None then [] else [(ids[n - 1], status.value)])
  }

  /** The reference reply: the friends whose status can be read, each with the status in the table. */
  function Readable(rows: Rows, ids: seq<int>, n: nat, o: Outcomes): seq<(int, int)>
    requires n <= |ids|
  {
    if n == 0 then []
    else
      Readable(rows, ids, n - 1, o)
      + if o.statusRead(n - 1) || (o.statusQuery(n - 1) && ids[n - 1] in rows)
        then [(ids[n - 1], RowStatus(rows, ids[n - 1]))] else []
  }

  // ---- Which replies are right -------------------------------------------------------------------

  /** The i-th friend's status is read from the table and put back into the cache. */
  predicate WritesBack(rows: Rows, id: int, i: nat, o: Outcomes) {
    !o.statusRead(i) && o.statusQuery(i) && id in rows && o.writeBack(i).status
  }

  /** One friend's lookup: what is answered, and whom it makes coherent. */
  lemma FriendLookupEffect(rows: Rows, s: Store, id: int, i: nat, o: Outcomes, u: int)
    ensures FriendLookup(rows, s, id, i, o).1
         == if o.statusRead(i) then Some(CachedStatus(s, id))
            else if o.statusQuery(i) && id in rows then Some(RowStatus(rows, id)) else None
    ensures Coherent(rows, FriendLookup(rows, s, id, i, o).0, u)
         == (Coherent(rows, s, u) || (u == id && WritesBack(rows, id, i, o)))
  {
    if id in rows {
      WriteBackCoherence(rows, s, id, "", o.stamp, o.writeBack(i), u);
    }
  }

  /** One of the first n lookups writes the user's row back. */
  predicate Renewed(rows: Rows, ids: seq<int>, n: nat, o: Outcomes, u: int)
    requires n <= |ids|
  {
    exists j: nat :: j < n && ids[j] == u && WritesBack(rows, ids[j], j, o)
  }

  lemma RenewedStep(rows: Rows, ids: seq<int>, n: nat, o: Outcomes, u: int)
    requires n < |ids|
    ensures Renewed(rows, ids, n + 1, o, u) <==> Renewed(rows, ids, n, o, u) || (ids[n] == u && WritesBack(rows, ids[n], n, o))
  {
    hide WritesBack;
  }

  /** The loop over the friends makes exactly the renewed users coherent and spoils nobody. */
  lemma {:induction false} FriendsPassCoherence(rows: Rows, s: Store, ids: seq<int>, n: nat, o: Outcomes, u: int)
    requires n <= |ids|
    ensures Coherent(rows, FriendsPass(rows, s, ids, n, o).0, u) <==> Coherent(rows, s, u) || Renewed(rows, ids, n, o, u)
  {
    hide Coherent, FriendLookup, WritesBack;
    if n > 0 {
      RenewedStep(rows, ids, n - 1, o, u);
      hide Renewed;
      FriendsPassCoherence(rows, s, ids, n - 1, o, u);
      FriendLookupEffect(rows, FriendsPass(rows, s, ids, n - 1, o).0, ids[n - 1], n - 1, o, u);
    }
  }

  /** The i-th reply is right: not from the cache, or about a user coherent at the start or renewed before. */
  predicate Sound(rows: Rows, s: Store, ids: seq<int>, i: nat, o: Outcomes)
    requires i < |ids|
  {
    o.statusRead(i) ==> Coherent(rows, s, ids[i]) || Renewed(rows, ids, i, o, ids[i])
  }

  /** The n-th step adds the reference entry, or an entry that is wrong exactly when it is not sound. */
  lemma ReplyStep(rows: Rows, s: Store, ids: seq<int>, n: nat, o: Outcomes)
    requires n < |ids|
    ensures var status := FriendLookup(rows, FriendsPass(rows, s, ids, n, o).0, ids[n], n, o).1;
            && (status != None <==> o.statusRead(n) || (o.statusQuery(n) && ids[n] in rows))
            && (Sound(rows, s, ids, n, o) <==> status == None || status.value == RowStatus(rows, ids[n]))
  {
    hide Renewed, FriendLookup;
    FriendsPassCoherence(rows, s, ids, n, o, ids[n]);
    FriendLookupEffect(rows, FriendsPass(rows, s, ids, n, o).0, ids[n], n, o, ids[n]);
  }

  /**
    From any cache the reply lists, in order, exactly the friends whose status could be read; each has
    the status in the table if and only if every reply read from the cache is about a user whose entry
    was right at the start of the call or was renewed earlier in it.
  */
  lemma {:induction false} FriendsPassIsFaithfulIff(rows: Rows, s: Store, ids: seq<int>, n: nat, o: Outcomes)
    requires n <= |ids|
    ensures |FriendsPass(rows, s, ids, n, o).1| == |Readable(rows, ids, n, o)|
    ensures FriendsPass(rows, s, ids, n, o).1 == Readable(rows, ids, n, o)
        <==> forall i: nat :: i < n ==> Sound(rows, s, ids, i, o)
  {
    hide Sound, FriendLookup;
    if n > 0 {
      FriendsPassIsFaithfulIff(rows, s, ids, n - 1, o);
      ReplyStep(rows, s, ids, n - 1, o);
      var status := FriendLookup(rows, FriendsPass(rows, s, ids, n - 1, o).0, ids[n - 1], n - 1, o).1;
      SameReplies(FriendsPass(rows, s, ids, n - 1, o).1, Readable(rows, ids, n - 1, o), ids[n - 1], status, RowStatus(rows, ids[n - 1]));
      assert (forall i: nat :: i < n ==> Sound(rows, s, ids, i, o))
        <==> (forall i: nat :: i < n - 1 ==> Sound(rows, s, ids, i, o)) && Sound(rows, s, ids, n - 1, o);
    }
  }

  lemma SameReplies(xs: seq<(int, int)>, ys: seq<(int, int)>, id: int, status: Option<int>, expected: int)
    requires |xs| == |ys|
    ensures status != None ==>
              (xs + [(id, status.value)] == ys + [(id, expected)] <==> xs == ys && status.value == expected)
    ensures xs + [] == ys + [] <==> xs == ys
  {
    assert xs + [] == xs && ys + [] == ys;
    if status != None && xs + [(id, status.value)] == ys + [(id, expected)] {
      var n := |xs|;
      assert (xs + [(id, status.value)])[..n] == xs && (ys + [(id, expected)])[..n] == ys;
      assert (xs + [(id, status.value)])[n] == (ys + [(id, expected)])[n];
    }
  }

  lemma FriendsKeyIsNoStatusKey(u: int, v: int)
    ensures StatusKey(u) != FriendsKey(v)
  {
    assert StatusKey(u)[5] == 's' && FriendsKey(v)[5] == 'f';
  }

  lemma {:induction false} AddFriendsKeepsHashes(s: Store, key: string, ids: seq<int>, oks: seq<bool>)
    requires |oks| <= |ids|
    ensures AddFriends(s, key, ids, oks).hashes == s.hashes
  {
    if oks != [] {
      AddFriendsKeepsHashes(s, key, ids, oks[..|oks| - 1]);
    }
  }

  /** Refilling a friends list changes no cached status. */
  lemma CacheFriendsKeepsStatuses(s: Store, user: int, ids: seq<int>, delOk: bool, oks: seq<bool>, u: int)
    requires |oks| == |ids|
    ensures CachedStatus(CacheFriends(s, user, ids, delOk, oks), u) == CachedStatus(s, u)
  {
    AddFriendsKeepsHashes(DelIf(delOk, s, FriendsKey(user)), FriendsKey(user), ids, oks);
    FriendsKeyIsNoStatusKey(u, user);
    assert HGetAll(CacheFriends(s, user, ids, delOk, oks), StatusKey(u)) == HGetAll(s, StatusKey(u));
  }

  /** Nor does looking it up, which refills it on a miss. */
  lemma ListLookupKeepsStatuses(s: Store, user: int, queried: seq<int>, o: Outcomes, u: int)
    ensures CachedStatus(ListLookup(s, user, queried, o).0, u) == CachedStatus(s, u)
  {
    hide CachedStatus, CacheFriends, CachedFriends;
    CacheFriendsKeepsStatuses(s, user, queried, o.listDel, seq(|queried|, i requires 0 <= i < |queried| => o.listAdds(i)), u);
  }

  /**
    A whole GetFriendsStatus, from any cache: the replies are the table's statuses if and only if those
    read from the cache are sound, and the call leaves coherent exactly whom it found so or renewed.
  */
  lemma FriendsStatusIsFaithfulIff(rows: Rows, s: Store, user: int, queried: seq<int>, o: Outcomes, u: int)
    ensures var (looked, ids) := ListLookup(s, user, queried, o);
            var (after, replies) := FriendsPass(rows, looked, ids, |ids|, o);
            && (replies == Readable(rows, ids, |ids|, o) <==> forall i: nat :: i < |ids| ==> Sound(rows, s, ids, i, o))
            && (Coherent(rows, after, u) <==> Coherent(rows, s, u) || Renewed(rows, ids, |ids|, o, u))
  {
    hide FriendsPass, Readable, Renewed, CachedStatus, ListLookup;
    var (looked, ids) := ListLookup(s, user, queried, o);
    ListLookupKeepsStatuses(s, user, queried, o, u);
    FriendsPassIsFaithfulIff(rows, looked, ids, |ids|, o);
    FriendsPassCoherence(rows, looked, ids, |ids|, o, u);
    forall i: nat | i < |ids| ensures Sound(rows, s, ids, i, o) <==> Sound(rows, looked, ids, i, o) {
      ListLookupKeepsStatuses(s, user, queried, o, ids[i]);
    }
  }

  /** The list a call works from: a non-empty list that could be read, and in every other case the table's. */
  lemma LookedUpList(s: Store, user: int, queried: seq<int>, o: Outcomes)
    ensures var (looked, ids) := ListLookup(s, user, queried, o);
            && (o.listRead && CachedFriends(s, user) != [] ==> looked == s && ids == CachedFriends(s, user))
            && (!o.listRead || CachedFriends(s, user) == [] ==> ids == queried)
  {
    hide CachedFriends, CacheFriends;
  }

  lemma LookupAnswers(rows: Rows, s: Store, id: int, i: nat, o: Outcomes)
    ensures FriendLookup(rows, s, id, i, o).1 != None <==> o.statusRead(i) || (o.statusQuery(i) && id in rows)
  {
    hide CacheStatus, CachedStatus, RowStatus;
  }

  /** If every status can be read, from cache or table, every friend on the list is answered for, in its order. */
  lemma {:induction false} RepliesNameFriends(rows: Rows, s: Store, ids: seq<int>, n: nat, o: Outcomes)
    requires n <= |ids|
    requires forall i: nat :: i < n ==> o.statusRead(i) || (o.statusQuery(i) && ids[i] in rows)
    ensures |FriendsPass(rows, s, ids, n, o).1| == n
    ensures forall i :: 0 <= i < n ==> FriendsPass(rows, s, ids, n, o).1[i].0 == ids[i]
  {
    hide FriendLookup;
    if n > 0 {
      RepliesNameFriends(rows, s, ids, n - 1, o);
      LookupAnswers(rows, FriendsPass(rows, s, ids, n - 1, o).0, ids[n - 1], n - 1, o);
    }
  }

  lemma FriendLookupKeepsLists(rows: Rows, s: Store, id: int, i: nat, o: Outcomes)
    ensures FriendLookup(rows, s, id, i, o).0.zsets == s.zsets
  {
  }

  lemma {:induction false} FriendsPassKeepsLists(rows: Rows, s: Store, ids: seq<int>, n: nat, o: Outcomes)
    requires n <= |ids|
    ensures FriendsPass(rows, s, ids, n, o).0.zsets == s.zsets
  {
    hide FriendLookup;
    if n > 0 {
      FriendsPassKeepsLists(rows, s, ids, n - 1, o);
      FriendLookupKeepsLists(rows, FriendsPass(rows, s, ids, n - 1, o).0, ids[n - 1], n - 1, o);
    }
  }

  /** What the loop over the friends writes leaves every cached friends list as it was. */
  lemma FriendsPassKeepsCachedLists(rows: Rows, s: Store, ids: seq<int>, o: Outcomes, user: int)
    ensures CachedFriends(FriendsPass(rows, s, ids, |ids|, o).0, user) == CachedFriends(s, user)
  {
    FriendsPassKeepsLists(rows, s, ids, |ids|, o);
    var after := FriendsPass(rows, s, ids, |ids|, o).0;
    assert ZSet(after, FriendsKey(user)) == ZSet(s, FriendsKey(user));
  }

  /** A whole GetFriendsStatus for one user leaves the cached friends list of every other user as it was. */
  lemma OtherListsAreKept(rows: Rows, s: Store, user: int, queried: seq<int>, o: Outcomes, u: int)
    requires u != user
    ensures var (looked, ids) := ListLookup(s, user, queried, o);
            CachedFriends(FriendsPass(rows, looked, ids, |ids|, o).0, u) == CachedFriends(s, u)
  {
    hide CachedFriends, FriendsPass, CacheFriends;
    var (looked, ids) := ListLookup(s, user, queried, o);
    CacheFriendsKeepsOthers(s, user, queried, o.listDel, seq(|queried|, i requires 0 <= i < |queried| => o.listAdds(i)), u);
    FriendsPassKeepsCachedLists(rows, looked, ids, o, u);
  }

  /**
    Across two calls: after a miss whose DEL succeeds, a call that can read the list works from the
    friends whose ZADD succeeded, in the order the query gave; with none of them it misses again.
  */
  lemma NextLookup(rows: Rows, s: Store, user: int, queried: seq<int>, o: Outcomes, again: seq<int>, o': Outcomes)
    requires !(o.listRead && CachedFriends(s, user) != []) && o.listDel
    requires Distinct(queried) && AllInt32(queried) && o'.listRead
    ensures var (looked, ids) := ListLookup(s, user, queried, o);
            var kept := Kept(queried, seq(|queried|, i requires 0 <= i < |queried| => o.listAdds(i)));
            ListLookup(FriendsPass(rows, looked, ids, |ids|, o).0, user, again, o').1 == if kept != [] then kept else again
  {
    var oks := seq(|queried|, i requires 0 <= i < |queried| => o.listAdds(i));
    var (looked, ids) := ListLookup(s, user, queried, o);
    FriendsRoundTrip(s, user, queried, o.listDel, oks);
    FriendsPassKeepsCachedLists(rows, looked, ids, o, user);
  }

  class StatusService {
    const users: set<int>
    var userStatus: Rows
    var userFriends: set<Edge>
    var redis: Store

    constructor (users: set<int>, userStatus: Rows, userFriends: set<Edge>, redis: Store)
      ensures this.users == users && this.userStatus == userStatus && this.userFriends == userFriends && this.redis == redis
    {
      this.users, this.userStatus, this.userFriends, this.redis := users, userStatus, userFriends, redis;
    }

    // ---- Status ----------------------------------------------------------------------------------

    method UpdateUserStatusInDB(user: int, status: int, dbOk: bool) returns (ok: bool)
      modifies this`userStatus
      ensures ok == dbOk && userStatus == WriteRow(old(userStatus), user, status, dbOk)
    {
      if dbOk {
        userStatus := userStatus[user := StatusName(status)];
      }
      ok := dbOk;
    }

    method UpdateUserStatusInCache(user: int, status: int, token: string, stamp: string, w: Writes) returns (ok: bool)
      modifies this`redis
      ensures ok == (w.status && w.token && w.stamp)
      ensures redis == CacheStatus(old(redis), user, status, token, stamp, w)
    {
      var key := StatusKey(user);
      if w.status {
        redis := HSet(redis, key, "status", StatusName(status));
      }
      if w.token {
        redis := HSet(redis, key, "session_token", token);
      }
      if w.stamp {
        redis := HSet(redis, key, "last_updated", stamp);
      }
      ok := w.status && w.token && w.stamp;
    }

    method UpdateUserStatus(user: int, status: int, token: string, stamp: string, dbOk: bool, w: Writes)
      returns (success: bool)
      modifies this`userStatus, this`redis
      ensures success == dbOk
      ensures userStatus == WriteRow(old(userStatus), user, status, dbOk)
      ensures redis == CacheStatus(old(redis), user, status, token, stamp, w)
    {
      success := UpdateUserStatusInDB(user, status, dbOk);
      var cacheSuccess := UpdateUserStatusInCache(user, status, token, stamp, w);
    }

    method GetUserStatusFromCache(user: int, readOk: bool) returns (ok: bool, status: int)
      ensures ok == readOk && (ok ==> status == CachedStatus(redis, user))
    {
      status := OFFLINE;
      if !readOk {
        return false, status;
      }
      var result := HGetAll(redis, StatusKey(user));
      if "status" in result {
        status := StatusValue(result["status"]);
      }
      ok := true;
    }

    method GetUserStatusFromDB(user: int, queryOk: bool) returns (ok: bool, status: int)
      ensures ok == (queryOk && user in userStatus) && (ok ==> status == RowStatus(userStatus, user))
    {
      if !queryOk || user !in userStatus {
        return false, OFFLINE;
      }
      return true, StatusValue(userStatus[user]);
    }

    method GetUserStatus(user: int, cacheReadOk: bool, dbReadOk: bool) returns (answer: Option<int>)
      ensures answer == Answer(userStatus, redis, user, cacheReadOk, dbReadOk)
      ensures cacheReadOk ==> answer == Some(CachedStatus(redis, user))
      ensures !cacheReadOk && dbReadOk && user in userStatus ==> answer == Some(RowStatus(userStatus, user))
      ensures !cacheReadOk && !(dbReadOk && user in userStatus) ==> answer == None
    {
      var ok, status := GetUserStatusFromCache(user, cacheReadOk);
      if ok {
        return Some(status);
      }
      ok, status := GetUserStatusFromDB(user, dbReadOk);
      answer := if ok then Some(status) else None;
    }

    // ---- Friends ---------------------------------------------------------------------------------

    method FriendExistsInDB(user: int, friend: int, queryOk: bool) returns (found: bool)
      ensures found == (queryOk && (user, friend) in userFriends)
    {
      found := queryOk && (user, friend) in userFriends;
    }

    method AddFriendToDB(user: int, friend: int, queryOk: bool) returns (ok: bool)
      modifies this`userFriends
      ensures ok == queryOk
      ensures userFriends == if queryOk then InsertIgnore(old(userFriends), user, friend, users) else old(userFriends)
    {
      if queryOk && user in users && friend in users {
        userFriends := userFriends + {(user, friend)};
      }
      ok := queryOk;
    }

    method AddFriend(user: int, friend: int, checkOk: bool, firstOk: bool, secondOk: bool) returns (success: bool)
      modifies this`userFriends
      ensures var (edges, phase) := Uninterrupted(old(userFriends), user, friend, checkOk, firstOk, secondOk, users);
              userFriends == edges && success == (phase == Succeeded)
      ensures success <==> !(checkOk && (user, friend) in old(userFriends)) && firstOk && secondOk
      ensures userFriends == old(userFriends)
                + (if !(checkOk && (user, friend) in old(userFriends)) && firstOk && user in users && friend in users
                   then {(user, friend)} + (if secondOk then {(friend, user)} else {}) else {})
    {
      var already := FriendExistsInDB(user, friend, checkOk);
      if already {
        return false;
      }
      success := AddFriendToDB(user, friend, firstOk);
      if success {
        success := AddFriendToDB(friend, user, secondOk);
      }
    }

    /** The friends of a user, each once, in the order the query happens to return them. */
    method GetFriendsIds(user: int, queryOk: bool) returns (ids: seq<int>)
      ensures Distinct(ids)
      ensures forall b :: b in ids <==> queryOk && (user, b) in userFriends
    {
      ids := [];
      if !queryOk {
        return;
      }
      var left := set e | e in userFriends && e.0 == user;
      while left != {}
        invariant left <= userFriends && forall e :: e in left ==> e.0 == user
        invariant Distinct(ids)
        invariant forall b :: b in ids <==> (user, b) in userFriends && (user, b) !in left
      {
        var e :| e in left;
        ids := ids + [e.1];
        left := left - {e};
      }
    }

    method CacheFriendsList(user: int, ids: seq<int>, delOk: bool, addOk: nat -> bool)
      modifies this`redis
      ensures redis == CacheFriends(old(redis), user, ids, delOk, seq(|ids|, i requires 0 <= i < |ids| => addOk(i)))
    {
      var key := FriendsKey(user);
      ghost var oks := seq(|ids|, i requires 0 <= i < |ids| => addOk(i));
      if delOk {
        redis := Del(redis, key);
      }
      ghost var cleared := redis;
      assert cleared == DelIf(delOk, old(redis), key) && AddFriends(cleared, key, ids, oks[..0]) == cleared;
      hide AddFriends, ZAdd, Del, DelIf, ToDecimal;
      for i := 0 to |ids|
        invariant redis == AddFriends(cleared, key, ids, oks[..i])
      {
        AddFriendsStep(cleared, key, ids, oks, i);
        if addOk(i) {
          redis := ZAdd(redis, key, i, ToDecimal(ids[i]));
        }
      }
      assert oks[..|ids|] == oks;
    }

    /** An empty list counts as a miss. */
    method GetCachedFriendsList(user: int, readOk: bool) returns (ok: bool, ids: seq<int>)
      ensures ok <==> readOk && CachedFriends(redis, user) != []
      ensures ids == if readOk then CachedFriends(redis, user) else []
    {
      ids := [];
      if !readOk {
        return false, [];
      }
      hide ParseMembers, Stoi, FriendsKey, ZRangeAll;
      var result := ZRangeAll(redis, FriendsKey(user));
      ParseMembersNone(result);
      for i := 0 to |result|
        invariant ids == ParseMembers(result[..i])
      {
        ParseMembersLast(result[..i], result[i]);
        assert result[..i + 1] == result[..i] + [result[i]];
        var r := Stoi(result[i], 10);
        if r.Some? {
          ids := ids + [r.value];
        }
      }
      assert result[..|result|] == result;
      ok := ids != [];
    }

    method FriendsFor(user: int, o: Outcomes) returns (ids: seq<int>, ghost queried: seq<int>)
      modifies this`redis
      ensures o.listRead && old(CachedFriends(redis, user)) != [] ==> queried == []
      ensures !(o.listRead && old(CachedFriends(redis, user)) != []) ==>
                Distinct(queried) && forall b :: b in queried <==> o.listQuery && (user, b) in userFriends
      ensures (redis, ids) == ListLookup(old(redis), user, queried, o)
      ensures ids == if o.listRead && old(CachedFriends(redis, user)) != [] then old(CachedFriends(redis, user)) else queried
    {
      var found;
      found, ids := GetCachedFriendsList(user, o.listRead);
      queried := [];
      if !found {
        ids := GetFriendsIds(user, o.listQuery);
        queried := ids;
        CacheFriendsList(user, ids, o.listDel, o.listAdds);
      }
    }

    method FriendStatus(id: int, i: nat, o: Outcomes) returns (ok: bool, status: int)
      modifies this`redis
      ensures var (s, r) := FriendLookup(userStatus, old(redis), id, i, o);
              redis == s && ok == (r != None) && (ok ==> status == r.value)
    {
      ok, status := GetUserStatusFromCache(id, o.statusRead(i));
      if !ok {
        ok, status := GetUserStatusFromDB(id, o.statusQuery(i));
        if ok {
          var _ := UpdateUserStatusInCache(id, status, "", o.stamp, o.writeBack(i));
        }
      }
    }

    method RepliesFor(ids: seq<int>, o: Outcomes) returns (replies: seq<(int, int)>)
      modifies this`redis
      ensures (redis, replies) == FriendsPass(userStatus, old(redis), ids, |ids|, o)
    {
      hide FriendLookup;
      replies := [];
      for i := 0 to |ids|
        invariant (redis, replies) == FriendsPass(userStatus, old(redis), ids, i, o)
      {
        ghost var before := FriendsPass(userStatus, old(redis), ids, i, o);
        ghost var step := FriendLookup(userStatus, before.0, ids[i], i, o);
        var ok, status := FriendStatus(ids[i], i, o);
        assert redis == step.0 && ok == (step.1 != None);
        if ok {
          replies := replies + [(ids[i], status)];
        }
        assert replies == before.1 + if step.1 == None then [] else [(ids[i], step.1.value)];
      }
    }

    method GetFriendsStatus(user: int, o: Outcomes) returns (replies: seq<(int, int)>, ghost queried: seq<int>)
      modifies this`redis
      ensures o.listRead && old(CachedFriends(redis, user)) != [] ==> queried == []
      ensures !(o.listRead && old(CachedFriends(redis, user)) != []) ==>
                Distinct(queried) && forall b :: b in queried <==> o.listQuery && (user, b) in userFriends
      ensures var (s, ids) := ListLookup(old(redis), user, queried, o);
              (redis, replies) == FriendsPass(userStatus, s, ids, |ids|, o)
    {
      var ids;
      ids, queried := FriendsFor(user, o);
      replies := RepliesFor(ids, o);
    }
  }
}
