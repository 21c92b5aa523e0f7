/** The cached friends list: a sorted set scored by position, cleared and refilled by non-atomic commands. */
module FriendsCache {
  import opened Wrappers
  import opened Text
  import opened RedisStore

  function FriendsKey(user: int): string {
    "user:friends:" + ToDecimal(user)
  }

  lemma FriendsKeysDiffer(u: int, v: int)
    requires u != v
    ensures FriendsKey(u) != FriendsKey(v)
  {
    if FriendsKey(u) == FriendsKey(v) {
      assert ToDecimal(u) == FriendsKey(u)[13..] && ToDecimal(v) == FriendsKey(v)[13..];
      DecimalInjective(u, v);
    }
  }

  function DelIf(ok: bool, s: Store, key: string): Store {
    if ok then Del(s, key) else s
  }

  function ZAddIf(ok: bool, s: Store, key: string, score: int, member: string): Store {
    if ok then ZAdd(s, key, score, member) else s
  }

  /** The ZADDs of the first |oks| friends; the i-th takes effect when oks[i]. */
  function AddFriends(s: Store, key: string, ids: seq<int>, oks: seq<bool>): Store
    requires |oks| <= |ids|
  {
    if oks == [] then s
    else
      var n := |oks| - 1;
      ZAddIf(oks[n], AddFriends(s, key, ids, oks[..n]), key, n, ToDecimal(ids[n]))
  }

  lemma AddFriendsStep(s: Store, key: string, ids: seq<int>, oks: seq<bool>, i: nat)
    requires i < |oks| <= |ids|
    ensures AddFriends(s, key, ids, oks[..i + 1]) == ZAddIf(oks[i], AddFriends(s, key, ids, oks[..i]), key, i, ToDecimal(ids[i]))
  {
    hide ZAddIf, ToDecimal;
    assert oks[..i + 1][..i] == oks[..i];
  }

  /** DEL, then one ZADD per friend; the source ignores which of them fail. */
  function CacheFriends(s: Store, user: int, ids: seq<int>, delOk: bool, oks: seq<bool>): Store
    requires |oks| == |ids|
  {
    AddFriends(DelIf(delOk, s, FriendsKey(user)), FriendsKey(user), ids, oks)
  }

  /** The integers among the members, in order; a member that is not an int is skipped. */
  function ParseMembers(ms: seq<string>): seq<int> {
    if ms == [] then []
    else
      var r := Stoi(ms[|ms| - 1], 10);
      ParseMembers(ms[..|ms| - 1]) + if r.Some? then [r.value] else []
  }

  function ParseMember(m: string): seq<int> {
    var r := Stoi(m, 10);
    if r.Some? then [r.value] else []
  }

  lemma ParseMembersNone(ms: seq<string>)
    ensures ParseMembers(ms[..0]) == []
  {
  }

  lemma ParseMembersLast(ms: seq<string>, m: string)
    ensures ParseMembers(ms + [m]) == ParseMembers(ms) + ParseMember(m)
  {
    hide Stoi;
    var all := ms + [m];
    assert all[..|all| - 1] == ms && all[|all| - 1] == m;
  }

  /** Reading works member by member: what is an int counts, in order, and what is not is passed over. */
  lemma {:induction false} ParseMembersAppend(ms: seq<string>, more: seq<string>)
    ensures ParseMembers(ms + more) == ParseMembers(ms) + ParseMembers(more)
    decreases |more|
  {
    hide ParseMembers, ParseMember, Stoi;
    if more == [] {
      ParseMembersNone(more);
      assert more[..0] == more && ms + more == ms;
      assert ParseMembers(ms) + [] == ParseMembers(ms);
    } else {
      var front, m := more[..|more| - 1], more[|more| - 1];
      ParseMembersAppend(ms, front);
      ParseMembersLast(ms + front, m);
      ParseMembersLast(front, m);
      assert more == front + [m] && ms + more == ms + front + [m];
    }
  }

  function CachedFriends(s: Store, user: int): seq<int> {
    ParseMembers(ZRangeAll(s, FriendsKey(user)))
  }

  /** The friends whose ZADD took effect, in order: a subsequence of the list. */
  function Kept(ids: seq<int>, oks: seq<bool>): seq<int>
    requires |oks| <= |ids|
  {
    if oks == [] then []
    else
      var n := |oks| - 1;
      Kept(ids, oks[..n]) + if oks[n] then [ids[n]] else []
  }

  ghost predicate Distinct(ids: seq<int>) {
    forall i, j :: 0 <= i < j < |ids| ==> ids[i] != ids[j]
  }

  ghost predicate AllInt32(ids: seq<int>) {
    forall i :: 0 <= i < |ids| ==> InInt32(ids[i])
  }

  // ---- After a successful DEL ------------------------------------------------------------------------

  /** The entries the kept friends make. */
  function KeptEntries(ids: seq<int>, oks: seq<bool>): (z: seq<Entry>)
    requires |oks| <= |ids|
    ensures |z| == |Kept(ids, oks)|
  {
    if oks == [] then []
    else
      var n := |oks| - 1;
      KeptEntries(ids, oks[..n]) + if oks[n] then [Entry(ToDecimal(ids[n]), n)] else []
  }

  lemma {:induction false} KeptEntriesFromList(ids: seq<int>, oks: seq<bool>, e: Entry)
    requires |oks| <= |ids| && e in KeptEntries(ids, oks)
    ensures 0 <= e.score < |oks| && e.member == ToDecimal(ids[e.score])
  {
    var n := |oks| - 1;
    if e in KeptEntries(ids, oks[..n]) {
      KeptEntriesFromList(ids, oks[..n], e);
    }
  }

  lemma {:induction false} WithoutAbsent(z: seq<Entry>, member: string)
    requires forall x :: x in z ==> x.member != member
    ensures Without(z, member) == z
  {
    if z != [] {
      assert z == [z[0]] + z[1..];
      WithoutAbsent(z[1..], member);
    }
  }

  lemma {:induction false} InsertLast(z: seq<Entry>, e: Entry)
    requires forall x :: x in z ==> x.score < e.score
    ensures Insert(z, e) == z + [e]
  {
    if z != [] {
      assert z == [z[0]] + z[1..];
      InsertLast(z[1..], e);
    }
  }

  /** Adding in position order only appends. */
  lemma {:induction false} AddFriendsAppends(s: Store, key: string, ids: seq<int>, oks: seq<bool>)
    requires |oks| <= |ids| && Distinct(ids) && ZSet(s, key) == []
    ensures ZSet(AddFriends(s, key, ids, oks), key) == KeptEntries(ids, oks)
  {
    if oks != [] {
      var n := |oks| - 1;
      var z := KeptEntries(ids, oks[..n]);
      AddFriendsAppends(s, key, ids, oks[..n]);
      if oks[n] {
        forall x | x in z ensures x.member != ToDecimal(ids[n]) && x.score < n {
          KeptEntriesFromList(ids, oks[..n], x);
          if x.member == ToDecimal(ids[n]) {
            DecimalInjective(ids[x.score], ids[n]);
          }
        }
        WithoutAbsent(z, ToDecimal(ids[n]));
        InsertLast(z, Entry(ToDecimal(ids[n]), n));
      }
    }
  }

  function Members(z: seq<Entry>): seq<string> {
    seq(|z|, i requires 0 <= i < |z| => z[i].member)
  }

  lemma ParseAppend(z: seq<Entry>, id: int, score: int)
    requires InInt32(id)
    ensures ParseMembers(Members(z + [Entry(ToDecimal(id), score)])) == ParseMembers(Members(z)) + [id]
  {
    DecimalRoundTrip(id);
    hide ParseMembers, ToDecimal, Stoi;
    ParseMembersLast(Members(z), ToDecimal(id));
    assert Members(z + [Entry(ToDecimal(id), score)]) == Members(z) + [ToDecimal(id)];
  }

  lemma {:induction false} ParseKept(ids: seq<int>, oks: seq<bool>)
    requires |oks| <= |ids| && AllInt32(ids)
    ensures ParseMembers(Members(KeptEntries(ids, oks))) == Kept(ids, oks)
  {
    if oks != [] {
      var n := |oks| - 1;
      var z := KeptEntries(ids, oks[..n]);
      ParseKept(ids, oks[..n]);
      if oks[n] {
        ParseAppend(z, ids[n], n);
        assert KeptEntries(ids, oks) == z + [Entry(ToDecimal(ids[n]), n)];
      } else {
        assert KeptEntries(ids, oks) == z;
        assert Kept(ids, oks) == Kept(ids, oks[..n]);
      }
    }
  }

  /**
    The round trip: if the prior list is gone, reading the cache back gives, in order, exactly the friends
    whose ZADD took effect.
  */
  lemma FriendsRoundTrip(s: Store, user: int, ids: seq<int>, delOk: bool, oks: seq<bool>)
    requires |oks| == |ids| && Distinct(ids) && AllInt32(ids)
    requires delOk || ZSet(s, FriendsKey(user)) == []
    ensures CachedFriends(CacheFriends(s, user, ids, delOk, oks), user) == Kept(ids, oks)
  {
    var key := FriendsKey(user);
    var cleared := DelIf(delOk, s, key);
    AddFriendsAppends(cleared, key, ids, oks);
    ParseKept(ids, oks);
    assert ZRangeAll(AddFriends(cleared, key, ids, oks), key) == Members(KeptEntries(ids, oks));
  }

  /** With no failed ZADD that is the whole list. */
  lemma {:induction false} KeptAll(ids: seq<int>, oks: seq<bool>)
    requires |oks| <= |ids| && forall i :: 0 <= i < |oks| ==> oks[i]
    ensures Kept(ids, oks) == ids[..|oks|]
  {
    if oks != [] {
      KeptAll(ids, oks[..|oks| - 1]);
    }
  }

  /** `at` are increasing positions of successful ZADDs, and `kept` the friends there. */
  ghost predicate Picks(ids: seq<int>, oks: seq<bool>, at: seq<nat>, kept: seq<int>)
    requires |oks| <= |ids|
  {
    && |at| == |kept|
    && (forall i :: 0 <= i < |at| ==> at[i] < |oks| && oks[at[i]] && kept[i] == ids[at[i]])
    && forall i, j :: 0 <= i < j < |at| ==> at[i] < at[j]
  }

  lemma PicksExtend(ids: seq<int>, oks: seq<bool>, at: seq<nat>, kept: seq<int>)
    requires 0 < |oks| <= |ids| && Picks(ids, oks[..|oks| - 1], at, kept)
    ensures Picks(ids, oks, at, kept)
    ensures oks[|oks| - 1] ==> Picks(ids, oks, at + [|oks| - 1], kept + [ids[|oks| - 1]])
  {
  }

  /** A subsequence: kept friends keep their order, at increasing positions of the list. */
  lemma {:induction false} KeptIsSubsequence(ids: seq<int>, oks: seq<bool>) returns (at: seq<nat>)
    requires |oks| <= |ids|
    ensures Picks(ids, oks, at, Kept(ids, oks))
  {
    if oks == [] {
      at := [];
    } else {
      hide Picks;
      var n := |oks| - 1;
      at := KeptIsSubsequence(ids, oks[..n]);
      PicksExtend(ids, oks, at, Kept(ids, oks[..n]));
      if oks[n] {
        at := at + [n];
      } else {
        assert Kept(ids, oks) == Kept(ids, oks[..n]);
      }
    }
  }

  // ---- Other users -----------------------------------------------------------------------------------

  lemma {:induction false} AddFriendsKeepsOthers(s: Store, key: string, ids: seq<int>, oks: seq<bool>, other: string)
    requires |oks| <= |ids| && other != key
    ensures ZSet(AddFriends(s, key, ids, oks), other) == ZSet(s, other)
  {
    if oks != [] {
      AddFriendsKeepsOthers(s, key, ids, oks[..|oks| - 1], other);
    }
  }

  /** Refilling one user's list, whichever commands fail, leaves every other user's as it was. */
  lemma CacheFriendsKeepsOthers(s: Store, user: int, ids: seq<int>, delOk: bool, oks: seq<bool>, u: int)
    requires |oks| == |ids| && u != user
    ensures CachedFriends(CacheFriends(s, user, ids, delOk, oks), u) == CachedFriends(s, u)
  {
    FriendsKeysDiffer(u, user);
    var cleared := DelIf(delOk, s, FriendsKey(user));
    AddFriendsKeepsOthers(cleared, FriendsKey(user), ids, oks, FriendsKey(u));
    assert ZSet(cleared, FriendsKey(u)) == ZSet(s, FriendsKey(u));
  }

  // ---- When the DEL fails ----------------------------------------------------------------------------

  /** What is in the set afterwards: prior entries no successful ZADD moved, and one per successful ZADD. */
  lemma {:induction false} AddFriendsEntries(s: Store, key: string, ids: seq<int>, oks: seq<bool>)
    requires |oks| <= |ids| && Distinct(ids) && WellFormed(ZSet(s, key))
    ensures WellFormed(ZSet(AddFriends(s, key, ids, oks), key))
    ensures forall e :: e in ZSet(AddFriends(s, key, ids, oks), key) <==>
              || (e in ZSet(s, key) && forall i :: 0 <= i < |oks| && oks[i] ==> e.member != ToDecimal(ids[i]))
              || (0 <= e.score < |oks| && oks[e.score] && e.member == ToDecimal(ids[e.score]))
  {
    hide ToDecimal, WellFormed, ZSet, ZAdd;
    if oks != [] {
      var n := |oks| - 1;
      AddFriendsEntries(s, key, ids, oks[..n]);
      ZAddKeeps(AddFriends(s, key, ids, oks[..n]), key, n, ToDecimal(ids[n]));
      forall i | 0 <= i < n ensures ToDecimal(ids[i]) != ToDecimal(ids[n]) {
        if ToDecimal(ids[i]) == ToDecimal(ids[n]) {
          DecimalInjective(ids[i], ids[n]);
        }
      }
    }
  }

  /** The entries of the kept friends, told by what adding them to an empty set gives. */
  lemma KeptEntriesExactly(ids: seq<int>, oks: seq<bool>)
    requires |oks| <= |ids| && Distinct(ids)
    ensures WellFormed(KeptEntries(ids, oks))
    ensures forall e :: e in KeptEntries(ids, oks) <==>
              0 <= e.score < |oks| && oks[e.score] && e.member == ToDecimal(ids[e.score])
  {
    var empty := Store(map[], map[]);
    AddFriendsAppends(empty, "", ids, oks);
    AddFriendsEntries(empty, "", ids, oks);
  }

  lemma {:induction false} KeptExactly(ids: seq<int>, oks: seq<bool>, id: int)
    requires |oks| <= |ids|
    ensures id in Kept(ids, oks) <==> exists i :: 0 <= i < |oks| && oks[i] && ids[i] == id
  {
    if oks != [] {
      var n := |oks| - 1;
      KeptExactly(ids, oks[..n], id);
      assert forall i :: 0 <= i < n ==> oks[..n][i] == oks[i];
    }
  }

  lemma {:induction false} ParseContains(ms: seq<string>, i: nat)
    requires i < |ms| && Stoi(ms[i], 10).Some?
    ensures Stoi(ms[i], 10).value in ParseMembers(ms)
    decreases |ms|
  {
    if i < |ms| - 1 {
      ParseContains(ms[..|ms| - 1], i);
    }
  }

  /**
    When the DEL fails, and whichever ZADDs fail with it, the list still reads back as the friends whose
    ZADD took effect if and only if every friend cached before is among them.
  */
  lemma RefillWithoutDelete(s: Store, user: int, ids: seq<int>, oks: seq<bool>, prior: seq<int>)
    requires |oks| == |ids| && Distinct(ids) && AllInt32(ids)
    requires WellFormed(ZSet(s, FriendsKey(user))) && AllInt32(prior)
    requires Members(ZSet(s, FriendsKey(user))) == seq(|prior|, i requires 0 <= i < |prior| => ToDecimal(prior[i]))
    ensures CachedFriends(CacheFriends(s, user, ids, false, oks), user) == Kept(ids, oks)
        <==> forall id :: id in prior ==> id in Kept(ids, oks)
  {
    hide Kept;
    var key := FriendsKey(user);
    var before, after := ZSet(s, key), ZSet(AddFriends(s, key, ids, oks), key);
    AddFriendsEntries(s, key, ids, oks);
    assert |before| == |Members(before)| == |prior|;
    assert forall i :: 0 <= i < |prior| ==> before[i].member == Members(before)[i] == ToDecimal(prior[i]);
    assert CachedFriends(CacheFriends(s, user, ids, false, oks), user) == ParseMembers(Members(after));
    if forall id :: id in prior ==> id in Kept(ids, oks) {
      OnlyKeptEntries(before, after, ids, oks, prior);
      ParseKept(ids, oks);
    } else {
      var k :| 0 <= k < |prior| && prior[k] !in Kept(ids, oks);
      StaleEntryShows(before, after, ids, oks, prior, k);
    }
  }

  lemma OnlyKeptEntries(before: seq<Entry>, after: seq<Entry>, ids: seq<int>, oks: seq<bool>, prior: seq<int>)
    requires |oks| == |ids| && Distinct(ids)
    requires WellFormed(after) && forall e :: e in after <==>
               || (e in before && forall i :: 0 <= i < |oks| && oks[i] ==> e.member != ToDecimal(ids[i]))
               || (0 <= e.score < |oks| && oks[e.score] && e.member == ToDecimal(ids[e.score]))
    requires |before| == |prior| && forall i :: 0 <= i < |prior| ==> before[i].member == ToDecimal(prior[i])
    requires forall id :: id in prior ==> id in Kept(ids, oks)
    ensures after == KeptEntries(ids, oks)
  {
    hide Kept, ToDecimal;
    KeptEntriesExactly(ids, oks);
    forall e ensures e in after <==> e in KeptEntries(ids, oks) {
      if e in before {
        var k :| 0 <= k < |before| && before[k] == e;
        assert prior[k] in prior;
        KeptExactly(ids, oks, prior[k]);
        var i :| 0 <= i < |oks| && oks[i] && ids[i] == prior[k];
        assert e.member == ToDecimal(ids[i]);
      }
    }
    EntriesDetermineSet(after, KeptEntries(ids, oks));
  }

  lemma StaleEntryShows(before: seq<Entry>, after: seq<Entry>, ids: seq<int>, oks: seq<bool>, prior: seq<int>, k: nat)
    requires |oks| == |ids| && |before| == |prior| && k < |prior| && AllInt32(prior)
    requires before[k].member == ToDecimal(prior[k]) && prior[k] !in Kept(ids, oks)
    requires forall e :: e in before && (forall i :: 0 <= i < |oks| && oks[i] ==> e.member != ToDecimal(ids[i])) ==> e in after
    ensures ParseMembers(Members(after)) != Kept(ids, oks)
  {
    hide Kept;
    KeptExactly(ids, oks, prior[k]);
    forall i | 0 <= i < |oks| && oks[i] ensures before[k].member != ToDecimal(ids[i]) {
      if ToDecimal(prior[k]) == ToDecimal(ids[i]) {
        DecimalInjective(prior[k], ids[i]);
      }
    }
    assert before[k] in after;
    var p :| 0 <= p < |after| && after[p] == before[k];
    DecimalRoundTrip(prior[k]);
    ParseContains(Members(after), p);
  }
}
