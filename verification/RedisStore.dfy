/** The part of Redis the services use, as values: hashes and sorted sets. */
module RedisStore {
  import opened Wrappers
  import opened Text

  type Hash = map<string, string>

  datatype Entry = Entry(member: string, score: int)

  /** A sorted set is the list of its entries in order. */
  datatype Store = Store(hashes: map<string, Hash>, zsets: map<string, seq<Entry>>)

  // ---- Hashes --------------------------------------------------------------------------------------

  /** HGETALL; a missing key gives an empty array. */
  function HGetAll(s: Store, key: string): Hash {
    if key in s.hashes then s.hashes[key] else map[]
  }

  function HSet(s: Store, key: string, field: string, value: string): Store {
    s.(hashes := s.hashes[key := HGetAll(s, key)[field := value]])
  }

  // ---- Sorted sets ---------------------------------------------------------------------------------

  /** Byte-wise lexicographic order, which breaks ties between equal scores. */
  predicate TextLess(a: string, b: string) {
    if a == "" then b != ""
    else b != "" && (a[0] < b[0] || (a[0] == b[0] && TextLess(a[1..], b[1..])))
  }

  predicate Less(a: Entry, b: Entry) {
    a.score < b.score || (a.score == b.score && TextLess(a.member, b.member))
  }

  lemma {:induction false} TextLessTotal(a: string, b: string)
    ensures TextLess(a, b) || a == b || TextLess(b, a)
    ensures !(TextLess(a, b) && TextLess(b, a)) && !TextLess(a, a)
  {
    if a != "" && b != "" && a[0] == b[0] {
      TextLessTotal(a[1..], b[1..]);
      assert a == [a[0]] + a[1..] && b == [b[0]] + b[1..];
    }
    if a != "" {
      TextLessTotal(a[1..], a[1..]);
    }
  }

  lemma {:induction false} TextLessTransitive(a: string, b: string, c: string)
    requires TextLess(a, b) && TextLess(b, c)
    ensures TextLess(a, c)
  {
    if a != "" && a[0] == b[0] == c[0] {
      TextLessTransitive(a[1..], b[1..], c[1..]);
    }
  }

  /** What Redis keeps of a sorted set: entries in strict order, one per member. */
  ghost predicate WellFormed(z: seq<Entry>) {
    && (forall i, j :: 0 <= i < j < |z| ==> Less(z[i], z[j]))
    && (forall i, j :: 0 <= i < j < |z| ==> z[i].member != z[j].member)
  }

  function Without(z: seq<Entry>, member: string): (r: seq<Entry>)
    ensures |r| <= |z|
  {
    if z == [] then []
    else if z[0].member == member then Without(z[1..], member)
    else [z[0]] + Without(z[1..], member)
  }

  function Insert(z: seq<Entry>, e: Entry): seq<Entry> {
    if z == [] then [e]
    else if Less(e, z[0]) then [e] + z
    else [z[0]] + Insert(z[1..], e)
  }

  function ZSet(s: Store, key: string): seq<Entry> {
    if key in s.zsets then s.zsets[key] else []
  }

  /** ZADD moves a member that is already there. */
  function ZAdd(s: Store, key: string, score: int, member: string): Store {
    s.(zsets := s.zsets[key := Insert(Without(ZSet(s, key), member), Entry(member, score))])
  }

  /** ZRANGE key 0 -1: the members in order. */
  function ZRangeAll(s: Store, key: string): seq<string> {
    var z := ZSet(s, key);
    seq(|z|, i requires 0 <= i < |z| => z[i].member)
  }

  function Del(s: Store, key: string): Store {
    Store(s.hashes - {key}, s.zsets - {key})
  }

  // ---- The order is kept -----------------------------------------------------------------------------

  lemma LessTotal(a: Entry, b: Entry)
    ensures a.member != b.member ==> Less(a, b) || Less(b, a)
    ensures !(Less(a, b) && Less(b, a))
  {
    TextLessTotal(a.member, b.member);
  }

  lemma LessTransitive(a: Entry, b: Entry, c: Entry)
    requires Less(a, b) && Less(b, c)
    ensures Less(a, c)
  {
    if a.score == b.score == c.score {
      TextLessTransitive(a.member, b.member, c.member);
    }
  }

  lemma ConsKeeps(head: Entry, tail: seq<Entry>)
    requires WellFormed(tail) && forall x :: x in tail ==> Less(head, x) && head.member != x.member
    ensures WellFormed([head] + tail)
    ensures forall x :: x in [head] + tail <==> x == head || x in tail
  {
    assert forall i :: 0 <= i < |tail| ==> tail[i] in tail;
  }

  lemma TailEntries(z: seq<Entry>)
    requires WellFormed(z) && z != []
    ensures WellFormed(z[1..])
    ensures forall x :: x in z[1..] ==> x in z && Less(z[0], x) && z[0].member != x.member
    ensures forall x :: x in z <==> x == z[0] || x in z[1..]
  {
    assert z == [z[0]] + z[1..];
  }

  lemma {:induction false} WithoutKeeps(z: seq<Entry>, member: string)
    requires WellFormed(z)
    ensures WellFormed(Without(z, member))
    ensures forall e :: e in Without(z, member) <==> e in z && e.member != member
  {
    if z != [] {
      TailEntries(z);
      WithoutKeeps(z[1..], member);
      if z[0].member != member {
        ConsKeeps(z[0], Without(z[1..], member));
      }
    }
  }

  lemma {:induction false} InsertKeeps(z: seq<Entry>, e: Entry)
    requires WellFormed(z) && forall x :: x in z ==> x.member != e.member
    ensures WellFormed(Insert(z, e))
    ensures forall x :: x in Insert(z, e) <==> x in z || x == e
  {
    if z != [] {
      TailEntries(z);
      if Less(e, z[0]) {
        forall x | x in z ensures Less(e, x) {
          if x != z[0] {
            LessTransitive(e, z[0], x);
          }
        }
        ConsKeeps(e, z);
      } else {
        LessTotal(e, z[0]);
        InsertKeeps(z[1..], e);
        ConsKeeps(z[0], Insert(z[1..], e));
      }
    }
  }

  /** ZADD keeps a sorted set well formed: the member gets the score, all other entries stay. */
  lemma ZAddKeeps(s: Store, key: string, score: int, member: string)
    requires WellFormed(ZSet(s, key))
    ensures var z := ZSet(ZAdd(s, key, score, member), key);
            WellFormed(z) && forall e :: e in z <==> (e in ZSet(s, key) && e.member != member) || e == Entry(member, score)
  {
    WithoutKeeps(ZSet(s, key), member);
    InsertKeeps(Without(ZSet(s, key), member), Entry(member, score));
  }

  /** A well-formed set is determined by its entries. */
  lemma {:induction false} EntriesDetermineSet(y: seq<Entry>, z: seq<Entry>)
    requires WellFormed(y) && WellFormed(z) && forall e :: e in y <==> e in z
    ensures y == z
    decreases |y|
  {
    assert |z| > 0 ==> z[0] in z && z[0] in y;
    if y != [] {
      assert y[0] in z;
      TailEntries(y);
      TailEntries(z);
      LessTotal(y[0], z[0]);
      assert y[0] == z[0];
      assert forall e :: e in y[1..] <==> e in z[1..];
      EntriesDetermineSet(y[1..], z[1..]);
      assert y == [y[0]] + y[1..] && z == [z[0]] + z[1..];
    }
  }
}
