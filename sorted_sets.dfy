/**
 * The part of a Redis server the leaderboard relies on: a keyspace of
 * sorted sets, each mapping a member string to a score, with the commands
 * ZADD, ZREM and ZRANGE ... WITHSCORES. Members are ordered by score and,
 * among equal scores, lexicographically.
 */
module SortedSets {
  import opened Wrappers

  /** One sorted set: member to score. */
  type SortedSet = map<string, int>

  /** The keyspace: key to sorted set. */
  type Keyspace = map<string, SortedSet>

  /** A `redis.clients.jedis.resps.Tuple`: a member and its score. */
  datatype Tuple = Tuple(element: string, score: int)

  // ---------------------------------------------------------------------
  // The order
  // ---------------------------------------------------------------------

  /** Lexicographic order on member strings, a proper prefix first. */
  predicate StrLess(a: string, b: string)
  {
    if a == [] then b != []
    else if b == [] then false
    else a[0] < b[0] || (a[0] == b[0] && StrLess(a[1..], b[1..]))
  }

  lemma {:induction false} StrLessIrreflexive(a: string)
    ensures !StrLess(a, a)
  {
    if a != [] {
      StrLessIrreflexive(a[1..]);
    }
  }

  lemma {:induction false} StrLessTransitive(a: string, b: string, c: string)
    requires StrLess(a, b) && StrLess(b, c)
    ensures StrLess(a, c)
  {
    if a != [] && b != [] && c != [] && a[0] == b[0] == c[0] {
      StrLessTransitive(a[1..], b[1..], c[1..]);
    }
  }

  lemma {:induction false} StrLessTotal(a: string, b: string)
    requires a != b
    ensures StrLess(a, b) || StrLess(b, a)
  {
    if a != [] && b != [] && a[0] == b[0] {
      assert a == [a[0]] + a[1..];
      assert b == [b[0]] + b[1..];
      StrLessTotal(a[1..], b[1..]);
    }
  }

  /** The sorted-set order: by score, ties broken by member. */
  predicate Precedes(x: Tuple, y: Tuple)
  {
    x.score < y.score || (x.score == y.score && StrLess(x.element, y.element))
  }

  lemma PrecedesIrreflexive(x: Tuple)
    ensures !Precedes(x, x)
  {
    StrLessIrreflexive(x.element);
  }

  lemma PrecedesTransitive(x: Tuple, y: Tuple, z: Tuple)
    requires Precedes(x, y) && Precedes(y, z)
    ensures Precedes(x, z)
  {
    if x.score == y.score == z.score {
      StrLessTransitive(x.element, y.element, z.element);
    }
  }

  lemma PrecedesTotal(x: Tuple, y: Tuple)
    requires x.element != y.element
    ensures Precedes(x, y) || Precedes(y, x)
  {
    StrLessTotal(x.element, y.element);
  }

  // ---------------------------------------------------------------------
  // The ordered listing of a set
  // ---------------------------------------------------------------------

  /** The entry of member `m`. */
  function EntryOf(s: SortedSet, m: string): Tuple
    requires m in s
  {
    Tuple(m, s[m])
  }

  /** `m` comes before every other member of `s`. */
  predicate IsLeast(s: SortedSet, m: string)
  {
    m in s && forall k :: k in s && k != m ==> Precedes(EntryOf(s, m), EntryOf(s, k))
  }

  /** Strictly ascending in the sorted-set order. */
  predicate Sorted(q: seq<Tuple>)
  {
    forall i, j :: 0 <= i < j < |q| ==> Precedes(q[i], q[j])
  }

  /** `q` holds exactly the entries of `s`. */
  predicate Lists(s: SortedSet, q: seq<Tuple>)
  {
    Entries(s, q) && forall m :: m in s ==> EntryOf(s, m) in q
  }

  lemma RemoveKey(s: SortedSet, m: string)
    requires m in s
    ensures (s - {m}).Keys == s.Keys - {m}
    ensures |s - {m}| == |s| - 1
  {
    assert (s - {m}).Keys == s.Keys - {m};
    assert |s.Keys - {m}| == |s.Keys| - 1;
  }

  /** Every non-empty sorted set has a least member. */
  lemma {:induction false} LeastExists(s: SortedSet)
    requires |s| > 0
    ensures exists m :: IsLeast(s, m)
    decreases |s|
  {
    var k :| k in s;
    var rest := s - {k};
    RemoveKey(s, k);
    if |rest| == 0 {
      assert rest.Keys == {};
      assert s.Keys == {k};
      assert IsLeast(s, k);
    } else {
      LeastExists(rest);
      var m :| IsLeast(rest, m);
      PrecedesTotal(EntryOf(s, k), EntryOf(s, m));
      if Precedes(EntryOf(s, k), EntryOf(s, m)) {
        forall j | j in s && j != k
          ensures Precedes(EntryOf(s, k), EntryOf(s, j))
        {
          if j != m {
            assert j in rest;
            PrecedesTransitive(EntryOf(s, k), EntryOf(s, m), EntryOf(s, j));
          }
        }
        assert IsLeast(s, k);
      } else {
        forall j | j in s && j != m
          ensures Precedes(EntryOf(s, m), EntryOf(s, j))
        {
          if j != k {
            assert j in rest;
          }
        }
        assert IsLeast(s, m);
      }
    }
  }

  /** The least member is unique. */
  lemma LeastUnique(s: SortedSet, m: string, n: string)
    requires IsLeast(s, m) && IsLeast(s, n)
    ensures m == n
  {
    if m != n {
      PrecedesTransitive(EntryOf(s, m), EntryOf(s, n), EntryOf(s, m));
      PrecedesIrreflexive(EntryOf(s, m));
    }
  }

  /** The first member of a non-empty set. */
  ghost function Least(s: SortedSet): (m: string)
    requires |s| > 0
    ensures IsLeast(s, m)
  {
    LeastExists(s);
    var m :| IsLeast(s, m);
    m
  }

  /**
   * The members of `s` in ascending (score, member) order with their
   * scores: what `ZRANGE key 0 -1 WITHSCORES` returns.
   */
  ghost function Ordered(s: SortedSet): (r: seq<Tuple>)
    ensures |r| == |s|
    ensures Sorted(r) && Lists(s, r)
    decreases |s|
  {
    if |s| == 0 then [] else
      var m := Least(s);
      var rest := s - {m};
      RemoveKey(s, m);
      var tail := Ordered(rest);
      OrderedCons(s, m, tail);
      [EntryOf(s, m)] + tail
  }

  lemma OrderedCons(s: SortedSet, m: string, tail: seq<Tuple>)
    requires IsLeast(s, m)
    requires Sorted(tail) && Lists(s - {m}, tail)
    ensures Sorted([EntryOf(s, m)] + tail) && Lists(s, [EntryOf(s, m)] + tail)
  {
    var q := [EntryOf(s, m)] + tail;
    forall i | 0 <= i < |tail|
      ensures tail[i].element in s && tail[i] == EntryOf(s, tail[i].element) && tail[i].element != m
      ensures Precedes(EntryOf(s, m), tail[i])
    {
      assert tail[i].element in (s - {m});
    }
    forall k | k in s
      ensures EntryOf(s, k) in q
    {
      if k != m {
        assert k in s - {m};
        assert EntryOf(s - {m}, k) in tail;
      }
    }
  }

  /** The listing is the only strictly ascending sequence of the set's entries. */
  lemma {:induction false} ListingUnique(s: SortedSet, q: seq<Tuple>)
    requires Sorted(q) && Lists(s, q)
    ensures q == Ordered(s)
    decreases |s|
  {
    var r := Ordered(s);
    if |s| > 0 {
      SameHead(s, q, r);
      var m := q[0].element;
      RemoveKey(s, m);
      ListsTail(s, q);
      ListsTail(s, r);
      ListingUnique(s - {m}, q[1..]);
      ListingUnique(s - {m}, r[1..]);
      HeadTail(q, r);
    }
  }

  /** Two listings of a non-empty set start with the same entry. */
  lemma SameHead(s: SortedSet, q: seq<Tuple>, r: seq<Tuple>)
    requires |s| > 0
    requires Sorted(q) && Lists(s, q) && Sorted(r) && Lists(s, r)
    ensures |q| > 0 && |r| > 0 && q[0] == r[0]
  {
    var k :| k in s;
    assert EntryOf(s, k) in q;
    assert EntryOf(s, k) in r;
    LeastIsHead(s, q);
    LeastIsHead(s, r);
    LeastUnique(s, q[0].element, r[0].element);
  }

  lemma HeadTail(q: seq<Tuple>, r: seq<Tuple>)
    requires |q| > 0 && |r| > 0 && q[0] == r[0] && q[1..] == r[1..]
    ensures q == r
  {
    assert q == [q[0]] + q[1..];
    assert r == [r[0]] + r[1..];
  }

  lemma LeastIsHead(s: SortedSet, q: seq<Tuple>)
    requires |q| > 0 && Sorted(q) && Lists(s, q)
    ensures IsLeast(s, q[0].element)
  {
    forall j | j in s && j != q[0].element
      ensures Precedes(EntryOf(s, q[0].element), EntryOf(s, j))
    {
      var i :| 0 <= i < |q| && q[i] == EntryOf(s, j);
      assert i != 0;
    }
  }

  /** Dropping the head of a listing lists the set without its least member. */
  lemma ListsTail(s: SortedSet, q: seq<Tuple>)
    requires |q| > 0 && Sorted(q) && Lists(s, q)
    ensures Sorted(q[1..]) && Lists(s - {q[0].element}, q[1..])
  {
    var m := q[0].element;
    var tail := q[1..];
    forall i | 0 <= i < |tail|
      ensures tail[i].element in s - {m} && tail[i] == EntryOf(s - {m}, tail[i].element)
    {
      assert Precedes(q[0], q[i + 1]);
      if tail[i].element == m {
        PrecedesIrreflexive(q[0]);
      }
    }
    forall k | k in s - {m}
      ensures EntryOf(s - {m}, k) in tail
    {
      var i :| 0 <= i < |q| && q[i] == EntryOf(s, k);
      assert i != 0;
      assert tail[i - 1] == q[i];
    }
  }

  // ---------------------------------------------------------------------
  // Commands
  // ---------------------------------------------------------------------

  /** The set stored under `key`; a missing key reads as the empty set. */
  function SetAt(db: Keyspace, key: string): SortedSet
  {
    if key in db then db[key] else map[]
  }

  /** Redis deletes a key whose sorted set becomes empty. */
  predicate NoEmptySets(db: Keyspace)
  {
    forall key :: key in db ==> |db[key]| > 0
  }

  /** `ZADD key score member`: creates the key if needed and sets the member's score, replacing an earlier one. */
  function ZAdd(db: Keyspace, key: string, score: int, member: string): (r: Keyspace)
    ensures key in r && member in r[key] && r[key][member] == score
    ensures forall m :: m in r[key] <==> m == member || m in SetAt(db, key)
    ensures forall m :: m in r[key] && m != member ==> r[key][m] == SetAt(db, key)[m]
    ensures forall k :: k != key ==> (k in r <==> k in db)
    ensures forall k :: k in r && k != key ==> r[k] == db[k]
  {
    db[key := SetAt(db, key)[member := score]]
  }

  /** `ZREM key member`: removes the member, deletes the key when its set becomes empty; a missing key or member is a no-op. */
  function ZRem(db: Keyspace, key: string, member: string): (r: Keyspace)
    ensures key in r ==> key in db && member !in r[key] && r[key] == db[key] - {member}
    ensures key !in r ==> key !in db || db[key].Keys <= {member}
    ensures key in db && db[key].Keys <= {member} ==> key !in r
    ensures forall k :: k != key ==> (k in r <==> k in db)
    ensures forall k :: k in r && k != key ==> r[k] == db[k]
  {
    if key !in db then db
    else
      var rest := db[key] - {member};
      if |rest| == 0 then db - {key} else db[key := rest]
  }

  /** The index arithmetic of `ZRANGE start stop`: a negative index counts from the end. */
  function FromEnd(i: int, n: nat): int
  {
    if i < 0 then n + i else i
  }

  /** The first rank `ZRANGE` returns: `start` counted from the end when negative, then raised to 0. */
  function RangeLow(start: int, n: nat): (lo: nat)
    ensures start >= 0 ==> lo == start
  {
    if FromEnd(start, n) < 0 then 0 else FromEnd(start, n)
  }

  /** `ZRANGE` returns nothing when the low rank passes the high one or the end of the set. */
  predicate RangeEmpty(start: int, stop: int, n: nat)
  {
    RangeLow(start, n) > FromEnd(stop, n) || RangeLow(start, n) >= n
  }

  /** The rank after the last one `ZRANGE` returns: the high rank clipped to the set. */
  function RangeEnd(start: int, stop: int, n: nat): (hi: nat)
    requires !RangeEmpty(start, stop, n)
    ensures RangeLow(start, n) < hi <= n
    ensures stop >= 0 ==> hi == Min(stop + 1, n)
  {
    Min(FromEnd(stop, n), n - 1) + 1
  }

  /**
   * `ZRANGE key start stop WITHSCORES`: the entries at ranks start..stop
   * inclusive of the ascending listing, indices below zero counting from
   * the end; a missing key reads as empty.
   */
  ghost function ZRangeWithScores(db: Keyspace, key: string, start: int, stop: int): (r: seq<Tuple>)
    ensures var n := |SetAt(db, key)|;
            (r == [] <==> RangeEmpty(start, stop, n))
            && (!RangeEmpty(start, stop, n) ==> |r| == RangeEnd(start, stop, n) - RangeLow(start, n))
    ensures forall i :: 0 <= i < |r| ==> r[i] == Ordered(SetAt(db, key))[RangeLow(start, |SetAt(db, key)|) + i]
  {
    var s := SetAt(db, key);
    var q := Ordered(s);
    var n := |s|;
    if RangeEmpty(start, stop, n) then []
    else q[RangeLow(start, n)..RangeEnd(start, stop, n)]
  }

  // ---------------------------------------------------------------------
  // Properties of the commands
  // ---------------------------------------------------------------------

  /** ZADD and ZREM never leave an empty set behind. */
  lemma CommandsKeepNoEmptySets(db: Keyspace, key: string, score: int, member: string)
    requires NoEmptySets(db)
    ensures NoEmptySets(ZAdd(db, key, score, member))
    ensures NoEmptySets(ZRem(db, key, member))
  {
    var r := ZAdd(db, key, score, member);
    assert member in r[key];
  }

  /** A second ZADD of the same member overrides the first: one score per member. */
  lemma ZAddLastWins(db: Keyspace, key: string, s1: int, s2: int, member: string)
    ensures ZAdd(ZAdd(db, key, s1, member), key, s2, member) == ZAdd(db, key, s2, member)
  {
    var a := ZAdd(ZAdd(db, key, s1, member), key, s2, member);
    var b := ZAdd(db, key, s2, member);
    assert a[key] == b[key];
  }

  /** Removing an added member that was not there before restores the keyspace. */
  lemma ZRemUndoesZAdd(db: Keyspace, key: string, score: int, member: string)
    requires NoEmptySets(db)
    requires member !in SetAt(db, key)
    ensures ZRem(ZAdd(db, key, score, member), key, member) == db
  {
    var added := SetAt(db, key)[member := score];
    assert added - {member} == SetAt(db, key);
    if key in db {
      assert db[key := db[key]] == db;
    } else {
      assert |SetAt(db, key)| == 0;
      assert db[key := added] - {key} == db;
    }
  }

  /** ZREM of a member not in the set changes nothing (for a keyspace without empty sets). */
  lemma ZRemAbsent(db: Keyspace, key: string, member: string)
    requires NoEmptySets(db)
    requires member !in SetAt(db, key)
    ensures ZRem(db, key, member) == db
  {
    if key in db {
      assert db[key] - {member} == db[key];
    }
  }

  /** ZREM is idempotent. */
  lemma ZRemTwice(db: Keyspace, key: string, member: string)
    requires NoEmptySets(db)
    ensures ZRem(ZRem(db, key, member), key, member) == ZRem(db, key, member)
  {
    CommandsKeepNoEmptySets(db, key, 0, member);
    ZRemAbsent(ZRem(db, key, member), key, member);
  }

  /** Every entry of `q` is an entry of `s`. */
  predicate Entries(s: SortedSet, q: seq<Tuple>)
  {
    forall i :: 0 <= i < |q| ==> q[i].element in s && q[i] == EntryOf(s, q[i].element)
  }

  lemma SliceSorted(s: SortedSet, q: seq<Tuple>, lo: int, hi: int)
    requires 0 <= lo <= hi <= |q|
    requires Sorted(q) && Entries(s, q)
    ensures Sorted(q[lo..hi]) && Entries(s, q[lo..hi])
  {
    var r := q[lo..hi];
    forall i, j | 0 <= i < j < |r|
      ensures Precedes(r[i], r[j])
    {
      assert r[i] == q[lo + i] && r[j] == q[lo + j];
    }
    forall i | 0 <= i < |r|
      ensures r[i].element in s && r[i] == EntryOf(s, r[i].element)
    {
      assert r[i] == q[lo + i];
    }
  }

  /** A range is in ascending order and holds members of the set with their scores. */
  lemma RangeSortedMembers(db: Keyspace, key: string, start: int, stop: int)
    ensures var r := ZRangeWithScores(db, key, start, stop);
            Sorted(r) && Entries(SetAt(db, key), r)
  {
    var s := SetAt(db, key);
    var n := |s|;
    if !RangeEmpty(start, stop, n) {
      SliceSorted(s, Ordered(s), RangeLow(start, n), RangeEnd(start, stop, n));
    }
  }

  /** In a strictly ascending listing no member appears twice. */
  lemma MembersDistinct(s: SortedSet, q: seq<Tuple>)
    requires Sorted(q) && Entries(s, q)
    ensures forall i, j :: 0 <= i < |q| && 0 <= j < |q| && q[i].element == q[j].element ==> i == j
  {
    forall i, j | 0 <= i < |q| && 0 <= j < |q| && q[i].element == q[j].element
      ensures i == j
    {
      assert q[i] == q[j];
      if i < j {
        PrecedesIrreflexive(q[i]);
      } else if j < i {
        PrecedesIrreflexive(q[j]);
      }
    }
  }

  /** `ZRANGE key 0 -1` returns the whole listing. */
  lemma FullRange(db: Keyspace, key: string)
    ensures ZRangeWithScores(db, key, 0, -1) == Ordered(SetAt(db, key))
  {
    var q := Ordered(SetAt(db, key));
    var r := ZRangeWithScores(db, key, 0, -1);
    if |q| > 0 {
      assert |r| == |q|;
    }
  }

  /** After a ZADD the full listing holds the member with its new score, and holds it once. */
  lemma ZAddListed(db: Keyspace, key: string, score: int, member: string)
    ensures var q := Ordered(SetAt(ZAdd(db, key, score, member), key));
            Tuple(member, score) in q
            && forall i, j :: 0 <= i < |q| && 0 <= j < |q| && q[i].element == member == q[j].element ==> i == j
  {
    var s := SetAt(ZAdd(db, key, score, member), key);
    var q := Ordered(s);
    assert EntryOf(s, member) in q;
    MembersDistinct(s, q);
  }

  /** The stand-in for the Jedis connection: the keyspace the commands act on. */
  class SortedSetStore {
    var data: Keyspace

    /** Redis never keeps an empty sorted set under a key. */
    predicate Valid()
      reads this
    {
      NoEmptySets(data)
    }

    constructor ()
      ensures data == map[] && Valid()
    {
      data := map[];
    }

    /** Jedis's `zadd`, the ZADD command applied to the store. */
    method Zadd(key: string, score: int, member: string)
      requires Valid()
      modifies this
      ensures data == ZAdd(old(data), key, score, member)
      ensures Valid()
    {
      CommandsKeepNoEmptySets(data, key, score, member);
      data := ZAdd(data, key, score, member);
    }

    /** Jedis's `zrem`, the ZREM command applied to the store. */
    method Zrem(key: string, member: string)
      requires Valid()
      modifies this
      ensures data == ZRem(old(data), key, member)
      ensures Valid()
    {
      CommandsKeepNoEmptySets(data, key, 0, member);
      data := ZRem(data, key, member);
    }

    /** Jedis's `zrangeWithScores`, the ZRANGE WITHSCORES command on the store. */
    ghost function ZrangeWithScores(key: string, start: int, stop: int): seq<Tuple>
      reads this
    {
      ZRangeWithScores(data, key, start, stop)
    }
  }
}
