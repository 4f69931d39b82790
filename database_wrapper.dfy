/**
 * The Redis leaderboard: one sorted set per course under the key
 * `<nameSpace>:<course>:times`, holding each player's UUID text with the
 * player's latest time as score.
 */
module RedisStore {
  import opened Wrappers
  import opened Players
  import opened Ranking
  import opened SortedSets

  /** The key of a course's times, `nameSpace + course + ":times"`, where `nameSpace` already ends in ':'. */
  function TimesKey(nameSpace: string, course: string): (key: string)
    ensures |key| == |nameSpace| + |course| + 6
    ensures key[..|nameSpace|] == nameSpace && key[|key| - 6..] == ":times"
  {
    nameSpace + course + ":times"
  }

  /** Under one namespace, distinct courses have distinct keys. */
  lemma TimesKeyInjective(nameSpace: string, c1: string, c2: string)
    requires TimesKey(nameSpace, c1) == TimesKey(nameSpace, c2)
    ensures c1 == c2
  {
    var k := TimesKey(nameSpace, c1);
    assert |c1| == |c2|;
    assert c1 == k[|nameSpace|..|nameSpace| + |c1|];
    assert c2 == k[|nameSpace|..|nameSpace| + |c2|];
  }

  /**
   * Across namespaces keys can coincide: the namespace "a" with course
   * "b:c" and the namespace "a:b" with course "c" share a key.
   */
  lemma NamespacesCanOverlap()
    ensures TimesKey("a" + ":", "b:c") == TimesKey("a:b" + ":", "c")
  {
  }

  /** Recording a time on one course leaves every range of every other course of the namespace as it was. */
  lemma ZAddOtherCourse(db: Keyspace, nameSpace: string, course: string, other: string, score: int, member: string, lo: int, hi: int)
    requires course != other
    ensures ZRangeWithScores(ZAdd(db, TimesKey(nameSpace, course), score, member), TimesKey(nameSpace, other), lo, hi)
         == ZRangeWithScores(db, TimesKey(nameSpace, other), lo, hi)
  {
    if TimesKey(nameSpace, course) == TimesKey(nameSpace, other) {
      TimesKeyInjective(nameSpace, course, other);
    }
    var k := TimesKey(nameSpace, other);
    assert SetAt(ZAdd(db, TimesKey(nameSpace, course), score, member), k) == SetAt(db, k);
  }

  /** Removing a player's time on one course leaves every range of every other course of the namespace as it was. */
  lemma ZRemOtherCourse(db: Keyspace, nameSpace: string, course: string, other: string, member: string, lo: int, hi: int)
    requires course != other
    ensures ZRangeWithScores(ZRem(db, TimesKey(nameSpace, course), member), TimesKey(nameSpace, other), lo, hi)
         == ZRangeWithScores(db, TimesKey(nameSpace, other), lo, hi)
  {
    if TimesKey(nameSpace, course) == TimesKey(nameSpace, other) {
      TimesKeyInjective(nameSpace, course, other);
    }
    var k := TimesKey(nameSpace, other);
    assert SetAt(ZRem(db, TimesKey(nameSpace, course), member), k) == SetAt(db, k);
  }

  /** After a removal no range of that course lists the member. */
  lemma RemovedNotListed(db: Keyspace, key: string, member: string, lo: int, hi: int)
    ensures forall i :: 0 <= i < |ZRangeWithScores(ZRem(db, key, member), key, lo, hi)|
                        ==> ZRangeWithScores(ZRem(db, key, member), key, lo, hi)[i].element != member
  {
    RangeSortedMembers(ZRem(db, key, member), key, lo, hi);
  }

  /**
   * From a rank `lo >= 0` a range returns the entries of the ascending
   * listing from rank `lo` on, and nothing exactly when `lo` passes the
   * (end-relative) high rank or the end of the set.
   */
  lemma RangeFromRank(db: Keyspace, key: string, lo: int, hi: int)
    requires 0 <= lo
    ensures var s := SetAt(db, key);
            var r := ZRangeWithScores(db, key, lo, hi);
            (r == [] <==> lo > FromEnd(hi, |s|) || lo >= |s|)
            && forall i :: 0 <= i < |r| ==> r[i] == Ordered(s)[lo + i]
  {
  }

  /** `getLeaderboard(course, n)` with n >= 0 returns n + 1 entries, or the whole set when it is smaller. */
  lemma LeaderboardSize(db: Keyspace, key: string, maxRange: int)
    requires maxRange >= 0
    ensures |ZRangeWithScores(db, key, 0, maxRange)| == Min(maxRange + 1, |SetAt(db, key)|)
  {
  }

  /** `DatabaseWrapper`: the namespace and the store it writes to. */
  class DatabaseWrapper {
    const jedis: SortedSetStore
    const nameSpace: string

    /** The namespace is given without its trailing colon, and the constructor adds it. */
    constructor (jedis: SortedSetStore, nameSpace: string)
      ensures this.jedis == jedis && this.nameSpace == nameSpace + ":"
    {
      this.jedis := jedis;
      this.nameSpace := nameSpace + ":";
    }

    /** `addTime`: ZADD of the player's UUID text with the time as score. */
    method AddTime(player: Player, course: string, time: Millis)
      requires jedis.Valid()
      modifies jedis
      ensures jedis.data == ZAdd(old(jedis.data), TimesKey(nameSpace, course), time, UuidString(player.uuid))
      ensures jedis.Valid()
    {
      jedis.Zadd(TimesKey(nameSpace, course), time, UuidString(player.uuid));
    }

    /** `removeTime`: ZREM of the player's UUID text. */
    method RemoveTime(player: Player, course: string)
      requires jedis.Valid()
      modifies jedis
      ensures jedis.data == ZRem(old(jedis.data), TimesKey(nameSpace, course), UuidString(player.uuid))
      ensures jedis.Valid()
    {
      jedis.Zrem(TimesKey(nameSpace, course), UuidString(player.uuid));
    }

    /**
     * `getLeaderboard(course, minRange, maxRange)`: ZRANGE WITHSCORES on
     * the course's key. From a rank `minRange >= 0` it returns the course's
     * ascending listing from that rank on, and nothing exactly when
     * `minRange` passes the high rank or the end of the set.
     */
    ghost function GetLeaderboardRange(course: string, minRange: int, maxRange: int): (r: seq<Tuple>)
      reads jedis
      ensures r == ZRangeWithScores(jedis.data, TimesKey(nameSpace, course), minRange, maxRange)
      ensures var s := SetAt(jedis.data, TimesKey(nameSpace, course));
              0 <= minRange ==>
                (r == [] <==> minRange > FromEnd(maxRange, |s|) || minRange >= |s|)
                && forall i :: 0 <= i < |r| ==> r[i] == Ordered(s)[minRange + i]
    {
      var key := TimesKey(nameSpace, course);
      if 0 <= minRange then
        RangeFromRank(jedis.data, key, minRange, maxRange);
        jedis.ZrangeWithScores(key, minRange, maxRange)
      else
        jedis.ZrangeWithScores(key, minRange, maxRange)
    }

    /** `getLeaderboard(course, maxRange)`: the range from rank 0, so maxRange + 1 entries at most. */
    ghost function GetLeaderboard(course: string, maxRange: int): (r: seq<Tuple>)
      reads jedis
      ensures r == GetLeaderboardRange(course, 0, maxRange)
      ensures maxRange >= 0 ==> |r| == Min(maxRange + 1, |SetAt(jedis.data, TimesKey(nameSpace, course))|)
    {
      if maxRange >= 0 then
        LeaderboardSize(jedis.data, TimesKey(nameSpace, course), maxRange);
        GetLeaderboardRange(course, 0, maxRange)
      else
        GetLeaderboardRange(course, 0, maxRange)
    }
  }
}
