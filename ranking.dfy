/**
 * Ordering of rows by time, the `ORDER BY time ASC` every query of the
 * relational leaderboard uses, and the k-th smallest time, which is what
 * `ORDER BY time ASC LIMIT 1 OFFSET k - 1` yields whatever order the
 * database picks among equal times.
 */
module Ranking {
  import opened Wrappers

  /** A Java `long` / SQL `bigint`: the time column, in milliseconds. */
  type Millis = t: int | -0x8000_0000_0000_0000 <= t < 0x8000_0000_0000_0000

  /** One row of the `playerTimes` table. There is no key: equal rows may repeat. */
  datatype Row = Row(player: string, course: string, time: Millis)

  /** The number of rows whose time is at most `t`. */
  function Rank(s: seq<Row>, t: int): (n: nat)
    ensures n <= |s|
  {
    if s == [] then 0 else (if s[0].time <= t then 1 else 0) + Rank(s[1..], t)
  }

  lemma {:induction false} RankAppend(a: seq<Row>, b: seq<Row>, t: int)
    ensures Rank(a + b, t) == Rank(a, t) + Rank(b, t)
  {
    if a == [] {
      assert a + b == b;
    } else {
      assert (a + b)[1..] == a[1..] + b;
      RankAppend(a[1..], b, t);
    }
  }

  lemma {:induction false} RankMonotone(s: seq<Row>, t: int, u: int)
    requires t <= u
    ensures Rank(s, t) <= Rank(s, u)
  {
    if s != [] {
      RankMonotone(s[1..], t, u);
    }
  }

  lemma {:induction false} RankNoneAtMost(s: seq<Row>, t: int)
    requires forall i :: 0 <= i < |s| ==> s[i].time > t
    ensures Rank(s, t) == 0
  {
    if s != [] {
      RankNoneAtMost(s[1..], t);
    }
  }

  lemma {:induction false} RankAllAtMost(s: seq<Row>, t: int)
    requires forall i :: 0 <= i < |s| ==> s[i].time <= t
    ensures Rank(s, t) == |s|
  {
    if s != [] {
      RankAllAtMost(s[1..], t);
    }
  }

  predicate SortedByTime(s: seq<Row>)
  {
    forall i, j :: 0 <= i < j < |s| ==> s[i].time <= s[j].time
  }

  /** Inserts `x` before the first row that is not faster than it. */
  function Insert(x: Row, s: seq<Row>): (r: seq<Row>)
    requires SortedByTime(s)
    ensures SortedByTime(r)
    ensures multiset(r) == multiset(s) + multiset{x}
  {
    if s == [] || x.time <= s[0].time then
      [x] + s
    else
      var tail := Insert(x, s[1..]);
      assert s == [s[0]] + s[1..];
      FirstIsLeast(s[0], tail, s[1..], x);
      [s[0]] + tail
  }

  lemma FirstIsLeast(head: Row, tail: seq<Row>, rest: seq<Row>, x: Row)
    requires SortedByTime(tail) && multiset(tail) == multiset(rest) + multiset{x}
    requires head.time <= x.time && forall i :: 0 <= i < |rest| ==> head.time <= rest[i].time
    ensures SortedByTime([head] + tail)
  {
    forall i | 0 <= i < |tail|
      ensures head.time <= tail[i].time
    {
      assert tail[i] in multiset(tail);
      if tail[i] != x {
        assert tail[i] in multiset(rest);
      }
    }
  }

  /**
   * The rows in ascending time order. Rows with equal times keep their
   * relative order; this is one admissible choice, since the SQL fixes none.
   */
  function SortByTime(s: seq<Row>): (r: seq<Row>)
    ensures SortedByTime(r)
    ensures multiset(r) == multiset(s)
    ensures |r| == |s|
  {
    if s == [] then [] else
      assert s == [s[0]] + s[1..];
      Insert(s[0], SortByTime(s[1..]))
  }

  lemma {:induction false} RankInsert(x: Row, s: seq<Row>, t: int)
    requires SortedByTime(s)
    ensures Rank(Insert(x, s), t) == Rank([x], t) + Rank(s, t)
  {
    if s != [] && x.time > s[0].time {
      RankInsert(x, s[1..], t);
      assert ([s[0]] + Insert(x, s[1..]))[1..] == Insert(x, s[1..]);
    }
  }

  /** Sorting neither adds nor drops a row at or below any time. */
  lemma {:induction false} RankSort(s: seq<Row>, t: int)
    ensures Rank(SortByTime(s), t) == Rank(s, t)
  {
    if s != [] {
      RankSort(s[1..], t);
      RankInsert(s[0], SortByTime(s[1..]), t);
    }
  }

  /**
   * `t` is the k-th smallest time of `s`: fewer than k rows are strictly
   * faster and at least k rows are at most `t`. This does not depend on
   * how rows with equal times are ordered.
   */
  predicate IsKthTime(s: seq<Row>, k: nat, t: int)
  {
    Rank(s, t - 1) < k <= Rank(s, t)
  }

  lemma {:induction false} SortedRankAt(q: seq<Row>, i: nat)
    requires SortedByTime(q) && i < |q|
    ensures IsKthTime(q, i + 1, q[i].time)
  {
    var t: int := q[i].time;
    assert q == q[..i] + q[i..];
    RankAppend(q[..i], q[i..], t - 1);
    RankNoneAtMost(q[i..], t - 1);
    assert q == q[..i + 1] + q[i + 1..];
    RankAppend(q[..i + 1], q[i + 1..], t);
    RankAllAtMost(q[..i + 1], t);
  }

  lemma RankSortAll(s: seq<Row>)
    ensures forall t :: Rank(SortByTime(s), t) == Rank(s, t)
  {
    forall t {
      RankSort(s, t);
    }
  }

  /** The row at index k - 1 of a sorted rearrangement of `s` carries the k-th time of `s`. */
  lemma SortedKth(s: seq<Row>, q: seq<Row>, k: int)
    requires 1 <= k <= |q| && SortedByTime(q)
    requires forall t :: Rank(q, t) == Rank(s, t)
    ensures IsKthTime(s, k, q[k - 1].time)
  {
    SortedRankAt(q, k - 1);
  }

  /** The time at rank `k` (1 is the best), or `None` when there are fewer than `k` rows. */
  function KthTime(s: seq<Row>, k: int): (r: Option<Millis>)
    requires k >= 1
    ensures r.Some? <==> k <= |s|
    ensures r.Some? ==> IsKthTime(s, k, r.value)
  {
    if k <= |s| then
      RankSortAll(s);
      SortedKth(s, SortByTime(s), k);
      Some(SortByTime(s)[k - 1].time)
    else
      None
  }

  /** At most one time can sit at a given rank. */
  lemma KthTimeUnique(s: seq<Row>, k: nat, t: int, u: int)
    requires IsKthTime(s, k, t) && IsKthTime(s, k, u)
    ensures t == u
  {
    if t < u {
      RankMonotone(s, t, u - 1);
    } else if u < t {
      RankMonotone(s, u, t - 1);
    }
  }

  /** Any time that satisfies the rank characterisation is the one `KthTime` returns. */
  lemma KthTimeIs(s: seq<Row>, k: int, t: int)
    requires k >= 1 && IsKthTime(s, k, t)
    ensures KthTime(s, k) == Some(t)
  {
    assert k <= |s|;
    KthTimeUnique(s, k, KthTime(s, k).value, t);
  }

  /** Times at successive ranks never decrease. */
  lemma KthTimeMonotone(s: seq<Row>, j: int, k: int)
    requires 1 <= j <= k <= |s|
    ensures KthTime(s, j).value <= KthTime(s, k).value
  {
    var a, b := KthTime(s, j).value, KthTime(s, k).value;
    if b < a {
      RankMonotone(s, b, a - 1);
    }
  }

  /**
   * If every time is at least as well represented in `big` as in `small`,
   * the k-th time of `big` is no worse than that of `small`.
   */
  lemma KthTimeOfLarger(small: seq<Row>, big: seq<Row>, k: int)
    requires 1 <= k <= |small|
    requires forall t :: Rank(small, t) <= Rank(big, t)
    ensures k <= |big| && KthTime(big, k).value <= KthTime(small, k).value
  {
    var t: int := KthTime(small, k).value;
    assert Rank(small, t) <= Rank(big, t);
    var u: int := KthTime(big, k).value;
    KthTimeBelow(big, k, u, t);
  }

  /** A time at which at least k rows are counted is no better than the k-th time. */
  lemma KthTimeBelow(s: seq<Row>, k: nat, u: int, t: int)
    requires IsKthTime(s, k, u) && k <= Rank(s, t)
    ensures u <= t
  {
    if t < u {
      RankMonotone(s, t, u - 1);
    }
  }

  /** With pairwise distinct times, at most one row has any given time. */
  lemma {:induction false} RankStepDistinct(s: seq<Row>, t: int)
    requires forall i, j :: 0 <= i < j < |s| ==> s[i].time != s[j].time
    ensures Rank(s, t) <= Rank(s, t - 1) + 1
  {
    if s != [] {
      RankStepDistinct(s[1..], t);
      if s[0].time == t {
        assert forall i :: 0 <= i < |s[1..]| ==> s[1..][i].time != t;
        RankNoneAtMostBelow(s[1..], t);
      }
    }
  }

  lemma {:induction false} RankNoneAtMostBelow(s: seq<Row>, t: int)
    requires forall i :: 0 <= i < |s| ==> s[i].time != t
    ensures Rank(s, t) == Rank(s, t - 1)
  {
    if s != [] {
      RankNoneAtMostBelow(s[1..], t);
    }
  }
}
