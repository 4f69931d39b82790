/**
 * The relational leaderboard: one table `playerTimes(player, course, time)`
 * with no uniqueness constraint, filled by `INSERT`, read by
 * `ORDER BY time ASC LIMIT 1 OFFSET index - 1` queries and trimmed by a
 * `ROW_NUMBER()` window delete that keeps each player's ten best runs per
 * course.
 */
module SqlStore {
  import opened Wrappers
  import opened Ranking
  import opened Players

  /** A SQL `WHERE` clause: the rows satisfying `keep`, in table order. */
  function Where(table: seq<Row>, keep: Row -> bool): (r: seq<Row>)
    ensures |r| <= |table|
    ensures forall x {:trigger x in r} :: x in r <==> x in table && keep(x)
  {
    if table == [] then [] else
      assert table == [table[0]] + table[1..];
      (if keep(table[0]) then [table[0]] else []) + Where(table[1..], keep)
  }

  /** A `WHERE` clause keeps every copy of a row it accepts and no copy of one it rejects. */
  lemma {:induction false} WhereCount(table: seq<Row>, keep: Row -> bool, x: Row)
    ensures multiset(Where(table, keep))[x] == if keep(x) then multiset(table)[x] else 0
  {
    if table != [] {
      assert table == [table[0]] + table[1..];
      WhereCount(table[1..], keep, x);
    }
  }

  /** A selection only deletes: every row left was in the table at least as many times before. */
  lemma WhereOnlyDeletes(table: seq<Row>, keep: Row -> bool)
    ensures multiset(Where(table, keep)) <= multiset(table)
  {
    forall x
      ensures multiset(Where(table, keep))[x] <= multiset(table)[x]
    {
      WhereCount(table, keep, x);
    }
  }

  /** `WHERE player = ? AND course = ?` */
  function InGroup(player: string, course: string): Row -> bool
  {
    (x: Row) => x.player == player && x.course == course
  }

  /** `WHERE course = ?` */
  function OnCourse(course: string): Row -> bool
  {
    (x: Row) => x.course == course
  }

  lemma {:induction false} WhereAll(table: seq<Row>, keep: Row -> bool)
    requires forall i :: 0 <= i < |table| ==> keep(table[i])
    ensures Where(table, keep) == table
  {
    if table != [] {
      WhereAll(table[1..], keep);
    }
  }

  lemma {:induction false} WhereSame(table: seq<Row>, f: Row -> bool, g: Row -> bool)
    requires forall i :: 0 <= i < |table| ==> f(table[i]) == g(table[i])
    ensures Where(table, f) == Where(table, g)
  {
    if table != [] {
      WhereSame(table[1..], f, g);
    }
  }

  lemma {:induction false} WhereAppend(a: seq<Row>, b: seq<Row>, keep: Row -> bool)
    ensures Where(a + b, keep) == Where(a, keep) + Where(b, keep)
  {
    if a == [] {
      assert a + b == b;
    } else {
      var head := if keep(a[0]) then [a[0]] else [];
      assert (a + b)[0] == a[0];
      assert (a + b)[1..] == a[1..] + b;
      assert Where(a + b, keep) == head + Where(a[1..] + b, keep);
      assert Where(a, keep) == head + Where(a[1..], keep);
      WhereAppend(a[1..], b, keep);
      assert head + (Where(a[1..], keep) + Where(b, keep)) == (head + Where(a[1..], keep)) + Where(b, keep);
    }
  }

  /** Applying the same `WHERE` clause again changes nothing. */
  lemma {:induction false} WhereTwice(table: seq<Row>, keep: Row -> bool)
    ensures Where(Where(table, keep), keep) == Where(table, keep)
  {
    if table != [] {
      WhereTwice(table[1..], keep);
      var x := table[0];
      WhereAppend(if keep(x) then [x] else [], Where(table[1..], keep), keep);
    }
  }

  /** Two `WHERE` conditions may be applied in either order. */
  lemma {:induction false} WhereCommutes(table: seq<Row>, f: Row -> bool, g: Row -> bool)
    ensures Where(Where(table, f), g) == Where(Where(table, g), f)
  {
    if table != [] {
      WhereCommutes(table[1..], f, g);
      var x := table[0];
      var wf := (if f(x) then [x] else []);
      var wg := (if g(x) then [x] else []);
      WhereAppend(wf, Where(table[1..], f), g);
      WhereAppend(wg, Where(table[1..], g), f);
    }
  }

  /** A narrower filter counts no more rows at or below any time. */
  lemma {:induction false} RankWhereNarrower(table: seq<Row>, f: Row -> bool, g: Row -> bool, u: int)
    requires forall i :: 0 <= i < |table| ==> f(table[i]) ==> g(table[i])
    ensures Rank(Where(table, f), u) <= Rank(Where(table, g), u)
  {
    if table != [] {
      RankWhereNarrower(table[1..], f, g, u);
      var x := table[0];
      RankAppend(if f(x) then [x] else [], Where(table[1..], f), u);
      RankAppend(if g(x) then [x] else [], Where(table[1..], g), u);
    }
  }

  /** A filter that keeps every row at or below `u` leaves the count at `u` alone. */
  lemma {:induction false} RankWhereKeepsBelow(table: seq<Row>, keep: Row -> bool, u: int)
    requires forall i :: 0 <= i < |table| ==> table[i].time <= u ==> keep(table[i])
    ensures Rank(Where(table, keep), u) == Rank(table, u)
  {
    if table != [] {
      RankWhereKeepsBelow(table[1..], keep, u);
      var x := table[0];
      RankAppend(if keep(x) then [x] else [], Where(table[1..], keep), u);
    }
  }

  // ---------------------------------------------------------------------
  // Queries
  // ---------------------------------------------------------------------

  /**
   * `getTimeUUID`: the index-th best time (1 is the best) of the player
   * whose UUID text is `uuid` on `course`, or `None` when there are fewer
   * runs. `index >= 1` is required: `OFFSET -1` is an SQL error.
   */
  function GetTimeUUID(table: seq<Row>, uuid: string, course: string, index: int): (r: Option<Millis>)
    requires index >= 1
    ensures r.None? <==> |Where(table, InGroup(uuid, course))| < index
    ensures r.Some? ==> IsKthTime(Where(table, InGroup(uuid, course)), index, r.value)
  {
    KthTime(Where(table, InGroup(uuid, course)), index)
  }

  /** `getTimePlayer`: the same query keyed by the player's UUID text. */
  function GetTimePlayer(table: seq<Row>, player: Player, course: string, index: int): (r: Option<Millis>)
    requires index >= 1
    ensures r.None? <==> |Where(table, InGroup(UuidString(player.uuid), course))| < index
    ensures r.Some? ==> IsKthTime(Where(table, InGroup(UuidString(player.uuid), course)), index, r.value)
  {
    KthTime(Where(table, InGroup(UuidString(player.uuid), course)), index)
  }

  /** `getTimeOverall`: the index-th best time on `course` over all players. */
  function GetTimeOverall(table: seq<Row>, course: string, index: int): (r: Option<Millis>)
    requires index >= 1
    ensures r.None? <==> |Where(table, OnCourse(course))| < index
    ensures r.Some? ==> IsKthTime(Where(table, OnCourse(course)), index, r.value)
  {
    KthTime(Where(table, OnCourse(course)), index)
  }

  /**
   * The ranking step of `getPlayerOverall`: the `player` column of the row
   * the overall query lands on. Which of several rows with the same time
   * that is depends on the database; the contract promises only that it is
   * a row of the course holding the index-th best time.
   */
  function PlayerOverall(table: seq<Row>, course: string, index: int): (r: Option<string>)
    requires index >= 1
    ensures r.None? <==> |Where(table, OnCourse(course))| < index
    ensures r.Some? ==> exists x :: x in table && x.course == course && x.player == r.value
                                  && GetTimeOverall(table, course, index) == Some(x.time)
  {
    var rows := Where(table, OnCourse(course));
    if index <= |rows| then
      var x := SortByTime(rows)[index - 1];
      assert x in multiset(SortByTime(rows));
      assert x in rows;
      KthTimeAt(rows, index);
      Some(x.player)
    else
      None
  }

  lemma KthTimeAt(s: seq<Row>, k: int)
    requires 1 <= k <= |s|
    ensures KthTime(s, k) == Some(SortByTime(s)[k - 1].time)
  {
  }

  /**
   * `getPlayerOverall`: the display name of that player, looked up in
   * `names` (the Mojang profile service, as a partial map from UUID text to
   * name); `None` when there is no such row or the lookup yields nothing.
   */
  function GetPlayerOverall(table: seq<Row>, course: string, index: int, names: map<string, string>): (r: Option<string>)
    requires index >= 1
    ensures r.Some? ==> exists x :: x in table && x.course == course && x.player in names
                                  && names[x.player] == r.value
                                  && GetTimeOverall(table, course, index) == Some(x.time)
    ensures |Where(table, OnCourse(course))| < index ==> r.None?
    ensures r.Some? <==> PlayerOverall(table, course, index).Some? && PlayerOverall(table, course, index).value in names
    ensures r.Some? ==> r.value == names[PlayerOverall(table, course, index).value]
  {
    match PlayerOverall(table, course, index)
    case None => None
    case Some(uuid) => if uuid in names then Some(names[uuid]) else None
  }

  /** `getTimeUUID` and `getTimePlayer` agree when given the same player. */
  lemma GetTimeUUIDMatchesPlayer(table: seq<Row>, player: Player, course: string, index: int)
    requires index >= 1
    ensures GetTimeUUID(table, UuidString(player.uuid), course, index) == GetTimePlayer(table, player, course, index)
  {
  }

  /** A player's times at successive indices never decrease. */
  lemma GetTimePlayerOrdered(table: seq<Row>, player: Player, course: string, index: int)
    requires index >= 1 && GetTimePlayer(table, player, course, index + 1).Some?
    ensures GetTimePlayer(table, player, course, index).Some?
    ensures GetTimePlayer(table, player, course, index).value <= GetTimePlayer(table, player, course, index + 1).value
  {
    KthTimeMonotone(Where(table, InGroup(UuidString(player.uuid), course)), index, index + 1);
  }

  /** The overall index-th best time is never worse than one player's index-th best. */
  lemma OverallAtMostPlayer(table: seq<Row>, uuid: string, course: string, index: int)
    requires index >= 1 && GetTimeUUID(table, uuid, course, index).Some?
    ensures GetTimeOverall(table, course, index).Some?
    ensures GetTimeOverall(table, course, index).value <= GetTimeUUID(table, uuid, course, index).value
  {
    forall t {
      RankWhereNarrower(table, InGroup(uuid, course), OnCourse(course), t);
    }
    KthTimeOfLarger(Where(table, InGroup(uuid, course)), Where(table, OnCourse(course)), index);
  }

  // ---------------------------------------------------------------------
  // Inserting
  // ---------------------------------------------------------------------

  /** The row `addTime` inserts. */
  function TimeRow(player: Player, course: string, time: Millis): Row
  {
    Row(UuidString(player.uuid), course, time)
  }

  /**
   * An inserted run joins its own group as one more row, even when an equal
   * row is already there: the count at every time it does not exceed grows by one.
   */
  lemma InsertCountsOnce(table: seq<Row>, row: Row, u: int)
    ensures Rank(Where(table + [row], InGroup(row.player, row.course)), u)
         == Rank(Where(table, InGroup(row.player, row.course)), u) + (if row.time <= u then 1 else 0)
  {
    var g := InGroup(row.player, row.course);
    WhereAppend(table, [row], g);
    assert Where([row], g) == [row] by {
      WhereAll([row], g);
    }
    RankAppend(Where(table, g), [row], u);
    assert Rank([row], u) == if row.time <= u then 1 else 0 by {
      assert [row][1..] == [];
    }
  }

  /** An inserted run leaves every other player's and course's ranking alone. */
  lemma InsertOtherGroup(table: seq<Row>, row: Row, uuid: string, course: string, index: int)
    requires index >= 1 && (row.player != uuid || row.course != course)
    ensures GetTimeUUID(table + [row], uuid, course, index) == GetTimeUUID(table, uuid, course, index)
  {
    WhereAppend(table, [row], InGroup(uuid, course));
    assert Where(table + [row], InGroup(uuid, course)) == Where(table, InGroup(uuid, course));
  }

  // ---------------------------------------------------------------------
  // Pruning
  // ---------------------------------------------------------------------

  /** `row_num <= 10`: runs kept per player and course. */
  const Kept := 10

  /** A row's partition of the window, `PARTITION BY player, course ORDER BY time ASC`. */
  function Partition(table: seq<Row>, x: Row): seq<Row>
  {
    SortByTime(Where(table, InGroup(x.player, x.course)))
  }

  /** The subquery: the `(player, course, time)` triples whose row number in their partition is at most 10. */
  function TopTriples(table: seq<Row>): set<Row>
  {
    set x | x in table && x in Partition(table, x)[..Min(Kept, |Partition(table, x)|)]
  }

  /**
   * `pruneDatabase`: `DELETE ... WHERE (player, course, time) NOT IN (subquery)`.
   * The comparison is on whole triples, so a row equal to a kept one is kept too.
   */
  function Pruned(table: seq<Row>): (r: seq<Row>)
    ensures multiset(r) <= multiset(table)
  {
    WhereOnlyDeletes(table, Among(TopTriples(table)));
    Where(table, Among(TopTriples(table)))
  }

  /**
   * What survives in one group: all of it when it has at most ten rows,
   * otherwise every row no slower than its tenth-best time.
   */
  function Survivors(group: seq<Row>): seq<Row>
  {
    Where(group, SurvivorRule(group))
  }

  function SurvivorRule(group: seq<Row>): Row -> bool
  {
    (x: Row) => |group| <= Kept || x.time <= KthTime(group, Kept).value
  }

  /** `WHERE (player, course, time) IN kept` */
  function Among(kept: set<Row>): Row -> bool
  {
    (x: Row) => x in kept
  }

  /**
   * In a sorted arrangement `q` of a group, a member of the group is among
   * the first ten entries iff it passes the survivor rule: an entry with the
   * tenth entry's time is, as a triple, equal to the tenth entry itself.
   */
  lemma FirstTenOfSorted(g: seq<Row>, q: seq<Row>, x: Row)
    requires SortedByTime(q) && multiset(q) == multiset(g) && |q| == |g|
    requires x in g && forall y :: y in g ==> y.player == x.player && y.course == x.course
    requires |g| > Kept ==> KthTime(g, Kept) == Some(q[Kept - 1].time)
    ensures x in q[..Min(Kept, |q|)] <==> SurvivorRule(g)(x)
  {
    assert x in multiset(q);
    var j :| 0 <= j < |q| && q[j] == x;
    if |g| > Kept {
      var tenth := q[Kept - 1];
      assert tenth in multiset(q);
      assert tenth in g;
      if x in q[..Kept] {
        var i :| 0 <= i < Kept && q[i] == x;
        assert x.time <= tenth.time;
      }
      if x.time <= tenth.time {
        if j < Kept {
          assert q[..Kept][j] == x;
        } else {
          assert tenth == x;
          assert q[..Kept][Kept - 1] == x;
        }
      }
    }
  }

  /** A row survives the prune iff its group has at most ten rows or it is no slower than the group's tenth-best time. */
  lemma PruneRetention(table: seq<Row>, x: Row)
    ensures x in Pruned(table) <==> x in table && SurvivorRule(Where(table, InGroup(x.player, x.course)))(x)
  {
    var g := Where(table, InGroup(x.player, x.course));
    if x in table {
      assert x in g;
      var q := Partition(table, x);
      if |g| > Kept {
        KthTimeAt(g, Kept);
      }
      FirstTenOfSorted(g, q, x);
      assert x in TopTriples(table) <==> x in q[..Min(Kept, |q|)];
    }
  }

  /** Pruning a group depends on that group's rows alone. */
  lemma PrunedGroup(table: seq<Row>, player: string, course: string)
    ensures Where(Pruned(table), InGroup(player, course)) == Survivors(Where(table, InGroup(player, course)))
  {
    var g := Where(table, InGroup(player, course));
    var kept := TopTriples(table);
    WhereCommutes(table, Among(kept), InGroup(player, course));
    forall i | 0 <= i < |g|
      ensures Among(kept)(g[i]) == SurvivorRule(g)(g[i])
    {
      assert g[i] in g;
      PruneRetention(table, g[i]);
      assert Where(table, InGroup(g[i].player, g[i].course)) == g;
    }
    WhereSame(g, Among(kept), SurvivorRule(g));
  }

  /** Counts at or below the tenth-best time are the same among the survivors as in the whole group. */
  lemma SurvivorsRank(group: seq<Row>, u: int)
    requires |group| > Kept && u <= KthTime(group, Kept).value
    ensures Rank(Survivors(group), u) == Rank(group, u)
  {
    RankWhereKeepsBelow(group, SurvivorRule(group), u);
  }

  /** The survivors hold the group's ten best times at the same ranks. */
  lemma SurvivorsKthTime(group: seq<Row>, k: int)
    requires 1 <= k <= Kept
    ensures KthTime(Survivors(group), k) == KthTime(group, k)
  {
    if |group| <= Kept {
      WhereAll(group, SurvivorRule(group));
    } else {
      var t: int := KthTime(group, k).value;
      KthTimeMonotone(group, k, Kept);
      SurvivorsRank(group, t);
      SurvivorsRank(group, t - 1);
      KthTimeIs(Survivors(group), k, t);
    }
  }

  /** Every survivor of a group also survives a second prune of the survivors. */
  lemma SurvivorsStable(group: seq<Row>)
    ensures Survivors(Survivors(group)) == Survivors(group)
  {
    var s := Survivors(group);
    if |s| > Kept {
      assert |group| > Kept;
      SurvivorsKthTime(group, Kept);
    }
    forall i | 0 <= i < |s|
      ensures |s| <= Kept || s[i].time <= KthTime(s, Kept).value
    {
      assert s[i] in s;
    }
    WhereAll(s, SurvivorRule(s));
  }

  /** Groups never affect each other: pruning the whole table and then selecting a group equals pruning that group alone. */
  lemma PruneIsPerGroup(table: seq<Row>, player: string, course: string)
    ensures Where(Pruned(table), InGroup(player, course)) == Pruned(Where(table, InGroup(player, course)))
  {
    var group := InGroup(player, course);
    var g := Where(table, group);
    var keep := Among(TopTriples(g));
    PrunedGroup(table, player, course);
    PrunedGroup(g, player, course);
    WhereTwice(table, group);
    WhereCommutes(g, keep, group);
    assert Where(Where(g, keep), group) == Where(g, keep);
  }

  /** Pruning twice in a row deletes nothing the first prune kept. */
  lemma PruneIdempotent(table: seq<Row>)
    ensures Pruned(Pruned(table)) == Pruned(table)
  {
    var p := Pruned(table);
    forall i | 0 <= i < |p|
      ensures p[i] in TopTriples(p)
    {
      var x := p[i];
      assert x in p;
      var g := Where(table, InGroup(x.player, x.course));
      PrunedGroup(table, x.player, x.course);
      SurvivorsStable(g);
      assert x in Survivors(Survivors(g));
      PruneRetention(p, x);
    }
    WhereAll(p, Among(TopTriples(p)));
  }

  /** Pruning never changes a player's first ten ranked times, nor whether they exist. */
  lemma PruneKeepsTopTen(table: seq<Row>, uuid: string, course: string, index: int)
    requires 1 <= index <= Kept
    ensures GetTimeUUID(Pruned(table), uuid, course, index) == GetTimeUUID(table, uuid, course, index)
  {
    PrunedGroup(table, uuid, course);
    SurvivorsKthTime(Where(table, InGroup(uuid, course)), index);
  }

  /** Every survivor of a large group is no slower than its tenth-best time, and fewer than ten are strictly faster. */
  lemma SurvivorsBound(group: seq<Row>)
    requires |group| > Kept
    ensures var t := KthTime(group, Kept).value;
            var s := Survivors(group);
            Rank(s, t - 1) < Kept && |s| == Rank(s, t) == Rank(group, t)
  {
    var t: int := KthTime(group, Kept).value;
    var s := Survivors(group);
    SurvivorsRank(group, t - 1);
    SurvivorsRank(group, t);
    forall i | 0 <= i < |s|
      ensures s[i].time <= t
    {
      assert s[i] in s;
    }
    RankAllAtMost(s, t);
  }

  /** After a prune, fewer than ten of a large group's rows are strictly faster than its former tenth-best time, and none is slower. */
  lemma PruneBound(table: seq<Row>, player: string, course: string, tenth: int)
    requires |Where(table, InGroup(player, course))| > Kept
    requires tenth == KthTime(Where(table, InGroup(player, course)), Kept).value
    ensures Rank(Where(Pruned(table), InGroup(player, course)), tenth - 1) < Kept
    ensures |Where(Pruned(table), InGroup(player, course))| == Rank(Where(Pruned(table), InGroup(player, course)), tenth)
  {
    PrunedGroup(table, player, course);
    SurvivorsBound(Where(table, InGroup(player, course)));
  }

  /** With pairwise distinct times, at most ten rows of a group survive. */
  lemma SurvivorsBoundDistinct(group: seq<Row>)
    requires forall i, j :: 0 <= i < j < |group| ==> group[i].time != group[j].time
    ensures |Survivors(group)| <= Kept
  {
    if |group| > Kept {
      var t: int := KthTime(group, Kept).value;
      SurvivorsBound(group);
      RankStepDistinct(group, t);
    }
  }

  /** When a player's times on a course are pairwise distinct, at most ten of them survive a prune. */
  lemma PruneBoundDistinct(table: seq<Row>, player: string, course: string)
    requires var g := Where(table, InGroup(player, course));
             forall i, j :: 0 <= i < j < |g| ==> g[i].time != g[j].time
    ensures |Where(Pruned(table), InGroup(player, course))| <= Kept
  {
    PrunedGroup(table, player, course);
    SurvivorsBoundDistinct(Where(table, InGroup(player, course)));
  }

  /** Rows tied with the tenth-best time all survive: n equal runs are all kept, however many. */
  lemma TiedRunsSurvive(x: Row, n: nat)
    ensures Pruned(seq(n, _ => x)) == seq(n, _ => x)
  {
    var table := seq(n, _ => x);
    WhereAll(table, InGroup(x.player, x.course));
    if n > Kept {
      RankAllAtMost(table, x.time);
      RankNoneAtMost(table, x.time - 1);
      KthTimeIs(table, Kept, x.time);
    }
    forall i | 0 <= i < n
      ensures table[i] in TopTriples(table)
    {
      WhereAll(table, SurvivorRule(table));
      PruneRetention(table, x);
    }
    WhereAll(table, Among(TopTriples(table)));
  }

  // ---------------------------------------------------------------------
  // The table
  // ---------------------------------------------------------------------

  /** `SQLWrapper`: the `playerTimes` table and the two statements that change it. */
  class SqlWrapper {
    var playerTimes: seq<Row>

    /** `CREATE TABLE IF NOT EXISTS playerTimes` on a database without one. */
    constructor ()
      ensures playerTimes == []
    {
      playerTimes := [];
    }

    /** `addTime`: `INSERT INTO playerTimes(player, course, time)`; nothing is replaced or merged. */
    method AddTime(player: Player, course: string, time: Millis)
      modifies this
      ensures playerTimes == old(playerTimes) + [TimeRow(player, course, time)]
    {
      playerTimes := playerTimes + [TimeRow(player, course, time)];
    }

    /** `pruneDatabase`: the window-function delete. */
    method PruneDatabase()
      modifies this
      ensures playerTimes == Pruned(old(playerTimes))
      ensures multiset(playerTimes) <= multiset(old(playerTimes))
    {
      playerTimes := Pruned(playerTimes);
    }
  }
}
