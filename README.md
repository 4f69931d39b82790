# EndercubeCommon leaderboard core in Dafny

EndercubeCommon is shared code for Endercube's Minestom minigames. It has three parts, and this project models all three:

- `SQLWrapper` is a relational leaderboard: one table `playerTimes(player, course, time)`. Runs are inserted into it, queried by rank with `ORDER BY time ASC LIMIT 1 OFFSET index - 1`, and pruned by a `ROW_NUMBER()` window delete.
- `DatabaseWrapper` is a Redis leaderboard: one sorted set per course under the key `<nameSpace>:<course>:times`. It holds each player's UUID text, scored by the player's time.
- `ConfigUtils` is a set of helpers that read or initialise configuration values: string settings, menu items and positions.

Files:

- `wrappers.dfy`: `Option` and `Min`.
- `players.dfy`: `Uuid`, `Player`, and `UuidString`, the canonical 8-4-4-4-12 lower-case hex text of `UUID.toString`, proved injective.
- `ranking.dfy`: rows, and the order statistic behind every `ORDER BY time ASC ... OFFSET k-1` query.
  - `Rank(s, t)` counts the rows with time at most `t`.
  - `IsKthTime(s, k, t)` says `t` is the k-th best time: `Rank(s, t-1) < k <= Rank(s, t)`. This definition does not depend on how ties are broken.
  - `KthTime` reads the k-th time off a stable sort and is proved to satisfy `IsKthTime`, which fixes it uniquely.
- `sql_wrapper.dfy`: `Where` (a SQL `WHERE`), the four queries, the literal prune, and the class `SqlWrapper` holding the `playerTimes` table.
- `sorted_sets.dfy`: the Redis commands ZADD, ZREM and ZRANGE WITHSCORES on a keyspace `map<key, map<member, score>>`.
  - The listing `Ordered` is proved to be the unique strictly ascending (score, member) sequence of a set's entries.
  - The class `SortedSetStore` stands in for the Jedis connection.
- `database_wrapper.dfy`: the key scheme, isolation between courses, and the class `DatabaseWrapper`.
- `config_utils.dfy`:
  - `getOrSetDefault`, as a method on a node object, with a save counter;
  - the item defaults;
  - `getPosFromConfig`;
  - the loop of `getPosListFromConfig`, proved against `getPosFromConfig`.

Where the code and its documentation disagree, the model follows the code:

- **The prune keeps ties.** `pruneDatabase` is documented as removing "all but the top ten times per player". The delete, however, compares whole `(player, course, time)` triples with `NOT IN`. A row equal to one of the first ten rows of its partition therefore survives, so a group can keep more than ten rows when runs tie with its tenth-best time.
  - `TiedRunsSurvive`: any number of identical runs all survive.
  - `PruneRetention`: the surviving rows are exactly those no slower than the tenth-best time.
  - `PruneBound`: fewer than ten of the survivors are strictly faster than that time.
  - `PruneBoundDistinct`: when a group's times are pairwise distinct, at most ten of its rows survive.
- **`getLeaderboard(course, n)` is inclusive.** For n ≥ 0 it returns `n + 1` entries (fewer when the set is smaller), not `n`, because ZRANGE's stop rank is inclusive (`LeaderboardSize`).
- **Namespaces can collide.** Courses within one namespace never share a key (`TimesKeyInjective`). Across namespaces keys can coincide, because both the namespace and the course may contain `:` (`NamespacesCanOverlap`).

Ties in the SQL queries are broken by the database, which the source leaves unspecified. The times returned do not depend on that order. `PlayerOverall` uses table order but promises only that the player it returns owns a row holding the index-th best time.

## Model

| member | source | states |
|---|---|---|
| Players.UuidString | src/main/java/net/endercube/EndercubeCommon/SQLWrapper.java:45 | `String.valueOf(player.getUuid())` is 36 characters long |
| Players.UuidStringInjective | src/main/java/net/endercube/EndercubeCommon/SQLWrapper.java:45 | distinct UUIDs give distinct `player` column values |
| Ranking.SortByTime | src/main/java/net/endercube/EndercubeCommon/SQLWrapper.java:64 | `ORDER BY time ASC`: the result is sorted by time and is a permutation of its input |
| Ranking.RankSort | src/main/java/net/endercube/EndercubeCommon/SQLWrapper.java:64 | sorting never changes how many rows have time at most any t |
| Ranking.KthTime | src/main/java/net/endercube/EndercubeCommon/SQLWrapper.java:64 | `LIMIT 1 OFFSET k-1` finds a row exactly when there are at least k rows, and its time is the k-th best |
| Ranking.KthTimeUnique | src/main/java/net/endercube/EndercubeCommon/SQLWrapper.java:64 | the k-th best time is unique, so it does not depend on how ties are ordered |
| Ranking.KthTimeMonotone | src/main/java/net/endercube/EndercubeCommon/SQLWrapper.java:64 | the time at a later rank is never better |
| SqlStore.GetTimePlayer | src/main/java/net/endercube/EndercubeCommon/SQLWrapper.java:62-79 | null exactly when the player has fewer than `index` runs on the course, otherwise the index-th best of those runs |
| SqlStore.GetTimeUUID | src/main/java/net/endercube/EndercubeCommon/SQLWrapper.java:91-108 | the same, for the player given by UUID text |
| SqlStore.GetTimeOverall | src/main/java/net/endercube/EndercubeCommon/SQLWrapper.java:119-135 | null exactly when the course has fewer than `index` runs, otherwise the index-th best time over all players |
| SqlStore.PlayerOverall | src/main/java/net/endercube/EndercubeCommon/SQLWrapper.java:146-153 | the row found belongs to a player who has a run on the course with the overall index-th best time; none when there are fewer runs |
| SqlStore.GetPlayerOverall | src/main/java/net/endercube/EndercubeCommon/SQLWrapper.java:146-165 | a name is returned exactly when the row at rank `index` exists and the lookup knows its player, and it is that player's name; that player's run holds the index-th best time |
| SqlStore.GetTimeUUIDMatchesPlayer | src/main/java/net/endercube/EndercubeCommon/SQLWrapper.java:67 | `getTimeUUID` on a player's UUID text equals `getTimePlayer` on the player |
| SqlStore.GetTimePlayerOrdered | src/main/java/net/endercube/EndercubeCommon/SQLWrapper.java:64 | a player's times at successive indices do not decrease, and index k exists whenever index k+1 does |
| SqlStore.OverallAtMostPlayer | src/main/java/net/endercube/EndercubeCommon/SQLWrapper.java:121 | the overall index-th time exists and is at most any player's index-th time |
| SqlStore.InsertCountsOnce | src/main/java/net/endercube/EndercubeCommon/SQLWrapper.java:40-48 | an inserted run adds exactly one row to its group, even when an identical row exists |
| SqlStore.InsertOtherGroup | src/main/java/net/endercube/EndercubeCommon/SQLWrapper.java:40-48 | an insert leaves every other player's and course's ranking unchanged |
| SqlStore.SqlWrapper.constructor | src/main/java/net/endercube/EndercubeCommon/SQLWrapper.java:198-205 | `CREATE TABLE IF NOT EXISTS` on a fresh database leaves an empty table |
| SqlStore.SqlWrapper.AddTime | src/main/java/net/endercube/EndercubeCommon/SQLWrapper.java:40-50 | the table becomes the old table plus one row (uuid text, course, time) |
| SqlStore.SqlWrapper.PruneDatabase | src/main/java/net/endercube/EndercubeCommon/SQLWrapper.java:171-190 | the table becomes the prune of the old table, a sub-multiset of it |
| SqlStore.Pruned | src/main/java/net/endercube/EndercubeCommon/SQLWrapper.java:175-186 | the literal `DELETE ... NOT IN (... ROW_NUMBER() ... row_num <= 10)` only deletes: each row is kept at most as many times as it occurred; which rows survive is stated by `PruneRetention` and `PrunedGroup` |
| SqlStore.PruneRetention | src/main/java/net/endercube/EndercubeCommon/SQLWrapper.java:175-186 | a row survives iff its group has at most ten rows or its time is at most the group's tenth-best time |
| SqlStore.PrunedGroup | src/main/java/net/endercube/EndercubeCommon/SQLWrapper.java:181 | what survives of a group is determined by that group's rows alone |
| SqlStore.PruneIsPerGroup | src/main/java/net/endercube/EndercubeCommon/SQLWrapper.java:181 | pruning then selecting a group equals pruning the group on its own |
| SqlStore.PruneIdempotent | src/main/java/net/endercube/EndercubeCommon/SQLWrapper.java:175-186 | pruning twice equals pruning once |
| SqlStore.PruneKeepsTopTen | src/main/java/net/endercube/EndercubeCommon/SQLWrapper.java:181-184 | for indices 1..10, `getTimeUUID` answers the same before and after a prune |
| SqlStore.SurvivorsKthTime | src/main/java/net/endercube/EndercubeCommon/SQLWrapper.java:181-184 | a group's survivors have the group's ten best times at the same ranks |
| SqlStore.PruneBound | src/main/java/net/endercube/EndercubeCommon/SQLWrapper.java:177-184 | after a prune, fewer than ten of a large group's rows beat its former tenth-best time and none is slower |
| SqlStore.PruneBoundDistinct | src/main/java/net/endercube/EndercubeCommon/SQLWrapper.java:168 | with pairwise distinct times, at most ten runs per player and course remain |
| SqlStore.TiedRunsSurvive | src/main/java/net/endercube/EndercubeCommon/SQLWrapper.java:177-178 | any number of identical runs all survive a prune, because `NOT IN` compares whole triples |
| SortedSets.ZAdd | src/main/java/net/endercube/EndercubeCommon/utils/DatabaseWrapper.java:41 | ZADD sets the member's score and creates the key; other members and other keys are unchanged |
| SortedSets.ZAddLastWins | src/main/java/net/endercube/EndercubeCommon/utils/DatabaseWrapper.java:41 | a second ZADD of a member replaces the first score: one entry per player per course |
| SortedSets.ZAddListed | src/main/java/net/endercube/EndercubeCommon/utils/DatabaseWrapper.java:41 | after ZADD the full listing holds the member with the new score, exactly once |
| SortedSets.ZRem | src/main/java/net/endercube/EndercubeCommon/utils/DatabaseWrapper.java:55 | after ZREM the member is gone, the key is deleted once its set is empty, and other keys are unchanged |
| SortedSets.ZRemAbsent | src/main/java/net/endercube/EndercubeCommon/utils/DatabaseWrapper.java:55 | removing an absent member changes nothing |
| SortedSets.ZRemTwice | src/main/java/net/endercube/EndercubeCommon/utils/DatabaseWrapper.java:55 | ZREM is idempotent |
| SortedSets.ZRemUndoesZAdd | src/main/java/net/endercube/EndercubeCommon/utils/DatabaseWrapper.java:55 | removing a newly added member restores the keyspace |
| SortedSets.CommandsKeepNoEmptySets | src/main/java/net/endercube/EndercubeCommon/utils/DatabaseWrapper.java:41 | ZADD and ZREM never leave an empty set under a key |
| SortedSets.Ordered | src/main/java/net/endercube/EndercubeCommon/utils/DatabaseWrapper.java:79 | the listing of a set is strictly ascending by (score, member) and holds exactly the set's entries |
| SortedSets.ListingUnique | src/main/java/net/endercube/EndercubeCommon/utils/DatabaseWrapper.java:79 | any strictly ascending sequence of a set's entries is that listing |
| SortedSets.ZRangeWithScores | src/main/java/net/endercube/EndercubeCommon/utils/DatabaseWrapper.java:79 | ZRANGE returns the listing's entries at ranks start..stop inclusive, with Redis's index normalisation, and is empty exactly when the normalised range is |
| SortedSets.RangeSortedMembers | src/main/java/net/endercube/EndercubeCommon/utils/DatabaseWrapper.java:79 | every range is ascending and holds only members with their scores |
| SortedSets.MembersDistinct | src/main/java/net/endercube/EndercubeCommon/utils/DatabaseWrapper.java:79 | no member appears twice in a leaderboard |
| SortedSets.FullRange | src/main/java/net/endercube/EndercubeCommon/utils/DatabaseWrapper.java:79 | the range 0..-1 is the whole listing |
| RedisStore.TimesKey | src/main/java/net/endercube/EndercubeCommon/utils/DatabaseWrapper.java:41 | the key `nameSpace + course + ":times"` starts with the namespace, ends in `:times`, and is exactly as long as its three parts |
| RedisStore.TimesKeyInjective | src/main/java/net/endercube/EndercubeCommon/utils/DatabaseWrapper.java:41 | under one namespace, distinct courses have distinct keys |
| RedisStore.NamespacesCanOverlap | src/main/java/net/endercube/EndercubeCommon/utils/DatabaseWrapper.java:29 | two different namespace and course pairs can share a key |
| RedisStore.ZAddOtherCourse | src/main/java/net/endercube/EndercubeCommon/utils/DatabaseWrapper.java:41 | adding a time on one course changes no range of another course |
| RedisStore.ZRemOtherCourse | src/main/java/net/endercube/EndercubeCommon/utils/DatabaseWrapper.java:55 | removing a time on one course changes no range of another course |
| RedisStore.RemovedNotListed | src/main/java/net/endercube/EndercubeCommon/utils/DatabaseWrapper.java:54-55 | after `removeTime` no range of that course lists the player |
| RedisStore.RangeFromRank | src/main/java/net/endercube/EndercubeCommon/utils/DatabaseWrapper.java:77-79 | from a rank lo ≥ 0, the result is the listing from rank lo on, empty exactly when lo passes the high rank or the end of the set |
| RedisStore.LeaderboardSize | src/main/java/net/endercube/EndercubeCommon/utils/DatabaseWrapper.java:61-66 | `getLeaderboard(c, n)` for n ≥ 0 holds min(n + 1, size) entries |
| RedisStore.DatabaseWrapper.constructor | src/main/java/net/endercube/EndercubeCommon/utils/DatabaseWrapper.java:27-31 | the stored namespace is the given one plus ':' |
| RedisStore.DatabaseWrapper.AddTime | src/main/java/net/endercube/EndercubeCommon/utils/DatabaseWrapper.java:40-46 | the keyspace becomes ZADD of the player's UUID text with the time on the course's key |
| RedisStore.DatabaseWrapper.RemoveTime | src/main/java/net/endercube/EndercubeCommon/utils/DatabaseWrapper.java:54-57 | the keyspace becomes ZREM of the player's UUID text on the course's key |
| RedisStore.DatabaseWrapper.GetLeaderboardRange | src/main/java/net/endercube/EndercubeCommon/utils/DatabaseWrapper.java:77-81 | ZRANGE WITHSCORES on the course's key: from a rank minRange ≥ 0, the course's ascending listing from that rank on, empty exactly when minRange passes the high rank or the end of the set |
| RedisStore.DatabaseWrapper.GetLeaderboard | src/main/java/net/endercube/EndercubeCommon/utils/DatabaseWrapper.java:65-68 | `getLeaderboard(c, n)` equals `getLeaderboard(c, 0, n)` and, for n ≥ 0, holds min(n + 1, size) entries |
| SortedSets.SortedSetStore.Zadd | src/main/java/net/endercube/EndercubeCommon/utils/DatabaseWrapper.java:41 | the store's keyspace becomes ZADD of the old one and still holds no empty set |
| SortedSets.SortedSetStore.Zrem | src/main/java/net/endercube/EndercubeCommon/utils/DatabaseWrapper.java:55 | the store's keyspace becomes ZREM of the old one and still holds no empty set |
| Config.WithDefault | src/main/java/net/endercube/EndercubeCommon/utils/ConfigUtils.java:56-65 | a node holding a string keeps it; any other node gets the default; either way it then holds a string |
| Config.GetOrSetDefaultIdempotent | src/main/java/net/endercube/EndercubeCommon/utils/ConfigUtils.java:56-64 | a second call with any default writes nothing and returns the first call's answer |
| Config.ConfigUtils.GetOrSetDefault | src/main/java/net/endercube/EndercubeCommon/utils/ConfigUtils.java:56-65 | returns the string the node holds afterwards; writes the default and saves exactly when the node held no string |
| Config.ConfigUtils.SaveConfig | src/main/java/net/endercube/EndercubeCommon/utils/ConfigUtils.java:42-49 | each save is counted once |
| Config.ItemFromConfig | src/main/java/net/endercube/EndercubeCommon/utils/ConfigUtils.java:74-96 | a missing material becomes "minecraft:barrier" and a missing name the placeholder; an item exists exactly when the material id is known |
| Config.ItemNameIrrelevant | src/main/java/net/endercube/EndercubeCommon/utils/ConfigUtils.java:87-91 | only the material decides whether null is returned |
| Config.ChildString | src/main/java/net/endercube/EndercubeCommon/utils/ConfigUtils.java:75-76 | a string is read exactly when the child exists and holds a scalar, and it is that scalar's text |
| Config.ConfigUtils.GetItemStackFromConfig | src/main/java/net/endercube/EndercubeCommon/utils/ConfigUtils.java:74-96 | on a node: an item exists exactly when the `material` child's string, or "minecraft:barrier" when there is none, is a known id; the item has that material (the child's string, otherwise "minecraft:barrier"), and its name is the `name` child's string, otherwise the placeholder |
| Config.PosFromValue | src/main/java/net/endercube/EndercubeCommon/utils/ConfigUtils.java:105-128 | throws exactly on an unreadable node; null for a missing list or a length other than 3 or 5; otherwise the components in list order, with yaw and pitch zero for length 3 |
| Config.PosRoundTrip | src/main/java/net/endercube/EndercubeCommon/utils/ConfigUtils.java:118-124 | a position written as five floats, or as three when yaw and pitch are zero, reads back unchanged |
| Config.ConfigUtils.GetPosListFromConfig | src/main/java/net/endercube/EndercubeCommon/utils/ConfigUtils.java:137-145 | one entry per child in child order, entry i being `getPosFromConfig` of child i (nulls included); throws exactly when some child throws |

## Left out

- JDBC and Hikari connection handling is not modelled. Each query's result is modelled as if it were read correctly, although `connection.close()` runs before the `ResultSet` is read (SQLWrapper.java:70-73).
- The `SQLWrapper` constructor calls `createTable()` before `dataSource` is assigned, which is a null dereference (SQLWrapper.java:27-29). `SqlStore.SqlWrapper.constructor` models only table creation on an empty database.
- SqlStore.PlayerOverall: `getPlayerOverall` reads the `player` column without calling `resultSet.next()`, on a result set whose connection is already closed (SQLWrapper.java:154-156). The cursor still sits before the first row, so as written the call fails even when a row exists and probably never returns a name. The model reads the row the query was meant to find, and returns none when there is no row.
- The Mojang profile lookup (HTTP and JSON) is the parameter `names`, a partial map from UUID text to name.
- String comparison is exact (a binary collation). The `text` columns are created without a collation (SQLWrapper.java:198-205), so on MariaDB `player = ?`, `course = ?`, `PARTITION BY player, course` and the `NOT IN` triple test use the server default. That default is case-insensitive and ignores trailing spaces. The model does not capture that, for example, runs on "Maze" and "maze" share a query answer and a prune partition there.
- SQL errors are not modelled. Callers must pass `index >= 1`, since `OFFSET -1` is rejected.
- A `null` time (`Long`) is not modelled.
- Times are 64-bit signed integers (`Millis`). Redis scores are modelled as those integers: the conversion of `Long` to a double score loses precision above 2^53, and that loss is not modelled.
- Jedis and the Redis server are `SortedSetStore`, a keyspace map. Connection pooling and network errors are not modelled.
- Member order among equal scores compares strings character by character, where Redis compares bytes. The two agree on ASCII text such as UUIDs.
- The ordered listing, `ZRangeWithScores` and the two `getLeaderboard` functions are ghost. The listing picks the least member by choice, which Dafny cannot compile.
- `saveConfig` file I/O and `MinecraftServer.stopCleanly` on a failed save are not modelled. Saving is a counter.
- Configurate is not modelled. A node is a value: null, scalar text, a list that reads as `Float[]`, or something the `Float[]` reader rejects. Which scalar texts that reader coerces is not modelled: a scalar reads as no list.
- Configurate keeps a node's list and map children (`children`, `fields`) consistent with its value; the model does not. `GetOrSetDefault` writing a scalar onto a map node keeps `fields`, where Configurate would drop the map children.
- Floats are opaque 32-bit patterns with no arithmetic. The widening of a float coordinate to the `double` of `Pos` is not modelled.
- `Material.fromNamespaceId` is the parameter `registry`, the set of known ids. `ItemStack` construction and MiniMessage parsing are not modelled: the display name is the unparsed text.
- Logging is not modelled anywhere.
- EndercubeGame.java (server bootstrap and wiring) and build.gradle.kts are not part of this model.
