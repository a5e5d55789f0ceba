/**
 * The scoreboard: one row per user with the number of completed tasks and
 * the sum of their points (absent when the user has completed nothing),
 * ordered by points descending with absent points last, then by number of
 * completed tasks descending. Rows that tie on both keys may come in any order.
 */
module Ranking {
  import opened Wrappers
  import opened Records
  import Ledger

  /** One result row: `(username, tasks_completed, total_points)`. */
  datatype Row = Row(username: string, tasksCompleted: nat, totalPoints: Option<int>)

  /** The completions of one user, in ledger order (the outer join on `user_id`). */
  function UserCompletions(cs: seq<Completion>, userId: nat): (mine: seq<Completion>)
    ensures forall c {:trigger multiset(mine)[c]} :: multiset(mine)[c] == if c.userId == userId then multiset(cs)[c] else 0
    ensures |mine| <= |cs|
  {
    if |cs| == 0 then []
    else
      var init, last := cs[..|cs| - 1], cs[|cs| - 1];
      assert cs == init + [last];
      assert multiset(cs) == multiset(init) + multiset{last};
      var rest := UserCompletions(init, userId);
      if last.userId == userId then rest + [last] else rest
  }

  /** The points a completion contributes: its task's, or none (NULL) when no task joins. */
  function TaskPoints(tasks: seq<Task>, c: Completion): int {
    if c.taskId < |tasks| then tasks[c.taskId].points else 0
  }

  /** `sum(Task.points)` over the given completions (the outer join on `task_id`). */
  function PointsOf(tasks: seq<Task>, cs: seq<Completion>): int {
    if |cs| == 0 then 0
    else PointsOf(tasks, cs[..|cs| - 1]) + TaskPoints(tasks, cs[|cs| - 1])
  }

  /** The aggregate row of one user; SQL `SUM` over no rows is NULL. */
  function RowOf(db: Db, userId: nat): (row: Row)
    requires userId < |db.users|
    ensures row.username == db.users[userId].username
    ensures row.totalPoints.None? <==> row.tasksCompleted == 0
    ensures row.tasksCompleted <= |db.completions|
  {
    var mine := UserCompletions(db.completions, userId);
    Row(db.users[userId].username, |mine|, if |mine| == 0 then None else Some(PointsOf(db.tasks, mine)))
  }

  /** The grouped rows before ordering, one per user, in user order. */
  function Rows(db: Db): seq<Row> {
    seq(|db.users|, u requires 0 <= u < |db.users| => RowOf(db, u))
  }

  /**
   * `a` may be listed before `b`: `ORDER BY total_points DESC NULLS LAST,
   * tasks_completed DESC`, with the NULL cases written out.
   */
  predicate RanksNoLower(a: Row, b: Row)
    ensures RanksNoLower(a, b) && a.totalPoints.None? ==> b.totalPoints.None?
    ensures a.totalPoints.Some? && b.totalPoints.None? ==> RanksNoLower(a, b)
    ensures a.totalPoints.Some? && b.totalPoints.Some? && a.totalPoints.value != b.totalPoints.value ==>
              (RanksNoLower(a, b) <==> a.totalPoints.value > b.totalPoints.value)
    ensures a.totalPoints == b.totalPoints ==> (RanksNoLower(a, b) <==> a.tasksCompleted >= b.tasksCompleted)
  {
    match (a.totalPoints, b.totalPoints)
    case (Some(x), Some(y)) => x > y || (x == y && a.tasksCompleted >= b.tasksCompleted)
    case (Some(_), None) => true
    case (None, Some(_)) => false
    case (None, None) => a.tasksCompleted >= b.tasksCompleted
  }

  predicate SortedByRank(rows: seq<Row>) {
    forall i, j | 0 <= i < j < |rows| :: RanksNoLower(rows[i], rows[j])
  }

  lemma RanksNoLowerTotal(a: Row, b: Row)
    ensures RanksNoLower(a, b) || RanksNoLower(b, a)
  {
  }

  lemma RanksNoLowerTransitive(a: Row, b: Row, c: Row)
    requires RanksNoLower(a, b) && RanksNoLower(b, c)
    ensures RanksNoLower(a, c)
  {
  }

  /** Inserts `row` into an ordered list, keeping it ordered. */
  function Insert(row: Row, rows: seq<Row>): (r: seq<Row>)
    ensures multiset(r) == multiset(rows) + multiset{row}
    ensures SortedByRank(rows) ==> SortedByRank(r)
  {
    if rows == [] then [row]
    else if RanksNoLower(row, rows[0]) then
      var r := [row] + rows;
      assert SortedByRank(rows) ==> SortedByRank(r) by {
        if SortedByRank(rows) {
          forall i, j | 0 <= i < j < |r| ensures RanksNoLower(r[i], r[j]) {
            if i == 0 && j > 1 { RanksNoLowerTransitive(row, rows[0], rows[j - 1]); }
          }
        }
      }
      r
    else
      var rest := Insert(row, rows[1..]);
      var r := [rows[0]] + rest;
      assert rows == [rows[0]] + rows[1..];
      assert SortedByRank(rows) ==> SortedByRank(r) by {
        if SortedByRank(rows) {
          RanksNoLowerTotal(row, rows[0]);
          forall j | 0 < j < |r| ensures RanksNoLower(r[0], r[j]) {
            assert r[j] in multiset(rest);
            if r[j] != row {
              assert r[j] in multiset(rows[1..]);
              var k :| 0 <= k < |rows[1..]| && rows[1..][k] == r[j];
              assert rows[k + 1] == r[j];
            }
          }
        }
      }
      r
  }

  /** Insertion sort by rank: an ordered permutation of its input. */
  function Sort(rows: seq<Row>): (r: seq<Row>)
    ensures multiset(r) == multiset(rows)
    ensures SortedByRank(r)
  {
    if rows == [] then []
    else
      assert rows == [rows[0]] + rows[1..];
      Insert(rows[0], Sort(rows[1..]))
  }

  /**
   * The ranking query: exactly one row per user (a permutation of the grouped
   * rows), ordered by rank.
   */
  function Ranking(db: Db): (r: seq<Row>)
    ensures |r| == |db.users|
    ensures multiset(r) == multiset(Rows(db))
    ensures SortedByRank(r)
    ensures forall k | 0 <= k < |r| :: exists u | 0 <= u < |db.users| :: r[k] == RowOf(db, u)
    ensures forall u | 0 <= u < |db.users| :: RowOf(db, u) in r
  {
    var rows := Rows(db);
    var r := Sort(rows);
    assert |r| == |multiset(r)| == |multiset(rows)| == |rows|;
    assert forall k | 0 <= k < |r| :: exists u | 0 <= u < |db.users| :: r[k] == RowOf(db, u) by {
      forall k | 0 <= k < |r| ensures exists u | 0 <= u < |db.users| :: r[k] == RowOf(db, u) {
        assert r[k] in multiset(rows);
        var u :| 0 <= u < |rows| && rows[u] == r[k];
      }
    }
    assert forall u | 0 <= u < |db.users| :: RowOf(db, u) in r by {
      forall u | 0 <= u < |db.users| ensures RowOf(db, u) in r {
        assert rows[u] in multiset(r);
      }
    }
    r
  }

  /** Points are absent exactly for the users with no completion in the ledger. */
  lemma AbsentPointsIffNoCompletions(db: Db, userId: nat)
    requires userId < |db.users|
    ensures RowOf(db, userId).totalPoints.None? <==> forall c | c in db.completions :: c.userId != userId
  {
    var mine := UserCompletions(db.completions, userId);
    if |mine| != 0 {
      assert multiset(mine)[mine[0]] > 0;
    } else {
      forall c | c in db.completions ensures c.userId != userId {
        assert multiset(mine)[c] == 0;
      }
    }
  }

  /**
   * A user who has completed nothing ranks below every user who has completed
   * something, whatever the point values.
   */
  lemma NoCompletionsRankLast(db: Db, i: nat, j: nat)
    requires RefsResolve(db)
    requires i < j < |Ranking(db)|
    ensures Ranking(db)[i].tasksCompleted == 0 ==> Ranking(db)[j].tasksCompleted == 0
  {
    var r := Ranking(db);
    var ui :| 0 <= ui < |db.users| && r[i] == RowOf(db, ui);
    var uj :| 0 <= uj < |db.users| && r[j] == RowOf(db, uj);
    AbsentPointsIffNoCompletions(db, ui);
    AbsentPointsIffNoCompletions(db, uj);
    assert RanksNoLower(r[i], r[j]);
  }

  /**
   * In any list ordered by rank, such as `Ranking(db)`, of two rows with equal
   * points the one with more completed tasks is listed first.
   */
  lemma TieBrokenByTasksCompleted(rows: seq<Row>, i: nat, j: nat)
    requires SortedByRank(rows)
    requires i < |rows| && j < |rows|
    requires rows[i].totalPoints == rows[j].totalPoints
    requires rows[i].tasksCompleted > rows[j].tasksCompleted
    ensures i < j
  {
  }

  /** The completed-task set after one more completion. */
  lemma TaskIdsAppend(init: seq<Completion>, last: Completion, userId: nat)
    ensures Ledger.TaskIdsOf(init + [last], userId) ==
              Ledger.TaskIdsOf(init, userId) + (if last.userId == userId then {last.taskId} else {})
  {
    var cs := init + [last];
    assert forall c :: c in cs <==> c in init || c == last;
  }

  /** Under the pair constraint, the last completion's task is not among the user's earlier ones. */
  lemma LastTaskIsNew(cs: seq<Completion>)
    requires UniquePairs(cs) && cs != []
    ensures cs[|cs| - 1].taskId !in Ledger.TaskIdsOf(cs[..|cs| - 1], cs[|cs| - 1].userId)
  {
    var init, last := cs[..|cs| - 1], cs[|cs| - 1];
    forall c | c in init && c.userId == last.userId ensures c.taskId != last.taskId {
      var i :| 0 <= i < |init| && init[i] == c;
      assert cs[i] == c;
    }
  }

  /** Under the pair constraint, the completed-task set of a user has one element per completion. */
  lemma {:induction false} CompletedSetSize(cs: seq<Completion>, userId: nat)
    requires UniquePairs(cs)
    ensures |Ledger.TaskIdsOf(cs, userId)| == |UserCompletions(cs, userId)|
  {
    if cs != [] {
      var init, last := cs[..|cs| - 1], cs[|cs| - 1];
      assert cs == init + [last];
      assert UniquePairs(init);
      CompletedSetSize(init, userId);
      TaskIdsAppend(init, last, userId);
      if last.userId == userId {
        LastTaskIsNew(cs);
      }
    }
  }

  /** The progress set shown to a user has as many tasks as that user's `tasks_completed`. */
  lemma CompletedTasksMatchRow(db: Db, userId: nat)
    requires Valid(db) && userId < |db.users|
    ensures |Ledger.CompletedTaskIds(db, userId)| == RowOf(db, userId).tasksCompleted
  {
    CompletedSetSize(db.completions, userId);
  }

  /** Appending one completion changes only the row of its user, by one task and that task's points. */
  lemma RowAfterAppend(db: Db, c: Completion, userId: nat)
    requires RefsResolve(db) && userId < |db.users|
    requires c.userId < |db.users| && c.taskId < |db.tasks|
    ensures var db' := db.(completions := db.completions + [c]);
            RefsResolve(db') &&
            if c.userId == userId then
              RowOf(db', userId) == Row(db.users[userId].username, RowOf(db, userId).tasksCompleted + 1,
                                        Some(RowOf(db, userId).totalPoints.GetOr(0) + db.tasks[c.taskId].points))
            else
              RowOf(db', userId) == RowOf(db, userId)
  {
    AppendResolves(db, c);
    UserCompletionsAppend(db.completions, c, userId);
    if c.userId == userId {
      OwnTotalAfterAppend(db.tasks, db.completions, c);
    }
  }

  lemma AppendResolves(db: Db, c: Completion)
    requires RefsResolve(db) && c.userId < |db.users| && c.taskId < |db.tasks|
    ensures RefsResolve(db.(completions := db.completions + [c]))
  {
  }

  lemma OwnTotalAfterAppend(tasks: seq<Task>, cs: seq<Completion>, c: Completion)
    requires c.taskId < |tasks|
    ensures var mine := UserCompletions(cs, c.userId);
            var mine' := UserCompletions(cs + [c], c.userId);
            |mine'| != 0 &&
            PointsOf(tasks, mine') == (if |mine| == 0 then 0 else PointsOf(tasks, mine)) + tasks[c.taskId].points
  {
    var mine := UserCompletions(cs, c.userId);
    UserCompletionsAppend(cs, c, c.userId);
    PointsOfAppend(tasks, mine, c);
  }

  lemma UserCompletionsAppend(cs: seq<Completion>, c: Completion, userId: nat)
    ensures UserCompletions(cs + [c], userId) ==
            if c.userId == userId then UserCompletions(cs, userId) + [c] else UserCompletions(cs, userId)
  {
    assert (cs + [c])[..|cs + [c]| - 1] == cs;
  }

  lemma PointsOfAppend(tasks: seq<Task>, cs: seq<Completion>, c: Completion)
    requires c.taskId < |tasks|
    ensures PointsOf(tasks, cs + [c]) == PointsOf(tasks, cs) + tasks[c.taskId].points
  {
    assert (cs + [c])[..|cs|] == cs;
  }

  /**
   * A first completion raises its user's row by one task and by the task's
   * points, and leaves every other user's row as it was.
   */
  lemma SubmitRaisesRow(db: Db, body: Ledger.Body, userId: nat)
    requires Valid(db) && userId < |db.users|
    requires Ledger.Submit(db, body).1.Completed?
    ensures var (db', out) := Ledger.Submit(db, body);
            var added := db'.completions[|db'.completions| - 1];
            if added.userId == userId then
              RowOf(db', userId) == Row(db.users[userId].username, RowOf(db, userId).tasksCompleted + 1,
                                        Some(RowOf(db, userId).totalPoints.GetOr(0) + out.points))
            else
              RowOf(db', userId) == RowOf(db, userId)
  {
    Ledger.CompletedShape(db, body);
    var res := Ledger.Submit(db, body);
    var added := res.0.completions[|db.completions|];
    assert res.0 == db.(completions := db.completions + [added]);
    assert res.0.completions[|res.0.completions| - 1] == added;
    assert res.1.points == db.tasks[added.taskId].points;
    RowAfterAppend(db, added, userId);
  }

  /** A store with three users: two completions worth 250 points, one worth 100, none. */
  function ExampleDb(): Db {
    Db([User("alice", "d1"), User("bob", "d2"), User("carol", "d3")],
       [Task("t1", "T1", None, 100), Task("t2", "T2", None, 150), Task("t3", "T3", None, 100)],
       [Completion(0, 0, ""), Completion(0, 1, ""), Completion(1, 2, "")])
  }

  lemma ExampleUserCompletions()
    ensures UserCompletions(ExampleDb().completions, 0) == [Completion(0, 0, ""), Completion(0, 1, "")]
    ensures UserCompletions(ExampleDb().completions, 1) == [Completion(1, 2, "")]
    ensures UserCompletions(ExampleDb().completions, 2) == []
  {
    var cs := ExampleDb().completions;
    assert cs[..2] == [Completion(0, 0, "")] + [Completion(0, 1, "")] && cs[..2][..1] == [Completion(0, 0, "")];
  }

  lemma ExampleRows()
    ensures RefsResolve(ExampleDb())
    ensures Rows(ExampleDb()) == [Row("alice", 2, Some(250)), Row("bob", 1, Some(100)), Row("carol", 0, None)]
  {
    var db := ExampleDb();
    ExampleUserCompletions();
    var mine := [Completion(0, 0, ""), Completion(0, 1, "")];
    assert mine[..1] == [Completion(0, 0, "")];
    assert PointsOf(db.tasks, mine) == 250;
    assert PointsOf(db.tasks, [Completion(1, 2, "")]) == 100;
  }

  /**
   * The worked ranking: the user with 250 points first, then the one with 100,
   * then the one with no completion.
   */
  lemma RankingExample()
    ensures RefsResolve(ExampleDb())
    ensures Ranking(ExampleDb()) == [Row("alice", 2, Some(250)), Row("bob", 1, Some(100)), Row("carol", 0, None)]
  {
    ExampleRows();
    ExampleSort();
  }

  lemma ExampleSort()
    ensures var a, b, c := Row("alice", 2, Some(250)), Row("bob", 1, Some(100)), Row("carol", 0, None);
            Sort([a, b, c]) == [a, b, c]
  {
    var a, b, c := Row("alice", 2, Some(250)), Row("bob", 1, Some(100)), Row("carol", 0, None);
    assert [a, b, c][1..] == [b, c] && [b, c][1..] == [c];
    assert Sort([c]) == [c];
    assert Sort([b, c]) == [b, c];
  }

  /** What GET /scoreboard renders; `sessionUserId` is the id the session cookie holds. */
  datatype ScoreboardPage =
    | RedirectToLogin
    | Page(ranking: seq<Row>, tasks: seq<Task>, completedTaskIds: set<nat>)

  /**
   * Without a session the page redirects to login; otherwise it shows the
   * ranking, the whole catalog and exactly the tasks the session's user completed.
   */
  function Scoreboard(db: Db, sessionUserId: Option<nat>): (p: ScoreboardPage)
    ensures p.RedirectToLogin? <==> sessionUserId.None?
    ensures p.Page? ==>
              && SortedByRank(p.ranking)
              && multiset(p.ranking) == multiset(Rows(db))
              && p.tasks == db.tasks
              && forall taskId :: taskId in p.completedTaskIds <==>
                                   HasCompletion(db.completions, sessionUserId.value, taskId)
  {
    match sessionUserId
    case None => RedirectToLogin
    case Some(userId) => Page(Ranking(db), db.tasks, Ledger.CompletedTaskIds(db, userId))
  }
}
