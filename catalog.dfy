/**
 * The task catalog and its start-up seeding: each task definition is
 * inserted only when no task of that name exists yet.
 */
module Catalog {
  import opened Wrappers
  import opened Records

  /** One entry of the seed list; a definition without points gets the column default. */
  datatype TaskDef = TaskDef(name: string, displayName: string, description: Option<string>, points: Option<int>)

  /** The default of the `points` column. */
  const DefaultPoints := 100

  /** The row that `Task(**definition)` inserts. */
  function NewTask(d: TaskDef): (t: Task)
    ensures t.name == d.name && t.displayName == d.displayName && t.description == d.description
    ensures d.points.Some? ==> t.points == d.points.value
    ensures d.points.None? ==> t.points == DefaultPoints
  {
    Task(d.name, d.displayName, d.description, d.points.GetOr(DefaultPoints))
  }

  function DefNames(defs: seq<TaskDef>): set<string> {
    set d | d in defs :: d.name
  }

  /** The rows of the given definitions, in order. */
  function NewTasks(defs: seq<TaskDef>): (r: seq<Task>)
    ensures |r| == |defs|
    ensures forall i | 0 <= i < |defs| :: r[i] == NewTask(defs[i])
  {
    if defs == [] then [] else [NewTask(defs[0])] + NewTasks(defs[1..])
  }

  /** One turn of the seeding loop: insert `d` unless its name is taken. */
  function SeedOne(tasks: seq<Task>, d: TaskDef): (r: seq<Task>)
    ensures d.name in TaskNames(tasks) ==> r == tasks
    ensures d.name !in TaskNames(tasks) ==> r == tasks + [NewTask(d)]
    ensures TaskNames(r) == TaskNames(tasks) + {d.name}
    ensures UniqueTaskNames(tasks) ==> UniqueTaskNames(r)
  {
    if FindTask(tasks, d.name).None? then tasks + [NewTask(d)] else tasks
  }

  /**
   * The whole seeding loop. Existing tasks are kept as they are (a prefix of the
   * result), every definition's name ends up in the catalog, nothing else does,
   * and every added row is the row of one of the definitions.
   */
  function SeedAll(tasks: seq<Task>, defs: seq<TaskDef>): (r: seq<Task>)
    ensures tasks <= r
    ensures TaskNames(r) == TaskNames(tasks) + DefNames(defs)
    ensures UniqueTaskNames(tasks) ==> UniqueTaskNames(r)
    ensures forall k | |tasks| <= k < |r| :: r[k] in NewTasks(defs)
    decreases |defs|
  {
    if defs == [] then tasks
    else
      var t1 := SeedOne(tasks, defs[0]);
      var r := SeedAll(t1, defs[1..]);
      assert DefNames(defs) == {defs[0].name} + DefNames(defs[1..]) by {
        assert forall d | d in defs :: d == defs[0] || d in defs[1..];
      }
      assert NewTasks(defs) == [NewTask(defs[0])] + NewTasks(defs[1..]);
      r
  }

  /** One turn of the loop over `defs[i..]`. */
  lemma SeedAllStep(tasks: seq<Task>, defs: seq<TaskDef>, i: nat)
    requires i < |defs|
    ensures SeedAll(tasks, defs[i..]) == SeedAll(SeedOne(tasks, defs[i]), defs[i + 1..])
  {
    assert defs[i..][0] == defs[i] && defs[i..][1..] == defs[i + 1..];
  }

  /** Seeding only adds tasks, so the store's constraints survive it. */
  lemma SeedKeepsValid(db: Db, defs: seq<TaskDef>)
    requires Valid(db)
    ensures Valid(db.(tasks := SeedAll(db.tasks, defs)))
  {
  }

  /** Seeding definitions whose names are all taken changes nothing. */
  lemma {:induction false} SeedAllKnown(tasks: seq<Task>, defs: seq<TaskDef>)
    requires DefNames(defs) <= TaskNames(tasks)
    ensures SeedAll(tasks, defs) == tasks
    decreases |defs|
  {
    if defs != [] {
      assert defs[0] in defs;
      assert SeedOne(tasks, defs[0]) == tasks;
      assert DefNames(defs[1..]) <= DefNames(defs) by {
        forall d | d in defs[1..] ensures d in defs { }
      }
      SeedAllKnown(tasks, defs[1..]);
    }
  }

  /** Running the seeding a second time with the same list leaves the catalog as the first run left it. */
  lemma SeedAllIdempotent(tasks: seq<Task>, defs: seq<TaskDef>)
    ensures SeedAll(SeedAll(tasks, defs), defs) == SeedAll(tasks, defs)
  {
    SeedAllKnown(SeedAll(tasks, defs), defs);
  }

  /** The nine tasks the application seeds at start-up. */
  const DefaultTasks: seq<TaskDef> := [
    TaskDef("archives", "Archives", Some("Extract flag pieces from nested archives"), Some(100)),
    TaskDef("banme", "BanMe", Some("Find the external IP with most BAN attempts"), Some(150)),
    TaskDef("deletefile", "DeleteFile", Some("Delete a file that prevents the program from running"), Some(50)),
    TaskDef("dothemathin30seconds", "DoTheMathIn30Seconds", Some("Calculate the sum of PIDs from forked processes"), Some(150)),
    TaskDef("knockknock", "KnockKnock", Some("Perform port knocking to open the web server"), Some(120)),
    TaskDef("largefile", "LargeFile", Some("Find a password in a large file with specific characteristics"), Some(130)),
    TaskDef("moldovavirus", "MoldovaVirus", Some("Collect password pieces scattered across many files"), Some(140)),
    TaskDef("pincode", "PinCode", Some("Brute force a 5-digit PIN code"), Some(100)),
    TaskDef("projectfiles", "ProjectFiles", Some("Calculate the sum of filename lengths"), Some(110))
  ]

  /** After the first definition is inserted, the remaining ones are still untaken. */
  lemma RestStillFresh(tasks: seq<Task>, defs: seq<TaskDef>)
    requires defs != []
    requires forall i, j | 0 <= i < j < |defs| :: defs[i].name != defs[j].name
    requires forall d | d in defs :: d.name !in TaskNames(tasks)
    ensures forall d | d in defs[1..] :: d.name !in TaskNames(tasks + [NewTask(defs[0])])
  {
    assert TaskNames(tasks + [NewTask(defs[0])]) == TaskNames(tasks) + {defs[0].name};
    forall d | d in defs[1..] ensures d.name !in TaskNames(tasks) + {defs[0].name} {
      var k :| 0 <= k < |defs[1..]| && defs[1..][k] == d;
      assert defs[k + 1] == d;
    }
  }

  lemma AppendRegroup(a: seq<Task>, t: Task, b: seq<Task>)
    ensures (a + [t]) + b == a + ([t] + b)
  {
  }

  /** Definitions with pairwise different names, none of them taken, are all inserted, in order. */
  lemma {:induction false} SeedAllFresh(tasks: seq<Task>, defs: seq<TaskDef>)
    requires forall i, j | 0 <= i < j < |defs| :: defs[i].name != defs[j].name
    requires forall d | d in defs :: d.name !in TaskNames(tasks)
    ensures SeedAll(tasks, defs) == tasks + NewTasks(defs)
    decreases |defs|
  {
    if defs != [] {
      var t1 := SeedOne(tasks, defs[0]);
      assert defs[0] in defs;
      assert t1 == tasks + [NewTask(defs[0])];
      RestStillFresh(tasks, defs);
      var rest := defs[1..];
      assert forall i, j | 0 <= i < j < |rest| :: rest[i].name != rest[j].name by {
        forall i, j | 0 <= i < j < |rest| ensures rest[i].name != rest[j].name {
          assert rest[i] == defs[i + 1] && rest[j] == defs[j + 1];
        }
      }
      SeedAllFresh(t1, rest);
      assert SeedAll(tasks, defs) == SeedAll(t1, rest);
      assert NewTasks(defs) == [NewTask(defs[0])] + NewTasks(rest);
      AppendRegroup(tasks, NewTask(defs[0]), NewTasks(rest));
    }
  }

  /** The first start-up, on an empty catalog, inserts the nine default tasks, in list order. */
  lemma DefaultSeedOnEmpty()
    ensures SeedAll([], DefaultTasks) == NewTasks(DefaultTasks)
    ensures |SeedAll([], DefaultTasks)| == 9
  {
    DefaultNamesDistinct();
    SeedAllFresh([], DefaultTasks);
  }

  lemma DefaultNamesDistinct()
    ensures forall i, j | 0 <= i < j < |DefaultTasks| :: DefaultTasks[i].name != DefaultTasks[j].name
  {
  }
}
