/**
 * The shared database as one mutable object: the three relations are fields
 * that the request handlers append to. Each handler is proved to do what the
 * corresponding function on `Db` values describes.
 */
module Store {
  import opened Wrappers
  import opened Records
  import Catalog
  import Credentials
  import Ledger

  class ScoreboardStore {
    var users: seq<User>
    var tasks: seq<Task>
    var completions: seq<Completion>

    /** The store's contents as a value. */
    function State(): Db
      reads this
    {
      Db(users, tasks, completions)
    }

    /** The schema's constraints hold. */
    ghost predicate Valid()
      reads this
    {
      Records.Valid(State())
    }

    /** `db.create_all()` on a fresh database. */
    constructor ()
      ensures Valid()
      ensures users == [] && tasks == [] && completions == []
    {
      users, tasks, completions := [], [], [];
    }

    /** The start-up loop: add each definition whose name is not yet in the catalog. */
    method SeedTasks(defs: seq<Catalog.TaskDef>)
      requires Valid()
      modifies this
      ensures Valid()
      ensures tasks == Catalog.SeedAll(old(tasks), defs)
      ensures users == old(users) && completions == old(completions)
    {
      // Rows are staged in the session one by one and committed together.
      var staged := tasks;
      var i := 0;
      while i < |defs|
        invariant 0 <= i <= |defs|
        invariant Catalog.SeedAll(staged, defs[i..]) == Catalog.SeedAll(tasks, defs)
        invariant unchanged(this)
      {
        var d := defs[i];
        Catalog.SeedAllStep(staged, defs, i);
        if FindTask(staged, d.name).None? {
          staged := staged + [Catalog.NewTask(d)];
        }
        i := i + 1;
      }
      assert defs[i..] == [];
      Catalog.SeedKeepsValid(State(), defs);
      tasks := staged;
    }

    /** POST /register. */
    method Register(h: Credentials.Hasher, username: Option<string>, password: Option<string>, salt: Salt)
      returns (r: Credentials.RegisterOutcome)
      requires Valid()
      modifies this
      ensures Valid()
      ensures (State(), r) == Credentials.Register(old(State()), h, username, password, salt)
    {
      if !Truthy(username) || !Truthy(password) {
        return Credentials.MissingCredentials;
      }
      if FindUser(users, username.value).Some? {
        return Credentials.UsernameTaken;
      }
      users := users + [User(username.value, h.hash(salt, password.value))];
      r := Credentials.Registered(|users| - 1);
    }

    /** POST /api/complete_task. */
    method CompleteTask(body: Ledger.Body) returns (r: Ledger.SubmitOutcome)
      requires Valid()
      modifies this
      ensures Valid()
      ensures (State(), r) == Ledger.Submit(old(State()), body)
    {
      if !Ledger.HasData(body) {
        return Ledger.NoData;
      }
      var data := body.value;
      var username := Ledger.Field(data, "username");
      var taskName := Ledger.Field(data, "task_name");
      var flag := Ledger.FlagOf(data);
      if !Truthy(username) || !Truthy(taskName) {
        return Ledger.MissingFields;
      }
      var user := FindUser(users, username.value);
      if user.None? {
        return Ledger.UserNotFound;
      }
      var task := FindTask(tasks, taskName.value);
      if task.None? {
        return Ledger.TaskNotFound;
      }
      if HasCompletion(completions, user.value, task.value) {
        return Ledger.AlreadyCompleted;
      }
      completions := completions + [Completion(user.value, task.value, flag)];
      r := Ledger.Completed(tasks[task.value].points, tasks[task.value].displayName);
    }
  }
}
