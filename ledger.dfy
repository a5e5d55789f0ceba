/**
 * The completion ledger and the submission endpoint (POST /api/complete_task):
 * validation in a fixed order, then at most one completion per (user, task).
 */
module Ledger {
  import opened Wrappers
  import opened Records

  /** The parsed JSON body: an object with string values, or `None` for a `null` body. */
  type Body = Option<map<string, string>>

  /** `data.get(key)`. */
  function Field(data: map<string, string>, key: string): Option<string> {
    if key in data then Some(data[key]) else None
  }

  /** `if not data`: no body, or an empty object. */
  predicate HasData(body: Body) {
    body.Some? && body.value != map[]
  }

  /** Both required fields are present and non-empty. */
  predicate FieldsGiven(data: map<string, string>) {
    Truthy(Field(data, "username")) && Truthy(Field(data, "task_name"))
  }

  /** `data.get('flag', '')`. */
  function FlagOf(data: map<string, string>): string {
    Field(data, "flag").GetOr("")
  }

  /** The handler's responses; `Status` gives each one's HTTP status code. */
  datatype SubmitOutcome =
    | NoData
    | MissingFields
    | UserNotFound
    | TaskNotFound
    | AlreadyCompleted
    | Completed(points: int, taskDisplayName: string)
  {
    function Status(): int {
      match this
      case NoData => 400
      case MissingFields => 400
      case UserNotFound => 404
      case TaskNotFound => 404
      case AlreadyCompleted => 200
      case Completed(_, _) => 201
    }

    /** The `points` field of a successful response. */
    function PointsAwarded(): int
      requires AlreadyCompleted? || Completed?
    {
      if AlreadyCompleted? then 0 else points
    }
  }

  /**
   * The submission handler on a store value. The conditions below are checked
   * in this order: body, required fields, user, task, existing completion.
   * Every outcome except `Completed` leaves the store unchanged; `Completed`
   * appends exactly one completion and reports the task's points and display
   * name. The store constraints are preserved.
   */
  function Submit(db: Db, body: Body): (res: (Db, SubmitOutcome))
    ensures !HasData(body) ==> res.1 == NoData
    ensures HasData(body) && !FieldsGiven(body.value) ==> res.1 == MissingFields
    ensures HasData(body) && FieldsGiven(body.value) ==>
              var username, taskName := body.value["username"], body.value["task_name"];
              && (username !in Usernames(db.users) ==> res.1 == UserNotFound)
              && (username in Usernames(db.users) && taskName !in TaskNames(db.tasks) ==> res.1 == TaskNotFound)
              && (username in Usernames(db.users) && taskName in TaskNames(db.tasks) ==>
                    var userId, taskId := FindUser(db.users, username).value, FindTask(db.tasks, taskName).value;
                    if HasCompletion(db.completions, userId, taskId) then
                      res.1 == AlreadyCompleted
                    else
                      && res.1 == Completed(db.tasks[taskId].points, db.tasks[taskId].displayName)
                      && res.0.completions == db.completions + [Completion(userId, taskId, FlagOf(body.value))])
    ensures !res.1.Completed? ==> res.0 == db
    ensures res.0.users == db.users && res.0.tasks == db.tasks
    ensures Valid(db) ==> Valid(res.0)
  {
    if !HasData(body) then (db, NoData)
    else
      var data := body.value;
      if !FieldsGiven(data) then (db, MissingFields)
      else
        match FindUser(db.users, data["username"])
        case None => (db, UserNotFound)
        case Some(userId) =>
          match FindTask(db.tasks, data["task_name"])
          case None => (db, TaskNotFound)
          case Some(taskId) =>
            if HasCompletion(db.completions, userId, taskId) then (db, AlreadyCompleted)
            else
              var task := db.tasks[taskId];
              (db.(completions := db.completions + [Completion(userId, taskId, FlagOf(data))]),
               Completed(task.points, task.displayName))
  }

  /** A request naming a known user and a known task, with any flag. */
  function Request(username: string, taskName: string, flag: string): Body {
    Some(map["username" := username, "task_name" := taskName, "flag" := flag])
  }

  /** The response to a well-formed request naming a known user and a known task. */
  lemma SubmitRequest(db: Db, username: string, taskName: string, flag: string)
    requires username != "" && taskName != ""
    requires username in Usernames(db.users) && taskName in TaskNames(db.tasks)
    ensures var userId, taskId := FindUser(db.users, username).value, FindTask(db.tasks, taskName).value;
            Submit(db, Request(username, taskName, flag)) ==
              if HasCompletion(db.completions, userId, taskId) then (db, AlreadyCompleted)
              else (db.(completions := db.completions + [Completion(userId, taskId, flag)]),
                    Completed(db.tasks[taskId].points, db.tasks[taskId].displayName))
  {
    var data := Request(username, taskName, flag).value;
    assert data["username"] == username && data["task_name"] == taskName && FlagOf(data) == flag;
    assert HasData(Request(username, taskName, flag)) by { assert "username" in data; }
  }

  /** Once a pair is recorded, every further submission of it succeeds with 0 points and changes nothing. */
  lemma SubmitRepeated(db: Db, username: string, taskName: string, flag: string)
    requires username != "" && taskName != ""
    requires username in Usernames(db.users) && taskName in TaskNames(db.tasks)
    requires HasCompletion(db.completions, FindUser(db.users, username).value, FindTask(db.tasks, taskName).value)
    ensures var (db', out) := Submit(db, Request(username, taskName, flag));
            db' == db && out.Status() == 200 && out.PointsAwarded() == 0
  {
    SubmitRequest(db, username, taskName, flag);
  }

  /**
   * Submitting the same pair twice: the first call answers 201 with the task's
   * points and display name, the second 200 with 0 points, and the store holds
   * exactly one completion for the pair.
   */
  lemma SubmitTwice(db: Db, username: string, taskName: string, flag1: string, flag2: string)
    requires Valid(db)
    requires username != "" && taskName != ""
    requires username in Usernames(db.users) && taskName in TaskNames(db.tasks)
    requires !HasCompletion(db.completions, FindUser(db.users, username).value, FindTask(db.tasks, taskName).value)
    ensures var userId, taskId := FindUser(db.users, username).value, FindTask(db.tasks, taskName).value;
            var (db1, out1) := Submit(db, Request(username, taskName, flag1));
            var (db2, out2) := Submit(db1, Request(username, taskName, flag2));
            && out1.Status() == 201 && out1 == Completed(db.tasks[taskId].points, db.tasks[taskId].displayName)
            && out2.Status() == 200 && out2.PointsAwarded() == 0
            && db2 == db1
            && PairCount(db2.completions, userId, taskId) == 1
  {
    var userId, taskId := FindUser(db.users, username).value, FindTask(db.tasks, taskName).value;
    SubmitRequest(db, username, taskName, flag1);
    var db1 := db.(completions := db.completions + [Completion(userId, taskId, flag1)]);
    assert db1.completions[|db.completions|] == Completion(userId, taskId, flag1);
    assert HasCompletion(db1.completions, userId, taskId);
    SubmitRepeated(db1, username, taskName, flag2);
    assert Valid(db1);
    PairCountAtMostOne(db1.completions, userId, taskId);
  }

  /**
   * A 201 response appends exactly one completion, of a known user and a known
   * task, and reports that task's points and display name.
   */
  lemma CompletedShape(db: Db, body: Body)
    requires Submit(db, body).1.Completed?
    ensures var (db', out) := Submit(db, body);
            && |db'.completions| == |db.completions| + 1
            && var added := db'.completions[|db.completions|];
               && db' == db.(completions := db.completions + [added])
               && added.userId < |db.users| && added.taskId < |db.tasks|
               && out == Completed(db.tasks[added.taskId].points, db.tasks[added.taskId].displayName)
  {
  }

  /** The ids of the tasks that completions in `cs` record for `userId`. */
  function TaskIdsOf(cs: seq<Completion>, userId: nat): set<nat> {
    set c | c in cs && c.userId == userId :: c.taskId
  }

  /** `{c.task_id for c in user_completions}`: the tasks the given user has completed. */
  function CompletedTaskIds(db: Db, userId: nat): (ids: set<nat>)
    ensures forall taskId :: taskId in ids <==> HasCompletion(db.completions, userId, taskId)
  {
    var ids := TaskIdsOf(db.completions, userId);
    assert forall taskId | HasCompletion(db.completions, userId, taskId) :: taskId in ids by {
      forall taskId | HasCompletion(db.completions, userId, taskId) ensures taskId in ids {
        var i :| 0 <= i < |db.completions| && db.completions[i].userId == userId && db.completions[i].taskId == taskId;
        assert db.completions[i] in db.completions;
      }
    }
    ids
  }

  /** A first completion adds exactly its task to its user's completed set and to no other user's. */
  lemma SubmitExtendsCompletedTasks(db: Db, body: Body, userId: nat)
    requires Submit(db, body).1.Completed?
    ensures var db' := Submit(db, body).0;
            var added := db'.completions[|db'.completions| - 1];
            CompletedTaskIds(db', userId) ==
              CompletedTaskIds(db, userId) + (if added.userId == userId then {added.taskId} else {})
  {
    var db' := Submit(db, body).0;
    var added := db'.completions[|db'.completions| - 1];
    assert db'.completions == db.completions + [added];
    forall taskId
      ensures HasCompletion(db'.completions, userId, taskId) <==>
              HasCompletion(db.completions, userId, taskId) || (added.userId == userId && added.taskId == taskId)
    {
      if HasCompletion(db'.completions, userId, taskId) {
        var i :| 0 <= i < |db'.completions| && db'.completions[i].userId == userId && db'.completions[i].taskId == taskId;
        if i < |db.completions| { assert db.completions[i] == db'.completions[i]; }
      }
      if HasCompletion(db.completions, userId, taskId) {
        var i :| 0 <= i < |db.completions| && db.completions[i].userId == userId && db.completions[i].taskId == taskId;
        assert db'.completions[i] == db.completions[i];
      }
      if added.userId == userId && added.taskId == taskId {
        assert db'.completions[|db.completions|] == added;
      }
    }
  }
}
