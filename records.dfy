/**
 * The three relations of the scoreboard database (`User`, `Task`,
 * `TaskCompletion`) and the constraints the schema puts on them.
 * A row's id is its position in its relation: rows are only ever appended.
 */
module Records {
  import opened Wrappers

  /** A stored password digest, and the random salt mixed into it. */
  type Digest = string
  type Salt = string

  datatype User = User(username: string, passwordHash: Digest)

  datatype Task = Task(name: string, displayName: string, description: Option<string>, points: int)

  /** A completion refers to a user and a task by id (position). */
  datatype Completion = Completion(userId: nat, taskId: nat, flagSubmitted: string)

  datatype Db = Db(users: seq<User>, tasks: seq<Task>, completions: seq<Completion>)

  /** Python truthiness of an optional string: present and non-empty. */
  predicate Truthy(s: Option<string>) {
    s.Some? && s.value != ""
  }

  function Usernames(users: seq<User>): set<string> {
    set u | u in users :: u.username
  }

  function TaskNames(tasks: seq<Task>): set<string> {
    set t | t in tasks :: t.name
  }

  /** `username` is unique. */
  predicate UniqueUsernames(users: seq<User>) {
    forall i, j | 0 <= i < j < |users| :: users[i].username != users[j].username
  }

  /** `name` is unique. */
  predicate UniqueTaskNames(tasks: seq<Task>) {
    forall i, j | 0 <= i < j < |tasks| :: tasks[i].name != tasks[j].name
  }

  /** The `_user_task_uc` constraint: one completion per (user, task) pair. */
  predicate UniquePairs(cs: seq<Completion>) {
    forall i, j | 0 <= i < j < |cs| ::
      cs[i].userId != cs[j].userId || cs[i].taskId != cs[j].taskId
  }

  /** Both foreign keys of every completion resolve. */
  predicate RefsResolve(db: Db) {
    forall c | c in db.completions :: c.userId < |db.users| && c.taskId < |db.tasks|
  }

  predicate Valid(db: Db) {
    && UniqueUsernames(db.users)
    && UniqueTaskNames(db.tasks)
    && UniquePairs(db.completions)
    && RefsResolve(db)
  }

  /** `User.query.filter_by(username=name).first()`, as a position. */
  function FindUser(users: seq<User>, name: string): (r: Option<nat>)
    ensures r.None? <==> name !in Usernames(users)
    ensures r.Some? ==> r.value < |users| && users[r.value].username == name
    ensures r.Some? ==> forall i | 0 <= i < r.value :: users[i].username != name
  {
    if users == [] then None
    else if users[0].username == name then Some(0)
    else
      match FindUser(users[1..], name)
      case None => None
      case Some(k) => Some(k + 1)
  }

  /** `Task.query.filter_by(name=name).first()`, as a position. */
  function FindTask(tasks: seq<Task>, name: string): (r: Option<nat>)
    ensures r.None? <==> name !in TaskNames(tasks)
    ensures r.Some? ==> r.value < |tasks| && tasks[r.value].name == name
    ensures r.Some? ==> forall i | 0 <= i < r.value :: tasks[i].name != name
  {
    if tasks == [] then None
    else if tasks[0].name == name then Some(0)
    else
      match FindTask(tasks[1..], name)
      case None => None
      case Some(k) => Some(k + 1)
  }

  /** Some completion records `userId` having completed `taskId`. */
  predicate HasCompletion(cs: seq<Completion>, userId: nat, taskId: nat) {
    exists i | 0 <= i < |cs| :: cs[i].userId == userId && cs[i].taskId == taskId
  }

  /** How many completions record the pair (userId, taskId). */
  function PairCount(cs: seq<Completion>, userId: nat, taskId: nat): nat {
    if cs == [] then 0
    else
      var last := cs[|cs| - 1];
      PairCount(cs[..|cs| - 1], userId, taskId) + (if last.userId == userId && last.taskId == taskId then 1 else 0)
  }

  /** Under the pair constraint a pair is stored at most once, and once exactly when it is recorded. */
  lemma {:induction false} PairCountAtMostOne(cs: seq<Completion>, userId: nat, taskId: nat)
    requires UniquePairs(cs)
    ensures PairCount(cs, userId, taskId) == (if HasCompletion(cs, userId, taskId) then 1 else 0)
  {
    if cs != [] {
      var init := cs[..|cs| - 1];
      assert UniquePairs(init);
      PairCountAtMostOne(init, userId, taskId);
      var last := cs[|cs| - 1];
      if last.userId == userId && last.taskId == taskId {
        assert !HasCompletion(init, userId, taskId);
        assert HasCompletion(cs, userId, taskId);
      } else {
        if HasCompletion(cs, userId, taskId) {
          var i :| 0 <= i < |cs| && cs[i].userId == userId && cs[i].taskId == taskId;
          assert i < |init| && init[i] == cs[i];
        }
        if HasCompletion(init, userId, taskId) {
          var i :| 0 <= i < |init| && init[i].userId == userId && init[i].taskId == taskId;
          assert cs[i] == init[i];
        }
      }
    }
  }
}
