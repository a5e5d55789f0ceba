# Scoreboard core in Dafny

A model of the scoring core of the Scoreboard web application (`Scoreboard/app.py`):
participants register and log in, complete tasks from a fixed catalog, and a ranked
scoreboard is derived from their completions.

The database is three in-memory relations (`Records.Db`): users, tasks and task
completions, each a sequence to which rows are only appended. A row's id is its
position in its sequence: 0-based here, where SQLite's row ids are 1-based. `Records.Valid`
collects the schema's constraints: unique usernames, unique task names, resolving
foreign keys, and at most one completion per (user, task) pair.

Each part of the core is a module:

- `Catalog`: the start-up seeding, which inserts a task definition only when no task
  of that name exists (`SeedAll`), and the nine default tasks.
- `Credentials`: registration and login. Password hashing is a `Hasher` value passed in.
  It holds two uninterpreted functions, `hash` and `verify`. The one property assumed of
  them, that a password verifies against its own digest, is the hypothesis `Sound`. The
  random salt is a parameter.
- `Ledger`: the submission endpoint `POST /api/complete_task` (`Submit`). It validates
  in a fixed order, then records at most one completion per pair. Its outcomes carry
  their HTTP status codes. The module also computes a user's completed-task set.
- `Ranking`: the scoreboard query. It builds one row per user, sorts them (points
  descending with absent points last, then completed tasks descending) and renders the
  page for the user named by the session.
- `Store`: the shared database as a class `ScoreboardStore`. Its fields are the three
  relations, and its methods (seeding loop, register, complete task) append to them.
  Each method is proved to produce the same state and outcome as the function above.

## Model

| member | source | states |
|---|---|---|
| `Records.FindUser` | Scoreboard/app.py:167-169 | the lookup by username finds a user exactly when the name is taken, and returns the first user with that name |
| `Records.FindTask` | Scoreboard/app.py:171-173 | the lookup by task name finds a task exactly when the name is in the catalog, and returns the first task with that name |
| `Records.PairCountAtMostOne` | Scoreboard/app.py:45 | under the pair constraint a (user, task) pair is stored once if it was ever recorded, and otherwise not at all |
| `Catalog.SeedOne` | Scoreboard/app.py:65-67 | a definition is appended only if its name is new, as the row `NewTask(d)`, which takes its points from the definition or else the column default of 100 (line 35); an existing task is never replaced; names stay unique |
| `Catalog.SeedAll` | Scoreboard/app.py:64-69 | existing tasks are a prefix of the result, unchanged; the catalog's names become the old names plus the definitions' names; uniqueness is kept; every added row comes from a definition |
| `Catalog.SeedAllKnown` | Scoreboard/app.py:65 | seeding definitions whose names all exist changes nothing |
| `Catalog.SeedAllIdempotent` | Scoreboard/app.py:64-69 | seeding the same list a second time leaves the catalog exactly as the first run left it |
| `Catalog.SeedKeepsValid` | Scoreboard/app.py:64-69 | seeding preserves every store constraint |
| `Catalog.SeedAllFresh` | Scoreboard/app.py:64-67 | definitions with distinct, untaken names are all appended, in list order |
| `Catalog.DefaultNamesDistinct` | Scoreboard/app.py:52-62 | the nine default task names are pairwise different |
| `Catalog.DefaultSeedOnEmpty` | Scoreboard/app.py:52-69 | on an empty catalog the start-up seeding inserts all nine default tasks, in list order |
| `Credentials.Register` | Scoreboard/app.py:84-93 | empty or absent fields fail first, then a taken username; both failures leave the store unchanged; success appends exactly one user holding the digest of the password, with the next id; uniqueness and all constraints are kept |
| `Credentials.RegisterTakenKeepsStore` | Scoreboard/app.py:87-88 | registering an existing username fails and leaves the existing user's record and the whole store unchanged |
| `Credentials.Login` | Scoreboard/app.py:107-114 | as written: success only for the user with that name whose digest verifies the password; an unknown or absent username gives `InvalidCredentials`; a known username with an absent password gives a server error; with unique usernames, a wrong password gives `InvalidCredentials` |
| `Credentials.LoginRevealsUsername` | Scoreboard/app.py:104-109 | with the password field left out, a registered username gets a server error and an unknown one gets `InvalidCredentials`, so the two responses differ |
| `Credentials.Authenticate` | Scoreboard/app.py:107-114 | every failure is the same single outcome `InvalidCredentials`; success exactly when the named user's digest verifies the given password |
| `Credentials.RegisterThenLogin` | Scoreboard/app.py:24-28 | with a sound hasher, a user who has just registered authenticates with the same password |
| `Ledger.Submit` | Scoreboard/app.py:155-189 | checks run in order: missing body or empty object (400), then missing username or task name (400), then unknown user (404), then unknown task (404), then an existing completion (200 with 0 points); otherwise (201) it appends exactly one completion and reports the task's points and display name; every other outcome leaves users, tasks and completions unchanged; all constraints, pair uniqueness included, are kept |
| `Ledger.SubmitRequest` | Scoreboard/app.py:160-189 | a request with a non-empty known username and task name is answered 200 with nothing stored when the pair is recorded, and otherwise 201 with the one completion appended, carrying the submitted flag |
| `Ledger.CompletedShape` | Scoreboard/app.py:180-189 | a 201 answer appends exactly one completion, which names a known user and a known task, and reports that task's points and display name |
| `Ledger.SubmitRepeated` | Scoreboard/app.py:175-178 | once a pair is recorded, any further submission of it, with any flag, answers 200 with 0 points and changes nothing |
| `Ledger.SubmitTwice` | Scoreboard/app.py:176-189 | submitting a new pair twice answers 201 with the task's points and display name, then 200 with 0 points, and stores exactly one completion for the pair |
| `Ledger.CompletedTaskIds` | Scoreboard/app.py:143-144 | the current user's completed-task set holds exactly the tasks for which a completion by that user exists |
| `Ledger.SubmitExtendsCompletedTasks` | Scoreboard/app.py:180-183 | a first completion adds exactly its task to its user's completed set and leaves every other user's set unchanged |
| `Ranking.UserCompletions` | Scoreboard/app.py:133 | a user's joined completions are exactly the ledger's completions by that user, each as many times as it occurs in the ledger, so their number is the user's completion count; no completion of another user appears |
| `Ranking.PointsOfAppend` | Scoreboard/app.py:132 | the points sum grows by exactly the task points of each further joined completion |
| `Ranking.RowOf` | Scoreboard/app.py:129-135 | a user's row carries the user's name and a completion count no larger than the ledger; its points are absent exactly when the count is zero |
| `Ranking.RanksNoLower` | Scoreboard/app.py:136 | a row with points may precede one without, never the reverse; between two point values the higher comes first; on equal points the row with more completed tasks comes first |
| `Ranking.RanksNoLowerTotal` | Scoreboard/app.py:136 | any two rows can be ordered one way or the other |
| `Ranking.RanksNoLowerTransitive` | Scoreboard/app.py:136 | the order is transitive, so sorting by it is well defined |
| `Ranking.Insert` | Scoreboard/app.py:136 | inserting into a rank-ordered list keeps it ordered and adds exactly that row |
| `Ranking.Sort` | Scoreboard/app.py:136 | the result is ordered by rank and is a permutation of the input |
| `Ranking.Ranking` | Scoreboard/app.py:129-137 | one row per user: a permutation of the per-user rows, every row the row of some user, every user's row present; ordered by points descending with absent last, then completed tasks descending; no order among full ties is fixed |
| `Ranking.AbsentPointsIffNoCompletions` | Scoreboard/app.py:132-134 | a user's total points are absent exactly when no completion in the ledger belongs to that user |
| `Ranking.NoCompletionsRankLast` | Scoreboard/app.py:136 | every user with no completion is listed after every user with at least one, whatever the point values |
| `Ranking.TieBrokenByTasksCompleted` | Scoreboard/app.py:136 | of two rows with equal points, the one with more completed tasks is listed first |
| `Ranking.CompletedSetSize` | Scoreboard/app.py:45 | under the pair constraint, a user's set of completed task ids has one element per completion |
| `Ranking.CompletedTasksMatchRow` | Scoreboard/app.py:129-144 | the progress set shown to a user has exactly that user's `tasks_completed` elements |
| `Ranking.RowAfterAppend` | Scoreboard/app.py:129-135 | appending a completion raises its user's row by one task and by the task's points (from absent to that value), and leaves other rows unchanged |
| `Ranking.SubmitRaisesRow` | Scoreboard/app.py:180-183 | a first completion raises the submitting user's scoreboard row by one task and the awarded points, and no other user's row changes |
| `Ranking.RankingExample` | Scoreboard/app.py:129-137 | users with (2 tasks, 250 points), (1, 100) and (0, absent) rank in exactly that order |
| `Ranking.Scoreboard` | Scoreboard/app.py:124-150 | without a session the page redirects to login; otherwise it shows a rank-ordered permutation of the per-user rows, the whole catalog, and exactly the session user's completed tasks |
| `Store.ScoreboardStore.constructor` | Scoreboard/app.py:48-49 | a freshly created database has no users, tasks or completions and meets every constraint |
| `Store.ScoreboardStore.SeedTasks` | Scoreboard/app.py:64-69 | the loop leaves the catalog equal to `SeedAll` of the old catalog and the list; users and completions are unchanged; constraints are kept |
| `Store.ScoreboardStore.Register` | Scoreboard/app.py:79-97 | the new store and the outcome are those of `Credentials.Register`; constraints are kept |
| `Store.ScoreboardStore.CompleteTask` | Scoreboard/app.py:154-189 | the new store and the outcome are those of `Ledger.Submit`; constraints are kept |

## Findings

| source | as written | input that shows it | evidently intended | confidence | as-written member | corrected member |
|---|---|---|---|---|---|---|
| Scoreboard/app.py:104-109 | an absent password form field is passed on to `check_password_hash`, which fails on it | `POST /login` with a registered username and no password field gives an internal server error; an unknown username gives "Invalid username or password" | an absent password is an ordinary failed login, so no response reveals whether a username exists | medium (depends on the hashing library rejecting `None`), not executed | `Credentials.LoginRevealsUsername` (on `Credentials.Login`) | `Credentials.Authenticate` |

## Left out

- HTTP routing, templates, redirects and JSON encoding. Handler results are outcome datatypes, and `SubmitOutcome.Status` gives each outcome's status code. The `GET` forms of `/register` and `/login`, and the `/` and `/logout` routes, are presentation only.
- Session and cookie state. The scoreboard takes the session's user id as a parameter. Storing the id in the session after register or login is not modelled.
- The password-hashing algorithm. Hash and verify are parameters. Salt generation and the secret key are randomness, and `created_at` and `completed_at` are clock values. None of these is modelled.
- Persistence, `db.create_all` and commits. The database is three in-memory sequences, and each handler's writes take effect at once.
- Concurrent submissions of the same pair, which rely on the database's unique constraint. Submissions are modelled one at a time, and pair uniqueness is an invariant that every operation keeps.
- Request bodies that are not JSON objects with string values. A JSON `null` body is `None`; other JSON value types and non-JSON content types are not modelled.
- A completion whose task row is missing still counts towards `tasks_completed` and adds no points, as the outer join does; SQL would report absent rather than zero points for a user all of whose completions are of that kind, which cannot arise in the program: the submission endpoint inserts only task ids it has just looked up (Scoreboard/app.py:167-181) and nothing deletes tasks or users. The model states this as `Records.Valid`, which every operation keeps. SQLite does not enforce the declared foreign keys, because the program never enables `PRAGMA foreign_keys`.
- Column length limits (`String(80)`, `String(100)`, `String(200)`) are not modelled. SQLite does not enforce them.
- The model keeps three details of the code's own behaviour. Registration rejects an empty username or password. The submitted flag defaults to the empty string. An existing user's absent password makes login fail with a server error, as the Findings section records.
