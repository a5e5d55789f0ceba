/**
 * The credential store: registration and login. Password hashing is an
 * outside capability, given as a parameter; the random salt it uses is a
 * parameter too.
 */
module Credentials {
  import opened Wrappers
  import opened Records

  /** `generate_password_hash` and `check_password_hash`, left uninterpreted. */
  datatype Hasher = Hasher(hash: (Salt, string) -> Digest, verify: (string, Digest) -> bool)

  /** The one property assumed of the hasher: a password verifies against its own digest. */
  ghost predicate Sound(h: Hasher) {
    forall salt, password :: h.verify(password, h.hash(salt, password))
  }

  datatype RegisterOutcome = Registered(userId: nat) | MissingCredentials | UsernameTaken

  /**
   * POST /register. Empty or absent fields are refused first, then a taken
   * username; otherwise exactly one user is appended, holding the digest of
   * the password and never the password itself.
   */
  function Register(db: Db, h: Hasher, username: Option<string>, password: Option<string>, salt: Salt)
    : (res: (Db, RegisterOutcome))
    ensures res.1 == MissingCredentials <==> !Truthy(username) || !Truthy(password)
    ensures res.1 == UsernameTaken <==>
              Truthy(username) && Truthy(password) && username.value in Usernames(db.users)
    ensures !res.1.Registered? ==> res.0 == db
    ensures res.1.Registered? ==>
              && res.0.users == db.users + [User(username.value, h.hash(salt, password.value))]
              && res.1.userId == |db.users|
              && res.0.tasks == db.tasks
              && res.0.completions == db.completions
    ensures Valid(db) ==> Valid(res.0)
  {
    if !Truthy(username) || !Truthy(password) then (db, MissingCredentials)
    else if FindUser(db.users, username.value).Some? then (db, UsernameTaken)
    else
      var users := db.users + [User(username.value, h.hash(salt, password.value))];
      assert Usernames(users) == Usernames(db.users) + {username.value};
      (db.(users := users), Registered(|db.users|))
  }

  /**
   * POST /login. An absent password for an existing user makes
   * `check_password_hash` fail on `None` (an internal server error).
   */
  datatype LoginOutcome = LoggedIn(userId: nat) | InvalidCredentials | ServerError

  /**
   * Unknown username and wrong password give the same outcome,
   * `InvalidCredentials`; success names the user whose digest verifies.
   */
  function Login(db: Db, h: Hasher, username: Option<string>, password: Option<string>): (r: LoginOutcome)
    ensures r.LoggedIn? ==>
              && username.Some? && password.Some?
              && r.userId < |db.users|
              && db.users[r.userId].username == username.value
              && h.verify(password.value, db.users[r.userId].passwordHash)
    ensures username.None? || username.value !in Usernames(db.users) ==> r == InvalidCredentials
    ensures r == ServerError <==>
              username.Some? && username.value in Usernames(db.users) && password.None?
    ensures UniqueUsernames(db.users) ==>
              forall i | 0 <= i < |db.users| && username == Some(db.users[i].username) && password.Some? ::
                if h.verify(password.value, db.users[i].passwordHash) then r == LoggedIn(i)
                else r == InvalidCredentials
  {
    if username.None? then InvalidCredentials
    else
      match FindUser(db.users, username.value)
      case None => InvalidCredentials
      case Some(i) =>
        if password.None? then ServerError
        else if h.verify(password.value, db.users[i].passwordHash) then LoggedIn(i)
        else InvalidCredentials
  }

  /**
   * As written, login tells a registered username from an unknown one when the
   * password field is left out: the first fails inside the hash check, the
   * second gets the ordinary failure.
   */
  lemma LoginRevealsUsername(h: Hasher, digest: Digest)
    ensures var db := Db([User("alice", digest)], [], []);
            Login(db, h, Some("alice"), None) == ServerError &&
            Login(db, h, Some("bob"), None) == InvalidCredentials
  {
    var db := Db([User("alice", digest)], [], []);
    assert Usernames(db.users) == {"alice"};
  }

  /**
   * Login with an absent password counted as a failed login: every failure,
   * whatever its cause, is the one outcome `InvalidCredentials`.
   */
  function Authenticate(db: Db, h: Hasher, username: Option<string>, password: Option<string>): (r: LoginOutcome)
    ensures r.LoggedIn? || r == InvalidCredentials
    ensures r.LoggedIn? ==>
              && username.Some? && password.Some?
              && r.userId < |db.users|
              && db.users[r.userId].username == username.value
              && h.verify(password.value, db.users[r.userId].passwordHash)
    ensures UniqueUsernames(db.users) ==>
              forall i | 0 <= i < |db.users| && username == Some(db.users[i].username) ::
                r == LoggedIn(i) <==> password.Some? && h.verify(password.value, db.users[i].passwordHash)
  {
    if password.None? then InvalidCredentials else Login(db, h, username, password)
  }

  /** With a sound hasher, a freshly registered user can log in with the same password. */
  lemma RegisterThenLogin(db: Db, h: Hasher, username: string, password: string, salt: Salt)
    requires Sound(h) && Valid(db)
    requires Register(db, h, Some(username), Some(password), salt).1.Registered?
    ensures var (db', out) := Register(db, h, Some(username), Some(password), salt);
            Authenticate(db', h, Some(username), Some(password)) == LoggedIn(out.userId)
  {
    var (db', out) := Register(db, h, Some(username), Some(password), salt);
    assert db'.users[out.userId] == User(username, h.hash(salt, password));
    assert h.verify(password, h.hash(salt, password));
  }

  /** Registering a username that is already taken fails and leaves the whole store, that user's digest included, as it was. */
  lemma RegisterTakenKeepsStore(db: Db, h: Hasher, i: nat, password: Option<string>, salt: Salt)
    requires i < |db.users|
    ensures var (db', out) := Register(db, h, Some(db.users[i].username), password, salt);
            !out.Registered? && db' == db
  {
    assert db.users[i] in db.users;
  }
}
