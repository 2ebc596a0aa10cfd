/** The relational user store (storage/user_storage.go). The `users` table is a map
    from serial id to row with a soft-delete flag; bcrypt is a symbolic hash. */
module UserTable {
  import opened Results

  /** bcrypt keys its cipher with at most this many bytes of the password. */
  const BcryptKeyBytes := 72

  /** The part of a password bcrypt's key schedule sees (one character per byte). */
  function KeyPart(password: string): (k: string)
    ensures |k| == if |password| < BcryptKeyBytes then |password| else BcryptKeyBytes
    ensures |password| <= BcryptKeyBytes ==> k == password
    ensures k <= password
  {
    if |password| <= BcryptKeyBytes then password else password[..BcryptKeyBytes]
  }

  /** A bcrypt hash, kept symbolic: the term standing for the hash of `password` under
      `salt`. Only `Matches` looks inside it, the way `CompareHashAndPassword` does. */
  datatype PasswordHash = Bcrypt(salt: nat, password: string)

  /** `bcrypt.GenerateFromPassword` with the salt it drew. */
  function Hash(password: string, salt: nat): (h: PasswordHash)
    ensures Matches(h, password)
    ensures forall p :: Matches(h, p) <==> KeyPart(p) == KeyPart(password)
  {
    Bcrypt(salt, password)
  }

  /** `bcrypt.CompareHashAndPassword(h, password) == nil`: the attempt and the hashed
      password agree on the bytes the key schedule reads. */
  predicate Matches(h: PasswordHash, password: string) {
    KeyPart(h.password) == KeyPart(password)
  }

  /** Bytes past the 72nd do not take part: the hash of a password of at least 72
      bytes also accepts that password with anything appended. */
  lemma LongPasswordsCollide(pw: string, salt: nat, extra: string)
    requires |pw| >= BcryptKeyBytes
    ensures Matches(Hash(pw, salt), pw + extra)
  {
    assert (pw + extra)[..BcryptKeyBytes] == pw[..BcryptKeyBytes];
  }

  datatype UserRow = UserRow(
    id: int,
    username: string,
    passwordHash: PasswordHash,
    email: string,
    isActive: bool,
    createdAt: int,
    updatedAt: int,
    createdBy: Option<int>,
    updatedBy: Option<int>
  )

  type Users = map<int, UserRow>

  /** The database as one operation finds it. */
  datatype UserDb = Unreachable | Reachable(users: Users)

  datatype UserError =
    | UserNotFound          // "user with ... not found"
    | QueryFailed           // the database could not be queried
    | HashFailed            // "failed to hash password"
    | CreateFailed          // the INSERT was refused (duplicate id or username)
    | UpdateFailed          // the UPDATE ... RETURNING matched no row or was refused
    | InvalidCredentials    // "invalid credentials"

  /** Rows sit under their own ids and usernames are unique among all rows,
      active or not. */
  predicate WellFormed(users: Users) {
    && (forall id :: id in users ==> users[id].id == id)
    && (forall a, b :: a in users && b in users && users[a].username == users[b].username ==> a == b)
  }

  predicate WellFormedDb(db: UserDb) {
    db.Reachable? ==> WellFormed(db.users)
  }

  /** Some row other than `except` already uses `username`. */
  predicate UsernameTaken(users: Users, username: string, except: int) {
    exists id :: id in users && id != except && users[id].username == username
  }

  /** The row `WHERE username = $1 AND is_active = true` finds. */
  predicate IsActiveNamed(users: Users, id: int, username: string) {
    id in users && users[id].username == username && users[id].isActive
  }

  /** `GetUserByUsername`: the active row with that username, or not-found. */
  function GetUserByUsername(db: UserDb, username: string): (r: Result<UserRow, UserError>)
    requires WellFormedDb(db)
    ensures db.Unreachable? ==> r == Err(QueryFailed)
    ensures r.Ok? ==> db.Reachable? && IsActiveNamed(db.users, r.value.id, username) &&
                      db.users[r.value.id] == r.value
    ensures db.Reachable? ==> (r.Ok? <==> exists id :: IsActiveNamed(db.users, id, username))
  {
    match db
    case Unreachable => Err(QueryFailed)
    case Reachable(users) =>
      if exists id :: id in users && IsActiveNamed(users, id, username) then
        var id :| id in users && IsActiveNamed(users, id, username);
        Ok(users[id])
      else Err(UserNotFound)
  }

  /** `GetUserByID`: the row with that id if it is active, or not-found. */
  function GetUserByID(db: UserDb, id: int): (r: Result<UserRow, UserError>)
    ensures db.Unreachable? ==> r == Err(QueryFailed)
    ensures db.Reachable? ==> (r.Ok? <==> id in db.users && db.users[id].isActive)
    ensures r.Ok? ==> db.Reachable? && r.value == db.users[id] && r.value.isActive
    ensures db.Reachable? && r.Err? ==> r.error == UserNotFound
  {
    match db
    case Unreachable => Err(QueryFailed)
    case Reachable(users) =>
      if id in users && users[id].isActive then Ok(users[id]) else Err(UserNotFound)
  }

  /** The fields a caller hands to `CreateUser`; `password` is plaintext. */
  datatype NewUser = NewUser(
    username: string, password: string, email: string, isActive: bool,
    createdBy: Option<int>, updatedBy: Option<int>)

  /** `CreateUser`: hash the password (`salt` is `None` when bcrypt fails), then INSERT
      under the serial id `newId` the database hands out, stamping both times with `now`. */
  function CreateUser(db: UserDb, user: NewUser, salt: Option<nat>, newId: int, now: int)
    : (res: (UserDb, Outcome<UserError>))
    requires WellFormedDb(db)
    ensures WellFormedDb(res.0)
    ensures res.1.Fail? ==> res.0 == db
    ensures salt.None? ==> res.1 == Fail(HashFailed)
    ensures salt.Some? && db.Unreachable? ==> res.1 == Fail(QueryFailed)
    ensures salt.Some? && db.Reachable? ==>
              (res.1.Pass? <==> newId !in db.users && !UsernameTaken(db.users, user.username, newId))
    ensures res.1.Pass? ==> (
              && db.Reachable? && res.0.Reachable? && newId !in db.users
              && res.0.users.Keys == db.users.Keys + {newId}
              && (forall id :: id in db.users ==> res.0.users[id] == db.users[id]))
    ensures res.1.Pass? ==> (
              && res.0.Reachable? && newId in res.0.users
              && var row := res.0.users[newId];
              && row.id == newId
              && row.username == user.username
              && row.passwordHash == Hash(user.password, salt.value)
              && row.email == user.email
              && row.isActive == user.isActive
              && row.createdAt == now && row.updatedAt == now
              && row.createdBy == user.createdBy && row.updatedBy == user.updatedBy)
  {
    match salt
    case None => (db, Fail(HashFailed))
    case Some(s) =>
      match db
      case Unreachable => (db, Fail(QueryFailed))
      case Reachable(users) =>
        if newId in users || UsernameTaken(users, user.username, newId) then (db, Fail(CreateFailed))
        else
          var row := UserRow(newId, user.username, Hash(user.password, s), user.email, user.isActive,
                             now, now, user.createdBy, user.updatedBy);
          (Reachable(users[newId := row]), Pass)
  }

  /** The fields `UpdateUser` writes, keyed by `id`. */
  datatype UserUpdate = UserUpdate(id: int, username: string, email: string, isActive: bool, updatedBy: Option<int>)

  /** `UpdateUser`: rewrites username, email, `is_active`, `updated_by` and `updated_at`;
      a missing id or a clashing username makes the statement fail. */
  function UpdateUser(db: UserDb, u: UserUpdate, now: int): (res: (UserDb, Outcome<UserError>))
    requires WellFormedDb(db)
    ensures WellFormedDb(res.0)
    ensures res.1.Fail? ==> res.0 == db
    ensures db.Unreachable? ==> res.1 == Fail(QueryFailed)
    ensures db.Reachable? ==> (res.1.Pass? <==> u.id in db.users && !UsernameTaken(db.users, u.username, u.id))
    ensures res.1.Pass? ==> (
              && db.Reachable? && res.0.Reachable? && u.id in db.users
              && res.0.users.Keys == db.users.Keys
              && (forall id :: id in db.users && id != u.id ==> res.0.users[id] == db.users[id]))
    ensures res.1.Pass? ==> (
              && db.Reachable? && res.0.Reachable? && u.id in db.users && u.id in res.0.users
              && var (before, after) := (db.users[u.id], res.0.users[u.id]);
              && after.username == u.username && after.email == u.email
              && after.isActive == u.isActive && after.updatedBy == u.updatedBy && after.updatedAt == now
              && after.id == before.id && after.passwordHash == before.passwordHash
              && after.createdAt == before.createdAt && after.createdBy == before.createdBy)
  {
    match db
    case Unreachable => (db, Fail(QueryFailed))
    case Reachable(users) =>
      if u.id !in users || UsernameTaken(users, u.username, u.id) then (db, Fail(UpdateFailed))
      else
        var row := users[u.id].(username := u.username, email := u.email, isActive := u.isActive,
                                updatedBy := u.updatedBy, updatedAt := now);
        (Reachable(users[u.id := row]), Pass)
  }

  /** `DeleteUser`: a soft delete that clears `is_active` and keeps the row;
      not-found exactly when no row has the id, active or not. */
  function DeleteUser(db: UserDb, id: int, now: int): (res: (UserDb, Outcome<UserError>))
    requires WellFormedDb(db)
    ensures WellFormedDb(res.0)
    ensures res.1.Fail? ==> res.0 == db
    ensures db.Reachable? ==> (res.1 == Fail(UserNotFound) <==> id !in db.users)
    ensures db.Unreachable? ==> res.1 == Fail(QueryFailed)
    ensures res.1.Pass? ==> db.Reachable? && res.0.Reachable? && id in res.0.users && res.0.users.Keys == db.users.Keys && !res.0.users[id].isActive
    ensures res.1.Pass? ==> res.0 == Reachable(db.users[id := db.users[id].(isActive := false, updatedAt := now)])
  {
    match db
    case Unreachable => (db, Fail(QueryFailed))
    case Reachable(users) =>
      if id !in users then (db, Fail(UserNotFound))
      else (Reachable(users[id := users[id].(isActive := false, updatedAt := now)]), Pass)
  }

  /** `ValidateCredentials`: the active user with that name whose hash matches the password. */
  function ValidateCredentials(db: UserDb, username: string, password: string): (r: Result<UserRow, UserError>)
    requires WellFormedDb(db)
    ensures r.Ok? ==> db.Reachable? && r.value.id in db.users && db.users[r.value.id] == r.value
    ensures r.Ok? ==> r.value.username == username && r.value.isActive && Matches(r.value.passwordHash, password)
    ensures db.Unreachable? ==> r == Err(QueryFailed)
    ensures db.Reachable? && !(exists id :: IsActiveNamed(db.users, id, username)) ==> r == Err(UserNotFound)
    ensures db.Reachable? ==> forall id :: IsActiveNamed(db.users, id, username) ==>
              r == (if Matches(db.users[id].passwordHash, password) then Ok(db.users[id]) else Err(InvalidCredentials))
  {
    match GetUserByUsername(db, username)
    case Err(e) => Err(e)
    case Ok(user) =>
      if Matches(user.passwordHash, password) then Ok(user) else Err(InvalidCredentials)
  }

  /** `UpdatePassword`: stores the hash of the new password; not-found exactly when no
      row has the id. Works on inactive rows too. */
  function UpdatePassword(db: UserDb, userId: int, newPassword: string, updatedBy: Option<int>,
                          salt: Option<nat>, now: int): (res: (UserDb, Outcome<UserError>))
    requires WellFormedDb(db)
    ensures WellFormedDb(res.0)
    ensures res.1.Fail? ==> res.0 == db
    ensures salt.None? ==> res.1 == Fail(HashFailed)
    ensures db.Reachable? && salt.Some? ==> (res.1 == Fail(UserNotFound) <==> userId !in db.users)
    ensures salt.Some? && db.Unreachable? ==> res.1 == Fail(QueryFailed)
    ensures res.1.Pass? ==> res.0.Reachable? && userId in res.0.users && res.0.users[userId].passwordHash == Hash(newPassword, salt.value)
    ensures res.1.Pass? ==> (
              && db.Reachable? && userId in db.users
              && res.0 == Reachable(db.users[userId := db.users[userId].(passwordHash := Hash(newPassword, salt.value),
                                                                        updatedBy := updatedBy, updatedAt := now)]))
  {
    match salt
    case None => (db, Fail(HashFailed))
    case Some(s) =>
      match db
      case Unreachable => (db, Fail(QueryFailed))
      case Reachable(users) =>
        if userId !in users then (db, Fail(UserNotFound))
        else
          var row := users[userId].(passwordHash := Hash(newPassword, s), updatedBy := updatedBy, updatedAt := now);
          (Reachable(users[userId := row]), Pass)
  }

  // ---------------------------------------------------------------------------
  // Properties

  /** The by-username lookup only ever returns an active row, and
      credential validation fails for an unknown or inactive username. */
  lemma LookupsSeeOnlyActiveRows(db: UserDb, username: string, password: string, id: int)
    requires WellFormedDb(db)
    ensures GetUserByUsername(db, username).Ok? ==> GetUserByUsername(db, username).value.isActive
    ensures GetUserByID(db, id).Ok? ==> GetUserByID(db, id).value.isActive
    ensures db.Reachable? && !(exists k :: IsActiveNamed(db.users, k, username)) ==>
              ValidateCredentials(db, username, password) == Err(UserNotFound)
  {
  }

  /** A wrong password for an existing active user yields "invalid credentials". */
  lemma WrongPasswordIsInvalidCredentials(users: Users, id: int, password: string)
    requires WellFormed(users) && id in users && users[id].isActive
    requires !Matches(users[id].passwordHash, password)
    ensures ValidateCredentials(Reachable(users), users[id].username, password) == Err(InvalidCredentials)
  {
    assert IsActiveNamed(users, id, users[id].username);
  }

  /** Deleting an already inactive user still succeeds: only the id is matched. */
  lemma DeleteInactiveSucceeds(users: Users, id: int, now: int)
    requires WellFormed(users) && id in users && !users[id].isActive
    ensures DeleteUser(Reachable(users), id, now).1 == Pass
  {
  }

  /** After a delete the user can neither be fetched by id nor log in. */
  lemma DeletedUserLocksOut(users: Users, id: int, now: int, password: string)
    requires WellFormed(users) && id in users
    ensures var db' := DeleteUser(Reachable(users), id, now).0;
      GetUserByID(db', id) == Err(UserNotFound) &&
      ValidateCredentials(db', users[id].username, password).Err?
  {
  }

  /** `UpdateUser` never touches the password hash or the creation fields. */
  lemma UpdateUserKeepsPassword(users: Users, u: UserUpdate, now: int)
    requires WellFormed(users) && u.id in users
    ensures var db' := UpdateUser(Reachable(users), u, now).0;
      db'.users[u.id].passwordHash == users[u.id].passwordHash &&
      db'.users[u.id].createdAt == users[u.id].createdAt &&
      db'.users[u.id].createdBy == users[u.id].createdBy
  {
  }

  /** A new password takes effect and the old one stops working, when the two differ
      within the bytes bcrypt reads. */
  lemma UpdatePasswordThenLogin(users: Users, id: int, oldPw: string, newPw: string, s: nat, now: int)
    requires WellFormed(users) && id in users && users[id].isActive && KeyPart(oldPw) != KeyPart(newPw)
    ensures var db' := UpdatePassword(Reachable(users), id, newPw, None, Some(s), now).0;
      ValidateCredentials(db', users[id].username, newPw).Ok? &&
      ValidateCredentials(db', users[id].username, oldPw) == Err(InvalidCredentials)
  {
    var db' := UpdatePassword(Reachable(users), id, newPw, None, Some(s), now).0;
    assert IsActiveNamed(db'.users, id, users[id].username);
  }

  /** A user created active can log in with the password given at creation, and the
      row the login returns is the one just inserted. */
  lemma CreateThenLogin(users: Users, user: NewUser, s: nat, newId: int, now: int)
    requires WellFormed(users) && user.isActive
    requires newId !in users && !UsernameTaken(users, user.username, newId)
    ensures var (db', o) := CreateUser(Reachable(users), user, Some(s), newId, now);
      o == Pass && ValidateCredentials(db', user.username, user.password) == Ok(db'.users[newId])
  {
    var db' := CreateUser(Reachable(users), user, Some(s), newId, now).0;
    assert IsActiveNamed(db'.users, newId, user.username);
  }
}
