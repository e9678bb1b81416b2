/**
 * `UserService`: accounts with unique usernames and emails.  Every method is
 * one transaction: when it returns an error the users table is unchanged.
 * The password encoder is a parameter; its output is what gets stored.
 */
module UserService {
  import opened Seqs
  import opened Entities
  import opened Persistence

  const UsernameTakenMessage := "Username is already taken!"
  const EmailInUseMessage := "Email is already in use!"

  /** `findById`: the user with this id, or not-found. */
  function FindById(users: map<Id, User>, id: Id): (r: Result<User>)
    ensures r.Ok? <==> id in users
    ensures r.Ok? ==> r.value == users[id]
    ensures r.Err? ==> r.error == NotFound("User")
  {
    if id in users then Ok(users[id]) else Err(NotFound("User"))
  }

  /** `findByUsername`: the id of the user with this username, or not-found. */
  method FindByUsername(db: Store, username: string) returns (r: Result<Id>)
    requires UniqueUserKeys(db.users)
    ensures r.Ok? <==> UsernameTaken(db.users, username)
    ensures r.Ok? ==> r.value in db.users && db.users[r.value].username == username
    ensures r.Ok? ==> forall id :: id in db.users && db.users[id].username == username ==> id == r.value
    ensures r.Err? ==> r.error == NotFound("User")
  {
    if UsernameTaken(db.users, username) {
      var id :| id in db.users && db.users[id].username == username;
      r := Ok(id);
    } else {
      r := Err(NotFound("User"));
    }
  }

  /**
   * `createUser`: a taken username is reported before a taken email; a new
   * user stores the encoded password, the request's names and role, and is
   * active.
   */
  method CreateUser(db: Store, username: string, email: string, password: string,
                    firstName: string, lastName: string, role: Role, encode: string -> string)
    returns (r: Result<Id>)
    requires db.Valid()
    modifies db`users, db`nextId
    ensures db.Valid()
    ensures UsernameTaken(old(db.users), username) ==> r == Err(BadRequest(UsernameTakenMessage))
    ensures !UsernameTaken(old(db.users), username) && EmailTaken(old(db.users), email) ==>
      r == Err(BadRequest(EmailInUseMessage))
    ensures r.Ok? <==> !UsernameTaken(old(db.users), username) && !EmailTaken(old(db.users), email)
    ensures r.Err? ==> db.users == old(db.users) && db.nextId == old(db.nextId)
    ensures r.Ok? ==> r.value !in old(db.users)
    ensures r.Ok? ==>
      db.users == old(db.users)[r.value := User(username, email, encode(password), firstName, lastName, role, true)]
  {
    if UsernameTaken(db.users, username) {
      return Err(BadRequest(UsernameTakenMessage));
    }
    if EmailTaken(db.users, email) {
      return Err(BadRequest(EmailInUseMessage));
    }
    var id := db.NewId();
    db.users := db.users[id := User(username, email, encode(password), firstName, lastName, role, true)];
    r := Ok(id);
  }

  /** The password `updateUser` leaves: the encoded new one if non-empty, else the old one. */
  function UpdatedPassword(old_: string, newPassword: Option<string>, encode: string -> string): (p: string)
    ensures newPassword.None? || newPassword.value == "" ==> p == old_
    ensures newPassword.Some? && newPassword.value != "" ==> p == encode(newPassword.value)
  {
    match newPassword
    case Some(raw) => if raw != "" then encode(raw) else old_
    case None => old_
  }

  /**
   * `updateUser`: uniqueness is checked only for a username or email that
   * changes; names, role, username and email are replaced, the password only
   * when a non-empty one is given, and `active` is kept.
   */
  method UpdateUser(db: Store, id: Id, username: string, email: string, password: Option<string>,
                    firstName: string, lastName: string, role: Role, encode: string -> string)
    returns (r: Result<User>)
    requires db.Valid()
    modifies db`users
    ensures db.Valid()
    ensures id !in old(db.users) ==> r == Err(NotFound("User"))
    ensures id in old(db.users) && username != old(db.users)[id].username && UsernameTaken(old(db.users), username) ==>
      r == Err(BadRequest(UsernameTakenMessage))
    ensures (id in old(db.users) && !(username != old(db.users)[id].username && UsernameTaken(old(db.users), username))
             && email != old(db.users)[id].email && EmailTaken(old(db.users), email)) ==>
      r == Err(BadRequest(EmailInUseMessage))
    ensures r.Ok? <==> id in old(db.users)
                       && !(username != old(db.users)[id].username && UsernameTaken(old(db.users), username))
                       && !(email != old(db.users)[id].email && EmailTaken(old(db.users), email))
    ensures r.Err? ==> db.users == old(db.users)
    ensures r.Ok? ==> db.users == old(db.users)[id := r.value]
    ensures r.Ok? ==> r.value == User(username, email, UpdatedPassword(old(db.users)[id].password, password, encode),
                                      firstName, lastName, role, old(db.users)[id].active)
  {
    if id !in db.users {
      return Err(NotFound("User"));
    }
    var user := db.users[id];
    if user.username != username && UsernameTaken(db.users, username) {
      return Err(BadRequest(UsernameTakenMessage));
    }
    if user.email != email && EmailTaken(db.users, email) {
      return Err(BadRequest(EmailInUseMessage));
    }
    var updated := User(username, email, UpdatedPassword(user.password, password, encode),
                        firstName, lastName, role, user.active);
    db.users := db.users[id := updated];
    r := Ok(updated);
  }

  /** `deactivateUser` / `activateUser`: only the `active` flag of that one user changes. */
  method SetActive(db: Store, id: Id, active: bool) returns (r: Result<()>)
    requires db.Valid()
    modifies db`users
    ensures db.Valid()
    ensures r.Ok? <==> id in old(db.users)
    ensures r.Err? ==> r.error == NotFound("User") && db.users == old(db.users)
    ensures r.Ok? ==> db.users == old(db.users)[id := old(db.users)[id].(active := active)]
  {
    if id !in db.users {
      return Err(NotFound("User"));
    }
    db.users := db.users[id := db.users[id].(active := active)];
    r := Ok(());
  }

  method DeactivateUser(db: Store, id: Id) returns (r: Result<()>)
    requires db.Valid()
    modifies db`users
    ensures db.Valid()
    ensures r.Ok? <==> id in old(db.users)
    ensures r.Err? ==> r.error == NotFound("User") && db.users == old(db.users)
    ensures r.Ok? ==> db.users == old(db.users)[id := old(db.users)[id].(active := false)]
  {
    r := SetActive(db, id, false);
  }

  method ActivateUser(db: Store, id: Id) returns (r: Result<()>)
    requires db.Valid()
    modifies db`users
    ensures db.Valid()
    ensures r.Ok? <==> id in old(db.users)
    ensures r.Err? ==> r.error == NotFound("User") && db.users == old(db.users)
    ensures r.Ok? ==> db.users == old(db.users)[id := old(db.users)[id].(active := true)]
  {
    r := SetActive(db, id, true);
  }

  /** `deleteUser`: removes that one user. */
  method DeleteUser(db: Store, id: Id) returns (r: Result<()>)
    requires db.Valid()
    modifies db`users
    ensures db.Valid()
    ensures r.Ok? <==> id in old(db.users)
    ensures r.Err? ==> r.error == NotFound("User") && db.users == old(db.users)
    ensures r.Ok? ==> db.users == old(db.users) - {id}
  {
    if id !in db.users {
      return Err(NotFound("User"));
    }
    db.users := db.users - {id};
    r := Ok(());
  }
}
