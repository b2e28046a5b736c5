/** The `users` table: login identities. */
module UserModel {
  import opened Http
  import Query

  /** A stored row. `password_hash` holds the digest of the password, never the password. */
  datatype User = User(
    id: nat,
    username: string,
    passwordHash: string,
    isAdmin: bool,
    createdAt: Timestamp,
    updatedAt: Timestamp)

  /** Column widths declared by `max_length`. */
  const MaxUsernameLength: nat := 100
  const MaxPasswordHashLength: nat := 255

  /** A User as the request body carries it: everything but the key the store assigns.
      The create and update handlers read the raw password from `password_hash`. */
  datatype UserRequest = UserRequest(
    username: string,
    passwordHash: string,
    isAdmin: Field<bool>,
    createdAt: Field<Timestamp>,
    updatedAt: Field<Timestamp>)

  /** The declared widths, which request validation applies to a body before a handler runs. */
  predicate RequestFitsColumns(req: UserRequest)
  {
    |req.username| <= MaxUsernameLength && |req.passwordHash| <= MaxPasswordHashLength
  }

  /** The row the class builds from a request body, given the id the store assigns:
      `is_admin` defaults to false and each timestamp to its own clock reading. */
  function NewUser(id: nat, req: UserRequest, createdClock: Timestamp, updatedClock: Timestamp): (u: User)
    ensures u.id == id && u.username == req.username && u.passwordHash == req.passwordHash
    ensures req.isAdmin.Omitted? ==> !u.isAdmin
    ensures req.isAdmin.Given? ==> u.isAdmin == req.isAdmin.value
    ensures req.createdAt.Omitted? ==> u.createdAt == createdClock
    ensures req.createdAt.Given? ==> u.createdAt == req.createdAt.value
    ensures req.updatedAt.Omitted? ==> u.updatedAt == updatedClock
    ensures req.updatedAt.Given? ==> u.updatedAt == req.updatedAt.value
  {
    User(id, req.username, req.passwordHash, req.isAdmin.Or(false),
         req.createdAt.Or(createdClock), req.updatedAt.Or(updatedClock))
  }

  /** `select(User).where(User.username == username).first()`, as an index. */
  function IndexOfUsername(users: seq<User>, username: string): (r: Option<nat>)
    ensures r.Some? <==> UsernameTaken(users, username)
    ensures r.Some? ==> r.value < |users| && users[r.value].username == username
                        && forall j :: 0 <= j < r.value ==> users[j].username != username
  {
    Query.FirstWhere(users, (u: User) => u.username == username)
  }

  /** `select(User).where(User.id == id).first()`, as an index. */
  function IndexOfId(users: seq<User>, id: int): (r: Option<nat>)
    ensures r.Some? <==> exists i :: 0 <= i < |users| && users[i].id == id
    ensures r.Some? ==> r.value < |users| && users[r.value].id == id
  {
    Query.FirstWhere(users, (u: User) => u.id == id)
  }

  predicate UsernameTaken(users: seq<User>, username: string)
  {
    exists i :: 0 <= i < |users| && users[i].username == username
  }

  /** The `unique=True` declaration on `username`. */
  predicate UsernamesUnique(users: seq<User>)
  {
    forall i, j :: 0 <= i < j < |users| ==> users[i].username != users[j].username
  }

  predicate IdsAscending(users: seq<User>)
  {
    forall i, j :: 0 <= i < j < |users| ==> users[i].id < users[j].id
  }

  /** The table's invariant: ascending positive ids below the next key, and every row within
      the declared column widths. Username uniqueness is not part of it: the update handler
      does not check for duplicates. */
  predicate UsersValid(users: seq<User>, nextId: nat)
  {
    && nextId >= 1
    && IdsAscending(users)
    && forall i :: 0 <= i < |users| ==>
         && 1 <= users[i].id < nextId
         && |users[i].username| <= MaxUsernameLength
         && |users[i].passwordHash| <= MaxPasswordHashLength
  }

  /** Appending a row with the next key and fitting columns keeps the table valid, and keeps
      usernames unique when the new one is not taken. */
  lemma AppendKeepsUsersValid(users: seq<User>, nextId: nat, u: User)
    requires UsersValid(users, nextId)
    requires u.id == nextId && nextId >= 1
    requires |u.username| <= MaxUsernameLength && |u.passwordHash| <= MaxPasswordHashLength
    ensures UsersValid(users + [u], nextId + 1)
    ensures UsernamesUnique(users) && !UsernameTaken(users, u.username) ==> UsernamesUnique(users + [u])
  {
    var s := users + [u];
    if UsernamesUnique(users) && !UsernameTaken(users, u.username) {
      forall i, j | 0 <= i < j < |s| ensures s[i].username != s[j].username {
        if j == |users| {
          assert s[i] == users[i];
        }
      }
    }
  }

  /** Replacing one row by another with the same id and fitting columns keeps the table valid. */
  lemma ReplaceKeepsUsersValid(users: seq<User>, nextId: nat, i: nat, u: User)
    requires UsersValid(users, nextId) && i < |users| && u.id == users[i].id
    requires |u.username| <= MaxUsernameLength && |u.passwordHash| <= MaxPasswordHashLength
    ensures UsersValid(users[i := u], nextId)
  {
    var s := users[i := u];
    assert forall k :: 0 <= k < |s| ==> s[k].id == users[k].id;
  }
}
