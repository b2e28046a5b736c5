/** The user handlers: password hashing and checking, authentication, login, and list,
    create, get and update of user records. */
module UserViews {
  import opened Http
  import opened UserModel
  import opened Pagination
  import opened Tokens
  import Store

  /** A SHA-256 hex digest: always 64 characters. */
  type Digest = s: string | |s| == 64 witness seq(64, _ => '0')

  /** `hashlib.sha256(p.encode()).hexdigest()`, left uninterpreted. Nothing here assumes it
      is injective. */
  type PasswordHasher = string -> Digest

  const ListPath := "/users/"
  const UserNotFound := HttpError(404, "User not found", map[])
  const DuplicateUsername := HttpError(400, "User with this username already exists", map[])
  const IncorrectCredentials := HttpError(401, "Incorrect username or password", BearerChallenge)

  function GetPasswordHash(hash: PasswordHasher, password: string): Digest
  {
    hash(password)
  }

  function VerifyPassword(hash: PasswordHasher, plainPassword: string, hashedPassword: string): bool
  {
    GetPasswordHash(hash, plainPassword) == hashedPassword
  }

  /** A password always verifies against its own hash, and verification accepts exactly
      the stored values that equal the candidate's hash. */
  lemma PasswordVerifiesAgainstItsHash(hash: PasswordHasher, password: string, stored: string)
    ensures VerifyPassword(hash, password, GetPasswordHash(hash, password))
    ensures VerifyPassword(hash, password, stored) <==> stored == hash(password)
  {
  }

  /** `authenticate_user`: the first user with that username, provided the password's hash
      equals the stored hash; None (the source's False) otherwise. */
  function Authenticate(users: seq<User>, hash: PasswordHasher, username: string, password: string): (r: Option<User>)
    ensures r.Some? ==> r.value in users && r.value.username == username
                        && r.value.passwordHash == hash(password)
    ensures !UsernameTaken(users, username) ==> r.None?
    ensures r.Some? <==> IndexOfUsername(users, username).Some?
                         && VerifyPassword(hash, password, users[IndexOfUsername(users, username).value].passwordHash)
  {
    match IndexOfUsername(users, username)
    case None => None
    case Some(i) =>
      if !VerifyPassword(hash, password, users[i].passwordHash) then None
      else Some(users[i])
  }

  /** With unique usernames, authentication succeeds exactly when some user has that
      username and the password's hash as its stored hash. */
  lemma AuthenticateIffCredentialsMatch(users: seq<User>, hash: PasswordHasher, username: string, password: string)
    requires UsernamesUnique(users)
    ensures Authenticate(users, hash, username, password).Some?
            <==> exists i :: 0 <= i < |users| && users[i].username == username
                             && users[i].passwordHash == hash(password)
  {
    var found := IndexOfUsername(users, username);
    if found.Some? {
      var k := found.value;
      assert forall i :: 0 <= i < |users| && users[i].username == username ==> i == k;
    }
  }

  /** The response of a successful login. */
  datatype Token = Token(accessToken: string, tokenType: string)

  /** The decision `login` makes: one 401, with the same detail and challenge header, for an
      unknown username and for a wrong password; otherwise a bearer token whose subject is
      the authenticated user, issued for 30 minutes. */
  function Login(users: seq<User>, hash: PasswordHasher, issue: TokenIssuer,
                 username: string, password: string): (r: Result<Token>)
    ensures r.Err? <==> Authenticate(users, hash, username, password).None?
    ensures r.Err? ==> r.error == IncorrectCredentials
    ensures r.Ok? ==> && r.value.tokenType == BearerTokenType
                      && r.value.accessToken == issue(Claims(username), AccessTokenMinutes)
  {
    match Authenticate(users, hash, username, password)
    case None => Err(IncorrectCredentials)
    case Some(user) =>
      Ok(Token(issue(Claims(user.username), AccessTokenMinutes), BearerTokenType))
  }

  /** An unknown username and a known username with a wrong password get the same answer. */
  lemma LoginFailureIsUniform(users: seq<User>, hash: PasswordHasher, issue: TokenIssuer,
                              unknown: string, known: string, wrong: string, any: string)
    requires !UsernameTaken(users, unknown)
    requires IndexOfUsername(users, known).Some?
    requires users[IndexOfUsername(users, known).value].passwordHash != hash(wrong)
    ensures Login(users, hash, issue, unknown, any) == Login(users, hash, issue, known, wrong)
    ensures Login(users, hash, issue, unknown, any).error.headers == BearerChallenge
  {
  }

  /** `list_users`: page `page` of the table in storage order (the query has no ORDER BY),
      with the same link rule as the environment listing and no bounds on the parameters. */
  function ListUsers(users: seq<User>, page: int, pageSize: int): (r: Page<User>)
    ensures r.count == |users|
    ensures 0 <= pageSize ==> |r.results| <= pageSize
    ensures 0 <= Offset(page, pageSize) ==>
              |r.results| == if |users| <= Offset(page, pageSize) then 0
                             else if pageSize < 0 || |users| - Offset(page, pageSize) < pageSize
                               then |users| - Offset(page, pageSize)
                             else pageSize
    ensures Offset(page, pageSize) < 0 ==>
              |r.results| == if pageSize < 0 || |users| < pageSize then |users| else pageSize
    ensures 0 <= Offset(page, pageSize) ==>
              forall i :: 0 <= i < |r.results| ==>
                Offset(page, pageSize) + i < |users| && r.results[i] == users[Offset(page, pageSize) + i]
    ensures Offset(page, pageSize) < 0 ==> forall i :: 0 <= i < |r.results| ==> i < |users| && r.results[i] == users[i]
    ensures r.next.Some? <==> page * pageSize < |users|
    ensures r.next.Some? ==> r.next.value == PageLink(ListPath, page + 1, pageSize)
    ensures r.previous.Some? <==> page > 1
    ensures r.previous.Some? ==> r.previous.value == PageLink(ListPath, page - 1, pageSize)
  {
    Paginate(ListPath, users, page, pageSize)
  }

  /** `get_user`: the user with that id, or 404. */
  function GetUser(users: seq<User>, userId: int): (r: Result<User>)
    ensures r.Ok? <==> exists i :: 0 <= i < |users| && users[i].id == userId
    ensures r.Ok? ==> r.value in users && r.value.id == userId
    ensures r.Err? ==> r.error == UserNotFound
  {
    match IndexOfId(users, userId)
    case None => Err(UserNotFound)
    case Some(i) => Ok(users[i])
  }

  /** `create_user`: 400 and no change when the username is taken; otherwise the body is
      stored under the next key, with the hash of the submitted password in `password_hash`
      and `updated_at` equal to `created_at`. The body has passed the column-width checks. */
  method CreateUser(db: Store.Database, hash: PasswordHasher, req: UserRequest,
                    createdClock: Timestamp, updatedClock: Timestamp) returns (r: Result<User>)
    requires db.Valid()
    requires RequestFitsColumns(req)
    modifies db
    ensures db.Valid()
    ensures UsernameTaken(old(db.users), req.username) ==> r == Err(DuplicateUsername) && unchanged(db)
    ensures !UsernameTaken(old(db.users), req.username) ==>
              && r.Ok?
              && r.value.id == old(db.nextUserId)
              && r.value.username == req.username
              && r.value.passwordHash == hash(req.passwordHash)
              && r.value.isAdmin == req.isAdmin.Or(false)
              && r.value.createdAt == req.createdAt.Or(createdClock)
              && r.value.updatedAt == r.value.createdAt
              && db.users == old(db.users) + [r.value]
              && db.nextUserId == old(db.nextUserId) + 1
              && db.environments == old(db.environments) && db.nextEnvironmentId == old(db.nextEnvironmentId)
              && db.variables == old(db.variables) && db.nextVariableId == old(db.nextVariableId)
    ensures old(UsernamesUnique(db.users)) ==> UsernamesUnique(db.users)
  {
    var user := NewUser(db.nextUserId, req, createdClock, updatedClock);
    var existing := IndexOfUsername(db.users, user.username);
    if existing.Some? {
      return Err(DuplicateUsername);
    }
    user := user.(passwordHash := GetPasswordHash(hash, user.passwordHash));
    user := user.(updatedAt := user.createdAt);
    AppendKeepsUsersValid(db.users, db.nextUserId, user);
    db.users := db.users + [user];
    db.nextUserId := db.nextUserId + 1;
    r := Ok(user);
  }

  /** A user row after `update_user`: username and admin flag taken from the body (the flag
      defaulting to false when left out), the submitted password rehashed, `updated_at`
      refreshed; id and `created_at` kept. */
  function Replaced(u: User, hash: PasswordHasher, req: UserRequest, now: Timestamp): (r: User)
    ensures r.id == u.id && r.createdAt == u.createdAt
    ensures r.username == req.username
    ensures r.passwordHash == hash(req.passwordHash)
    ensures r.isAdmin == req.isAdmin.Or(false)
    ensures r.updatedAt == now
  {
    u.(username := req.username, passwordHash := hash(req.passwordHash),
       isAdmin := req.isAdmin.Or(false), updatedAt := now)
  }

  /** `update_user`: 404 and no change when no user has that id; otherwise that row alone is
      replaced. The new username is not checked against the other rows. */
  method UpdateUser(db: Store.Database, hash: PasswordHasher, userId: int, req: UserRequest, now: Timestamp)
    returns (r: Result<User>)
    requires db.Valid()
    requires RequestFitsColumns(req)
    modifies db
    ensures db.Valid()
    ensures IndexOfId(old(db.users), userId).None? ==> r == Err(UserNotFound) && unchanged(db)
    ensures IndexOfId(old(db.users), userId).Some? ==>
              var i := IndexOfId(old(db.users), userId).value;
              && r == Ok(Replaced(old(db.users)[i], hash, req, now))
              && db.users == old(db.users)[i := r.value]
              && db.nextUserId == old(db.nextUserId)
              && db.environments == old(db.environments) && db.nextEnvironmentId == old(db.nextEnvironmentId)
              && db.variables == old(db.variables) && db.nextVariableId == old(db.nextVariableId)
  {
    var found := IndexOfId(db.users, userId);
    if found.None? {
      return Err(UserNotFound);
    }
    var i := found.value;
    var user := db.users[i];
    user := user.(username := req.username);
    user := user.(passwordHash := GetPasswordHash(hash, req.passwordHash));
    user := user.(isAdmin := req.isAdmin.Or(false));
    user := user.(updatedAt := now);
    ReplaceKeepsUsersValid(db.users, db.nextUserId, i, user);
    db.users := db.users[i := user];
    r := Ok(user);
  }

  /** Because the update does not check for duplicates, renaming one user to another's
      username yields two rows with that username. */
  lemma UpdateCanDuplicateUsername(hash: PasswordHasher, now: Timestamp)
    ensures var alice := User(1, "alice", hash("a"), false, 0, 0);
            var bob := User(2, "bob", hash("b"), false, 0, 0);
            var req := UserRequest("alice", "b", Omitted, Omitted, Omitted);
            && UsernamesUnique([alice, bob])
            && IndexOfId([alice, bob], 2) == Some(1)
            && !UsernamesUnique([alice, bob][1 := Replaced(bob, hash, req, now)])
  {
    var alice := User(1, "alice", hash("a"), false, 0, 0);
    var bob := User(2, "bob", hash("b"), false, 0, 0);
    var req := UserRequest("alice", "b", Omitted, Omitted, Omitted);
    assert [alice, bob][0].id == 1 && [alice, bob][1].id == 2;
    assert IndexOfId([alice, bob], 2) == Some(1);
    var after := [alice, bob][1 := Replaced(bob, hash, req, now)];
    assert after[0].username == after[1].username;
  }

  /** Renaming to a username no other row holds keeps usernames unique. */
  lemma {:induction false} UpdateToFreeUsernameKeepsUnique(users: seq<User>, i: nat, u: User)
    requires UsernamesUnique(users) && i < |users|
    requires forall k :: 0 <= k < |users| && k != i ==> users[k].username != u.username
    ensures UsernamesUnique(users[i := u])
  {
    var s := users[i := u];
    forall a, b | 0 <= a < b < |s| ensures s[a].username != s[b].username {
      if a != i && b != i {
        assert s[a] == users[a] && s[b] == users[b];
      }
    }
  }
}
