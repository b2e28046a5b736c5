/** The authentication dependency in front of every environment and variable route: a
    bearer token becomes the user it names, or one uniform 401. */
module Dependencies {
  import opened Http
  import opened UserModel
  import opened Tokens
  import UserViews

  /** The one exception every failure of `get_current_user` raises. */
  const CredentialsException := HttpError(401, "Could not validate credentials", BearerChallenge)

  /** `get_current_user`: the token must verify, its payload must carry a string `sub`, and
      a user with that username must exist; the first such user is returned. Any failure,
      whether `verify_token` raised, `sub` is missing or null or not a string, or no user
      matches, gives `CredentialsException`. */
  function GetCurrentUser(users: seq<User>, verify: TokenVerifier, token: string): (r: Result<User>)
    ensures r.Err? ==> r.error == CredentialsException
    ensures r.Ok? <==> && verify(token).Decoded?
                       && verify(token).sub.Some?
                       && verify(token).sub.value.Text?
                       && UsernameTaken(users, verify(token).sub.value.text)
    ensures r.Ok? ==> r.value in users && r.value.username == verify(token).sub.value.text
    ensures r.Ok? ==> IndexOfUsername(users, r.value.username).Some?
                      && users[IndexOfUsername(users, r.value.username).value] == r.value
  {
    match verify(token)
    case Raised => Err(CredentialsException)
    case Decoded(sub) =>
      if sub.None? || sub.value.NotText? then Err(CredentialsException)
      else
        match IndexOfUsername(users, sub.value.text)
        case None => Err(CredentialsException)
        case Some(i) => Ok(users[i])
  }

  /** `get_current_active_user`: the current user, unchanged. */
  function GetCurrentActiveUser(users: seq<User>, verify: TokenVerifier, token: string): (r: Result<User>)
    ensures r == GetCurrentUser(users, verify, token)
  {
    match GetCurrentUser(users, verify, token)
    case Err(e) => Err(e)
    case Ok(user) => Ok(user)
  }

  /** No failure reveals which check failed: every rejected token gets the same status,
      detail and challenge header. */
  lemma FailuresAreIndistinguishable(users: seq<User>, verify: TokenVerifier, t1: string, t2: string)
    requires GetCurrentUser(users, verify, t1).Err? && GetCurrentUser(users, verify, t2).Err?
    ensures GetCurrentUser(users, verify, t1) == GetCurrentUser(users, verify, t2)
    ensures GetCurrentUser(users, verify, t1).error.status == 401
    ensures GetCurrentUser(users, verify, t1).error.headers == BearerChallenge
  {
  }

  /** The token a successful login issues identifies, once the token service decodes its
      subject again, the very user that logged in. */
  lemma {:induction false} LoginTokenIdentifiesTheUser(users: seq<User>, hash: UserViews.PasswordHasher,
                                                       issue: TokenIssuer, verify: TokenVerifier,
                                                       username: string, password: string)
    requires UserViews.Login(users, hash, issue, username, password).Ok?
    requires verify(UserViews.Login(users, hash, issue, username, password).value.accessToken)
             == Decoded(Some(Text(username)))
    ensures GetCurrentUser(users, verify, UserViews.Login(users, hash, issue, username, password).value.accessToken)
            == Ok(UserViews.Authenticate(users, hash, username, password).value)
  {
    var user := UserViews.Authenticate(users, hash, username, password).value;
    var i := IndexOfUsername(users, username).value;
    assert user == users[i];
  }
}
