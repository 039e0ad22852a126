/**
 * The login screen: onLogin checks the trimmed name and password against the
 * users table and, on success, records the user's id in the session.
 */
module LoginScreen {
  import opened Text
  import opened Models
  import opened Tables
  import opened Storage
  import opened RegisterScreen

  /** What onLogin ends with. */
  datatype LoginOutcome =
    | Blank                   // "Username and password are required"
    | Refused                 // "Invalid username or password"
    | LoggedIn(userId: int)

  /** On a valid users table, a name and password hash that match a row give,
      through getUserId, the id of that very row. */
  lemma {:induction false} LoginIdIsMatchingRow(users: seq<UserRow>, nextId: int, username: string, passwordHash: string)
    requires UsersValid(users, nextId) && CredentialsMatch(users, username, passwordHash)
    ensures 1 <= UserIdOf(users, username) < nextId
    ensures exists i :: 0 <= i < |users| && users[i].username == username
                        && users[i].password == passwordHash && users[i].id == UserIdOf(users, username)
  {
    var i :| 0 <= i < |users| && users[i].username == username && users[i].password == passwordHash;
    assert UsernameTaken(users, username);
    var j :| 0 <= j < |users| && users[j].username == username && users[j].id == UserIdOf(users, username);
    assert i == j;
    UnknownUserHasNoId(users, nextId, username);
  }

  /** onLogin: blank fields are refused on the spot; otherwise validateUser
      decides, and a valid login stores getUserId's answer in the session. */
  method OnLogin(db: Database, session: Session, username: string, password: string)
    returns (outcome: LoginOutcome)
    requires db.Valid()
    modifies session
    ensures IsBlank(username) || IsBlank(password) ==> outcome == Blank && unchanged(session)
    ensures !IsBlank(username) && !IsBlank(password) ==>
      var u := Trim(username);
      var p := Trim(password);
      if CredentialsMatch(db.users, u, db.hash(p)) then
        && outcome == LoggedIn(UserIdOf(db.users, u))
        && 1 <= outcome.userId < db.nextUserId
        && session.GetCurrentUserId() == outcome.userId && session.IsLoggedIn()
      else
        outcome == Refused && unchanged(session)
  {
    var u := Trim(username);
    var p := Trim(password);
    if u == [] || p == [] {
      return Blank;
    }
    var ok := db.ValidateUser(u, p);
    if !ok {
      return Refused;
    }
    var id := db.GetUserId(u);
    LoginIdIsMatchingRow(db.users, db.nextUserId, u, db.hash(p));
    session.SetCurrentUserId(id);
    outcome := LoggedIn(id);
  }

  /** An account that registration accepted can log in with the same texts
      typed on the login screen, and the session gets the new account's id. */
  lemma RegisteredUserCanLogIn(users: seq<UserRow>, nextId: int, hash: string -> string,
                               username: string, password: string, confirm: string)
    requires UsersValid(users, nextId)
    requires ValidateRegistration(username, password, confirm).Success?
    requires !UsernameTaken(users, Trim(username))
    ensures var after := users + [UserRow(nextId, Trim(username), hash(Trim(password)))];
      && !IsBlank(username) && !IsBlank(password)
      && CredentialsMatch(after, Trim(username), hash(Trim(password)))
      && UserIdOf(after, Trim(username)) == nextId
  {
    AcceptedCredentialsAreStable(username, password, confirm);
    RegisterAddsUser(users, nextId, Trim(username), hash(Trim(password)));
  }
}
