/**
 * The registration screen: the checks onRegister makes on the three fields
 * before it asks the database to create the account.
 */
module RegisterScreen {
  import opened Wrappers
  import opened Text
  import opened Tables
  import opened Storage

  const MIN_USERNAME_LENGTH: nat := 3
  const MIN_PASSWORD_LENGTH: nat := 4

  /** A username and a password, both trimmed. */
  datatype Credentials = Credentials(username: string, password: string)

  /** The validation errors onRegister shows, in the order it checks them. */
  datatype RegistrationError =
    | MissingCredentials   // "Username and password are required"
    | UsernameTooShort     // "Username must be at least 3 characters long"
    | PasswordTooShort     // "Password must be at least 4 characters long"
    | PasswordMismatch     // "Passwords do not match"

  /** The checks of onRegister on the trimmed fields; the first that fails
      decides the error. Lengths are Java's `length()`, in UTF-16 code units. */
  function ValidateRegistration(username: string, password: string, confirm: string): (r: Result<Credentials, RegistrationError>)
    ensures r.Success? <==>
      && Utf16Length(Trim(username)) >= MIN_USERNAME_LENGTH
      && Utf16Length(Trim(password)) >= MIN_PASSWORD_LENGTH
      && Trim(password) == Trim(confirm)
    ensures r.Success? ==> r.value == Credentials(Trim(username), Trim(password))
    ensures r == Failure(MissingCredentials) <==> Trim(username) == [] || Trim(password) == []
    ensures r == Failure(UsernameTooShort) <==>
      0 < Utf16Length(Trim(username)) < MIN_USERNAME_LENGTH && Trim(password) != []
    ensures r == Failure(PasswordTooShort) <==>
      && Utf16Length(Trim(username)) >= MIN_USERNAME_LENGTH
      && 0 < Utf16Length(Trim(password)) < MIN_PASSWORD_LENGTH
    ensures r == Failure(PasswordMismatch) <==>
      && Utf16Length(Trim(username)) >= MIN_USERNAME_LENGTH
      && Utf16Length(Trim(password)) >= MIN_PASSWORD_LENGTH
      && Trim(password) != Trim(confirm)
  {
    var u := Trim(username);
    var p := Trim(password);
    var c := Trim(confirm);
    if u == [] || p == [] then Failure(MissingCredentials)
    else if Utf16Length(u) < MIN_USERNAME_LENGTH then Failure(UsernameTooShort)
    else if Utf16Length(p) < MIN_PASSWORD_LENGTH then Failure(PasswordTooShort)
    else if p != c then Failure(PasswordMismatch)
    else Success(Credentials(u, p))
  }

  /** Accepted credentials are trimmed and non-blank, so the login screen,
      which trims again, sees exactly the registered name and password. */
  lemma AcceptedCredentialsAreStable(username: string, password: string, confirm: string)
    requires ValidateRegistration(username, password, confirm).Success?
    ensures var cr := ValidateRegistration(username, password, confirm).value;
      && Trim(cr.username) == cr.username && Trim(cr.password) == cr.password
      && !IsBlank(cr.username) && !IsBlank(cr.password)
  {
    var u := Trim(username);
    var p := Trim(password);
    assert ValidateRegistration(username, password, confirm).value == Credentials(u, p);
    assert Trim(u) == u && Trim(p) == p;
    assert u != [] && p != [];
  }

  /** A two-character name whose second character lies above U+FFFF is three
      code units long, so it passes the minimum-length check. */
  lemma SupplementaryNameAccepted()
    ensures ValidateRegistration("a\U{1F600}", "pass", "pass").Success?
  {
    Utf16LengthOfPair();
    assert Trim("a\U{1F600}") == "a\U{1F600}";
    assert Trim("pass") == "pass";
  }

  /** What onRegister ends with. */
  datatype RegisterOutcome =
    | Rejected(error: RegistrationError)
    | Registered      // "Account created successfully!"
    | NameTaken       // "Username already exists!"

  /** onRegister: validates, then creates the account with the trimmed name
      and password; the store refuses a name that is taken. */
  method OnRegister(db: Database, username: string, password: string, confirm: string)
    returns (outcome: RegisterOutcome)
    requires db.Valid()
    modifies db
    ensures db.Valid() && db.students == old(db.students)
    ensures ValidateRegistration(username, password, confirm).Failure? ==>
      && outcome == Rejected(ValidateRegistration(username, password, confirm).error)
      && db.users == old(db.users) && db.nextUserId == old(db.nextUserId)
    ensures ValidateRegistration(username, password, confirm).Success? ==>
      var u := Trim(username);
      var p := Trim(password);
      if UsernameTaken(old(db.users), u) then
        outcome == NameTaken && db.users == old(db.users) && db.nextUserId == old(db.nextUserId)
      else
        && outcome == Registered
        && db.users == old(db.users) + [UserRow(old(db.nextUserId), u, db.hash(p))]
        && db.nextUserId == old(db.nextUserId) + 1
        && CredentialsMatch(db.users, u, db.hash(p))
        && UserIdOf(db.users, u) == old(db.nextUserId)
  {
    var v := ValidateRegistration(username, password, confirm);
    if v.Failure? {
      return Rejected(v.error);
    }
    var ok := db.RegisterUser(v.value.username, v.value.password);
    outcome := if ok then Registered else NameTaken;
  }
}
