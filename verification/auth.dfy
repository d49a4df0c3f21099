/**
 * The authenticator: a fixed list of users with hashed passwords, lookup by
 * name, the credential check and the admin check.
 */
module Auth {
  import opened Wrappers
  import opened Models

  // ---------------------------------------------------------------------------
  // Password hashing
  // ---------------------------------------------------------------------------

  /** Prefix of the bcrypt hashes in the modular crypt format (scheme and cost). */
  const HashPrefix: string := "$2b$12$"

  /**
   * Stand-in for `pwd_context.hash`. Only the property the service relies on is
   * kept: distinct passwords have distinct hashes. Salt and one-wayness are not
   * represented.
   */
  function Hash(plain: string): (h: string)
    ensures |h| == |HashPrefix| + |plain|
  {
    HashPrefix + plain
  }

  /** Stand-in for `pwd_context.verify`: `plain` hashes to `hashed`. */
  predicate VerifyPassword(plain: string, hashed: string) {
    hashed == Hash(plain)
  }

  /** A stored hash verifies exactly the password it was made from. */
  lemma VerifyAcceptsOnlyHashedPassword(plain: string, stored: string)
    ensures VerifyPassword(plain, Hash(stored)) <==> plain == stored
  {
    if VerifyPassword(plain, Hash(stored)) {
      assert plain == Hash(plain)[|HashPrefix|..];
      assert stored == Hash(stored)[|HashPrefix|..];
    }
  }

  // ---------------------------------------------------------------------------
  // The user list
  // ---------------------------------------------------------------------------

  /** Name of the one user with write access. */
  const AdminName: string := "admin"

  /** `users_db`: built once at start-up, never modified. */
  const UsersDb: seq<User> := [
    User(0, AdminName, Hash("4dm1N")),
    User(1, "alice", Hash("wonderland")),
    User(2, "bob", Hash("builder")),
    User(3, "clementine", Hash("mandarine"))
  ]

  /** The plain-text passwords `users_db` was hashed from, by user name. */
  const PlainPasswords: map<string, string> := map[
    AdminName := "4dm1N",
    "alice" := "wonderland",
    "bob" := "builder",
    "clementine" := "mandarine"
  ]

  /** The first user of `users` called `name`, if any (`next(..., None)`). */
  function FindUser(users: seq<User>, name: string): (r: Option<User>)
    ensures r.None? <==> forall i :: 0 <= i < |users| ==> users[i].name != name
    ensures r.Some? ==> exists i :: 0 <= i < |users| && users[i] == r.value && r.value.name == name
                                    && forall j :: 0 <= j < i ==> users[j].name != name
  {
    if |users| == 0 then None
    else if users[0].name == name then Some(users[0])
    else
      var r := FindUser(users[1..], name);
      assert forall i :: 1 <= i < |users| ==> users[i] == users[1..][i - 1];
      r
  }

  /** `get_user_by_name`: the user list holds each name once, so the user found is the one with that name. */
  function GetUserByName(name: string): (r: Option<User>)
    ensures r.None? <==> forall i :: 0 <= i < |UsersDb| ==> UsersDb[i].name != name
    ensures forall i :: 0 <= i < |UsersDb| && UsersDb[i].name == name ==> r == Some(UsersDb[i])
  {
    UserNamesAreUnique();
    FindUser(UsersDb, name)
  }

  // ---------------------------------------------------------------------------
  // Constant-time comparison
  // ---------------------------------------------------------------------------

  /** Every character is 7-bit ASCII. */
  predicate IsAscii(s: string) {
    forall i :: 0 <= i < |s| ==> s[i] < 128 as char
  }

  /** `secrets.compare_digest` raises `TypeError` on strings with non-ASCII characters. */
  datatype AuthError = NonAsciiComparison

  /** `secrets.compare_digest` on two strings; its timing behaviour is not modelled. */
  function CompareDigest(a: string, b: string): (r: Result<bool, AuthError>)
    ensures r.Success? <==> IsAscii(a) && IsAscii(b)
    ensures r.Success? ==> r.value == (a == b)
  {
    if IsAscii(a) && IsAscii(b) then Success(a == b) else Failure(NonAsciiComparison)
  }

  lemma UserNamesAreAscii()
    ensures forall i :: 0 <= i < |UsersDb| ==> IsAscii(UsersDb[i].name)
  {
  }

  lemma UserNamesAreUnique()
    ensures forall i, j :: 0 <= i < j < |UsersDb| ==> UsersDb[i].name != UsersDb[j].name
  {
  }

  // ---------------------------------------------------------------------------
  // AuthService
  // ---------------------------------------------------------------------------

  /**
   * `AuthService.authenticate_user`: a user of that name exists and the password
   * verifies against its hash. The name comparison cannot raise, because it
   * compares `username` with the stored name it was just found under.
   */
  function AuthenticateUser(username: string, password: string): (ok: bool)
    ensures ok <==> exists i :: 0 <= i < |UsersDb| && UsersDb[i].name == username
                                && VerifyPassword(password, UsersDb[i].password)
    ensures GetUserByName(username).None? ==> !ok
  {
    match GetUserByName(username)
    case None => false
    case Some(user) =>
      UserNamesAreAscii();
      UserNamesAreUnique();
      var sameName := CompareDigest(username, user.name).Extract();
      var samePassword := VerifyPassword(password, user.password);
      sameName && samePassword
  }

  /**
   * `AuthService.is_admin`: compares the caller's name with the admin's and the
   * password with the admin's hash, whatever user the name designates. The name
   * comparison raises when `username` is not ASCII.
   */
  function IsAdmin(username: string, password: string): (r: Result<bool, AuthError>)
    ensures r.Failure? <==> !IsAscii(username)
    ensures r.Success? ==> (r.value <==> username == AdminName && VerifyPassword(password, UsersDb[0].password))
  {
    var admin := GetUserByName(AdminName);
    assert admin == Some(UsersDb[0]);
    UserNamesAreAscii();
    var sameName :- CompareDigest(username, admin.value.name);
    var samePassword := VerifyPassword(password, admin.value.password);
    Success(sameName && samePassword)
  }

  /** Every listed name and plain-text password pair authenticates. */
  lemma ListedCredentialsAuthenticate(username: string, password: string)
    requires username in PlainPasswords && PlainPasswords[username] == password
    ensures AuthenticateUser(username, password)
  {
    var k := if username == AdminName then 0 else if username == "alice" then 1 else if username == "bob" then 2 else 3;
    assert UsersDb[k].name == username && UsersDb[k].password == Hash(password);
  }

  /** Only listed name and plain-text password pairs authenticate. */
  lemma AuthenticatedCredentialsAreListed(username: string, password: string)
    requires AuthenticateUser(username, password)
    ensures username in PlainPasswords && PlainPasswords[username] == password
  {
    var i :| 0 <= i < |UsersDb| && UsersDb[i].name == username && VerifyPassword(password, UsersDb[i].password);
    VerifyAcceptsOnlyHashedPassword(password, PlainPasswords[username]);
  }

  /** Authentication accepts exactly the listed name and plain-text password pairs. */
  lemma AuthenticateAcceptsListedCredentials(username: string, password: string)
    ensures AuthenticateUser(username, password) <==> username in PlainPasswords && PlainPasswords[username] == password
  {
    if AuthenticateUser(username, password) {
      AuthenticatedCredentialsAreListed(username, password);
    }
    if username in PlainPasswords && PlainPasswords[username] == password {
      ListedCredentialsAuthenticate(username, password);
    }
  }

  /** The admin check accepts exactly the admin's name with the admin's password. */
  lemma IsAdminAcceptsOnlyAdmin(username: string, password: string)
    ensures IsAdmin(username, password) == Success(true) <==> username == AdminName && password == PlainPasswords[AdminName]
  {
    VerifyAcceptsOnlyHashedPassword(password, PlainPasswords[AdminName]);
  }

  /** Whoever passes the admin check also passes authentication. */
  lemma AdminIsAuthenticated(username: string, password: string)
    requires IsAdmin(username, password) == Success(true)
    ensures AuthenticateUser(username, password)
  {
  }

  /** The authentication checks exercised by the service tests. */
  lemma ServiceTestAuthenticate()
    ensures AuthenticateUser("alice", "wonderland")
    ensures !AuthenticateUser("alice", "wrongpassword")
    ensures !AuthenticateUser("unknown", "wonderland")
  {
    AuthenticateAcceptsListedCredentials("alice", "wonderland");
    AuthenticateAcceptsListedCredentials("alice", "wrongpassword");
    AuthenticateAcceptsListedCredentials("unknown", "wonderland");
  }

  /** The admin checks exercised by the service tests. */
  lemma ServiceTestIsAdmin()
    ensures IsAdmin(AdminName, "4dm1N") == Success(true)
    ensures IsAdmin("alice", "wonderland") == Success(false)
    ensures IsAdmin(AdminName, "wrongpassword") == Success(false)
  {
  }
}
