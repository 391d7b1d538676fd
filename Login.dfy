/**
 * The `/login` handler: a lookup in a fixed, in-memory table of user
 * records with exact equality on both the user name and the password.
 */
module Login {
  import opened Wrappers

  datatype Role = Admin | User

  /** A seeded user record; the password is stored, and echoed, in plain text. */
  datatype UserRecord = UserRecord(id: int, username: string, password: string, role: Role)

  /** The credential store, seeded at start-up and never changed. */
  const Users: seq<UserRecord> := [
    UserRecord(1, "admin", "admin123", Admin),
    UserRecord(2, "user1", "pass123", User),
    UserRecord(3, "user2", "pass456", User)
  ]

  /** A body field that is absent (or not a string) is `None`: it equals no stored string. */
  predicate Matches(u: UserRecord, username: Option<string>, password: Option<string>) {
    username == Some(u.username) && password == Some(u.password)
  }

  /** Entry `i` matches and no earlier entry does. */
  predicate FirstMatch(users: seq<UserRecord>, i: nat, username: Option<string>, password: Option<string>) {
    i < |users| && Matches(users[i], username, password) &&
    forall j :: 0 <= j < i ==> !Matches(users[j], username, password)
  }

  /**
   * The search `users.find(...)`: the position of the first matching
   * record, or `None` when no record matches.
   */
  function Find(users: seq<UserRecord>, username: Option<string>, password: Option<string>): (r: Option<nat>)
    ensures r.Some? ==> FirstMatch(users, r.value, username, password)
    ensures r.None? <==> forall i :: 0 <= i < |users| ==> !Matches(users[i], username, password)
  {
    if users == [] then None
    else if Matches(users[0], username, password) then Some(0)
    else
      match Find(users[1..], username, password)
      case None => None
      case Some(i) => Some(i + 1)
  }

  datatype LoginResponse =
    | LoginOk(message: string, user: UserRecord)
    | Unauthorized(message: string)
  {
    function Status(): nat {
      if LoginOk? then 200 else 401
    }
  }

  /** The `/login` handler over the seeded credential store. */
  function Login(username: Option<string>, password: Option<string>): (r: LoginResponse)
    ensures r.LoginOk? <==> exists i :: 0 <= i < |Users| && Matches(Users[i], username, password)
    ensures r.LoginOk? ==> r.message == "Login successful" &&
                           exists i: nat :: FirstMatch(Users, i, username, password) && r.user == Users[i]
    ensures r.Unauthorized? ==> r.message == "Invalid credentials"
  {
    match Find(Users, username, password)
    case Some(i) => LoginOk("Login successful", Users[i])
    case None => Unauthorized("Invalid credentials")
  }

  /** Every seeded user logs in with their own credentials and receives their own record. */
  lemma SeededUsersLogIn(i: nat)
    requires i < |Users|
    ensures Login(Some(Users[i].username), Some(Users[i].password)) == LoginOk("Login successful", Users[i])
    ensures Login(Some(Users[i].username), Some(Users[i].password)).Status() == 200
  {
    var u, p := Some(Users[i].username), Some(Users[i].password);
    var k := Find(Users, u, p);
    assert k.Some? by { assert Matches(Users[i], u, p); }
    assert Users[k.value].username == Users[i].username;
  }

  /** A known user name with any other password, or no password, is refused with 401. */
  lemma WrongPasswordRefused(i: nat, password: Option<string>)
    requires i < |Users|
    requires password != Some(Users[i].password)
    ensures Login(Some(Users[i].username), password) == Unauthorized("Invalid credentials")
    ensures Login(Some(Users[i].username), password).Status() == 401
  {
  }

  /** A user name that is not in the store is refused with 401, whatever the password. */
  lemma UnknownUserRefused(username: Option<string>, password: Option<string>)
    requires username !in {Some("admin"), Some("user1"), Some("user2")}
    ensures Login(username, password) == Unauthorized("Invalid credentials")
  {
    forall j | 0 <= j < |Users| ensures !Matches(Users[j], username, password) {
      assert Users[j].username in {"admin", "user1", "user2"};
    }
  }
}
