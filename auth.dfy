/**
 * Authentication in the backend (`backend/auth.py`): the `require_auth` and
 * `require_role` gates in front of the routes, and `AuthManager`'s registration and
 * login over the `users` and `user_databases` tables, which are fields here.
 * Passwords are hashed and checked by bcrypt and tokens are JWTs; both are parameters.
 */
module Auth {
  import opened Wrappers
  import Text
  import JsValue

  /** A row of `users` as `get_user_from_token` returns it: column name to value. */
  type UserRecord = map<string, JsValue.Json>

  /** What a gate does with a request: stop it with a status and an error, or let it
      through with the user it found. */
  datatype Gate = Denied(status: int, error: string) | Passed(user: UserRecord)

  /** `auth_header.split(" ")[1]`: the second field between single spaces, `None` when
      indexing raises `IndexError` because the header holds no space. */
  function HeaderToken(header: string): (t: Option<string>)
    ensures t.None? <==> ' ' !in header
  {
    var parts := Text.Split(header, ' ');
    Text.SplitSingleIff(header, ' ');
    if |parts| < 2 then None else Some(parts[1])
  }

  /** `require_auth` on the `Authorization` header (`None` when absent), with
      `userFromToken` standing for `get_user_from_token` (JWT check and lookup). */
  function RequireAuth(header: Option<string>, userFromToken: string -> Option<UserRecord>): (g: Gate)
    ensures g.Denied? ==> g.status == 401
    ensures header.None? ==> g == Denied(401, "Authentication token is missing")
    ensures header.Some? && ' ' !in header.value ==> g == Denied(401, "Invalid authorization header format")
    ensures g.Passed? <==> (header.Some? && HeaderToken(header.value).Some?
      && HeaderToken(header.value).value != "" && userFromToken(HeaderToken(header.value).value).Some?)
    ensures g.Passed? ==> Some(g.user) == userFromToken(HeaderToken(header.value).value)
  {
    if header.Some? && HeaderToken(header.value).None? then Denied(401, "Invalid authorization header format")
    else
      var token := if header.Some? then HeaderToken(header.value).value else "";
      if token == "" then Denied(401, "Authentication token is missing")
      else match userFromToken(token)
        case None => Denied(401, "Invalid or expired token")
        case Some(user) => Passed(user)
  }

  /** The token is the field after the first space, and any further fields are ignored. */
  lemma TokenIsSecondField(scheme: string, token: string, rest: seq<string>)
    requires ' ' !in scheme && ' ' !in token
    requires forall k :: 0 <= k < |rest| ==> ' ' !in rest[k]
    ensures HeaderToken(Text.Join([scheme, token] + rest, ' ')) == Some(token)
  {
    var parts := [scheme, token] + rest;
    forall k | 0 <= k < |parts| ensures ' ' !in parts[k] {
      if k >= 2 { assert parts[k] == rest[k - 2]; }
    }
    Text.JoinSplit(parts, ' ');
  }

  /** The scheme word is not checked: any word without a space in front of a token is
      treated like `Bearer`. */
  lemma SchemeNotChecked(scheme: string, token: string, userFromToken: string -> Option<UserRecord>)
    requires ' ' !in scheme && ' ' !in token
    ensures RequireAuth(Some(scheme + " " + token), userFromToken)
         == RequireAuth(Some("Bearer " + token), userFromToken)
  {
    assert ' ' !in "Bearer";
    HeaderOfTwo(scheme, token);
    HeaderOfTwo("Bearer", token);
    assert "Bearer" + " " + token == "Bearer " + token;
  }

  lemma HeaderOfTwo(scheme: string, token: string)
    requires ' ' !in scheme && ' ' !in token
    ensures HeaderToken(scheme + " " + token) == Some(token)
  {
    JoinOfTwo(scheme, token);
    TokenIsSecondField(scheme, token, []);
    assert [scheme, token] + [] == [scheme, token];
  }

  lemma JoinOfTwo(a: string, b: string)
    ensures Text.Join([a, b], ' ') == a + " " + b
  {
    assert [a, b][1..] == [b];
  }

  /** A header that ends right after the scheme (`"Bearer "`) has an empty token, which is
      reported as a missing token rather than a bad format. */
  lemma EmptyTokenIsMissing(scheme: string, userFromToken: string -> Option<UserRecord>)
    requires ' ' !in scheme
    ensures RequireAuth(Some(scheme + " "), userFromToken) == Denied(401, "Authentication token is missing")
  {
    HeaderOfTwo(scheme, "");
    assert scheme + " " + "" == scheme + " ";
  }

  /** `request.current_user.get('role')` */
  function RoleOf(user: UserRecord): Option<JsValue.Json>
  {
    if "role" in user then Some(user["role"]) else None
  }

  /** `require_role(required)` on the user `require_auth` placed on the request, if any. */
  function RequireRole(currentUser: Option<UserRecord>, required: string): (g: Gate)
    ensures currentUser.None? ==> g == Denied(401, "Authentication required")
    ensures g.Passed? <==> (currentUser.Some?
      && (RoleOf(currentUser.value) == Some(JsValue.JStr(required)) || RoleOf(currentUser.value) == Some(JsValue.JStr("admin"))))
    ensures g.Passed? ==> g.user == currentUser.value
    ensures currentUser.Some? && g.Denied? ==> g == Denied(403, "Role " + required + " required")
  {
    if currentUser.None? then Denied(401, "Authentication required")
    else
      var role := RoleOf(currentUser.value);
      if role != Some(JsValue.JStr(required)) && role != Some(JsValue.JStr("admin"))
      then Denied(403, "Role " + required + " required")
      else Passed(currentUser.value)
  }

  /** An administrator passes every role gate; a user without a `role` column passes none. */
  lemma AdminPassesEveryRole(user: UserRecord, required: string)
    ensures RoleOf(user) == Some(JsValue.JStr("admin")) ==> RequireRole(Some(user), required).Passed?
    ensures "role" !in user ==> RequireRole(Some(user), required) == Denied(403, "Role " + required + " required")
  {
  }

  /** The two gates stacked as on the admin routes: a request passes both exactly when
      its token resolves to a user whose role is the required one or `admin`. */
  lemma StackedGates(header: Option<string>, userFromToken: string -> Option<UserRecord>, required: string)
    ensures var a := RequireAuth(header, userFromToken);
      var g := if a.Denied? then a else RequireRole(Some(a.user), required);
      g.Passed? <==> (a.Passed?
        && (RoleOf(a.user) == Some(JsValue.JStr(required)) || RoleOf(a.user) == Some(JsValue.JStr("admin"))))
  {
  }

  // ---------------------------------------------------------------- accounts

  /** A row of the `users` table. */
  datatype UserRow = UserRow(
    id: nat,
    username: string,
    email: string,
    passwordHash: string,
    firstName: Option<string>,
    lastName: Option<string>,
    organization: Option<string>,
    role: string,
    isActive: bool)

  /** The per-user database name, `f"heritage_user_{user_id}"`. */
  function DatabaseName(userId: nat): string
  {
    "heritage_user_" + Text.NatToDecimal(userId)
  }

  /** Different users get different database names. */
  lemma DatabaseNamesDistinct(a: nat, b: nat)
    requires DatabaseName(a) == DatabaseName(b)
    ensures a == b
  {
    var p := "heritage_user_";
    assert Text.NatToDecimal(a) == DatabaseName(a)[|p|..];
    assert Text.NatToDecimal(b) == DatabaseName(b)[|p|..];
    Text.NatToDecimalInjective(a, b);
  }

  /** The registration check `username = %s OR email = %s`. */
  predicate Clashes(row: UserRow, username: string, email: string)
  {
    row.username == username || row.email == email
  }

  /** The login lookup `(username = %s OR email = %s) AND is_active = TRUE`, with the login
      name standing for both. */
  predicate LoginMatches(row: UserRow, login: string)
  {
    (row.username == login || row.email == login) && row.isActive
  }

  /** The row `fetchone` returns for a login: the first matching one, in table order. */
  function FindLogin(users: seq<UserRow>, login: string): (k: Option<nat>)
    ensures k.Some? ==> k.value < |users| && LoginMatches(users[k.value], login)
    ensures k.Some? ==> forall j :: 0 <= j < k.value ==> !LoginMatches(users[j], login)
    ensures k.None? <==> forall j :: 0 <= j < |users| ==> !LoginMatches(users[j], login)
  {
    if |users| == 0 then None
    else if LoginMatches(users[0], login) then Some(0)
    else
      var k := FindLogin(users[1..], login);
      assert forall j :: 1 <= j < |users| ==> users[j] == users[1..][j - 1];
      if k.None? then None else Some(k.value + 1)
  }

  datatype Registration = RegisterError(error: string) | Registered(userId: nat, username: string, databaseName: string)

  datatype Login = LoginError(error: string) | LoggedIn(user: UserRow, databaseName: Option<string>)

  /** What `authenticate_user` answers, before tokens and sessions are made: the same
      "Invalid credentials" for an unknown (or inactive) login and for a wrong password. */
  function LoginOutcome(users: seq<UserRow>, databases: map<nat, string>, login: string, password: string,
                        checkpw: (string, string) -> bool): Login
  {
    var k := FindLogin(users, login);
    if k.None? || !checkpw(password, users[k.value].passwordHash) then LoginError("Invalid credentials")
    else
      var user := users[k.value];
      LoggedIn(user, if user.id in databases then Some(databases[user.id]) else None)
  }

  /** An unknown login and a wrong password cannot be told apart; an inactive user never
      logs in, whatever the password. */
  lemma FailuresLookAlike(users: seq<UserRow>, databases: map<nat, string>, login: string, password: string,
                          checkpw: (string, string) -> bool)
    ensures LoginOutcome(users, databases, login, password, checkpw).LoginError? ==>
      LoginOutcome(users, databases, login, password, checkpw) == LoginError("Invalid credentials")
    ensures (forall j :: 0 <= j < |users| && (users[j].username == login || users[j].email == login) ==> !users[j].isActive) ==>
      LoginOutcome(users, databases, login, password, checkpw) == LoginError("Invalid credentials")
    ensures LoginOutcome(users, databases, login, password, checkpw).LoggedIn? ==>
      var u := LoginOutcome(users, databases, login, password, checkpw).user;
      u in users && u.isActive && (u.username == login || u.email == login) && checkpw(password, u.passwordHash)
  {
  }

  /** `AuthManager` with the two tables it writes. */
  class AuthManager {
    var users: seq<UserRow>
    var databases: map<nat, string>
    /** The next `AUTO_INCREMENT` value of `users.id`. */
    var nextId: nat

    /** Registration keeps usernames and e-mail addresses unique, ids increase along the
        table and stay below `nextId`, and every user's database has the user's name. */
    ghost predicate Valid()
      reads this
    {
      && (forall i, j :: 0 <= i < j < |users| ==>
            users[i].username != users[j].username && users[i].email != users[j].email && users[i].id < users[j].id)
      && (forall i :: 0 <= i < |users| ==> users[i].id < nextId)
      && (forall id :: id in databases ==> databases[id] == DatabaseName(id) && id < nextId)
    }

    constructor ()
      ensures Valid() && users == [] && databases == map[] && nextId == 1
    {
      users := [];
      databases := map[];
      nextId := 1;
    }

    /** `register_user`, with the bcrypt hash of the password given. A clash on the username
        or the e-mail address leaves both tables as they were; otherwise the user gets the
        next id, is appended (active, as the column default), and gets a database named
        after the id. */
    method RegisterUser(username: string, email: string, passwordHash: string,
                        firstName: Option<string>, lastName: Option<string>, organization: Option<string>,
                        role: string)
      returns (r: Registration)
      requires Valid()
      modifies this
      ensures Valid()
      ensures (exists k :: 0 <= k < |old(users)| && Clashes(old(users)[k], username, email)) ==>
        r == RegisterError("Username or email already exists")
        && users == old(users) && databases == old(databases) && nextId == old(nextId)
      ensures !(exists k :: 0 <= k < |old(users)| && Clashes(old(users)[k], username, email)) ==>
        var id := old(nextId);
        && r == Registered(id, username, DatabaseName(id))
        && users == old(users) + [UserRow(id, username, email, passwordHash, firstName, lastName, organization, role, true)]
        && databases == old(databases)[id := DatabaseName(id)]
        && nextId == id + 1
    {
      var i := 0;
      while i < |users|
        invariant 0 <= i <= |users|
        invariant forall k :: 0 <= k < i ==> !Clashes(users[k], username, email)
      {
        if Clashes(users[i], username, email) {
          return RegisterError("Username or email already exists");
        }
        i := i + 1;
      }
      var id := nextId;
      users := users + [UserRow(id, username, email, passwordHash, firstName, lastName, organization, role, true)];
      databases := databases[id := DatabaseName(id)];
      nextId := id + 1;
      r := Registered(id, username, DatabaseName(id));
    }

    /** `authenticate_user`: scan for the first active row whose username or e-mail is the
        login, then check the password against its hash. */
    method AuthenticateUser(login: string, password: string, checkpw: (string, string) -> bool) returns (r: Login)
      ensures r == LoginOutcome(users, databases, login, password, checkpw)
    {
      var i := 0;
      while i < |users| && !LoginMatches(users[i], login)
        invariant 0 <= i <= |users|
        invariant forall j :: 0 <= j < i ==> !LoginMatches(users[j], login)
      {
        i := i + 1;
      }
      if i == |users| || !checkpw(password, users[i].passwordHash) {
        return LoginError("Invalid credentials");
      }
      var user := users[i];
      r := LoggedIn(user, if user.id in databases then Some(databases[user.id]) else None);
    }

    /** A registered user can log in with the username, right after registering, when no
        other account's e-mail address is that username. */
    lemma NewUserCanLogIn(username: string, password: string, checkpw: (string, string) -> bool)
      requires Valid()
      requires |users| > 0 && users[|users| - 1].username == username
      requires users[|users| - 1].isActive && checkpw(password, users[|users| - 1].passwordHash)
      requires forall j :: 0 <= j < |users| - 1 ==> users[j].email != username
      ensures LoginOutcome(users, databases, username, password, checkpw).LoggedIn?
      ensures LoginOutcome(users, databases, username, password, checkpw).user == users[|users| - 1]
    {
      var n := |users| - 1;
      assert forall j :: 0 <= j < n ==> !LoginMatches(users[j], username);
      var k := FindLogin(users, username);
      assert k == Some(n);
    }
  }
}
