/** The auth service's `/login` decision over its `users` table: look the
    username up, compare the password, and sign the user's id, username and
    role. It only reads the table. */
module AuthService {
  import opened Common

  /** A row of `users`. The password is stored and compared as plain text. */
  datatype User = User(id: int, username: string, password: string, role: string)

  /** The `/login` response: the message, the signed token and the payload it
      carries, or 401 with the reason. */
  datatype LoginReply =
    | LoggedIn(message: string, token: string, user: Claims)
    | LoginFailed(status: int, message: string)

  const UserNotFound: string := "User tidak ditemukan"
  const WrongPassword: string := "Password salah"
  const LoginDone: string := "Login Berhasil!"

  /** The table's UNIQUE constraint on `username`. */
  ghost predicate UniqueUsernames(users: seq<User>)
  {
    forall i, j :: 0 <= i < |users| && 0 <= j < |users| && users[i].username == users[j].username ==> i == j
  }

  /** `SELECT * FROM users WHERE username = name`, in table order. */
  function SelectByUsername(users: seq<User>, name: string): (rows: seq<User>)
    ensures forall k :: 0 <= k < |rows| ==> rows[k].username == name && rows[k] in users
    ensures rows == [] <==> forall i :: 0 <= i < |users| ==> users[i].username != name
  {
    if users == [] then []
    else (if users[0].username == name then [users[0]] else []) + SelectByUsername(users[1..], name)
  }

  /** Under the UNIQUE constraint a lookup yields at most one row, so the
      handler's `rows[0]` is the one user with that name. */
  lemma {:induction false} LookupFindsAtMostOne(users: seq<User>, name: string)
    requires UniqueUsernames(users)
    ensures |SelectByUsername(users, name)| <= 1
  {
    if users != [] {
      var tail := users[1..];
      assert UniqueUsernames(tail) by {
        forall i, j | 0 <= i < |tail| && 0 <= j < |tail| && tail[i].username == tail[j].username
          ensures i == j
        {
          assert users[i + 1] == tail[i] && users[j + 1] == tail[j];
        }
      }
      LookupFindsAtMostOne(tail, name);
      if users[0].username == name {
        forall i | 0 <= i < |tail|
          ensures tail[i].username != name
        {
          assert users[i + 1] == tail[i];
        }
      }
    }
  }

  /** The claims a successful login signs: exactly the row's id, username and role. */
  function PayloadOf(u: User): Claims
  {
    Claims(u.id, u.username, u.role)
  }

  /** `/login`, with `jwt.sign` (under the service's secret, with its one-hour
      expiry) as an opaque function of the payload. An unknown username is
      reported before any password is looked at; the reply's `user` is the
      very payload that was signed. */
  function Login(users: seq<User>, username: string, password: string, sign: Claims -> string): (r: LoginReply)
    ensures r == LoginFailed(401, UserNotFound) <==> forall i :: 0 <= i < |users| ==> users[i].username != username
    ensures r.LoginFailed? ==> r.status == 401 && (r.message == UserNotFound || r.message == WrongPassword)
    ensures r.LoggedIn? ==>
      && r.message == LoginDone
      && r.token == sign(r.user)
      && exists i :: 0 <= i < |users| && users[i].username == username && users[i].password == password
                     && r.user == PayloadOf(users[i])
  {
    var rows := SelectByUsername(users, username);
    if rows == [] then LoginFailed(401, UserNotFound)
    else
      var user := rows[0];
      if user.password != password then LoginFailed(401, WrongPassword)
      else
        var payload := PayloadOf(user);
        LoggedIn(LoginDone, sign(payload), payload)
  }

  /** With unique usernames, the outcome for a known user depends only on
      that user's row: "Password salah" exactly when the password is not
      equal to the stored one, and otherwise a token over that row's payload. */
  lemma LoginOfKnownUser(users: seq<User>, k: nat, password: string, sign: Claims -> string)
    requires UniqueUsernames(users) && k < |users|
    ensures Login(users, users[k].username, password, sign) ==
      if users[k].password != password then LoginFailed(401, WrongPassword)
      else LoggedIn(LoginDone, sign(PayloadOf(users[k])), PayloadOf(users[k]))
  {
    var rows := SelectByUsername(users, users[k].username);
    assert rows != [];
    var j :| 0 <= j < |users| && users[j] == rows[0];
  }

  /** The users `/init-db` seeds, under serial ids 1 and 2. */
  const SeedUsers: seq<User> := [User(1, "admin", "admin", "admin"), User(2, "budi", "budi123", "user")]

  /** The seeded table satisfies the UNIQUE constraint; `admin`/`admin` logs in
      as the admin, `budi`/`budi123` as a plain user, and a wrong password or
      an unknown name is refused. */
  lemma SeedLogins(sign: Claims -> string)
    ensures UniqueUsernames(SeedUsers)
    ensures Login(SeedUsers, "admin", "admin", sign).LoggedIn?
    ensures Login(SeedUsers, "admin", "admin", sign).user == Claims(1, "admin", AdminRole)
    ensures Login(SeedUsers, "budi", "budi123", sign).LoggedIn?
    ensures Login(SeedUsers, "budi", "budi123", sign).user == Claims(2, "budi", "user")
    ensures Login(SeedUsers, "budi", "admin", sign) == LoginFailed(401, WrongPassword)
    ensures Login(SeedUsers, "siti", "admin", sign) == LoginFailed(401, UserNotFound)
  {
    LoginOfKnownUser(SeedUsers, 0, "admin", sign);
    LoginOfKnownUser(SeedUsers, 1, "budi123", sign);
    LoginOfKnownUser(SeedUsers, 1, "admin", sign);
  }
}
