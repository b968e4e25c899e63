/**
 * The serverless login handler: a chain of guards over one lookup of the `users`
 * table. Nothing is written; success returns the stored user without its password.
 */
module ApiLogin {
  import opened Wrappers
  import opened Records
  import opened Sql
  import opened Store
  import opened Http

  /** The parsed body's two fields; None is a key that is absent, `undefined` or `null`. */
  datatype Credentials = Credentials(username: Option<string>, password: Option<string>)

  const BadCredentials := Response(401, ErrorMessage("Invalid credentials", "Username or password is incorrect"))

  const LoginFailed := Response(500, ErrorMessage("Internal server error", "Failed to process login request"))

  /**
   * The handler. `body` is None when the request has no body at all, so that
   * destructuring it throws; `users` is what `SELECT * FROM users` sees.
   */
  function Login(httpMethod: string, body: Option<Credentials>, users: Result<seq<UserRow>, DbError>): (r: Response)
    ensures httpMethod == "OPTIONS" ==> r == Response(200, EmptyObject)
    ensures httpMethod != "OPTIONS" && httpMethod != "POST" ==> r == Response(405, Error("Method not allowed"))
    ensures httpMethod == "POST" && body.None? ==> r == LoginFailed
    ensures httpMethod == "POST" && body.Some? && (Falsy(body.value.username) || Falsy(body.value.password)) ==>
      r == Response(400, Error("Username and password are required"))
    ensures httpMethod == "POST" && body.Some? && !Falsy(body.value.username) && !Falsy(body.value.password) ==>
      && (users.Err? ==> r == LoginFailed)
      && (users.Ok? && !HasUser(users.value, body.value.username.value) ==> r == BadCredentials)
    ensures httpMethod == "POST" && body.Some? && !Falsy(body.value.username) && !Falsy(body.value.password) && users.Ok? ==>
      (r.Response? && r.status == 200) || r == BadCredentials
    ensures r.Response?
    ensures r.status == 401 ==> r == BadCredentials  // unknown user and wrong password alike
  {
    if httpMethod == "OPTIONS" then Response(200, EmptyObject)
    else if httpMethod != "POST" then Response(405, Error("Method not allowed"))
    else match body
      case None => LoginFailed
      case Some(Credentials(username, password)) =>
        if Falsy(username) || Falsy(password) then Response(400, Error("Username and password are required"))
        else match users
          case Err(_) => LoginFailed
          case Ok(rows) =>
            var found := UsersNamed(rows, username.value);
            if |found| == 0 then
              assert !HasUser(rows, username.value) by {
                forall i | 0 <= i < |rows| ensures rows[i].username != username.value {
                  assert rows[i] in rows;
                }
              }
              BadCredentials
            else if found[0].password != password.value then BadCredentials
            else Response(200, LoginSuccess("Login successful", WithoutPassword(found[0])))
  }

  /** `rows[i]` is the first user named `username`, the row `result.rows[0]` holds. */
  predicate FirstUser(rows: seq<UserRow>, username: string, i: int)
  {
    0 <= i < |rows| && rows[i].username == username && NoUserBefore(rows, username, i)
  }

  /**
   * A login succeeds exactly when the first user of that name (the only one, under
   * the UNIQUE constraint) has that password, and it answers with that user, its
   * password removed and every other field kept.
   */
  lemma LoginSucceedsIff(rows: seq<UserRow>, username: string, password: string)
    requires username != "" && password != ""
    ensures Login("POST", Some(Credentials(Some(username), Some(password))), Ok(rows)).status == 200 <==>
      exists i :: FirstUser(rows, username, i) && rows[i].password == password
    ensures forall i :: FirstUser(rows, username, i) && rows[i].password == password ==>
      Login("POST", Some(Credentials(Some(username), Some(password))), Ok(rows))
        == Response(200, LoginSuccess("Login successful", PublicUser(rows[i].id, rows[i].username, rows[i].createdat)))
  {
    var found := UsersNamed(rows, username);
    forall i | FirstUser(rows, username, i) ensures |found| > 0 && found[0] == rows[i] {
      assert rows[i] in found;
      var k :| 0 <= k < |rows| && rows[k] == found[0] && NoUserBefore(rows, username, k);
      assert found[0] in found;
    }
    if |found| > 0 {
      assert found[0] in found;
    }
  }

  /**
   * A stored user given the wrong password gets the very answer an unknown user
   * gets, so the response does not tell which of the two was wrong.
   */
  lemma WrongPasswordIsBadCredentials(rows: seq<UserRow>, username: string, password: string, i: int)
    requires username != "" && password != ""
    requires FirstUser(rows, username, i) && rows[i].password != password
    ensures Login("POST", Some(Credentials(Some(username), Some(password))), Ok(rows)) == BadCredentials
  {
    var found := UsersNamed(rows, username);
    assert rows[i] in found;
    var k :| 0 <= k < |rows| && rows[k] == found[0] && NoUserBefore(rows, username, k);
    assert found[0] in found;
  }

  /** The one success answer carries a user that, with its password put back, is the stored row. */
  lemma SuccessKeepsUser(rows: seq<UserRow>, username: string, password: string)
    requires Login("POST", Some(Credentials(Some(username), Some(password))), Ok(rows)).status == 200
    ensures var r := Login("POST", Some(Credentials(Some(username), Some(password))), Ok(rows));
      r.body.LoginSuccess? && WithPassword(r.body.user, password) in rows
      && r.body.user.username == username
  {
    var found := UsersNamed(rows, username);
    assert found[0] in found;
  }
}
