/**
 * The demo back end's `POST /api/login` handler over its constant list of two users.
 * The handler only reads that list; it is a `const` here, so no call can change it.
 */
module DemoLogin {
  import opened Wrappers

  datatype DemoUser = DemoUser(id: int, username: string, password: string)

  /** The hard-coded `users` array. */
  const Users: seq<DemoUser> := [
    DemoUser(1, "teacher1", "teacher123"),
    DemoUser(2, "teacher2", "teacher123")
  ]

  /** A field of the parsed JSON body: missing, a string, or some other JSON value
      (number, boolean, object, ...) of which only its truthiness matters here. */
  datatype JsonField = Missing | Text(s: string) | OtherValue(truthy: bool)

  predicate Truthy(f: JsonField)
  {
    match f
    case Missing => false
    case Text(s) => s != ""
    case OtherValue(t) => t
  }

  /** `===` between a stored string and a body field: only a string of equal text matches. */
  predicate SameString(stored: string, f: JsonField)
  {
    f.Text? && f.s == stored
  }

  datatype LoginRequest = LoginRequest(username: JsonField, password: JsonField)

  /** The JSON a response carries. A success names the user's id and username only: there
      is no field in which a password could be returned. */
  datatype ResponseBody =
    | ErrorBody(error: string)
    | SuccessBody(success: bool, message: string, userId: int, username: string)

  datatype Response = Response(status: int, body: ResponseBody)

  const MissingFields: string := "Username and password are required"
  const BadCredentials: string := "Invalid username or password"

  /** `users.find(u => u.username === username)`. */
  function FindUser(users: seq<DemoUser>, username: JsonField): (r: Option<nat>)
    ensures r.Some? ==> r.value < |users| && SameString(users[r.value].username, username)
    ensures r.Some? ==> forall j :: 0 <= j < r.value ==> !SameString(users[j].username, username)
    ensures r.None? <==> forall j :: 0 <= j < |users| ==> !SameString(users[j].username, username)
  {
    if |users| == 0 then None
    else if SameString(users[0].username, username) then Some(0)
    else match FindUser(users[1..], username)
      case None => None
      case Some(k) => Some(k + 1)
  }

  /** The handler, for any list of users. */
  function HandleLogin(users: seq<DemoUser>, req: LoginRequest): (r: Response)
    ensures r.status in {200, 400, 401}
    ensures r.status == 400 <==> !Truthy(req.username) || !Truthy(req.password)
    ensures r.status == 400 ==> r.body == ErrorBody(MissingFields)
    ensures r.status == 401 ==> r.body == ErrorBody(BadCredentials)
    ensures r.status == 200 <==> r.body.SuccessBody?
  {
    if !Truthy(req.username) || !Truthy(req.password) then
      Response(400, ErrorBody(MissingFields))
    else match FindUser(users, req.username)
      case None => Response(401, ErrorBody(BadCredentials))
      case Some(k) =>
        if !SameString(users[k].password, req.password) then Response(401, ErrorBody(BadCredentials))
        else Response(200, SuccessBody(true, "Login successful", users[k].id, users[k].username))
  }

  /** The endpoint as deployed: the handler over the constant list. Exactly the two demo
      accounts with the password "teacher123" get in, each under its own id. */
  function Login(req: LoginRequest): (r: Response)
    ensures r.status == 200 <==>
      req.password == Text("teacher123") && (req.username == Text("teacher1") || req.username == Text("teacher2"))
    ensures r.status == 200 ==> r.body.SuccessBody? && r.body.userId == (if req.username == Text("teacher1") then 1 else 2)
  {
    assert !SameString(Users[0].username, Text("teacher2"));
    HandleLogin(Users, req)
  }

  /** Success happens exactly when the first user with the given username has exactly the
      given password, and then the response names that user; an unknown username and a
      wrong password give the same 401 answer. */
  lemma LoginOutcome(users: seq<DemoUser>, req: LoginRequest)
    requires Truthy(req.username) && Truthy(req.password)
    ensures var r := HandleLogin(users, req);
      && (r.status == 200 <==> FindUser(users, req.username).Some? && SameString(users[FindUser(users, req.username).value].password, req.password))
      && (r.status == 200 ==> r.body == SuccessBody(true, "Login successful",
                                                    users[FindUser(users, req.username).value].id, req.username.s))
      && (r.status != 200 ==> r == Response(401, ErrorBody(BadCredentials)))
  {
  }

  /** With the demo list: both accounts log in with "teacher123", and a wrong password and an
      unknown name are told apart by nothing. */
  lemma DemoCredentials()
    ensures Login(LoginRequest(Text("teacher1"), Text("teacher123"))) == Response(200, SuccessBody(true, "Login successful", 1, "teacher1"))
    ensures Login(LoginRequest(Text("teacher2"), Text("teacher123"))) == Response(200, SuccessBody(true, "Login successful", 2, "teacher2"))
    ensures Login(LoginRequest(Text("teacher1"), Text("wrong"))) == Login(LoginRequest(Text("nobody"), Text("teacher123")))
    ensures Login(LoginRequest(Text("teacher1"), Missing)).status == 400
  {
    assert FindUser(Users, Text("teacher2")) == Some(1) by {
      assert !SameString(Users[0].username, Text("teacher2"));
    }
    assert FindUser(Users, Text("nobody")).None? by {
      assert !SameString(Users[0].username, Text("nobody"));
      assert !SameString(Users[1].username, Text("nobody"));
    }
  }

  /** A password sent as a number never matches, even when it reads like the stored one. */
  lemma NonStringPasswordRejected(users: seq<DemoUser>, username: string)
    requires username != ""
    ensures HandleLogin(users, LoginRequest(Text(username), OtherValue(true))).status == 401
  {
  }
}
