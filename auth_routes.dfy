/** The `/auth` routes: `POST /login` and `POST /register`. Each handler
    checks the required fields of the request body, then calls the `User`
    model in a fixed order; the first error thrown ends the request. */
module AuthRoutes {
  import opened Store
  import opened UserModel

  /** A field of the JSON body passes the handlers' `!field` test only when it
      is there and is not the empty string. */
  predicate Present(field: Option<string>)
  {
    field.Some? && field.value != ""
  }

  datatype LoginRequest = LoginRequest(username: Option<string>, password: Option<string>)

  /** The body of a successful `/login` response: `{msg, token}`. */
  datatype LoginResponse = LoginResponse(msg: string, token: AuthOutcome)

  datatype RegisterRequest = RegisterRequest(
    username: Option<string>,
    password: Option<string>,
    first_name: Option<string>,
    last_name: Option<string>,
    phone: Option<string>)

  /** `/login` goes on only when both fields pass the test. */
  predicate LoginComplete(req: LoginRequest)
  {
    Present(req.username) && Present(req.password)
  }

  /** `/register` goes on only when all five fields pass the test. */
  predicate RegisterComplete(req: RegisterRequest)
  {
    && Present(req.username)
    && Present(req.password)
    && Present(req.first_name)
    && Present(req.last_name)
    && Present(req.phone)
  }

  /** `POST /login`: authenticate, then refresh `last_login_at` whatever
      `authenticate` returned, then answer "Logged in!" with that value as the
      token. Only an unknown user stops the handler before the update. */
  method PostLogin(db: Database, req: LoginRequest, c: Crypto, now: Timestamp) returns (r: Result<LoginResponse>)
    requires db.Valid()
    modifies db
    ensures db.Valid() && db.messages == old(db.messages)
    ensures !LoginComplete(req) ==>
      r == Err(HttpError("Username and Password required", 400)) && db.users == old(db.users)
    ensures LoginComplete(req) ==>
      var username := req.username.value;
      var auth := Authenticate(old(db.users), username, req.password.value, c, now);
      && (auth.Err? ==> r == Err(auth.error) && db.users == old(db.users))
      && (auth.Ok? ==> r == Ok(LoginResponse("Logged in!", auth.value)) && db.users == StampLogin(old(db.users), username, now))
    ensures LoginComplete(req) && req.username.value in old(db.users) &&
            !c.compare(req.password.value, old(db.users)[req.username.value].password) ==>
      r == Ok(LoginResponse("Logged in!", Rejected)) && db.users[req.username.value].last_login_at == now
  {
    if !Present(req.username) || !Present(req.password) {
      return Err(HttpError("Username and Password required", 400));
    }
    var username, password := req.username.value, req.password.value;
    var token := Authenticate(db.users, username, password, c, now);
    if token.Err? {
      return Err(token.error);
    }
    UpdateLoginTimestamp(db, username, now);
    r := Ok(LoginResponse("Logged in!", token.value));
  }

  /** `POST /register`: insert the user and answer with the row `register`
      returned (hashed password included, no token). `last_login_at` is the
      registration time; the login timestamp is not refreshed. */
  method PostRegister(db: Database, req: RegisterRequest, c: Crypto, now: Timestamp) returns (r: Result<RegisteredUser>)
    requires db.Valid()
    modifies db
    ensures db.Valid() && db.messages == old(db.messages)
    ensures !RegisterComplete(req) ==>
      r == Err(HttpError("All fields required!", 400)) && db.users == old(db.users)
    ensures RegisterComplete(req) && req.username.value in old(db.users) ==>
      r == Err(StoreFailure) && db.users == old(db.users)
    ensures RegisterComplete(req) && req.username.value !in old(db.users) ==>
      var hashed := c.hash(req.password.value);
      && r == Ok(RegisteredUser(req.username.value, hashed, req.first_name.value, req.last_name.value, req.phone.value))
      && db.users == old(db.users)[req.username.value :=
           UserRecord(hashed, req.first_name.value, req.last_name.value, req.phone.value, now, now)]
  {
    if !RegisterComplete(req) {
      return Err(HttpError("All fields required!", 400));
    }
    r := Register(db, req.username.value, req.password.value, req.first_name.value,
                  req.last_name.value, req.phone.value, c, now);
  }

  /** A new user who registers and then logs in with the same password gets a
      token signed over their username at the login time; `get` then shows the registration
      time as `join_at` and the login time as `last_login_at`. */
  method RegisterThenLogIn(db: Database, req: RegisterRequest, c: Crypto, joined: Timestamp, loggedIn: Timestamp)
    returns (login: Result<LoginResponse>)
    requires db.Valid() && Sound(c)
    requires RegisterComplete(req) && req.username.value !in db.users
    modifies db
    ensures db.Valid()
    ensures login == Ok(LoginResponse("Logged in!", Token(c.sign(Claims(req.username.value), loggedIn))))
    ensures Get(db.users, req.username.value) ==
      Ok(UserDetail(req.username.value, req.first_name.value, req.last_name.value, req.phone.value, joined, loggedIn))
  {
    var username := req.username.value;
    var registered := PostRegister(db, req, c, joined);
    RegisteredUserAuthenticates(old(db.users), username, req.password.value, req.first_name.value,
                                req.last_name.value, req.phone.value, c, joined, loggedIn);
    login := PostLogin(db, LoginRequest(req.username, req.password), c, loggedIn);
  }
}
