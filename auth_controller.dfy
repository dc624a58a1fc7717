/**
 * The `Register` and `Login` controllers as sequential protocols over the
 * `users` and `tokens` collections. The HTTP request becomes the arguments and
 * the response becomes a `Reply`. The access- and refresh-token issuers, the
 * JWT decoder, the key-derivation function, the clock and the salt bytes are
 * arguments.
 *
 * Each controller is a method proved against a function of the same protocol
 * over the collections' contents (`RegisterOutcome`, `LoginOutcome`); the
 * lemmas below state what the protocols promise.
 */
module AuthController {
  import opened Wrappers
  import opened Strings
  import opened Hex
  import opened Persistence
  import opened PrimaryErrorHandler
  import opened UserModel
  import opened TokenModel
  import opened Identifiers
  import opened Passwords
  import opened AuthManagement
  import opened TokenManagement

  /** An exception caught by a controller's `catch` and passed on to `next(error)`. */
  datatype Thrown =
    | ConstructorWithoutNew       // `PrimaryErrorHandler(...)` called without `new`: a TypeError
    | FromAuth(authError: AuthError) // thrown by the auth manager
    | FromTokens(dbError: DbError)   // thrown by the token manager

  datatype Reply =
    | Registered                                         // 200 `{status: 200, message: "success"}`
    | LoggedIn(accessToken: string, refreshToken: string) // 200 with both tokens
    | NextError(error: PrimaryError)                     // `next(<PrimaryErrorHandler value>)`
    | NextException(cause: Thrown)                       // `next(error)` from the `catch` block

  /** The collaborators `Login` calls that this model does not see into. */
  datatype Services = Services(
    kdf: Kdf,
    issueAccess: string -> string,   // `issueAccessToken(userId)`; "" for a falsy result
    issueRefresh: string -> string,  // `issueRefreshToken(userId)`; "" for a falsy result
    decode: Decoder)

  const InvalidRequest: PrimaryError := PrimaryError(400, Some("Invalid request"))
  const UnableToRefresh: Option<string> := Some("unable to refresh the token")

  /** `Register` over the users' contents: the reply and the users afterwards. */
  function RegisterOutcome(
    users: seq<User>, now: nat, saltBytes: seq<byte>, kdf: Kdf,
    name: string, email: string, password: string, city: string, pincode: Option<int>): (out: (Reply, seq<User>))
    requires |saltBytes| == 16
    ensures out.0.Registered? || out.0.NextError? || out.0.NextException?
    ensures out.0 != Registered ==> out.1 == users
    ensures out.0 == Registered ==> |out.1| == |users| + 1 && out.1[..|users|] == users
    ensures out.0 == Registered ==> out.1[|users|].email == email && out.1[|users|].city == Some(city)
  {
    if name == "" || email == "" || password == "" || city == "" || !IsTruthy(pincode) then
      (NextError(InvalidRequest), users)
    else if IndexByEmail(users, email) < |users| then
      (NextError(Raise(AlreadyExist, Some("user already exist"))), users)
    else
      match UserModel.Create(users, NewUserDoc(now, saltBytes, kdf, name, email, password, Some(city), pincode))
      case Failure(e) => (NextException(FromAuth(Db(e))), users)
      case Success(u) => (Registered, users + [u])
  }

  /**
   * The tail of `Login` once the password is verified: delete the user's
   * refresh records, issue both tokens, decode the refresh token's `exp` and
   * store the new record. The reply and the tokens afterwards.
   */
  function IssueOutcome(tokens: seq<TokenRecord>, svc: Services, userId: string): (out: (Reply, seq<TokenRecord>))
    ensures !out.0.Registered?
    ensures out.0.LoggedIn? ==> out.0 == LoggedIn(svc.issueAccess(userId), svc.issueRefresh(userId))
    ensures !out.0.LoggedIn? ==> out.1 == Without(tokens, userId)
    ensures out.0.LoggedIn? ==>
      && |out.1| == |Without(tokens, userId)| + 1
      && out.1[..|out.1| - 1] == Without(tokens, userId)
      && out.1[|out.1| - 1].userId == userId && out.1[|out.1| - 1].status
  {
    var rotated := Without(tokens, userId);
    var accessToken := svc.issueAccess(userId);
    var refreshToken := svc.issueRefresh(userId);
    if accessToken == "" || refreshToken == "" then
      (NextError(Raise(SomethingWentWrong, None)), rotated)
    else
      var decoded := DecodeToken(refreshToken, svc.decode);
      if !decoded.Value? || !IsTruthy(decoded.value.exp) then
        (NextError(Raise(SomethingWentWrong, UnableToRefresh)), rotated)
      else
        match TokenModel.Create(rotated, TokenDoc(userId, refreshToken, Some(true), decoded.value.exp))
        case Failure(e) => (NextException(FromTokens(e)), rotated)
        case Success(t) => (LoggedIn(accessToken, refreshToken), rotated + [t])
  }

  /** `Login` over the collections' contents: the reply and the tokens afterwards. */
  function LoginOutcome(
    users: seq<User>, tokens: seq<TokenRecord>, svc: Services, email: string, password: string): (out: (Reply, seq<TokenRecord>))
    ensures !out.0.Registered?
    ensures out.1 != tokens || out.0.LoggedIn? ==>
      && email != "" && password != "" && IndexByEmail(users, email) < |users|
      && VerifyPassword(password, users[IndexByEmail(users, email)].password, svc.kdf)
  {
    if email == "" || password == "" then (NextException(ConstructorWithoutNew), tokens)
    else if IndexByEmail(users, email) == |users| then
      (NextError(Raise(NotFound, Some("user not found"))), tokens)
    else
      var user := users[IndexByEmail(users, email)];
      if !VerifyPassword(password, user.password, svc.kdf) then
        (NextError(Raise(WrongCredentials, Some("Invalid Password"))), tokens)
      else
        IssueOutcome(tokens, svc, user.userId)
  }

  /**
   * `Register` changes the users only on success; a missing field gives 400
   * and a taken email gives 409 (the empty-field check comes first).
   */
  lemma RegisterRejects(
    users: seq<User>, now: nat, saltBytes: seq<byte>, kdf: Kdf,
    name: string, email: string, password: string, city: string, pincode: Option<int>)
    requires |saltBytes| == 16
    ensures var out := RegisterOutcome(users, now, saltBytes, kdf, name, email, password, city, pincode);
      && (out.0 != Registered ==> out.1 == users)
      && (name == "" || email == "" || password == "" || city == "" || !IsTruthy(pincode) ==>
            out.0 == NextError(PrimaryError(400, Some("Invalid request"))))
      && (name != "" && email != "" && password != "" && city != "" && IsTruthy(pincode)
          && (exists u :: u in users && u.email == email) ==>
            out.0 == NextError(PrimaryError(409, Some("user already exist"))))
  {
    if exists u :: u in users && u.email == email {
      var u :| u in users && u.email == email;
      assert IndexByEmail(users, email) < |users|;
    }
  }

  /**
   * `Register` succeeds exactly when every field is present, the email is new,
   * the trimmed name is not empty and no user already holds the identifier of
   * this millisecond; it then adds exactly one user, built from the request,
   * and keeps both unique indexes.
   */
  lemma RegisterAddsOneUser(
    users: seq<User>, now: nat, saltBytes: seq<byte>, kdf: Kdf,
    name: string, email: string, password: string, city: string, pincode: Option<int>)
    requires UserModel.Collection(users) && |saltBytes| == 16
    ensures var out := RegisterOutcome(users, now, saltBytes, kdf, name, email, password, city, pincode);
      && (out.0 == Registered <==>
            && name != "" && email != "" && password != "" && city != "" && IsTruthy(pincode)
            && (forall u :: u in users ==> u.email != email)
            && Trim(name) != ""
            && (forall u :: u in users ==> u.userId != CreateUniqueId(now, Some("user"))))
      && (out.0 == Registered ==>
            && |out.1| == |users| + 1 && out.1[..|users|] == users
            && out.1[|users|] == User(CreateUniqueId(now, Some("user")), Trim(name), email,
                                      HashedPassword(password, saltBytes, kdf), Some(city), pincode)
            && UserModel.Collection(out.1))
  {
    var out := RegisterOutcome(users, now, saltBytes, kdf, name, email, password, city, pincode);
    var doc := NewUserDoc(now, saltBytes, kdf, name, email, password, Some(city), pincode);
    if IndexByEmail(users, email) < |users| {
      assert users[IndexByEmail(users, email)] in users;
    }
    if out.0 == Registered {
      UserModel.CreateKeepsCollection(users, doc);
      assert out.1 == users + [UserModel.Create(users, doc).value];
    }
  }

  /**
   * Two registrations in the same millisecond collide: when a user already
   * holds this millisecond's identifier, an otherwise valid registration
   * fails on the `userId` index and adds nobody.
   */
  lemma RegisterSameMillisecond(
    users: seq<User>, now: nat, saltBytes: seq<byte>, kdf: Kdf,
    name: string, email: string, password: string, city: string, pincode: Option<int>)
    requires |saltBytes| == 16
    requires name != "" && email != "" && password != "" && city != "" && IsTruthy(pincode)
    requires Trim(name) != "" && forall u :: u in users ==> u.email != email
    requires exists u :: u in users && u.userId == CreateUniqueId(now, Some("user"))
    ensures RegisterOutcome(users, now, saltBytes, kdf, name, email, password, city, pincode)
         == (NextException(FromAuth(Db(DuplicateKey("userId")))), users)
  {
    var doc := NewUserDoc(now, saltBytes, kdf, name, email, password, Some(city), pincode);
    assert UserModel.Cast(doc).Success?;
  }

  /**
   * A login with the credentials just registered finds the new user, passes
   * the password check and goes on to issue tokens for the new identifier.
   */
  lemma RegisteredUserCanLogIn(
    users: seq<User>, tokens: seq<TokenRecord>, now: nat, saltBytes: seq<byte>, svc: Services,
    name: string, email: string, password: string, city: string, pincode: Option<int>)
    requires |saltBytes| == 16
    requires RegisterOutcome(users, now, saltBytes, svc.kdf, name, email, password, city, pincode).0 == Registered
    ensures LoginOutcome(RegisterOutcome(users, now, saltBytes, svc.kdf, name, email, password, city, pincode).1,
                         tokens, svc, email, password)
         == IssueOutcome(tokens, svc, CreateUniqueId(now, Some("user")))
  {
    var doc := NewUserDoc(now, saltBytes, svc.kdf, name, email, password, Some(city), pincode);
    var after := RegisterOutcome(users, now, saltBytes, svc.kdf, name, email, password, city, pincode).1;
    assert after == users + [UserModel.Create(users, doc).value];
    CreatedUserIsFoundByEmail(users, doc);
    VerifyHashedPassword(password, password, saltBytes, svc.kdf);
  }

  /** Where the rotation-and-issuance tail leaves the tokens, in every case. */
  lemma IssueRotates(tokens: seq<TokenRecord>, svc: Services, userId: string)
    requires TokenModel.Collection(tokens) && userId != ""
    ensures var out := IssueOutcome(tokens, svc, userId);
      && TokenModel.Collection(out.1)
      && (forall u :: u != userId ==> RecordsOf(out.1, u) == RecordsOf(tokens, u))
      && (!out.0.LoggedIn? ==> out.1 == Without(tokens, userId) && RecordsOf(out.1, userId) == [])
      && (out.0.LoggedIn? ==>
            var d := DecodeToken(out.0.refreshToken, svc.decode);
            && out.0 == LoggedIn(svc.issueAccess(userId), svc.issueRefresh(userId))
            && d.Value? && IsTruthy(d.value.exp)
            && RecordsOf(out.1, userId) == [TokenRecord(userId, Trim(out.0.refreshToken), true, d.value.exp.value)])
  {
    var out := IssueOutcome(tokens, svc, userId);
    var rotated := Without(tokens, userId);
    WithoutKeepsCollection(tokens, userId);
    forall u ensures RecordsOf(rotated, u) == if u == userId then [] else RecordsOf(tokens, u) {
      RecordsOfWithout(tokens, userId, u);
    }
    if out.0.LoggedIn? {
      var d := DecodeToken(svc.issueRefresh(userId), svc.decode);
      var doc := TokenDoc(userId, svc.issueRefresh(userId), Some(true), d.value.exp);
      var t := TokenModel.Create(rotated, doc).value;
      assert out.1 == rotated + [t];
      Rotate(tokens, t);
    }
  }

  /**
   * The tail succeeds exactly when both tokens are issued, the refresh token
   * decodes to a payload with a non-zero `exp`, and it is not blank once
   * trimmed: the store can no longer hit the `userId` index, because the
   * user's records were deleted first.
   */
  lemma IssueSucceedsIff(tokens: seq<TokenRecord>, svc: Services, userId: string)
    requires userId != ""
    ensures IssueOutcome(tokens, svc, userId).0.LoggedIn? <==>
      var refreshToken := svc.issueRefresh(userId);
      var d := DecodeToken(refreshToken, svc.decode);
      && svc.issueAccess(userId) != "" && refreshToken != ""
      && d.Value? && IsTruthy(d.value.exp)
      && Trim(refreshToken) != ""
  {
    RecordsOfWithout(tokens, userId, userId);
  }

  /**
   * `Login` touches the tokens only once the email is known and the password
   * verifies: a missing field, an unknown email (404) or a wrong password (401)
   * leaves them as they were.
   */
  lemma LoginStopsBeforeRotation(
    users: seq<User>, tokens: seq<TokenRecord>, svc: Services, email: string, password: string)
    ensures var out := LoginOutcome(users, tokens, svc, email, password);
      && (email == "" || password == "" ==> out == (NextException(ConstructorWithoutNew), tokens))
      && (email != "" && password != "" && (forall u :: u in users ==> u.email != email) ==>
            out == (NextError(PrimaryError(404, Some("user not found"))), tokens))
      && (email != "" && password != "" && IndexByEmail(users, email) < |users|
          && !VerifyPassword(password, users[IndexByEmail(users, email)].password, svc.kdf) ==>
            out == (NextError(PrimaryError(401, Some("Invalid Password"))), tokens))
  {
    if IndexByEmail(users, email) < |users| {
      assert users[IndexByEmail(users, email)] in users;
    }
  }

  /**
   * A successful `Login` returns the two tokens issued for the user the email
   * names, whose password verified; afterwards that user has exactly one
   * refresh record — the new token, trimmed, active, expiring at the decoded
   * `exp` — and every other user's records are untouched.
   */
  lemma LoginSuccess(users: seq<User>, tokens: seq<TokenRecord>, svc: Services, email: string, password: string)
    requires UserModel.Collection(users) && TokenModel.Collection(tokens)
    requires LoginOutcome(users, tokens, svc, email, password).0.LoggedIn?
    ensures IndexByEmail(users, email) < |users|
    ensures var user := users[IndexByEmail(users, email)];
      var out := LoginOutcome(users, tokens, svc, email, password);
      var d := DecodeToken(out.0.refreshToken, svc.decode);
      && VerifyPassword(password, user.password, svc.kdf)
      && out.0 == LoggedIn(svc.issueAccess(user.userId), svc.issueRefresh(user.userId))
      && d.Value? && IsTruthy(d.value.exp)
      && RecordsOf(out.1, user.userId) == [TokenRecord(user.userId, Trim(out.0.refreshToken), true, d.value.exp.value)]
      && (forall u :: u != user.userId ==> RecordsOf(out.1, u) == RecordsOf(tokens, u))
      && TokenModel.Collection(out.1)
  {
    var user := users[IndexByEmail(users, email)];
    assert user in users;
    IssueRotates(tokens, svc, user.userId);
  }

  /**
   * A `Login` that fails after the password check (issuance, decoding or
   * storing) leaves the user with no refresh record at all, every other
   * user's records untouched.
   */
  lemma LoginFailureAfterRotation(
    users: seq<User>, tokens: seq<TokenRecord>, svc: Services, email: string, password: string)
    requires UserModel.Collection(users) && TokenModel.Collection(tokens)
    requires email != "" && password != "" && IndexByEmail(users, email) < |users|
    requires VerifyPassword(password, users[IndexByEmail(users, email)].password, svc.kdf)
    requires !LoginOutcome(users, tokens, svc, email, password).0.LoggedIn?
    ensures var user := users[IndexByEmail(users, email)];
      var after := LoginOutcome(users, tokens, svc, email, password).1;
      && RecordsOf(after, user.userId) == []
      && (forall u :: u != user.userId ==> RecordsOf(after, u) == RecordsOf(tokens, u))
      && TokenModel.Collection(after)
  {
    var user := users[IndexByEmail(users, email)];
    assert user in users;
    IssueRotates(tokens, svc, user.userId);
  }

  /**
   * Two successful logins in a row leave exactly one refresh record for the
   * user: the second call's token, not the first's.
   */
  lemma LoginTwice(
    users: seq<User>, tokens: seq<TokenRecord>, first: Services, second: Services, email: string, password: string)
    requires UserModel.Collection(users) && TokenModel.Collection(tokens)
    requires LoginOutcome(users, tokens, first, email, password).0.LoggedIn?
    requires LoginOutcome(users, LoginOutcome(users, tokens, first, email, password).1, second, email, password).0.LoggedIn?
    ensures IndexByEmail(users, email) < |users|
    ensures var userId := users[IndexByEmail(users, email)].userId;
      var after := LoginOutcome(users, LoginOutcome(users, tokens, first, email, password).1, second, email, password).1;
      && |RecordsOf(after, userId)| == 1
      && RecordsOf(after, userId)[0].refreshToken == Trim(second.issueRefresh(userId))
  {
    LoginSuccess(users, tokens, first, email, password);
    LoginSuccess(users, LoginOutcome(users, tokens, first, email, password).1, second, email, password);
  }

  /** `Register(req, res, next)` with `req.body = {name, email, password, city, pincode}`. */
  method Register(
    auth: AuthManager, now: nat, saltBytes: seq<byte>, kdf: Kdf,
    name: string, email: string, password: string, city: string, pincode: Option<int>)
    returns (reply: Reply)
    requires auth.Valid() && |saltBytes| == 16
    modifies auth
    ensures auth.Valid()
    ensures (reply, auth.users) == RegisterOutcome(old(auth.users), now, saltBytes, kdf, name, email, password, city, pincode)
  {
    if name == "" || email == "" || password == "" || city == "" || !IsTruthy(pincode) {
      return NextError(InvalidRequest);
    }
    var found := auth.FindByEmail(email);
    assert found.Success?;  // a non-empty email never makes `findByEmail` throw
    if found.value.Some? {
      return NextError(Raise(AlreadyExist, Some("user already exist")));
    }
    var created := auth.CreateUser(now, saltBytes, kdf, name, email, password, Some(city), pincode);
    if created.Failure? {
      return NextException(FromAuth(created.error));
    }
    return Registered;
  }

  /** `Login(req, res, next)` with `req.body = {email, password}`. */
  method Login(auth: AuthManager, tm: TokenManager, svc: Services, email: string, password: string)
    returns (reply: Reply)
    requires auth.Valid() && tm.Valid()
    modifies tm
    ensures tm.Valid()
    ensures (reply, tm.tokens) == LoginOutcome(auth.users, old(tm.tokens), svc, email, password)
  {
    if email == "" || password == "" {
      return NextException(ConstructorWithoutNew);
    }
    var found := auth.FindByEmail(email);
    assert found.Success?;  // a non-empty email never makes `findByEmail` throw
    if found.value.None? {
      return NextError(Raise(NotFound, Some("user not found")));
    }
    var user := found.value.value;
    var isPasswordValid := VerifyPassword(password, user.password, svc.kdf);
    if !isPasswordValid {
      return NextError(Raise(WrongCredentials, Some("Invalid Password")));
    }
    assert user in auth.users && UserModel.WellFormed(user);
    reply := IssueTokens(tm, svc, user.userId);
  }

  /** Lines 71-114 of `Login`: rotate the user's refresh record and hand out both tokens. */
  method IssueTokens(tm: TokenManager, svc: Services, userId: string) returns (reply: Reply)
    requires tm.Valid() && userId != ""
    modifies tm
    ensures tm.Valid()
    ensures (reply, tm.tokens) == IssueOutcome(old(tm.tokens), svc, userId)
  {
    var existing := tm.FindRefreshTokenById(userId);
    if existing.Value? {
      var _ := tm.DeleteExistingRefreshTokens(userId);
    } else {
      WithoutAbsent(tm.tokens, userId);
    }
    var accessToken := svc.issueAccess(userId);
    var refreshToken := svc.issueRefresh(userId);
    if accessToken == "" || refreshToken == "" {
      return NextError(Raise(SomethingWentWrong, None));
    }
    var decoded := DecodeToken(refreshToken, svc.decode);
    if !decoded.Value? {
      return NextError(Raise(SomethingWentWrong, UnableToRefresh));
    }
    var expiresAt := decoded.value.exp;
    var stored := tm.StoreRefreshToken(refreshToken, userId, expiresAt);
    if stored.Failure? {
      return NextException(FromTokens(stored.error));
    }
    if !stored.value.Value? {
      return NextError(Raise(SomethingWentWrong, UnableToRefresh));
    }
    return LoggedIn(accessToken, refreshToken);
  }
}
