/**
 * The authentication layer: the local login strategy, session
 * (de)serialisation and the `/api/register`, `/api/login`, `/api/logout` and
 * `/api/user` handlers.  The session holds only the user's id; on each request
 * it is turned back into a user with `getUser`.
 */
module Auth {
  import opened Wrappers
  import opened Schema
  import opened Http
  import opened Credentials
  import JsMap
  import Storage

  /** What the session records: nobody, or the id `serializeUser` stored. */
  datatype Session = Anonymous | LoggedIn(userId: int)

  /** The JSON body of `/api/register` and `/api/login`; `extras` holds any other fields. */
  datatype AccountBody = AccountBody(username: string, password: string, extras: map<string, string>)

  /** The strategy's verdict: `done(null, user)`, `done(null, false)` or `done(error)`. */
  datatype StrategyOutcome = Accepted(user: User) | Rejected | Errored(error: CryptoError)

  /**
   * The local strategy's decision, given the user the lookup found: reject
   * when there is none or the password does not match; an error thrown by
   * the comparison is passed on.
   */
  function Decide(found: Option<User>, password: string, kdf: Kdf): (r: StrategyOutcome)
    ensures found.None? ==> r == Rejected
    ensures r.Accepted? ==> found == Some(r.user)
    ensures r.Errored? ==> found.Some? && ComparePasswords(password, found.value.password, kdf).Failure?
    ensures found.Some? && ComparePasswords(password, found.value.password, kdf).Failure? ==>
      r == Errored(ComparePasswords(password, found.value.password, kdf).error)
  {
    match found
    case None => Rejected
    case Some(user) =>
      match ComparePasswords(password, user.password, kdf)
      case Failure(e) => Errored(e)
      case Success(matches) => if matches then Accepted(user) else Rejected
  }

  /** The strategy accepts a user exactly when it was found and its stored hash matches. */
  lemma DecideAcceptsExactly(found: Option<User>, password: string, kdf: Kdf)
    ensures Decide(found, password, kdf).Accepted? <==>
      found.Some? && ComparePasswords(password, found.value.password, kdf) == Success(true)
    ensures Decide(found, password, kdf).Accepted? ==> Decide(found, password, kdf).user == found.value
    ensures found.None? ==> Decide(found, password, kdf) == Rejected
  {
  }

  /** A user whose stored hash was made from `password` is accepted with `password`. */
  lemma DecideAcceptsRegisteredPassword(user: User, password: string, salt: Salt, kdf: Kdf)
    requires user.password == HashPassword(password, salt, kdf)
    ensures Decide(Some(user), password, kdf) == Accepted(user)
  {
    CompareAcceptsOwnHash(password, salt, kdf);
  }

  /** A password scrypt maps to another key under the stored salt is rejected, without error. */
  lemma DecideRejectsWrongPassword(user: User, supplied: string, password: string, salt: Salt, kdf: Kdf)
    requires user.password == HashPassword(password, salt, kdf)
    requires kdf(supplied, Hex(salt)) != kdf(password, Hex(salt))
    ensures Decide(Some(user), supplied, kdf) == Rejected
  {
    CompareRefusesOtherKey(supplied, password, salt, kdf);
  }

  /** The local strategy: look the username up, then compare the password. */
  method LocalStrategy(store: Storage.MemStorage, username: string, password: string, kdf: Kdf)
    returns (outcome: StrategyOutcome)
    requires store.Valid()
    ensures outcome == Decide(Storage.FirstByUsername(JsMap.Values(store.users), username), password, kdf)
    ensures !Storage.HasUsername(store.users, username) ==> outcome == Rejected
    ensures outcome.Accepted? ==>
      outcome.user.username == username && outcome.user in store.users.entries.Values
  {
    var user := store.GetUserByUsername(username);
    outcome := Decide(user, password, kdf);
  }

  /** The session refers to a user the store holds. */
  ghost predicate Authenticated(users: JsMap.OrderedMap<User>, session: Session) {
    session.LoggedIn? && session.userId in users.entries
  }

  /** `deserializeUser`: the user under the session's id, if any. */
  method DeserializeUser(store: Storage.MemStorage, session: Session) returns (user: Option<User>)
    requires store.Valid()
    ensures user.Some? <==> Authenticated(store.users, session)
    ensures user.Some? ==> user.value == store.users.entries[session.userId] && user.value.id == session.userId
  {
    match session
    case Anonymous => user := None;
    case LoggedIn(id) => user := store.GetUser(id);
  }

  /**
   * The body fields besides username and password that end up in the stored
   * user: the TypeScript handler spreads the whole body into the record, where
   * the hashed `password` and then the store's `id` overwrite fields of the
   * same name; the JavaScript one passes the two named fields only.
   */
  function KeptFields(build: Build, body: AccountBody): (kept: map<string, string>)
    ensures "id" !in kept && "username" !in kept && "password" !in kept
    ensures forall k :: k in kept ==> k in body.extras && kept[k] == body.extras[k]
    ensures build == TypeScriptServer ==>
      forall k :: k in body.extras && k !in {"id", "username", "password"} ==> k in kept
    ensures build == JavaScriptServer ==> kept == map[]
  {
    match build
    case TypeScriptServer => body.extras - {"id", "username", "password"}
    case JavaScriptServer => map[]
  }

  /**
   * `POST /api/register`.  A taken username answers 400 and changes nothing;
   * otherwise exactly one user is created, holding the hash of the password
   * and not the password, the session logs it in, and the answer is 201 with
   * the stored record.  Usernames that were distinct stay distinct.
   */
  method Register(store: Storage.MemStorage, build: Build, session: Session, body: AccountBody, salt: Salt, kdf: Kdf)
    returns (resp: Response, session': Session)
    requires store.Valid()
    modifies store
    ensures store.Valid()
    ensures store.activities == old(store.activities)
    ensures Storage.HasUsername(old(store.users), body.username) ==>
      && resp == Response(400, MessageJson("Username already exists"))
      && store.users == old(store.users) && store.currentUserId == old(store.currentUserId)
      && session' == session
    ensures !Storage.HasUsername(old(store.users), body.username) ==>
      var user := User(old(store.currentUserId), body.username, HashPassword(body.password, salt, kdf),
        KeptFields(build, body));
      && store.users == JsMap.Set(old(store.users), user.id, user)
      && JsMap.Values(store.users) == JsMap.Values(old(store.users)) + [user]
      && store.currentUserId == old(store.currentUserId) + 1
      && resp == Response(201, UserJson(user))
      && session' == LoggedIn(user.id)
    ensures Storage.UniqueUsernames(old(store.users)) ==> Storage.UniqueUsernames(store.users)
  {
    var existing := store.GetUserByUsername(body.username);
    if existing.Some? {
      return Response(400, MessageJson("Username already exists")), session;
    }
    var hashed := HashPassword(body.password, salt, kdf);
    assert KeptFields(build, body) - {"id"} == KeptFields(build, body);
    ghost var before := store.users;
    var user := store.CreateUser(InsertUser(body.username, hashed, KeptFields(build, body)));
    if Storage.UniqueUsernames(before) {
      Storage.AddFreshUsernameKeepsUnique(before, user.id, user);
    }
    resp, session' := Response(201, UserJson(user)), LoggedIn(user.id);
  }

  /**
   * passport-local's own check before it calls the strategy: an empty (or
   * missing) username or password fails authentication at once.
   */
  predicate MissingCredentials(body: AccountBody) {
    body.username == "" || body.password == ""
  }

  /**
   * `POST /api/login`.  An empty username or password, an unknown username
   * and a wrong password all get the same answer, 401 "Invalid credentials",
   * and leave the session alone; an accepted user is logged in and answered
   * with its record.
   */
  method Login(store: Storage.MemStorage, session: Session, body: AccountBody, kdf: Kdf)
    returns (resp: Response, session': Session)
    requires store.Valid()
    ensures MissingCredentials(body) ==>
      resp == Response(401, MessageJson("Invalid credentials")) && session' == session
    ensures !MissingCredentials(body) ==>
      var outcome := Decide(Storage.FirstByUsername(JsMap.Values(store.users), body.username), body.password, kdf);
      match outcome
      case Rejected => resp == Response(401, MessageJson("Invalid credentials")) && session' == session
      case Errored(_) => resp == Response(500, ErrorPage) && session' == session
      case Accepted(user) => resp == Response(200, UserJson(user)) && session' == LoggedIn(user.id)
    ensures resp.status == 200 ==> Authenticated(store.users, session')
  {
    if MissingCredentials(body) {
      return Response(401, MessageJson("Invalid credentials")), session;
    }
    var outcome := LocalStrategy(store, body.username, body.password, kdf);
    match outcome
    case Rejected =>
      resp, session' := Response(401, MessageJson("Invalid credentials")), session;
    case Errored(_) =>
      resp, session' := Response(500, ErrorPage), session;
    case Accepted(user) =>
      resp, session' := Response(200, UserJson(user)), LoggedIn(user.id);
  }

  /** `POST /api/logout`: the session forgets the user; the answer is 200. */
  method Logout(session: Session) returns (resp: Response, session': Session)
    ensures resp == Response(200, StatusText)
    ensures session' == Anonymous
  {
    resp, session' := Response(200, StatusText), Anonymous;
  }

  /** `GET /api/user`: 401 without a logged-in user, else that user's record. */
  method CurrentUser(store: Storage.MemStorage, session: Session) returns (resp: Response)
    requires store.Valid()
    ensures !Authenticated(store.users, session) <==> resp == Response(401, StatusText)
    ensures Authenticated(store.users, session) ==>
      resp == Response(200, UserJson(store.users.entries[session.userId]))
  {
    var user := DeserializeUser(store, session);
    if user.None? {
      return Response(401, StatusText);
    }
    resp := Response(200, UserJson(user.value));
  }
}
