/** The authentication routes: registration, which checks for a user with the same
    email or username before it stores one, and login, which fails the same way for an
    unknown email and for a wrong password. The request validators, the password hash
    of the user model, `matchPassword` and the token signer are not part of this model;
    they are parameters here. */
module Auth {
  import opened Js
  import opened Models
  import opened Db

  datatype RegisterBody = RegisterBody(username: string, email: string, password: string)
  datatype LoginBody = LoginBody(email: string, password: string)

  /** The JSON reply of a successful register or login; it has no password field. */
  datatype AuthReply = AuthReply(id: Id, username: string, email: string, token: string)

  function UserEmail(u: User): string { u.email }

  /** The reply for a user, with a token signed over its id (`generateToken`). */
  function ReplyFor(u: User, sign: Id -> string): (r: AuthReply)
    ensures r.id == u.id && r.username == u.username && r.email == u.email
    ensures r.token == sign(u.id)
  {
    AuthReply(u.id, u.username, u.email, sign(u.id))
  }

  /** A user that shares the email or the username (`$or: [{ email }, { username }]`). */
  predicate Clashes(u: User, b: RegisterBody)
  {
    u.email == b.email || u.username == b.username
  }

  /** Some user clashes with the body. */
  predicate Taken(users: seq<User>, b: RegisterBody)
  {
    exists k :: 0 <= k < |users| && Clashes(users[k], b)
  }

  /** No two users share an email or a username. */
  ghost predicate UsersUnique(users: seq<User>)
  {
    forall i, j :: 0 <= i < j < |users| ==>
      users[i].email != users[j].email && users[i].username != users[j].username
  }

  // ---------------------------------------------------------------------------
  // POST /auth/register
  // ---------------------------------------------------------------------------

  method Register(store: Store, body: RegisterBody, validate: RegisterBody -> Option<string>,
                  hash: string -> string, sign: Id -> string, newId: Id, fault: Fault)
    returns (r: Response<AuthReply>)
    requires store.Valid()
    requires IndexOf(store.users, UserId, newId).None?
    modifies store
    ensures store.Valid()
    ensures store.posts == old(store.posts) && store.comments == old(store.comments)
    ensures store.categories == old(store.categories)
    ensures validate(body).Some? ==>
      r == Refused(400, validate(body).value) && store.users == old(store.users)
    ensures validate(body).None? && fault == FailLoad ==>
      r == ServerError && store.users == old(store.users)
    // a user with the same email OR the same username blocks the registration
    ensures validate(body).None? && fault != FailLoad && Taken(old(store.users), body) ==>
      r == Refused(400, "User already exists") && store.users == old(store.users)
    ensures validate(body).None? && fault != FailLoad && !Taken(old(store.users), body) ==>
      var user := User(newId, body.username, body.email, hash(body.password));
      && (fault == FailWrite ==> r == ServerError && store.users == old(store.users))
      && (fault != FailWrite ==>
            r == Ok(201, ReplyFor(user, sign)) && store.users == old(store.users) + [user])
    ensures UsersUnique(old(store.users)) ==> UsersUnique(store.users)
  {
    var error := validate(body);
    if error.Some? {
      return Refused(400, error.value);
    }
    if fault == FailLoad {
      return ServerError;
    }
    if exists k :: 0 <= k < |store.users| && Clashes(store.users[k], body) {
      return Refused(400, "User already exists");
    }
    if fault == FailWrite {
      return ServerError;
    }
    var user := User(newId, body.username, body.email, hash(body.password));
    AppendKeepsDistinct(store.users, UserId, user);
    store.users := store.users + [user];
    r := Ok(201, ReplyFor(user, sign));
  }

  // ---------------------------------------------------------------------------
  // POST /auth/login
  // ---------------------------------------------------------------------------

  /** POST /auth/login. `matches(u, p)` is `u.matchPassword(p)`; `findOne({ email })`
      takes the first user with that email. */
  function Login(users: seq<User>, body: LoginBody, validate: LoginBody -> Option<string>,
                 matches: (User, string) -> bool, sign: Id -> string, fault: Fault)
    : (r: Response<AuthReply>)
    ensures validate(body).Some? ==> r == Refused(400, validate(body).value)
    ensures validate(body).None? && fault == FailLoad ==> r == ServerError
    ensures validate(body).None? && fault != FailLoad ==>
      match IndexOf(users, UserEmail, body.email)
      case None => r == Refused(401, "Invalid email or password")
      case Some(i) =>
        r == if matches(users[i], body.password) then Ok(200, ReplyFor(users[i], sign))
             else Refused(401, "Invalid email or password")
    ensures r.Ok? ==> exists u :: u in users && u.email == body.email && r.body == ReplyFor(u, sign)
  {
    if validate(body).Some? then Refused(400, validate(body).value)
    else if fault == FailLoad then ServerError
    else
      match IndexOf(users, UserEmail, body.email)
      case None => Refused(401, "Invalid email or password")
      case Some(i) =>
        if matches(users[i], body.password) then Ok(200, ReplyFor(users[i], sign))
        else Refused(401, "Invalid email or password")
  }

  /** An unknown email and a wrong password for a known one get the same reply, so a
      client cannot tell which emails are registered. */
  lemma LoginFailureIsUniform(users: seq<User>, unknown: LoginBody, wrong: LoginBody,
                              validate: LoginBody -> Option<string>,
                              matches: (User, string) -> bool, sign: Id -> string)
    requires validate(unknown).None? && validate(wrong).None?
    requires forall u :: u in users ==> u.email != unknown.email
    requires exists u :: u in users && u.email == wrong.email
    requires forall u :: u in users && u.email == wrong.email ==> !matches(u, wrong.password)
    ensures Login(users, unknown, validate, matches, sign, NoFault)
         == Login(users, wrong, validate, matches, sign, NoFault)
         == Refused(401, "Invalid email or password")
  {
    var i := IndexOf(users, UserEmail, wrong.email);
    assert i.Some? by {
      var u :| u in users && u.email == wrong.email;
      var k :| 0 <= k < |users| && users[k] == u;
      assert UserEmail(users[k]) == wrong.email;
    }
    assert users[i.value] in users;
    assert IndexOf(users, UserEmail, unknown.email).None? by {
      forall k | 0 <= k < |users| ensures UserEmail(users[k]) != unknown.email {
        assert users[k] in users;
      }
    }
  }

  /** A payload the validator refuses is answered 400 whatever the users are: the
      validation comes before any lookup. */
  lemma InvalidLoginIgnoresUsers(users1: seq<User>, users2: seq<User>, body: LoginBody,
                                 validate: LoginBody -> Option<string>,
                                 matches: (User, string) -> bool, sign: Id -> string, fault: Fault)
    requires validate(body).Some?
    ensures Login(users1, body, validate, matches, sign, fault)
         == Login(users2, body, validate, matches, sign, fault)
  {
  }

  /** Registering and then logging in with the same email and password returns the new
      user's own id, username and email, when the password check accepts the password
      the user was registered with. */
  method RegisterThenLogin(store: Store, body: RegisterBody,
                           validateRegister: RegisterBody -> Option<string>,
                           validateLogin: LoginBody -> Option<string>,
                           hash: string -> string, matches: (User, string) -> bool,
                           sign: Id -> string, newId: Id)
    returns (registered: Response<AuthReply>, loggedIn: Response<AuthReply>)
    requires store.Valid() && IndexOf(store.users, UserId, newId).None?
    requires validateRegister(body).None? && !Taken(store.users, body)
    requires validateLogin(LoginBody(body.email, body.password)).None?
    requires matches(User(newId, body.username, body.email, hash(body.password)), body.password)
    modifies store
    ensures registered.Ok? && registered.status == 201
    ensures loggedIn == Ok(200, AuthReply(newId, body.username, body.email, sign(newId)))
  {
    registered := Register(store, body, validateRegister, hash, sign, newId, NoFault);
    ghost var user := User(newId, body.username, body.email, hash(body.password));
    assert store.users == old(store.users) + [user];
    assert IndexOf(old(store.users), UserEmail, UserEmail(user)).None? by {
      forall k | 0 <= k < |old(store.users)| ensures UserEmail(old(store.users)[k]) != body.email {
        assert !Clashes(old(store.users)[k], body);
      }
    }
    IndexOfAppended(old(store.users), UserEmail, user);
    loggedIn := Login(store.users, LoginBody(body.email, body.password), validateLogin, matches, sign, NoFault);
  }
}
