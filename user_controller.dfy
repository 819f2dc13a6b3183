/**
 * The user handlers of the API server: registering an account, logging in, and reading
 * the caller's profile. Password hashing, the password check and token signing are
 * library calls; they are parameters here (`hash`, `compare`, `sign`).
 */
module UserController {
  import opened Common
  import opened ServerTables

  /** `{ username, email, password }` of a registration body. */
  datatype RegisterBody = RegisterBody(username: Field<string>, email: Field<string>, password: Field<string>)

  /** `{ username, password }` of a login body. */
  datatype LoginBody = LoginBody(username: Field<string>, password: Field<string>)

  /** The `user` object sent with a token: the row without its password hash. */
  datatype PublicUser = PublicUser(id: string, username: string, email: string)

  /** `{ token, user }` as register and login send it. */
  datatype Session = Session(token: string, user: PublicUser)

  /** The `user` object getProfile sends: `id, username, email, created_at`. */
  datatype Profile = Profile(id: string, username: string, email: string, createdAt: int)

  const AllFieldsRequired: string := "All fields are required"
  const AlreadyExists: string := "Username or email already exists"
  const CredentialsRequired: string := "Username and password are required"
  const InvalidCredentials: string := "Invalid credentials"
  const UserNotFound: string := "User not found"

  // ---------------------------------------------------------------------------
  // register
  // ---------------------------------------------------------------------------

  /** `!username || !email || !password` fails. */
  predicate RegisterBodyValid(body: RegisterBody) {
    TruthyString(body.username) && TruthyString(body.email) && TruthyString(body.password)
  }

  /** `SELECT * FROM users WHERE username = ? OR email = ?` finds a row. */
  predicate Clashes(t: Tables, username: string, email: string) {
    HasKey(t.users, UsernameKey(), username) || HasKey(t.users, EmailKey(), email)
  }

  /** The row register inserts; `created_at` takes the column default, the time `now`. */
  function NewUserRow(body: RegisterBody, userId: string, now: int, hash: string -> string): UserRow
    requires RegisterBodyValid(body)
  {
    UserRow(userId, body.username.v, body.email.v, hash(body.password.v), now)
  }

  /** register as one step: validate, look for a clash, insert, sign a token for the new id.
      A generated id that is already taken violates the primary key, which answers 500. */
  function RegisterSpec(t: Tables, body: RegisterBody, userId: string, now: int, hash: string -> string,
                        sign: string -> string): Outcome<Session>
  {
    if !RegisterBodyValid(body) then Outcome(Failure(400, AllFieldsRequired), t)
    else if Clashes(t, body.username.v, body.email.v) then Outcome(Failure(409, AlreadyExists), t)
    else if UserExists(t, userId) then Outcome(Failure(500, ServerError), t)
    else
      Outcome(Success(201, Session(sign(userId), PublicUser(userId, body.username.v, body.email.v))),
              t.(users := t.users + [NewUserRow(body, userId, now, hash)]))
  }

  /** What register leaves behind. It answers 400 exactly when a field is absent, null or
      empty; 409 exactly when the fields are present but a user already has the username or
      the email. Nothing is written unless it succeeds, and it succeeds exactly when, besides,
      the new id is free; then it answers 201 with a token signed for the new id and the user
      without the password, and appends one row storing the hash of the password, never the
      password itself. The constraints are kept, so usernames and emails stay unique. */
  lemma RegisterOutcome(t: Tables, body: RegisterBody, userId: string, now: int, hash: string -> string,
                        sign: string -> string)
    ensures var o := RegisterSpec(t, body, userId, now, hash, sign);
      && (o.reply == Failure(400, AllFieldsRequired) <==>
            !TruthyString(body.username) || !TruthyString(body.email) || !TruthyString(body.password))
      && (o.reply == Failure(409, AlreadyExists) <==>
            RegisterBodyValid(body) && Clashes(t, body.username.v, body.email.v))
      && (o.reply.Failure? ==> o.tables == t)
      && (o.reply.Success? <==>
            RegisterBodyValid(body) && !Clashes(t, body.username.v, body.email.v) && !UserExists(t, userId))
      && (o.reply.Success? ==>
            && o.reply.status == 201
            && o.reply.value == Session(sign(userId), PublicUser(userId, body.username.v, body.email.v))
            && o.tables == t.(users := t.users + [UserRow(userId, body.username.v, body.email.v,
                                                          hash(body.password.v), now)]))
      && (WellFormed(t) ==> WellFormed(o.tables))
  {
    var o := RegisterSpec(t, body, userId, now, hash, sign);
    if o.reply.Success? && WellFormed(t) {
      InsertUserKeepsWellFormed(t, NewUserRow(body, userId, now, hash));
    }
  }

  /** A second registration with a taken username or email is refused with 409, whatever
      the other fields say. */
  lemma RegisterTwiceRefused(t: Tables, first: RegisterBody, second: RegisterBody, id1: string, id2: string,
                             now1: int, now2: int, hash: string -> string, sign: string -> string)
    requires RegisterSpec(t, first, id1, now1, hash, sign).reply.Success?
    requires RegisterBodyValid(second)
    requires second.username == first.username || second.email == first.email
    ensures RegisterSpec(RegisterSpec(t, first, id1, now1, hash, sign).tables, second, id2, now2, hash, sign).reply
            == Failure(409, AlreadyExists)
  {
    var t' := RegisterSpec(t, first, id1, now1, hash, sign).tables;
    var row := NewUserRow(first, id1, now1, hash);
    assert t'.users[|t.users|] == row;
    if second.username == first.username {
      assert UsernameKey()(t'.users[|t.users|]) == second.username.v;
    } else {
      assert EmailKey()(t'.users[|t.users|]) == second.email.v;
    }
  }

  // ---------------------------------------------------------------------------
  // login
  // ---------------------------------------------------------------------------

  /** `!username || !password` fails. */
  predicate LoginBodyValid(body: LoginBody) {
    TruthyString(body.username) && TruthyString(body.password)
  }

  /** `SELECT * FROM users WHERE username = ?`, first row. */
  function UserNamed(t: Tables, username: string): Option<UserRow> {
    Find(t.users, KeyIs(UsernameKey(), username))
  }

  /** login: validate, find the user by name, check the password against the stored hash,
      sign a token for the user's id (status 200). It changes no table. */
  function LoginSpec(t: Tables, body: LoginBody, compare: (string, string) -> bool, sign: string -> string)
    : Reply<Session>
  {
    if !LoginBodyValid(body) then Failure(400, CredentialsRequired)
    else
      var found := UserNamed(t, body.username.v);
      if found.None? then Failure(401, InvalidCredentials)
      else if !compare(body.password.v, found.value.password) then Failure(401, InvalidCredentials)
      else Success(200, Session(sign(found.value.id), PublicUser(found.value.id, found.value.username,
                                                                 found.value.email)))
  }

  /** What login answers. 400 exactly when the username or the password is absent, null or
      empty; otherwise it succeeds exactly when a user has that username and the password
      matches that user's stored hash, and then the token is signed for that user's id and
      the user sent is that row without its hash. Every other case is 401. */
  lemma LoginOutcome(t: Tables, body: LoginBody, compare: (string, string) -> bool, sign: string -> string)
    requires WellFormed(t)
    ensures var r := LoginSpec(t, body, compare, sign);
      && (r == Failure(400, CredentialsRequired) <==> !TruthyString(body.username) || !TruthyString(body.password))
      && (r.Success? <==>
            LoginBodyValid(body) &&
            exists k :: 0 <= k < |t.users| && t.users[k].username == body.username.v &&
                        compare(body.password.v, t.users[k].password))
      && (r.Success? ==> r.status == 200)
      && (r.Success? ==>
            forall k :: 0 <= k < |t.users| && t.users[k].username == body.username.v ==>
              r.value == Session(sign(t.users[k].id), PublicUser(t.users[k].id, t.users[k].username, t.users[k].email)))
      && (LoginBodyValid(body) && r.Failure? ==> r == Failure(401, InvalidCredentials))
  {
    var r := LoginSpec(t, body, compare, sign);
    if LoginBodyValid(body) {
      var name := body.username.v;
      forall k | 0 <= k < |t.users| && t.users[k].username == name
        ensures UserNamed(t, name) == Some(t.users[k])
      {
        FindByKey(t.users, UsernameKey(), name, k);
      }
      if UserNamed(t, name).Some? {
        var u := UserNamed(t, name).value;
        var k :| 0 <= k < |t.users| && t.users[k] == u;
        assert KeyIs(UsernameKey(), name)(u);
        assert t.users[k].username == name;
      }
    }
  }

  /** An unknown username and a wrong password get the same answer, so a reply never tells
      which usernames exist. */
  lemma LoginFailuresAlike(t: Tables, name: string, password: string, compare: (string, string) -> bool,
                           sign: string -> string, other: string)
    requires name != "" && password != ""
    requires !HasKey(t.users, UsernameKey(), name)
    requires UserNamed(t, other).Some? && !compare(password, UserNamed(t, other).value.password) && other != ""
    ensures LoginSpec(t, LoginBody(Val(name), Val(password)), compare, sign)
         == LoginSpec(t, LoginBody(Val(other), Val(password)), compare, sign)
  {
    assert UserNamed(t, name).None?;
  }

  /** After a successful registration, logging in with the same username and password
      succeeds as the new user, provided the password check accepts a password against its
      own hash. */
  lemma RegisterThenLogin(t: Tables, body: RegisterBody, userId: string, now: int, hash: string -> string,
                          sign: string -> string, compare: (string, string) -> bool)
    requires WellFormed(t)
    requires RegisterSpec(t, body, userId, now, hash, sign).reply.Success?
    requires compare(body.password.v, hash(body.password.v))
    ensures LoginSpec(RegisterSpec(t, body, userId, now, hash, sign).tables,
                      LoginBody(body.username, body.password), compare, sign)
         == Success(200, Session(sign(userId), PublicUser(userId, body.username.v, body.email.v)))
  {
    var t' := RegisterSpec(t, body, userId, now, hash, sign).tables;
    RegisterOutcome(t, body, userId, now, hash, sign);
    assert t'.users[|t.users|] == NewUserRow(body, userId, now, hash);
    FindByKey(t'.users, UsernameKey(), body.username.v, |t.users|);
  }

  // ---------------------------------------------------------------------------
  // getProfile
  // ---------------------------------------------------------------------------

  /** getProfile for the caller `userId` (taken from the verified token): the user's row
      without the hash (status 200), or 404. */
  function GetProfile(t: Tables, userId: string): Reply<Profile> {
    var found := Find(t.users, KeyIs(UserKey(), userId));
    if found.None? then Failure(404, UserNotFound)
    else Success(200, Profile(found.value.id, found.value.username, found.value.email, found.value.createdAt))
  }

  /** getProfile answers 404 exactly when no user has the id; otherwise 200 with that user's
      id, username, email and creation time. */
  lemma GetProfileResult(t: Tables, userId: string)
    requires WellFormed(t)
    ensures GetProfile(t, userId) == Failure(404, UserNotFound) <==> !UserExists(t, userId)
    ensures forall k :: 0 <= k < |t.users| && t.users[k].id == userId ==>
      GetProfile(t, userId) == Success(200, Profile(userId, t.users[k].username, t.users[k].email, t.users[k].createdAt))
  {
    forall k | 0 <= k < |t.users| && t.users[k].id == userId
      ensures Find(t.users, KeyIs(UserKey(), userId)) == Some(t.users[k])
    {
      FindByKey(t.users, UserKey(), userId, k);
    }
    if !UserExists(t, userId) {
      forall k | 0 <= k < |t.users| ensures !KeyIs(UserKey(), userId)(t.users[k]) {
      }
    }
  }

  /** After a successful registration the new user's profile is the registered username and
      email, created at the registration time. */
  lemma RegisterThenProfile(t: Tables, body: RegisterBody, userId: string, now: int, hash: string -> string,
                            sign: string -> string)
    requires WellFormed(t)
    requires RegisterSpec(t, body, userId, now, hash, sign).reply.Success?
    ensures GetProfile(RegisterSpec(t, body, userId, now, hash, sign).tables, userId)
         == Success(200, Profile(userId, body.username.v, body.email.v, now))
  {
    var t' := RegisterSpec(t, body, userId, now, hash, sign).tables;
    RegisterOutcome(t, body, userId, now, hash, sign);
    assert t'.users[|t.users|] == NewUserRow(body, userId, now, hash);
    FindByKey(t'.users, UserKey(), userId, |t.users|);
  }

  /** register: validate, look for a clash, insert the row, answer with a signed token. */
  method Register(db: Database, body: RegisterBody, userId: string, now: int, hash: string -> string,
                  sign: string -> string) returns (reply: Reply<Session>)
    modifies db
    ensures Outcome(reply, db.Snapshot()) == RegisterSpec(old(db.Snapshot()), body, userId, now, hash, sign)
  {
    if !RegisterBodyValid(body) {
      return Failure(400, AllFieldsRequired);
    }
    if Clashes(db.Snapshot(), body.username.v, body.email.v) {
      return Failure(409, AlreadyExists);
    }
    if UserExists(db.Snapshot(), userId) {
      return Failure(500, ServerError);
    }
    db.users := db.users + [NewUserRow(body, userId, now, hash)];
    reply := Success(201, Session(sign(userId), PublicUser(userId, body.username.v, body.email.v)));
  }
}
