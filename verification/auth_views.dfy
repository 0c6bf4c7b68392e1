/** LoginView and the registration view. Sessions (`django_login`) are not
    modelled; the token table is. */
module AuthViews {
  import opened Wrappers
  import opened Tables
  import opened Responses
  import opened Fields
  import opened Models
  import opened Serializers

  /** The `data` object of a successful login. */
  datatype LoginData = LoginData(
    token: string,
    id: nat,
    username: string,
    firstName: string,
    lastName: string,
    email: string,
    isActive: bool,
    isAuthors: bool,
    birthday: Option<string>,
    avatar: Option<string>,
    bio: Option<string>)

  /** The key DRF files a `validate()` error under. */
  const NON_FIELD_ERRORS: string := "non_field_errors"

  function LoginRefusal(e: LoginError): seq<FieldError>
  {
    [FieldError(NON_FIELD_ERRORS, [Rule(LoginErrorText(e))])]
  }

  /** The role message LoginView computes. It is never sent: the reply always
      says "You are logged in now...". */
  function RoleMessage(u: User): (m: string)
    ensures m == "You are logged in as author" <==> u.isAuthors
    ensures m == "You are logged in as visitor" <==> !u.isAuthors
  {
    if u.isAuthors then "You are logged in as author" else "You are logged in as visitor"
  }

  /** `Token.objects.get_or_create(user=user)`: the user's token, or a new one
      with key `freshKey` when there is none. */
  function TokenFor(tokens: map<nat, string>, user: nat, freshKey: string): (r: map<nat, string>)
    ensures user in r && r.Keys == tokens.Keys + {user}
    ensures user in tokens ==> r == tokens
    ensures user !in tokens ==> r[user] == freshKey
    ensures forall u :: u in tokens ==> u in r && r[u] == tokens[u]
  {
    if user in tokens then tokens else tokens[user := freshKey]
  }

  /** POST on LoginView with the request's `username` and `password`. Field
      validation raises first (a 400 with the field errors), then
      `validate()` (a 400 under `non_field_errors`). The token is written
      before the profile is read, so a user without a profile gets a 500
      and keeps the new token. */
  function Login(db: Db, authenticate: (string, string) -> Option<nat>, freshKey: string,
                 username: Input<string>, password: Input<string>): (x: Exchange<Db, LoginData>)
    requires Authenticator(db.users, authenticate)
    ensures x.state == db.(tokens := x.state.tokens)
    ensures db.tokens.Keys <= x.state.tokens.Keys <= db.tokens.Keys + db.users.rows.Keys
    ensures forall u :: u in db.tokens ==> x.state.tokens[u] == db.tokens[u]
    ensures x.reply.Envelope? <==>
      && CharField(username, false, None, NoCheck, NoCheck).Success?
      && CharField(password, false, None, NoCheck, NoCheck).Success?
      && var v := LoginValidate(db.users, authenticate, Strip(username.value), Strip(password.value));
      && v.Success? && ProfileOf(db.profiles, v.value).Some?
    ensures x.reply.Envelope? ==>
      var uid := authenticate(Strip(username.value), Strip(password.value)).value;
      && x.reply.status == OK && x.reply.message == LoggedIn && x.reply.data.Item?
      && x.reply.data.item.id == uid
      && x.state.tokens == TokenFor(db.tokens, uid, freshKey)
      && x.reply.data.item.token == x.state.tokens[uid]
      && var user := db.users.rows[uid];
      && var profile := db.profiles.rows[ProfileOf(db.profiles, uid).value];
      && x.reply.data.item.username == user.username
      && x.reply.data.item.firstName == user.firstName && x.reply.data.item.lastName == user.lastName
      && x.reply.data.item.email == user.email
      && x.reply.data.item.isActive == user.isActive && x.reply.data.item.isAuthors == user.isAuthors
      && x.reply.data.item.birthday == profile.birth && x.reply.data.item.avatar == profile.avatar
      && x.reply.data.item.bio == profile.bio
    ensures CharField(username, false, None, NoCheck, NoCheck).Failure? || CharField(password, false, None, NoCheck, NoCheck).Failure? ==>
      x.state == db && x.reply.Bare? && x.reply.status == BAD_REQUEST
    ensures x.reply.Bare? ==> x.state == db && x.reply.status == BAD_REQUEST
  {
    var u := CharField(username, false, None, NoCheck, NoCheck);
    var p := CharField(password, false, None, NoCheck, NoCheck);
    var errors := ErrorsOf("username", u) + ErrorsOf("password", p);
    if errors != [] then Exchange(Bare(BAD_REQUEST, errors), db)
    else
      match LoginValidate(db.users, authenticate, u.value, p.value)
      case Failure(e) => Exchange(Bare(BAD_REQUEST, LoginRefusal(e)), db)
      case Success(uid) =>
        var s := db.(tokens := TokenFor(db.tokens, uid, freshKey));
        match ProfileOf(db.profiles, uid)
        case None => Exchange(ServerError, s)
        case Some(pid) =>
          var user := db.users.rows[uid];
          var profile := db.profiles.rows[pid];
          var data := LoginData(s.tokens[uid], uid, user.username, user.firstName, user.lastName, user.email,
                                user.isActive, user.isAuthors, profile.birth, profile.avatar, profile.bio);
          Exchange(Envelope(OK, LoggedIn, Item(data)), s)
  }

  /** How a login request can end, besides success. */
  lemma {:induction false} LoginRefusals(db: Db, authenticate: (string, string) -> Option<nat>, freshKey: string,
                                         username: string, password: string)
    requires Authenticator(db.users, authenticate)
    requires Strip(username) != [] && Strip(password) != [] && '\0' !in Strip(username) && '\0' !in Strip(password)
    ensures var x := Login(db, authenticate, freshKey, Given(username), Given(password));
      var a := authenticate(Strip(username), Strip(password));
      && (a.None? ==> x.reply == Bare(BAD_REQUEST, LoginRefusal(BadCredentials)))
      && (a.Some? && !CanLogIn(db.users.rows[a.value]) ==> x.reply == Bare(BAD_REQUEST, LoginRefusal(Deactivated)))
      && (a.Some? && CanLogIn(db.users.rows[a.value]) && ProfileOf(db.profiles, a.value).None? ==> x.reply == ServerError)
  {
    assert Acceptable(Strip(username), None, NoCheck, NoCheck) && Acceptable(Strip(password), None, NoCheck, NoCheck);
  }

  /** "Must provide username and password both" never reaches a client:
      blank or missing credentials are refused by the field validation
      first. */
  lemma {:induction false} MissingBothUnreachable(db: Db, authenticate: (string, string) -> Option<nat>, freshKey: string,
                                                  username: Input<string>, password: Input<string>)
    requires Authenticator(db.users, authenticate)
    ensures Login(db, authenticate, freshKey, username, password).reply != Bare(BAD_REQUEST, LoginRefusal(MissingCredentials))
  {
    var u := CharField(username, false, None, NoCheck, NoCheck);
    var p := CharField(password, false, None, NoCheck, NoCheck);
    var errors := ErrorsOf("username", u) + ErrorsOf("password", p);
    if errors != [] {
      if u.Failure? {
        assert errors[0].field == "username";
      } else {
        assert errors[0].field == "password";
      }
    }
  }

  /** Logging in again returns the same token and changes nothing more. */
  lemma {:induction false} RepeatLoginSameToken(db: Db, authenticate: (string, string) -> Option<nat>,
                                                key1: string, key2: string, username: Input<string>, password: Input<string>)
    requires Authenticator(db.users, authenticate)
    requires Login(db, authenticate, key1, username, password).reply.Envelope?
    ensures var x := Login(db, authenticate, key1, username, password);
      var y := Login(x.state, authenticate, key2, username, password);
      y == x
  {
    var x := Login(db, authenticate, key1, username, password);
    var uid := x.reply.data.item.id;
    assert uid in x.state.tokens;
    assert ProfileOf(x.state.profiles, uid) == ProfileOf(db.profiles, uid);
  }

  /** A login keeps the database consistent: a token only goes to a user. */
  lemma {:induction false} LoginKeepsConsistent(db: Db, authenticate: (string, string) -> Option<nat>, freshKey: string,
                                                username: Input<string>, password: Input<string>)
    requires Consistent(db)
    requires Authenticator(db.users, authenticate)
    ensures Consistent(Login(db, authenticate, freshKey, username, password).state)
  {
    TokensChangeKeepsConsistent(db, Login(db, authenticate, freshKey, username, password).state);
  }

  lemma {:induction false} TokensChangeKeepsConsistent(db: Db, s: Db)
    requires Consistent(db)
    requires s == db.(tokens := s.tokens)
    requires s.tokens.Keys <= db.users.rows.Keys + db.tokens.Keys
    ensures Consistent(s)
  {
    assert forall k :: Catalog(s, k) == Catalog(db, k);
    assert LinksExist(s) && CatalogsValid(s) && RatingsValid(s) && ProfilesValid(s) && FilmsValid(s);
  }

  // ---------------------------------------------------------------------------
  // Registration

  /** POST on the registration view, as written: `save()` runs the `create`
      that drops `is_visitors`, so every account it registers and shows has
      it false. */
  function Register(db: Db, checks: Checks, input: RegisterInput): (x: Exchange<Db, RegisteredUser>)
    requires ProfilesValid(db)
    ensures RegisterFields(db.users, checks, input).Failure? ==>
      x == Exchange(Envelope(BAD_REQUEST, RegisterFailed, Errors(RegisterFields(db.users, checks, input).error)), db)
    ensures RegisterFields(db.users, checks, input).Success? ==> x == Submit(db, RegisterFields(db.users, checks, input).value, false)
    ensures x.reply.Envelope? && x.reply.status == CREATED ==> x.reply.data.Item? && !x.reply.data.item.isVisitors
  {
    match RegisterFields(db.users, checks, input)
    case Failure(errors) => Exchange(Envelope(BAD_REQUEST, RegisterFailed, Errors(errors)), db)
    case Success(a) => Submit(db, a, false)
  }

  /** The registration view with the corrected `create`: `is_visitors` is
      stored as the request gave it. */
  function RegisterCorrected(db: Db, checks: Checks, input: RegisterInput): (x: Exchange<Db, RegisteredUser>)
    requires ProfilesValid(db)
    ensures RegisterFields(db.users, checks, input).Failure? ==>
      x == Exchange(Envelope(BAD_REQUEST, RegisterFailed, Errors(RegisterFields(db.users, checks, input).error)), db)
    ensures RegisterFields(db.users, checks, input).Success? ==>
      var a := RegisterFields(db.users, checks, input).value;
      x == Submit(db, a, a.isVisitors == Some(true))
    ensures x.reply.Envelope? && x.reply.status == CREATED ==>
      x.reply.data.Item? && (x.reply.data.item.isVisitors <==> input.isVisitors == Given(true))
  {
    match RegisterFields(db.users, checks, input)
    case Failure(errors) => Exchange(Envelope(BAD_REQUEST, RegisterFailed, Errors(errors)), db)
    case Success(a) => Submit(db, a, a.isVisitors == Some(true))
  }

  /** The registration view once the fields have validated: `validate()`,
      then `save()`, which stores `visitors` as `is_visitors`. */
  function Submit(db: Db, a: RegisterAttrs, visitors: bool): (x: Exchange<Db, RegisteredUser>)
    requires ProfilesValid(db)
    ensures RegisterValidate(a).Failure? ==>
      x == Exchange(Envelope(BAD_REQUEST, RegisterFailed, Errors([RegisterValidate(a).error])), db)
    ensures x.reply.Envelope? && x.reply.status == CREATED <==>
      RegisterValidate(a).Success? && a.isActive.Some? && a.isAuthors.Some?
    ensures RegisterValidate(a).Success? && (a.isActive.None? || a.isAuthors.None?) ==> x == Exchange(ServerError, db)
    ensures x.reply.Envelope? && x.reply.status == CREATED ==>
      && CreateAccount(db, a, visitors).Success?
      && x.state == CreateAccount(db, a, visitors).value.0
      && x.reply == Envelope(CREATED, Registered, Item(ShowUser(AccountFor(a, visitors))))
  {
    match RegisterValidate(a)
    case Failure(e) => Exchange(Envelope(BAD_REQUEST, RegisterFailed, Errors([e])), db)
    case Success(_) =>
      match CreateAccount(db, a, visitors)
      case Failure(_) => Exchange(ServerError, db)
      case Success((d, uid)) => Exchange(Envelope(CREATED, Registered, Item(ShowUser(d.users.rows[uid]))), d)
  }

  /** Registration keeps the database consistent: the username is new, and
      the new user has exactly one profile. */
  lemma {:induction false} RegisterKeepsConsistent(db: Db, checks: Checks, input: RegisterInput)
    requires Consistent(db)
    ensures Consistent(Register(db, checks, input).state)
    ensures Consistent(RegisterCorrected(db, checks, input).state)
  {
    if RegisterFields(db.users, checks, input).Success? {
      var a := RegisterFields(db.users, checks, input).value;
      SubmitKeepsConsistent(db, a, false);
      SubmitKeepsConsistent(db, a, a.isVisitors == Some(true));
    }
  }

  lemma {:induction false} SubmitKeepsConsistent(db: Db, a: RegisterAttrs, visitors: bool)
    requires Consistent(db)
    requires !UsernameTaken(db.users, a.username)
    ensures Consistent(Submit(db, a, visitors).state)
  {
    var x := Submit(db, a, visitors);
    if x.reply.Envelope? && x.reply.status == CREATED {
      var (d, uid) := CreateAccount(db, a, visitors).value;
      RegisteredKeepsConsistent(db, d, uid, AccountFor(a, visitors));
    }
  }

  lemma {:induction false} RegisteredKeepsConsistent(db: Db, d: Db, uid: nat, u: User)
    requires Consistent(db)
    requires AccountAdded(db, d, uid, u)
    requires !UsernameTaken(db.users, u.username)
    ensures Consistent(d)
  {
    var pid: nat :| pid !in db.profiles.rows && d.profiles.rows == db.profiles.rows[pid := NewProfile(uid, Some(uid))];
    NewUsernameKeepsUnique(db.users, d.users, uid, u);
    NewProfileKeepsOneEach(db.profiles, d.profiles, pid, uid);
    NewAccountKeepsRest(db, d, uid, u, pid);
  }

  lemma {:induction false} NewAccountKeepsRest(db: Db, d: Db, uid: nat, u: User, pid: nat)
    requires Consistent(db)
    requires uid !in db.users.rows && d.users.rows == db.users.rows[uid := u]
    requires pid !in db.profiles.rows && d.profiles.rows == db.profiles.rows[pid := NewProfile(uid, Some(uid))]
    requires d.films == db.films && d.ratings == db.ratings && d.tokens == db.tokens
    requires forall k :: Catalog(d, k) == Catalog(db, k)
    ensures ProfilesValid(d) && LinksExist(d) && CatalogsValid(d) && RatingsValid(d) && FilmsValid(d)
    ensures PairUnique(d.ratings) && d.tokens.Keys <= d.users.rows.Keys
  {
  }

  lemma {:induction false} NewUsernameKeepsUnique(t: Table<User>, t': Table<User>, uid: nat, u: User)
    requires UsernamesUnique(t)
    requires uid !in t.rows && t'.rows == t.rows[uid := u]
    requires !UsernameTaken(t, u.username)
    ensures UsernamesUnique(t')
  {
    forall a, b | a in t'.rows && b in t'.rows && a != b
      ensures t'.rows[a].username != t'.rows[b].username
    {
      if a == uid {
        assert t'.rows[b] == t.rows[b];
      } else if b == uid {
        assert t'.rows[a] == t.rows[a];
      }
    }
  }

  lemma {:induction false} NewProfileKeepsOneEach(t: Table<Profile>, t': Table<Profile>, pid: nat, uid: nat)
    requires OneProfileEach(t) && ProfileOf(t, uid).None?
    requires pid !in t.rows && t'.rows == t.rows[pid := NewProfile(uid, Some(uid))]
    ensures OneProfileEach(t')
  {
    forall a, b | a in t'.rows && b in t'.rows && a != b
      ensures t'.rows[a].user != t'.rows[b].user
    {
      if a == pid {
        assert t.rows[b].user != uid;
      } else if b == pid {
        assert t.rows[a].user != uid;
      }
    }
  }

  // ---------------------------------------------------------------------------
  // The dropped `is_visitors`

  /** As written, a visitor who registers (active, not an author) gets an
      account that login refuses as deactivated, whatever `authenticate`
      makes of the credentials. */
  lemma {:induction false} VisitorRegistrationLocksOut(db: Db, a: RegisterAttrs, authenticate: (string, string) -> Option<nat>)
    requires ProfilesValid(db)
    requires a.isActive == Some(true) && a.isAuthors == Some(false) && a.isVisitors == Some(true)
    requires RegisterValidate(a).Success? && a.username != [] && a.password1 != []
    requires RegisterCreateAsWritten(db, a).Success?
    requires Authenticator(RegisterCreateAsWritten(db, a).value.0.users, authenticate)
    requires authenticate(a.username, a.password1) == Some(RegisterCreateAsWritten(db, a).value.1)
    ensures LoginValidate(RegisterCreateAsWritten(db, a).value.0.users, authenticate, a.username, a.password1)
      == Failure(Deactivated)
  {
    var (d, uid) := RegisterCreateAsWritten(db, a).value;
    assert d.users.rows[uid] == AccountFor(a, false);
  }

  /** With `is_visitors` stored, the same visitor can log in through the view
      right after registering through the corrected registration view. */
  lemma {:induction false} RegisteredVisitorCanLogIn(db: Db, checks: Checks, input: RegisterInput, a: RegisterAttrs,
                                                     authenticate: (string, string) -> Option<nat>, freshKey: string)
    requires ProfilesValid(db)
    requires input.isActive == Given(true) && input.isVisitors == Given(true)
    requires RegisterFields(db.users, checks, input) == Success(a)
    requires RegisterCorrected(db, checks, input).reply.Envelope? && RegisterCorrected(db, checks, input).reply.status == CREATED
    requires Authenticator(RegisterCorrected(db, checks, input).state.users, authenticate)
    requires authenticate(Strip(input.username.value), Strip(input.password1.value)) == Some(RegisterCreate(db, a).value.1)
    ensures Login(RegisterCorrected(db, checks, input).state, authenticate, freshKey, input.username, input.password1).reply.Envelope?
  {
    var (d, uid) := RegisterCreate(db, a).value;
    assert RegisterCorrected(db, checks, input).state == d;
    assert d.users.rows[uid] == AccountFor(a, true);
    assert CanLogIn(d.users.rows[uid]);
    assert Acceptable(a.username, None, NoCheck, NoCheck) && Acceptable(a.password1, None, NoCheck, NoCheck);
    StripIdempotent(input.username.value);
    StripIdempotent(input.password1.value);
  }
}
