/**
 * Registration, login, logout and the per-request user lookup of the authentication
 * blueprint. The users collection is a `Collection<UserData>`, the signed session cookie a
 * `Session` object, and password hashing and checking are the parameters `hash` and `check`.
 */
module Auth {
  import opened Wrappers
  import opened DocumentStore
  import opened Web

  type Hash = string

  /** A user document: the login, the password hash, and two timestamps. */
  datatype UserData = UserData(login: string, password: Hash, registration: Time, lastAccess: Time)

  type UserDoc = Doc<UserData>

  /** The inclusive `(min, max)` bounds `LOGIN_LENGTH` and `PASSWORD_LENGTH`. */
  datatype Config = Config(loginLength: (int, int), passwordLength: (int, int))

  const RegisterTemplate := "auth/register.html.jinja"
  const LoginTemplate := "auth/login.html.jinja"
  const UserIdKey := "user_id"

  /** The signed session cookie's contents. */
  class Session {
    var data: map<string, Oid>

    constructor ()
      ensures data == map[]
    {
      data := map[];
    }
  }

  // ---------------------------------------------------------------------------------------
  // Registration

  /** The registration failures, in the order the handler tests them. */
  datatype RegisterError =
    | EmptyLogin
    | EmptyPassword
    | BadLoginLength
    | BadPasswordLength
    | LoginTaken
    | InternalError

  function Rank(e: RegisterError): nat {
    match e
    case EmptyLogin => 0
    case EmptyPassword => 1
    case BadLoginLength => 2
    case BadPasswordLength => 3
    case LoginTaken => 4
    case InternalError => 5
  }

  predicate InBounds(n: int, bounds: (int, int)) {
    bounds.0 <= n <= bounds.1
  }

  /** When each validation check, taken on its own, fails. */
  predicate Fails(e: RegisterError, name: string, pw: string, config: Config, docs: seq<UserDoc>) {
    match e
    case EmptyLogin => name == ""
    case EmptyPassword => pw == ""
    case BadLoginLength => !InBounds(|name|, config.loginLength)
    case BadPasswordLength => !InBounds(|pw|, config.passwordLength)
    case LoginTaken => exists j :: 0 <= j < |docs| && docs[j].body.login == name
    case InternalError => false
  }

  function LoginIs(name: string): UserData -> bool {
    (u: UserData) => u.login == name
  }

  /**
   * The validation chain of `register`: it reports exactly the first check, in `Rank` order,
   * that fails, and nothing when none does.
   */
  function Validate(name: string, pw: string, config: Config, docs: seq<UserDoc>): (r: Option<RegisterError>)
    ensures r.Some? ==> Fails(r.value, name, pw, config, docs)
    ensures r.Some? ==> forall e :: Rank(e) < Rank(r.value) ==> !Fails(e, name, pw, config, docs)
    ensures r.None? ==> forall e :: !Fails(e, name, pw, config, docs)
  {
    if name == "" then Some(EmptyLogin)
    else if pw == "" then Some(EmptyPassword)
    else if !InBounds(|name|, config.loginLength) then Some(BadLoginLength)
    else if !InBounds(|pw|, config.passwordLength) then Some(BadPasswordLength)
    else if FindOne(docs, OnBody(LoginIs(name))).Some? then Some(LoginTaken)
    else None
  }

  /**
   * Both length bounds are inclusive: a login and a password whose lengths sit on either end
   * of their ranges get past the two length checks.
   */
  lemma LengthBoundsInclusive(name: string, pw: string, config: Config, docs: seq<UserDoc>)
    requires name != "" && pw != ""
    requires |name| == config.loginLength.0 <= config.loginLength.1 || config.loginLength.0 <= config.loginLength.1 == |name|
    requires |pw| == config.passwordLength.0 <= config.passwordLength.1 || config.passwordLength.0 <= config.passwordLength.1 == |pw|
    ensures Validate(name, pw, config, docs) == None || Validate(name, pw, config, docs) == Some(LoginTaken)
  {
    var r := Validate(name, pw, config, docs);
    if r.Some? {
      assert Rank(r.value) >= 4 by {
        assert !Fails(EmptyLogin, name, pw, config, docs) && !Fails(EmptyPassword, name, pw, config, docs);
        assert !Fails(BadLoginLength, name, pw, config, docs) && !Fails(BadPasswordLength, name, pw, config, docs);
      }
    }
  }

  /** Python's `str(n)` for an integer: a minus sign exactly for a negative number. */
  function IntToString(n: int): (r: string)
    ensures |r| > 0 && (r[0] == '-' <==> n < 0)
  {
    if n < 0 then "-" + NatToString(-n) else NatToString(n)
  }

  /** Python's `int(s)` for a string that `str` produced. */
  function ParseInt(s: string): int {
    if |s| > 0 && s[0] == '-' then -DigitsValue(s[1..]) else DigitsValue(s)
  }

  /** `str` loses nothing: parsing the text back gives the number, sign included. */
  lemma IntToStringRoundTrip(n: int)
    ensures ParseInt(IntToString(n)) == n
  {
    if n < 0 {
      assert ("-" + NatToString(-n))[1..] == NatToString(-n);
      NatToStringRoundTrip(-n);
    } else {
      NatToStringRoundTrip(n);
    }
  }

  /** Python's `str(n)` for a natural number: decimal digits, no leading zero. */
  function NatToString(n: nat): (r: string)
    ensures |r| > 0 && (r[0] == '0' ==> n == 0)
    ensures forall k :: 0 <= k < |r| ==> '0' <= r[k] <= '9'
    decreases n
  {
    var digit := [Digit(n % 10)];
    if n < 10 then digit else NatToString(n / 10) + digit
  }

  function Digit(d: nat): (c: char)
    requires d < 10
    ensures '0' <= c <= '9' && c as int - '0' as int == d
  {
    (d + '0' as int) as char
  }

  /** The number a string of decimal digits denotes. */
  function DigitsValue(s: string): int {
    if s == [] then 0 else 10 * DigitsValue(s[..|s| - 1]) + (s[|s| - 1] as int - '0' as int)
  }

  /** Reading the decimal text back gives the number. */
  lemma {:induction false} NatToStringRoundTrip(n: nat)
    ensures DigitsValue(NatToString(n)) == n
  {
    if n >= 10 {
      NatToStringRoundTrip(n / 10);
      var s := NatToString(n);
      assert s[..|s| - 1] == NatToString(n / 10);
    }
  }

  /**
   * The message the handler flashes for each failure; the length messages give both bounds
   * in decimal.
   */
  function Message(e: RegisterError, config: Config): (m: string)
    ensures e.BadLoginLength? ==>
      m == LoginLengthPrefix + (IntToString(config.loginLength.0) + " and " + IntToString(config.loginLength.1) + ".")
    ensures e.BadPasswordLength? ==>
      m == PasswordLengthPrefix + (IntToString(config.passwordLength.0) + " and " + IntToString(config.passwordLength.1) + ".")
    ensures e.LoginTaken? ==> m == "This login is already registered"
  {
    match e
    case EmptyLogin => "Login is required"
    case EmptyPassword => "Password is required"
    case BadLoginLength =>
      LoginLengthPrefix + (IntToString(config.loginLength.0) + " and " + IntToString(config.loginLength.1) + ".")
    case BadPasswordLength =>
      PasswordLengthPrefix + (IntToString(config.passwordLength.0) + " and " + IntToString(config.passwordLength.1) + ".")
    case LoginTaken => "This login is already registered"
    case InternalError => InternalErrorMessage
  }

  const LoginLengthPrefix := "Invalid login length. Must be between "
  const PasswordLengthPrefix := "Invalid password length. Must be between "
  const InternalErrorMessage := "Internal registration error. " + "Please inform administrator"

  /** Each failure is reported with a text of its own. */
  lemma MessagesDistinct(e1: RegisterError, e2: RegisterError, config: Config)
    requires e1 != e2
    ensures Message(e1, config) != Message(e2, config)
  {
    MessageMarks(e1, config);
    MessageMarks(e2, config);
  }

  /** Three characters that already tell the messages apart. */
  function Marks(e: RegisterError): (char, char, char) {
    match e
    case EmptyLogin => ('L', 'g', ' ')
    case EmptyPassword => ('P', 's', ' ')
    case BadLoginLength => ('I', 'v', 'l')
    case BadPasswordLength => ('I', 'v', 'p')
    case LoginTaken => ('T', 'i', 'i')
    case InternalError => ('I', 't', ' ')
  }

  lemma MessageMarks(e: RegisterError, config: Config)
    ensures var m := Message(e, config); |m| > 8 && (m[0], m[2], m[8]) == Marks(e)
  {
    match e
    case BadLoginLength =>
      PrefixMarks(LoginLengthPrefix,
        IntToString(config.loginLength.0) + " and " + IntToString(config.loginLength.1) + ".");
    case BadPasswordLength =>
      PrefixMarks(PasswordLengthPrefix,
        IntToString(config.passwordLength.0) + " and " + IntToString(config.passwordLength.1) + ".");
    case _ =>
      FixedMessageMarks();
  }

  lemma FixedMessageMarks()
    ensures var m := "Login is required"; |m| > 8 && (m[0], m[2], m[8]) == Marks(EmptyLogin)
    ensures var m := "Password is required"; |m| > 8 && (m[0], m[2], m[8]) == Marks(EmptyPassword)
    ensures var m := "This login is already registered"; |m| > 8 && (m[0], m[2], m[8]) == Marks(LoginTaken)
    ensures var m := InternalErrorMessage; |m| > 8 && (m[0], m[2], m[8]) == Marks(InternalError)
  {
  }

  lemma PrefixMarks(prefix: string, rest: string)
    requires |prefix| > 8
    ensures var m := prefix + rest; |m| > 8 && m[0] == prefix[0] && m[2] == prefix[2] && m[8] == prefix[8]
  {
  }

  /** The document a successful registration inserts. */
  function NewUser(name: string, pw: string, hash: string -> Hash, now: Time): (u: UserData)
    ensures u.login == name && u.password == hash(pw)
    ensures u.registration == now && u.lastAccess == now
  {
    UserData(name, hash(pw), now, now)
  }

  ghost predicate UniqueLogins(docs: seq<UserDoc>) {
    forall i, j :: 0 <= i < j < |docs| ==> docs[i].body.login != docs[j].body.login
  }

  /** A registration that passes validation keeps logins unique. */
  lemma RegisterKeepsLoginsUnique(docs: seq<UserDoc>, id: Oid, name: string, pw: string,
                                  config: Config, hash: string -> Hash, now: Time)
    requires Validate(name, pw, config, docs) == None
    ensures UniqueLogins(docs) ==> UniqueLogins(docs + [Doc(id, NewUser(name, pw, hash, now))])
  {
    assert !Fails(LoginTaken, name, pw, config, docs);
  }

  /**
   * The `register` view. GET shows the form. POST reads both form fields (a missing one is a
   * 400), runs the validation chain and flashes the first failure; when validation passes it
   * inserts the new user, unless the store raises, and redirects to the login page.
   * `storeFails` stands for any exception in the `try` block: hashing the password, reading the
   * clock, or the insert.
   */
  method Register(users: Collection<UserData>, config: Config, request: Request,
                  hash: string -> Hash, storeFails: bool, now: Time)
    returns (reply: Reply)
    requires users.Valid()
    modifies users
    ensures users.Valid()
    ensures UniqueLogins(old(users.docs)) ==> UniqueLogins(users.docs)
    ensures request.verb == GET ==>
      reply == Reply(None, Render(RegisterTemplate)) && unchanged(users)
    ensures request.verb == POST && !("login" in request.form && "password" in request.form) ==>
      reply == Reply(None, BadRequest) && unchanged(users)
    ensures request.verb == POST && "login" in request.form && "password" in request.form ==>
      var name, pw := request.form["login"], request.form["password"];
      match Validate(name, pw, config, old(users.docs))
      case Some(e) =>
        reply == Reply(Some(Message(e, config)), Render(RegisterTemplate)) && unchanged(users)
      case None =>
        if storeFails then
          reply == Reply(Some(Message(InternalError, config)), Render(RegisterTemplate)) && unchanged(users)
        else
          && reply == Reply(None, Redirect(AuthLogin))
          && users.docs == old(users.docs) + [Doc(old(users.nextId), NewUser(name, pw, hash, now))]
          && users.nextId == old(users.nextId) + 1
  {
    if request.verb == GET {
      return Reply(None, Render(RegisterTemplate));
    }
    if !("login" in request.form && "password" in request.form) {
      return Reply(None, BadRequest);
    }
    var name, pw := request.form["login"], request.form["password"];
    var error := Validate(name, pw, config, users.docs);
    if error.None? {
      if storeFails {
        error := Some(InternalError);
      } else {
        RegisterKeepsLoginsUnique(users.docs, users.nextId, name, pw, config, hash, now);
        var _ := users.InsertOne(NewUser(name, pw, hash, now));
        return Reply(None, Redirect(AuthLogin));
      }
    }
    reply := Reply(Some(Message(error.value, config)), Render(RegisterTemplate));
  }

  // ---------------------------------------------------------------------------------------
  // Login, logout and the current user

  datatype LoginResult = InvalidLogin | InvalidPassword | Authenticated(user: UserDoc)

  /**
   * The credential test of `login`: the first user with this login, if any, and whether
   * `check(hash, password)` accepts the password for it.
   */
  function Authenticate(name: string, pw: string, docs: seq<UserDoc>, check: (Hash, string) -> bool)
    : (r: LoginResult)
    ensures r == InvalidLogin <==> forall j :: 0 <= j < |docs| ==> docs[j].body.login != name
    ensures r.Authenticated? ==>
      && FindFirst(docs, OnBody(LoginIs(name))).Some?
      && r.user == docs[FindFirst(docs, OnBody(LoginIs(name))).value]
      && check(r.user.body.password, pw)
    ensures r == InvalidPassword ==>
      && FindFirst(docs, OnBody(LoginIs(name))).Some?
      && !check(docs[FindFirst(docs, OnBody(LoginIs(name))).value].body.password, pw)
  {
    match FindOne(docs, OnBody(LoginIs(name)))
    case None => InvalidLogin
    case Some(user) => if check(user.body.password, pw) then Authenticated(user) else InvalidPassword
  }

  /** The text `login` flashes for a failed attempt. */
  function LoginErrorMessage(r: LoginResult): (m: string)
    requires !r.Authenticated?
    ensures m == "Invalid login" <==> r.InvalidLogin?
    ensures m == "Invalid password" <==> r.InvalidPassword?
  {
    if r == InvalidLogin then "Invalid login" else "Invalid password"
  }

  function SetLastAccess(now: Time): UserData -> UserData {
    (u: UserData) => u.(lastAccess := now)
  }

  /** `update_one({"login": name}, {"$set": {"last_access": now}})`. */
  function TouchLogin(docs: seq<UserDoc>, name: string, now: Time): (r: seq<UserDoc>)
    ensures |r| == |docs|
    ensures forall i :: 0 <= i < |r| ==>
      r[i].id == docs[i].id && r[i].body.(lastAccess := docs[i].body.lastAccess) == docs[i].body
    ensures forall i :: 0 <= i < |r| && r[i] != docs[i] ==>
      docs[i].body.login == name && forall j :: 0 <= j < i ==> docs[j].body.login != name
    ensures forall i ::
      (0 <= i < |docs| && docs[i].body.login == name &&
       forall j :: 0 <= j < i ==> docs[j].body.login != name) ==> r[i].body.lastAccess == now
    ensures (forall i :: 0 <= i < |docs| ==> docs[i].body.login != name) ==> r == docs
  {
    var r := UpdateBody(docs, LoginIs(name), SetLastAccess(now));
    assert forall i :: 0 <= i < |docs| ==> OnBody(LoginIs(name))(docs[i]) == (docs[i].body.login == name);
    r
  }

  /**
   * The `login` view. GET shows the form. POST looks the login up and checks the password;
   * on failure it flashes "Invalid login" or "Invalid password" and changes nothing; on
   * success the session holds only the user's id, that user's `last_access` is now, and the
   * browser goes to the index page.
   */
  method Login(users: Collection<UserData>, session: Session, request: Request,
               check: (Hash, string) -> bool, now: Time)
    returns (reply: Reply)
    requires users.Valid()
    modifies users, session
    ensures users.Valid()
    ensures request.verb == GET ==>
      reply == Reply(None, Render(LoginTemplate)) && unchanged(users) && unchanged(session)
    ensures request.verb == POST && !("login" in request.form && "password" in request.form) ==>
      reply == Reply(None, BadRequest) && unchanged(users) && unchanged(session)
    ensures request.verb == POST && "login" in request.form && "password" in request.form ==>
      var name, pw := request.form["login"], request.form["password"];
      match Authenticate(name, pw, old(users.docs), check)
      case Authenticated(user) =>
        && reply == Reply(None, Redirect(Index))
        && session.data == map[UserIdKey := user.id]
        && users.docs == TouchLogin(old(users.docs), name, now)
        && users.nextId == old(users.nextId)
      case failure =>
        reply == Reply(Some(LoginErrorMessage(failure)), Render(LoginTemplate))
        && unchanged(users) && unchanged(session)
  {
    if request.verb == GET {
      return Reply(None, Render(LoginTemplate));
    }
    if !("login" in request.form && "password" in request.form) {
      return Reply(None, BadRequest);
    }
    var name, pw := request.form["login"], request.form["password"];
    var result := Authenticate(name, pw, users.docs, check);
    if result.Authenticated? {
      session.data := map[];
      session.data := session.data[UserIdKey := result.user.id];
      users.UpdateOne(LoginIs(name), SetLastAccess(now));
      return Reply(None, Redirect(Index));
    }
    reply := Reply(Some(LoginErrorMessage(result)), Render(LoginTemplate));
  }

  /** `load_logged_in_user`: the value assigned to `g.user` before every request. */
  function LoadLoggedInUser(session: map<string, Oid>, docs: seq<UserDoc>): (user: Option<UserDoc>)
    ensures UserIdKey !in session ==> user.None?
    ensures UserIdKey in session ==>
      (user.Some? <==> exists j :: 0 <= j < |docs| && docs[j].id == session[UserIdKey])
    ensures user.Some? ==> user.value in docs && user.value.id == session[UserIdKey]
  {
    if UserIdKey !in session then None
    else FindOne(docs, IdIs(session[UserIdKey]))
  }

  function IdIs(id: Oid): UserDoc -> bool {
    (d: UserDoc) => d.id == id
  }

  /** Ids are unique, so the loaded user is the only document that carries the session's id. */
  lemma LoadedUserIsOnlyMatch(session: map<string, Oid>, docs: seq<UserDoc>, nextId: Oid)
    requires IdsBelow(docs, nextId)
    ensures var user := LoadLoggedInUser(session, docs);
      user.Some? ==> forall j :: 0 <= j < |docs| && docs[j].id == user.value.id ==> docs[j] == user.value
  {
    var user := LoadLoggedInUser(session, docs);
    if user.Some? {
      var i := FindFirst(docs, IdIs(session[UserIdKey])).value;
      forall j | 0 <= j < |docs| && docs[j].id == user.value.id ensures docs[j] == user.value {
        IdsUnique(docs, nextId, i, j);
      }
    }
  }

  /**
   * After a successful login, the next request's `load_logged_in_user` finds that same user,
   * with the `last_access` the login just wrote.
   */
  lemma LoginResolvesToUser(docs: seq<UserDoc>, nextId: Oid, name: string, pw: string,
                            check: (Hash, string) -> bool, now: Time)
    requires IdsBelow(docs, nextId)
    requires Authenticate(name, pw, docs, check).Authenticated?
    ensures var user := Authenticate(name, pw, docs, check).user;
      LoadLoggedInUser(map[UserIdKey := user.id], TouchLogin(docs, name, now))
      == Some(Doc(user.id, user.body.(lastAccess := now)))
  {
    var user := Authenticate(name, pw, docs, check).user;
    var i := FindFirst(docs, OnBody(LoginIs(name))).value;
    var after := TouchLogin(docs, name, now);
    var p := IdIs(user.id);
    assert after[i] == Doc(user.id, user.body.(lastAccess := now));
    forall j | 0 <= j < i ensures !p(after[j]) {
      assert after[j].id == docs[j].id < docs[i].id;
    }
    assert FindFirst(after, p) == Some(i);
  }

  /**
   * A user who has just registered can log in with the same password, provided the
   * credential store's `check` accepts what `hash` produced for it.
   */
  lemma RegisterThenLogin(docs: seq<UserDoc>, nextId: Oid, config: Config, name: string, pw: string,
                          hash: string -> Hash, check: (Hash, string) -> bool, now: Time)
    requires Validate(name, pw, config, docs) == None
    requires check(hash(pw), pw)
    ensures Authenticate(name, pw, docs + [Doc(nextId, NewUser(name, pw, hash, now))], check)
      == Authenticated(Doc(nextId, NewUser(name, pw, hash, now)))
  {
    assert !Fails(LoginTaken, name, pw, config, docs);
    var after := docs + [Doc(nextId, NewUser(name, pw, hash, now))];
    assert OnBody(LoginIs(name))(after[|docs|]);
    assert FindFirst(after, OnBody(LoginIs(name))) == Some(|docs|);
  }

  /** `logout`: the session is emptied and the browser goes to the index page. */
  method Logout(session: Session) returns (reply: Reply)
    modifies session
    ensures session.data == map[]
    ensures reply == Reply(None, Redirect(Index))
  {
    session.data := map[];
    reply := Reply(None, Redirect(Index));
  }

  /** What a view wrapped in `login_required` returns. */
  datatype Guarded<R> = RedirectTo(route: Route) | ViewResult(value: R)

  /** `login_required(view)`: run the view iff a user is loaded, else redirect to login. */
  function LoginRequired<R>(user: Option<UserDoc>, view: () -> R): (r: Guarded<R>)
    ensures r.ViewResult? <==> user.Some?
    ensures r.ViewResult? ==> r.value == view()
    ensures r.RedirectTo? ==> r.route == AuthLogin
  {
    if user.None? then RedirectTo(AuthLogin) else ViewResult(view())
  }
}
