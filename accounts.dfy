/**
 * Accounts and authorization (Unit 4): the `admin_required` gate, the
 * registration validation chain, login against stored bcrypt hashes, and the
 * starter copy's stubbed authentication routes.
 */
module Accounts {
  import opened Wrappers
  import opened Text
  import opened Utilities
  import opened Models

  // ---------------------------------------------------------------------------
  // Who is asking
  // ---------------------------------------------------------------------------

  /** `current_user`: an anonymous visitor, or the user the session belongs to. */
  datatype Visitor = Anonymous | SignedIn(user: User)

  /** Where a view sends the browser instead of answering itself. */
  datatype Page = IndexPage | LoginPage | RegisterPage

  datatype Response = Render(page: Page) | RedirectTo(target: Page)

  // ---------------------------------------------------------------------------
  // admin_required
  // ---------------------------------------------------------------------------

  datatype GateDecision = ToLogin | ToIndex | Proceed

  /**
   * `admin_required`: an anonymous visitor is sent to the login page, a
   * signed-in user who is not an admin to the home page, and the wrapped view
   * runs only for a signed-in admin.
   */
  function AdminRequired(v: Visitor): (g: GateDecision)
    ensures g == ToLogin <==> v.Anonymous?
    ensures g == ToIndex <==> v.SignedIn? && !v.user.isAdmin
    ensures g == Proceed <==> v.SignedIn? && v.user.isAdmin
  {
    if v.Anonymous? then ToLogin
    else if !v.user.isAdmin then ToIndex
    else Proceed
  }

  // ---------------------------------------------------------------------------
  // Looking users up
  // ---------------------------------------------------------------------------

  predicate UsernameInUse(us: seq<User>, name: string) {
    exists i :: 0 <= i < |us| && us[i].username == name
  }

  predicate EmailInUse(us: seq<User>, email: string) {
    exists i :: 0 <= i < |us| && us[i].email == email
  }

  predicate HashInUse(us: seq<User>, h: PasswordHash) {
    exists i :: 0 <= i < |us| && us[i].passwordHash == h
  }

  /** `User.query.filter_by(username=name).first()`: the first row with that name. */
  function FindUser(us: seq<User>, name: string): (r: Option<User>)
    ensures r.None? <==> !UsernameInUse(us, name)
    ensures r.Some? ==> exists i :: 0 <= i < |us| && us[i] == r.value && r.value.username == name
                                    && forall j :: 0 <= j < i ==> us[j].username != name
  {
    if us == [] then None
    else if us[0].username == name then Some(us[0])
    else
      var rest := FindUser(us[1..], name);
      assert forall i :: 1 <= i < |us| ==> us[i] == us[1..][i - 1];
      assert UsernameInUse(us[1..], name) ==> UsernameInUse(us, name) by {
        if UsernameInUse(us[1..], name) {
          var k :| 0 <= k < |us[1..]| && us[1..][k].username == name;
          assert us[k + 1].username == name;
        }
      }
      rest
  }

  /** With unique usernames, the row found is the one row of that name. */
  lemma FindUserUnique(us: seq<User>, i: nat)
    requires UsersDistinct(us) && i < |us|
    ensures FindUser(us, us[i].username) == Some(us[i])
  {
    var r := FindUser(us, us[i].username);
    var k :| 0 <= k < |us| && us[k] == r.value && r.value.username == us[i].username
             && forall j :: 0 <= j < k ==> us[j].username != us[i].username;
    assert k == i;
  }

  // ---------------------------------------------------------------------------
  // Registration
  // ---------------------------------------------------------------------------

  /** The registration form as posted; a field the form leaves out is `None`. */
  datatype RegisterForm = RegisterForm(
    username: Option<string>,
    email: Option<string>,
    password: Option<string>,
    confirm: Option<string>)

  /** The reasons a registration is refused, in the order they are checked. */
  datatype RegistrationError =
    | FieldsRequired    // "All fields are required!"
    | PasswordMismatch  // "Passwords do not match!"
    | PasswordTooShort  // "Password must be at least 6 characters."
    | UsernameTaken     // "Username is already taken! ..."
    | EmailTaken        // "Email is already registered! ..."

  const MinPasswordLength: nat := 6

  /** The position of a check in the chain. */
  function Rank(c: RegistrationError): nat {
    match c
    case FieldsRequired => 0
    case PasswordMismatch => 1
    case PasswordTooShort => 2
    case UsernameTaken => 3
    case EmailTaken => 4
  }

  /**
   * Whether the form breaks the rule behind `c`, each rule judged on its own:
   * a reference for the chain, which reports only the first broken rule.
   */
  predicate Breaks(us: seq<User>, username: Option<string>, f: RegisterForm, c: RegistrationError) {
    match c
    case FieldsRequired => !Truthy(username) || !Truthy(f.email) || !Truthy(f.password)
    case PasswordMismatch => f.password != f.confirm
    case PasswordTooShort => f.password.Some? && |f.password.value| < MinPasswordLength
    case UsernameTaken => username.Some? && UsernameInUse(us, username.value)
    case EmailTaken => f.email.Some? && EmailInUse(us, f.email.value)
  }

  /** Every rule of the chain, spelled out, so that a quantifier over them can be discharged. */
  lemma BreaksNone(us: seq<User>, username: Option<string>, f: RegisterForm)
    requires !Breaks(us, username, f, FieldsRequired) && !Breaks(us, username, f, PasswordMismatch)
    requires !Breaks(us, username, f, PasswordTooShort) && !Breaks(us, username, f, UsernameTaken)
    requires !Breaks(us, username, f, EmailTaken)
    ensures forall c :: !Breaks(us, username, f, c)
  {
    forall c ensures !Breaks(us, username, f, c) {
      match c
      case FieldsRequired =>
      case PasswordMismatch =>
      case PasswordTooShort =>
      case UsernameTaken =>
      case EmailTaken =>
    }
  }

  /**
   * The validation chain of `register`, given the username as the view reads
   * it: `None` when every rule holds, otherwise the first rule broken, in the
   * order required fields, matching passwords, length, free username, free
   * email.
   */
  function Validate(us: seq<User>, username: Option<string>, f: RegisterForm): (r: Option<RegistrationError>)
    ensures r.None? <==> forall c :: !Breaks(us, username, f, c)
    ensures r.Some? ==> Breaks(us, username, f, r.value)
    ensures r.Some? ==> forall c :: Rank(c) < Rank(r.value) ==> !Breaks(us, username, f, c)
  {
    if !Truthy(username) || !Truthy(f.email) || !Truthy(f.password) then
      assert Breaks(us, username, f, FieldsRequired);
      Some(FieldsRequired)
    else if f.password != f.confirm then
      assert Breaks(us, username, f, PasswordMismatch);
      Some(PasswordMismatch)
    else if |f.password.value| < MinPasswordLength then
      assert Breaks(us, username, f, PasswordTooShort);
      Some(PasswordTooShort)
    else if UsernameInUse(us, username.value) then
      assert Breaks(us, username, f, UsernameTaken);
      Some(UsernameTaken)
    else if EmailInUse(us, f.email.value) then
      assert Breaks(us, username, f, EmailTaken);
      Some(EmailTaken)
    else
      BreaksNone(us, username, f);
      None
  }

  datatype RegisterOutcome =
    | RegisterRedirect             // already signed in: straight to the home page
    | Invalid(error: RegistrationError)
    | HashConflict                 // the UNIQUE constraint on password_hash fails at commit
    | Registered(user: User)

  /**
   * A POSTed registration once the view has read the username as `username`:
   * a signed-in visitor is sent home, a form that breaks a rule is refused
   * with the first broken rule, and otherwise a non-admin user with the next
   * id, the given name and email and a hash of the password is created. The
   * new hash must differ from every stored one, or the commit fails.
   */
  function Registration(us: seq<User>, v: Visitor, username: Option<string>, f: RegisterForm, kdf: Kdf, salt: nat): (r: RegisterOutcome)
    ensures r == RegisterRedirect <==> v.SignedIn?
    ensures r.Invalid? <==> v.Anonymous? && Validate(us, username, f).Some?
    ensures r.Invalid? ==> Breaks(us, username, f, r.error) && Validate(us, username, f) == Some(r.error)
    ensures r.Registered? ==> forall c :: !Breaks(us, username, f, c)
    ensures r.Registered? ==>
      r.user == User(NextUserId(us), username.value, f.email.value, HashPassword(kdf, f.password.value, salt), false)
    ensures r.Registered? ==> !HashInUse(us, r.user.passwordHash)
    ensures r == HashConflict <==> v.Anonymous? && Validate(us, username, f).None? && f.password.Some?
                                   && HashInUse(us, HashPassword(kdf, f.password.value, salt))
    ensures v.Anonymous? && Validate(us, username, f).None? && f.password.Some?
              && !HashInUse(us, HashPassword(kdf, f.password.value, salt))
            ==> r.Registered?
  {
    if v.SignedIn? then RegisterRedirect
    else
      var problem := Validate(us, username, f);
      if problem.Some? then Invalid(problem.value)
      else
        var h := HashPassword(kdf, f.password.value, salt);
        if HashInUse(us, h) then HashConflict
        else Registered(User(NextUserId(us), username.value, f.email.value, h, false))
  }

  /** `register` as written: the username is taken from the form as it is, unstripped. */
  function RegisterAsWritten(us: seq<User>, v: Visitor, f: RegisterForm, kdf: Kdf, salt: nat): (r: RegisterOutcome)
    ensures r.Registered? ==> f.username == Some(r.user.username)
  {
    Registration(us, v, f.username, f, kdf, salt)
  }

  /** The username as the login view reads it: `request.form.get('username', '').strip()`. */
  function ReadUsername(username: Option<string>): (r: string)
    ensures r == [] || (!IsSpace(r[0]) && !IsSpace(r[|r| - 1]))
  {
    Strip(username.GetOr(""))
  }

  /** `register` with the username read the way login reads it. */
  function RegisterResult(us: seq<User>, v: Visitor, f: RegisterForm, kdf: Kdf, salt: nat): (r: RegisterOutcome)
    ensures r.Registered? ==> r.user.username == ReadUsername(f.username)
  {
    Registration(us, v, Some(ReadUsername(f.username)), f, kdf, salt)
  }

  /** A registration keeps every UNIQUE column of the user table unique. */
  lemma RegisteredKeepsUsersDistinct(us: seq<User>, v: Visitor, username: Option<string>, f: RegisterForm, kdf: Kdf, salt: nat)
    requires UsersDistinct(us)
    requires Registration(us, v, username, f, kdf, salt).Registered?
    ensures UsersDistinct(us + [Registration(us, v, username, f, kdf, salt).user])
  {
    var u := Registration(us, v, username, f, kdf, salt).user;
    assert !Breaks(us, username, f, UsernameTaken) && !Breaks(us, username, f, EmailTaken);
    var us' := us + [u];
    forall i, j | 0 <= i < j < |us'|
      ensures us'[i].id != us'[j].id && us'[i].username != us'[j].username
              && us'[i].email != us'[j].email && us'[i].passwordHash != us'[j].passwordHash
    {
      if j == |us| {
        assert us'[i] == us[i] && us'[j] == u;
      } else {
        assert us'[i] == us[i] && us'[j] == us[j];
      }
    }
  }

  /**
   * `register` on a POST, with `username` the text the view takes as the
   * username: `f.username` as line 264 reads it, or `Some(ReadUsername(f.username))`
   * once it is stripped like login does. A signed-in visitor is sent home; a
   * refused form or a failed commit leaves the user table as it was; a
   * success adds the new user, signs them in, and sends them home.
   */
  method Register(db: Database, v: Visitor, username: Option<string>, f: RegisterForm, kdf: Kdf, salt: nat)
    returns (outcome: RegisterOutcome, after: Visitor)
    requires db.Valid()
    modifies db
    ensures db.Valid()
    ensures outcome == Registration(old(db.users), v, username, f, kdf, salt)
    ensures username == f.username ==> outcome == RegisterAsWritten(old(db.users), v, f, kdf, salt)
    ensures username == Some(ReadUsername(f.username)) ==> outcome == RegisterResult(old(db.users), v, f, kdf, salt)
    ensures outcome.Registered? ==> db.users == old(db.users) + [outcome.user] && after == SignedIn(outcome.user)
    ensures !outcome.Registered? ==> db.users == old(db.users) && after == v
    ensures db.movies == old(db.movies) && db.pending == old(db.pending)
  {
    after := v;
    if v.SignedIn? {
      return RegisterRedirect, v;
    }
    var problem := Validate(db.users, username, f);
    if problem.Some? {
      return Invalid(problem.value), v;
    }
    assert !Breaks(db.users, username, f, FieldsRequired);
    var h := HashPassword(kdf, f.password.value, salt);
    if HashInUse(db.users, h) {
      return HashConflict, v;
    }
    assert !Breaks(db.users, username, f, UsernameTaken) && !Breaks(db.users, username, f, EmailTaken);
    var u := db.InsertUser(username.value, f.email.value, h, false);
    outcome := Registered(u);
    after := SignedIn(u);
  }

  // ---------------------------------------------------------------------------
  // Login
  // ---------------------------------------------------------------------------

  datatype LoginOutcome =
    | LoginRedirect           // already signed in: straight to the home page
    | LoggedIn(user: User)    // "Welcome back, ...!"
    | InvalidCredentials      // "Invalid username and password"

  /**
   * `login` on a POST: the stripped username selects the first user of that
   * name, and the login succeeds only when the password checks against that
   * user's hash.
   */
  function Login(us: seq<User>, v: Visitor, username: Option<string>, password: Option<string>, kdf: Kdf): (r: LoginOutcome)
    ensures r == LoginRedirect <==> v.SignedIn?
    ensures r.LoggedIn? ==> r.user in us && r.user.username == ReadUsername(username)
                            && CheckPassword(kdf, r.user.passwordHash, password.GetOr(""))
    ensures v.Anonymous? && !UsernameInUse(us, ReadUsername(username)) ==> r == InvalidCredentials
  {
    if v.SignedIn? then LoginRedirect
    else
      var user := FindUser(us, ReadUsername(username));
      if user.Some? && CheckPassword(kdf, user.value.passwordHash, password.GetOr("")) then LoggedIn(user.value)
      else InvalidCredentials
  }

  /**
   * With the user table's unique usernames, an anonymous visitor logs in
   * exactly when some user has the stripped name and the password checks
   * against that user's hash; the user signed in is that user.
   */
  lemma LoginSucceedsIff(us: seq<User>, username: Option<string>, password: Option<string>, kdf: Kdf, i: nat)
    requires UsersDistinct(us) && i < |us|
    requires us[i].username == ReadUsername(username)
    ensures Login(us, Anonymous, username, password, kdf) == LoggedIn(us[i])
            <==> CheckPassword(kdf, us[i].passwordHash, password.GetOr(""))
    ensures !CheckPassword(kdf, us[i].passwordHash, password.GetOr("")) ==>
            Login(us, Anonymous, username, password, kdf) == InvalidCredentials
  {
    FindUserUnique(us, i);
  }

  /**
   * An unknown username and a wrong password end in the same outcome, so the
   * response does not reveal which of the two was wrong.
   */
  lemma SameFailureForUnknownUserAndWrongPassword(us: seq<User>, unknown: Option<string>, known: Option<string>,
                                                  password: Option<string>, kdf: Kdf, i: nat)
    requires UsersDistinct(us) && i < |us|
    requires !UsernameInUse(us, ReadUsername(unknown))
    requires us[i].username == ReadUsername(known) && !CheckPassword(kdf, us[i].passwordHash, password.GetOr(""))
    ensures Login(us, Anonymous, unknown, password, kdf) == Login(us, Anonymous, known, password, kdf)
    ensures Login(us, Anonymous, known, password, kdf) == InvalidCredentials
  {
    LoginSucceedsIff(us, known, password, kdf, i);
  }

  /** Whoever registers can then log in with the same username and password. */
  lemma RegisterThenLogin(us: seq<User>, f: RegisterForm, kdf: Kdf, salt: nat)
    requires UsersDistinct(us)
    requires RegisterResult(us, Anonymous, f, kdf, salt).Registered?
    ensures Login(us + [RegisterResult(us, Anonymous, f, kdf, salt).user], Anonymous, f.username, f.password, kdf)
            == LoggedIn(RegisterResult(us, Anonymous, f, kdf, salt).user)
  {
    var u := RegisterResult(us, Anonymous, f, kdf, salt).user;
    RegisteredKeepsUsersDistinct(us, Anonymous, Some(ReadUsername(f.username)), f, kdf, salt);
    var us' := us + [u];
    assert us'[|us|] == u;
    CheckOwnHash(kdf, f.password.value, salt);
    LoginSucceedsIff(us', f.username, f.password, kdf, |us|);
  }

  /**
   * As written, `register` stores a username with surrounding spaces as it
   * is, while `login` strips what is typed: whatever the user types, login
   * looks for a different name, so that account can never sign in.
   */
  lemma PaddedUsernameLocksOut(kdf: Kdf, typed: Option<string>, password: Option<string>)
    ensures RegisterAsWritten([], Anonymous, PaddedForm(), kdf, 0).Registered?
    ensures Login([RegisterAsWritten([], Anonymous, PaddedForm(), kdf, 0).user], Anonymous, typed, password, kdf)
            == InvalidCredentials
  {
    var f := PaddedForm();
    assert !Breaks([], f.username, f, PasswordTooShort);
    BreaksNone([], f.username, f);
    var u := RegisterAsWritten([], Anonymous, f, kdf, 0).user;
    assert u.username == "alice ";
    var name := ReadUsername(typed);
    assert name != u.username;
    assert !UsernameInUse([u], name);
  }

  /** A registration whose username ends in a space. */
  function PaddedForm(): (f: RegisterForm)
    ensures f.username == Some("alice ") && f.password == f.confirm
  {
    RegisterForm(Some("alice "), Some("alice@example.com"), Some("secret1"), Some("secret1"))
  }

  // ---------------------------------------------------------------------------
  // The starter copy's authentication routes
  // ---------------------------------------------------------------------------

  /**
   * The starter `register`: a POST is not validated, creates no user and is
   * sent to the home page; any other request renders the form. It reads
   * neither the form nor the user table.
   */
  function StarterRegister(isPost: bool, f: RegisterForm, us: seq<User>): (r: Response)
    ensures isPost <==> r == RedirectTo(IndexPage)
    ensures !isPost <==> r == Render(RegisterPage)
  {
    if isPost then RedirectTo(IndexPage) else Render(RegisterPage)
  }

  /** The starter `register` answers every POST alike, whatever the form and the table hold. */
  lemma StarterRegisterIgnoresForm(f: RegisterForm, g: RegisterForm, us: seq<User>, ws: seq<User>)
    ensures StarterRegister(true, f, us) == StarterRegister(true, g, ws)
  {
  }

  /** The starter `login` always renders the login form and signs nobody in. */
  function StarterLogin(isPost: bool, username: Option<string>, password: Option<string>): (r: Response)
    ensures r == Render(LoginPage)
  {
    Render(LoginPage)
  }

  /** The starter `logout` sends every request to the home page. */
  function StarterLogout(v: Visitor): (r: Response)
    ensures r == RedirectTo(IndexPage)
  {
    RedirectTo(IndexPage)
  }
}
