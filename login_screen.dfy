/**
 * The decision logic of the login/signup screen: the checks that gate the signup
 * request, the alert chosen for a failed signup, the field-wise updates of the two
 * credential records, and the state changes of the submit handlers.  What the server
 * answers is a parameter of each handler; the alert a handler raises is its result.
 */
module LoginScreen {
  import opened Wrappers
  import opened Crypto
  import EmailPattern
  import StudentAccounts

  /** The `credentials` state of the signup form. */
  datatype Credentials = Credentials(
    name: string, email: string, password: string, confirmPassword: string, mobile: string)

  /** The `loginCredentials` state of the login form. */
  datatype LoginCredentials = LoginCredentials(email: string, password: string)

  const EmptyCredentials := Credentials("", "", "", "", "")
  const EmptyLoginCredentials := LoginCredentials("", "")

  /** The `name` attributes of the signup inputs. */
  datatype Field = Name | Email | Password | ConfirmPassword | Mobile

  /** The `name` attributes of the login inputs. */
  datatype LoginField = LoginEmail | LoginPassword

  function Get(c: Credentials, f: Field): string {
    match f
    case Name => c.name
    case Email => c.email
    case Password => c.password
    case ConfirmPassword => c.confirmPassword
    case Mobile => c.mobile
  }

  function GetLogin(c: LoginCredentials, f: LoginField): string {
    match f
    case LoginEmail => c.email
    case LoginPassword => c.password
  }

  /** `{ ...credentials, [name]: value }`: the named field takes the value, the others keep theirs. */
  function Update(c: Credentials, f: Field, value: string): (r: Credentials)
    ensures Get(r, f) == value
    ensures forall g :: g != f ==> Get(r, g) == Get(c, g)
  {
    match f
    case Name => c.(name := value)
    case Email => c.(email := value)
    case Password => c.(password := value)
    case ConfirmPassword => c.(confirmPassword := value)
    case Mobile => c.(mobile := value)
  }

  /** `{ ...loginCredentials, [name]: value }` */
  function UpdateLogin(c: LoginCredentials, f: LoginField, value: string): (r: LoginCredentials)
    ensures GetLogin(r, f) == value
    ensures forall g :: g != f ==> GetLogin(r, g) == GetLogin(c, g)
  {
    match f
    case LoginEmail => c.(email := value)
    case LoginPassword => c.(password := value)
  }

  // ---------------------------------------------------------------------------
  // The signup gate

  predicate IsDigit(c: char) {
    '0' <= c <= '9'
  }

  /** `/^[0-9]{10}$/` */
  predicate IsTenDigits(m: string) {
    |m| == 10 && forall i :: 0 <= i < |m| ==> IsDigit(m[i])
  }

  /** The body of the POST /signup request. */
  datatype SignupForm = SignupForm(name: string, email: string, password: string, mobile: string)

  /** What submitting the signup form does: alert about the e-mail, alert about the mobile, or send. */
  datatype Gate = BadEmail | BadMobile | Send(form: SignupForm)

  const EmailAlert := "Please enter a valid email address."
  const MobileAlert := "Please enter a valid phone number!"

  function SignupGate(c: Credentials): (g: Gate)
    ensures g.Send? <==> EmailPattern.MatchesPattern(c.email) && IsTenDigits(c.mobile)
    ensures !EmailPattern.MatchesPattern(c.email) ==> g == BadEmail
    ensures EmailPattern.MatchesPattern(c.email) && !IsTenDigits(c.mobile) ==> g == BadMobile
    ensures g.Send? ==> g.form == SignupForm(c.name, c.email, c.password, c.mobile)
  {
    EmailPattern.IsValidEmailCorrect(c.email);
    if !EmailPattern.IsValidEmail(c.email) then BadEmail
    else if !IsTenDigits(c.mobile) then BadMobile
    else Send(SignupForm(c.name, c.email, c.password, c.mobile))
  }

  /** The confirmation field takes no part in the gate: a mismatch with the password is sent anyway. */
  lemma ConfirmPasswordIgnored(c: Credentials, confirmation: string)
    ensures SignupGate(c.(confirmPassword := confirmation)) == SignupGate(c)
  {
  }

  // ---------------------------------------------------------------------------
  // Classifying a failed signup

  /** `s.includes(sub)` */
  predicate Includes(s: string, sub: string)
    decreases |s|
  {
    if |s| < |sub| then false else s[..|sub|] == sub || Includes(s[1..], sub)
  }

  /** `sub` occurs in `s` starting at position `i`. */
  ghost predicate OccursAt(sub: string, s: string, i: int) {
    0 <= i <= |s| - |sub| && s[i..i + |sub|] == sub
  }

  /** `sub` occurs in `s` at some position. */
  ghost predicate Occurs(sub: string, s: string) {
    exists i :: OccursAt(sub, s, i)
  }

  lemma SliceOfTail(s: string, i: nat, n: nat)
    requires 0 < |s| && i + n <= |s| - 1
    ensures s[1..][i..i + n] == s[i + 1..i + 1 + n]
  {
  }

  lemma {:induction false} IncludesOccurs(s: string, sub: string)
    ensures Includes(s, sub) <==> Occurs(sub, s)
    decreases |s|
  {
    if |s| < |sub| {
      assert forall i :: !OccursAt(sub, s, i);
    } else if s[..|sub|] == sub {
      assert OccursAt(sub, s, 0);
    } else {
      IncludesOccurs(s[1..], sub);
      if Occurs(sub, s[1..]) {
        var i :| OccursAt(sub, s[1..], i);
        SliceOfTail(s, i, |sub|);
        assert OccursAt(sub, s, i + 1);
      }
      if Occurs(sub, s) {
        var i :| OccursAt(sub, s, i);
        assert i != 0;
        SliceOfTail(s, i - 1, |sub|);
        assert OccursAt(sub, s[1..], i - 1);
      }
    }
  }

  const BothAlert := "This Account already exists. Please try logging in."
  const EmailTakenAlert := "This Email already exists. Please try logging in."
  const MobileTakenAlert := "This Mobile number already exists. Please try logging in."
  const FallbackAlert := "Error creating account. Please try again."

  /**
   * The alert for a failed signup request; `error` is `error.response.data.error` when
   * the server sent one (an empty message counts as none, as JavaScript's truthiness
   * test has it).  Both keywords take precedence over either one alone, and a
   * message with neither is shown as it is.
   */
  function SignupFailureAlert(error: Option<string>): (alert: string)
    ensures error.None? || error == Some("") ==> alert == FallbackAlert
    ensures error.Some? && Occurs("Email", error.value) && Occurs("Mobile", error.value) ==>
      alert == BothAlert
    ensures error.Some? && Occurs("Email", error.value) && !Occurs("Mobile", error.value) ==>
      alert == EmailTakenAlert
    ensures error.Some? && !Occurs("Email", error.value) && Occurs("Mobile", error.value) ==>
      alert == MobileTakenAlert
    ensures error.Some? && error.value != "" && !Occurs("Email", error.value) && !Occurs("Mobile", error.value) ==>
      alert == error.value
  {
    match error
    case None => FallbackAlert
    case Some(message) =>
      if message == "" then FallbackAlert else
      IncludesOccurs(message, "Email");
      IncludesOccurs(message, "Mobile");
      if Includes(message, "Email") && Includes(message, "Mobile") then BothAlert
      else if Includes(message, "Email") then EmailTakenAlert
      else if Includes(message, "Mobile") then MobileTakenAlert
      else message
  }

  lemma NotOccursWithoutHead(sub: string, s: string)
    requires |sub| > 0 && sub[0] !in s
    ensures !Occurs(sub, s)
  {
  }

  /** The server's both-exist message holds neither keyword: it is shown as it is, and BothAlert is never raised for it. */
  lemma AccountExistsShownVerbatim()
    ensures SignupFailureAlert(Some(StudentAccounts.AccountExists)) == StudentAccounts.AccountExists
  {
    NotOccursWithoutHead("Email", StudentAccounts.AccountExists);
    NotOccursWithoutHead("Mobile", StudentAccounts.AccountExists);
  }

  lemma EmailExistsAlert()
    ensures SignupFailureAlert(Some(StudentAccounts.EmailExists)) == EmailTakenAlert
  {
    NotOccursWithoutHead("Mobile", StudentAccounts.EmailExists);
    assert OccursAt("Email", StudentAccounts.EmailExists, 0);
  }

  lemma MobileExistsAlert()
    ensures SignupFailureAlert(Some(StudentAccounts.MobileExists)) == MobileTakenAlert
  {
    NotOccursWithoutHead("Email", StudentAccounts.MobileExists);
    assert OccursAt("Mobile", StudentAccounts.MobileExists, 0);
  }

  lemma InvalidFormatShownVerbatim()
    ensures SignupFailureAlert(Some(StudentAccounts.InvalidEmailFormat)) == StudentAccounts.InvalidEmailFormat
  {
    NotOccursWithoutHead("Email", StudentAccounts.InvalidEmailFormat);
    NotOccursWithoutHead("Mobile", StudentAccounts.InvalidEmailFormat);
  }

  /**
   * What the screen shows for each 400 error the signup endpoint sends: the
   * single-field duplicates map to their alerts, the other two are shown as they are,
   * so the both-keywords branch is never taken for this server.
   */
  lemma ServerSignupErrors(message: string)
    requires message in {StudentAccounts.AccountExists, StudentAccounts.EmailExists,
                         StudentAccounts.MobileExists, StudentAccounts.InvalidEmailFormat}
    ensures SignupFailureAlert(Some(message)) != BothAlert
    ensures SignupFailureAlert(Some(message)) ==
      if message == StudentAccounts.EmailExists then EmailTakenAlert
      else if message == StudentAccounts.MobileExists then MobileTakenAlert
      else message
  {
    AccountExistsShownVerbatim();
    EmailExistsAlert();
    MobileExistsAlert();
    InvalidFormatShownVerbatim();
  }

  // ---------------------------------------------------------------------------
  // The component's state and handlers

  /** How the server answered a signup request: accepted, or failed with the `error` field of the body if any. */
  datatype SignupReply = SignupAccepted | SignupFailed(error: Option<string>)

  /** How the server answered a login (or Google) request: a token, or a failure. */
  datatype LoginReply = LoginAccepted(authToken: Token) | LoginFailed

  /** The body of the POST /login request. */
  datatype LoginForm = LoginForm(email: string, password: string)

  const AccountCreated := "Account created successfully!"
  const LoggedIn := "Logged in successfully!"
  const LoginFailedAlert := "Invalid credentials. Please try again."
  const GoogleLoggedIn := "Logged in with Google successfully!"
  const GoogleFailedAlert := "Error authenticating with Google. Please try again."

  class Screen {
    var credentials: Credentials
    var loginCredentials: LoginCredentials
    var error: Option<string>
    /** The `authToken` cookie. */
    var authCookie: Option<Token>

    constructor (cookie: Option<Token>)
      ensures credentials == EmptyCredentials && loginCredentials == EmptyLoginCredentials
      ensures error == None && authCookie == cookie
    {
      credentials := EmptyCredentials;
      loginCredentials := EmptyLoginCredentials;
      error := None;
      authCookie := cookie;
    }

    /**
     * handleSignupSubmit.  A form the gate stops raises its alert and sends nothing;
     * otherwise the form is sent and `reply` is the server's answer: acceptance resets
     * the five fields and the error, a failure raises the alert SignupFailureAlert picks.
     */
    method HandleSignupSubmit(reply: SignupReply) returns (sent: Option<SignupForm>, alert: string)
      modifies this
      ensures SignupGate(old(credentials)) == BadEmail ==>
        sent == None && alert == EmailAlert && credentials == old(credentials)
      ensures SignupGate(old(credentials)) == BadMobile ==>
        sent == None && alert == MobileAlert && credentials == old(credentials)
      ensures SignupGate(old(credentials)).Send? ==> sent == Some(SignupGate(old(credentials)).form)
      ensures sent.Some? && reply.SignupAccepted? ==>
        credentials == EmptyCredentials && error == None && alert == AccountCreated
      ensures sent.Some? && reply.SignupFailed? ==>
        credentials == old(credentials) && error == old(error) && alert == SignupFailureAlert(reply.error)
      ensures sent.None? ==> error == old(error)
      ensures loginCredentials == old(loginCredentials) && authCookie == old(authCookie)
    {
      var gate := SignupGate(credentials);
      if gate == BadEmail {
        return None, EmailAlert;
      }
      if gate == BadMobile {
        return None, MobileAlert;
      }
      sent := Some(gate.form);
      match reply {
        case SignupAccepted =>
          credentials := EmptyCredentials;
          error := None;
          alert := AccountCreated;
        case SignupFailed(message) =>
          alert := SignupFailureAlert(message);
      }
    }

    /** handleLoginSubmit: a success clears the login fields and the error and stores the token in the cookie. */
    method HandleLoginSubmit(reply: LoginReply) returns (sent: LoginForm, alert: string)
      modifies this
      ensures sent == LoginForm(old(loginCredentials).email, old(loginCredentials).password)
      ensures reply.LoginAccepted? ==>
        && loginCredentials == EmptyLoginCredentials && error == None
        && authCookie == Some(reply.authToken) && alert == LoggedIn
      ensures reply.LoginFailed? ==>
        && loginCredentials == old(loginCredentials) && error == old(error)
        && authCookie == old(authCookie) && alert == LoginFailedAlert
      ensures credentials == old(credentials)
    {
      sent := LoginForm(loginCredentials.email, loginCredentials.password);
      match reply {
        case LoginAccepted(token) =>
          loginCredentials := EmptyLoginCredentials;
          error := None;
          authCookie := Some(token);
          alert := LoggedIn;
        case LoginFailed =>
          alert := LoginFailedAlert;
      }
    }

    /** handleGoogleSignIn: the same resets as a password login, with its own alerts. */
    method HandleGoogleSignIn(reply: LoginReply) returns (alert: string)
      modifies this
      ensures reply.LoginAccepted? ==>
        && loginCredentials == EmptyLoginCredentials && error == None
        && authCookie == Some(reply.authToken) && alert == GoogleLoggedIn
      ensures reply.LoginFailed? ==>
        && loginCredentials == old(loginCredentials) && error == old(error)
        && authCookie == old(authCookie) && alert == GoogleFailedAlert
      ensures credentials == old(credentials)
    {
      match reply {
        case LoginAccepted(token) =>
          loginCredentials := EmptyLoginCredentials;
          error := None;
          authCookie := Some(token);
          alert := GoogleLoggedIn;
        case LoginFailed =>
          alert := GoogleFailedAlert;
      }
    }

    /**
     * onChange.  `isNaN` is JavaScript's global predicate, left abstract: a mobile value
     * it flags is ignored; any other edit replaces the named field only.
     */
    method OnChange(field: Field, value: string, isNaN: string -> bool)
      modifies this
      ensures field == Mobile && isNaN(value) ==> credentials == old(credentials)
      ensures !(field == Mobile && isNaN(value)) ==>
        && Get(credentials, field) == value
        && forall g :: g != field ==> Get(credentials, g) == Get(old(credentials), g)
      ensures loginCredentials == old(loginCredentials) && error == old(error) && authCookie == old(authCookie)
    {
      if field == Mobile && isNaN(value) {
        return;
      }
      credentials := Update(credentials, field, value);
    }

    /** onLoginChange: the named login field takes the value, the other keeps its own. */
    method OnLoginChange(field: LoginField, value: string)
      modifies this
      ensures GetLogin(loginCredentials, field) == value
      ensures forall g :: g != field ==> GetLogin(loginCredentials, g) == GetLogin(old(loginCredentials), g)
      ensures credentials == old(credentials) && error == old(error) && authCookie == old(authCookie)
    {
      loginCredentials := UpdateLogin(loginCredentials, field, value);
    }
  }
}
