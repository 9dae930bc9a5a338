/**
 * The sign-in page (frontend/login.py): its own copy of the email check, the
 * submit handler that looks the email up in `registered_users` and compares the
 * password, and the dashboard's log-out button.
 */
module Login {
  import opened Wrappers
  import opened PyText
  import EmailPattern
  import opened SessionState
  import Registration

  /** `valid_email(s)`: `False` for `None` and `""`, otherwise the pattern. */
  predicate ValidEmail(s: Option<string>): (b: bool)
    ensures b ==> s.Some? && s.value != "" && Registration.ValidEmail(s)
  {
    if s.None? || s.value == "" then false else EmailPattern.Accepts(s.value)
  }

  /** The two pages accept the same emails. */
  lemma ValidEmailAgrees(s: Option<string>)
    ensures ValidEmail(s) == Registration.ValidEmail(s)
  {
    if s.Some? && s.value == "" {
      assert !EmailPattern.Accepts("");
    }
  }

  /** What the submit handler shows. */
  datatype Outcome = InvalidEmail | NoRegisteredUsers | NoAccount | IncorrectPassword | Welcome(user: LoggedInUser) {

    function Message(): string {
      match this
      case InvalidEmail => "Please enter a valid email address."
      case NoRegisteredUsers => "No registered users found. Please register first using the Create Account page."
      case NoAccount => "No account found with that email. Please register first."
      case IncorrectPassword => "Incorrect password."
      case Welcome(u) => "Welcome back, " + u.fullName + "!"
    }
  }

  /** The handler's decision: email shape, then a non-empty `registered_users`, then the key, then the password. */
  function Decide(users: Option<Users>, email: string, password: string): (o: Outcome)
    ensures o.Welcome? ==> users.Some? && email in users.value && users.value[email].password == password
    ensures o == NoAccount ==> users.Some? && email !in users.value
    ensures o == InvalidEmail <==> !ValidEmail(Some(email))
    ensures o == NoRegisteredUsers <==> ValidEmail(Some(email)) && (users.None? || users.value == map[])
    ensures o == NoAccount
        <==> ValidEmail(Some(email)) && users.Some? && users.value != map[] && email !in users.value
    ensures o == IncorrectPassword
        <==> ValidEmail(Some(email)) && users.Some? && email in users.value && users.value[email].password != password
  {
    if !ValidEmail(Some(email)) then InvalidEmail
    else if users.None? || users.value == map[] then NoRegisteredUsers
    else if email !in users.value then NoAccount
    else if users.value[email].password != password then IncorrectPassword
    else Welcome(LoggedInUser(email, users.value[email].fullName))
  }

  /** Sign-in succeeds exactly for a valid email that is a key whose stored password equals the one typed. */
  lemma WelcomeIff(users: Option<Users>, email: string, password: string)
    ensures Decide(users, email, password).Welcome?
        <==> ValidEmail(Some(email)) && users.Some? && email in users.value && users.value[email].password == password
    ensures Decide(users, email, password).Welcome? ==>
              Decide(users, email, password).user == LoggedInUser(email, users.value[email].fullName)
  {
  }

  /** The lengths of the failure messages, which are pairwise different. */
  lemma FailureMessageLengths()
    ensures |InvalidEmail.Message()| == 35
    ensures |NoRegisteredUsers.Message()| == 79
    ensures |NoAccount.Message()| == 56
    ensures |IncorrectPassword.Message()| == 19
  {
    ShortMessageLengths();
  }

  /** The lengths of the three shorter failure messages. */
  lemma ShortMessageLengths()
    ensures |InvalidEmail.Message()| == 35
    ensures |NoAccount.Message()| == 56
    ensures |IncorrectPassword.Message()| == 19
  {
  }

  /** Different failures are reported with different messages. */
  lemma FailureMessagesDistinct(o1: Outcome, o2: Outcome)
    requires !o1.Welcome? && !o2.Welcome? && o1 != o2
    ensures o1.Message() != o2.Message()
  {
    FailureMessageLengths();
  }

  /** An account the registration page has just created can sign in with its password, and with no other. */
  lemma RegisterThenSignIn(users: Users, fullName: string, email: string, password: string, confirm: string, typed: string)
    requires Registration.Decide(users, fullName, email, password, confirm) == Registration.Created
    ensures var after := Registration.UsersAfter(users, fullName, email, password, confirm);
      Decide(Some(after), email, typed)
        == if typed == password then Welcome(LoggedInUser(email, Strip(fullName))) else IncorrectPassword
  {
    Registration.CreatedIff(users, fullName, email, password, confirm);
    ValidEmailAgrees(Some(email));
    var after := Registration.UsersAfter(users, fullName, email, password, confirm);
    assert after == users[email := StoredUser(Strip(fullName), password)];
    assert email in after && after != map[];
  }

  /**
   * The submit block (lines 57-84). On success it stores the user and sets
   * `logged_in`; on every failure the session is left as it was.
   */
  method Submit(st: Session, email: string, password: string) returns (outcome: Outcome)
    modifies st
    ensures outcome == Decide(old(st.registeredUsers), email, password)
    ensures st.registeredUsers == old(st.registeredUsers)
    ensures outcome.Welcome? ==> st.user == Some(outcome.user) && st.loggedIn == Some(true)
    ensures !outcome.Welcome? ==> st.user == old(st.user) && st.loggedIn == old(st.loggedIn)
  {
    var errors: seq<string> := [];
    if !ValidEmail(Some(email)) {
      errors := errors + ["Please enter a valid email address."];
    }
    if errors != [] {
      return InvalidEmail;
    }
    var users := st.registeredUsers;
    if users.None? || users.value == map[] {
      return NoRegisteredUsers;
    }
    if email !in users.value {
      return NoAccount;
    }
    var user := users.value[email];
    if user.password != password {
      return IncorrectPassword;
    }
    st.user := Some(LoggedInUser(email, user.fullName));
    st.loggedIn := Some(true);
    outcome := Welcome(LoggedInUser(email, user.fullName));
  }

  /** The "Log out" button of `render_dashboard` (lines 32-37): both keys are removed. */
  method Logout(st: Session)
    modifies st
    ensures st.loggedIn == None && st.user == None
    ensures st.registeredUsers == old(st.registeredUsers)
  {
    st.loggedIn := None;
    st.user := None;
  }
}
