/**
 * The account-creation page (frontend/registration.py): the email shape check,
 * the password policy and the form's submit handler, which collects every
 * problem with the form and otherwise adds the account to
 * `st.session_state["registered_users"]`.
 */
module Registration {
  import opened Wrappers
  import opened PyText
  import EmailPattern
  import opened SessionState

  /** `valid_email(s)`: the pattern applied to `s or ""`, so `None` and `""` are rejected. */
  predicate ValidEmail(s: Option<string>): (b: bool)
    ensures b ==> s.Some? && s.value != ""
  {
    EmailPattern.Accepts(s.GetOr(""))
  }

  /**
   * An accepted email is a non-empty string with exactly one `@`, a non-empty
   * part before it and no whitespace but possibly a final newline.
   */
  lemma ValidEmailShape(s: Option<string>)
    requires ValidEmail(s)
    ensures s.Some? && s.value != ""
    ensures PyText.Find(s.value, '@') > 0
    ensures forall j | 0 <= j < |s.value| && s.value[j] == '@' :: j == PyText.Find(s.value, '@')
    ensures forall j | 0 <= j < |s.value| && IsSpace(s.value[j]) :: j == |s.value| - 1 && s.value[j] == '\n'
  {
    EmailPattern.AcceptedShape(s.GetOr(""));
  }

  // ---------------------------------------------------------------------------
  // password_issues
  // ---------------------------------------------------------------------------

  /** The characters of the class `[!@#$%^&*(),.?":{}|<>]`. */
  const SpecialChars: string := "!@#$%^&*(),.?\":{}|<>"

  /** One rule of the password policy; each stands for the message it is reported with. */
  datatype Rule = MinLength | Uppercase | Digit | Special {

    function Message(): string {
      match this
      case MinLength => "At least 8 characters."
      case Uppercase => "At least one uppercase letter."
      case Digit => "At least one number."
      case Special => "At least one special character (e.g. !@#$%)."
    }

    /** The place of the rule in the order the policy checks them. */
    function Position(): nat {
      match this
      case MinLength => 0
      case Uppercase => 1
      case Digit => 2
      case Special => 3
    }
  }

  /** The order in which the policy checks its rules. */
  const PolicyOrder: seq<Rule> := [MinLength, Uppercase, Digit, Special]

  /** Whether `pw` meets the rule. */
  predicate Satisfies(pw: string, rule: Rule) {
    match rule
    case MinLength => |pw| >= 8
    case Uppercase => exists i | 0 <= i < |pw| :: IsAsciiUpper(pw[i])
    case Digit => exists i | 0 <= i < |pw| :: IsAsciiDigit(pw[i])
    case Special => exists i | 0 <= i < |pw| :: pw[i] in SpecialChars
  }

  /** The policy as one condition. There is no rule about lower-case letters. */
  predicate Strong(pw: string) {
    && |pw| >= 8
    && (exists i | 0 <= i < |pw| :: IsAsciiUpper(pw[i]))
    && (exists i | 0 <= i < |pw| :: IsAsciiDigit(pw[i]))
    && (exists i | 0 <= i < |pw| :: pw[i] in SpecialChars)
  }

  /** The rules of `rules` that `pw` breaks, in the order of `rules`. */
  function Broken(rules: seq<Rule>, pw: string): seq<Rule> {
    if rules == [] then [] else Check(pw, rules[0]) + Broken(rules[1..], pw)
  }

  /** The reference for `password_issues`: the rules broken by `pw`, in policy order. */
  function ViolatedRules(pw: string): seq<Rule> {
    Broken(PolicyOrder, pw)
  }

  /** `[rule]` when `pw` breaks it, else `[]`. */
  function Check(pw: string, rule: Rule): seq<Rule> {
    if Satisfies(pw, rule) then [] else [rule]
  }

  /** Checking one more rule at the end appends its result. */
  lemma {:induction false} BrokenSnoc(rules: seq<Rule>, r: Rule, pw: string)
    ensures Broken(rules + [r], pw) == Broken(rules, pw) + Check(pw, r)
  {
    if rules == [] {
      assert Broken([r], pw) == Check(pw, r) + Broken([], pw);
    } else {
      assert (rules + [r])[1..] == rules[1..] + [r];
      BrokenSnoc(rules[1..], r, pw);
    }
  }

  /** The policy's rules checked one after another. */
  lemma ViolatedRulesUnfolded(pw: string)
    ensures ViolatedRules(pw) == Check(pw, MinLength) + Check(pw, Uppercase) + Check(pw, Digit) + Check(pw, Special)
  {
    BrokenSnoc([MinLength, Uppercase, Digit], Special, pw);
    assert [MinLength, Uppercase, Digit] + [Special] == PolicyOrder;
    BrokenSnoc([MinLength, Uppercase], Digit, pw);
    assert [MinLength, Uppercase] + [Digit] == [MinLength, Uppercase, Digit];
    BrokenSnoc([MinLength], Uppercase, pw);
    assert [MinLength] + [Uppercase] == [MinLength, Uppercase];
    BrokenSnoc([], MinLength, pw);
    assert [] + [MinLength] == [MinLength];
  }

  /** `password_issues(pw)`: one `append` per broken rule, in policy order. */
  method PasswordIssues(pw: string) returns (issues: seq<Rule>)
    ensures issues == ViolatedRules(pw)
  {
    issues := [];
    if |pw| < 8 {
      issues := issues + [MinLength];
    }
    assert issues == Check(pw, MinLength);
    ghost var upTo1 := issues;
    if !(exists i | 0 <= i < |pw| :: IsAsciiUpper(pw[i])) {
      issues := issues + [Uppercase];
    }
    assert issues == upTo1 + Check(pw, Uppercase);
    ghost var upTo2 := issues;
    if !(exists i | 0 <= i < |pw| :: IsAsciiDigit(pw[i])) {
      issues := issues + [Digit];
    }
    assert issues == upTo2 + Check(pw, Digit);
    ghost var upTo3 := issues;
    if !(exists i | 0 <= i < |pw| :: pw[i] in SpecialChars) {
      issues := issues + [Special];
    }
    assert issues == upTo3 + Check(pw, Special);
    ViolatedRulesUnfolded(pw);
  }

  lemma {:induction false} BrokenExact(rules: seq<Rule>, pw: string, r: Rule)
    ensures r in Broken(rules, pw) <==> r in rules && !Satisfies(pw, r)
  {
    if rules != [] {
      BrokenExact(rules[1..], pw, r);
      assert rules == [rules[0]] + rules[1..];
    }
  }

  /** The rules of `rs` are in policy order, each at most once. */
  predicate InPolicyOrder(rs: seq<Rule>) {
    forall i, j | 0 <= i < j < |rs| :: rs[i].Position() < rs[j].Position()
  }

  lemma {:induction false} BrokenKeepsOrder(rules: seq<Rule>, pw: string)
    requires InPolicyOrder(rules)
    ensures InPolicyOrder(Broken(rules, pw))
  {
    if rules != [] {
      var t := Broken(rules[1..], pw);
      assert InPolicyOrder(rules[1..]) by {
        forall i, j | 0 <= i < j < |rules[1..]| ensures rules[1..][i].Position() < rules[1..][j].Position() {
          assert rules[1..][i] == rules[i + 1] && rules[1..][j] == rules[j + 1];
        }
      }
      BrokenKeepsOrder(rules[1..], pw);
      forall r | r in t ensures rules[0].Position() < r.Position() {
        BrokenExact(rules[1..], pw, r);
        var k :| 0 <= k < |rules[1..]| && rules[1..][k] == r;
        assert rules[k + 1] == r;
      }
      var b := Broken(rules, pw);
      if !Satisfies(pw, rules[0]) {
        assert b == [rules[0]] + t;
        forall i, j | 0 <= i < j < |b| ensures b[i].Position() < b[j].Position() {
          assert b[j] == t[j - 1];
          if i > 0 { assert b[i] == t[i - 1]; } else { assert t[j - 1] in t; }
        }
      } else {
        assert b == t;
      }
    }
  }

  /** A rule is reported exactly when `pw` breaks it. */
  lemma ViolatedRulesExact(pw: string, r: Rule)
    ensures r in ViolatedRules(pw) <==> !Satisfies(pw, r)
  {
    BrokenExact(PolicyOrder, pw, r);
  }

  /** The reported rules come in policy order, each at most once, so there are at most four. */
  lemma ViolatedRulesOrdered(pw: string)
    ensures InPolicyOrder(ViolatedRules(pw)) && |ViolatedRules(pw)| <= 4
  {
    BrokenKeepsOrder(PolicyOrder, pw);
    var v := ViolatedRules(pw);
    if v != [] {
      OrderedPositions(v, 0);
    }
  }

  lemma {:induction false} OrderedPositions(v: seq<Rule>, i: nat)
    requires InPolicyOrder(v)
    requires i < |v|
    ensures v[i].Position() >= i && v[i].Position() <= 3 - (|v| - 1 - i)
    decreases |v|, i
  {
    if i > 0 {
      OrderedPositions(v, i - 1);
    }
    if i < |v| - 1 {
      OrderedPositions(v[1..], i);
      assert v[1..][i] == v[i + 1];
    }
  }

  /** `password_issues(pw)` is empty exactly when `pw` meets the whole policy. */
  lemma NoIssuesIffStrong(pw: string)
    ensures ViolatedRules(pw) == [] <==> Strong(pw)
  {
    forall r: Rule ensures r in ViolatedRules(pw) <==> !Satisfies(pw, r) {
      ViolatedRulesExact(pw, r);
    }
    if ViolatedRules(pw) == [] {
      assert Satisfies(pw, MinLength) && Satisfies(pw, Uppercase) && Satisfies(pw, Digit) && Satisfies(pw, Special);
    } else {
      var r := ViolatedRules(pw)[0];
      assert !Satisfies(pw, r);
    }
  }

  /** The four policy messages are pairwise different, so a list of messages names its rules. */
  lemma RuleMessagesDistinct(r1: Rule, r2: Rule)
    ensures r1.Message() == r2.Message() ==> r1 == r2
  {
  }

  // ---------------------------------------------------------------------------
  // The submit handler
  // ---------------------------------------------------------------------------

  /** One message the handler shows with `st.error`. */
  datatype RegError = NameRequired | InvalidEmail | WeakPassword(rule: Rule) | PasswordMismatch {

    function Message(): string {
      match this
      case NameRequired => "Full name is required."
      case InvalidEmail => "Please enter a valid email."
      case WeakPassword(r) => r.Message()
      case PasswordMismatch => "Password and confirm password do not match."
    }

    /** The place of the error in the order the handler checks. */
    function Rank(): nat {
      match this
      case NameRequired => 0
      case InvalidEmail => 1
      case WeakPassword(r) => 2 + r.Position()
      case PasswordMismatch => 6
    }
  }

  /** The message shown when the form is valid but the email is already a key. */
  const DuplicateMessage: string := "An account with this email already exists. Try logging in or use a different email."

  /** Whether the submitted form has the problem that `e` reports. */
  predicate Exhibits(e: RegError, fullName: string, email: string, password: string, confirm: string) {
    match e
    case NameRequired => Strip(fullName) == ""
    case InvalidEmail => !ValidEmail(Some(email))
    case WeakPassword(r) => !Satisfies(password, r)
    case PasswordMismatch => password != confirm
  }

  /** `errors += pw_issues` */
  function AsErrors(rules: seq<Rule>): (es: seq<RegError>)
    ensures |es| == |rules| && forall i | 0 <= i < |rules| :: es[i] == WeakPassword(rules[i])
  {
    seq(|rules|, i requires 0 <= i < |rules| => WeakPassword(rules[i]))
  }

  /** The list `errors` built from the four checks, in the order the handler makes them. */
  function ErrorList(nameMissing: bool, emailInvalid: bool, issues: seq<Rule>, mismatch: bool): seq<RegError> {
    (if nameMissing then [NameRequired] else [])
    + (if emailInvalid then [InvalidEmail] else [])
    + AsErrors(issues)
    + (if mismatch then [PasswordMismatch] else [])
  }

  /** The list `errors` that the handler builds for a submitted form. */
  function FormErrors(fullName: string, email: string, password: string, confirm: string): seq<RegError> {
    ErrorList(Strip(fullName) == "", !ValidEmail(Some(email)), ViolatedRules(password), password != confirm)
  }

  /** The password part of the list holds exactly the broken rules. */
  lemma InAsErrors(rules: seq<Rule>, e: RegError)
    ensures e in AsErrors(rules) <==> e.WeakPassword? && e.rule in rules
  {
    var es := AsErrors(rules);
    if e in es {
      var i :| 0 <= i < |es| && es[i] == e;
      assert rules[i] == e.rule;
    }
    if e.WeakPassword? && e.rule in rules {
      var i :| 0 <= i < |rules| && rules[i] == e.rule;
      assert es[i] == e;
    }
  }

  /** An error is in the list exactly when its check failed. */
  lemma ErrorListMembers(nameMissing: bool, emailInvalid: bool, issues: seq<Rule>, mismatch: bool, e: RegError)
    ensures e in ErrorList(nameMissing, emailInvalid, issues, mismatch)
        <==> match e
             case NameRequired => nameMissing
             case InvalidEmail => emailInvalid
             case WeakPassword(r) => r in issues
             case PasswordMismatch => mismatch
  {
    var name := if nameMissing then [NameRequired] else [];
    var mail := if emailInvalid then [InvalidEmail] else [];
    var rules := AsErrors(issues);
    var tail := if mismatch then [PasswordMismatch] else [];
    assert ErrorList(nameMissing, emailInvalid, issues, mismatch) == name + mail + rules + tail;
    InAsErrors(issues, e);
    match e
    case WeakPassword(r) =>
      assert e !in name && e !in mail && e !in tail;
    case NameRequired =>
      assert e !in mail && e !in rules && e !in tail;
    case InvalidEmail =>
      assert e !in name && e !in rules && e !in tail;
    case PasswordMismatch =>
      assert e !in name && e !in mail && e !in rules;
  }

  /** Every problem of the form is reported, and nothing else. */
  lemma FormErrorsExact(fullName: string, email: string, password: string, confirm: string, e: RegError)
    ensures e in FormErrors(fullName, email, password, confirm) <==> Exhibits(e, fullName, email, password, confirm)
  {
    ErrorListMembers(Strip(fullName) == "", !ValidEmail(Some(email)), ViolatedRules(password), password != confirm, e);
    if e.WeakPassword? {
      ViolatedRulesExact(password, e.rule);
    }
  }

  /** The errors of `es` come in strictly increasing rank. */
  predicate RankIncreasing(es: seq<RegError>) {
    forall i, j | 0 <= i < j < |es| :: es[i].Rank() < es[j].Rank()
  }

  /** Two lists in increasing rank, all of the first ranked below `m` and all of the second above it, concatenate to one. */
  lemma RankIncreasingConcat(a: seq<RegError>, b: seq<RegError>, m: int)
    requires RankIncreasing(a) && RankIncreasing(b)
    requires forall i | 0 <= i < |a| :: a[i].Rank() <= m
    requires forall i | 0 <= i < |b| :: b[i].Rank() > m
    ensures RankIncreasing(a + b)
  {
    var c := a + b;
    forall i, j | 0 <= i < j < |c| ensures c[i].Rank() < c[j].Rank() {
      if j < |a| {
        assert c[i] == a[i] && c[j] == a[j];
      } else if i < |a| {
        assert c[i] == a[i] && c[j] == b[j - |a|];
      } else {
        assert c[i] == b[i - |a|] && c[j] == b[j - |a|];
      }
    }
  }

  /** The password errors are ranked 2 to 5, in increasing rank. */
  lemma AsErrorsRanks(v: seq<Rule>)
    requires InPolicyOrder(v)
    ensures RankIncreasing(AsErrors(v))
    ensures forall i | 0 <= i < |AsErrors(v)| :: 2 <= AsErrors(v)[i].Rank() <= 5
  {
  }

  /** With the password rules in policy order, the list is in increasing rank. */
  lemma ErrorListOrdered(nameMissing: bool, emailInvalid: bool, issues: seq<Rule>, mismatch: bool)
    requires InPolicyOrder(issues)
    ensures RankIncreasing(ErrorList(nameMissing, emailInvalid, issues, mismatch))
  {
    var name := if nameMissing then [NameRequired] else [];
    var mail := if emailInvalid then [InvalidEmail] else [];
    var w := AsErrors(issues);
    var tail := if mismatch then [PasswordMismatch] else [];
    assert ErrorList(nameMissing, emailInvalid, issues, mismatch) == name + mail + w + tail;
    AsErrorsRanks(issues);
    RankIncreasingConcat(name, mail, 0);
    RankIncreasingConcat(name + mail, w, 1);
    RankIncreasingConcat(name + mail + w, tail, 5);
  }

  /** The errors come in the handler's order: name, email, password rules in policy order, confirmation. */
  lemma FormErrorsOrdered(fullName: string, email: string, password: string, confirm: string)
    ensures RankIncreasing(FormErrors(fullName, email, password, confirm))
  {
    ViolatedRulesOrdered(password);
    ErrorListOrdered(Strip(fullName) == "", !ValidEmail(Some(email)), ViolatedRules(password), password != confirm);
  }

  /** No error at all exactly when the name, the email, the password and its confirmation are all acceptable. */
  lemma FormErrorsEmptyIff(fullName: string, email: string, password: string, confirm: string)
    ensures FormErrors(fullName, email, password, confirm) == []
        <==> Strip(fullName) != "" && ValidEmail(Some(email)) && Strong(password) && password == confirm
  {
    NoIssuesIffStrong(password);
  }

  /** What the submit handler reports. */
  datatype Outcome = Rejected(errors: seq<RegError>) | AlreadyExists | Created {

    /** The messages the handler shows with `st.error`, in order. */
    function ErrorMessages(): (ms: seq<string>)
      ensures Rejected? ==> |ms| == |errors| && forall i | 0 <= i < |ms| :: ms[i] == errors[i].Message()
      ensures AlreadyExists? ==> ms == [DuplicateMessage]
      ensures Created? ==> ms == []
    {
      match this
      case Rejected(es) => seq(|es|, i requires 0 <= i < |es| => es[i].Message())
      case AlreadyExists => [DuplicateMessage]
      case Created => []
    }
  }

  /** Every message of the form's checks is shorter than the duplicate-email message, so is never mistaken for it. */
  lemma DuplicateMessageIsNew(e: RegError)
    ensures |e.Message()| <= 44 < |DuplicateMessage|
    ensures e.Message() != DuplicateMessage
  {
    assert |DuplicateMessage| == 83;
    match e
    case NameRequired =>
    case InvalidEmail =>
    case PasswordMismatch =>
    case WeakPassword(r) =>
      match r
      case MinLength =>
      case Uppercase =>
      case Digit =>
      case Special =>
  }

  /** The duplicate-email message is shown exactly when the form is valid and the email is already a key. */
  lemma DuplicateShownIff(users: Users, fullName: string, email: string, password: string, confirm: string)
    ensures DuplicateMessage in Decide(users, fullName, email, password, confirm).ErrorMessages()
        <==> FormErrors(fullName, email, password, confirm) == [] && email in users
  {
    var o := Decide(users, fullName, email, password, confirm);
    var ms := o.ErrorMessages();
    if o.Rejected? && DuplicateMessage in ms {
      var i :| 0 <= i < |ms| && ms[i] == DuplicateMessage;
      DuplicateMessageIsNew(o.errors[i]);
    }
  }

  /** The handler's decision for a form submitted against `users`. */
  function Decide(users: Users, fullName: string, email: string, password: string, confirm: string): (o: Outcome)
    ensures o.Rejected? <==> FormErrors(fullName, email, password, confirm) != []
    ensures o.Rejected? ==> o.errors == FormErrors(fullName, email, password, confirm)
    ensures o == AlreadyExists <==> FormErrors(fullName, email, password, confirm) == [] && email in users
  {
    var errors := FormErrors(fullName, email, password, confirm);
    if errors != [] then Rejected(errors)
    else if email in users then AlreadyExists
    else Created
  }

  /** `registered_users` after the handler has run. */
  function UsersAfter(users: Users, fullName: string, email: string, password: string, confirm: string): (r: Users)
    ensures forall k | k in users :: k in r && r[k] == users[k]
    ensures forall k | k in r :: k in users || k == email
  {
    if Decide(users, fullName, email, password, confirm) == Created
    then users[email := StoredUser(Strip(fullName), password)]
    else users
  }

  /** The entries the page can create: a valid email key, a stripped non-empty name and a password meeting the policy. */
  ghost predicate WellFormed(users: Users) {
    forall e | e in users ::
      && ValidEmail(Some(e))
      && users[e].fullName != ""
      && Strip(users[e].fullName) == users[e].fullName
      && Strong(users[e].password)
  }

  /** An account is created exactly when the form has no error and the email is not yet a key. */
  lemma CreatedIff(users: Users, fullName: string, email: string, password: string, confirm: string)
    ensures Decide(users, fullName, email, password, confirm) == Created
        <==> && Strip(fullName) != "" && ValidEmail(Some(email)) && Strong(password) && password == confirm
             && email !in users
  {
    FormErrorsEmptyIff(fullName, email, password, confirm);
  }

  /** Without a new account, `registered_users` is left as it was; with one, exactly one key is added. */
  lemma UsersAfterFrame(users: Users, fullName: string, email: string, password: string, confirm: string)
    ensures var after := UsersAfter(users, fullName, email, password, confirm);
      if Decide(users, fullName, email, password, confirm) == Created then
        && email !in users
        && after.Keys == users.Keys + {email}
        && after[email] == StoredUser(Strip(fullName), password)
        && forall e | e in users :: after[e] == users[e]
      else after == users
  {
  }

  /** Every entry the handler adds is well formed, so the page keeps `registered_users` well formed. */
  lemma UsersAfterWellFormed(users: Users, fullName: string, email: string, password: string, confirm: string)
    requires WellFormed(users)
    ensures WellFormed(UsersAfter(users, fullName, email, password, confirm))
  {
    if Decide(users, fullName, email, password, confirm) == Created {
      CreatedIff(users, fullName, email, password, confirm);
      StripIdempotent(fullName);
    }
  }

  /**
   * The registration page on a submitted form: lines 35-36 create
   * `registered_users` when it is missing, then the handler collects the
   * errors and, when there are none and the email is new, stores the account.
   */
  method Submit(st: Session, fullName: string, email: string, password: string, confirm: string)
    returns (outcome: Outcome)
    modifies st
    ensures var users := old(st.registeredUsers).GetOr(map[]);
      && outcome == Decide(users, fullName, email, password, confirm)
      && st.registeredUsers == Some(UsersAfter(users, fullName, email, password, confirm))
    ensures st.user == old(st.user) && st.loggedIn == old(st.loggedIn)
  {
    if st.registeredUsers.None? {
      st.registeredUsers := Some(map[]);
    }
    ghost var nameMissing, emailInvalid, mismatch := Strip(fullName) == "", !ValidEmail(Some(email)), password != confirm;
    var errors: seq<RegError> := [];
    if Strip(fullName) == "" {
      errors := errors + [NameRequired];
    }
    if !ValidEmail(Some(email)) {
      errors := errors + [InvalidEmail];
    }
    ghost var head := errors;
    assert head == (if nameMissing then [NameRequired] else []) + (if emailInvalid then [InvalidEmail] else []);
    var pwIssues := PasswordIssues(password);
    if pwIssues != [] {
      errors := errors + AsErrors(pwIssues);
    }
    assert errors == head + AsErrors(pwIssues);
    ghost var body := errors;
    if password != confirm {
      errors := errors + [PasswordMismatch];
    }
    assert errors == body + (if mismatch then [PasswordMismatch] else []);
    assert errors == ErrorList(nameMissing, emailInvalid, pwIssues, mismatch);
    if errors != [] {
      outcome := Rejected(errors);
    } else {
      var users := st.registeredUsers.value;
      if email in users {
        outcome := AlreadyExists;
      } else {
        st.registeredUsers := Some(users[email := StoredUser(Strip(fullName), password)]);
        outcome := Created;
      }
    }
  }
}
