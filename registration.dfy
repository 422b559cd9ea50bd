/**
 * The registration form's submit handler: five rules checked in a fixed
 * order, the first failing one deciding the message, then an append to the
 * stored user list. The storage entry `users` is the field `stored` of a
 * UserStore; its JSON encoding is not modelled.
 */
module Registration {
  import opened Wrappers
  import opened Strings
  import opened Sequences

  /** A stored account; the password is kept as typed. */
  datatype User = User(username: string, email: string, password: string)

  /** The four field values of the form when it is submitted. */
  datatype Form = Form(username: string, email: string, password: string, confirmPassword: string)

  /** Which message the handler shows: one per rule, or success. */
  datatype Outcome =
    | UsernameMissing
    | EmailInvalid
    | PasswordWeak
    | PasswordMismatch
    | EmailTaken
    | Registered

  // ---------------------------------------------------------------- email

  /** A character `[^\s@]` matches. */
  predicate IsEmailChar(c: char)
  {
    !IsWhitespace(c) && c != '@'
  }

  /** A string `[^\s@]+` matches. */
  predicate IsEmailPart(s: string)
  {
    |s| > 0 && forall k :: 0 <= k < |s| ==> IsEmailChar(s[k])
  }

  /** The position of the first occurrence of `c` in `s`, if any. */
  function IndexOf(s: string, c: char): (r: Option<nat>)
    ensures r.Some? ==> r.value < |s| && s[r.value] == c && c !in s[..r.value]
    ensures r.None? ==> c !in s
  {
    if s == [] then None
    else if s[0] == c then Some(0)
    else match IndexOf(s[1..], c)
      case None => None
      case Some(i) =>
        assert s[..i + 1] == [s[0]] + s[1..][..i];
        Some(i + 1)
  }

  /**
   * `validateEmail`: whether the whole string matches `^[^\s@]+@[^\s@]+\.[^\s@]+$`.
   * Its only `@` splits it into a local part and a domain; the domain needs
   * a `.` that is neither its first nor its last character.
   */
  function ValidateEmail(email: string): bool
  {
    match IndexOf(email, '@')
    case None => false
    case Some(at) =>
      var local, domain := email[..at], email[at + 1..];
      && IsEmailPart(local)
      && IsEmailPart(domain)
      && |domain| >= 3 && '.' in domain[1..|domain| - 1]
  }

  /** The language of the regular expression: `a@b.c` with three `[^\s@]+` parts. */
  ghost predicate IsEmailShape(email: string)
  {
    exists a, b, c :: IsEmailPart(a) && IsEmailPart(b) && IsEmailPart(c) && email == a + "@" + b + "." + c
  }

  /** An accepted email splits as `a@b.c` into three `[^\s@]+` parts. */
  lemma EmailParts(email: string) returns (a: string, b: string, c: string)
    requires ValidateEmail(email)
    ensures IsEmailPart(a) && IsEmailPart(b) && IsEmailPart(c)
    ensures email == a + "@" + b + "." + c
  {
    var at := IndexOf(email, '@').value;
    var domain := email[at + 1..];
    var inner := domain[1..|domain| - 1];
    var j :| 0 <= j < |inner| && inner[j] == '.';
    var dot := j + 1;
    assert domain[dot] == '.';
    a, b, c := email[..at], domain[..dot], domain[dot + 1..];
    assert domain == b + "." + c;
    assert email == a + "@" + domain;
  }

  /** The first `c` of `a + [c] + rest` is the one after `a` when `a` holds none. */
  lemma {:induction false} IndexOfAfter(a: string, c: char, rest: string)
    requires c !in a
    ensures IndexOf(a + [c] + rest, c) == Some(|a|)
  {
    var s := a + [c] + rest;
    if a != [] {
      IndexOfAfter(a[1..], c, rest);
      assert s[0] == a[0] && s[1..] == a[1..] + [c] + rest;
    } else {
      assert s[0] == c;
    }
  }

  /** `b.c` is itself a `[^\s@]+` part when `b` and `c` are. */
  lemma DottedPart(b: string, c: string)
    requires IsEmailPart(b) && IsEmailPart(c)
    ensures IsEmailPart(b + "." + c)
  {
    var d := b + "." + c;
    forall k | 0 <= k < |d| ensures IsEmailChar(d[k]) {
      if k < |b| {
        assert d[k] == b[k];
      } else if k > |b| {
        assert d[k] == c[k - |b| - 1];
      } else {
        assert d[k] == '.';
      }
    }
  }

  /** Every `a@b.c` with three `[^\s@]+` parts is accepted. */
  lemma EmailFromParts(a: string, b: string, c: string)
    requires IsEmailPart(a) && IsEmailPart(b) && IsEmailPart(c)
    ensures ValidateEmail(a + "@" + b + "." + c)
  {
    var domain := b + "." + c;
    var email := a + "@" + domain;
    assert a + "@" + b + "." + c == email;
    assert '@' !in a;
    IndexOfAfter(a, '@', domain);
    assert email[..|a|] == a && email[|a| + 1..] == domain;
    DottedPart(b, c);
    assert domain[1..|domain| - 1][|b| - 1] == '.';
  }

  /** `validateEmail` accepts exactly the strings of the form `a@b.c`. */
  lemma ValidateEmailMeansShape(email: string)
    ensures ValidateEmail(email) <==> IsEmailShape(email)
  {
    if ValidateEmail(email) {
      var a, b, c := EmailParts(email);
    }
    if IsEmailShape(email) {
      var a, b, c :| IsEmailPart(a) && IsEmailPart(b) && IsEmailPart(c) && email == a + "@" + b + "." + c;
      EmailFromParts(a, b, c);
    }
  }

  /** An accepted email holds exactly one `@`. */
  lemma AcceptedEmailHasOneAt(email: string)
    requires ValidateEmail(email)
    ensures multiset(email)['@'] == 1
  {
    var a, b, c := EmailParts(email);
    assert '@' !in a && '@' !in b && '@' !in c;
    assert multiset(email) == multiset(a) + multiset{'@'} + multiset(b) + multiset{'.'} + multiset(c);
  }

  /** An accepted email holds no white space. */
  lemma AcceptedEmailHasNoWhitespace(email: string)
    requires ValidateEmail(email)
    ensures forall k :: 0 <= k < |email| ==> !IsWhitespace(email[k])
  {
    var at := IndexOf(email, '@').value;
    var local, domain := email[..at], email[at + 1..];
    forall k | 0 <= k < |email| ensures !IsWhitespace(email[k]) {
      if k < at {
        assert email[k] == local[k];
      } else if k > at {
        assert email[k] == domain[k - at - 1];
      }
    }
  }

  // ------------------------------------------------------------- password

  /** A character `[a-zA-Z]` matches. */
  predicate IsAsciiLetter(c: char)
  {
    ('a' <= c <= 'z') || ('A' <= c <= 'Z')
  }

  /** A character `[0-9]` matches. */
  predicate IsAsciiDigit(c: char)
  {
    '0' <= c <= '9'
  }

  /** The password rule: at least 8 characters, a letter and a digit among them. */
  function PasswordAcceptable(password: string): (ok: bool)
    ensures ok <==> && |password| >= 8
                    && (exists i :: 0 <= i < |password| && IsAsciiLetter(password[i]))
                    && (exists i :: 0 <= i < |password| && IsAsciiDigit(password[i]))
  {
    !(|password| < 8 || !Any(password, IsAsciiLetter) || !Any(password, IsAsciiDigit))
  }

  // ----------------------------------------------------------- validation

  /** Some stored user already has this email (exact, case-sensitive comparison). */
  function EmailRegistered(users: seq<User>, email: string): (r: bool)
    ensures r <==> exists i :: 0 <= i < |users| && users[i].email == email
  {
    Any(users, (u: User) => u.email == email)
  }

  /** The outcome of a submission against the stored users: the first failing rule, or success. */
  function Validate(form: Form, users: seq<User>): Outcome
  {
    if form.username == "" then UsernameMissing
    else if !ValidateEmail(form.email) then EmailInvalid
    else if !PasswordAcceptable(form.password) then PasswordWeak
    else if form.password != form.confirmPassword then PasswordMismatch
    else if EmailRegistered(users, form.email) then EmailTaken
    else Registered
  }

  /** The five rules, numbered in the order the handler checks them. */
  ghost predicate RuleHolds(k: nat, form: Form, users: seq<User>)
  {
    match k
    case 0 => form.username != ""
    case 1 => IsEmailShape(form.email)
    case 2 => |form.password| >= 8
              && (exists i :: 0 <= i < |form.password| && IsAsciiLetter(form.password[i]))
              && (exists i :: 0 <= i < |form.password| && IsAsciiDigit(form.password[i]))
    case 3 => form.password == form.confirmPassword
    case _ => forall i :: 0 <= i < |users| ==> users[i].email != form.email
  }

  /** The message reported when rule `k` is the first to fail. */
  function RuleFailure(k: nat): Outcome
    requires k < 5
  {
    [UsernameMissing, EmailInvalid, PasswordWeak, PasswordMismatch, EmailTaken][k]
  }

  /**
   * Validation reports the first rule that fails, and succeeds exactly when
   * all five hold.
   */
  lemma ValidateReportsFirstFailure(form: Form, users: seq<User>)
    ensures Validate(form, users) == Registered <==> forall k :: 0 <= k < 5 ==> RuleHolds(k, form, users)
    ensures forall k :: 0 <= k < 5 ==>
              (Validate(form, users) == RuleFailure(k)
               <==> !RuleHolds(k, form, users) && forall j :: 0 <= j < k ==> RuleHolds(j, form, users))
  {
    ValidateEmailMeansShape(form.email);
    assert RuleHolds(0, form, users) <==> form.username != "";
    assert RuleHolds(1, form, users) <==> ValidateEmail(form.email);
    assert RuleHolds(2, form, users) <==> PasswordAcceptable(form.password);
    assert RuleHolds(3, form, users) <==> form.password == form.confirmPassword;
    assert RuleHolds(4, form, users) <==> !EmailRegistered(users, form.email);
  }

  /** The record appended for a successful submission. */
  function NewUser(form: Form): User
  {
    User(form.username, form.email, form.password)
  }

  /** No two stored users share an email. */
  ghost predicate EmailsDistinct(users: seq<User>)
  {
    forall i, j :: 0 <= i < j < |users| ==> users[i].email != users[j].email
  }

  /** A user as a successful submission stores it. */
  predicate WellFormed(u: User)
  {
    u.username != "" && ValidateEmail(u.email) && PasswordAcceptable(u.password)
  }

  /** A successful submission keeps the emails of the stored users pairwise distinct. */
  lemma RegisterKeepsEmailsDistinct(form: Form, users: seq<User>)
    requires EmailsDistinct(users)
    requires Validate(form, users) == Registered
    ensures EmailsDistinct(users + [NewUser(form)])
  {
    var users' := users + [NewUser(form)];
    forall i, j | 0 <= i < j < |users'| ensures users'[i].email != users'[j].email {
      if j == |users| {
        assert users'[i] == users[i];
      }
    }
  }

  /** A successful submission stores only users that pass every rule. */
  lemma RegisterKeepsUsersWellFormed(form: Form, users: seq<User>)
    requires forall i :: 0 <= i < |users| ==> WellFormed(users[i])
    requires Validate(form, users) == Registered
    ensures forall i :: 0 <= i < |users| + 1 ==> WellFormed((users + [NewUser(form)])[i])
  {
  }

  /** A submission whose email is already stored is never registered. */
  lemma DuplicateEmailRejected(form: Form, users: seq<User>, i: nat)
    requires i < |users| && users[i].email == form.email
    ensures Validate(form, users) != Registered
    ensures form.username != "" && ValidateEmail(form.email) && PasswordAcceptable(form.password)
            && form.password == form.confirmPassword
            ==> Validate(form, users) == EmailTaken
  {
    assert EmailRegistered(users, form.email);
  }

  /** A short password is refused; `abcdefg1`, confirmed, with a fresh valid email is accepted. */
  lemma PasswordExamples(username: string, email: string, users: seq<User>)
    requires username != "" && ValidateEmail(email)
    requires forall i :: 0 <= i < |users| ==> users[i].email != email
    ensures Validate(Form(username, email, "abc", "abc"), users) == PasswordWeak
    ensures Validate(Form(username, email, "abcdefg1", "abcdefg1"), users) == Registered
  {
    assert IsAsciiLetter("abcdefg1"[0]) && IsAsciiDigit("abcdefg1"[7]);
  }

  // -------------------------------------------------------------- storage

  /** The `users` entry of the browser's local storage. */
  class UserStore {
    /** The stored list; None while the entry has never been written. */
    var stored: Option<seq<User>>

    constructor (initial: Option<seq<User>>)
      ensures stored == initial
    {
      stored := initial;
    }

    /** The list the handler reads: a missing entry reads as the empty list. */
    function Users(): seq<User>
      reads this
    {
      stored.GetOr([])
    }

    /**
     * The submit handler: check the rules in order, stopping at the first
     * failure; on success append the new user and write the list back.
     */
    method Submit(form: Form) returns (outcome: Outcome)
      modifies this
      ensures outcome == Validate(form, old(Users()))
      ensures outcome == Registered ==> stored == Some(old(Users()) + [NewUser(form)])
      ensures outcome != Registered ==> stored == old(stored)
      ensures EmailsDistinct(old(Users())) ==> EmailsDistinct(Users())
    {
      if form.username == "" {
        return UsernameMissing;
      }
      if !ValidateEmail(form.email) {
        return EmailInvalid;
      }
      if !PasswordAcceptable(form.password) {
        return PasswordWeak;
      }
      if form.password != form.confirmPassword {
        return PasswordMismatch;
      }
      var users := Users();
      if EmailRegistered(users, form.email) {
        return EmailTaken;
      }
      if EmailsDistinct(users) {
        RegisterKeepsEmailsDistinct(form, users);
      }
      users := users + [User(form.username, form.email, form.password)];
      stored := Some(users);
      return Registered;
    }
  }
}
