/**
 * The registration validator of src/user/validation.js: three express-validator chains
 * (username, email, password) and the `validate` middleware that folds their errors into a
 * `field -> message` map for a 400 response, or passes the request on.
 *
 * express-validator's `isEmail` and `normalizeEmail` are parameters (an `EmailLibrary`); the
 * uniqueness rule reads a snapshot of the users table.
 */
module Validation {
  import opened Wrappers
  import opened UserService
  import PasswordPattern

  /** One element of a chain: a validator with its message, a sanitizer, or `.bail()`. */
  datatype Step =
    | Check(test: string -> bool, msg: string)
    | Sanitize(f: string -> string)
    | Bail

  /** The two validator.js primitives the email chain uses, left uninterpreted. */
  datatype EmailLibrary = EmailLibrary(isEmail: string -> bool, normalizeEmail: string -> string)

  /** An entry of `validationResult(req).array()`. */
  datatype ValidationError = ValidationError(param: string, msg: string)

  /** What `validate` does with the request: call `next()`, or answer with a status and the error map. */
  datatype Response = Next | Reject(status: int, validationErrors: map<string, string>)

  const UsernameNullMsg := "Username must have at least 4 characters"
  const UsernameSizeMsg := "Username must have between 4 and 32 characters"
  const EmailNullMsg := "Email cannot be empty"
  const EmailInvalidMsg := "Must be a valid email"
  const EmailInUseMsg := "Email already in use"
  const PasswordNullMsg := "Password must have at least 6 characters"
  const PasswordSizeMsg := "Password must have between 6 and 18 characters"
  const PasswordPatternMsg := "Password must have at least 1 lowercase, 1 uppercase and 1 number"

  const BadRequest := 400

  /** The string a validator sees: an absent or null field reads as the empty string. */
  function FieldValue(field: Option<string>): string {
    if field.Some? then field.value else ""
  }

  predicate NotEmpty(s: string) {
    |s| != 0
  }

  /** validator.js `isLength({ min, max })`, counting characters. */
  predicate IsLength(s: string, min: nat, max: nat) {
    min <= |s| <= max
  }

  /**
   * Runs a chain on `value` with the errors `errs` collected so far: a failing check adds its
   * message, a sanitizer replaces the value, and `.bail()` ends the chain once it has an error.
   */
  function RunChain(value: string, steps: seq<Step>, errs: seq<string>): (r: seq<string>)
    ensures errs <= r
    ensures |r| <= |errs| + |steps|
    decreases |steps|
  {
    if steps == [] then errs
    else match steps[0]
      case Check(test, msg) =>
        RunChain(value, steps[1..], if test(value) then errs else errs + [msg])
      case Sanitize(f) =>
        RunChain(f(value), steps[1..], errs)
      case Bail =>
        if errs != [] then errs else RunChain(value, steps[1..], errs)
  }

  function UsernameRules(): seq<Step> {
    [ Check(NotEmpty, UsernameNullMsg), Bail,
      Check(s => IsLength(s, 4, 32), UsernameSizeMsg) ]
  }

  function EmailRules(lib: EmailLibrary, users: seq<User>): seq<Step> {
    [ Check(NotEmpty, EmailNullMsg), Bail,
      Sanitize(lib.normalizeEmail),
      Check(lib.isEmail, EmailInvalidMsg), Bail,
      Check(email => FindByEmail(users, email).None?, EmailInUseMsg) ]
  }

  function PasswordRules(): seq<Step> {
    [ Check(NotEmpty, PasswordNullMsg), Bail,
      Check(s => IsLength(s, 6, 18), PasswordSizeMsg), Bail,
      Check(PasswordPattern.Matches, PasswordPatternMsg) ]
  }

  function UsernameErrors(username: Option<string>): seq<string> {
    RunChain(FieldValue(username), UsernameRules(), [])
  }

  function EmailErrors(email: Option<string>, lib: EmailLibrary, users: seq<User>): seq<string> {
    RunChain(FieldValue(email), EmailRules(lib, users), [])
  }

  function PasswordErrors(password: Option<string>): seq<string> {
    RunChain(FieldValue(password), PasswordRules(), [])
  }

  /** The messages of one field's chain as errors for that param; a chain with at most one message folds to one entry. */
  function Tagged(param: string, msgs: seq<string>): (r: seq<ValidationError>)
    ensures |msgs| <= 1 ==> ExtractedErrors(r) == Entry(param, msgs)
  {
    seq(|msgs|, i requires 0 <= i < |msgs| => ValidationError(param, msgs[i]))
  }

  /** `validationResult(req)` after `userValidationRules()`: the three chains' errors, in chain order. */
  function ValidationErrors(body: Body, lib: EmailLibrary, users: seq<User>): seq<ValidationError> {
    Tagged("username", UsernameErrors(body.username))
    + Tagged("email", EmailErrors(body.email, lib, users))
    + Tagged("password", PasswordErrors(body.password))
  }

  /**
   * The `extractedErrors` object after assigning `err.param -> err.msg` for every error in order.
   * Its keys are the params that occur; values are checked against a last-writer reading in LastErrorWins.
   */
  function ExtractedErrors(errs: seq<ValidationError>): (m: map<string, string>)
    ensures m.Keys == set e | e in errs :: e.param
  {
    if errs == [] then map[]
    else
      var last := errs[|errs| - 1];
      var m := ExtractedErrors(errs[..|errs| - 1]);
      assert forall e :: e in errs <==> e in errs[..|errs| - 1] || e == last;
      m[last.param := last.msg]
  }

  /** `validate`: pass the request on when there are no errors, otherwise answer 400 with the folded map. */
  method Validate(errors: seq<ValidationError>) returns (r: Response)
    ensures errors == [] ==> r == Next
    ensures errors != [] ==> r == Reject(BadRequest, ExtractedErrors(errors))
  {
    if errors == [] {
      return Next;
    }
    var extracted: map<string, string> := map[];
    var i := 0;
    while i < |errors|
      invariant 0 <= i <= |errors|
      invariant extracted == ExtractedErrors(errors[..i])
    {
      assert errors[..i + 1][..i] == errors[..i];
      extracted := extracted[errors[i].param := errors[i].msg];
      i := i + 1;
    }
    assert errors[..|errors|] == errors;
    r := Reject(BadRequest, extracted);
  }

  /** Username: empty gives only the notEmpty message (bail skips the length rule); otherwise 4..32 passes. */
  lemma UsernameChain(username: Option<string>)
    ensures var v := FieldValue(username);
      UsernameErrors(username) ==
        if v == "" then [UsernameNullMsg]
        else if 4 <= |v| <= 32 then []
        else [UsernameSizeMsg]
  {
  }

  /**
   * Email: empty gives only the notEmpty message; otherwise the value is normalised, `isEmail`
   * decides syntax (bail skips the lookup on failure), and the lookup of the normalised value
   * in the table decides uniqueness.
   */
  lemma EmailChain(email: Option<string>, lib: EmailLibrary, users: seq<User>)
    ensures var v := FieldValue(email);
      var normalized := lib.normalizeEmail(v);
      EmailErrors(email, lib, users) ==
        if v == "" then [EmailNullMsg]
        else if !lib.isEmail(normalized) then [EmailInvalidMsg]
        else if FindByEmail(users, normalized).Some? then [EmailInUseMsg]
        else []
  {
    var v := FieldValue(email);
    var normalized := lib.normalizeEmail(v);
    var rules := EmailRules(lib, users);
    assert rules[1..] == rules[1..6];
    if v == "" {
      assert RunChain(v, rules, []) == RunChain(v, rules[1..6], [EmailNullMsg]);
    } else {
      assert RunChain(v, rules, []) == RunChain(v, rules[1..6], []);
      assert rules[1..6][1..] == rules[2..6];
      assert RunChain(v, rules[1..6], []) == RunChain(v, rules[2..6], []);
      assert rules[2..6][1..] == rules[3..6];
      assert RunChain(v, rules[2..6], []) == RunChain(normalized, rules[3..6], []);
      assert rules[3..6][1..] == rules[4..6];
      assert rules[4..6][1..] == rules[5..6];
      assert rules[5..6][1..] == [];
      if lib.isEmail(normalized) {
        assert RunChain(normalized, rules[3..6], []) == RunChain(normalized, rules[4..6], []);
        assert RunChain(normalized, rules[4..6], []) == RunChain(normalized, rules[5..6], []);
      } else {
        assert RunChain(normalized, rules[3..6], []) == RunChain(normalized, rules[4..6], [EmailInvalidMsg]);
      }
    }
  }

  /**
   * The table is read only when the email is non-empty and its normalised form passes `isEmail`:
   * otherwise the outcome is the same whatever the table holds (and, when empty, whatever the library does).
   */
  lemma EmailLookupOnlyAfterSyntax(email: Option<string>, lib: EmailLibrary, lib': EmailLibrary,
                                   users: seq<User>, users': seq<User>)
    requires FieldValue(email) == "" || !lib.isEmail(lib.normalizeEmail(FieldValue(email)))
    ensures EmailErrors(email, lib, users) == EmailErrors(email, lib, users')
    ensures FieldValue(email) == "" ==> EmailErrors(email, lib, users) == EmailErrors(email, lib', users')
  {
    EmailChain(email, lib, users);
    EmailChain(email, lib, users');
    EmailChain(email, lib', users');
  }

  /**
   * Password: at most one rule fires, in order: empty, then length outside 6..18, then the
   * pattern as written, which fails exactly when the first line has no `d`.
   */
  lemma PasswordChain(password: Option<string>)
    ensures var v := FieldValue(password);
      PasswordErrors(password) ==
        if v == "" then [PasswordNullMsg]
        else if !(6 <= |v| <= 18) then [PasswordSizeMsg]
        else if 'd' !in PasswordPattern.FirstLine(v) then [PasswordPatternMsg]
        else []
  {
    var v := FieldValue(password);
    var rules := PasswordRules();
    PasswordPattern.MatchesIffFirstLineHasD(v);
    assert rules[1..] == rules[1..5];
    assert rules[1..5][1..] == rules[2..5];
    assert rules[2..5][1..] == rules[3..5];
    assert rules[3..5][1..] == rules[4..5];
    assert rules[4..5][1..] == [];
  }

  /** Every value in the folded map is the message of the last error with that param. */
  lemma {:induction false} LastErrorWins(errs: seq<ValidationError>, param: string)
    requires param in ExtractedErrors(errs)
    ensures exists i ::
      && 0 <= i < |errs| && errs[i].param == param
      && ExtractedErrors(errs)[param] == errs[i].msg
      && (forall j :: i < j < |errs| ==> errs[j].param != param)
  {
    var n := |errs| - 1;
    var prefix := errs[..n];
    var m := ExtractedErrors(prefix);
    assert ExtractedErrors(errs) == m[errs[n].param := errs[n].msg];
    if errs[n].param == param {
      assert ExtractedErrors(errs)[param] == errs[n].msg;
    } else {
      assert param in m;
      LastErrorWins(prefix, param);
      var i :| 0 <= i < |prefix| && prefix[i].param == param &&
        m[param] == prefix[i].msg &&
        forall j :: i < j < |prefix| ==> prefix[j].param != param;
      assert errs[i] == prefix[i];
      forall j | i < j < |errs|
        ensures errs[j].param != param
      {
        if j < n {
          assert errs[j] == prefix[j];
        }
      }
    }
  }

  /** Folding a concatenation is the override of the two folds: later entries win. */
  lemma {:induction false} ExtractedConcat(a: seq<ValidationError>, b: seq<ValidationError>)
    ensures ExtractedErrors(a + b) == ExtractedErrors(a) + ExtractedErrors(b)
  {
    if b != [] {
      var n := |b| - 1;
      assert (a + b)[..|a + b| - 1] == a + b[..n];
      ExtractedConcat(a, b[..n]);
    } else {
      assert a + b == a;
    }
  }

  /** The singleton map a chain with at most one message contributes. */
  function Entry(param: string, msgs: seq<string>): map<string, string> {
    if msgs == [] then map[] else map[param := msgs[0]]
  }

  /** Each chain bails after its first error, so it reports at most one message. */
  lemma ChainsReportAtMostOne(body: Body, lib: EmailLibrary, users: seq<User>)
    ensures |UsernameErrors(body.username)| <= 1
    ensures |EmailErrors(body.email, lib, users)| <= 1
    ensures |PasswordErrors(body.password)| <= 1
  {
    UsernameChain(body.username);
    EmailChain(body.email, lib, users);
    PasswordChain(body.password);
  }

  /** The override of the three fields' entries has one key per failing field, with its message. */
  lemma EntriesShape(u: seq<string>, e: seq<string>, p: seq<string>)
    ensures var m := Entry("username", u) + Entry("email", e) + Entry("password", p);
      && m.Keys <= {"username", "email", "password"}
      && ("username" in m <==> u != []) && ("username" in m ==> m["username"] == u[0])
      && ("email" in m <==> e != []) && ("email" in m ==> m["email"] == e[0])
      && ("password" in m <==> p != []) && ("password" in m ==> m["password"] == p[0])
  {
  }

  /** Folding the three fields' errors, each at most one, gives one entry per failing field. */
  lemma FoldThreeFields(u: seq<string>, e: seq<string>, p: seq<string>)
    requires |u| <= 1 && |e| <= 1 && |p| <= 1
    ensures ExtractedErrors(Tagged("username", u) + Tagged("email", e) + Tagged("password", p))
      == Entry("username", u) + Entry("email", e) + Entry("password", p)
  {
    var tu, te, tp := Tagged("username", u), Tagged("email", e), Tagged("password", p);
    ExtractedConcat(tu + te, tp);
    ExtractedConcat(tu, te);
  }

  /**
   * The map `validate` answers with has at most one entry per field, only the keys username,
   * email and password, and for each failing field exactly that chain's message.
   */
  lemma ErrorMapPerField(body: Body, lib: EmailLibrary, users: seq<User>)
    ensures var m := ExtractedErrors(ValidationErrors(body, lib, users));
      var u := UsernameErrors(body.username);
      var e := EmailErrors(body.email, lib, users);
      var p := PasswordErrors(body.password);
      && m.Keys <= {"username", "email", "password"}
      && ("username" in m <==> u != []) && ("username" in m ==> m["username"] == u[0])
      && ("email" in m <==> e != []) && ("email" in m ==> m["email"] == e[0])
      && ("password" in m <==> p != []) && ("password" in m ==> m["password"] == p[0])
  {
    var u := UsernameErrors(body.username);
    var e := EmailErrors(body.email, lib, users);
    var p := PasswordErrors(body.password);
    ChainsReportAtMostOne(body, lib, users);
    FoldThreeFields(u, e, p);
    EntriesShape(u, e, p);
  }

  /** `validate` calls `next()` exactly when every field passes every rule of its chain. */
  lemma NoErrorsIffAllRulesPass(body: Body, lib: EmailLibrary, users: seq<User>)
    ensures var u, e, p := FieldValue(body.username), FieldValue(body.email), FieldValue(body.password);
      var normalized := lib.normalizeEmail(e);
      ValidationErrors(body, lib, users) == [] <==>
        && u != "" && 4 <= |u| <= 32
        && e != "" && lib.isEmail(normalized) && FindByEmail(users, normalized).None?
        && p != "" && 6 <= |p| <= 18 && 'd' in PasswordPattern.FirstLine(p)
  {
    UsernameChain(body.username);
    EmailChain(body.email, lib, users);
    PasswordChain(body.password);
  }

  /**
   * Once a body has been saved, a second registration with the same email is refused as in use,
   * provided the email was submitted in normalised form. The validator is not mounted in front of
   * `save`, so the table keeps the email as sent, not its normalised form.
   */
  lemma SecondRegistrationRejected(body: Body, lib: EmailLibrary, hash: Hasher, users: seq<User>)
    requires body.password.Some? && body.email.Some? && body.email.value != ""
    requires lib.normalizeEmail(body.email.value) == body.email.value
    requires lib.isEmail(body.email.value)
    ensures EmailErrors(body.email, lib, users + [NewRecord(body, hash)]) == [EmailInUseMsg]
  {
    var users' := users + [NewRecord(body, hash)];
    EmailChain(body.email, lib, users');
    FindAfterAppend(users, NewRecord(body, hash), body.email.value);
  }

  /** A body without a username but with a valid email and 'P4ssword' is answered {username: notEmpty message}. */
  lemma MissingUsernameScenario(lib: EmailLibrary)
    requires lib.isEmail(lib.normalizeEmail("user1@mail.com"))
    ensures ExtractedErrors(ValidationErrors(
      Body(None, Some("user1@mail.com"), Some("P4ssword"), None, map[]), lib, []))
      == map["username" := UsernameNullMsg]
  {
    var body := Body(None, Some("user1@mail.com"), Some("P4ssword"), None, map[]);
    UsernameChain(body.username);
    EmailChain(body.email, lib, []);
    PasswordChain(body.password);
    PasswordPattern.TestPasswordMatches();
    PasswordPattern.MatchesIffFirstLineHasD("P4ssword");
    var u, e, p := UsernameErrors(body.username), EmailErrors(body.email, lib, []), PasswordErrors(body.password);
    assert u == [UsernameNullMsg] && e == [] && p == [];
    FoldThreeFields(u, e, p);
  }

  /** The password chain with the rule its message states in place of the pattern as written. */
  function PasswordRulesCorrected(): seq<Step> {
    [ Check(NotEmpty, PasswordNullMsg), Bail,
      Check(s => IsLength(s, 6, 18), PasswordSizeMsg), Bail,
      Check(PasswordPattern.MatchesIntended, PasswordPatternMsg) ]
  }

  function PasswordErrorsCorrected(password: Option<string>): seq<string> {
    RunChain(FieldValue(password), PasswordRulesCorrected(), [])
  }

  /**
   * The corrected chain reports the pattern message exactly when a non-empty password of
   * length 6..18 lacks a lowercase letter, an uppercase letter or a digit.
   */
  lemma PasswordChainCorrected(password: Option<string>)
    ensures var v := FieldValue(password);
      PasswordErrorsCorrected(password) ==
        if v == "" then [PasswordNullMsg]
        else if !(6 <= |v| <= 18) then [PasswordSizeMsg]
        else if !((exists i :: 0 <= i < |v| && PasswordPattern.IsLower(v[i]))
               && (exists i :: 0 <= i < |v| && PasswordPattern.IsUpper(v[i]))
               && (exists i :: 0 <= i < |v| && PasswordPattern.IsDigit(v[i])))
          then [PasswordPatternMsg]
        else []
  {
  }
}
