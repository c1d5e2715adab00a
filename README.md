# Registration validation and account store of hoaxify-ws

This project models the user-registration core of hoaxify-ws, an Express web service.

- `src/user/validation.js` holds the validator. It has three express-validator rule chains:
  `usernameRules`, `emailRules` and `passwordRules`. They are collected by `userValidationRules`.
  The `validate` middleware then folds the error list into a `field -> message` map and answers
  400, or else calls `next()`.
- `src/user/userService.js` holds the account store. `save` hashes the password and creates the
  record. `findByEmail` looks a record up by exact email and returns it, or `false`.

Modules:

- `Wrappers` (wrappers.dfy): `Option` and `Result`. `None` stands for an absent or null field, and
  for the `false` that `findByEmail` returns.
- `UserService` (user_service.dfy): the request `Body`, the stored `User` record and `NewRecord`.
  It also holds `FindByEmail` over the table, and the `UserStore` class whose `users` sequence
  `Save` appends to. bcrypt is a `Hasher` parameter. `SaltRounds` is 10, as in the source.
- `PasswordPattern` (password_pattern.dfy): the password regular expression as JavaScript
  evaluates it. The two lookaheads are scans that stop at the first line terminator. It also holds
  the rule the pattern's message states, used for the finding below.
- `Validation` (validation.dfy): each chain is a list of `Step`s. A step is a check with its
  message, a sanitizer, or `.bail()`. `RunChain` runs such a list the way express-validator does:
  a failing check adds its message, a sanitizer replaces the value, and `.bail()` ends the chain
  once the chain has an error. `isEmail` and `normalizeEmail` are the two fields of an
  `EmailLibrary` parameter. The uniqueness rule calls `FindByEmail` on the normalised value, over
  a snapshot of the table. `Validate` is the `validate` middleware, written as a loop that fills
  the map.

The validator is not mounted on any route in the source. `src/user/userRouter.js:9-14` calls
`save` directly, so the model treats the validator as a standalone function.

Three facts about the code shape the model:

- The validator reports the English messages written in validation.js.
- The source has no activation token, activation step or rollback.
- The password rule is the pattern as written; it does not require a lowercase letter, an
  uppercase letter and a digit.

The uniqueness rule looks up the normalised email. The validator is not mounted in front of
`save`, so `save` stores the email exactly as the client sent it. A stored email is therefore
caught only when it was sent in normalised form. `SecondRegistrationRejected` states this
condition.

## Model

| member | source | states |
|---|---|---|
| `UserService.FindByEmail` | src/user/userService.js:13-20 | finds a record iff some record's email equals the argument exactly; the record returned has that email and is the first such in the table; None (`false`) when no record matches |
| `UserService.NewRecord` | src/user/userService.js:5-8 | the record `save` builds: username, email and inactive from the body and `hash(password, 10)` in place of the password; characterised by `StoredPasswordIsHash` and `RecordIgnoresOtherFields` |
| `UserService.FindAfterAppend` | src/user/userService.js:9-19 | after a record is appended, a lookup returns what it returned before if that was a record; otherwise it returns the new record if its email matches, else None |
| `UserService.StoredPasswordIsHash` | src/user/userService.js:7-8 | the stored password is `hash(password, 10)`, and it differs from the plaintext whenever the hash does not return its input |
| `UserService.RecordIgnoresOtherFields` | src/user/userService.js:5-8 | the record copies username, email and inactive unchanged; two bodies that agree on username, email, password and inactive give the same record, whatever other fields they carry |
| `UserService.UserStore.Save` | src/user/userService.js:4-11 | with a password: appends exactly the record `NewRecord(body, hash)` after the existing records, unchanged, and returns it; without one, bcrypt rejects, the table is unchanged and the error is returned |
| `PasswordPattern.LookaheadAtStart` | src/user/validation.js:12 | the scan succeeds iff some position `j` has no line terminator before it and its character satisfies the class: the backtracking meaning of `(?=.*P)` at the start of input |
| `PasswordPattern.Matches` | src/user/validation.js:12 | the `.matches(...)` rule: both lookaheads at the start of input, the trailing class matching nothing; characterised by `MatchesIffFirstLineHasD` (accepts iff the first line has a `d`) |
| `PasswordPattern.LookaheadIsFirstLineSearch` | src/user/validation.js:12 | for a class with no line terminator in it, the lookahead succeeds iff the first line contains a character of the class |
| `PasswordPattern.MatchesIffFirstLineHasD` | src/user/validation.js:12-15 | the pattern as written accepts a password iff its first line contains the letter `d`; no digit and no uppercase letter is required |
| `PasswordPattern.TestPasswordMatches` | __test__/UserRegister.spec.js:11 | 'P4ssword', the test's valid password, passes the pattern as written |
| `PasswordPattern.MatchesIntended` | src/user/validation.js:13-15 | accepts iff the password has a lowercase letter, an uppercase letter and a digit, as the message states |
| `PasswordPattern.AcceptsWithoutDigitOrUppercase` | src/user/validation.js:12-15 | 'dddddd' passes the pattern as written but breaks the stated rule |
| `PasswordPattern.RejectsPasswordWithoutD` | src/user/validation.js:12-15 | 'Abcef1' meets the stated rule but fails the pattern as written |
| `PasswordPattern.TestPasswordMatchesIntended` | __test__/UserRegister.spec.js:11 | 'P4ssword' also meets the stated rule |
| `Validation.RunChain` | src/user/validation.js:4-39 | running a chain only adds errors after the ones already collected, at most one per step |
| `Validation.FieldValue` | src/user/validation.js:35 | an absent or null field reads as the empty string, so notEmpty rejects it; its effect is stated in `UsernameChain`, `EmailChain` and `PasswordChain` |
| `Validation.UsernameRules` | src/user/validation.js:33-39 | notEmpty with its message, bail, isLength 4..32 with its message; characterised by `UsernameChain` |
| `Validation.UsernameChain` | src/user/validation.js:33-39 | a missing or empty username gives exactly the notEmpty message, and bail skips the length rule; otherwise a length in 4..32 gives no error and any other length gives the size message |
| `Validation.EmailChain` | src/user/validation.js:17-31 | empty gives only 'Email cannot be empty'; otherwise a normalised value that `isEmail` rejects gives 'Must be a valid email'; otherwise 'Email already in use' iff the table has a record with the normalised email; otherwise no error |
| `Validation.EmailRules` | src/user/validation.js:17-31 | notEmpty, bail, normalizeEmail, isEmail, bail, then the lookup of the normalised value; characterised by `EmailChain` |
| `Validation.EmailLookupOnlyAfterSyntax` | src/user/validation.js:19-31 | when the email is empty or its normalised form fails `isEmail`, the outcome does not depend on the table, so no lookup matters; when empty it does not depend on the library either |
| `Validation.PasswordChain` | src/user/validation.js:4-15 | at most one rule fires, in order: empty, then a length outside 6..18, then the pattern as written, which fails iff the first line has no `d` |
| `Validation.PasswordRules` | src/user/validation.js:4-15 | notEmpty, bail, isLength 6..18, bail, the pattern as written, each with its message; characterised by `PasswordChain` |
| `Validation.ChainsReportAtMostOne` | src/user/validation.js:4-39 | because of bail, each field's chain reports at most one message |
| `Validation.ValidationErrors` | src/user/validation.js:41-45 | `userValidationRules` and the order of `validationResult`: the username, email and password chains' errors in that order; characterised by `ErrorMapPerField` and `NoErrorsIffAllRulesPass` |
| `Validation.ExtractedErrors` | src/user/validation.js:53-55 | the keys of the folded map are exactly the params present in the error list |
| `Validation.LastErrorWins` | src/user/validation.js:53-55 | the value for each key is the message of the last error with that param; later entries overwrite earlier ones |
| `Validation.ExtractedConcat` | src/user/validation.js:55 | folding two error lists one after the other equals the override of their two maps |
| `Validation.ErrorMapPerField` | src/user/validation.js:41-58 | the 400 map has keys only among username, email and password; a field is a key iff its chain failed, and its value is that chain's message |
| `Validation.NoErrorsIffAllRulesPass` | src/user/validation.js:41-51 | the error list is empty iff every rule of all three chains passes: username 4..32, a non-empty email whose normalised form passes `isEmail` and is not in the table, password 6..18 with a `d` in its first line |
| `Validation.Validate` | src/user/validation.js:47-58 | no errors: `next()` and no 400; otherwise status 400 with the folded `validationErrors` map |
| `Validation.SecondRegistrationRejected` | src/user/validation.js:22-31 | once a body is saved, the same email, submitted in normalised form and passing `isEmail`, is refused with 'Email already in use' |
| `Validation.MissingUsernameScenario` | src/user/validation.js:33-58 | a body with no username, a valid email and 'P4ssword', checked against an empty table, gives exactly `{username: 'Username must have at least 4 characters'}` |
| `Validation.PasswordChainCorrected` | src/user/validation.js:4-15 | the corrected chain reports the pattern message iff a non-empty password of length 6..18 lacks a lowercase letter, an uppercase letter or a digit |

## Findings

| source | as written | input that shows it | evidently intended | confidence | as-written member | corrected member |
|---|---|---|---|---|---|---|
| src/user/validation.js:12 | `(?=.*d)` asks for a literal `d` because the backslash is missing; there is no end anchor, so the trailing class can match nothing | 'Abcef1' is rejected; 'dddddd' is accepted | at least one lowercase letter, one uppercase letter and one digit, as the message at lines 13-15 states | high, not executed | `PasswordPattern.RejectsPasswordWithoutD` | `Validation.PasswordChainCorrected` |

`Validation.PasswordRules` keeps the pattern as written, because the validator models the deployed
code. The corrected chain `PasswordRulesCorrected` sits beside it with its property proved.

## Left out

- Activation tokens, the activation transition, the transactional save with rollback when mail
  fails, and the token generator: no modelled file implements them.
- `src/email/EmailService.js` only reads `user.activationToken`; mail sending is foreign I/O.
- HTTP wiring is not modelled: `src/app.js`, `src/user/userRouter.js` and `index.js` hold routing
  and response plumbing only, and the validator is not mounted there.
- `src/config/database.js` is configuration only.
- `src/user/user.js` (the Sequelize model) is not part of this model. The storage-assigned `id`,
  timestamps, column defaults and constraints are absent, and so are failures of `User.create`.
- bcrypt, `isEmail` and `normalizeEmail` are library code. They are uninterpreted parameters,
  so salting and randomness are not modelled.
- validator.js `isLength` also discounts variation selectors U+FE0E and U+FE0F. The model counts
  characters, and Dafny characters are code points, so surrogate pairs count once. A string
  holding a lone surrogate (U+D800..U+DFFF) cannot be represented; validator.js counts such a
  code unit as one character.
- Body fields are strings, or absent/null. Other JSON values are not modelled. For an array,
  express-validator 6 runs each standard validator on every element. So `password: []` passes
  its chain, and `password: ["", ""]` gets two notEmpty errors.
- The normalizeEmail sanitizer also rewrites `req.body.email`. The model returns only errors, so
  a handler behind `validate` would see the normalised email. No such handler exists in the
  source, because the validator is not mounted.
- An express-validator error also carries `value`, `location` and `nestedErrors`. Only `param`
  and `msg` are modelled, because `validate` reads only those two.
- A failing lookup in the uniqueness rule is not modelled; the model's lookup always
  succeeds. In the source, when `findByEmail` rejects inside `.custom(...)`, express-validator
  catches the rejection and records an `email` error with the exception's message. A SQLite
  error can cause this. So can a request that arrives before the table exists, because
  index.js:4 does not await `sequelize.sync()`.
- Async/await is modelled as sequential calls. Concurrency is not modelled, including the race
  between the uniqueness check and the insert.
- UserService.FindByEmail: `findOne` without an ordering may return any matching row. The model returns the
  first match in insertion order.
- UserService.StoredPasswordIsHash: "never the plaintext" is proved only for hashes that do not return their
  input, because bcrypt is uninterpreted.
