# User registration service, modelled in Dafny

A model of `UserRegistrationService`, a small in-memory service that checks a
username, a password and an email address against fixed format rules and
keeps a list of registered users in which no two usernames are equal ignoring
case.

- `platform.dfy`, module `Platform`: the .NET facilities the service calls:
  `char.IsLetter`, `char.IsDigit`, the per-character upper-case mapping used by
  `StringComparison.OrdinalIgnoreCase`, the per-character mapping behind
  `string.ToLower`, and whether `new MailAddress(s)` succeeds. They are the
  fields of a `Runtime` value of total functions, so every result below holds
  whatever the Unicode tables and the address grammar say. Ordinal ignore-case
  equality is defined from the upper-case mapping (same length, same upper-case
  character at every position) and shown to be an equivalence.
- `linq.dfy`, module `Linq`: `Enumerable.Any`, used by both the password check
  and the duplicate-username scan.
- `user_registration.dfy`, module `UserRegistration`: the `User` record, the
  three validators, the confirmation message, `Register` (one registration
  attempt as a function from the old list to the returned flag and the new
  list), and the class `UserRegistrationService` with the `registeredUsers`
  field. `ValidateUsername` keeps the source's character loop with its early
  return. `RegisterUser` changes the list in place and is proved equal to
  `Register`. The class invariant `Valid()` says that usernames are pairwise
  distinct ignoring case and that every stored user passed all three
  validators.
- `registration_properties.dfy`, module `RegistrationProperties`: lemmas about
  the validators and about sequences of registrations, and the inputs of the
  repository's tests.

`ValidatePassword`, `ValidateEmail` and `GetRegistrationConfirmationMessage`
are instance methods in the source, but they read no field and change no
state, so they are module-level functions here. `ValidateUsername` works
by a `foreach` loop with an early return
(`UserRegistration/UserRegistrationService.cs:56-62`), so it is a method with
that loop, kept in the class beside `RegisterUser`, which calls it.

The test at `UserRegistration.Tests/UserRegistrationTests.cs:61` is named for
an invalid email, but its password `"password123"` has no special character,
so it fails on the password whatever the mail-address parser does.
`RegistrationProperties.RegistrationTestRejections` proves this without any
assumption about the parser.

## Model

| member | source | states |
|---|---|---|
| `Platform.EqualsIgnoreCase` | UserRegistration/UserRegistrationService.cs:26 | `Equals(…, StringComparison.OrdinalIgnoreCase)`: the two usernames have the same length and the same upper-case character at every position |
| `UserRegistration.User` | UserRegistration/UserRegistrationService.cs:32 | the record built on success: username, password and email, stored as given |
| `Platform.ToLower` | UserRegistration/UserRegistrationService.cs:102 | lower-casing keeps the length and maps each character through the culture's lower-case mapping |
| `Platform.EqualsIgnoreCaseReflexive` | UserRegistration/UserRegistrationService.cs:26 | every username equals itself ignoring case, so the same name can never be registered twice |
| `Platform.EqualsIgnoreCaseSymmetric` | UserRegistration/UserRegistrationService.cs:26 | ordinal ignore-case equality does not depend on the order of its arguments |
| `Platform.EqualsIgnoreCaseTransitive` | UserRegistration/UserRegistrationService.cs:26 | ordinal ignore-case equality is transitive |
| `Linq.Any` | UserRegistration/UserRegistrationService.cs:83 | the front-to-back scan is true exactly when some element satisfies the predicate |
| `UserRegistration.ValidatePassword` | UserRegistration/UserRegistrationService.cs:68-90 | a password is valid iff it has at least 8 characters and at least one of them is one of the 26 characters of `SpecialCharacters` |
| `UserRegistration.ValidateEmail` | UserRegistration/UserRegistrationService.cs:92-119 | the empty string is rejected; any other string is valid iff the address parser accepts its lower-cased form |
| `UserRegistration.GetRegistrationConfirmationMessage` | UserRegistration/UserRegistrationService.cs:38-41 | the message is the fixed prefix `User '`, then the username unchanged, then the fixed suffix `' has been successfully registered.` |
| `UserRegistration.Register` | UserRegistration/UserRegistrationService.cs:15-36 | an attempt succeeds iff all three fields are valid and no registered username equals the new one ignoring case; a failure leaves the list as it was; a success appends exactly `User(username, password, email)` at the end |
| `UserRegistration.RegisterPreservesInvariant` | UserRegistration/UserRegistrationService.cs:26-33 | whatever the input, an attempt keeps usernames pairwise distinct ignoring case and every stored user valid |
| `UserRegistration.UserRegistrationService.constructor` | UserRegistration/UserRegistrationService.cs:10-13 | a new service has no registered users and satisfies the invariant |
| `UserRegistration.UserRegistrationService.ValidateUsername` | UserRegistration/UserRegistrationService.cs:43-66 | the loop with early return accepts exactly the usernames of 5 to 20 characters that are all letters or digits |
| `UserRegistration.UserRegistrationService.RegisterUser` | UserRegistration/UserRegistrationService.cs:15-36 | returns the flag of `Register`, leaves the list unchanged on failure, appends exactly the new user on success, and keeps the invariant |
| `RegistrationProperties.UsernameOutsideLengthBoundsRejected` | UserRegistration/UserRegistrationService.cs:46-49 | a username shorter than 5 or longer than 20 characters is rejected whatever its characters |
| `RegistrationProperties.UsernameWithSymbolRejected` | UserRegistration/UserRegistrationService.cs:56-62 | one character that is neither letter nor digit makes a username invalid |
| `RegistrationProperties.UsernameTestRejections` | UserRegistration.Tests/UserValidationTests.cs:76-100 | `"dgf"` and the 37-character name are rejected on any platform; `"BAD_USERNAME!"` is rejected once `_` is neither letter nor digit |
| `RegistrationProperties.ShortPasswordRejected` | UserRegistration/UserRegistrationService.cs:71-74 | any password under 8 characters is rejected |
| `RegistrationProperties.AllSpecialPasswordAccepted` | UserRegistration/UserRegistrationService.cs:78-89 | a password of at least 8 characters made only of special characters is accepted |
| `RegistrationProperties.AsciiLetterOrDigitNotSpecial` | UserRegistration/UserRegistrationService.cs:78 | no ASCII letter or digit belongs to the special-character set |
| `RegistrationProperties.AsciiAlphanumericPasswordRejected` | UserRegistration/UserRegistrationService.cs:83-86 | a password of ASCII letters and digits only is rejected however long it is |
| `RegistrationProperties.PasswordTestAcceptances` | UserRegistration.Tests/UserValidationTests.cs:112-148 | `"ValidPassword!"` and `"!@#$%^&*"` are accepted |
| `RegistrationProperties.PasswordTestRejections` | UserRegistration.Tests/UserValidationTests.cs:136 | `"ValidPassword"` (`UserRegistration.Tests/UnitTest1.cs:143`), `"InvalidPassword"` (here), `"password"` (`UserRegistration.Tests/UserRegistrationTests.cs:74`) and `"password123"` (`UserRegistration.Tests/UserRegistrationTests.cs:48` and `:61`) are rejected |
| `RegistrationProperties.EmailIgnoresCase` | UserRegistration/UserRegistrationService.cs:100-108 | two emails that agree character by character after lower-casing are accepted or rejected together |
| `RegistrationProperties.MixedCaseEmailTestCase` | UserRegistration.Tests/UserValidationTests.cs:196 | `"EmAiL@hOtMaIl.CoM"` gets the same verdict as `"email@hotmail.com"` in every culture that lowers each ASCII upper-case letter like its lower-case partner (not Turkish or Azerbaijani, where `'I'` becomes `'ı'`) |
| `RegistrationProperties.ConfirmationMessageInjective` | UserRegistration/UserRegistrationService.cs:40 | distinct usernames give distinct confirmation messages |
| `RegistrationProperties.ConfirmationMessageTestCase` | UserRegistration.Tests/UserRegistrationTests.cs:34 | the message for `testuser` is `User 'testuser' has been successfully registered.` |
| `RegistrationProperties.RegisteredUsernameBlocksEqualIgnoringCase` | UserRegistration/UserRegistrationService.cs:26-29 | after a successful registration, any username equal to it ignoring case is refused and the list stays as it was |
| `RegistrationProperties.SameUsernameTwiceFails` | UserRegistration.Tests/UserRegistrationTests.cs:85-91 | registering a username a second time, with any password and email, fails and changes nothing |
| `RegistrationProperties.AtMostOneMatch` | UserRegistration/UserRegistrationService.cs:26 | under the invariant, a name equals at most one registered username ignoring case |
| `RegistrationProperties.RegisterOnlyAppends` | UserRegistration/UserRegistrationService.cs:33 | the old list is a prefix of the new one, which is one longer exactly when the attempt succeeded |
| `RegistrationProperties.RegistrationTestRejections` | UserRegistration.Tests/UserRegistrationTests.cs:48-77 | the three invalid registrations of the tests fail and leave the list unchanged, on any platform and any list |
| `RegistrationProperties.RegistrationTestSuccess` | UserRegistration.Tests/UserRegistrationTests.cs:30-33 | on an empty list, `testuser` / `password123!` / `testuser@example.com` is registered once its letters are letters and the address parses |
| `RegistrationProperties.RegisterTwice` | UserRegistration.Tests/UserRegistrationTests.cs:85-91 | on a fresh service the first attempt succeeds iff the fields are valid, and an identical second attempt always fails |

## Left out

- The Unicode tables behind `char.IsLetter` and `char.IsDigit`, the
  culture-dependent `ToLower`, and the case mapping of `OrdinalIgnoreCase`:
  they are parameters (fields of `Platform.Runtime`). Both case mappings are
  modelled per character, so surrogate pairs and any length-changing mapping
  are not modelled.
- The address grammar of `System.Net.Mail.MailAddress`: whether its
  constructor throws a `FormatException` is the parameter `isMailAddress`.
  The parser's other exceptions cannot arise here because the text passed to it
  is never empty.
- Text outside the Basic Multilingual Plane: a Dafny `char` is a Unicode
  scalar value, while a .NET `char` is a UTF-16 code unit. The length checks
  (`UserRegistration/UserRegistrationService.cs:46`, `:71`) and the
  per-character scans (`:56-62`, `:83`) therefore count scalar values here and
  code units in the source, so a character outside the BMP counts once here and
  twice there, and is classified here as one character, there as two
  surrogates. For example `"😀😀😀😀!"` is rejected here (5 characters) and
  accepted by the source (Length 9), and `"𝐀𝐀𝐀𝐀𝐀"` is accepted here when
  `isLetter('𝐀')` holds, while the source rejects it because each surrogate
  fails `char.IsLetter`. For text within the BMP the two agree.
- `null` strings: a Dafny string cannot be null. In the source:
  `ValidateUsername(null)` and `ValidatePassword(null)` throw a
  `NullReferenceException`; `ValidateEmail(null)` returns false like the empty
  string. `RegisterUser` checks its fields in order with short-circuit
  evaluation (`:18`), so a null username throws; a null password throws only
  when the username is valid (otherwise false is returned before the password
  is read); a null email gives false once the other two fields are valid.
  `GetRegistrationConfirmationMessage(null)` interpolates null as the empty
  text and returns `User '' has been successfully registered.`, the same as
  for the empty username.
- The example emails of the tests (`user@example.com`, `userexample,com`,
  `EmAiL@hOtMaIl.CoM`): their outcome is decided by the parser, which is a
  parameter. `MixedCaseEmailTestCase` shows that the mixed-case address is
  judged exactly like `email@hotmail.com` whenever the culture's lower-case
  mapping sends each ASCII upper-case letter to the same character as its
  lower-case partner. That fails for `'I'` in Turkish and Azerbaijani cultures,
  where it lowers to the dotless `'ı'` (U+0131), so there the parser is given
  two different texts.
- The positive username tests (`validUser123`, `vĺlidÜsér`, `123456`): their
  outcome depends only on the character tables.
- Idempotence of the validators: they are Dafny functions, and
  `ValidateUsername` is proved equal to one, so repeated calls give the same
  result by construction.
- The one-argument `RegisterUser("testUser")` called in
  `UserRegistration.Tests/UnitTest1.cs:23`: no such overload exists in the
  service.
- The test harness (`[TestInitialize]`, `TestContext.WriteLine`): test plumbing.
- Password security: passwords are stored as plain text, as the service stores
  them.
- Concurrency: the service is single-threaded; the check-then-append of
  `RegisterUser` is modelled as one sequential step.
