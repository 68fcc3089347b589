/**
 Properties of the validators and of registration that relate several calls,
 and the concrete inputs the repository's tests use.
 */
module RegistrationProperties {
  import opened Platform
  import opened UserRegistration

  /** Length alone rules a username out when it is below 5 or above 20. */
  lemma UsernameOutsideLengthBoundsRejected(rt: Runtime, username: string)
    requires |username| < MinUsernameLength || |username| > MaxUsernameLength
    ensures !IsValidUsername(rt, username)
  {
  }

  /** A single character that is neither letter nor digit rules a username out. */
  lemma UsernameWithSymbolRejected(rt: Runtime, username: string, k: nat)
    requires k < |username| && !rt.isLetter(username[k]) && !rt.isDigit(username[k])
    ensures !IsValidUsername(rt, username)
  {
  }

  /** The usernames the tests expect to fail, whatever the character tables say. */
  lemma UsernameTestRejections(rt: Runtime)
    ensures !IsValidUsername(rt, "dgf")
    ensures !IsValidUsername(rt, "LoooooooooooooooooooooooooooooongName")
    ensures !IsLetterOrDigit(rt, '_') ==> !IsValidUsername(rt, "BAD_USERNAME!")
  {
    if !IsLetterOrDigit(rt, '_') {
      assert "BAD_USERNAME!"[3] == '_';
    }
  }

  /** Any password shorter than eight characters is rejected, special characters or not. */
  lemma ShortPasswordRejected(password: string)
    requires |password| < MinPasswordLength
    ensures !ValidatePassword(password)
  {
  }

  /** A password made only of special characters is accepted once it is long enough. */
  lemma AllSpecialPasswordAccepted(password: string)
    requires |password| >= MinPasswordLength
    requires forall i :: 0 <= i < |password| ==> password[i] in SpecialCharacters
    ensures ValidatePassword(password)
  {
  }

  predicate IsAsciiLetterOrDigit(c: char)
  {
    'a' <= c <= 'z' || 'A' <= c <= 'Z' || '0' <= c <= '9'
  }

  /** No ASCII letter or digit is a special character. */
  lemma AsciiLetterOrDigitNotSpecial(c: char)
    requires IsAsciiLetterOrDigit(c)
    ensures c !in SpecialCharacters
  {
  }

  /** A password of ASCII letters and digits only is rejected, however long. */
  lemma AsciiAlphanumericPasswordRejected(password: string)
    requires forall i :: 0 <= i < |password| ==> IsAsciiLetterOrDigit(password[i])
    ensures !ValidatePassword(password)
  {
    forall i | 0 <= i < |password|
      ensures password[i] !in SpecialCharacters
    {
      AsciiLetterOrDigitNotSpecial(password[i]);
    }
  }

  /** The passwords the tests expect to be accepted. */
  lemma PasswordTestAcceptances()
    ensures ValidatePassword("ValidPassword!")
    ensures ValidatePassword("!@#$%^&*")
  {
    assert "ValidPassword!"[13] == '!';
    assert "!@#$%^&*"[0] == '!';
  }

  /**
   The passwords the tests expect to be rejected for want of a special
   character; "bad!" is rejected by its length alone.
   */
  lemma PasswordTestRejections(password: string)
    requires password in {"ValidPassword", "InvalidPassword", "password", "password123"}
    ensures !ValidatePassword(password)
  {
    AsciiAlphanumericPasswordRejected(password);
  }

  /**
   Emails that agree after lower-casing are accepted or rejected together. What
   counts as agreeing is up to the culture's lower-case mapping: see
   MixedCaseEmailTestCase for the address of the tests.
   */
  lemma {:induction false} EmailIgnoresCase(rt: Runtime, a: string, b: string)
    requires |a| == |b|
    requires forall i :: 0 <= i < |a| ==> rt.toLower(a[i]) == rt.toLower(b[i])
    ensures ValidateEmail(rt, a) == ValidateEmail(rt, b)
  {
    var la, lb := ToLower(rt, a), ToLower(rt, b);
    assert forall i :: 0 <= i < |la| ==> la[i] == lb[i];
    assert la == lb;
  }

  /**
   The culture lowers each ASCII upper-case letter to the same character as its
   lower-case partner. This holds in the invariant culture and most others; in
   Turkish and Azerbaijani cultures 'I' lowers to the dotless 'ı' (U+0131)
   while 'i' stays 'i', so there it fails.
   */
  ghost predicate LowersAsciiLettersAlike(rt: Runtime)
  {
    forall c: char :: 'A' <= c <= 'Z' ==> rt.toLower(c) == rt.toLower((c as int + 32) as char)
  }

  /**
   The mixed-case address of the tests is judged exactly like its lower-case
   form, in every culture that lowers ASCII letters alike.
   */
  lemma MixedCaseEmailTestCase(rt: Runtime, mixed: string, lower: string)
    requires LowersAsciiLettersAlike(rt)
    requires mixed == "EmAiL@hOtMaIl.CoM" && lower == "email@hotmail.com"
    ensures ValidateEmail(rt, mixed) == ValidateEmail(rt, lower)
  {
    forall i | 0 <= i < |mixed|
      ensures rt.toLower(mixed[i]) == rt.toLower(lower[i])
    {
      if mixed[i] != lower[i] {
        assert 'A' <= mixed[i] <= 'Z' && lower[i] == (mixed[i] as int + 32) as char;
      }
    }
    EmailIgnoresCase(rt, mixed, lower);
  }

  /** Distinct usernames give distinct confirmation messages. */
  lemma ConfirmationMessageInjective(a: string, b: string)
    requires GetRegistrationConfirmationMessage(a) == GetRegistrationConfirmationMessage(b)
    ensures a == b
  {
  }

  /** The exact confirmation text the test expects. */
  lemma ConfirmationMessageTestCase()
    ensures GetRegistrationConfirmationMessage("testuser") == "User 'testuser' has been successfully registered."
  {
  }

  /**
   Once a username is registered, every later attempt with a username equal to
   it ignoring case fails and leaves the list as it was.
   */
  lemma RegisteredUsernameBlocksEqualIgnoringCase(
    rt: Runtime, users: seq<User>, username: string, password: string, email: string,
    other: string, otherPassword: string, otherEmail: string)
    requires Register(rt, users, username, password, email).ok
    requires EqualsIgnoreCase(rt, username, other)
    ensures
      var after := Register(rt, users, username, password, email).users;
      Register(rt, after, other, otherPassword, otherEmail) == Registration(false, after)
  {
    var after := Register(rt, users, username, password, email).users;
    assert after[|users|].username == username;
    assert IsTaken(rt, after, other);
  }

  /** The duplicate test: registering the same username twice, the second attempt fails. */
  lemma SameUsernameTwiceFails(
    rt: Runtime, users: seq<User>, username: string, password: string, email: string,
    otherPassword: string, otherEmail: string)
    requires Register(rt, users, username, password, email).ok
    ensures
      var after := Register(rt, users, username, password, email).users;
      Register(rt, after, username, otherPassword, otherEmail) == Registration(false, after)
  {
    EqualsIgnoreCaseReflexive(rt, username);
    RegisteredUsernameBlocksEqualIgnoringCase(rt, users, username, password, email, username, otherPassword, otherEmail);
  }

  /**
   Under the invariant, a name matches at most one registered user ignoring
   case: the list is a case-insensitive lookup table.
   */
  lemma AtMostOneMatch(rt: Runtime, users: seq<User>, name: string, i: nat, j: nat)
    requires UniqueUsernames(rt, users)
    requires i < |users| && j < |users|
    requires EqualsIgnoreCase(rt, users[i].username, name)
    requires EqualsIgnoreCase(rt, users[j].username, name)
    ensures i == j
  {
    if i != j {
      EqualsIgnoreCaseSymmetric(rt, users[j].username, name);
      EqualsIgnoreCaseTransitive(rt, users[i].username, name, users[j].username);
      if j < i {
        EqualsIgnoreCaseSymmetric(rt, users[i].username, users[j].username);
      }
    }
  }

  /** Registration only ever appends: the old list is a prefix of the new one. */
  lemma RegisterOnlyAppends(rt: Runtime, users: seq<User>, username: string, password: string, email: string)
    ensures
      var r := Register(rt, users, username, password, email);
      && users <= r.users
      && |r.users| == |users| + (if r.ok then 1 else 0)
  {
  }

  /** The registration inputs the tests expect to fail, whatever the platform and the list. */
  lemma RegistrationTestRejections(rt: Runtime, users: seq<User>)
    ensures Register(rt, users, "", "password123", "testuser@example.com") == Registration(false, users)
    ensures Register(rt, users, "Username", "password", "testuser@example.com") == Registration(false, users)
    ensures Register(rt, users, "Username", "password123", "testuserexamplecom") == Registration(false, users)
  {
    PasswordTestRejections("password");
    PasswordTestRejections("password123");
  }

  /**
   The successful registration of the tests, on a fresh service: it succeeds
   once the platform counts the letters of "testuser" as letters and accepts the
   lower-cased address.
   */
  lemma RegistrationTestSuccess(rt: Runtime)
    requires forall i :: 0 <= i < |"testuser"| ==> rt.isLetter("testuser"[i])
    requires rt.isMailAddress(ToLower(rt, "testuser@example.com"))
    ensures Register(rt, [], "testuser", "password123!", "testuser@example.com") == Registration(true, [User("testuser", "password123!", "testuser@example.com")])
  {
    assert "password123!"[11] == '!';
  }

  /** A client of the class: what a caller can rely on from the contracts alone. */
  method RegisterTwice(rt: Runtime, username: string, password: string, email: string)
    returns (first: bool, second: bool)
    ensures !second
    ensures first <==> IsValidUsername(rt, username) && ValidatePassword(password) && ValidateEmail(rt, email)
  {
    var service := new UserRegistrationService(rt);
    first := service.RegisterUser(username, password, email);
    second := service.RegisterUser(username, password, email);
    if first {
      SameUsernameTwiceFails(rt, [], username, password, email, password, email);
    }
  }
}
