/**
 The user registration service: three field validators, a confirmation
 message, and the in-memory list of registered users that RegisterUser checks
 and appends to.
 */
module UserRegistration {
  import opened Platform
  import Linq

  /** A registered identity. The password is kept as plain text, as the service keeps it. */
  datatype User = User(username: string, password: string, email: string)

  const MinUsernameLength: nat := 5
  const MaxUsernameLength: nat := 20
  const MinPasswordLength: nat := 8

  /** The characters of which a password needs at least one. */
  const SpecialCharacters: string := "!@#$%^&*()-_+=[]{}|;:,.<>?"

  const ConfirmationPrefix: string := "User '"
  const ConfirmationSuffix: string := "' has been successfully registered."

  predicate IsLetterOrDigit(rt: Runtime, c: char)
  {
    rt.isLetter(c) || rt.isDigit(c)
  }

  /** The usernames ValidateUsername accepts: 5 to 20 characters, each a letter or a digit. */
  predicate IsValidUsername(rt: Runtime, username: string)
  {
    && MinUsernameLength <= |username| <= MaxUsernameLength
    && forall i :: 0 <= i < |username| ==> IsLetterOrDigit(rt, username[i])
  }

  /**
   A password is accepted when it has at least eight characters and at least
   one of them is a special character. Nothing else is required of it.
   */
  function ValidatePassword(password: string): (valid: bool)
    ensures valid <==>
      && |password| >= MinPasswordLength
      && exists i :: 0 <= i < |password| && password[i] in SpecialCharacters
  {
    if |password| < MinPasswordLength then false
    else if !Linq.Any(password, c => c in SpecialCharacters) then false
    else true
  }

  /**
   An email is rejected when empty; otherwise it is lower-cased and accepted
   exactly when the mail-address parser accepts the lower-cased text.
   */
  function ValidateEmail(rt: Runtime, email: string): (valid: bool)
    ensures email == [] ==> !valid
    ensures email != [] ==> (valid <==> rt.isMailAddress(ToLower(rt, email)))
  {
    if email == [] then false
    else
      var lowered := ToLower(rt, email);
      rt.isMailAddress(lowered)
  }

  /**
   The confirmation text: the username quoted between a fixed prefix and a
   fixed suffix. It does not consult the registered users.
   */
  function GetRegistrationConfirmationMessage(username: string): (message: string)
    ensures |message| == |ConfirmationPrefix| + |username| + |ConfirmationSuffix|
    ensures message[..|ConfirmationPrefix|] == ConfirmationPrefix
    ensures message[|ConfirmationPrefix|..|ConfirmationPrefix| + |username|] == username
    ensures message[|ConfirmationPrefix| + |username|..] == ConfirmationSuffix
  {
    ConfirmationPrefix + username + ConfirmationSuffix
  }

  /** Some registered username equals `username` ignoring case. */
  predicate IsTaken(rt: Runtime, users: seq<User>, username: string)
  {
    exists i :: 0 <= i < |users| && EqualsIgnoreCase(rt, users[i].username, username)
  }

  /** No two registered usernames are equal ignoring case. */
  predicate UniqueUsernames(rt: Runtime, users: seq<User>)
  {
    forall i, j :: 0 <= i < j < |users| ==> !EqualsIgnoreCase(rt, users[i].username, users[j].username)
  }

  /** Every registered user passed all three validators. */
  predicate AllValid(rt: Runtime, users: seq<User>)
  {
    forall i :: 0 <= i < |users| ==>
      && IsValidUsername(rt, users[i].username)
      && ValidatePassword(users[i].password)
      && ValidateEmail(rt, users[i].email)
  }

  /** What the registered-user list satisfies between calls. */
  predicate StoreInvariant(rt: Runtime, users: seq<User>)
  {
    UniqueUsernames(rt, users) && AllValid(rt, users)
  }

  /** The outcome of one registration attempt: the returned flag and the new list. */
  datatype Registration = Registration(ok: bool, users: seq<User>)

  /**
   One registration attempt on the list `users`. Invalid input and a taken
   username both give false and leave the list as it was; otherwise the new
   user is appended at the end.
   */
  function Register(rt: Runtime, users: seq<User>, username: string, password: string, email: string): (r: Registration)
    ensures r.ok <==>
      && IsValidUsername(rt, username) && ValidatePassword(password) && ValidateEmail(rt, email)
      && !IsTaken(rt, users, username)
    ensures !r.ok ==> r.users == users
    ensures r.ok ==> r.users == users + [User(username, password, email)]
  {
    if !IsValidUsername(rt, username) || !ValidatePassword(password) || !ValidateEmail(rt, email) then
      Registration(false, users)
    else if Linq.Any(users, (user: User) => EqualsIgnoreCase(rt, user.username, username)) then
      Registration(false, users)
    else
      Registration(true, users + [User(username, password, email)])
  }

  /** A registration attempt keeps the list's invariant. */
  lemma RegisterPreservesInvariant(rt: Runtime, users: seq<User>, username: string, password: string, email: string)
    requires StoreInvariant(rt, users)
    ensures StoreInvariant(rt, Register(rt, users, username, password, email).users)
  {
  }

  class UserRegistrationService {
    /** The platform facilities the validators call. */
    const runtime: Runtime
    /** The registered users, in registration order. */
    var registeredUsers: seq<User>

    ghost predicate Valid()
      reads this
    {
      StoreInvariant(runtime, registeredUsers)
    }

    constructor (runtime: Runtime)
      ensures this.runtime == runtime
      ensures registeredUsers == []
      ensures Valid()
    {
      this.runtime := runtime;
      registeredUsers := [];
    }

    /** Scans the username character by character and stops at the first one that is neither letter nor digit. */
    method ValidateUsername(username: string) returns (valid: bool)
      ensures valid == IsValidUsername(runtime, username)
    {
      if |username| < MinUsernameLength || |username| > MaxUsernameLength {
        return false;
      }
      for i := 0 to |username|
        invariant forall k :: 0 <= k < i ==> IsLetterOrDigit(runtime, username[k])
      {
        var c := username[i];
        if !runtime.isLetter(c) && !runtime.isDigit(c) {
          return false;
        }
      }
      return true;
    }

    /**
     Registers a user when all three fields are valid and the username is not
     taken ignoring case; returns whether it did.
     */
    method RegisterUser(username: string, password: string, email: string) returns (ok: bool)
      requires Valid()
      modifies this
      ensures Valid()
      ensures Registration(ok, registeredUsers) == Register(runtime, old(registeredUsers), username, password, email)
      ensures !ok ==> registeredUsers == old(registeredUsers)
      ensures ok ==> registeredUsers == old(registeredUsers) + [User(username, password, email)]
    {
      RegisterPreservesInvariant(runtime, registeredUsers, username, password, email);
      var usernameValid := ValidateUsername(username);
      if !usernameValid || !ValidatePassword(password) || !ValidateEmail(runtime, email) {
        return false;
      }
      if Linq.Any(registeredUsers, (user: User) => EqualsIgnoreCase(runtime, user.username, username)) {
        return false;
      }
      var newUser := User(username, password, email);
      registeredUsers := registeredUsers + [newUser];
      return true;
    }
  }
}
