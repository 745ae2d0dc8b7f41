/** UserValidator: the checks a registration must pass before a user is created. */
module UserValidator {
  import opened Wrappers
  import opened Text
  import opened Domain
  import opened Storage
  import opened UserService

  const UsernameMin: nat := 3
  const UsernameMax: nat := 30
  const PasswordMin: nat := 6
  const PasswordMax: nat := 50

  /** A value checkString accepts: not null, not blank after trim, length within [min, max]. */
  ghost predicate Acceptable(value: Option<string>, min: nat, max: nat) {
    value.Some? && !Blank(value.value) && min <= |value.value| <= max
  }

  /** checkString: the blank check comes first, then the inclusive length bounds on the untrimmed value. */
  function CheckString(value: Option<string>, field: Field, min: nat, max: nat): (r: Outcome<Error>)
    ensures r.Pass? <==> Acceptable(value, min, max)
    ensures r.Fail? && (value.None? || Blank(value.value)) ==> r.error == RegistrationError(EmptyField(field))
    ensures r.Fail? && value.Some? && !Blank(value.value) ==> r.error == RegistrationError(LengthOutOfRange(field))
  {
    if value.None? then Fail(RegistrationError(EmptyField(field)))
    else
      TrimEmptyIffBlank(value.value);
      if Trim(value.value) == [] then Fail(RegistrationError(EmptyField(field)))
      else if |value.value| < min || |value.value| > max then Fail(RegistrationError(LengthOutOfRange(field)))
      else Pass
  }

  /**
   * validateUserData: username 3..30, then password 6..50, and only when both
   * pass, the availability of the username. It reads the store and writes nothing.
   */
  function ValidateUserData(username: Option<string>, password: Option<string>, users: map<UserId, User>): (r: Outcome<Error>)
    requires UniqueUsernames(users)
    ensures r.Pass? <==>
      && Acceptable(username, UsernameMin, UsernameMax)
      && Acceptable(password, PasswordMin, PasswordMax)
      && forall id :: id in users ==> users[id].username != username.value
    ensures r.Fail? ==> r.error.RegistrationError?
    ensures !Acceptable(username, UsernameMin, UsernameMax) ==> r.Fail? && !r.error.reason.UsernameTaken? && r.error.reason.field == Username
    ensures Acceptable(username, UsernameMin, UsernameMax) && !Acceptable(password, PasswordMin, PasswordMax) ==>
      r.Fail? && !r.error.reason.UsernameTaken? && r.error.reason.field == Password
    ensures r == Fail(RegistrationError(UsernameTaken)) <==>
      && Acceptable(username, UsernameMin, UsernameMax)
      && Acceptable(password, PasswordMin, PasswordMax)
      && exists id :: id in users && users[id].username == username.value
  {
    var u := CheckString(username, Username, UsernameMin, UsernameMax);
    if u.Fail? then u
    else
      var p := CheckString(password, Password, PasswordMin, PasswordMax);
      if p.Fail? then p
      else if !IsUsernameAvailable(users, username.value) then Fail(RegistrationError(UsernameTaken))
      else Pass
  }

  /** A username is at most 30 characters: 31 characters are rejected however the rest looks. */
  lemma UsernameBounds(name: string, password: Option<string>, users: map<UserId, User>)
    requires UniqueUsernames(users)
    requires |name| < UsernameMin || |name| > UsernameMax
    ensures ValidateUserData(Some(name), password, users).Fail?
  {
  }

  /** Once a user with that name is stored, a registration with the same name fails with UsernameTaken. */
  lemma {:induction false} StoredNameRejected(users: map<UserId, User>, id: UserId, u: User, password: Option<string>)
    requires UniqueUsernames(users) && UniqueUsernames(users[id := u])
    requires Acceptable(Some(u.username), UsernameMin, UsernameMax)
    requires Acceptable(password, PasswordMin, PasswordMax)
    ensures ValidateUserData(Some(u.username), password, users[id := u]) == Fail(RegistrationError(UsernameTaken))
  {
    assert users[id := u][id].username == u.username;
  }
}
