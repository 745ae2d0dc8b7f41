/** RegistrationService: validate the request, then create one user with the encoded password. */
module RegistrationService {
  import opened Wrappers
  import opened Domain
  import opened Storage
  import opened UserService
  import opened UserValidator

  /**
   * registerNewUser. The password encoder is the parameter encode; what it
   * computes is not part of this model. Validation decides the outcome: if it
   * fails nothing is written, otherwise exactly one user is inserted, holding
   * encode(password) and never the raw password unless encode returns it.
   */
  method RegisterNewUser(st: Store, req: Request, encode: string -> string) returns (r: Outcome<Error>)
    requires st.Valid()
    modifies st
    ensures st.Valid()
    ensures st.tasks == old(st.tasks) && st.comments == old(st.comments)
    ensures st.nextTaskId == old(st.nextTaskId) && st.nextCommentId == old(st.nextCommentId)
    ensures r == ValidateUserData(Get(req, "username"), Get(req, "password"), old(st.users))
    ensures r.Fail? ==> st.users == old(st.users) && st.nextUserId == old(st.nextUserId)
    ensures r.Pass? ==>
      var id := old(st.nextUserId);
      && st.users == old(st.users)[id := User(id, Get(req, "username").value, encode(Get(req, "password").value))]
      && st.nextUserId == id + 1
  {
    var username := Get(req, "username");
    var password := Get(req, "password");
    r := ValidateUserData(username, password, st.users);
    if r.Fail? {
      return;
    }
    var created := CreateUser(st, username.value, encode(password.value));
    assert created.Pass?;
  }

  /** Registering the same name twice: the second attempt fails with UsernameTaken and writes nothing. */
  method RegisterTwice(st: Store, req: Request, again: Request, encode: string -> string) returns (first: Outcome<Error>, second: Outcome<Error>)
    requires st.Valid()
    requires Get(again, "username") == Get(req, "username")
    requires Acceptable(Get(again, "password"), PasswordMin, PasswordMax)
    modifies st
    ensures st.Valid()
    ensures first.Pass? ==> second == Fail(RegistrationError(UsernameTaken))
  {
    ghost var before := st.users;
    ghost var id := st.nextUserId;
    first := RegisterNewUser(st, req, encode);
    if first.Pass? {
      StoredNameRejected(before, id, st.users[id], Get(again, "password"));
    }
    second := RegisterNewUser(st, again, encode);
  }
}
