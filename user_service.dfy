/** UserService: lookups in the user store and the one write, createUser. */
module UserService {
  import opened Wrappers
  import opened Domain
  import opened Storage

  /** findById: the stored user with that id, if any. */
  function FindById(users: map<UserId, User>, id: UserId): (r: Option<User>)
    ensures r.Some? <==> id in users
    ensures r.Some? ==> r.value == users[id]
  {
    if id in users then Some(users[id]) else None
  }

  /** getUserById: the same lookup, with null (None) for a missing id. */
  function GetUserById(users: map<UserId, User>, id: UserId): (r: Option<User>)
    ensures r == FindById(users, id)
  {
    if id in users then Some(users[id]) else None
  }

  /** findByUsername: the stored user with that username, if any; unique names make it well defined. */
  function FindByUsername(users: map<UserId, User>, name: string): (r: Option<User>)
    requires UniqueUsernames(users)
    ensures r.Some? <==> exists id :: id in users && users[id].username == name
    ensures r.Some? ==> r.value.username == name && r.value in users.Values
    ensures r.Some? ==> forall id :: id in users && users[id].username == name ==> users[id] == r.value
  {
    if exists id | id in users :: users[id].username == name then
      var id :| id in users && users[id].username == name;
      Some(users[id])
    else
      None
  }

  /** isUsernameAvailable: findByUsername finds nobody. */
  function IsUsernameAvailable(users: map<UserId, User>, name: string): (r: bool)
    requires UniqueUsernames(users)
    ensures r <==> forall id :: id in users ==> users[id].username != name
  {
    FindByUsername(users, name).None?
  }

  /** A name with a stored user is not available any more. */
  lemma {:induction false} InsertedNameTaken(users: map<UserId, User>, id: UserId, u: User)
    requires UniqueUsernames(users) && UniqueUsernames(users[id := u])
    ensures !IsUsernameAvailable(users[id := u], u.username)
    ensures FindByUsername(users[id := u], u.username) == Some(u)
  {
    assert users[id := u][id].username == u.username;
  }

  /**
   * createUser: one save of a new user with the given username and password.
   * The store gives it the next id; a username that is already stored violates
   * the unique column and nothing is written.
   */
  method CreateUser(st: Store, username: string, password: string) returns (r: Outcome<Error>)
    requires st.Valid()
    modifies st
    ensures st.Valid()
    ensures st.tasks == old(st.tasks) && st.comments == old(st.comments)
    ensures st.nextTaskId == old(st.nextTaskId) && st.nextCommentId == old(st.nextCommentId)
    ensures r.Pass? <==> IsUsernameAvailable(old(st.users), username)
    ensures r.Fail? ==> r.error == DuplicateUsername
    ensures r.Fail? ==> st.users == old(st.users) && st.nextUserId == old(st.nextUserId)
    ensures r.Pass? ==>
      var id := old(st.nextUserId);
      && st.users == old(st.users)[id := User(id, username, password)]
      && st.nextUserId == id + 1
  {
    if !IsUsernameAvailable(st.users, username) {
      return Fail(DuplicateUsername);
    }
    var id := st.nextUserId;
    st.users := st.users[id := User(id, username, password)];
    st.nextUserId := id + 1;
    r := Pass;
  }
}
