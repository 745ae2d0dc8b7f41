/**
 * TaskService: creating, patching, deleting and re-statusing tasks in the
 * store, and the filtered, paginated listings by author or assignee. The
 * current user's name is a parameter.
 */
module TaskService {
  import opened Wrappers
  import opened Domain
  import opened Storage
  import opened UserService
  import opened TaskValidator

  /** getTaskById. */
  function GetTaskById(tasks: map<TaskId, Task>, id: TaskId): (r: Result<Task, Error>)
    ensures r.Success? <==> id in tasks
    ensures r.Success? ==> r.value == tasks[id]
    ensures r.Failure? ==> r.error == TaskNotFound
  {
    if id in tasks then Success(tasks[id]) else Failure(TaskNotFound)
  }

  /** getAllTasks: every stored task, in store order. */
  function GetAllTasks(tasks: map<TaskId, Task>, bound: nat): (r: seq<Task>)
    requires KeysBelow(tasks, bound)
    ensures forall t :: t in r <==> t in tasks.Values
  {
    QueryExact(tasks, bound, (t: Task) => true);
    Query(tasks, bound, (t: Task) => true)
  }

  /**
   * createTask: validation first, then the author (the current user) and the
   * assignee are looked up and one new task is saved under the next id.
   */
  method CreateTask(st: Store, req: Request, current: string) returns (r: Outcome<Error>)
    requires st.Valid()
    modifies st
    ensures st.Valid()
    ensures st.users == old(st.users) && st.comments == old(st.comments)
    ensures st.nextUserId == old(st.nextUserId) && st.nextCommentId == old(st.nextCommentId)
    ensures ValidateTask(req, old(st.users)).Fail? ==> r == ValidateTask(req, old(st.users))
    ensures ValidateTask(req, old(st.users)).Pass? && FindByUsername(old(st.users), current).None? ==> r == Fail(UserNotFound)
    ensures r.Pass? <==> ValidateTask(req, old(st.users)).Pass? && FindByUsername(old(st.users), current).Some?
    ensures r.Fail? ==> st.tasks == old(st.tasks) && st.nextTaskId == old(st.nextTaskId)
    ensures r.Pass? ==> old(st.nextTaskId) in st.tasks
    ensures r.Pass? ==>
      var id := old(st.nextTaskId);
      var t := st.tasks[id];
      && st.nextTaskId == id + 1
      && st.tasks == old(st.tasks)[id := t]
      && t.id == id
      && Get(req, "title") == Some(t.title)
      && Get(req, "description") == Some(t.description)
      && ParseStatus(Get(req, "status").value) == Some(t.status)
      && ParsePriority(Get(req, "priority").value) == Some(t.priority)
      && FindByUsername(old(st.users), current) == Some(old(st.users)[t.author])
      && (t.assignee.None? <==> Get(req, "assignee").None?)
      && (t.assignee.Some? ==> old(st.users)[t.assignee.value].username == Get(req, "assignee").value)
  {
    var v := ValidateTask(req, st.users);
    if v.Fail? {
      return v;
    }
    AcceptedRequestParses(req, st.users);
    var title := Get(req, "title").value;
    var description := Get(req, "description").value;
    var status := ParseStatus(Get(req, "status").value).value;
    var priority := ParsePriority(Get(req, "priority").value).value;
    var author := FindByUsername(st.users, current);
    if author.None? {
      return Fail(UserNotFound);
    }
    // The validator has already found a named assignee, so the lookup below succeeds.
    var assigneeName := Get(req, "assignee");
    var assignee: Option<UserId> := None;
    if assigneeName.Some? {
      assignee := Some(FindByUsername(st.users, assigneeName.value).value.id);
    }
    var id := st.nextTaskId;
    st.tasks := st.tasks[id := Task(id, title, description, status, priority, author.value.id, assignee)];
    st.nextTaskId := id + 1;
    r := Pass;
  }

  /** A status patch that Status.valueOf accepts: absent, or a non-null string that names a constant. */
  ghost predicate StatusPatchOk(patch: Request) {
    "status" in patch ==> patch["status"].Some? && ParseStatus(patch["status"].value).Some?
  }

  ghost predicate PriorityPatchOk(patch: Request) {
    "priority" in patch ==> patch["priority"].Some? && ParsePriority(patch["priority"].value).Some?
  }

  /** An assignee patch that names a stored user; an explicit null names nobody. */
  ghost predicate AssigneePatchOk(patch: Request, users: map<UserId, User>)
    requires UniqueUsernames(users)
  {
    "assignee" in patch ==> Get(patch, "assignee").Some? && FindByUsername(users, Get(patch, "assignee").value).Some?
  }

  /**
   * The candidate updateTask builds before validating: title and description
   * are taken from the patch alone; status, priority and assignee come from
   * the patch when its key is present and from the stored task otherwise.
   * A null status or priority is dereferenced (NullReference), one that names
   * no constant makes valueOf throw, an assignee that names nobody is refused.
   */
  function BuildCandidate(task: Task, patch: Request, users: map<UserId, User>): (r: Result<Candidate, Error>)
    requires UniqueUsernames(users) && TaskRefsResolve(task, users)
    ensures r.Success? <==> StatusPatchOk(patch) && PriorityPatchOk(patch) && AssigneePatchOk(patch, users)
    ensures r.Failure? ==> r.error in {NullReference, NoSuchConstant, NoSuchAssignee}
    ensures "status" in patch && patch["status"].None? ==> r == Failure(NullReference)
    ensures "status" in patch && patch["status"].Some? && ParseStatus(patch["status"].value).None? ==> r == Failure(NoSuchConstant)
    ensures StatusPatchOk(patch) && "priority" in patch && patch["priority"].None? ==> r == Failure(NullReference)
    ensures StatusPatchOk(patch) && "priority" in patch && patch["priority"].Some? && ParsePriority(patch["priority"].value).None? ==>
      r == Failure(NoSuchConstant)
    ensures StatusPatchOk(patch) && PriorityPatchOk(patch) && !AssigneePatchOk(patch, users) ==> r == Failure(NoSuchAssignee)
    ensures r.Success? ==>
      && r.value.title == Get(patch, "title")
      && r.value.description == Get(patch, "description")
      && r.value.status == Some(if "status" in patch then ParseStatus(patch["status"].value).value else task.status)
      && r.value.priority == Some(if "priority" in patch then ParsePriority(patch["priority"].value).value else task.priority)
      && r.value.assignee == (if "assignee" in patch then FindByUsername(users, Get(patch, "assignee").value)
                              else if task.assignee.Some? then Some(users[task.assignee.value]) else None)
  {
    var status :=
      if "status" !in patch then Success(task.status)
      else if patch["status"].None? then Failure(NullReference)
      else if ParseStatus(patch["status"].value).None? then Failure(NoSuchConstant)
      else Success(ParseStatus(patch["status"].value).value);
    var priority :=
      if "priority" !in patch then Success(task.priority)
      else if patch["priority"].None? then Failure(NullReference)
      else if ParsePriority(patch["priority"].value).None? then Failure(NoSuchConstant)
      else Success(ParsePriority(patch["priority"].value).value);
    var assignee :=
      if "assignee" !in patch then Success(if task.assignee.Some? then Some(users[task.assignee.value]) else None)
      else if Get(patch, "assignee").None? then Failure(NoSuchAssignee)
      else if FindByUsername(users, Get(patch, "assignee").value).None? then Failure(NoSuchAssignee)
      else Success(FindByUsername(users, Get(patch, "assignee").value));
    if status.Failure? then Failure(status.error)
    else if priority.Failure? then Failure(priority.error)
    else if assignee.Failure? then Failure(assignee.error)
    else Success(Candidate(Get(patch, "title"), Get(patch, "description"), Some(status.value), Some(priority.value), assignee.value))
  }

  /**
   * A patch passes candidate building and validation exactly when it carries a
   * non-empty title and a non-empty description and its other keys are well
   * formed: a patch that leaves out the title or the description is refused.
   */
  lemma {:induction false} UpdateAcceptedIff(task: Task, patch: Request, users: map<UserId, User>)
    requires UniqueUsernames(users) && TaskRefsResolve(task, users)
    ensures
      (BuildCandidate(task, patch, users).Success? && ValidateUpdateTask(BuildCandidate(task, patch, users).value, users).Pass?)
      <==>
      (Filled(Get(patch, "title")) && Filled(Get(patch, "description"))
       && StatusPatchOk(patch) && PriorityPatchOk(patch) && AssigneePatchOk(patch, users))
  {
    var c := BuildCandidate(task, patch, users);
    if c.Success? && c.value.assignee.Some? {
      var u := c.value.assignee.value;
      if "assignee" !in patch {
        assert users[task.assignee.value].username == u.username;
      }
      assert FindByUsername(users, u.username).Some?;
      assert UpdateGuardHolds(AssigneeUnknown, c.value, users);
    }
  }

  /** A patch holding only a title, sent by the author, is refused for its missing description. */
  lemma TitleOnlyPatchRefused(task: Task, users: map<UserId, User>, title: string)
    requires UniqueUsernames(users) && TaskRefsResolve(task, users)
    requires title != ""
    ensures BuildCandidate(task, map["title" := Some(title)], users).Success?
    ensures ValidateUpdateTask(BuildCandidate(task, map["title" := Some(title)], users).value, users)
            == Fail(InvalidUpdate(DescriptionMissing))
  {
  }

  /**
   * updateTask: the task must exist and belong to the current user; then the
   * candidate is built and validated, and only the fields whose keys the
   * patch holds are written back, in one save. Any failure leaves the store
   * as it was.
   */
  method UpdateTask(st: Store, id: TaskId, patch: Request, current: string) returns (r: Outcome<Error>)
    requires st.Valid()
    modifies st
    ensures st.Valid()
    ensures st.users == old(st.users) && st.comments == old(st.comments)
    ensures st.nextUserId == old(st.nextUserId) && st.nextTaskId == old(st.nextTaskId) && st.nextCommentId == old(st.nextCommentId)
    ensures r.Fail? ==> st.tasks == old(st.tasks)
    ensures id !in old(st.tasks) ==> r == Fail(TaskNotFound)
    ensures id in old(st.tasks) && FindByUsername(old(st.users), current).None? ==> r == Fail(UserNotFound)
    ensures (id in old(st.tasks) && FindByUsername(old(st.users), current).Some?
             && old(st.tasks)[id].author != FindByUsername(old(st.users), current).value.id) ==> r == Fail(AccessDenied)
    ensures (id in old(st.tasks) && FindByUsername(old(st.users), current).Some?
             && old(st.tasks)[id].author == FindByUsername(old(st.users), current).value.id) ==>
      var c := BuildCandidate(old(st.tasks)[id], patch, old(st.users));
      && (c.Failure? ==> r == Fail(c.error))
      && (c.Success? && ValidateUpdateTask(c.value, old(st.users)).Fail? ==> r == ValidateUpdateTask(c.value, old(st.users)))
    ensures r.Pass? <==>
      && id in old(st.tasks)
      && FindByUsername(old(st.users), current).Some?
      && old(st.tasks)[id].author == FindByUsername(old(st.users), current).value.id
      && Filled(Get(patch, "title")) && Filled(Get(patch, "description"))
      && StatusPatchOk(patch) && PriorityPatchOk(patch) && AssigneePatchOk(patch, old(st.users))
    ensures r.Pass? ==> id in st.tasks
    ensures r.Pass? ==>
      var t := old(st.tasks)[id];
      var t' := st.tasks[id];
      && st.tasks == old(st.tasks)[id := t']
      && t'.id == t.id && t'.author == t.author
      && Get(patch, "title") == Some(t'.title)
      && Get(patch, "description") == Some(t'.description)
      && t'.status == (if "status" in patch then ParseStatus(patch["status"].value).value else t.status)
      && t'.priority == (if "priority" in patch then ParsePriority(patch["priority"].value).value else t.priority)
      && t'.assignee == (if "assignee" in patch then Some(FindByUsername(old(st.users), Get(patch, "assignee").value).value.id)
                         else t.assignee)
  {
    var found := GetTaskById(st.tasks, id);
    if found.Failure? {
      return Fail(found.error);
    }
    var task := found.value;
    var me := FindByUsername(st.users, current);
    if me.None? {
      return Fail(UserNotFound);
    }
    if task.author != me.value.id {
      return Fail(AccessDenied);
    }
    UpdateAcceptedIff(task, patch, st.users);
    var candidate := BuildCandidate(task, patch, st.users);
    if candidate.Failure? {
      return Fail(candidate.error);
    }
    var c := candidate.value;
    var v := ValidateUpdateTask(c, st.users);
    if v.Fail? {
      return v;
    }
    if "title" in patch {
      task := task.(title := c.title.value);
    }
    if "description" in patch {
      task := task.(description := c.description.value);
    }
    if "status" in patch {
      task := task.(status := c.status.value);
    }
    if "priority" in patch {
      task := task.(priority := c.priority.value);
    }
    if "assignee" in patch {
      task := task.(assignee := Some(c.assignee.value.id));
    }
    st.tasks := st.tasks[id := task];
    r := Pass;
  }

  /** deleteTask: only the task's author may delete it; on success exactly that task is gone. */
  method DeleteTask(st: Store, id: TaskId, current: string) returns (r: Outcome<Error>)
    requires st.Valid()
    modifies st
    ensures st.Valid()
    ensures st.users == old(st.users) && st.comments == old(st.comments)
    ensures st.nextUserId == old(st.nextUserId) && st.nextTaskId == old(st.nextTaskId) && st.nextCommentId == old(st.nextCommentId)
    ensures id !in old(st.tasks) ==> r == Fail(TaskNotFound)
    ensures id in old(st.tasks) && FindByUsername(old(st.users), current).None? ==> r == Fail(UserNotFound)
    ensures (id in old(st.tasks) && FindByUsername(old(st.users), current).Some?
             && old(st.tasks)[id].author != FindByUsername(old(st.users), current).value.id) ==> r == Fail(AccessDenied)
    ensures r.Pass? <==>
      && id in old(st.tasks)
      && FindByUsername(old(st.users), current).Some?
      && old(st.tasks)[id].author == FindByUsername(old(st.users), current).value.id
    ensures r.Fail? ==> r.error in {TaskNotFound, UserNotFound, AccessDenied} && st.tasks == old(st.tasks)
    ensures r.Pass? ==> st.tasks == old(st.tasks) - {id}
  {
    var found := GetTaskById(st.tasks, id);
    if found.Failure? {
      return Fail(found.error);
    }
    var me := FindByUsername(st.users, current);
    if me.None? {
      return Fail(UserNotFound);
    }
    if found.value.author != me.value.id {
      return Fail(AccessDenied);
    }
    st.tasks := st.tasks - {id};
    r := Pass;
  }

  /**
   * The access check of changeStatus as written: the assignee is dereferenced
   * first, then access needs the user to be the assignee AND the author.
   */
  function StatusChangeAccess(task: Task, me: UserId): (r: Outcome<Error>)
    ensures r.Pass? <==> task.author == me && task.assignee == Some(me)
    ensures task.assignee.None? ==> r == Fail(NullReference)
    ensures task.assignee.Some? && r.Fail? ==> r == Fail(AccessDenied)
  {
    if task.assignee.None? then Fail(NullReference)
    else if task.assignee.value != me || task.author != me then Fail(AccessDenied)
    else Pass
  }

  /** Under the check as written, an author who is not the assignee, or an assignee who is not the author, is refused. */
  lemma SingleRoleRefused(task: Task, me: UserId)
    requires task.assignee.Some?
    requires (task.author == me) != (task.assignee.value == me)
    ensures StatusChangeAccess(task, me) == Fail(AccessDenied)
  {
  }

  /** changeStatus: after the access check, the new status is parsed and only the status field changes. */
  method ChangeStatus(st: Store, id: TaskId, patch: Request, current: string) returns (r: Outcome<Error>)
    requires st.Valid()
    modifies st
    ensures st.Valid()
    ensures st.users == old(st.users) && st.comments == old(st.comments)
    ensures st.nextUserId == old(st.nextUserId) && st.nextTaskId == old(st.nextTaskId) && st.nextCommentId == old(st.nextCommentId)
    ensures r.Fail? ==> st.tasks == old(st.tasks)
    ensures id !in old(st.tasks) ==> r == Fail(TaskNotFound)
    ensures id in old(st.tasks) && FindByUsername(old(st.users), current).None? ==> r == Fail(UserNotFound)
    ensures id in old(st.tasks) && FindByUsername(old(st.users), current).Some? ==>
      var access := StatusChangeAccess(old(st.tasks)[id], FindByUsername(old(st.users), current).value.id);
      && (access.Fail? ==> r == access)
      && (access.Pass? && Get(patch, "status").None? ==> r == Fail(NullReference))
      && (access.Pass? && Get(patch, "status").Some? && ParseStatus(Get(patch, "status").value).None? ==> r == Fail(InvalidStatusValue))
    ensures r.Pass? <==>
      && id in old(st.tasks)
      && FindByUsername(old(st.users), current).Some?
      && StatusChangeAccess(old(st.tasks)[id], FindByUsername(old(st.users), current).value.id).Pass?
      && Get(patch, "status").Some?
      && ParseStatus(Get(patch, "status").value).Some?
    ensures r.Pass? ==>
      && id in old(st.tasks)
      && Get(patch, "status").Some?
      && ParseStatus(Get(patch, "status").value).Some?
      && st.tasks == old(st.tasks)[id := old(st.tasks)[id].(status := ParseStatus(Get(patch, "status").value).value)]
  {
    var found := GetTaskById(st.tasks, id);
    if found.Failure? {
      return Fail(found.error);
    }
    var task := found.value;
    var me := FindByUsername(st.users, current);
    if me.None? {
      return Fail(UserNotFound);
    }
    var access := StatusChangeAccess(task, me.value.id);
    if access.Fail? {
      return access;
    }
    var requested := Get(patch, "status");
    if requested.None? {
      return Fail(NullReference);
    }
    var status := ParseStatus(requested.value);
    if status.None? {
      return Fail(InvalidStatusValue);
    }
    st.tasks := st.tasks[id := task.(status := status.value)];
    r := Pass;
  }

  /** Whose tasks a listing asks for. */
  datatype Role = AuthorRole | AssigneeRole

  /** Which of the two optional filters a listing was given. */
  datatype FilterKind = Unfiltered | StatusOnly | PriorityOnly | StatusAndPriority

  /** A listing: a non-empty page (200), or the not-found answer whose message is fixed by role and filters (404). */
  datatype Listing = Found(page: seq<Task>) | NothingFound(role: Role, filter: FilterKind)

  function KindOf(status: Option<Status>, priority: Option<Priority>): FilterKind {
    if status.Some? && priority.Some? then StatusAndPriority
    else if status.Some? then StatusOnly
    else if priority.Some? then PriorityOnly
    else Unfiltered
  }

  /** The condition of the finder chosen for the role and the non-null filters. */
  predicate Matches(t: Task, role: Role, uid: UserId, status: Option<Status>, priority: Option<Priority>) {
    && (match role
        case AuthorRole => t.author == uid
        case AssigneeRole => t.assignee == Some(uid))
    && (status.Some? ==> t.status == status.value)
    && (priority.Some? ==> t.priority == priority.value)
  }

  /** All stored tasks the chosen finder matches, in store order. */
  function Matching(tasks: map<TaskId, Task>, bound: nat, role: Role, uid: UserId, status: Option<Status>, priority: Option<Priority>): seq<Task> {
    Query(tasks, bound, (t: Task) => Matches(t, role, uid, status, priority))
  }

  /** The finder returns exactly the stored tasks that satisfy the role and every non-null filter. */
  lemma MatchingExact(tasks: map<TaskId, Task>, bound: nat, role: Role, uid: UserId, status: Option<Status>, priority: Option<Priority>)
    requires KeysBelow(tasks, bound)
    ensures forall t :: t in Matching(tasks, bound, role, uid, status, priority) <==> t in tasks.Values && Matches(t, role, uid, status, priority)
  {
    QueryExact(tasks, bound, (t: Task) => Matches(t, role, uid, status, priority));
  }

  /**
   * getTasksByAuthor / getTasksByAssignee: an unknown user id is an error;
   * page and size select a slice of the matching tasks; an empty slice gives
   * the not-found answer for the role and the filters given.
   */
  function ListTasks(users: map<UserId, User>, tasks: map<TaskId, Task>, bound: nat, role: Role, uid: UserId,
                     status: Option<Status>, priority: Option<Priority>, page: nat, size: nat): (r: Result<Listing, Error>)
    requires size > 0
    ensures r.Failure? <==> uid !in users
    ensures r.Failure? ==> r.error == UserNotFound
    ensures r.Success? ==> (r.value.Found? <==> page * size < |Matching(tasks, bound, role, uid, status, priority)|)
    ensures r.Success? && r.value.Found? ==> r.value.page == Page(Matching(tasks, bound, role, uid, status, priority), page, size)
    ensures r.Success? && r.value.NothingFound? ==> r.value == NothingFound(role, KindOf(status, priority))
  {
    if FindById(users, uid).None? then Failure(UserNotFound)
    else
      var selected := Page(Matching(tasks, bound, role, uid, status, priority), page, size);
      if selected == [] then Success(NothingFound(role, KindOf(status, priority)))
      else Success(Found(selected))
  }

  /** A page holds at most size tasks, each a stored task that satisfies the role and the filters, in ascending id order. */
  lemma {:induction false} ListedTasksMatch(users: map<UserId, User>, tasks: map<TaskId, Task>, bound: nat, role: Role, uid: UserId,
                                            status: Option<Status>, priority: Option<Priority>, page: nat, size: nat)
    requires size > 0
    requires KeysBelow(tasks, bound) && forall k :: k in tasks ==> tasks[k].id == k
    ensures var r := ListTasks(users, tasks, bound, role, uid, status, priority, page, size);
      r.Success? && r.value.Found? ==>
        && 0 < |r.value.page| <= size
        && (forall t :: t in r.value.page ==> t in tasks.Values && Matches(t, role, uid, status, priority))
        && forall i, j :: 0 <= i < j < |r.value.page| ==> r.value.page[i].id < r.value.page[j].id
  {
    ListPageMembers(users, tasks, bound, role, uid, status, priority, page, size);
    QueryInStoreOrder(tasks, bound, (t: Task) => Matches(t, role, uid, status, priority), (t: Task) => t.id);
    PageKeepsOrder(Matching(tasks, bound, role, uid, status, priority), page, size, (t: Task) => t.id);
  }

  /** The first page is empty exactly when no stored task matches, and then the answer names the filters given. */
  lemma {:induction false} FirstPageEmptyIffNoMatch(users: map<UserId, User>, tasks: map<TaskId, Task>, bound: nat, role: Role, uid: UserId,
                                                    status: Option<Status>, priority: Option<Priority>, size: nat)
    requires size > 0 && uid in users
    requires KeysBelow(tasks, bound)
    ensures var r := ListTasks(users, tasks, bound, role, uid, status, priority, 0, size);
      && r.Success?
      && (r.value.NothingFound? <==> forall k :: k in tasks ==> !Matches(tasks[k], role, uid, status, priority))
      && (r.value.NothingFound? ==> r.value.filter == KindOf(status, priority))
  {
    MatchingExact(tasks, bound, role, uid, status, priority);
    var all := Matching(tasks, bound, role, uid, status, priority);
    if all != [] {
      assert all[0] in all;
    }
  }

  /** getTasksByAuthor. */
  function GetTasksByAuthor(users: map<UserId, User>, tasks: map<TaskId, Task>, bound: nat, authorId: UserId,
                            status: Option<Status>, priority: Option<Priority>, page: nat, size: nat): (r: Result<Listing, Error>)
    requires size > 0
    requires KeysBelow(tasks, bound)
    ensures r.Failure? <==> authorId !in users
    ensures r.Success? && r.value.Found? ==>
      forall t :: t in r.value.page ==>
        && t in tasks.Values && t.author == authorId
        && (status.Some? ==> t.status == status.value)
        && (priority.Some? ==> t.priority == priority.value)
    ensures r.Success? && r.value.NothingFound? ==> r.value == NothingFound(AuthorRole, KindOf(status, priority))
  {
    ListPageMembers(users, tasks, bound, AuthorRole, authorId, status, priority, page, size);
    ListTasks(users, tasks, bound, AuthorRole, authorId, status, priority, page, size)
  }

  /** getTasksByAssignee. */
  function GetTasksByAssignee(users: map<UserId, User>, tasks: map<TaskId, Task>, bound: nat, assigneeId: UserId,
                              status: Option<Status>, priority: Option<Priority>, page: nat, size: nat): (r: Result<Listing, Error>)
    requires size > 0
    requires KeysBelow(tasks, bound)
    ensures r.Failure? <==> assigneeId !in users
    ensures r.Success? && r.value.Found? ==>
      forall t :: t in r.value.page ==>
        && t in tasks.Values && t.assignee == Some(assigneeId)
        && (status.Some? ==> t.status == status.value)
        && (priority.Some? ==> t.priority == priority.value)
    ensures r.Success? && r.value.NothingFound? ==> r.value == NothingFound(AssigneeRole, KindOf(status, priority))
  {
    ListPageMembers(users, tasks, bound, AssigneeRole, assigneeId, status, priority, page, size);
    ListTasks(users, tasks, bound, AssigneeRole, assigneeId, status, priority, page, size)
  }

  /** Every task on a page is a stored task the finder matches. */
  lemma ListPageMembers(users: map<UserId, User>, tasks: map<TaskId, Task>, bound: nat, role: Role, uid: UserId,
                        status: Option<Status>, priority: Option<Priority>, page: nat, size: nat)
    requires size > 0
    requires KeysBelow(tasks, bound)
    ensures var r := ListTasks(users, tasks, bound, role, uid, status, priority, page, size);
      r.Success? && r.value.Found? ==> forall t :: t in r.value.page ==> t in tasks.Values && Matches(t, role, uid, status, priority)
  {
    MatchingExact(tasks, bound, role, uid, status, priority);
    PageMembers(Matching(tasks, bound, role, uid, status, priority), page, size);
  }
}
