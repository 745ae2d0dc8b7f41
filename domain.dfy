/**
 * The entities of the task tracker (users, tasks, comments), the two task
 * enumerations, the untyped request payloads and the kinds of error the
 * services raise.
 */
module Domain {
  import opened Wrappers
  import opened Text

  type UserId = nat
  type TaskId = nat
  type CommentId = nat

  /** A registered account; the password is stored in encoded form. */
  datatype User = User(id: UserId, username: string, password: string)

  datatype Status = Pending | InProgress | Completed
  datatype Priority = Low | Medium | High

  /** A task. Author and assignee refer to users by id. */
  datatype Task = Task(
    id: TaskId,
    title: string,
    description: string,
    status: Status,
    priority: Priority,
    author: UserId,
    assignee: Option<UserId>)

  /** A comment on a task, written by a user. */
  datatype Comment = Comment(id: CommentId, content: string, author: UserId, task: TaskId)

  /**
   * A JSON request body as the controllers hand it over: a key that is
   * absent is not in the map, a key sent as null maps to None.
   */
  type Request = map<string, Option<string>>

  /** Map.get: null both for an absent key and for a key sent as null. */
  function Get(req: Request, key: string): (r: Option<string>)
    ensures r.Some? <==> key in req && req[key].Some?
    ensures r.Some? ==> req[key] == r
  {
    if key in req then req[key] else None
  }

  /** The constant names of the two enumerations. */
  function StatusName(s: Status): string {
    match s
    case Pending => "PENDING"
    case InProgress => "IN_PROGRESS"
    case Completed => "COMPLETED"
  }

  function PriorityName(p: Priority): string {
    match p
    case Low => "LOW"
    case Medium => "MEDIUM"
    case High => "HIGH"
  }

  /** Status.valueOf(s.toUpperCase()): the constant whose name is the upper-cased string, if any. */
  function ParseStatus(s: string): (r: Option<Status>)
    ensures r.Some? ==> StatusName(r.value) == Upper(s)
    ensures r.None? ==> forall x: Status :: StatusName(x) != Upper(s)
  {
    var u := Upper(s);
    if u == "PENDING" then Some(Pending)
    else if u == "IN_PROGRESS" then Some(InProgress)
    else if u == "COMPLETED" then Some(Completed)
    else None
  }

  /** Priority.valueOf(s.toUpperCase()). */
  function ParsePriority(s: string): (r: Option<Priority>)
    ensures r.Some? ==> PriorityName(r.value) == Upper(s)
    ensures r.None? ==> forall x: Priority :: PriorityName(x) != Upper(s)
  {
    var u := Upper(s);
    if u == "LOW" then Some(Low)
    else if u == "MEDIUM" then Some(Medium)
    else if u == "HIGH" then Some(High)
    else None
  }

  /** Parsing ignores case: spellings that upper-case alike parse alike. */
  lemma ParseIgnoresCase(a: string, b: string)
    requires Upper(a) == Upper(b)
    ensures ParseStatus(a) == ParseStatus(b) && ParsePriority(a) == ParsePriority(b)
  {
  }

  /** Every constant name parses back to its constant. */
  lemma {:induction false} ParseName(s: Status, p: Priority)
    ensures ParseStatus(StatusName(s)) == Some(s)
    ensures ParsePriority(PriorityName(p)) == Some(p)
  {
    UpperOfUpperCase(StatusName(s));
    UpperOfUpperCase(PriorityName(p));
  }

  /** "completed", "COMPLETED" and "CoMpLeTeD" all name the same status. */
  lemma CompletedInAnyCase()
    ensures ParseStatus("completed") == Some(Completed)
    ensures ParseStatus("COMPLETED") == Some(Completed)
    ensures ParseStatus("CoMpLeTeD") == Some(Completed)
  {
    assert Upper("completed") == "COMPLETED";
    assert Upper("CoMpLeTeD") == "COMPLETED";
    ParseName(Completed, Low);
  }

  datatype Field = Username | Password

  /** Why UserValidator raised a RegistrationException. */
  datatype RegistrationReason =
    | EmptyField(field: Field)
    | LengthOutOfRange(field: Field)
    | UsernameTaken

  /** The guards of TaskValidator.validateTask, in the order they are checked. */
  datatype CreateGuard =
    | NoTitle
    | NoDescription
    | NoStatus
    | InvalidStatus
    | NoPriority
    | InvalidPriority
    | EmptyAssignee
    | UnknownAssignee

  /** The guards of TaskValidator.validateUpdateTask, in the order they are checked. */
  datatype UpdateGuard =
    | TitleMissing
    | DescriptionMissing
    | StatusMissing
    | PriorityMissing
    | AssigneeUnknown

  /** The kinds of failure the services raise; the message texts are not kept. */
  datatype Error =
    | RegistrationError(reason: RegistrationReason)  // RegistrationException
    | InvalidTask(guard: CreateGuard)               // IllegalArgumentException from validateTask
    | InvalidUpdate(check: UpdateGuard)             // IllegalArgumentException from validateUpdateTask
    | NoSuchConstant                                // IllegalArgumentException from Enum.valueOf
    | NoSuchAssignee                                // updateTask: assignee name not found
    | InvalidStatusValue                            // changeStatus: status did not parse
    | InvalidCommentLength                          // addComment: content length outside 1..140
    | UserNotFound                                  // UsernameNotFoundException
    | TaskNotFound                                  // TaskNotFoundException
    | CommentNotFound                               // CommentNotFoundException
    | AccessDenied                                  // AccessDeniedException
    | DuplicateUsername                             // the store's unique constraint on usernames
    | NullReference                                 // a null that the code dereferences or persists
}
