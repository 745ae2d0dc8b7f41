/**
 * TaskValidator: two ordered series of guards, one over the raw request of
 * createTask and one over the merged candidate of updateTask. The first guard
 * that fails decides the error; both only read the user store.
 */
module TaskValidator {
  import opened Wrappers
  import opened Text
  import opened Domain
  import opened Storage
  import opened UserService

  /** Position of a guard in validateTask. */
  function CreateRank(g: CreateGuard): nat {
    match g
    case NoTitle => 0
    case NoDescription => 1
    case NoStatus => 2
    case InvalidStatus => 3
    case NoPriority => 4
    case InvalidPriority => 5
    case EmptyAssignee => 6
    case UnknownAssignee => 7
  }

  /** A string field that is present, not null and not empty (isEmpty, so whitespace counts as content). */
  predicate Filled(v: Option<string>) {
    v.Some? && v.value != ""
  }

  /** What guard g demands of the request, each guard stated on its own. */
  ghost predicate CreateGuardHolds(g: CreateGuard, req: Request, users: map<UserId, User>)
    requires UniqueUsernames(users)
  {
    match g
    case NoTitle => Filled(Get(req, "title"))
    case NoDescription => Filled(Get(req, "description"))
    case NoStatus => Filled(Get(req, "status"))
    case InvalidStatus => Get(req, "status").Some? ==> ParseStatus(Get(req, "status").value).Some?
    case NoPriority => Filled(Get(req, "priority"))
    case InvalidPriority => Get(req, "priority").Some? ==> ParsePriority(Get(req, "priority").value).Some?
    case EmptyAssignee => Get(req, "assignee") != Some("")
    case UnknownAssignee => Get(req, "assignee").Some? ==> FindByUsername(users, Get(req, "assignee").value).Some?
  }

  /** validateTask. */
  function ValidateTask(req: Request, users: map<UserId, User>): (r: Outcome<Error>)
    requires UniqueUsernames(users)
    ensures r.Fail? ==>
      && r.error.InvalidTask?
      && !CreateGuardHolds(r.error.guard, req, users)
      && forall g: CreateGuard :: CreateRank(g) < CreateRank(r.error.guard) ==> CreateGuardHolds(g, req, users)
    ensures r.Pass? <==> forall g: CreateGuard :: CreateGuardHolds(g, req, users)
  {
    var title := Get(req, "title");
    var description := Get(req, "description");
    var status := Get(req, "status");
    var priority := Get(req, "priority");
    var assignee := Get(req, "assignee");
    if title.None? || title.value == "" then
      Fail(InvalidTask(NoTitle))
    else if description.None? || description.value == "" then Fail(InvalidTask(NoDescription))
    else if status.None? || status.value == "" then Fail(InvalidTask(NoStatus))
    else if ParseStatus(status.value).None? then Fail(InvalidTask(InvalidStatus))
    else if priority.None? || priority.value == "" then Fail(InvalidTask(NoPriority))
    else if ParsePriority(priority.value).None? then Fail(InvalidTask(InvalidPriority))
    else if assignee.Some? && assignee.value == "" then Fail(InvalidTask(EmptyAssignee))
    else if assignee.Some? && FindByUsername(users, assignee.value).None? then Fail(InvalidTask(UnknownAssignee))
    else Pass
  }

  /** A request validateTask accepts has a title and description, a status and priority that parse, and an assignee that is absent or stored. */
  lemma AcceptedRequestParses(req: Request, users: map<UserId, User>)
    requires UniqueUsernames(users)
    requires ValidateTask(req, users).Pass?
    ensures Filled(Get(req, "title")) && Filled(Get(req, "description"))
    ensures Get(req, "status").Some? && ParseStatus(Get(req, "status").value).Some?
    ensures Get(req, "priority").Some? && ParsePriority(Get(req, "priority").value).Some?
    ensures Get(req, "assignee").Some? ==> FindByUsername(users, Get(req, "assignee").value).Some?
  {
    assert CreateGuardHolds(NoStatus, req, users) && CreateGuardHolds(InvalidStatus, req, users);
    assert CreateGuardHolds(NoPriority, req, users) && CreateGuardHolds(InvalidPriority, req, users);
    assert CreateGuardHolds(UnknownAssignee, req, users);
  }

  /** Emptiness is isEmpty, not isBlank: a title and a description of one space pass. */
  lemma WhitespaceTextAccepted(users: map<UserId, User>)
    requires UniqueUsernames(users)
    ensures ValidateTask(map["title" := Some(" "), "description" := Some(" "), "status" := Some("pending"), "priority" := Some("low")], users).Pass?
  {
    assert Upper("pending") == "PENDING";
    assert Upper("low") == "LOW";
  }

  /**
   * The merged task that updateTask validates. Title and description come
   * from the patch only; the other fields fall back to the stored task.
   */
  datatype Candidate = Candidate(
    title: Option<string>,
    description: Option<string>,
    status: Option<Status>,
    priority: Option<Priority>,
    assignee: Option<User>)

  /** Position of a guard in validateUpdateTask. */
  function UpdateRank(g: UpdateGuard): nat {
    match g
    case TitleMissing => 0
    case DescriptionMissing => 1
    case StatusMissing => 2
    case PriorityMissing => 3
    case AssigneeUnknown => 4
  }

  /** What guard g demands of the candidate. */
  ghost predicate UpdateGuardHolds(g: UpdateGuard, c: Candidate, users: map<UserId, User>)
    requires UniqueUsernames(users)
  {
    match g
    case TitleMissing => Filled(c.title)
    case DescriptionMissing => Filled(c.description)
    case StatusMissing => c.status.Some?
    case PriorityMissing => c.priority.Some?
    case AssigneeUnknown => c.assignee.Some? ==> FindByUsername(users, c.assignee.value.username).Some?
  }

  /** validateUpdateTask. */
  function ValidateUpdateTask(c: Candidate, users: map<UserId, User>): (r: Outcome<Error>)
    requires UniqueUsernames(users)
    ensures r.Fail? ==>
      && r.error.InvalidUpdate?
      && !UpdateGuardHolds(r.error.check, c, users)
      && forall g: UpdateGuard :: UpdateRank(g) < UpdateRank(r.error.check) ==> UpdateGuardHolds(g, c, users)
    ensures r.Pass? <==> forall g: UpdateGuard :: UpdateGuardHolds(g, c, users)
  {
    if c.title.None? || c.title.value == "" then
      Fail(InvalidUpdate(TitleMissing))
    else if c.description.None? || c.description.value == "" then Fail(InvalidUpdate(DescriptionMissing))
    else if c.status.None? then Fail(InvalidUpdate(StatusMissing))
    else if c.priority.None? then Fail(InvalidUpdate(PriorityMissing))
    else if c.assignee.Some? && FindByUsername(users, c.assignee.value.username).None? then Fail(InvalidUpdate(AssigneeUnknown))
    else Pass
  }
}
