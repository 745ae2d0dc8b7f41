# Task tracker domain core, modelled in Dafny

This project models the domain rules of a Spring task-management backend.
Users register. Tasks have a title, description, status, priority, author and
optional assignee. Comments are attached to tasks. Every operation has
ownership checks and error cases.

The three JPA repositories become one abstract in-memory store (`Storage.Store`).
It holds id-keyed maps of users, tasks and comments. Like an identity column,
the store hands out ids in increasing order, so "store order" means ascending
id order. Tasks and comments refer to users by id. Lombok's equality of `User`
entities is therefore modelled as equality of user ids.

Inputs that the source takes from its surroundings become parameters:
- the current user's name, which the source reads from the security context;
- the password encoder, a function `encode: string -> string` about which nothing is assumed.

Modules follow the source files:
- `Wrappers`: Option, Result, Outcome.
- `Text`: `String.trim()` and ASCII upper-casing.
- `Domain`: entities, enums, request maps and error kinds.
- `Storage`: the store, its finders and pagination.
- `UserService`, `UserValidator`, `RegistrationService`, `TaskValidator`, `TaskService`, `CommentService`: one module per service or validator.

Operations that write the store are methods that modify `Store`. Each one
preserves `Store.Valid()`, which says:
- every record is keyed by its own id;
- usernames are unique;
- task authors, task assignees and comment authors are stored users.

Each write method also states its whole new state. Lookups, validators and
listings are functions over the maps.

A request body is a `map<string, Option<string>>`. An absent key and a key
sent as JSON null are distinct: this matters for `containsKey` in `updateTask`.
Null dereferences in the source become the error `NullReference`. These are:
- a null status in `changeStatus`, and a null status or null priority in an `updateTask` patch;
- a null assignee in `changeStatus`;
- a null content in `addComment`;
- the null author that `addComment` would persist.

Two quirks of the source are kept as written:
- `updateTask` validates a candidate whose title and description come only from the patch. A patch without a title or without a description is refused (`TaskService.UpdateAcceptedIff`, `TaskService.TitleOnlyPatchRefused`).
- `changeStatus` lets a user through only if that user is both the author and the assignee (`TaskService.StatusChangeAccess`, `TaskService.SingleRoleRefused`).

Other modelling choices:
- An unknown assignee in `createTask` is refused by the validator (`InvalidTask(UnknownAssignee)`). The service's own assignee lookup then always succeeds, so its user-not-found branch for the assignee cannot be reached and is not modelled. The user-not-found branch for the current user is modelled.
- Registration failures all have one kind, `RegistrationError`. The reason records which check failed. There is no separate username-taken error kind.
- Whitespace-only comment content is accepted.

`Task.java` is not part of this model. The status constants PENDING,
IN_PROGRESS and COMPLETED and the priority constants LOW, MEDIUM and HIGH are
assumed. The tests confirm COMPLETED and HIGH. Two lemmas depend on the
assumed names: `TaskValidator.WhitespaceTextAccepted` needs PENDING and LOW,
and `Domain.CompletedInAnyCase` needs COMPLETED. The other proofs hold for any
choice of constant names.

## Model

| member | source | states |
|---|---|---|
| `Text.TrimStart` | src/main/java/com/example/task/util/validator/UserValidator.java:43 | the result is a suffix of the input, everything dropped is a character up to U+0020, and the result starts with a character above U+0020 or is empty |
| `Text.TrimEnd` | src/main/java/com/example/task/util/validator/UserValidator.java:43 | the result is a prefix of the input, everything dropped is a character up to U+0020, and the result ends with a character above U+0020 or is empty |
| `Text.UpperOfUpperCase` | src/main/java/com/example/task/util/validator/TaskValidator.java:46-50 | upper-casing a string with no lower-case ASCII letter leaves it unchanged |
| `Text.UpperIdempotent` | src/main/java/com/example/task/util/validator/TaskValidator.java:46-50 | upper-casing twice is the same as upper-casing once |
| `Text.TrimEmptyIffBlank` | src/main/java/com/example/task/util/validator/UserValidator.java:43 | `trim()` gives the empty string exactly when every character is at most U+0020 |
| `Domain.Get` | src/main/java/com/example/task/util/validator/TaskValidator.java:28-32 | `Map.get` yields a value only for a present key that is not null |
| `Domain.ParseStatus` | src/main/java/com/example/task/util/validator/TaskValidator.java:46-50 | a status string is accepted exactly when its upper-cased form is a constant's name, and then yields that constant |
| `Domain.ParsePriority` | src/main/java/com/example/task/util/validator/TaskValidator.java:56-60 | a priority string is accepted exactly when its upper-cased form is a constant's name, and then yields that constant |
| `Domain.ParseIgnoresCase` | src/main/java/com/example/task/util/validator/TaskValidator.java:46-60 | two strings that upper-case alike parse to the same status and the same priority |
| `Domain.ParseName` | src/main/java/com/example/task/service/TaskService.java:58-61 | every constant's name parses back to that constant |
| `Domain.CompletedInAnyCase` | src/test/java/com/example/task/serviceTest/TaskServiceTest.java:69 | "completed", "COMPLETED" and "CoMpLeTeD" all parse to COMPLETED |
| `Storage.Store.constructor` | src/main/java/com/example/task/model/User.java:16-21 | an empty store whose invariant holds: records keyed by their ids, unique usernames, references that resolve |
| `Storage.IdsBelow` | src/main/java/com/example/task/repository/TaskRepository.java:15-30 | the stored keys below the bound, each exactly once, in strictly ascending order |
| `Storage.SelectIds` | src/main/java/com/example/task/repository/TaskRepository.java:15-30 | keeps exactly the ids whose record satisfies the finder's condition, and keeps ascending order |
| `Storage.Lookup` | src/main/java/com/example/task/repository/TaskRepository.java:15-30 | the records stored under the given ids, one per id, in the same order |
| `Storage.QueryExact` | src/main/java/com/example/task/repository/CommentRepository.java:13 | a finder returns a record exactly when it is stored and satisfies the condition |
| `Storage.QueryInStoreOrder` | src/main/java/com/example/task/repository/TaskRepository.java:15-30 | a finder returns records in strictly ascending id order |
| `Storage.Page` | src/main/java/com/example/task/service/TaskService.java:226 | page `p` of size `n` is element `p*n + i` at index `i`, and its length is `n` cut at the end of the sequence |
| `Storage.PageMembers` | src/main/java/com/example/task/service/TaskService.java:226 | a page holds only elements of the sequence it is cut from |
| `Storage.PageKeepsOrder` | src/main/java/com/example/task/service/TaskService.java:226 | a page of an ascending sequence is ascending |
| `UserService.FindById` | src/main/java/com/example/task/service/UserService.java:54-56 | the stored user with that id, or None exactly when the id is not stored |
| `UserService.GetUserById` | src/main/java/com/example/task/service/UserService.java:31-34 | the same answer as `findById`, with None standing for null |
| `UserService.FindByUsername` | src/main/java/com/example/task/service/UserService.java:50-52 | Some exactly when a stored user has that username, and then that user (unique by the store's invariant) |
| `UserService.IsUsernameAvailable` | src/main/java/com/example/task/service/UserService.java:46-48 | true exactly when no stored user has that username |
| `UserService.InsertedNameTaken` | src/main/java/com/example/task/service/UserService.java:46-52 | once a user is stored, its name is not available and `findByUsername` finds that user |
| `UserService.CreateUser` | src/main/java/com/example/task/service/UserService.java:41-43 | one save adds the user under the next id and preserves the invariant; a username that is already stored violates the unique column and nothing is written |
| `UserValidator.CheckString` | src/main/java/com/example/task/util/validator/UserValidator.java:42-49 | accepts exactly a non-null, non-blank value whose untrimmed length is within the inclusive bounds; a null or blank value is reported before a bad length |
| `UserValidator.ValidateUserData` | src/main/java/com/example/task/util/validator/UserValidator.java:24-31 | passes exactly when the username has 3..30 characters, the password has 6..50, both are non-blank, and no stored user has the name. Username errors come first, then password errors. UsernameTaken is reported only when both strings pass |
| `UserValidator.UsernameBounds` | src/main/java/com/example/task/util/validator/UserValidator.java:25 | a username shorter than 3 or longer than 30 characters is always rejected |
| `UserValidator.StoredNameRejected` | src/main/java/com/example/task/util/validator/UserValidator.java:28-30 | after a user is stored, a registration with that name and valid strings fails with UsernameTaken |
| `RegistrationService.RegisterNewUser` | src/main/java/com/example/task/service/RegistrationService.java:39-50 | the outcome is the validator's. On failure the users are unchanged. On success exactly one user is added, with the given name and `encode(password)`, and tasks and comments are untouched |
| `RegistrationService.RegisterTwice` | src/main/java/com/example/task/service/RegistrationService.java:43-49 | after a successful registration, a second one with the same username fails with UsernameTaken |
| `TaskValidator.ValidateTask` | src/main/java/com/example/task/util/validator/TaskValidator.java:27-68 | passes exactly when all eight guards hold; on failure it reports a guard that fails, and every guard checked before it holds |
| `TaskValidator.AcceptedRequestParses` | src/main/java/com/example/task/util/validator/TaskValidator.java:34-67 | an accepted request has a non-empty title and description, a status and a priority that parse, and an assignee that is absent or stored |
| `TaskValidator.WhitespaceTextAccepted` | src/main/java/com/example/task/util/validator/TaskValidator.java:34-40 | the emptiness checks use `isEmpty`, so a title and a description of one space pass |
| `TaskValidator.ValidateUpdateTask` | src/main/java/com/example/task/util/validator/TaskValidator.java:76-104 | passes exactly when all five candidate guards hold; on failure it reports a guard that fails, and every earlier guard holds |
| `TaskService.GetTaskById` | src/main/java/com/example/task/service/TaskService.java:144-147 | the stored task, or TaskNotFound exactly when the id is not stored |
| `TaskService.GetAllTasks` | src/main/java/com/example/task/service/TaskService.java:154-156 | exactly the stored tasks |
| `TaskService.CreateTask` | src/main/java/com/example/task/service/TaskService.java:51-81 | on a validation failure, the validator's error. With valid input and an unknown current user, UserNotFound. Otherwise one new task is stored under the next id: the request's title and description, the parsed status and priority, the current user as author, and the named assignee or none. On failure tasks are unchanged |
| `TaskService.BuildCandidate` | src/main/java/com/example/task/service/TaskService.java:103-110 | title and description come only from the patch. Status, priority and assignee come from the patch when their key is present, otherwise from the stored task. Building succeeds exactly when present status and priority values are non-null constants and a present assignee names a stored user. Errors are checked in order: status, then priority, then assignee. A null value gives NullReference, a name that is not a constant gives NoSuchConstant, and an assignee that names nobody gives NoSuchAssignee |
| `TaskService.UpdateAcceptedIff` | src/main/java/com/example/task/service/TaskService.java:103-112 | building and validating succeed exactly when the patch has a non-empty title and description and its other keys are well formed |
| `TaskService.TitleOnlyPatchRefused` | src/main/java/com/example/task/service/TaskService.java:104-105 | a patch holding only a title is refused with DescriptionMissing |
| `TaskService.UpdateTask` | src/main/java/com/example/task/service/TaskService.java:92-135 | errors in order: TaskNotFound, UserNotFound, AccessDenied for a non-author, then the candidate-building error, then the update validator's error. Any failure leaves the store unchanged. On success only that task changes: title and description from the patch; status, priority and assignee from the patch if present, otherwise kept; id and author kept |
| `TaskService.DeleteTask` | src/main/java/com/example/task/service/TaskService.java:167-176 | removes exactly the task when it exists and the current user is its author; otherwise, in order, TaskNotFound for a missing task, UserNotFound for an unknown current user, AccessDenied for a non-author, and the store is unchanged |
| `TaskService.StatusChangeAccess` | src/main/java/com/example/task/service/TaskService.java:197-199 | access is granted exactly when the user is both the author and the assignee; a null assignee is dereferenced (NullReference) |
| `TaskService.SingleRoleRefused` | src/main/java/com/example/task/service/TaskService.java:197 | an author who is not the assignee, or an assignee who is not the author, is refused |
| `TaskService.ChangeStatus` | src/main/java/com/example/task/service/TaskService.java:190-210 | errors in order: TaskNotFound, UserNotFound, the access check, a null status, a status that does not parse. It succeeds exactly when all of these checks pass. On success only that task's status changes, to the parsed value |
| `TaskService.MatchingExact` | src/main/java/com/example/task/service/TaskService.java:229-237 | the chosen finder returns exactly the stored tasks of that author or assignee that satisfy every non-null filter |
| `TaskService.ListTasks` | src/main/java/com/example/task/service/TaskService.java:223-249 | UserNotFound exactly for an unknown user id. Otherwise the requested page of matching tasks if it is non-empty. If it is empty, the not-found answer for that role and that combination of non-null filters |
| `TaskService.ListedTasksMatch` | src/main/java/com/example/task/service/TaskService.java:229-248 | a page holds 1 to `size` stored tasks, each matching the role and the filters, in ascending id order |
| `TaskService.ListPageMembers` | src/main/java/com/example/task/service/TaskService.java:262-287 | every task on a page is a stored task that the finder matches |
| `TaskService.FirstPageEmptyIffNoMatch` | src/main/java/com/example/task/service/TaskService.java:239-248 | for a known user, page 0 is the not-found answer exactly when no stored task matches, and the answer names the filters given |
| `TaskService.GetTasksByAuthor` | src/main/java/com/example/task/service/TaskService.java:223-249 | an error exactly for an unknown author id. Listed tasks are the author's and satisfy the non-null filters. An empty page gives one of the four author messages, chosen by the filters |
| `TaskService.GetTasksByAssignee` | src/main/java/com/example/task/service/TaskService.java:262-288 | an error exactly for an unknown assignee id. Listed tasks are assigned to that user and satisfy the non-null filters. An empty page gives one of the four assignee messages, chosen by the filters |
| `CommentService.CommentLengthBounds` | src/main/java/com/example/task/service/CommentService.java:53-55 | content is accepted exactly when its length is 1..140 |
| `CommentService.AddComment` | src/main/java/com/example/task/service/CommentService.java:48-63 | TaskNotFound comes first, whatever the content. Then a null content (NullReference), then InvalidCommentLength for a length outside 1..140, then NullReference for a current user who is not stored. On success exactly one comment is saved under the next id, on that task, by the current user, with that content. Any failure saves nothing |
| `CommentService.GetCommentsByTask` | src/main/java/com/example/task/service/CommentService.java:72-76 | TaskNotFound exactly for an unknown task; otherwise exactly the stored comments on that task |
| `CommentService.CommentsInStoreOrder` | src/main/java/com/example/task/service/CommentService.java:75 | those comments come in ascending id order |
| `CommentService.DeleteComment` | src/main/java/com/example/task/service/CommentService.java:86-96 | CommentNotFound, then UserNotFound, then AccessDenied unless the current user wrote the comment. On success only that comment is removed. On failure comments are unchanged |

## Left out

- HTTP controllers, status codes and response bodies are not modelled. The only part kept is the choice among the four not-found listing messages, as `Listing.NothingFound(role, filter)`.
- Authentication, JWT tokens, `UserDetailService` and the OpenAPI configuration are not modelled. They are framework or cryptographic code.
- The password encoder is the parameter `encode`. Hashing is not modelled.
- The security context is replaced by the current username, passed as a parameter.
- Exception message texts are not kept. Only the error kind is, plus which guard or check failed.
- Concurrent requests and read-then-write races are not modelled. They are the database's concern.
- JPA entities are values in the store maps, so a managed entity's in-place setters are modelled as field updates on a copy followed by one save. Aliasing between entity objects is not modelled.
- Cascades on delete are not modelled, because `Task.java` and `Comment.java` are not part of this model. Deleting a task leaves its comments in the store.
- The status and priority constant sets are assumed, because `Task.java` is not part of this model.
- The order of a query result is store (id) order. The database's own ordering is not modelled.
- `Storage.Page`: `PageRequest.of` rejects a negative page and a size below 1. Those rejections are not modelled. Page numbers are `nat`, and the listings require `size > 0`.
- Java's 64-bit ids are not modelled. The model uses unbounded integers.
- `Text.Upper`: `toUpperCase` is modelled only for ASCII letters. Locale rules and non-ASCII case mappings (such as length-changing ones) are not modelled.
- String lengths count Unicode scalar values. Java counts UTF-16 code units, so the two differ for characters outside the Basic Multilingual Plane.
- A request value that is not a string would make the source's casts throw. Request values are typed as strings or null, so this is not modelled.
- `CommentService.AddComment`: `Comment.java` is not part of this model, so whether the store accepts a comment with a null author is unknown. The model refuses such a comment with `NullReference` and saves nothing.
- `UserService.CreateUser`: the store's unique-username constraint is modelled as a `DuplicateUsername` failure that writes nothing. Any other database failure is not modelled.
