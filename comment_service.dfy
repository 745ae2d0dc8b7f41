/** CommentService: adding, listing and deleting comments on tasks. */
module CommentService {
  import opened Wrappers
  import opened Domain
  import opened Storage
  import opened UserService

  const MaxCommentLength: nat := 140

  /** A content length addComment accepts: 1 to 140 characters, whitespace included. */
  predicate ValidCommentLength(content: string) {
    !(|content| == 0 || |content| > MaxCommentLength)
  }

  /** The accepted lengths are exactly 1..140. */
  lemma CommentLengthBounds(content: string)
    ensures ValidCommentLength(content) <==> 1 <= |content| <= 140
  {
  }

  /**
   * addComment: the task is looked up first, then the content is checked,
   * then one comment written by the current user is saved under the next id.
   * A null content is dereferenced, and a current user who is not stored
   * would be persisted as a null author: both are NullReference here.
   */
  method AddComment(st: Store, taskId: TaskId, req: Request, current: string) returns (r: Outcome<Error>)
    requires st.Valid()
    modifies st
    ensures st.Valid()
    ensures st.users == old(st.users) && st.tasks == old(st.tasks)
    ensures st.nextUserId == old(st.nextUserId) && st.nextTaskId == old(st.nextTaskId)
    ensures taskId !in old(st.tasks) ==> r == Fail(TaskNotFound)
    ensures taskId in old(st.tasks) && Get(req, "content").None? ==> r == Fail(NullReference)
    ensures taskId in old(st.tasks) && Get(req, "content").Some? && !ValidCommentLength(Get(req, "content").value) ==>
      r == Fail(InvalidCommentLength)
    ensures (taskId in old(st.tasks) && Get(req, "content").Some? && ValidCommentLength(Get(req, "content").value)
             && FindByUsername(old(st.users), current).None?) ==> r == Fail(NullReference)
    ensures r.Pass? <==>
      && taskId in old(st.tasks)
      && Get(req, "content").Some? && ValidCommentLength(Get(req, "content").value)
      && FindByUsername(old(st.users), current).Some?
    ensures r.Fail? ==> st.comments == old(st.comments) && st.nextCommentId == old(st.nextCommentId)
    ensures r.Pass? ==>
      var id := old(st.nextCommentId);
      && st.nextCommentId == id + 1
      && st.comments == old(st.comments)[id := Comment(id, Get(req, "content").value, FindByUsername(old(st.users), current).value.id, taskId)]
  {
    if taskId !in st.tasks {
      return Fail(TaskNotFound);
    }
    var content := Get(req, "content");
    if content.None? {
      return Fail(NullReference);
    }
    if |content.value| == 0 || |content.value| > MaxCommentLength {
      return Fail(InvalidCommentLength);
    }
    var author := FindByUsername(st.users, current);
    if author.None? {
      return Fail(NullReference);
    }
    var id := st.nextCommentId;
    st.comments := st.comments[id := Comment(id, content.value, author.value.id, taskId)];
    st.nextCommentId := id + 1;
    r := Pass;
  }

  /** getCommentsByTask: an unknown task is an error; otherwise exactly the comments on that task, in store order. */
  function GetCommentsByTask(tasks: map<TaskId, Task>, comments: map<CommentId, Comment>, bound: nat, taskId: TaskId): (r: Result<seq<Comment>, Error>)
    requires KeysBelow(comments, bound)
    ensures r.Failure? <==> taskId !in tasks
    ensures r.Failure? ==> r.error == TaskNotFound
    ensures r.Success? ==> forall c :: c in r.value <==> c in comments.Values && c.task == taskId
  {
    if taskId !in tasks then Failure(TaskNotFound)
    else
      QueryExact(comments, bound, (c: Comment) => c.task == taskId);
      Success(Query(comments, bound, (c: Comment) => c.task == taskId))
  }

  /** The comments of a task come in ascending id order when every comment carries its key. */
  lemma CommentsInStoreOrder(tasks: map<TaskId, Task>, comments: map<CommentId, Comment>, bound: nat, taskId: TaskId)
    requires KeysBelow(comments, bound) && forall k :: k in comments ==> comments[k].id == k
    ensures var r := GetCommentsByTask(tasks, comments, bound, taskId);
      r.Success? ==> forall i, j :: 0 <= i < j < |r.value| ==> r.value[i].id < r.value[j].id
  {
    QueryInStoreOrder(comments, bound, (c: Comment) => c.task == taskId, (c: Comment) => c.id);
  }

  /** deleteComment: only the comment's author may delete it; on success exactly that comment is gone. */
  method DeleteComment(st: Store, commentId: CommentId, current: string) returns (r: Outcome<Error>)
    requires st.Valid()
    modifies st
    ensures st.Valid()
    ensures st.users == old(st.users) && st.tasks == old(st.tasks)
    ensures st.nextUserId == old(st.nextUserId) && st.nextTaskId == old(st.nextTaskId) && st.nextCommentId == old(st.nextCommentId)
    ensures commentId !in old(st.comments) ==> r == Fail(CommentNotFound)
    ensures commentId in old(st.comments) && FindByUsername(old(st.users), current).None? ==> r == Fail(UserNotFound)
    ensures (commentId in old(st.comments) && FindByUsername(old(st.users), current).Some?
             && old(st.comments)[commentId].author != FindByUsername(old(st.users), current).value.id) ==> r == Fail(AccessDenied)
    ensures r.Pass? <==>
      && commentId in old(st.comments)
      && FindByUsername(old(st.users), current).Some?
      && old(st.comments)[commentId].author == FindByUsername(old(st.users), current).value.id
    ensures r.Fail? ==> r.error in {CommentNotFound, UserNotFound, AccessDenied} && st.comments == old(st.comments)
    ensures r.Pass? ==> st.comments == old(st.comments) - {commentId}
  {
    if commentId !in st.comments {
      return Fail(CommentNotFound);
    }
    var comment := st.comments[commentId];
    var me := FindByUsername(st.users, current);
    if me.None? {
      return Fail(UserNotFound);
    }
    if comment.author != me.value.id {
      return Fail(AccessDenied);
    }
    st.comments := st.comments - {commentId};
    r := Pass;
  }
}
