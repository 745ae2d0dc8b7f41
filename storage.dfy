/**
 * The abstract in-memory store that replaces the three JPA repositories:
 * id-keyed maps of users, tasks and comments, with the store assigning ids
 * in increasing order as an identity column does. "Store order" is
 * ascending id order.
 */
module Storage {
  import opened Wrappers
  import opened Domain

  /** No two stored users share a username (the unique column of the users table). */
  ghost predicate UniqueUsernames(users: map<UserId, User>) {
    forall a, b :: a in users && b in users && users[a].username == users[b].username ==> a == b
  }

  /** Every key of m is below the next id the store hands out. */
  ghost predicate KeysBelow<T>(m: map<nat, T>, bound: nat) {
    forall k :: k in m ==> k < bound
  }

  /** Task references resolve: author and assignee are stored users. */
  ghost predicate TaskRefsResolve(t: Task, users: map<UserId, User>) {
    t.author in users && (t.assignee.Some? ==> t.assignee.value in users)
  }

  class Store {
    var users: map<UserId, User>
    var tasks: map<TaskId, Task>
    var comments: map<CommentId, Comment>
    var nextUserId: nat
    var nextTaskId: nat
    var nextCommentId: nat

    /** The store's invariant: each record sits under its own id, ids are below the counters, usernames are unique and references resolve. */
    ghost predicate Valid()
      reads this
    {
      && KeysBelow(users, nextUserId)
      && KeysBelow(tasks, nextTaskId)
      && KeysBelow(comments, nextCommentId)
      && (forall id :: id in users ==> users[id].id == id)
      && (forall id :: id in tasks ==> tasks[id].id == id && TaskRefsResolve(tasks[id], users))
      && (forall id :: id in comments ==> comments[id].id == id && comments[id].author in users)
      && UniqueUsernames(users)
    }

    /** An empty store; identity columns start at 1. */
    constructor ()
      ensures Valid()
      ensures users == map[] && tasks == map[] && comments == map[]
      ensures nextUserId == 1 && nextTaskId == 1 && nextCommentId == 1
    {
      users, tasks, comments := map[], map[], map[];
      nextUserId, nextTaskId, nextCommentId := 1, 1, 1;
    }
  }

  /** The keys of m below bound, in ascending order. */
  function IdsBelow<T>(m: map<nat, T>, bound: nat): (r: seq<nat>)
    ensures forall i :: 0 <= i < |r| ==> r[i] in m && r[i] < bound
    ensures forall i, j :: 0 <= i < j < |r| ==> r[i] < r[j]
    ensures forall k :: k in m && k < bound ==> k in r
  {
    if bound == 0 then []
    else IdsBelow(m, bound - 1) + (if bound - 1 in m then [bound - 1] else [])
  }

  /** The ids among ids whose record satisfies p, in the same order. */
  function SelectIds<T>(m: map<nat, T>, ids: seq<nat>, p: T -> bool): (r: seq<nat>)
    requires forall i :: 0 <= i < |ids| ==> ids[i] in m
    ensures forall i :: 0 <= i < |r| ==> r[i] in ids && p(m[r[i]])
    ensures forall i :: 0 <= i < |ids| && p(m[ids[i]]) ==> ids[i] in r
    ensures (forall i, j :: 0 <= i < j < |ids| ==> ids[i] < ids[j]) ==>
              forall i, j :: 0 <= i < j < |r| ==> r[i] < r[j]
  {
    if ids == [] then []
    else
      var rest := SelectIds(m, ids[1..], p);
      assert forall i :: 0 <= i < |rest| ==> rest[i] in ids;
      if p(m[ids[0]]) then [ids[0]] + rest else rest
  }

  /** The records stored under ids, in the order of ids. */
  function Lookup<T>(m: map<nat, T>, ids: seq<nat>): (r: seq<T>)
    requires forall i :: 0 <= i < |ids| ==> ids[i] in m
    ensures |r| == |ids| && forall i :: 0 <= i < |ids| ==> r[i] == m[ids[i]]
  {
    seq(|ids|, i requires 0 <= i < |ids| => m[ids[i]])
  }

  /** The records of m below bound that satisfy p, in store order: a repository finder. */
  function Query<T>(m: map<nat, T>, bound: nat, p: T -> bool): seq<T> {
    Lookup(m, SelectIds(m, IdsBelow(m, bound), p))
  }

  /** A finder returns exactly the stored records that satisfy its condition. */
  lemma {:induction false} QueryExact<T>(m: map<nat, T>, bound: nat, p: T -> bool)
    requires KeysBelow(m, bound)
    ensures forall x :: x in Query(m, bound, p) <==> x in m.Values && p(x)
  {
    var ids := IdsBelow(m, bound);
    var sel := SelectIds(m, ids, p);
    var r := Query(m, bound, p);
    forall x | x in r ensures x in m.Values && p(x) {
      var i :| 0 <= i < |r| && r[i] == x;
      assert m[sel[i]] == x;
    }
    forall x | x in m.Values && p(x) ensures x in r {
      var k :| k in m && m[k] == x;
      assert k in ids;
      assert k in sel;
      var j :| 0 <= j < |sel| && sel[j] == k;
      assert r[j] == x;
    }
  }

  /** The records a finder returns come in strictly ascending id order when every record carries its key. */
  lemma {:induction false} QueryInStoreOrder<T>(m: map<nat, T>, bound: nat, p: T -> bool, key: T -> nat)
    requires forall k :: k in m ==> key(m[k]) == k
    ensures var r := Query(m, bound, p);
      forall i, j :: 0 <= i < j < |r| ==> key(r[i]) < key(r[j])
  {
    var sel := SelectIds(m, IdsBelow(m, bound), p);
    var r := Query(m, bound, p);
    forall i, j | 0 <= i < j < |r| ensures key(r[i]) < key(r[j]) {
      assert key(r[i]) == sel[i] && key(r[j]) == sel[j];
    }
  }

  /** Page number page of size records: the slice [page * size, (page + 1) * size) of s, cut at the end of s. */
  function Page<T>(s: seq<T>, page: nat, size: nat): (r: seq<T>)
    ensures |r| == if page * size < |s| then (if |s| - page * size < size then |s| - page * size else size) else 0
    ensures forall i :: 0 <= i < |r| ==> page * size + i < |s| && r[i] == s[page * size + i]
  {
    var lo := if page * size < |s| then page * size else |s|;
    var hi := if lo + size < |s| then lo + size else |s|;
    s[lo..hi]
  }

  /** A page holds only elements of the sequence it is cut from. */
  lemma PageMembers<T>(s: seq<T>, page: nat, size: nat)
    ensures forall x :: x in Page(s, page, size) ==> x in s
  {
    var r := Page(s, page, size);
    forall x | x in r ensures x in s {
      var i :| 0 <= i < |r| && r[i] == x;
    }
  }

  /** A page of a sequence in ascending key order is in ascending key order. */
  lemma PageKeepsOrder<T>(s: seq<T>, page: nat, size: nat, key: T -> nat)
    requires forall i, j :: 0 <= i < j < |s| ==> key(s[i]) < key(s[j])
    ensures var r := Page(s, page, size);
      forall i, j :: 0 <= i < j < |r| ==> key(r[i]) < key(r[j])
  {
    var r := Page(s, page, size);
    forall i, j | 0 <= i < j < |r| ensures key(r[i]) < key(r[j]) {
      assert r[i] == s[page * size + i] && r[j] == s[page * size + j];
    }
  }
}
