/** How a browser session patches its copy of the task list when a message from
    the hub arrives (the socket listeners of frontend/src/App.jsx:16-36). Each
    listener computes the new list as one list expression; this module gives
    those expressions and what they guarantee. */
module Reconcile {
  import opened Tasks

  /** `prev.map(t => t._id === task._id ? task : t)`: every record whose id
      equals the payload's becomes the payload; every other record stays. */
  function ReplaceById(tasks: seq<Task>, t: Task): (r: seq<Task>)
    ensures |r| == |tasks|
    ensures forall i :: 0 <= i < |tasks| && tasks[i].id == t.id ==> r[i] == t
    ensures forall i :: 0 <= i < |tasks| && tasks[i].id != t.id ==> r[i] == tasks[i]
  {
    if tasks == [] then []
    else [if tasks[0].id == t.id then t else tasks[0]] + ReplaceById(tasks[1..], t)
  }

  /** `prev.filter(t => t._id !== id)`: the records that do not carry `id`, in order. */
  function RemoveById(tasks: seq<Task>, id: Id): (r: seq<Task>)
    ensures forall k :: 0 <= k < |r| ==> r[k].id != id
    ensures |r| + CountId(tasks, id) == |tasks|
  {
    if tasks == [] then []
    else (if tasks[0].id == id then [] else [tasks[0]]) + RemoveById(tasks[1..], id)
  }

  /** The filter keeps exactly the records that do not carry `id`. */
  lemma {:induction false} RemoveByIdMembers(tasks: seq<Task>, id: Id)
    ensures forall t :: t in RemoveById(tasks, id) <==> t in tasks && t.id != id
  {
    if tasks != [] {
      RemoveByIdMembers(tasks[1..], id);
      assert tasks == [tasks[0]] + tasks[1..];
    }
  }

  /** How many records of `tasks` carry `id`. */
  function CountId(tasks: seq<Task>, id: Id): nat
  {
    if tasks == [] then 0
    else (if tasks[0].id == id then 1 else 0) + CountId(tasks[1..], id)
  }

  /** `a` can be obtained from `b` by deleting elements, keeping the order of the rest. */
  predicate IsSubsequence(a: seq<Task>, b: seq<Task>)
    decreases |b|
  {
    if a == [] then true
    else if b == [] then false
    else (a[0] == b[0] && IsSubsequence(a[1..], b[1..])) || IsSubsequence(a, b[1..])
  }

  /** The list a listener leaves behind, or None when the listener throws.
      The update listener reads `task._id` inside the map callback, so a `null`
      payload throws a TypeError as soon as the list has one element; on an
      empty list the callback never runs. */
  function Apply(tasks: seq<Task>, m: Message): (r: Option<seq<Task>>)
    ensures r.None? <==> m.TaskUpdated? && m.payload.None? && tasks != []
  {
    match m
    case SyncTasks(data) => Some(data)
    case TaskCreated(t) => Some(tasks + [t])
    case TaskUpdated(payload) =>
      if payload.Some? then Some(ReplaceById(tasks, payload.value))
      else if tasks == [] then Some(tasks)
      else None
    case TaskDeleted(id) => Some(RemoveById(tasks, id))
  }

  /** The part of a session's state that the listeners touch: the list, the
      `loading` flag, and whether the React tree is still mounted. An error
      thrown from a state updater that no error boundary catches unmounts the
      whole tree, and the effect's cleanup `socket.off()` then removes every
      listener, so an unmounted session ignores all further messages. */
  datatype Replica = Replica(tasks: seq<Task>, loading: bool, mounted: bool)

  /** The state of a session after the message `m` reaches it. */
  function Deliver(r: Replica, m: Message): (r': Replica)
    ensures r'.mounted <==> r.mounted && !(m.TaskUpdated? && m.payload.None? && r.tasks != [])
    ensures r'.mounted ==> r'.tasks == ApplyTolerant(r.tasks, m)
    ensures !r'.mounted ==> r'.tasks == r.tasks
    ensures r'.loading == (r.loading && !(r'.mounted && m.SyncTasks?))
  {
    if !r.mounted then r
    else match Apply(r.tasks, m)
      case None => r.(mounted := false)
      case Some(ts) => Replica(ts, if m.SyncTasks? then false else r.loading, true)
  }

  /** The state of a session after its socket reports `disconnect`. */
  function Disconnected(r: Replica): (r': Replica)
    ensures r'.tasks == r.tasks && r'.mounted == r.mounted
    ensures r'.loading == (r.loading || r.mounted)
  {
    if r.mounted then r.(loading := true) else r
  }

  // ---------------------------------------------------------------------------
  // Snapshot and create

  /** A snapshot replaces the list with exactly what was received, whatever the
      session held before, and ends loading. */
  lemma SyncReplaces(r: Replica, data: seq<Task>)
    requires r.mounted
    ensures Deliver(r, SyncTasks(data)) == Replica(data, false, true)
  {
  }

  /** A create appends exactly one record at the end; the old list is a prefix. */
  lemma CreateAppends(tasks: seq<Task>, t: Task)
    ensures Apply(tasks, TaskCreated(t)).Some?
    ensures var r := Apply(tasks, TaskCreated(t)).value;
            |r| == |tasks| + 1 && r[..|tasks|] == tasks && r[|tasks|] == t
  {
  }

  /** Appending one record adds one occurrence of its id. */
  lemma {:induction false} CountIdAppend(tasks: seq<Task>, t: Task, id: Id)
    ensures CountId(tasks + [t], id) == CountId(tasks, id) + (if t.id == id then 1 else 0)
  {
    if tasks != [] {
      assert (tasks + [t])[1..] == tasks[1..] + [t];
      CountIdAppend(tasks[1..], t, id);
    }
  }

  /** There is no check against ids already present: the same create delivered
      twice leaves two records with that id. */
  lemma DuplicateCreate(tasks: seq<Task>, t: Task)
    ensures var once := Apply(tasks, TaskCreated(t)).value;
            var twice := Apply(once, TaskCreated(t)).value;
            CountId(twice, t.id) == CountId(tasks, t.id) + 2
  {
    CountIdAppend(tasks, t, t.id);
    CountIdAppend(tasks + [t], t, t.id);
  }

  // ---------------------------------------------------------------------------
  // Update

  /** An update whose id matches nothing leaves the list as it was. */
  lemma ReplaceByIdNoMatch(tasks: seq<Task>, t: Task)
    requires !HasId(tasks, t.id)
    ensures ReplaceById(tasks, t) == tasks
  {
  }

  /** Delivering the same update twice is the same as delivering it once. */
  lemma ReplaceByIdIdempotent(tasks: seq<Task>, t: Task)
    ensures ReplaceById(ReplaceById(tasks, t), t) == ReplaceById(tasks, t)
  {
  }

  /** An update keeps every record's id in its place, so ids stay unique. */
  lemma ReplaceByIdKeepsIds(tasks: seq<Task>, t: Task)
    ensures forall i :: 0 <= i < |tasks| ==> ReplaceById(tasks, t)[i].id == tasks[i].id
    ensures UniqueIds(tasks) ==> UniqueIds(ReplaceById(tasks, t))
  {
  }

  // ---------------------------------------------------------------------------
  // Delete

  /** No record with the id survives a delete. */
  lemma RemoveByIdRemoves(tasks: seq<Task>, id: Id)
    ensures !HasId(RemoveById(tasks, id), id)
  {
  }

  /** A delete whose id matches nothing leaves the list as it was. */
  lemma {:induction false} RemoveByIdNoMatch(tasks: seq<Task>, id: Id)
    requires !HasId(tasks, id)
    ensures RemoveById(tasks, id) == tasks
  {
    if tasks != [] {
      RemoveByIdNoMatch(tasks[1..], id);
    }
  }

  /** Delivering the same delete twice is the same as delivering it once. */
  lemma RemoveByIdIdempotent(tasks: seq<Task>, id: Id)
    ensures RemoveById(RemoveById(tasks, id), id) == RemoveById(tasks, id)
  {
    RemoveByIdRemoves(tasks, id);
    RemoveByIdNoMatch(RemoveById(tasks, id), id);
  }

  /** A delete keeps the surviving records in their original order. Together
      with the length in RemoveById's contract and RemoveByIdRemoves, this pins
      the result down: an ordered selection of exactly the non-matching records. */
  lemma {:induction false} RemoveByIdSubsequence(tasks: seq<Task>, id: Id)
    ensures IsSubsequence(RemoveById(tasks, id), tasks)
  {
    if tasks != [] {
      RemoveByIdSubsequence(tasks[1..], id);
      var rest := RemoveById(tasks[1..], id);
      if tasks[0].id == id {
        assert RemoveById(tasks, id) == rest;
      } else {
        assert RemoveById(tasks, id) == [tasks[0]] + rest;
        assert ([tasks[0]] + rest)[1..] == rest;
      }
    }
  }

  /** A delete keeps ids unique. */
  lemma RemoveByIdKeepsUnique(tasks: seq<Task>, id: Id)
    requires UniqueIds(tasks)
    ensures UniqueIds(RemoveById(tasks, id))
  {
    RemoveByIdSubsequence(tasks, id);
    SubsequenceKeepsUnique(RemoveById(tasks, id), tasks);
  }

  /** A subsequence of a list with unique ids has unique ids. */
  lemma {:induction false} SubsequenceKeepsUnique(a: seq<Task>, b: seq<Task>)
    requires IsSubsequence(a, b) && UniqueIds(b)
    ensures UniqueIds(a)
    decreases |b|
  {
    if a != [] && b != [] {
      if a[0] == b[0] && IsSubsequence(a[1..], b[1..]) {
        SubsequenceKeepsUnique(a[1..], b[1..]);
        SubsequenceMembers(a[1..], b[1..]);
        forall j | 0 < j < |a| ensures a[0].id != a[j].id {
          assert a[1..][j - 1] in b[1..];
          var k :| 0 <= k < |b[1..]| && b[1..][k] == a[j];
          assert b[k + 1] == a[j];
        }
      } else {
        SubsequenceKeepsUnique(a, b[1..]);
      }
    }
  }

  /** Every element of a subsequence is an element of the whole. */
  lemma {:induction false} SubsequenceMembers(a: seq<Task>, b: seq<Task>)
    requires IsSubsequence(a, b)
    ensures forall t :: t in a ==> t in b
    decreases |b|
  {
    if a != [] && b != [] {
      if a[0] == b[0] && IsSubsequence(a[1..], b[1..]) {
        SubsequenceMembers(a[1..], b[1..]);
        assert a == [a[0]] + a[1..];
      } else {
        SubsequenceMembers(a, b[1..]);
      }
    }
  }

  /** The list after the messages `msgs` arrive in order, or None once a
      listener throws. */
  function Replay(tasks: seq<Task>, msgs: seq<Message>): Option<seq<Task>>
    decreases |msgs|
  {
    if msgs == [] then Some(tasks)
    else match Apply(tasks, msgs[0])
      case None => None
      case Some(next) => Replay(next, msgs[1..])
  }

  // ---------------------------------------------------------------------------
  // The null update payload

  /** The listener as written throws on a `null` update when the list is not
      empty, and the session unmounts. */
  lemma NullUpdateThrows(r: Replica)
    requires r.mounted && r.tasks != []
    ensures Apply(r.tasks, TaskUpdated(None)).None?
    ensures !Deliver(r, TaskUpdated(None)).mounted
  {
  }

  /** The listener as evidently intended: a `null` update matches no record
      and is a no-op; every other message is handled as written. */
  function ApplyTolerant(tasks: seq<Task>, m: Message): (r: seq<Task>)
    ensures m.TaskUpdated? && m.payload.None? ==> r == tasks
    ensures Apply(tasks, m).Some? ==> r == Apply(tasks, m).value
  {
    match m
    case TaskUpdated(None) => tasks
    case _ => Apply(tasks, m).value
  }

  /** Replay with the tolerant listener. */
  function ReplayTolerant(tasks: seq<Task>, msgs: seq<Message>): seq<Task>
    decreases |msgs|
  {
    if msgs == [] then tasks else ReplayTolerant(ApplyTolerant(tasks, msgs[0]), msgs[1..])
  }
}
