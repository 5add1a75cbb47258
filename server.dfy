/** The synchronisation hub (backend/server.js): it owns the task collection,
    sends a snapshot to each socket that connects, and for every intent changes
    the collection and broadcasts the outcome to every connected socket,
    the sender included. */
module Server {
  import opened Tasks
  import opened Reconcile
  import Store
  import Board
  import App

  /** The ids of `store` are unique and all below `next`, the id the next
      create will receive. */
  predicate WellFormed(store: seq<Task>, next: Id)
  {
    UniqueIds(store) && IdsBelow(store, next)
  }

  /** The collection after an intent, the next unused id, and what is broadcast. */
  datatype Outcome = Outcome(store: seq<Task>, nextId: Id, broadcast: Message)

  /** One intent handled by the hub, as the three intent handlers do it. */
  function Step(store: seq<Task>, nextId: Id, intent: Intent): (o: Outcome)
    ensures o.nextId == if intent.CreateTask? then nextId + 1 else nextId
    ensures intent.CreateTask? <==> o.broadcast.TaskCreated?
    ensures intent.UpdateTask? <==> o.broadcast.TaskUpdated?
    ensures intent.DeleteTask? <==> o.broadcast.TaskDeleted?
  {
    match intent
    case CreateTask(data) =>
      Outcome(Store.Create(store, data, nextId), nextId + 1, TaskCreated(data.WithId(nextId)))
    case UpdateTask(data) =>
      var u := Store.FindByIdAndUpdate(store, data);
      Outcome(u.store, nextId, TaskUpdated(u.record))
    case DeleteTask(id) =>
      Outcome(Store.FindByIdAndDelete(store, id), nextId, TaskDeleted(id))
  }

  /** The collection and next id after a series of intents, with every broadcast in order. */
  datatype Trace = Trace(store: seq<Task>, nextId: Id, broadcasts: seq<Message>)

  /** The intents handled one after another, from the first. */
  function Run(store: seq<Task>, nextId: Id, intents: seq<Intent>): (t: Trace)
    ensures |t.broadcasts| == |intents|
    decreases |intents|
  {
    if intents == [] then Trace(store, nextId, [])
    else
      var o := Step(store, nextId, intents[0]);
      var rest := Run(o.store, o.nextId, intents[1..]);
      Trace(rest.store, rest.nextId, [o.broadcast] + rest.broadcasts)
  }

  /** An update of an id the collection does not hold. */
  predicate UpdatesMissing(store: seq<Task>, intent: Intent)
  {
    intent.UpdateTask? && !HasId(store, intent.task.id)
  }

  // ---------------------------------------------------------------------------
  // What each handler does to the collection and what it broadcasts

  /** "task:create": one record is added at the end, carrying the submitted
      fields and an id no record holds; that record is broadcast. */
  lemma CreateStep(store: seq<Task>, nextId: Id, data: Draft)
    requires WellFormed(store, nextId)
    ensures var o := Step(store, nextId, CreateTask(data));
            o.broadcast.TaskCreated? &&
            var t := o.broadcast.task;
            o.store == store + [t] && !HasId(store, t.id) &&
            Draft(t.title, t.column, t.priority, t.category) == data
  {
  }

  /** "task:update" of a held id: that record takes the submitted fields and
      the post-update record is broadcast; of a missing id: nothing changes
      and `null` is broadcast. */
  lemma UpdateStep(store: seq<Task>, nextId: Id, data: Task)
    ensures var o := Step(store, nextId, UpdateTask(data));
            o.nextId == nextId &&
            (HasId(store, data.id) ==>
               o.broadcast == TaskUpdated(Some(data)) && |o.store| == |store| &&
               exists i :: 0 <= i < |store| && store[i].id == data.id && o.store == store[i := data]) &&
            (!HasId(store, data.id) ==> o.broadcast == TaskUpdated(None) && o.store == store)
  {
  }

  /** "task:delete": the record with the id is removed if there is one, and the
      bare id is broadcast either way. */
  lemma DeleteStep(store: seq<Task>, nextId: Id, id: Id)
    requires WellFormed(store, nextId)
    ensures var o := Step(store, nextId, DeleteTask(id));
            o.broadcast == TaskDeleted(id) && !HasId(o.store, id) &&
            |o.store| == (if HasId(store, id) then |store| - 1 else |store|) &&
            (!HasId(store, id) ==> o.store == store) &&
            (HasId(store, id) ==>
               exists i :: 0 <= i < |store| && store[i].id == id && o.store == store[..i] + store[i + 1..]) &&
            o.store == RemoveById(store, id)
  {
    Store.DeleteKeepsIds(store, id, nextId);
    Store.DeleteIsRemove(store, id);
  }

  // ---------------------------------------------------------------------------
  // Ids stay unique

  /** Every handler keeps the ids unique and below the next one to be assigned. */
  lemma StepWellFormed(store: seq<Task>, nextId: Id, intent: Intent)
    requires WellFormed(store, nextId)
    ensures var o := Step(store, nextId, intent);
            WellFormed(o.store, o.nextId) && o.nextId >= nextId
  {
    match intent
    case CreateTask(data) => Store.CreateKeepsIds(store, data, nextId);
    case UpdateTask(data) => Store.UpdateKeepsIds(store, data, nextId);
    case DeleteTask(id) => Store.DeleteKeepsIds(store, id, nextId);
  }

  /** Ids stay unique across any sequence of creates, updates and deletes. */
  lemma {:induction false} RunWellFormed(store: seq<Task>, nextId: Id, intents: seq<Intent>)
    requires WellFormed(store, nextId)
    ensures var t := Run(store, nextId, intents);
            WellFormed(t.store, t.nextId)
    decreases |intents|
  {
    if intents != [] {
      StepWellFormed(store, nextId, intents[0]);
      var o := Step(store, nextId, intents[0]);
      RunWellFormed(o.store, o.nextId, intents[1..]);
    }
  }

  // ---------------------------------------------------------------------------
  // Replicas follow the store

  /** The main consistency property: a session whose list equals the
      collection still equals it after the broadcast of a create, an update of
      a held id, or a delete. */
  lemma StepKeepsReplica(store: seq<Task>, nextId: Id, intent: Intent)
    requires WellFormed(store, nextId) && !UpdatesMissing(store, intent)
    ensures var o := Step(store, nextId, intent);
            Apply(store, o.broadcast) == Some(o.store)
  {
    match intent
    case CreateTask(data) =>
    case UpdateTask(data) => Store.UpdateIsReplace(store, data);
    case DeleteTask(id) => Store.DeleteIsRemove(store, id);
  }

  /** An update of a missing id leaves the collection alone, but the `null` it
      broadcasts makes the listener throw in every session with a non-empty list. */
  lemma MissingUpdateThrows(store: seq<Task>, nextId: Id, intent: Intent)
    requires UpdatesMissing(store, intent) && store != []
    ensures var o := Step(store, nextId, intent);
            o.store == store && Apply(store, o.broadcast).None?
  {
  }

  /** With the tolerant listener, every intent, the update of a missing id
      included, keeps a replica equal to the collection. */
  lemma StepKeepsReplicaTolerant(store: seq<Task>, nextId: Id, intent: Intent)
    requires WellFormed(store, nextId)
    ensures var o := Step(store, nextId, intent);
            ApplyTolerant(store, o.broadcast) == o.store
  {
    if !UpdatesMissing(store, intent) {
      StepKeepsReplica(store, nextId, intent);
    }
  }

  /** A session that starts equal to the collection and receives every
      broadcast of a series of intents ends equal to it, as long as no broadcast
      is a `null` update. */
  lemma {:induction false} RunKeepsReplica(store: seq<Task>, nextId: Id, intents: seq<Intent>)
    requires WellFormed(store, nextId)
    requires forall k :: 0 <= k < |intents| ==>
               Run(store, nextId, intents).broadcasts[k] != TaskUpdated(None)
    ensures var t := Run(store, nextId, intents);
            Replay(store, t.broadcasts) == Some(t.store)
    decreases |intents|
  {
    if intents != [] {
      var o := Step(store, nextId, intents[0]);
      var t := Run(store, nextId, intents);
      var rest := Run(o.store, o.nextId, intents[1..]);
      assert t.broadcasts == [o.broadcast] + rest.broadcasts;
      assert t.broadcasts[0] == o.broadcast;
      StepKeepsReplica(store, nextId, intents[0]);
      StepWellFormed(store, nextId, intents[0]);
      forall k | 0 <= k < |intents[1..]|
        ensures rest.broadcasts[k] != TaskUpdated(None)
      {
        assert rest.broadcasts[k] == t.broadcasts[k + 1];
      }
      RunKeepsReplica(o.store, o.nextId, intents[1..]);
      assert t.broadcasts[1..] == rest.broadcasts;
    }
  }

  /** With the tolerant listener the same holds for every series of intents. */
  lemma {:induction false} RunKeepsReplicaTolerant(store: seq<Task>, nextId: Id, intents: seq<Intent>)
    requires WellFormed(store, nextId)
    ensures var t := Run(store, nextId, intents);
            ReplayTolerant(store, t.broadcasts) == t.store
    decreases |intents|
  {
    if intents != [] {
      var o := Step(store, nextId, intents[0]);
      var t := Run(store, nextId, intents);
      var rest := Run(o.store, o.nextId, intents[1..]);
      assert t.broadcasts == [o.broadcast] + rest.broadcasts;
      StepKeepsReplicaTolerant(store, nextId, intents[0]);
      StepWellFormed(store, nextId, intents[0]);
      RunKeepsReplicaTolerant(o.store, o.nextId, intents[1..]);
      assert t.broadcasts[1..] == rest.broadcasts;
    }
  }

  // ---------------------------------------------------------------------------
  // Intents end to end

  /** Moving a held task: every replica that equalled the collection now shows
      the record under the target column and under no other. */
  lemma MoveLandsInColumn(store: seq<Task>, nextId: Id, task: Task, col: string)
    requires WellFormed(store, nextId) && task in store
    ensures var o := Step(store, nextId, Board.MoveIntent(task, col));
            var replica := Apply(store, o.broadcast).value;
            replica == o.store &&
            task.(column := col) in Board.ColumnView(replica, col) &&
            forall c, t :: c != col && t in Board.ColumnView(replica, c) ==> t.id != task.id
  {
    var moved := task.(column := col);
    var i :| 0 <= i < |store| && store[i] == task;
    assert HasId(store, task.id);
    StepKeepsReplica(store, nextId, Board.MoveIntent(task, col));
    var o := Step(store, nextId, Board.MoveIntent(task, col));
    Store.UpdateIsReplace(store, moved);
    assert o.store[i] == moved;
    forall c, t | c != col && t in Board.ColumnView(o.store, c)
      ensures t.id != task.id
    {
      var j :| 0 <= j < |o.store| && o.store[j] == t;
    }
  }

  /** Deleting an id: afterwards no record with it is in the collection, nor in
      any session's list, whatever that list held before. */
  lemma DeleteGoneEverywhere(store: seq<Task>, nextId: Id, id: Id, replica: seq<Task>)
    requires WellFormed(store, nextId)
    ensures var o := Step(store, nextId, Board.DeleteIntent(id));
            !HasId(o.store, id) && !HasId(Apply(replica, o.broadcast).value, id)
  {
    DeleteStep(store, nextId, id);
    RemoveByIdRemoves(replica, id);
  }

  /** A task is created from the form, moved to another column and deleted:
      each broadcast carries what the step promised, a session that started
      equal to the collection follows it through all three, and the task is
      gone at the end. */
  lemma CreateMoveDeleteScenario(store: seq<Task>, nextId: Id, title: string, priority: string,
                                 category: string, target: string)
    requires WellFormed(store, nextId) && !Board.IsBlank(title)
    ensures var create := Board.CreateIntent(title, priority, category);
            create.Some? &&
            var o1 := Step(store, nextId, create.value);
            var t := o1.broadcast.task;
            o1.broadcast.TaskCreated? && !HasId(store, t.id) &&
            t == Task(t.id, title, Board.InitialColumn, priority, category) &&
            var o2 := Step(o1.store, o1.nextId, Board.MoveIntent(t, target));
            o2.broadcast == TaskUpdated(Some(t.(column := target))) &&
            var o3 := Step(o2.store, o2.nextId, Board.DeleteIntent(t.id));
            o3.broadcast == TaskDeleted(t.id) &&
            Replay(store, [o1.broadcast, o2.broadcast, o3.broadcast]) == Some(o3.store) &&
            !HasId(o3.store, t.id)
  {
    var create := Board.CreateIntent(title, priority, category);
    var o1 := Step(store, nextId, create.value);
    var t := o1.broadcast.task;
    CreateStep(store, nextId, create.value.draft);
    StepKeepsReplica(store, nextId, create.value);
    StepWellFormed(store, nextId, create.value);
    assert o1.store[|store|] == t;
    var move := Board.MoveIntent(t, target);
    MoveLandsInColumn(o1.store, o1.nextId, t, target);
    var o2 := Step(o1.store, o1.nextId, move);
    assert o2.broadcast == TaskUpdated(Some(t.(column := target)));
    StepWellFormed(o1.store, o1.nextId, move);
    var delete := Board.DeleteIntent(t.id);
    StepKeepsReplica(o2.store, o2.nextId, delete);
    DeleteStep(o2.store, o2.nextId, t.id);
    var o3 := Step(o2.store, o2.nextId, delete);
    ReplayThree(store, o1.broadcast, o1.store, o2.broadcast, o2.store, o3.broadcast, o3.store);
  }

  /** Three messages replayed one after the other. */
  lemma ReplayThree(s0: seq<Task>, m1: Message, s1: seq<Task>, m2: Message, s2: seq<Task>,
                    m3: Message, s3: seq<Task>)
    requires Apply(s0, m1) == Some(s1) && Apply(s1, m2) == Some(s2) && Apply(s2, m3) == Some(s3)
    ensures Replay(s0, [m1, m2, m3]) == Some(s3)
  {
    assert [m1, m2, m3][1..] == [m2, m3];
    assert [m2, m3][1..] == [m3];
    assert [m3][1..] == [];
    calc {
      Replay(s0, [m1, m2, m3]);
      Replay(s1, [m2, m3]);
      Replay(s2, [m3]);
      Replay(s3, []);
    }
  }

  /** One past the largest id of `tasks`. */
  function FirstUnused(tasks: seq<Task>): (r: Id)
    ensures IdsBelow(tasks, r)
  {
    if tasks == [] then 0
    else var rest := FirstUnused(tasks[1..]);
         if tasks[0].id < rest then rest else tasks[0].id + 1
  }

  // ---------------------------------------------------------------------------
  // The hub

  class Hub {
    /** The task collection. */
    var store: seq<Task>
    /** The id the next create will receive. */
    var nextId: Id
    /** The connected sockets, each with the session at its other end. */
    var sessions: seq<App.Session>

    ghost predicate Valid()
      reads this
    {
      WellFormed(store, nextId) &&
      forall i, j :: 0 <= i < j < |sessions| ==> sessions[i] != sessions[j]
    }

    /** Every session whose tree is still mounted shows exactly the collection. */
    ghost predicate Consistent()
      reads this, sessions
    {
      forall i :: 0 <= i < |sessions| && sessions[i].mounted ==> sessions[i].tasks == store
    }

    /** The server starts over an existing collection, with no socket connected. */
    constructor (initial: seq<Task>)
      requires UniqueIds(initial)
      ensures Valid() && Consistent()
      ensures store == initial && sessions == []
    {
      store := initial;
      nextId := FirstUnused(initial);
      sessions := [];
    }

    /** `io.emit`: the message reaches every connected socket, the sender's
        included, and each session's listener handles it. */
    method EmitToAll(m: Message)
      requires forall i, j :: 0 <= i < j < |sessions| ==> sessions[i] != sessions[j]
      modifies sessions
      ensures forall i :: 0 <= i < |sessions| ==>
                sessions[i].State() == Deliver(old(sessions[i].State()), m)
      ensures forall i :: 0 <= i < |sessions| ==> sessions[i].Form() == old(sessions[i].Form())
    {
      var k := 0;
      while k < |sessions|
        invariant 0 <= k <= |sessions|
        invariant forall i :: 0 <= i < k ==>
                    sessions[i].State() == Deliver(old(sessions[i].State()), m)
        invariant forall i :: k <= i < |sessions| ==>
                    sessions[i].State() == old(sessions[i].State())
        invariant forall i :: 0 <= i < |sessions| ==> sessions[i].Form() == old(sessions[i].Form())
      {
        sessions[k].Receive(m);
        k := k + 1;
      }
    }

    /** "connection": the socket joins, and the whole collection is sent to it
        and to no other socket. */
    method Connect(s: App.Session)
      requires Valid() && s !in sessions
      modifies this, s
      ensures Valid() && sessions == old(sessions) + [s]
      ensures store == old(store) && nextId == old(nextId)
      ensures s.State() == Deliver(old(s.State()), SyncTasks(store)) && s.Form() == old(s.Form())
      ensures forall i :: 0 <= i < |old(sessions)| ==> sessions[i].State() == old(sessions[i].State())
      ensures old(Consistent()) ==> Consistent()
    {
      sessions := sessions + [s];
      s.Receive(SyncTasks(store));
    }

    /** A socket goes away: it leaves the broadcast audience and its session
        sees "disconnect". */
    method Disconnect(k: nat)
      requires Valid() && k < |sessions|
      modifies this, sessions[k]
      ensures Valid() && sessions == old(sessions[..k] + sessions[k + 1..])
      ensures store == old(store) && nextId == old(nextId)
      ensures old(sessions[k]).State() == Disconnected(old(sessions[k].State()))
      ensures old(sessions[k]).Form() == old(sessions[k].Form())
      ensures old(Consistent()) ==> Consistent()
    {
      var s := sessions[k];
      sessions := sessions[..k] + sessions[k + 1..];
      s.OnDisconnect();
    }

    /** "task:create": store the record under a new id and broadcast it. */
    method TaskCreate(data: Draft) returns (m: Message)
      requires Valid()
      modifies this, sessions
      ensures Valid() && sessions == old(sessions)
      ensures Outcome(store, nextId, m) == Step(old(store), old(nextId), CreateTask(data))
      ensures forall i :: 0 <= i < |sessions| ==>
                sessions[i].State() == Deliver(old(sessions[i].State()), m)
      ensures forall i :: 0 <= i < |sessions| ==> sessions[i].Form() == old(sessions[i].Form())
      ensures old(Consistent()) ==> Consistent()
    {
      store := Store.Create(store, data, nextId);
      m := TaskCreated(data.WithId(nextId));
      nextId := nextId + 1;
      StepKeepsReplica(old(store), old(nextId), CreateTask(data));
      StepWellFormed(old(store), old(nextId), CreateTask(data));
      EmitToAll(m);
    }

    /** "task:update": replace the record with the id and broadcast what the
        store returned, the post-update record or `null`. */
    method TaskUpdate(data: Task) returns (m: Message)
      requires Valid()
      modifies this, sessions
      ensures Valid() && sessions == old(sessions)
      ensures Outcome(store, nextId, m) == Step(old(store), old(nextId), UpdateTask(data))
      ensures forall i :: 0 <= i < |sessions| ==>
                sessions[i].State() == Deliver(old(sessions[i].State()), m)
      ensures forall i :: 0 <= i < |sessions| ==> sessions[i].Form() == old(sessions[i].Form())
      ensures old(Consistent()) ==> Consistent()
      ensures old(Consistent()) && !HasId(old(store), data.id) && old(store) != [] ==>
                forall i :: 0 <= i < |sessions| ==> !sessions[i].mounted
    {
      var u := Store.FindByIdAndUpdate(store, data);
      store := u.store;
      m := TaskUpdated(u.record);
      StepWellFormed(old(store), old(nextId), UpdateTask(data));
      if HasId(old(store), data.id) {
        StepKeepsReplica(old(store), old(nextId), UpdateTask(data));
      }
      EmitToAll(m);
    }

    /** "task:delete": remove the record with the id, if any, and broadcast the id. */
    method TaskDelete(id: Id) returns (m: Message)
      requires Valid()
      modifies this, sessions
      ensures Valid() && sessions == old(sessions)
      ensures Outcome(store, nextId, m) == Step(old(store), old(nextId), DeleteTask(id))
      ensures forall i :: 0 <= i < |sessions| ==>
                sessions[i].State() == Deliver(old(sessions[i].State()), m)
      ensures forall i :: 0 <= i < |sessions| ==> sessions[i].Form() == old(sessions[i].Form())
      ensures old(Consistent()) ==> Consistent()
    {
      store := Store.FindByIdAndDelete(store, id);
      m := TaskDeleted(id);
      StepKeepsReplica(old(store), old(nextId), DeleteTask(id));
      StepWellFormed(old(store), old(nextId), DeleteTask(id));
      EmitToAll(m);
    }
  }
}
