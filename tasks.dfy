/** The task record of the board and the messages that carry it between the
    browser sessions and the hub (backend/models/Task.js and the socket events
    of backend/server.js and frontend/src/App.jsx). */
module Tasks {

  datatype Option<+T> = None | Some(value: T)

  /** The store-assigned `_id`. The store's ids are opaque; the model only ever
      compares them for equality and asks the store for one it has not used. */
  type Id = nat

  /** A stored task: the four string fields of the schema plus the `_id`. */
  datatype Task = Task(id: Id, title: string, column: string, priority: string, category: string)

  /** The fields a create intent carries: a task before the store gives it an id. */
  datatype Draft = Draft(title: string, column: string, priority: string, category: string)
  {
    /** The record the store keeps for this draft once it has chosen `id`. */
    function WithId(id: Id): (t: Task)
      ensures t.id == id
      ensures Draft(t.title, t.column, t.priority, t.category) == this
    {
      Task(id, title, column, priority, category)
    }
  }

  /** What a session emits towards the hub. */
  datatype Intent =
    | CreateTask(draft: Draft)   // "task:create" from the client
    | UpdateTask(task: Task)     // "task:update" from the client, a whole record
    | DeleteTask(id: Id)         // "task:delete" from the client, the bare id

  /** What the hub sends to sessions. An update carries whatever the store
      returned, which is `null` (None) when the id was not found. */
  datatype Message =
    | SyncTasks(tasks: seq<Task>)       // "sync:tasks", to the connecting socket only
    | TaskCreated(task: Task)           // "task:create", to every socket
    | TaskUpdated(payload: Option<Task>) // "task:update", to every socket
    | TaskDeleted(id: Id)               // "task:delete", to every socket

  /** Some record of `tasks` carries `id`. */
  predicate HasId(tasks: seq<Task>, id: Id)
  {
    exists i :: 0 <= i < |tasks| && tasks[i].id == id
  }

  /** No two records of `tasks` share an id. */
  predicate UniqueIds(tasks: seq<Task>)
  {
    forall i, j :: 0 <= i < j < |tasks| ==> tasks[i].id != tasks[j].id
  }

  /** Every id in `tasks` lies below `next`, so `next` and above are unused. */
  predicate IdsBelow(tasks: seq<Task>, next: Id)
  {
    forall i :: 0 <= i < |tasks| ==> tasks[i].id < next
  }
}
