/** One browser session of the board (the `App` component of
    frontend/src/App.jsx): its React state, the socket listeners that patch it,
    and the form handlers that emit intents. */
module App {
  import opened Tasks
  import opened Reconcile
  import Board

  class Session {
    var tasks: seq<Task>
    var title: string
    var priority: string
    var category: string
    var loading: bool
    /** False once a listener has thrown: React has unmounted the tree and the
        effect cleanup has removed every socket listener. */
    var mounted: bool

    /** The state the listeners read and write. */
    function State(): Replica
      reads this
    {
      Replica(tasks, loading, mounted)
    }

    /** The form's inputs: title, priority and category. No socket listener
        touches them. */
    function Form(): (string, string, string)
      reads this
    {
      (title, priority, category)
    }

    /** The initial state of the component: no tasks, an empty title, the
        default priority and category, and the loading screen. */
    constructor ()
      ensures tasks == [] && title == "" && priority == "Medium" && category == "Feature"
      ensures loading && mounted
    {
      tasks := [];
      title := "";
      priority := "Medium";
      category := "Feature";
      loading := true;
      mounted := true;
    }

    // -------------------------------------------------------------------------
    // Socket listeners

    /** "sync:tasks": take the snapshot as the whole list and leave the loading screen. */
    method OnSync(data: seq<Task>)
      modifies this`tasks, this`loading
      ensures tasks == data && !loading
    {
      tasks := data;
      loading := false;
    }

    /** "task:create": append the record, without looking for its id. */
    method OnCreate(t: Task)
      modifies this`tasks
      ensures tasks == old(tasks) + [t]
    {
      tasks := tasks + [t];
    }

    /** "task:update": replace every record with the payload's id. A `null`
        payload throws as soon as the list is non-empty, which unmounts the tree. */
    method OnUpdate(payload: Option<Task>)
      modifies this`tasks, this`mounted
      ensures payload.Some? ==> tasks == ReplaceById(old(tasks), payload.value) && mounted == old(mounted)
      ensures payload.None? ==> tasks == old(tasks)
      ensures payload.None? ==> mounted == (old(mounted) && old(tasks) == [])
    {
      if payload.Some? {
        tasks := ReplaceById(tasks, payload.value);
      } else if tasks != [] {
        mounted := false;
      }
    }

    /** "task:delete": keep the records whose id differs. */
    method OnDelete(id: Id)
      modifies this`tasks
      ensures tasks == RemoveById(old(tasks), id)
    {
      tasks := RemoveById(tasks, id);
    }

    /** The socket reports "disconnect": show the loading screen again; the
        list stays as it is. */
    method OnDisconnect()
      modifies this`loading
      ensures State() == Disconnected(old(State()))
    {
      if mounted {
        loading := true;
      }
    }

    /** A message from the hub reaches this socket and is dispatched to the
        listener registered for its name, if the tree is still mounted. */
    method Receive(m: Message)
      modifies this`tasks, this`loading, this`mounted
      ensures State() == Deliver(old(State()), m)
    {
      if !mounted {
        return;
      }
      match m
      case SyncTasks(data) => OnSync(data);
      case TaskCreated(t) => OnCreate(t);
      case TaskUpdated(payload) => OnUpdate(payload);
      case TaskDeleted(id) => OnDelete(id);
    }

    // -------------------------------------------------------------------------
    // Form and buttons

    /** The title input's onChange. */
    method SetTitle(value: string)
      modifies this`title
      ensures title == value
    {
      title := value;
    }

    /** The priority select's onChange. */
    method SetPriority(value: string)
      modifies this`priority
      ensures priority == value
    {
      priority := value;
    }

    /** The category select's onChange. */
    method SetCategory(value: string)
      modifies this`category
      ensures category == value
    {
      category := value;
    }

    /** `createTask`: emit a create intent unless the title is blank, and clear
        the title after emitting. */
    method CreateTask() returns (sent: Option<Intent>)
      modifies this`title
      ensures sent == Board.CreateIntent(old(title), priority, category)
      ensures sent.None? <==> Board.IsBlank(old(title))
      ensures title == if sent.Some? then "" else old(title)
    {
      sent := Board.CreateIntent(title, priority, category);
      if sent.Some? {
        title := "";
      }
    }
  }
}
