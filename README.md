# Real-time task board: the synchronisation protocol

A collaborative kanban board in which every browser session holds a copy of
a shared task list. A Node hub (`backend/server.js`) owns the task
collection. It sends each newly connected socket the whole collection. It
applies each create, update and delete intent to the collection and
broadcasts the outcome to every connected socket, the sender included. Each
browser session (`frontend/src/App.jsx`) patches its own list when a
broadcast arrives, shows a progress percentage and the three columns, and
emits the intents.

The Dafny model has six modules:

- `Tasks` (tasks.dfy) holds the task record of `backend/models/Task.js`, the
  draft a create intent carries, and the intent and message types.
- `Reconcile` (reconcile.dfy) holds the list expression of each socket
  listener (append, replace by id, filter by id) and their properties. It
  also gives the effect of one message on a session's state.
- `Board` (board.dfy) holds `String.prototype.trim`, the intent builders
  `createTask`, `moveTask` and `deleteTask`, the per-column filter and the
  progress percentage.
- `App` (session.dfy) holds `class Session`: the component's state as
  fields, one method per socket listener and per form handler.
- `Store` (store.dfy) states what the hub relies on from the document store.
- `Server` (server.dfy) holds the hub. `Step` gives the effect of one intent
  on the collection and its broadcast. `class Hub` keeps the collection and
  the connected sessions, and its handler methods change the collection and
  call every session's listener. The lemmas prove that replicas follow the
  collection.

The main result is `Server.StepKeepsReplica`. If a session's list equals the
collection, then after the broadcast of a create, an update of an existing
id, or a delete it still equals the new collection. `Server.Hub.TaskCreate`,
`TaskUpdate` and `TaskDelete` use it to keep `Consistent()`: every mounted
session shows exactly the collection. `Server.RunKeepsReplica` extends the
result to any series of intents whose broadcasts contain no `null` update.

Store assumptions. The model assumes that `Task.find()` returns the
collection in insertion order. MongoDB does not promise this for a query
without a sort. Under that assumption, replicas and the collection are
compared as sequences. `Task.create` stores the submitted fields under an id
that no record has had. The model takes ids as natural numbers handed out by
a counter (`nextId`). `findByIdAndUpdate(id, data, { new: true })` replaces
the record with that id by `data` and returns it, or returns `null` and
changes nothing. `findByIdAndDelete` removes the record with the id if there
is one.

An update that matches no record is evidently meant to change nothing: the
listener already does that for a record whose id is absent from the list.
The code, however, reads `task._id` on the `null` the hub broadcasts for a
missing id, which throws in every session whose list is not empty. The model
follows the code: `Reconcile.Apply` returns `None` there and the session
unmounts (see Findings).

## Model

| member | source | states |
|---|---|---|
| `Tasks.Draft.WithId` | backend/models/Task.js:3-8 | the stored record carries the chosen id and exactly the draft's four fields |
| `Reconcile.ReplaceById` | frontend/src/App.jsx:26-30 | the update map keeps the length; every element whose id equals the payload's becomes the payload and every other element is unchanged |
| `Reconcile.RemoveById` | frontend/src/App.jsx:32-34 | no surviving record carries the id, and the length drops by exactly the number of records that carry it |
| `Reconcile.RemoveByIdMembers` | frontend/src/App.jsx:32-34 | the delete filter keeps exactly the records whose id differs |
| `Reconcile.Apply` | frontend/src/App.jsx:16-35 | a listener throws exactly when the message is a `null` update and the list is non-empty |
| `Reconcile.Deliver` | frontend/src/App.jsx:16-39 | a session stays mounted exactly unless it was already unmounted or a `null` update reaches a non-empty list; while mounted, its list is what the tolerant listener computes; once unmounted, its list is frozen; `loading` is cleared only by a snapshot that a mounted session handles |
| `Reconcile.Disconnected` | frontend/src/App.jsx:36 | a disconnect sets `loading` on a mounted session and never touches the list |
| `Reconcile.SyncReplaces` | frontend/src/App.jsx:17-20 | a snapshot replaces the list with exactly the received sequence, whatever it held, and ends loading |
| `Reconcile.CreateAppends` | frontend/src/App.jsx:22-24 | a create appends exactly one record at the end and keeps the old list as a prefix |
| `Reconcile.DuplicateCreate` | frontend/src/App.jsx:22-24 | there is no duplicate check: the same create delivered twice adds two records with that id |
| `Reconcile.ReplaceByIdNoMatch` | frontend/src/App.jsx:26-30 | an update whose id matches no record leaves the list unchanged |
| `Reconcile.ReplaceByIdIdempotent` | frontend/src/App.jsx:26-30 | applying the same update twice equals applying it once |
| `Reconcile.ReplaceByIdKeepsIds` | frontend/src/App.jsx:26-30 | an update keeps every position's id, so unique ids stay unique |
| `Reconcile.RemoveByIdRemoves` | frontend/src/App.jsx:32-34 | after a delete no record carries the id |
| `Reconcile.RemoveByIdNoMatch` | frontend/src/App.jsx:32-34 | a delete of an absent id leaves the list unchanged |
| `Reconcile.RemoveByIdIdempotent` | frontend/src/App.jsx:32-34 | applying the same delete twice equals applying it once |
| `Reconcile.RemoveByIdSubsequence` | frontend/src/App.jsx:32-34 | the result of a delete is a subsequence of the old list (order kept) |
| `Reconcile.RemoveByIdKeepsUnique` | frontend/src/App.jsx:32-34 | a delete keeps ids unique |
| `Reconcile.NullUpdateThrows` | frontend/src/App.jsx:26-30 | as written, a `null` update on a non-empty list throws and unmounts the session |
| `Reconcile.ApplyTolerant` | frontend/src/App.jsx:26-30 | corrected listener: a `null` update leaves the list unchanged, and every message the written listener handles gives the same list |
| `Board.TrimEmptyIffBlank` | frontend/src/App.jsx:42 | `title.trim()` is empty exactly when every character of the title is ECMAScript whitespace |
| `Board.TrimStart` | frontend/src/App.jsx:42 | the result is a suffix of the input, the cut part is all whitespace, and the result does not start with whitespace |
| `Board.TrimEnd` | frontend/src/App.jsx:42 | the result is a prefix of the input, the cut part is all whitespace, and the result does not end with whitespace |
| `Board.TrimIsSlice` | frontend/src/App.jsx:42 | `trim()` returns a slice of the title with only whitespace cut from each end, and the slice neither starts nor ends with whitespace |
| `Board.CreateIntent` | frontend/src/App.jsx:41-52 | nothing is sent exactly when the title is blank; otherwise the draft is the title, the "Todo" column and the selected priority and category |
| `Board.MoveIntent` | frontend/src/App.jsx:54-56 | the update intent carries the same record with only `column` changed to the target |
| `Board.ColumnView` | frontend/src/App.jsx:138-139 | a column shows exactly the tasks whose `column` equals it, and no more cards than the list holds |
| `Board.ColumnViewCounts` | frontend/src/App.jsx:138-139 | the filter keeps every occurrence: a record in the column is shown as many times as the list holds it, and any other record not at all |
| `Board.ShownInOneColumn` | frontend/src/App.jsx:134-139 | a task shown under two columns means the two columns are the same |
| `Board.UnknownColumnHidden` | frontend/src/App.jsx:134-139 | a task whose column is not one of the three rendered ones is shown in none of them |
| `Board.ColumnsPartition` | frontend/src/App.jsx:134-139 | the three column views and the unplaced tasks together count every task exactly once |
| `Board.RoundedPercent` | frontend/src/App.jsx:67 | the result is at most 100 and is the integer nearest to 100·done/n, halves rounded up |
| `Board.DoneCount` | frontend/src/App.jsx:66 | the Done count is at most the number of tasks, and is zero exactly when no task sits in Done |
| `Board.Progress` | frontend/src/App.jsx:64-68 | progress lies in 0..100 and, for a non-empty list, is 100·(tasks in Done)/total rounded half up |
| `Board.ProgressAllDone` | frontend/src/App.jsx:64-68 | a non-empty list with every task in Done has progress 100 |
| `Board.ProgressNoneDone` | frontend/src/App.jsx:64-68 | a list with no task in Done, the empty list included, has progress 0 |
| `Board.ProgressExamples` | frontend/src/App.jsx:64-68 | one task in Done gives 100; one in Done and one in Todo gives 50 |
| `App.Session.constructor` | frontend/src/App.jsx:10-14 | a new session has no tasks, an empty title, priority "Medium", category "Feature", and is loading |
| `App.Session.OnSync` | frontend/src/App.jsx:17-20 | the list becomes the snapshot and loading ends |
| `App.Session.OnCreate` | frontend/src/App.jsx:22-24 | the record is appended to the old list |
| `App.Session.OnUpdate` | frontend/src/App.jsx:26-30 | a record payload replaces by id; a `null` payload unmounts a session with a non-empty list and changes no list |
| `App.Session.OnDelete` | frontend/src/App.jsx:32-34 | the list loses exactly the records with the id |
| `App.Session.OnDisconnect` | frontend/src/App.jsx:36 | the session state becomes the disconnected one: loading, list unchanged |
| `App.Session.Receive` | frontend/src/App.jsx:16-39 | dispatching a message to its listener changes the session state exactly as `Deliver` says |
| `App.Session.SetTitle` | frontend/src/App.jsx:104 | the title field takes the typed value |
| `App.Session.SetPriority` | frontend/src/App.jsx:110 | the priority field takes the selected value |
| `App.Session.SetCategory` | frontend/src/App.jsx:120 | the category field takes the selected value |
| `App.Session.CreateTask` | frontend/src/App.jsx:41-52 | sends nothing and keeps the title when it is blank; otherwise sends the create intent and clears the title |
| `Store.IndexOf` | backend/server.js:30 | finds the first record with the id, or reports that none has it |
| `Store.Create` | backend/server.js:25 | the collection gains exactly one record at the end, with the submitted fields and the new id |
| `Store.FindByIdAndUpdate` | backend/server.js:30 | returns `null` and changes nothing exactly when no record has the id; otherwise returns the submitted record and puts it in place of the matching one |
| `Store.FindByIdAndDelete` | backend/server.js:35 | a missing id changes nothing; otherwise exactly one record carrying the id is cut out and the others keep their order |
| `Store.CreateKeepsIds` | backend/server.js:25 | the new id is unused, and ids stay unique after a create |
| `Store.UpdateKeepsIds` | backend/server.js:30 | ids stay unique after an update |
| `Store.DeleteKeepsIds` | backend/server.js:35 | ids stay unique after a delete and the id is gone |
| `Store.UpdateIsReplace` | backend/server.js:29-32 | with unique ids, the store's update gives the same list as the sessions' replace-by-id |
| `Store.DeleteIsRemove` | backend/server.js:34-37 | with unique ids, the store's delete gives the same list as the sessions' filter-by-id |
| `Server.Step` | backend/server.js:24-37 | each handler broadcasts its own event (create, update or delete), and only a create uses up an id |
| `Server.Run` | backend/server.js:24-37 | a series of intents yields one broadcast per intent |
| `Server.CreateStep` | backend/server.js:24-27 | a create appends one record with the submitted fields and an unused id, and broadcasts that record |
| `Server.UpdateStep` | backend/server.js:29-32 | an update of a held id puts the submitted record in its place and broadcasts it; of a missing id changes nothing and broadcasts `null` |
| `Server.DeleteStep` | backend/server.js:34-37 | a delete cuts out the record with the id if present, keeping the rest in order, which equals the sessions' filter by id; a missing id is a no-op; the bare id is broadcast either way |
| `Server.StepWellFormed` | backend/server.js:24-37 | every handler keeps ids unique and below the next id to assign |
| `Server.RunWellFormed` | backend/server.js:24-37 | ids stay unique across any series of creates, updates and deletes |
| `Server.StepKeepsReplica` | backend/server.js:24-37 | a replica equal to the collection stays equal after a create, an update of a held id, or a delete and its broadcast |
| `Server.MissingUpdateThrows` | backend/server.js:29-32 | an update of a missing id leaves the collection alone but its `null` broadcast makes every non-empty replica's listener throw |
| `Server.StepKeepsReplicaTolerant` | backend/server.js:24-37 | with the corrected listener, every intent keeps a replica equal to the collection |
| `Server.RunKeepsReplica` | backend/server.js:24-37 | a replica that receives every broadcast of a series with no `null` update ends equal to the collection |
| `Server.RunKeepsReplicaTolerant` | backend/server.js:24-37 | with the corrected listener, a replica follows the collection through any series of intents |
| `Server.MoveLandsInColumn` | backend/server.js:29-32 | moving a held task makes a consistent replica show it under the target column and under no other |
| `Server.DeleteGoneEverywhere` | frontend/src/App.jsx:58-60 | the bare-id intent that `deleteTask` emits, once the hub handles it, leaves no record with the id in the collection or in any replica, whatever the replica held |
| `Server.CreateMoveDeleteScenario` | backend/server.js:24-37 | create, move and delete in turn: each broadcast is the promised one, a replica follows all three, and the task is gone at the end |
| `Server.Hub.constructor` | backend/server.js:13-16 | the hub starts over an existing collection with unique ids and no connected socket |
| `Server.Hub.EmitToAll` | backend/server.js:26 | `io.emit` delivers the message to every connected session, and no session's form inputs change |
| `Server.Hub.Connect` | backend/server.js:18-22 | the new socket joins and receives the whole collection; its form inputs and every other session stay as they were |
| `Server.Hub.Disconnect` | frontend/src/App.jsx:36 | the socket leaves the audience and its session sees the disconnect and keeps its form inputs; the collection is unchanged |
| `Server.Hub.TaskCreate` | backend/server.js:24-27 | the collection and broadcast are those of a create step, every session receives it with its form inputs untouched, and consistency is kept |
| `Server.Hub.TaskUpdate` | backend/server.js:29-32 | as an update step; every session receives it with its form inputs untouched; consistency is kept, and a `null` broadcast unmounts every session of a consistent non-empty board |
| `Server.Hub.TaskDelete` | backend/server.js:34-37 | as a delete step; every session receives the id with its form inputs untouched, and consistency is kept |

## Left out

- Transport and wiring are not modelled: the socket.io client and server, reconnection options, express, cors, `server.listen`, `mongoose.connect` and the log lines. `Hub.Disconnect` stands for socket.io dropping a socket from `io.emit`'s audience; server.js has no code for it.
- The document store's code is not part of this model. Its behaviour is the stated assumptions of `Store`. Write failures and rejected promises are left out. In the source each intent handler is an `async` listener without a `try`/`catch`, so a rejected store call is an unhandled rejection. Causes include a store that stays unreachable past the driver's buffering timeout, or an id that is not a valid ObjectId. Nothing is broadcast, and on Node 15 or later the hub process exits and every session disconnects.
- Store order is assumed. The model assumes `Task.find()` returns records in insertion order, though MongoDB promises no order without a sort. Comparing replicas with the collection as sequences depends on this assumption. Without it, a new session's snapshot could list the same records in another order than the appends of the other sessions.
- Concurrency is left out. The handlers run as atomic, sequential steps, so interleaved intents from different sockets and suspension at each `await` are not modelled. One effect of this: in the source a broadcast can reach a new socket before its snapshot does, because the socket is in `io.emit`'s audience during `await Task.find()`.
- `Hub.EmitToAll` delivers to the sessions in list order. Each session is reached once and sessions do not interact, so the order cannot be observed.
- Ids are natural numbers handed out by a counter. The model relies only on a new id not being held by any record. Like ObjectIds, counter ids are never reused.
- An update intent carries a whole record, as `moveTask` always sends one. Partial updates and payloads with missing or non-string fields are not modelled. Every model task has all four string fields.
- Board.Progress: uses exact integer arithmetic, `(200·done + n) / (2n)`. The source computes `Math.round((done / n) * 100)` in floating point, and at an exact half that can land just below .5. For example 29 of 200 tasks in Done is exactly 14.5 and may show 14 where the model gives 15.
- Rendering is not modelled: JSX, the loading screen, badge colours, the "Move to" buttons and the `styles` object. The only rendering logic modelled is the column filter.
- React's normal unmount, whose cleanup calls `socket.off()`, is not modelled. The `mounted` flag covers only the unmount caused by a listener that throws.
- Tests are not modelled. The component tests only check rendered text under a mocked socket. The end-to-end test drags a card onto a column headed "⚡ In Progress". The component has no drag handling and renders the bare column name.

## Findings

| source | as written | input that shows it | evidently intended | confidence | as-written member | corrected member |
|---|---|---|---|---|---|---|
| frontend/src/App.jsx:26-30 | the update listener reads `task._id` on the payload. The hub broadcasts the store's `null` for an unknown id (backend/server.js:30-31), so the listener throws in every session whose list is non-empty, and React unmounts that session. | two sessions show task X. One deletes X while the other moves X. The delete reaches the hub first, and the board holds another task besides X. The move's update then finds no record and broadcasts `null`, and both sessions unmount. | a `null` payload matches no record and leaves the list unchanged | high; not executed | `Server.MissingUpdateThrows` | `Reconcile.ApplyTolerant` |

`Reconcile.Apply`, `Reconcile.NullUpdateThrows` and the `App.Session` and
`Server.Hub` classes follow the code as written. `Reconcile.ApplyTolerant`
is the corrected listener. Two lemmas prove that with it every intent keeps
a replica equal to the collection, the update of a missing id included:
`Server.StepKeepsReplicaTolerant` for one intent and
`Server.RunKeepsReplicaTolerant` for any series.
