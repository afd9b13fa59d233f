# Task list synchronisation: a verified model

The task-management system keeps one list of tasks (`{_id, text, priority}`)
in a document store behind four HTTP routes, and broadcasts every successful
change over a socket to all connected browsers. Each browser fetches a
snapshot of the list once and then patches its own copy with three socket
messages: `new-task`, `delete-task` and `update-task`.

This project models that synchronisation protocol and its two participants:

- `tasks.dfy` (module `Tasks`): the `Task` record, the `ChangeEvent`
  datatype `Created(Task) | Deleted(Id) | Updated(Task)` for the three
  socket messages, and the predicate `Mirrors(list, store)`. It holds when
  the list contains exactly the stored records, each once, in any order.
- `client.dfy` (module `Client`): the updater functions the browser passes
  to `setTasks`. These are `OnSnapshot` (a successful fetch replaces the
  view, a failed one leaves it as it was), `OnNewTask` (append),
  `OnDeleteTask` (filter by `_id`) and `OnUpdateTask` (map matching `_id`
  to the new task). `Apply` reacts to one message and `ApplyAll` folds a
  sequence of messages in delivery order. `Session` is a snapshot followed
  by the messages.
- `server.dfy` (module `Server`): class `TaskService`. It holds the store
  as a `map<Id, Task>`, the set of identities handed out so far, and the
  log of broadcast events (`io.emit` appends to it). Each route is a
  method that returns a status and a JSON body. The class invariant says
  the store is exactly the replay of the broadcast log from an empty
  store. It also says that every logged event was admissible when it was
  emitted: a creation used an identity not stored at that moment, and an
  update targeted a stored one. Separately, no two creations in the log
  share an identity, so identities are never reused after a deletion.
- `sync.dfy` (module `Sync`): the convergence theorem. A client's snapshot
  fetch succeeds after the first `k` broadcasts, and the client then
  applies every later broadcast in order. Whatever it held before, it then
  holds exactly the store's current records: the same identities, the same
  contents, each once. Its order is not promised. Identities are compared
  as values (see "## Left out"). If the fetch fails, the client keeps its
  stale view and nothing fetches again. `FailedFetchNeverHoldsOld` shows
  that a client that mounted with an empty view never holds any record that
  was stored when its fetch failed, whatever broadcasts follow. `TwoSessions` walks through
  three scenarios. A second session learns of a creation without issuing
  any request. The created task carries the requested text and priority.
  An update of an unknown identity answers 404 without broadcasting
  anything.

Modelling choices:

- Identities are natural numbers. The store's identity generator is a
  counter that never repeats. Mongoose assigns the identity when the
  document is constructed, so the identity counts as handed out even if
  the save then fails.
- Any database call can reject: the query, `save`, `findByIdAndDelete` or
  `findById`. Each is modelled by an `Option<string>` parameter, where
  `Some(message)` means the call rejects with that `err.message`. This
  covers connection failures, schema rejections and malformed identities
  alike. Every such rejection answers 500 and changes neither the store
  nor the broadcast log.
- `Task.find()` returns records in an unspecified order. `ListTasks`
  picks the next record with `:|`, so its contract holds for every order.
- The route handlers validate neither field, so both are free strings
  here. Any rejection by the document schema, which is not modelled, such
  as an empty text, appears as a failing `save`. The model follows the code for deletes too: deleting a missing
  identity answers 200, not 404, and still broadcasts `delete-task`.

## Model

| member | source | states |
|---|---|---|
| `Client.SnapshotReplaces` | task-management-frontend/src/App.js:20 | a successfully fetched list replaces the view; what the view held before has no influence |
| `Client.FailedSnapshotKeepsView` | task-management-frontend/src/App.js:19-21 | a failed fetch is only logged: the view stays as it was and later messages apply to it |
| `Client.OnNewTask` | task-management-frontend/src/App.js:24-26 | the result is one longer, its prefix is the old view unchanged, its last entry is the new task, and its identities gain the task's identity |
| `Client.OnDeleteTask` | task-management-frontend/src/App.js:28-30 | an entry survives iff it was in the view and its identity differs; the identity set loses exactly `id`; the list shrinks whenever `id` was present |
| `Client.DeleteKeepsOrder` | task-management-frontend/src/App.js:29 | deleting from a concatenation deletes from each part and keeps the parts in order, so surviving entries keep their relative order |
| `Client.DeleteAbsentIsNoOp` | task-management-frontend/src/App.js:29 | `delete-task` for an identity the view lacks leaves the view unchanged |
| `Client.DeleteIdempotent` | task-management-frontend/src/App.js:28-30 | applying the same `delete-task` twice equals applying it once |
| `Client.DeleteKeepsDistinct` | task-management-frontend/src/App.js:29 | a view with distinct identities keeps them distinct after a deletion |
| `Client.OnUpdateTask` | task-management-frontend/src/App.js:32-36 | the length is kept; at every position an entry with the task's identity becomes the task and any other entry is unchanged |
| `Client.UpdateAbsentIsNoOp` | task-management-frontend/src/App.js:34 | `update-task` for an identity the view lacks leaves the view unchanged and never inserts |
| `Client.UpdateKeepsIds` | task-management-frontend/src/App.js:34 | an update keeps the set of identities in the view |
| `Client.UpdateKeepsDistinct` | task-management-frontend/src/App.js:34 | a view with distinct identities keeps them distinct after an update |
| `Client.UpdateIdempotent` | task-management-frontend/src/App.js:32-36 | applying the same `update-task` twice equals applying it once |
| `Client.DeleteAfterUpdate` | task-management-frontend/src/App.js:28-35 | deleting an identity after updating it equals deleting it without the update |
| `Client.ApplyAllAppend` | task-management-frontend/src/App.js:24-36 | applying two batches of messages in turn equals applying their concatenation |
| `Client.CreateUpdateDeleteLeavesNothing` | task-management-frontend/src/App.js:24-35 | after `Created(A)`, any `Updated` message, then `Deleted(A.id)`, no entry has `A.id`, and an empty view ends empty |
| `Server.ReplayAppend` | backend/app.js:54-87 | committing two logs of changes in turn equals committing their concatenation |
| `Server.JustifiedSplit` | backend/app.js:54-87 | if every event of a log was admissible when emitted, the same holds for every prefix and for the rest of the log from the state the prefix reached |
| `Server.TaskService.IssueId` | backend/app.js:50-53 | a new document gets an identity never handed out before; store and log are unchanged |
| `Server.TaskService.CommitAndEmit` | backend/app.js:54-57 | a broadcast happens only together with the committed change: the store is the old store with the event committed, and the log gains exactly that event |
| `Server.TaskService.ListTasks` | backend/app.js:39-46 | a failed query answers 500 with its message; otherwise 200 and a list mirroring the store (every record once, any order); neither store nor log changes |
| `Tasks.MirrorSize` | backend/app.js:41-42 | a list mirroring the store has exactly one entry per stored record |
| `Server.TaskService.CreateTask` | backend/app.js:48-63 | a failed save answers 500 and changes neither store nor log; otherwise 201 with a task of the requested text and priority under an identity never issued or created before, which is now the one identity added to the issued set, stored under that identity, with exactly one `Created` broadcast of it |
| `Server.TaskService.DeleteTask` | backend/app.js:65-76 | a failed deletion answers 500 and changes nothing; otherwise the identity is gone from the store, `Deleted(id)` is broadcast even when nothing was stored, and the answer is 200 with the deleted record or none |
| `Server.TaskService.UpdateTask` | backend/app.js:78-93 | a failed lookup answers 500; an absent identity answers 404 with no broadcast and no change; a failed save answers 500 with no change; otherwise only the text changes, and the saved task is broadcast as `Updated` and returned with 200 |
| `Sync.NewTaskKeepsMirror` | task-management-frontend/src/App.js:24-26 | appending a task with a fresh identity keeps a mirroring view in step with the store that gained it |
| `Sync.DeleteTaskKeepsMirror` | task-management-frontend/src/App.js:28-30 | filtering out an identity keeps a mirroring view in step with the store that dropped it, whether or not it was stored |
| `Sync.UpdatedEntriesStored` | task-management-frontend/src/App.js:32-36 | after an update, every entry of a mirroring view is the record the updated store holds under its identity |
| `Sync.UpdateTaskKeepsMirror` | task-management-frontend/src/App.js:32-36 | an update of a stored identity keeps a mirroring view in step with the updated store |
| `Sync.ApplyKeepsMirror` | task-management-frontend/src/App.js:24-36 | any admissible event keeps a mirroring view in step with the store it changes |
| `Sync.ApplyAllKeepsMirror` | task-management-frontend/src/App.js:24-36 | a mirroring view stays mirroring through any admissible run of events applied in order |
| `Sync.NoCreateNoEntry` | task-management-frontend/src/App.js:24-36 | starting from an empty view, no sequence of messages puts an identity into the view unless one of them is a `new-task` for it |
| `Sync.StoredIdsCreated` | backend/app.js:54-87 | starting from an empty store, every identity stored after an admissible log was created by one of its events |
| `Sync.FailedFetchNeverHoldsOld` | task-management-frontend/src/App.js:19-21 | a client whose fetch on mount failed after `k` broadcasts never holds any record stored at that moment, whatever broadcasts follow, because identities are never created twice |
| `Sync.ClientConverges` | backend/app.js:54-87 | a client that snapshots after `k` broadcasts and applies the later ones in order holds exactly the store's records and the store's identity set, whatever it held before |

## Left out

- HTTP transport (axios, express routing), socket.io delivery and listener cleanup are not modelled. Delivery is modelled as one client applying a suffix of the broadcast log in order.
- The snapshot-versus-event race on connect is not modelled, and neither are concurrent writes to the same identity. The model assumes each snapshot is taken at a point of the broadcast log and that events are applied strictly after it.
- The order of `Task.find()` is not modelled. Convergence is stated on contents and identity sets, not on list order.
- The Mongoose connection, environment configuration and logging are not modelled.
- The document schema file is not part of this model. Task is an abstract record `{id, text, priority}` with no validation; a schema rejection is one of the ways a `save` can fail.
- The form state and rendering of the view (input fields, editing state, JSX) are not modelled. They hold no behaviour beyond clearing inputs.
- `Server.TaskService.CreateTask`: when the save fails, the model only says the set of issued identities did not shrink, not which identity was drawn, because the route does not report it.
- Identities are compared as canonical values. The backend broadcasts the route parameter exactly as requested, while the store casts it to an identity before deleting, and the client compares it with `_id` as a string. A delete request that spells a stored identity differently from the stored `_id`, for example in upper-case hex, is not modelled. Such a request deletes the record but leaves the entry in every client's view, which breaks convergence.
- Save and broadcast are one atomic step in the model. In the backend, `io.emit` runs only after `save` has completed. If the process crashes between the two, the change is stored but no event is sent, and connected clients fall out of step until they fetch again. The model does not capture this.
- A failed first fetch is modelled: the view stays as it was. The client never retries the fetch, so convergence is stated only for a client whose fetch succeeded.
- The backend starts from an empty store. A store that already holds records is modelled as the state after the creations that filled it.
