# Task lifecycle of a minimal to-do app, in Dafny

This project models the task records of a small to-do application: a server
that validates input and creates, lists, updates and deletes tasks in a
`tasks` table, and a client that keeps a local copy of the task list, counts
tasks per status, sorts them for display and flags overdue ones.

- `wrappers.dfy` (`Wrappers`): `Option` for omitted fields, `Result` for
  operations that raise errors.
- `schema.dfy` (`Schema`): the closed status enumeration `Backlog`,
  `In Progress`, `Done`; the six-field `Task` record, whose status is in the
  enumeration by construction; the create, update and delete input
  validators. A validator either returns a typed input or a
  `ValidationError` listing every offending field.
- `task_table.dfy` (`TaskTable`): the table as a finite map from id to record
  plus the next value of the serial id sequence. `Insert` applies the column
  defaults: a fresh serial id, status `Backlog` when omitted, and both
  timestamps set to the insertion instant. `Valid(s, clock)` is the store
  invariant: every record sits under its own id, and that id has already been
  handed out; descriptions are non-empty; `created_at <= updated_at <= clock`;
  ids follow creation order.
- `handlers.dfy` (`Handlers`): `CreateTask`, `UpdateTask` (partial update,
  unconditional `updated_at` refresh, not-found error), `DeleteTask` (boolean
  outcome, never an error) and `GetTasks` (every record, newest first).
- `app.dfy` (`App`): the client's list reducers for create, update and
  delete, the per-status counts, and `Mirrors`. `Mirrors` is the invariant
  that the local list holds exactly the stored records, each once. Every
  reducer keeps it, whether the server call succeeds or fails.
- `display_order.dfy` (`DisplayOrder`): the display comparator and a stable
  insertion sort. The sort is proved sorted, a permutation, and stable.
- `task_item.dfy` (`TaskItem`): the overdue flag and the status badge label.

Time is an integer. Each operation receives the current instant `now` as an
argument. The store invariant is stated relative to a `clock`, the latest
instant any operation has stamped. The lemmas that need a strictly increasing
clock assume `clock < now`.

## Model

| member | source | states |
|---|---|---|
| `Schema.ParseStatus` | server/src/schema.ts:5 | Exactly the strings "Backlog", "In Progress" and "Done" are accepted, each as its own status; every other string is rejected |
| `Schema.StatusName` | server/src/schema.ts:5 | Every status's wire name parses back to that same status |
| `Schema.ValidateCreate` | server/src/schema.ts:21-25 | Accepted iff the description is present and non-empty, the due date is a valid date, and the status is absent or one of the three values. The description is kept untrimmed, so " " passes. An omitted status becomes Backlog and a given one is kept. On rejection, each failing field is named and no other |
| `Schema.ValidateUpdate` | server/src/schema.ts:30-35 | Accepted iff the id is present and each optional field is absent or valid. A present empty description is rejected. Absent fields stay absent, present ones are kept. An input holding only an id is valid. On rejection, each failing field is named |
| `Schema.ValidateDelete` | server/src/schema.ts:40-42 | A delete input is accepted iff it carries an id, and it carries nothing else |
| `TaskTable.Insert` | server/src/db/schema.ts:7-14 | The row gets the sequence's next id, status Backlog when the insert omits it, and created_at = updated_at = the insertion time. Exactly that key is added and every other row is unchanged. When the 32-bit serial is exhausted the insert fails with a storage error |
| `TaskTable.EmptyValid` | server/src/db/schema.ts:7-14 | The freshly created table, empty with the sequence at 1, satisfies the store invariant `Valid`. `Valid` states the column constraints: each record sits under its own primary key, which the serial sequence has already handed out. Descriptions are non-empty. `created_at <= updated_at`, and no timestamp lies after the clock. Ids follow creation order |
| `TaskTable.InsertPreservesValid` | server/src/db/schema.ts:8-13 | Inserting into a valid store at a later instant takes an id no record holds, adds exactly one record, and keeps the store invariant (unique id per key, mandatory fields, timestamps ordered) |
| `Handlers.CreateTask` | server/src/handlers/create_task.ts:9-20 | The returned task has exactly the input's description, due date and status, and both timestamps equal the creation time. Looking up its id in the new store yields that same task. Earlier records are unchanged |
| `Handlers.CreateTaskFresh` | server/src/handlers/create_task.ts:9-20 | On a valid store, the created id is held by no earlier record, and the store grows by exactly one record. Every earlier record is unchanged, and the store stays valid |
| `Handlers.Patched` | server/src/handlers/update_task.ts:10-24 | The written record takes each supplied field from the input and keeps each absent one from the prior record. Its id and created_at are the prior record's, and updated_at is now even when no field was supplied |
| `Handlers.UpdateTask` | server/src/handlers/update_task.ts:10-41 | An id outside the 32-bit range of the id column fails with a storage error, because the database rejects the comparison and the handler rethrows it. An unknown id in range fails with NotFound. Since an error carries no store, nothing changes. Otherwise each supplied field is replaced and each absent one kept. id and created_at are kept, and updated_at is set to now even when no field was supplied. Only the record with that key changes, and the returned record is the one now stored |
| `Handlers.UpdateTaskAdvances` | server/src/handlers/update_task.ts:10-12 | With a strictly increasing clock, a successful update makes updated_at strictly greater than before. The returned id is the requested id, and the store stays valid |
| `Handlers.DeleteTask` | server/src/tests/delete_task.test.ts:14-85 | success is true iff a record had the id. Afterwards no record has that id, every other record is present and unchanged, and the id sequence is untouched. A missing id yields false, not an error |
| `Handlers.DeleteTaskTwice` | server/src/tests/delete_task.test.ts:33-48 | Delete keeps the store valid, and a second delete of the same id reports false and changes nothing |
| `Handlers.DeletedIdNotReused` | server/src/db/schema.ts:8 | After a successful delete, a later create never receives the deleted id: serial ids are not reused |
| `Handlers.GetTasks` | server/src/tests/get_tasks.test.ts:32-36 | For any store, every listed element is a stored record, and an empty table lists as the empty sequence |
| `Handlers.GetTasksContract` | server/src/tests/get_tasks.test.ts:32-151 | On a valid store the list holds every stored record, each once, so all statuses are returned. Its length equals the number of records. It is ordered by created_at, newest first. An empty store lists as the empty sequence |
| `App.AppendCreated` | client/src/App.tsx:35 | The created task is added at the end, and the earlier elements are unchanged |
| `App.ReplaceUpdated` | client/src/App.tsx:48-50 | The length is kept. Elements whose id matches the updated task become that task, and all others are unchanged |
| `App.RemoveDeleted` | client/src/App.tsx:63 | The result holds exactly the elements whose id differs from the deleted one. It is unchanged when no element has that id |
| `App.RemoveDeletedConcat` | client/src/App.tsx:63 | Filtering distributes over concatenation, so the kept elements stay in their original order |
| `App.OnCreateReply` | client/src/App.tsx:31-42 | When the server call fails the list is unchanged. Otherwise the returned task is appended |
| `App.OnUpdateReply` | client/src/App.tsx:44-57 | When the server call fails the list is unchanged. Otherwise elements with the returned task's id are replaced by it |
| `App.OnDeleteReply` | client/src/App.tsx:59-69 | When the server call fails the list is unchanged. Otherwise the elements with the id are removed, whatever `success` says |
| `App.StatusCount` | client/src/App.tsx:71-73 | The count never exceeds the list length, and it is zero iff no task has that status |
| `App.StatusCountConcat` | client/src/App.tsx:71-73 | The count of a concatenation is the sum of the counts. With the one-element case of `StatusCount`, this fixes the count as the number of tasks with the status |
| `App.StatusCountsSum` | client/src/App.tsx:71-73 | The three per-status counts add up to the list length |
| `App.StatusCountPermutation` | client/src/App.tsx:71-75 | Counts depend only on which tasks the list holds, not on their order, so the sorted list counts the same |
| `App.LoadMirrors` | client/src/App.tsx:18-25 | Loading the list from a valid store makes the local list a mirror of the table: exactly the stored records, each once |
| `App.CreateKeepsMirror` | client/src/App.tsx:31-42 | A create, whether it succeeds or fails, keeps the local list a mirror of the table |
| `App.UpdateKeepsMirror` | client/src/App.tsx:44-57 | An update, whether it succeeds or fails (including an unknown id), keeps the local list a mirror of the table |
| `App.DeleteKeepsMirror` | client/src/App.tsx:59-69 | A delete keeps the local list a mirror of the table, whatever its outcome |
| `App.MirrorIsPermutation` | client/src/App.tsx:71-73 | A mirrored local list is a permutation of a fresh `getTasks` result, so its badge counts are the table's counts |
| `DisplayOrder.Rank` | client/src/App.tsx:76-78 | Ranks lie in 0..2. Backlog alone has rank 0 and Done alone has rank 2, so In Progress sits between them |
| `DisplayOrder.Compare` | client/src/App.tsx:75-85 | The comparator returns at most 0, so that a may precede b, iff a's status rank is lower, or the status is the same and a is due no later. It returns 0 exactly on equal status and due date, and then the stable sort keeps list order |
| `DisplayOrder.CompareTotalPreorder` | client/src/App.tsx:75-85 | The comparator is a consistent sort comparator: antisymmetric, total and transitive, and ties are transitive too |
| `DisplayOrder.SortTasks` | client/src/App.tsx:75 | The display list is a permutation of the task list |
| `DisplayOrder.SortTasksSorted` | client/src/App.tsx:75-85 | The display list is ordered by the comparator and is a permutation of the task list |
| `DisplayOrder.SortedByStatusThenDue` | client/src/App.tsx:76-84 | In an ordered list, Backlog comes before In Progress, which comes before Done. Within one status, due dates ascend |
| `DisplayOrder.SortTasksStable` | client/src/App.tsx:75-85 | Tasks with the same status and due date keep their relative list order in the display list |
| `TaskItem.IsOverdue` | client/src/components/TaskItem.tsx:31-35 | A Done task is never overdue. A task that is not Done and is due before the current instant is overdue. A task due at or after the current instant is not. The current instant is a moment, not a calendar day, so a task due at midnight is overdue for the rest of that day |
| `TaskItem.OverdueStaysOverdue` | client/src/components/TaskItem.tsx:31-35 | An unchanged task that is overdue stays overdue at every later instant |
| `TaskItem.UpdateAndOverdue` | client/src/components/TaskItem.tsx:34 | An update to status Done clears the overdue flag. An update supplying neither a due date nor a status leaves the flag as it was |
| `TaskItem.BadgeLabel` | client/src/components/TaskItem.tsx:18-29 | The label is "Unknown" iff the value is outside the enumeration. Otherwise it is the status's own icon, a space and the status name |
| `TaskItem.BadgeLabelsDistinct` | client/src/components/TaskItem.tsx:18-29 | Each of the three statuses has its own label, and none is "Unknown" |

## Left out

- Date handling is not modelled: `z.coerce.date`, `new Date(...)`, ISO formatting, `toLocaleDateString` and time zones. Dates are integer instants. A raw date is absent, unparseable or an instant. Coercion of non-date values such as `null` is not modelled.
- The wall clock is an argument. The source stamps `created_at` with the database clock (`defaultNow`) and `updated_at` with the application clock (`new Date()`). The model uses one clock, so skew between the two is not represented.
- The database engine and ORM are not modelled. The table is a map plus the id sequence. Two storage errors are modelled: exhaustion of the 32-bit serial sequence on insert, and an update whose id lies outside the 32-bit range of the id column. Connection and other driver faults are left out.
- Insert, CreateTask and UpdateTask: value-level rejections by the database are not modelled, so the model reports success where the database would raise an error that the handlers rethrow. These cases are a description containing the NUL character, which a `text` column refuses, and a due date outside the range of the `timestamp` column, which is narrower than the range of a JavaScript date. A lone UTF-16 surrogate in a description would be stored as U+FFFD, but model strings cannot hold one.
- The code of the `deleteTask` and `getTasks` handlers is not part of this model. `DeleteTask` and `GetTasks` are modelled from the assertions of their tests. `GetTasks` enumerates records by descending id, which in a valid store is descending `created_at`.
- DeleteTask: an id outside the 32-bit range of the id column returns `success == false` in the model. The database would most likely raise a range error, as it does for `updateTask`, but the handler's code is not part of this model, so that error path is not modelled.
- Ids are integers. `z.number()` also accepts non-integer numbers such as 1.5, for which the database raises an invalid-input error; such ids are not modelled.
- The RPC router that applies the input schemas before calling the handlers is not part of this model. Validators and handlers are modelled separately, and the handlers take validated inputs.
- Schema details not modelled: zod's stripping of unknown keys, its error message texts, and values of the wrong JavaScript type (a non-number id, a non-string description). A field is either absent or present with a value of its declared type.
- Multi-row inserts, as the tests use to seed the table, are not modelled; every insert is a single row.
- Concurrency is not modelled. Concurrent updates of one record (last writer wins) are not represented, because every operation is atomic and sequential.
- React rendering, the form component, the `isLoading`/`showAddForm`/`editingTask` flags, error logging and rethrow, and `formatDate` are not modelled. They carry no data contract.
