/** The four server operations on the task table: create, update, delete and
    list. Each takes a validated input; `now` is the wall-clock instant at
    which the operation runs. */
module Handlers {
  import opened Wrappers
  import opened Schema
  import opened TaskTable

  /** The outcome of a delete: the store afterwards and whether a record went. */
  datatype Deleted = Deleted(store: Store, success: bool)

  /** `createTask`: inserts one record with the input's fields and returns it. */
  function CreateTask(s: Store, input: CreateInput, now: int): (r: Result<Written, Error>)
    ensures r.Failure? <==> s.nextId > MaxSerial
    ensures r.Failure? ==> r.error == StorageError
    ensures r.Success? ==>
      var t := r.value.task;
      && t.description == input.description
      && t.dueDate == input.dueDate
      && t.status == input.status
      && t.createdAt == now && t.updatedAt == now
      && r.value.store.tasks.Keys == s.tasks.Keys + {t.id}
      && r.value.store.tasks[t.id] == t
      && (forall k | k in s.tasks && k != t.id :: r.value.store.tasks[k] == s.tasks[k])
  {
    Insert(s, NewRow(input.description, input.dueDate, Some(input.status)), now)
  }

  /** Create on a valid store at a later instant: the id is fresh, exactly one
      record is added, every earlier record is untouched, and the store stays
      valid at the new instant. */
  lemma CreateTaskFresh(s: Store, input: CreateInput, clock: int, now: int)
    requires Valid(s, clock) && clock < now
    requires CreateTask(s, input, now).Success?
    ensures CreateTask(s, input, now).value.task.id !in s.tasks
    ensures |CreateTask(s, input, now).value.store.tasks| == |s.tasks| + 1
    ensures forall k | k in s.tasks :: CreateTask(s, input, now).value.store.tasks[k] == s.tasks[k]
    ensures Valid(CreateTask(s, input, now).value.store, now)
  {
    InsertPreservesValid(s, NewRow(input.description, input.dueDate, Some(input.status)), clock, now);
  }

  /** The record an update writes: each supplied field replaces the prior value,
      and `updated_at` is set to `now` whether or not any field was supplied. */
  function Patched(prior: Task, input: UpdateInput, now: int): (t: Task)
    ensures t.id == prior.id && t.createdAt == prior.createdAt && t.updatedAt == now
    ensures input.description.Some? ==> t.description == input.description.value
    ensures input.description.None? ==> t.description == prior.description
    ensures input.dueDate.Some? ==> t.dueDate == input.dueDate.value
    ensures input.dueDate.None? ==> t.dueDate == prior.dueDate
    ensures input.status.Some? ==> t.status == input.status.value
    ensures input.status.None? ==> t.status == prior.status
  {
    prior.(
      description := if input.description.Some? then input.description.value else prior.description,
      dueDate := input.dueDate.GetOr(prior.dueDate),
      status := input.status.GetOr(prior.status),
      updatedAt := now)
  }

  /** `updateTask`: a partial update of the record with the input's id, or a
      not-found error (and no change) when no record has that id. An id
      outside the range of the `integer` id column makes the database raise
      an error, which the handler rethrows. */
  function UpdateTask(s: Store, input: UpdateInput, now: int): (r: Result<Written, Error>)
    ensures r.Failure? <==> !IsInt4(input.id) || input.id !in s.tasks
    ensures !IsInt4(input.id) ==> r == Failure(StorageError)
    ensures IsInt4(input.id) && input.id !in s.tasks ==> r == Failure(NotFound(input.id))
    ensures r.Success? ==>
      var prior := s.tasks[input.id];
      var t := r.value.task;
      && t.id == prior.id
      && t.createdAt == prior.createdAt
      && t.updatedAt == now
      && (input.description.None? ==> t.description == prior.description)
      && (input.description.Some? ==> t.description == input.description.value)
      && (input.dueDate.None? ==> t.dueDate == prior.dueDate)
      && (input.dueDate.Some? ==> t.dueDate == input.dueDate.value)
      && (input.status.None? ==> t.status == prior.status)
      && (input.status.Some? ==> t.status == input.status.value)
      && r.value.store.nextId == s.nextId
      && r.value.store.tasks.Keys == s.tasks.Keys
      && r.value.store.tasks[input.id] == t
      && (forall k | k in s.tasks && k != input.id :: r.value.store.tasks[k] == s.tasks[k])
  {
    if !IsInt4(input.id) then Failure(StorageError)
    else if input.id !in s.tasks then Failure(NotFound(input.id))
    else
      var t := Patched(s.tasks[input.id], input, now);
      Success(Written(s.(tasks := s.tasks[input.id := t]), t))
  }

  /** An update of a valid store at a later instant strictly increases the
      record's `updated_at`, returns the record with the key it was asked for,
      and keeps the store valid. */
  lemma UpdateTaskAdvances(s: Store, input: UpdateInput, clock: int, now: int)
    requires Valid(s, clock) && clock < now
    requires UpdateTask(s, input, now).Success?
    ensures UpdateTask(s, input, now).value.task.id == input.id
    ensures UpdateTask(s, input, now).value.task.updatedAt > s.tasks[input.id].updatedAt
    ensures Valid(UpdateTask(s, input, now).value.store, now)
  {
  }

  /** `deleteTask`: removes the record with the input's id if there is one.
      A missing id is not an error; it is reported as `success == false`. */
  function DeleteTask(s: Store, input: DeleteInput): (r: Deleted)
    ensures r.success <==> input.id in s.tasks
    ensures r.store.tasks.Keys == s.tasks.Keys - {input.id}
    ensures forall k | k in r.store.tasks :: r.store.tasks[k] == s.tasks[k]
    ensures r.store.nextId == s.nextId
  {
    if input.id in s.tasks then Deleted(Store(s.tasks - {input.id}, s.nextId), true)
    else Deleted(s, false)
  }

  /** Deleting keeps a store valid, and a second delete of the same id reports
      `false` and changes nothing. */
  lemma DeleteTaskTwice(s: Store, input: DeleteInput, clock: int)
    requires Valid(s, clock)
    ensures Valid(DeleteTask(s, input).store, clock)
    ensures DeleteTask(DeleteTask(s, input).store, input) == Deleted(DeleteTask(s, input).store, false)
  {
  }

  /** A serial id is never handed out twice: a record created after a
      successful delete never receives the deleted id. */
  lemma DeletedIdNotReused(s: Store, clock: int, gone: DeleteInput, input: CreateInput, now: int)
    requires Valid(s, clock)
    requires CreateTask(DeleteTask(s, gone).store, input, now).Success?
    ensures DeleteTask(s, gone).success ==>
      CreateTask(DeleteTask(s, gone).store, input, now).value.task.id != gone.id
  {
  }

  /** The records whose ids lie in `1..k`, largest id first. */
  function ListBelow(tasks: map<int, Task>, k: int): (r: seq<Task>)
    ensures forall t | t in r :: t in tasks.Values
    ensures tasks == map[] ==> r == []
    decreases k
  {
    if k < 1 then []
    else (if k in tasks then [tasks[k]] else []) + ListBelow(tasks, k - 1)
  }

  /** What `ListBelow` holds when every record is keyed by its own id: exactly
      the records with ids in `1..k`, in strictly decreasing id order. */
  lemma {:induction false} ListBelowContents(tasks: map<int, Task>, k: int)
    requires forall j | j in tasks :: tasks[j].id == j
    ensures forall i | 0 <= i < |ListBelow(tasks, k)| ::
      var t := ListBelow(tasks, k)[i];
      t.id in tasks && tasks[t.id] == t && 1 <= t.id <= k
    ensures forall i, j | 0 <= i < j < |ListBelow(tasks, k)| ::
      ListBelow(tasks, k)[i].id > ListBelow(tasks, k)[j].id
    ensures forall j | j in tasks && 1 <= j <= k :: tasks[j] in ListBelow(tasks, k)
    decreases k
  {
    if k >= 1 {
      ListBelowContents(tasks, k - 1);
      var head := if k in tasks then [tasks[k]] else [];
      var rest := ListBelow(tasks, k - 1);
      assert ListBelow(tasks, k) == head + rest;
      forall j | j in tasks && 1 <= j <= k
        ensures tasks[j] in ListBelow(tasks, k)
      {
        if j < k {
          assert tasks[j] in rest;
        }
      }
    }
  }

  /** `getTasks`: every record, most recently created first. The records are
      enumerated by descending id, which in a valid store is descending
      creation time. */
  function GetTasks(s: Store): (r: seq<Task>)
    ensures forall t | t in r :: t in s.tasks.Values
    ensures s.tasks == map[] ==> r == []
  {
    ListBelow(s.tasks, s.nextId - 1)
  }

  /** In a valid store the listing holds only stored records, ids strictly
      decreasing. */
  lemma GetTasksStored(s: Store, clock: int)
    requires Valid(s, clock)
    ensures forall t | t in GetTasks(s) :: t.id in s.tasks && s.tasks[t.id] == t
    ensures forall i, j | 0 <= i < j < |GetTasks(s)| :: GetTasks(s)[i].id > GetTasks(s)[j].id
  {
    KeyedById(s, clock);
    ListBelowContents(s.tasks, s.nextId - 1);
  }

  /** In a valid store the listing holds every stored record. */
  lemma GetTasksComplete(s: Store, clock: int)
    requires Valid(s, clock)
    ensures forall k | k in s.tasks :: s.tasks[k] in GetTasks(s)
  {
    KeyedById(s, clock);
    ListBelowContents(s.tasks, s.nextId - 1);
    forall k | k in s.tasks ensures s.tasks[k] in GetTasks(s) {
      assert RowValid(s.tasks[k], k, s.nextId, clock);
    }
  }

  /** In a valid store the listing holds each record once. */
  lemma GetTasksCount(s: Store, clock: int)
    requires Valid(s, clock)
    ensures DistinctIds(GetTasks(s))
    ensures |GetTasks(s)| == |s.tasks|
  {
    var r := GetTasks(s);
    GetTasksStored(s, clock);
    GetTasksComplete(s, clock);
    assert Ids(r) == s.tasks.Keys by {
      forall k | k in s.tasks ensures k in Ids(r) {
        KeyedById(s, clock);
        assert s.tasks[k] in r;
      }
    }
    DistinctIdsCardinality(r);
  }

  /** In a valid store the listing is ordered by `created_at`, newest first. */
  lemma GetTasksNewestFirst(s: Store, clock: int)
    requires Valid(s, clock)
    ensures forall i, j | 0 <= i < j < |GetTasks(s)| :: GetTasks(s)[i].createdAt > GetTasks(s)[j].createdAt
  {
    var r := GetTasks(s);
    GetTasksStored(s, clock);
    forall i, j | 0 <= i < j < |r| ensures r[i].createdAt > r[j].createdAt {
      assert r[i] in r && r[j] in r;
    }
  }

  /** What `getTasks` returns from a valid store: exactly the stored records,
      each once, of every status, ordered by `created_at` descending; an empty
      store lists as the empty sequence. */
  lemma GetTasksContract(s: Store, clock: int)
    requires Valid(s, clock)
    ensures forall t | t in GetTasks(s) :: t.id in s.tasks && s.tasks[t.id] == t
    ensures forall k | k in s.tasks :: s.tasks[k] in GetTasks(s)
    ensures |GetTasks(s)| == |s.tasks|
    ensures DistinctIds(GetTasks(s))
    ensures forall i, j | 0 <= i < j < |GetTasks(s)| :: GetTasks(s)[i].createdAt > GetTasks(s)[j].createdAt
    ensures s.tasks == map[] ==> GetTasks(s) == []
  {
    GetTasksStored(s, clock);
    GetTasksComplete(s, clock);
    GetTasksCount(s, clock);
    GetTasksNewestFirst(s, clock);
  }
}
