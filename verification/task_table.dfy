/** The `tasks` table: records keyed by a serial id, with the column defaults
    the database applies on insertion. The database is a finite map from id to
    record plus the next value of the id sequence. */
module TaskTable {
  import opened Wrappers
  import opened Schema

  /** Largest value a `serial` column (a 32-bit integer sequence) hands out. */
  const MaxSerial: int := 2147483647

  /** The values an `integer` column holds: the 32-bit signed range. A value
      outside it makes the database raise an error rather than compare it. */
  predicate IsInt4(n: int) {
    -MaxSerial - 1 <= n <= MaxSerial
  }

  /** The table contents and the id sequence. */
  datatype Store = Store(tasks: map<int, Task>, nextId: int)

  /** A freshly created table: no rows, and the sequence starts at 1. */
  const Empty: Store := Store(map[], 1)

  /** The columns an insert supplies; `status` may be left to its default.
      The id and both timestamps are never supplied by the caller. */
  datatype NewRow = NewRow(description: string, dueDate: int, status: Option<Status>)

  /** A store together with the record an operation wrote to it. */
  datatype Written = Written(store: Store, task: Task)

  /** One record is consistent with its key, the id sequence and the clock. */
  predicate RowValid(t: Task, key: int, nextId: int, clock: int) {
    && 1 <= key < nextId
    && t.id == key
    && |t.description| >= 1
    && t.createdAt <= t.updatedAt <= clock
  }

  /** The store invariant, relative to `clock`, the latest instant any
      operation has stamped: every record is keyed by its own id, which the
      sequence has already handed out; descriptions are non-empty (the input
      schemas guarantee it, the column does not); no timestamp lies in the
      future and `updated_at` never precedes `created_at`; and ids are handed
      out in creation order. */
  predicate Valid(s: Store, clock: int) {
    && 1 <= s.nextId <= MaxSerial + 1
    && (forall k | k in s.tasks :: RowValid(s.tasks[k], k, s.nextId, clock))
    && (forall j, k | j in s.tasks && k in s.tasks && j < k :: s.tasks[j].createdAt < s.tasks[k].createdAt)
  }

  /** `INSERT ... RETURNING`: takes the next serial id, fills the status
      default and stamps both timestamps with the insertion time. When the
      sequence is exhausted the insert fails with a storage error. */
  function Insert(s: Store, row: NewRow, now: int): (r: Result<Written, Error>)
    ensures r.Failure? <==> s.nextId > MaxSerial
    ensures r.Failure? ==> r.error == StorageError
    ensures r.Success? ==>
      var t := r.value.task;
      && t.description == row.description
      && t.dueDate == row.dueDate
      && (row.status.None? ==> t.status == Backlog)
      && (row.status.Some? ==> t.status == row.status.value)
      && t.createdAt == now && t.updatedAt == now
      && t.id == s.nextId && r.value.store.nextId == s.nextId + 1
      && r.value.store.tasks.Keys == s.tasks.Keys + {t.id}
      && r.value.store.tasks[t.id] == t
      && (forall k | k in s.tasks && k != t.id :: r.value.store.tasks[k] == s.tasks[k])
  {
    if s.nextId > MaxSerial then Failure(StorageError)
    else
      var t := Task(s.nextId, row.description, row.dueDate, row.status.GetOr(Backlog), now, now);
      Success(Written(Store(s.tasks[t.id := t], s.nextId + 1), t))
  }

  /** Inserting into a valid store at a later instant picks an id no record
      holds, adds exactly one record and keeps the store valid. */
  lemma InsertPreservesValid(s: Store, row: NewRow, clock: int, now: int)
    requires Valid(s, clock) && clock < now
    requires |row.description| >= 1
    requires Insert(s, row, now).Success?
    ensures Insert(s, row, now).value.task.id !in s.tasks
    ensures |Insert(s, row, now).value.store.tasks| == |s.tasks| + 1
    ensures Valid(Insert(s, row, now).value.store, now)
  {
    var w := Insert(s, row, now).value;
    var t := w.task;
    assert t.id !in s.tasks;
    forall j, k | j in w.store.tasks && k in w.store.tasks && j < k
      ensures w.store.tasks[j].createdAt < w.store.tasks[k].createdAt
    {
      if k == t.id {
        assert RowValid(s.tasks[j], j, s.nextId, clock);
      }
    }
    forall k | k in w.store.tasks
      ensures RowValid(w.store.tasks[k], k, w.store.nextId, now)
    {
      if k != t.id {
        assert RowValid(s.tasks[k], k, s.nextId, clock);
      }
    }
  }

  /** The freshly created table satisfies the store invariant at any instant. */
  lemma EmptyValid(clock: int)
    ensures Valid(Empty, clock)
  {
  }

  /** In a valid store every record sits under its own id. */
  lemma KeyedById(s: Store, clock: int)
    requires Valid(s, clock)
    ensures forall k | k in s.tasks :: s.tasks[k].id == k
  {
  }
}
