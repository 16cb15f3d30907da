/** The client's local task list: the reducers that the create, update and
    delete handlers apply once the server has answered, the per-status counts,
    and the synchronisation invariant those reducers keep with the server's
    store. A server call is atomic: it either returns a reply or fails, and the
    local list is touched only after a reply. */
module App {
  import opened Wrappers
  import opened Schema
  import opened TaskTable
  import opened Handlers

  /** `[...prev, newTask]`: the created task goes at the end. */
  function AppendCreated(tasks: seq<Task>, created: Task): (r: seq<Task>)
    ensures |r| == |tasks| + 1
    ensures r[..|tasks|] == tasks && r[|tasks|] == created
    ensures Ids(r) == Ids(tasks) + {created.id}
  {
    tasks + [created]
  }

  /** `prev.map(task => task.id === updated.id ? updated : task)`. */
  function ReplaceUpdated(tasks: seq<Task>, updated: Task): (r: seq<Task>)
    ensures |r| == |tasks|
    ensures forall i | 0 <= i < |tasks| :: tasks[i].id == updated.id ==> r[i] == updated
    ensures forall i | 0 <= i < |tasks| :: tasks[i].id != updated.id ==> r[i] == tasks[i]
  {
    if |tasks| == 0 then []
    else [if tasks[0].id == updated.id then updated else tasks[0]] + ReplaceUpdated(tasks[1..], updated)
  }

  /** `prev.filter(task => task.id !== id)`. */
  function RemoveDeleted(tasks: seq<Task>, id: int): (r: seq<Task>)
    ensures forall t :: t in r <==> t in tasks && t.id != id
    ensures |r| <= |tasks|
    ensures (forall t | t in tasks :: t.id != id) ==> r == tasks
  {
    if |tasks| == 0 then []
    else (if tasks[0].id == id then [] else [tasks[0]]) + RemoveDeleted(tasks[1..], id)
  }

  /** Filtering keeps the survivors in their original order: it distributes
      over concatenation. */
  lemma {:induction false} RemoveDeletedConcat(a: seq<Task>, b: seq<Task>, id: int)
    ensures RemoveDeleted(a + b, id) == RemoveDeleted(a, id) + RemoveDeleted(b, id)
  {
    if |a| > 0 {
      var head := if a[0].id == id then [] else [a[0]];
      assert (a + b)[0] == a[0];
      assert (a + b)[1..] == a[1..] + b;
      assert RemoveDeleted(a + b, id) == head + RemoveDeleted(a[1..] + b, id);
      RemoveDeletedConcat(a[1..], b, id);
      assert RemoveDeleted(a, id) == head + RemoveDeleted(a[1..], id);
    } else {
      assert a + b == b;
    }
  }

  /** Prepending keeps ids distinct exactly when the new id is not already there. */
  lemma DistinctIdsCons(x: Task, ts: seq<Task>)
    ensures DistinctIds([x] + ts) <==> DistinctIds(ts) && forall t | t in ts :: t.id != x.id
  {
    var xs := [x] + ts;
    if DistinctIds(xs) {
      forall i, j | 0 <= i < j < |ts| ensures ts[i].id != ts[j].id {
        assert xs[i + 1] == ts[i] && xs[j + 1] == ts[j];
      }
      forall t | t in ts ensures t.id != x.id {
        var j :| 0 <= j < |ts| && ts[j] == t;
        assert xs[0] == x && xs[j + 1] == t;
      }
    }
  }

  /** Filtering a list with distinct ids leaves a list with distinct ids. */
  lemma {:induction false} RemoveDeletedDistinct(tasks: seq<Task>, id: int)
    requires DistinctIds(tasks)
    ensures DistinctIds(RemoveDeleted(tasks, id))
  {
    if |tasks| > 0 {
      var rest := tasks[1..];
      assert tasks == [tasks[0]] + rest;
      DistinctIdsCons(tasks[0], rest);
      RemoveDeletedDistinct(rest, id);
      if tasks[0].id != id {
        DistinctIdsCons(tasks[0], RemoveDeleted(rest, id));
      }
    }
  }

  /** The server's reply to a store operation, as the client receives it. */
  function Reply(r: Result<Written, Error>): Result<Task, Error> {
    match r
    case Success(w) => Success(w.task)
    case Failure(e) => Failure(e)
  }

  /** The store after a store operation: a failed operation changes nothing. */
  function StoreAfter(s: Store, r: Result<Written, Error>): Store {
    if r.Success? then r.value.store else s
  }

  /** `handleCreateTask`: the list changes only when the server replied. */
  function OnCreateReply(tasks: seq<Task>, reply: Result<Task, Error>): (r: seq<Task>)
    ensures reply.Failure? ==> r == tasks
    ensures reply.Success? ==> |r| == |tasks| + 1 && r[|tasks|] == reply.value && r[..|tasks|] == tasks
  {
    if reply.Success? then AppendCreated(tasks, reply.value) else tasks
  }

  /** `handleUpdateTask`: the list changes only when the server replied. */
  function OnUpdateReply(tasks: seq<Task>, reply: Result<Task, Error>): (r: seq<Task>)
    ensures |r| == |tasks|
    ensures reply.Failure? ==> r == tasks
    ensures reply.Success? ==> forall i | 0 <= i < |tasks| ::
      r[i] == (if tasks[i].id == reply.value.id then reply.value else tasks[i])
  {
    if reply.Success? then ReplaceUpdated(tasks, reply.value) else tasks
  }

  /** `handleDeleteTask`: once the server replied (whatever `success` says),
      every task with the id leaves the list; a failed call changes nothing. */
  function OnDeleteReply(tasks: seq<Task>, id: int, reply: Result<bool, Error>): (r: seq<Task>)
    ensures reply.Failure? ==> r == tasks
    ensures reply.Success? ==> forall t :: t in r <==> t in tasks && t.id != id
  {
    if reply.Success? then RemoveDeleted(tasks, id) else tasks
  }

  /** `getStatusCount`: how many tasks of the list have status `st`. */
  function StatusCount(tasks: seq<Task>, st: Status): (n: nat)
    ensures n <= |tasks|
    ensures n == 0 <==> forall t | t in tasks :: t.status != st
  {
    if |tasks| == 0 then 0
    else (if tasks[0].status == st then 1 else 0) + StatusCount(tasks[1..], st)
  }

  /** The three badges together count every task exactly once. */
  lemma {:induction false} StatusCountsSum(tasks: seq<Task>)
    ensures StatusCount(tasks, Backlog) + StatusCount(tasks, InProgress) + StatusCount(tasks, Done) == |tasks|
  {
    if |tasks| > 0 {
      StatusCountsSum(tasks[1..]);
    }
  }

  /** Counting distributes over concatenation. */
  lemma {:induction false} StatusCountConcat(a: seq<Task>, b: seq<Task>, st: Status)
    ensures StatusCount(a + b, st) == StatusCount(a, st) + StatusCount(b, st)
  {
    if |a| > 0 {
      assert (a + b)[1..] == a[1..] + b;
      StatusCountConcat(a[1..], b, st);
    } else {
      assert a + b == b;
    }
  }

  /** Taking one element out of a list lowers its count by that element's share. */
  lemma StatusCountRemoveAt(b: seq<Task>, k: int, st: Status)
    requires 0 <= k < |b|
    ensures StatusCount(b, st) == (if b[k].status == st then 1 else 0) + StatusCount(b[..k] + b[k + 1..], st)
  {
    assert b == b[..k] + ([b[k]] + b[k + 1..]);
    StatusCountConcat(b[..k], [b[k]] + b[k + 1..], st);
    StatusCountConcat([b[k]], b[k + 1..], st);
    StatusCountConcat(b[..k], b[k + 1..], st);
  }

  /** Taking out one occurrence of `a[0]` from a permutation of `a` leaves a
      permutation of `a[1..]`. */
  lemma MultisetRemoveAt(a: seq<Task>, b: seq<Task>, k: int)
    requires multiset(a) == multiset(b)
    requires |a| > 0 && 0 <= k < |b| && b[k] == a[0]
    ensures multiset(a[1..]) == multiset(b[..k] + b[k + 1..])
  {
    assert a == [a[0]] + a[1..];
    assert b == b[..k] + [b[k]] + b[k + 1..];
    calc {
      multiset(b[..k] + b[k + 1..]);
      multiset(b[..k]) + multiset(b[k + 1..]);
      multiset(b) - multiset{b[k]};
      multiset(a) - multiset{a[0]};
      multiset(a[1..]);
    }
  }

  /** The counts depend only on which tasks the list holds, not on their
      order: a reordered list (such as the sorted display list) counts the same. */
  lemma {:induction false} StatusCountPermutation(a: seq<Task>, b: seq<Task>, st: Status)
    requires multiset(a) == multiset(b)
    ensures StatusCount(a, st) == StatusCount(b, st)
    decreases |a|
  {
    if |a| == 0 {
      assert |b| == |multiset(b)| == 0;
    } else {
      assert a[0] in multiset(b);
      var k :| 0 <= k < |b| && b[k] == a[0];
      MultisetRemoveAt(a, b, k);
      StatusCountPermutation(a[1..], b[..k] + b[k + 1..], st);
      StatusCountRemoveAt(b, k, st);
    }
  }

  /** The local list mirrors the server's table: it holds exactly the stored
      records, as stored, each once. */
  predicate Mirrors(local: seq<Task>, tasks: map<int, Task>) {
    && (forall t | t in local :: t.id in tasks && tasks[t.id] == t)
    && (forall k | k in tasks :: tasks[k] in local)
    && DistinctIds(local)
  }

  /** The initial `loadTasks` makes the local list a mirror of the table. */
  lemma LoadMirrors(s: Store, clock: int)
    requires Valid(s, clock)
    ensures Mirrors(GetTasks(s), s.tasks)
  {
    GetTasksContract(s, clock);
  }

  /** Adding a record under a fresh id on both sides keeps a mirror. */
  lemma AppendKeepsMirror(local: seq<Task>, tasks: map<int, Task>, t: Task, tasks': map<int, Task>)
    requires Mirrors(local, tasks)
    requires t.id !in tasks
    requires tasks'.Keys == tasks.Keys + {t.id} && tasks'[t.id] == t
    requires forall k | k in tasks :: tasks'[k] == tasks[k]
    ensures Mirrors(AppendCreated(local, t), tasks')
  {
    var local' := AppendCreated(local, t);
    assert local' == local + [t];
    forall u | u in local' ensures u.id in tasks' && tasks'[u.id] == u {
      if u != t {
        assert u in local;
      }
    }
    forall k | k in tasks' ensures tasks'[k] in local' {
      if k != t.id {
        assert tasks[k] in local;
      }
    }
    forall i, j | 0 <= i < j < |local'| ensures local'[i].id != local'[j].id {
      if j == |local| {
        assert local[i] in local;
      }
    }
  }

  /** A create, successful or not, keeps the local list a mirror of the table. */
  lemma CreateKeepsMirror(local: seq<Task>, s: Store, clock: int, input: CreateInput, now: int)
    requires Valid(s, clock) && clock < now
    requires Mirrors(local, s.tasks)
    ensures
      var r := CreateTask(s, input, now);
      Mirrors(OnCreateReply(local, Reply(r)), StoreAfter(s, r).tasks)
  {
    var r := CreateTask(s, input, now);
    if r.Success? {
      CreateTaskFresh(s, input, clock, now);
      AppendKeepsMirror(local, s.tasks, r.value.task, r.value.store.tasks);
    }
  }

  /** Every element of the replaced list is the stored record for its id. */
  lemma ReplaceStored(local: seq<Task>, tasks: map<int, Task>, t: Task, tasks': map<int, Task>)
    requires forall u | u in local :: u.id in tasks && tasks[u.id] == u
    requires tasks'.Keys == tasks.Keys
    requires t.id in tasks' && tasks'[t.id] == t
    requires forall k | k in tasks && k != t.id :: tasks'[k] == tasks[k]
    ensures forall u | u in ReplaceUpdated(local, t) :: u.id in tasks' && tasks'[u.id] == u
  {
    var local' := ReplaceUpdated(local, t);
    forall u | u in local' ensures u.id in tasks' && tasks'[u.id] == u {
      var i :| 0 <= i < |local'| && local'[i] == u;
      if local[i].id != t.id {
        assert local[i] in local;
      }
    }
  }

  /** Every stored record appears in the replaced list. */
  lemma ReplaceComplete(local: seq<Task>, tasks: map<int, Task>, t: Task, tasks': map<int, Task>)
    requires forall k | k in tasks :: tasks[k] in local
    requires forall k | k in tasks :: tasks[k].id == k
    requires tasks'.Keys == tasks.Keys && t.id in tasks && tasks'[t.id] == t
    requires forall k | k in tasks && k != t.id :: tasks'[k] == tasks[k]
    ensures forall k | k in tasks' :: tasks'[k] in ReplaceUpdated(local, t)
  {
    var local' := ReplaceUpdated(local, t);
    forall k | k in tasks' ensures tasks'[k] in local' {
      assert tasks[k] in local;
      var i :| 0 <= i < |local| && local[i] == tasks[k];
      assert local'[i] == tasks'[k];
    }
  }

  /** Replacing elements by a task with the same id keeps ids distinct. */
  lemma ReplaceDistinct(local: seq<Task>, t: Task)
    requires DistinctIds(local)
    ensures DistinctIds(ReplaceUpdated(local, t))
  {
    var local' := ReplaceUpdated(local, t);
    forall i, j | 0 <= i < j < |local'| ensures local'[i].id != local'[j].id {
      assert local[i].id != local[j].id;
    }
  }

  /** Replacing one record on both sides keeps a mirror, provided records are
      keyed by their own ids. */
  lemma ReplaceKeepsMirror(local: seq<Task>, tasks: map<int, Task>, t: Task, tasks': map<int, Task>)
    requires Mirrors(local, tasks)
    requires forall k | k in tasks :: tasks[k].id == k
    requires t.id in tasks
    requires tasks'.Keys == tasks.Keys && tasks'[t.id] == t
    requires forall k | k in tasks && k != t.id :: tasks'[k] == tasks[k]
    ensures Mirrors(ReplaceUpdated(local, t), tasks')
  {
    ReplaceStored(local, tasks, t, tasks');
    ReplaceComplete(local, tasks, t, tasks');
    ReplaceDistinct(local, t);
  }

  /** An update, successful or not, keeps the local list a mirror of the table. */
  lemma UpdateKeepsMirror(local: seq<Task>, s: Store, clock: int, input: UpdateInput, now: int)
    requires Valid(s, clock) && clock < now
    requires Mirrors(local, s.tasks)
    ensures
      var r := UpdateTask(s, input, now);
      Mirrors(OnUpdateReply(local, Reply(r)), StoreAfter(s, r).tasks)
  {
    var r := UpdateTask(s, input, now);
    if r.Success? {
      UpdateTaskAdvances(s, input, clock, now);
      KeyedById(s, clock);
      ReplaceKeepsMirror(local, s.tasks, r.value.task, r.value.store.tasks);
    }
  }

  /** Removing one key on both sides keeps a mirror, provided records are
      keyed by their own ids. */
  lemma {:induction false} RemoveKeepsMirror(local: seq<Task>, tasks: map<int, Task>, id: int)
    requires Mirrors(local, tasks)
    requires forall k | k in tasks :: tasks[k].id == k
    ensures Mirrors(RemoveDeleted(local, id), tasks - {id})
  {
    RemoveDeletedDistinct(local, id);
  }

  /** A delete, whatever its outcome, keeps the local list a mirror of the table. */
  lemma DeleteKeepsMirror(local: seq<Task>, s: Store, clock: int, input: DeleteInput, reply: Result<bool, Error>)
    requires Valid(s, clock)
    requires Mirrors(local, s.tasks)
    requires reply.Success? ==> reply.value == DeleteTask(s, input).success
    ensures
      var s' := if reply.Success? then DeleteTask(s, input).store else s;
      Mirrors(OnDeleteReply(local, input.id, reply), s'.tasks)
  {
    if reply.Success? {
      KeyedById(s, clock);
      RemoveKeepsMirror(local, s.tasks, input.id);
      assert DeleteTask(s, input).store.tasks == s.tasks - {input.id};
    }
  }

  /** A list with distinct ids holds each task at most once. */
  lemma {:induction false} DistinctIdsNoDuplicates(ts: seq<Task>, t: Task)
    requires DistinctIds(ts)
    ensures multiset(ts)[t] == if t in ts then 1 else 0
  {
    if |ts| > 0 {
      var rest := ts[1..];
      assert DistinctIds(rest) by {
        forall i, j | 0 <= i < j < |rest| ensures rest[i].id != rest[j].id {
          assert rest[i] == ts[i + 1] && rest[j] == ts[j + 1];
        }
      }
      DistinctIdsNoDuplicates(rest, t);
      assert ts == [ts[0]] + rest;
      assert multiset(ts) == multiset{ts[0]} + multiset(rest);
    }
  }

  /** A mirrored local list is a reordering of what `getTasks` would return
      now, so the badge counts it shows are the table's counts. */
  lemma MirrorIsPermutation(local: seq<Task>, s: Store, clock: int, st: Status)
    requires Valid(s, clock)
    requires Mirrors(local, s.tasks)
    ensures multiset(local) == multiset(GetTasks(s))
    ensures StatusCount(local, st) == StatusCount(GetTasks(s), st)
  {
    LoadMirrors(s, clock);
    var listed := GetTasks(s);
    forall t ensures multiset(local)[t] == multiset(listed)[t] {
      DistinctIdsNoDuplicates(local, t);
      DistinctIdsNoDuplicates(listed, t);
      if t in local {
        assert s.tasks[t.id] in listed;
      }
      if t in listed {
        assert s.tasks[t.id] in local;
      }
    }
    assert multiset(local) == multiset(listed);
    StatusCountPermutation(local, listed, st);
  }
}
