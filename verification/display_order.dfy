/** The order in which the client displays tasks (`sortedTasks`): by status
    rank, Backlog before In Progress before Done, and within one status by
    due date, earliest first. The list is sorted with the comparator below by
    a stable sort, so tasks the comparator ties keep their list order. */
module DisplayOrder {
  import opened Schema

  /** The `statusOrder` table. */
  function Rank(st: Status): (r: int)
    ensures 0 <= r <= 2
    ensures st == Backlog <==> r == 0
    ensures st == Done <==> r == 2
  {
    match st
    case Backlog => 0
    case InProgress => 1
    case Done => 2
  }

  /** The comparator handed to `sort`: negative when `a` goes first, positive
      when `b` goes first, zero when they tie. Read in terms of the task
      fields: status rank first, due date second. */
  function Compare(a: Task, b: Task): (c: int)
    ensures c <= 0 <==>
      Rank(a.status) < Rank(b.status) || (a.status == b.status && a.dueDate <= b.dueDate)
    ensures c == 0 <==> a.status == b.status && a.dueDate == b.dueDate
  {
    if Rank(a.status) != Rank(b.status) then Rank(a.status) - Rank(b.status)
    else a.dueDate - b.dueDate
  }

  /** Every earlier element compares at most equal to every later one. */
  predicate Sorted(ts: seq<Task>) {
    forall i, j | 0 <= i < j < |ts| :: Compare(ts[i], ts[j]) <= 0
  }

  /** The comparator is a valid `sort` comparator: a total preorder whose
      sign flips with its arguments. */
  lemma CompareTotalPreorder(a: Task, b: Task, c: Task)
    ensures Compare(a, b) == -Compare(b, a)
    ensures Compare(a, b) <= 0 || Compare(b, a) <= 0
    ensures Compare(a, b) <= 0 && Compare(b, c) <= 0 ==> Compare(a, c) <= 0
    ensures Compare(a, b) == 0 && Compare(b, c) == 0 ==> Compare(a, c) == 0
  {
  }

  /** Inserts `x` before the first element it does not follow; placing it
      before the elements it ties with keeps the sort stable. */
  function InsertByCompare(x: Task, ts: seq<Task>): (r: seq<Task>)
    ensures multiset(r) == multiset(ts) + multiset{x}
    ensures |r| == |ts| + 1
  {
    if |ts| == 0 then [x]
    else if Compare(x, ts[0]) <= 0 then [x] + ts
    else
      assert ts == [ts[0]] + ts[1..];
      [ts[0]] + InsertByCompare(x, ts[1..])
  }

  /** `[...tasks].sort(compare)`: a stable insertion sort. */
  function SortTasks(ts: seq<Task>): (r: seq<Task>)
    ensures multiset(r) == multiset(ts)
    ensures |r| == |ts|
  {
    if |ts| == 0 then []
    else
      assert ts == [ts[0]] + ts[1..];
      InsertByCompare(ts[0], SortTasks(ts[1..]))
  }

  /** Inserting into a sorted list leaves it sorted. */
  lemma {:induction false} InsertByCompareSorted(x: Task, ts: seq<Task>)
    requires Sorted(ts)
    ensures Sorted(InsertByCompare(x, ts))
  {
    var r := InsertByCompare(x, ts);
    if |ts| == 0 {
    } else if Compare(x, ts[0]) <= 0 {
      forall j | 1 <= j < |r| ensures Compare(r[0], r[j]) <= 0 {
        assert r[j] == ts[j - 1];
        assert Compare(ts[0], ts[j - 1]) <= 0 || j - 1 == 0;
      }
    } else {
      var rest := ts[1..];
      assert Sorted(rest) by {
        forall i, j | 0 <= i < j < |rest| ensures Compare(rest[i], rest[j]) <= 0 {
          assert rest[i] == ts[i + 1] && rest[j] == ts[j + 1];
        }
      }
      InsertByCompareSorted(x, rest);
      var tail := InsertByCompare(x, rest);
      assert r == [ts[0]] + tail;
      forall j | 1 <= j < |r| ensures Compare(r[0], r[j]) <= 0 {
        assert r[j] == tail[j - 1];
        assert r[j] in multiset(tail);
        if r[j] != x {
          assert r[j] in multiset(rest);
          var k :| 0 <= k < |rest| && rest[k] == r[j];
          assert ts[k + 1] == r[j];
        }
      }
    }
  }

  /** The display list is sorted and is a permutation of the task list. */
  lemma {:induction false} SortTasksSorted(ts: seq<Task>)
    ensures Sorted(SortTasks(ts))
    ensures multiset(SortTasks(ts)) == multiset(ts)
  {
    if |ts| > 0 {
      SortTasksSorted(ts[1..]);
      InsertByCompareSorted(ts[0], SortTasks(ts[1..]));
    }
  }

  /** What sortedness means for the display: statuses appear in rank order,
      and within one status due dates never decrease. */
  lemma SortedByStatusThenDue(ts: seq<Task>)
    requires Sorted(ts)
    ensures forall i, j | 0 <= i < j < |ts| :: Rank(ts[i].status) <= Rank(ts[j].status)
    ensures forall i, j | 0 <= i < j < |ts| && ts[i].status == ts[j].status :: ts[i].dueDate <= ts[j].dueDate
  {
  }

  /** The tasks of `ts` that tie with `x`, in list order. */
  function Ties(ts: seq<Task>, x: Task): seq<Task> {
    if |ts| == 0 then []
    else (if Compare(ts[0], x) == 0 then [ts[0]] else []) + Ties(ts[1..], x)
  }

  /** Inserting `y` adds it to its tie group at the front and leaves every
      other tie group as it was. */
  lemma {:induction false} TiesInsertByCompare(y: Task, ts: seq<Task>, x: Task)
    ensures Ties(InsertByCompare(y, ts), x) == (if Compare(y, x) == 0 then [y] else []) + Ties(ts, x)
  {
    if |ts| > 0 && Compare(y, ts[0]) > 0 {
      var r := InsertByCompare(y, ts);
      assert r[0] == ts[0] && r[1..] == InsertByCompare(y, ts[1..]);
      TiesInsertByCompare(y, ts[1..], x);
      if Compare(ts[0], x) == 0 {
        assert ts[0].status == x.status && ts[0].dueDate == x.dueDate;
        assert Compare(y, x) != 0;
      }
    } else if |ts| > 0 {
      assert InsertByCompare(y, ts)[1..] == ts;
    }
  }

  /** The sort is stable: tasks with the same status and due date appear in
      the display list in the same relative order as in the task list. */
  lemma {:induction false} SortTasksStable(ts: seq<Task>, x: Task)
    ensures Ties(SortTasks(ts), x) == Ties(ts, x)
  {
    if |ts| > 0 {
      SortTasksStable(ts[1..], x);
      TiesInsertByCompare(ts[0], SortTasks(ts[1..]), x);
    }
  }
}
