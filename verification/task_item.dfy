/** The per-task view logic of the client: the overdue flag and the status
    badge label. `today` is the client's current instant. */
module TaskItem {
  import opened Wrappers
  import opened Schema
  import opened TaskTable
  import opened Handlers

  /** `isOverdue`: the due date lies before the current instant `today` (an
      instant, not a calendar day) and the task is not done. */
  function IsOverdue(t: Task, today: int): (overdue: bool)
    ensures t.status == Done ==> !overdue
    ensures t.status != Done && t.dueDate < today ==> overdue
    ensures t.dueDate >= today ==> !overdue
  {
    t.dueDate < today && t.status != Done
  }

  /** Once overdue, a task stays overdue as time passes, until it changes. */
  lemma OverdueStaysOverdue(t: Task, today: int, later: int)
    requires today <= later
    ensures IsOverdue(t, today) ==> IsOverdue(t, later)
  {
  }

  /** Moving a task to Done through an update clears its overdue flag, and an
      update that supplies neither a due date nor a status leaves the flag as
      it was. */
  lemma UpdateAndOverdue(s: Store, input: UpdateInput, now: int, today: int)
    requires UpdateTask(s, input, now).Success?
    ensures input.status == Some(Done) ==> !IsOverdue(UpdateTask(s, input, now).value.task, today)
    ensures input.dueDate.None? && input.status.None? ==>
      (IsOverdue(UpdateTask(s, input, now).value.task, today) <==> IsOverdue(s.tasks[input.id], today))
  {
  }

  /** The icon each status's badge starts with. */
  function Icon(st: Status): char {
    match st
    case Backlog => '\U{1F4CB}'
    case InProgress => '\U{1F680}'
    case Done => '\U{2705}'
  }

  /** `getStatusBadge`: the label shown for a status value; a value outside
      the enumeration falls to the default branch. */
  function BadgeLabel(status: string): (badge: string)
    ensures badge == "Unknown" <==> ParseStatus(status).None?
    ensures ParseStatus(status).Some? ==>
      && |badge| > 2
      && badge[0] == Icon(ParseStatus(status).value)
      && badge[1] == ' '
      && badge[2..] == status
  {
    if status == "Backlog" then [Icon(Backlog)] + " Backlog"
    else if status == "In Progress" then [Icon(InProgress)] + " In Progress"
    else if status == "Done" then [Icon(Done)] + " Done"
    else "Unknown"
  }

  /** Every status has its own badge, and none shows `Unknown`. */
  lemma BadgeLabelsDistinct(a: Status, b: Status)
    ensures BadgeLabel(StatusName(a)) != "Unknown"
    ensures a != b ==> BadgeLabel(StatusName(a)) != BadgeLabel(StatusName(b))
  {
  }
}
