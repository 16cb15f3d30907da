/** The task entity and the input schemas of the server: the closed status
    enumeration, the task record, and the validators for the create, update
    and delete inputs. A validator either yields a typed input or a
    `ValidationError` naming every offending field, in the order the schema
    declares them. */
module Schema {
  import opened Wrappers

  /** The closed status enumeration. */
  datatype Status = Backlog | InProgress | Done

  /** The wire name of a status. */
  function StatusName(st: Status): (name: string)
    ensures ParseStatus(name) == Some(st)
  {
    match st
    case Backlog => "Backlog"
    case InProgress => "In Progress"
    case Done => "Done"
  }

  /** Reads a status from its wire name; every other string is rejected. */
  function ParseStatus(s: string): (r: Option<Status>)
    ensures r == Some(Backlog) <==> s == "Backlog"
    ensures r == Some(InProgress) <==> s == "In Progress"
    ensures r == Some(Done) <==> s == "Done"
  {
    if s == "Backlog" then Some(Backlog)
    else if s == "In Progress" then Some(InProgress)
    else if s == "Done" then Some(Done)
    else None
  }

  /** A stored task. Timestamps and due dates are integer instants. */
  datatype Task = Task(
    id: int,
    description: string,
    dueDate: int,
    status: Status,
    createdAt: int,
    updatedAt: int)

  /** A description that passes the `min(1)` rule. No trimming is applied. */
  type NonEmptyString = s: string | |s| >= 1 witness "-"

  /** The fields a validation error can name. */
  datatype Field = IdField | DescriptionField | DueDateField | StatusField

  /** The error kinds an operation can raise. */
  datatype Error =
    | ValidationError(fields: seq<Field>)
    | NotFound(id: int)
    | StorageError

  /** An untrusted date value: left out, not a date, or a valid instant. */
  datatype DateInput = Missing | Unparseable | Instant(time: int)

  datatype RawCreateInput = RawCreateInput(description: Option<string>, dueDate: DateInput, status: Option<string>)
  datatype CreateInput = CreateInput(description: NonEmptyString, dueDate: int, status: Status)

  datatype RawUpdateInput = RawUpdateInput(id: Option<int>, description: Option<string>, dueDate: DateInput, status: Option<string>)
  datatype UpdateInput = UpdateInput(id: int, description: Option<NonEmptyString>, dueDate: Option<int>, status: Option<Status>)

  datatype RawDeleteInput = RawDeleteInput(id: Option<int>)
  datatype DeleteInput = DeleteInput(id: int)

  /** The field `f` as an issue list: empty when the field passed. */
  function Issue(passed: bool, f: Field): seq<Field> {
    if passed then [] else [f]
  }

  /** A status field passes when it is absent or names one of the three statuses. */
  predicate StatusAcceptable(s: Option<string>) {
    s.None? || ParseStatus(s.value).Some?
  }

  /** Validation of a create input: a required non-empty description, a
      required valid date, and an optional status that defaults to `Backlog`. */
  function ValidateCreate(raw: RawCreateInput): (r: Result<CreateInput, Error>)
    ensures r.Success? <==>
      && raw.description.Some? && raw.description.value != ""
      && raw.dueDate.Instant?
      && (raw.status.None? || raw.status.value in {"Backlog", "In Progress", "Done"})
    ensures r.Success? ==>
      && r.value.description == raw.description.value
      && r.value.dueDate == raw.dueDate.time
      && (raw.status.None? ==> r.value.status == Backlog)
      && (raw.status.Some? ==> StatusName(r.value.status) == raw.status.value)
    ensures r.Failure? ==>
      && r.error.ValidationError?
      && (DescriptionField in r.error.fields <==> raw.description.None? || raw.description.value == "")
      && (DueDateField in r.error.fields <==> !raw.dueDate.Instant?)
      && (StatusField in r.error.fields <==> raw.status.Some? && ParseStatus(raw.status.value).None?)
      && IdField !in r.error.fields
  {
    var issues :=
      Issue(raw.description.Some? && |raw.description.value| >= 1, DescriptionField)
      + Issue(raw.dueDate.Instant?, DueDateField)
      + Issue(StatusAcceptable(raw.status), StatusField);
    if issues != [] then Failure(ValidationError(issues))
    else
      var status := if raw.status.None? then Backlog else ParseStatus(raw.status.value).value;
      Success(CreateInput(raw.description.value, raw.dueDate.time, status))
  }

  /** Validation of an update input: a required id, and a description, a date
      and a status that are each optional and checked only when present. */
  function ValidateUpdate(raw: RawUpdateInput): (r: Result<UpdateInput, Error>)
    ensures r.Success? <==>
      && raw.id.Some?
      && (raw.description.None? || raw.description.value != "")
      && !raw.dueDate.Unparseable?
      && (raw.status.None? || raw.status.value in {"Backlog", "In Progress", "Done"})
    ensures r.Success? ==>
      && r.value.id == raw.id.value
      && r.value.description == raw.description
      && (raw.dueDate.Missing? <==> r.value.dueDate.None?)
      && (raw.dueDate.Instant? ==> r.value.dueDate == Some(raw.dueDate.time))
      && (raw.status.None? <==> r.value.status.None?)
      && (raw.status.Some? ==> StatusName(r.value.status.value) == raw.status.value)
    ensures r.Failure? ==>
      && r.error.ValidationError?
      && (IdField in r.error.fields <==> raw.id.None?)
      && (DescriptionField in r.error.fields <==> raw.description.Some? && raw.description.value == "")
      && (DueDateField in r.error.fields <==> raw.dueDate.Unparseable?)
      && (StatusField in r.error.fields <==> raw.status.Some? && ParseStatus(raw.status.value).None?)
    ensures raw.id.Some? && raw.description.None? && raw.dueDate.Missing? && raw.status.None? ==>
      r == Success(UpdateInput(raw.id.value, None, None, None))
  {
    var issues :=
      Issue(raw.id.Some?, IdField)
      + Issue(raw.description.None? || |raw.description.value| >= 1, DescriptionField)
      + Issue(!raw.dueDate.Unparseable?, DueDateField)
      + Issue(StatusAcceptable(raw.status), StatusField);
    if issues != [] then Failure(ValidationError(issues))
    else
      var description: Option<NonEmptyString> :=
        if raw.description.None? then None else Some(raw.description.value);
      var dueDate := if raw.dueDate.Missing? then None else Some(raw.dueDate.time);
      var status := if raw.status.None? then None else ParseStatus(raw.status.value);
      Success(UpdateInput(raw.id.value, description, dueDate, status))
  }

  /** Validation of a delete input: it carries only the id. */
  function ValidateDelete(raw: RawDeleteInput): (r: Result<DeleteInput, Error>)
    ensures r.Success? <==> raw.id.Some?
    ensures r.Success? ==> r.value.id == raw.id.value
    ensures r.Failure? ==> r.error == ValidationError([IdField])
  {
    if raw.id.None? then Failure(ValidationError([IdField]))
    else Success(DeleteInput(raw.id.value))
  }

  /** The set of ids held by a list of tasks. */
  function Ids(ts: seq<Task>): set<int> {
    set t | t in ts :: t.id
  }

  /** No two positions of the list hold the same id. */
  predicate DistinctIds(ts: seq<Task>) {
    forall i, j | 0 <= i < j < |ts| :: ts[i].id != ts[j].id
  }

  /** A list with distinct ids has as many ids as elements. */
  lemma {:induction false} DistinctIdsCardinality(ts: seq<Task>)
    requires DistinctIds(ts)
    ensures |Ids(ts)| == |ts|
  {
    if |ts| > 0 {
      var rest := ts[1..];
      assert DistinctIds(rest) by {
        forall i, j | 0 <= i < j < |rest|
          ensures rest[i].id != rest[j].id
        {
          assert rest[i] == ts[i + 1] && rest[j] == ts[j + 1];
        }
      }
      DistinctIdsCardinality(rest);
      assert ts == [ts[0]] + rest;
      assert Ids(ts) == {ts[0].id} + Ids(rest) by {
        forall x | x in Ids(ts) ensures x in {ts[0].id} + Ids(rest) {
          var t :| t in ts && t.id == x;
          if t != ts[0] { assert t in rest; }
        }
      }
      assert ts[0].id !in Ids(rest) by {
        forall i | 0 <= i < |rest| ensures rest[i].id != ts[0].id {
          assert rest[i] == ts[i + 1];
        }
      }
    }
  }
}
