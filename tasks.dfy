/** A to-do item: its fields, its construction from the task form, the
    mutators that edit it in place, and the row it becomes in the task
    store. */
module Tasks {
  import opened Types
  import opened TaskUtils
  import Authors

  datatype Priority = Low | Medium | High

  datatype Status = Pending | InProgress | Complete

  /** `Priority::set`: codes 1, 2 and 3 name the three levels; every other
      code falls back to `Medium` without an error. */
  function PriorityFromCode(value: u32): (p: Priority)
    ensures p == Low <==> value == 1
    ensures p == High <==> value == 3
    ensures p == Medium <==> value != 1 && value != 3
  {
    match value
    case 1 => Low
    case 2 => Medium
    case 3 => High
    case _ => Medium
  }

  /** The value of every field of a task. */
  datatype TaskRecord = TaskRecord(
    id: Uuid,
    name: string,
    description: Option<string>,
    createdOn: Timestamp,
    dueDate: Option<Timestamp>,
    priority: Priority,
    status: Status,
    labels: seq<string>,
    completedOn: Option<Timestamp>,
    createdBy: string)

  /** `Task::new`. The UUID and the clock reading are inputs, and so is the
      due-date parser. Only an unparsable due date fails; a fresh task is
      pending, not completed, and records its author by name. */
  function NewTask(name: string, description: Option<string>, dueDate: Option<string>, priority: u32,
                   labels: seq<string>, author: Authors.Author,
                   parse: string -> Option<Timestamp>, id: Uuid, now: Timestamp): (r: Result<TaskRecord>)
    ensures r.Err? <==> dueDate.Some? && parse(dueDate.value).None?
    ensures r.Err? ==> r.error == DateParserError
    ensures r.Ok? ==>
      && r.value.id == id && r.value.name == name && r.value.description == description
      && r.value.createdOn == now
      && r.value.dueDate == (if dueDate.Some? then parse(dueDate.value) else None)
      && r.value.priority == PriorityFromCode(priority)
      && r.value.status == Pending
      && r.value.labels == labels
      && r.value.completedOn == None
      && r.value.createdBy == author.name
  {
    var due: Result<Option<Timestamp>> :=
      match dueDate
      case None => Ok(None)
      case Some(text) =>
        (match ParseDueDate(parse, text)
         case Ok(t) => Ok(Some(t))
         case Err(e) => Err(e));
    match due
    case Err(e) => Err(e)
    case Ok(date) =>
      Ok(TaskRecord(id, name, description, now, date, PriorityFromCode(priority), Pending, labels, None, author.name))
  }

  /** A task. Its identity (`id`, `name`, `createdOn`, `dueDate`,
      `createdBy`) is fixed at construction; the other fields change only
      through the mutators, each of which assigns its own field alone. */
  class Task {
    const id: Uuid
    const name: string
    var description: Option<string>
    const createdOn: Timestamp
    const dueDate: Option<Timestamp>
    var priority: Priority
    var status: Status
    var labels: seq<string>
    var completedOn: Option<Timestamp>
    const createdBy: string

    function Record(): TaskRecord
      reads this
    {
      TaskRecord(id, name, description, createdOn, dueDate, priority, status, labels, completedOn, createdBy)
    }

    constructor FromRecord(t: TaskRecord)
      ensures Record() == t
    {
      id, name, description, createdOn, dueDate := t.id, t.name, t.description, t.createdOn, t.dueDate;
      priority, status, labels, completedOn, createdBy := t.priority, t.status, t.labels, t.completedOn, t.createdBy;
    }

    /** `Task::new` as the source calls it: a fresh task, or the error. */
    static method New(name: string, description: Option<string>, dueDate: Option<string>, priority: u32,
                      labels: seq<string>, author: Authors.Author,
                      parse: string -> Option<Timestamp>, id: Uuid, now: Timestamp) returns (r: Result<Task>)
      ensures var spec := NewTask(name, description, dueDate, priority, labels, author, parse, id, now);
        && (r.Ok? <==> spec.Ok?)
        && (r.Err? ==> r.error == spec.error)
        && (r.Ok? ==> fresh(r.value) && r.value.Record() == spec.value)
    {
      var spec := NewTask(name, description, dueDate, priority, labels, author, parse, id, now);
      if spec.Err? {
        return Err(spec.error);
      }
      var task := new Task.FromRecord(spec.value);
      return Ok(task);
    }

    /** `update_description`: the description becomes `Some(desc)`, whatever it was. */
    method UpdateDescription(desc: string)
      modifies this`description
      ensures Record() == old(Record()).(description := Some(desc))
    {
      description := Some(desc);
    }

    /** `change_priority`: the same coercion as `Task::new`. */
    method ChangePriority(value: u32)
      modifies this`priority
      ensures Record() == old(Record()).(priority := PriorityFromCode(value))
    {
      priority := PriorityFromCode(value);
    }

    /** `update_status`: `completedOn` is left alone, even for `Complete`. */
    method UpdateStatus(newStatus: Status)
      modifies this`status
      ensures Record() == old(Record()).(status := newStatus)
    {
      status := newStatus;
    }

    method UpdateLabels(newLabels: seq<string>)
      modifies this`labels
      ensures Record() == old(Record()).(labels := newLabels)
    {
      labels := newLabels;
    }

    /** `mark_completed`: stamps the clock reading, whatever was there
        before and without an error on a repeated call; `status` is left
        alone. */
    method MarkCompleted(now: Timestamp)
      modifies this`completedOn
      ensures Record() == old(Record()).(completedOn := Some(now))
    {
      completedOn := Some(now);
    }
  }

  // ---------------------------------------------------------------------
  // The task as a row of the task store

  /** The serialised form of a task: every field as it is, except the
      labels, which `serialize_labels` turns into one column. */
  datatype TaskRow = TaskRow(
    id: Uuid,
    name: string,
    description: Option<string>,
    createdOn: Timestamp,
    dueDate: Option<Timestamp>,
    priority: Priority,
    status: Status,
    labels: string,
    completedOn: Option<Timestamp>,
    createdBy: string)

  function ToRow(t: TaskRecord): TaskRow {
    TaskRow(t.id, t.name, t.description, t.createdOn, t.dueDate, t.priority, t.status,
            SerializeLabels(t.labels), t.completedOn, t.createdBy)
  }

  /** The row keeps every field but the label list, which can be read back
      when it is non-empty and no label holds a comma. */
  lemma RowRoundTrip(t: TaskRecord)
    ensures var row := ToRow(t);
      var back := TaskRecord(row.id, row.name, row.description, row.createdOn, row.dueDate, row.priority,
                             row.status, SplitOnComma(row.labels), row.completedOn, row.createdBy);
      && back.(labels := t.labels) == t
      && (|t.labels| >= 1 && CommaFree(t.labels) ==> back == t)
  {
    if |t.labels| >= 1 && CommaFree(t.labels) {
      SplitSerialize(t.labels);
    }
  }
}
