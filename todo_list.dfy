/** The to-do list of one session: the author it belongs to and the tasks
    added so far, in order, saved by appending them to the task store. */
module TodoList {
  import opened Types
  import opened CsvStore
  import opened Tasks
  import Authors
  import TaskUtils

  /** The rows the task store receives for `tasks`, one each, in order. */
  function Serialized(tasks: seq<TaskRecord>): (rows: seq<TaskRow>)
    ensures |rows| == |tasks|
    ensures forall i :: 0 <= i < |tasks| ==> rows[i] == ToRow(tasks[i])
  {
    seq(|tasks|, i requires 0 <= i < |tasks| => ToRow(tasks[i]))
  }

  /** The list owns its tasks: `add` moves a task in and nothing hands out
      a mutable reference afterwards, so the list holds task values. */
  class ToDoList {
    const author: Authors.Author
    var tasks: seq<TaskRecord>

    /** `ToDoList::build`: never fails, and starts empty. */
    constructor Build(author: Authors.Author)
      ensures this.author == author && tasks == []
    {
      this.author := author;
      tasks := [];
    }

    /** `add`: appends at the end, with no check for duplicates. */
    method Add(task: Task)
      modifies this`tasks
      ensures tasks == old(tasks) + [task.Record()]
    {
      tasks := tasks + [task.Record()];
    }

    /** `write_to_csv`: opens (creating) the file, notes whether it was
        empty, and serialises every task in order through a writer that
        puts the header in front of the first row when the file was empty.
        The list itself is not modified. */
    method WriteToCsv(file: CsvFile<TaskRow>) returns (r: Result<()>)
      requires file.Valid()
      modifies file
      ensures file.Valid()
      ensures r == if file.writable then Ok(()) else Err(IoError)
      ensures file.present == (old(file.present) || file.writable)
      ensures file.lines == if r.Ok? then Appended(old(file.lines), Serialized(tasks)) else old(file.lines)
    {
      var canAppend := file.OpenAppendCreate();
      if !canAppend {
        return Err(IoError);
      }
      var isEmpty := file.lines == [];
      var rows := Serialized(tasks);
      var i := 0;
      while i < |rows|
        invariant i <= |rows|
        invariant file.Valid() && file.present
        invariant file.lines == old(file.lines) + (if isEmpty && i > 0 then [Header] else []) + Rows(rows[..i])
      {
        file.Serialize(rows[i], isEmpty && i == 0);
        assert Rows(rows[..i + 1]) == Rows(rows[..i]) + [Row(rows[i])];
        i := i + 1;
      }
      assert rows[..i] == rows;
      r := Ok(());
    }
  }

  /** After a save, the lines after the first, as a reader keyed on the
      header would see them, are the rows that were there followed by one
      row per task, in list order. Nothing in the program reads the task
      store; this describes the file. Each task's labels can be recovered
      from its row when they are non-empty and free of commas. */
  lemma SavedTasksReadBack(lines: seq<Line<TaskRow>>, tasks: seq<TaskRecord>, i: int)
    requires HeaderFirst(lines) && 0 <= i < |tasks|
    ensures var records := DataLines(Appended(lines, Serialized(tasks)));
      && |records| == |DataLines(lines)| + |tasks|
      && records[..|DataLines(lines)|] == DataLines(lines)
      && records[|DataLines(lines)| + i] == Row(ToRow(tasks[i]))
    ensures |tasks[i].labels| >= 1 && TaskUtils.CommaFree(tasks[i].labels) ==>
      TaskUtils.SplitOnComma(ToRow(tasks[i]).labels) == tasks[i].labels
  {
    AppendedShape(lines, Serialized(tasks));
    var records := DataLines(Appended(lines, Serialized(tasks)));
    assert records == DataLines(lines) + Rows(Serialized(tasks));
    if |tasks[i].labels| >= 1 && TaskUtils.CommaFree(tasks[i].labels) {
      TaskUtils.SplitSerialize(tasks[i].labels);
    }
  }
}
