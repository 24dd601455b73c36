/** The collection operations of controllers.py. They work on a list of
    tasks that the caller owns and passes in; add_task and delete_task update
    it in place. A CSV file is modelled as the rows the csv module writes or
    reads, and a file that does not exist as None. */
module Controllers {
  import opened Outcomes
  import opened Models
  import opened Utils

  /** One CSV record: its fields, after the csv module has split the line. */
  type Row = seq<string>

  const Header: Row := ["Task Name", "Due Date", "Priority", "Completed"]

  /** The caller's Python list of tasks. */
  class TaskList {
    var tasks: seq<Task>

    constructor ()
      ensures tasks == []
    {
      tasks := [];
    }

    /** `list.append`: the task goes at the end and no task changes. */
    method Append(task: Task)
      modifies this
      ensures tasks == old(tasks) + [task]
      ensures Records(tasks) == old(Records(tasks)) + [task.Record()]
    {
      tasks := tasks + [task];
      assert Records(tasks) == old(Records(tasks)) + [task.Record()];
    }
  }

  /** The values of the tasks, position by position. */
  function Records(ts: seq<Task>): seq<TaskRecord>
    reads ts
  {
    seq(|ts|, i requires 0 <= i < |ts| reads ts => ts[i].Record())
  }

  /** The field invariant the validators stand guard over. */
  predicate ValidRecord(r: TaskRecord) {
    ValidateTaskName(r.name).Pass? && ValidateDueDate(r.dueDate).Pass? && ValidatePriority(r.priority).Pass?
  }

  predicate AllValid(rs: seq<TaskRecord>) {
    forall i :: 0 <= i < |rs| ==> ValidRecord(rs[i])
  }

  lemma AllValidAppend(rs: seq<TaskRecord>, r: TaskRecord)
    requires AllValid(rs) && ValidRecord(r)
    ensures AllValid(rs + [r])
  {
    assert forall i :: 0 <= i < |rs| ==> (rs + [r])[i] == rs[i];
  }

  // ---------------------------------------------------------------------
  // add_task and delete_task

  /** The three validator calls at the head of add_task: they run in the
      order name, due date, priority, and the first to raise is the error
      the caller sees. */
  function ValidateInputs(taskName: string, dueDate: string, priority: string): (r: Outcome)
    ensures r.Pass? <==> ValidRecord(TaskRecord(taskName, dueDate, priority, false))
    ensures r == Fail(InvalidInput(NameField)) <==> ValidateTaskName(taskName).Fail?
    ensures r == Fail(InvalidInput(DueDateField)) <==>
            ValidateTaskName(taskName).Pass? && ValidateDueDate(dueDate).Fail?
    ensures r == Fail(InvalidInput(PriorityField)) <==>
            ValidateTaskName(taskName).Pass? && ValidateDueDate(dueDate).Pass? && ValidatePriority(priority).Fail?
  {
    var name := ValidateTaskName(taskName);
    if name.Fail? then name
    else
      var date := ValidateDueDate(dueDate);
      if date.Fail? then date else ValidatePriority(priority)
  }

  /** add_task: on valid input one new, not completed task goes at the end
      and the earlier tasks stay as they were; on invalid input the list is
      unchanged. */
  method AddTask(taskList: TaskList, taskName: string, dueDate: string, priority: string) returns (r: Outcome)
    modifies taskList
    ensures r == ValidateInputs(taskName, dueDate, priority)
    ensures r.Fail? ==> taskList.tasks == old(taskList.tasks)
    ensures r.Pass? ==> |taskList.tasks| == |old(taskList.tasks)| + 1
                        && taskList.tasks[..|old(taskList.tasks)|] == old(taskList.tasks)
                        && fresh(taskList.tasks[|old(taskList.tasks)|])
    ensures Records(taskList.tasks) ==
            old(Records(taskList.tasks)) + (if r.Pass? then [TaskRecord(taskName, dueDate, priority, false)] else [])
    ensures AllValid(old(Records(taskList.tasks))) ==> AllValid(Records(taskList.tasks))
  {
    r := ValidateInputs(taskName, dueDate, priority);
    if r.Pass? {
      var task := new Task(taskName, dueDate, priority);
      if AllValid(Records(taskList.tasks)) {
        AllValidAppend(Records(taskList.tasks), task.Record());
      }
      taskList.Append(task);
    }
  }

  /** delete_task: an index outside the list is an IndexOutOfRange error and
      changes nothing; otherwise exactly that task goes and the later ones
      move down one place. */
  method DeleteTask(taskList: TaskList, index: int) returns (r: Outcome)
    modifies taskList
    ensures r.Fail? <==> index < 0 || index >= |old(taskList.tasks)|
    ensures r.Fail? ==> r.error == IndexOutOfRange && taskList.tasks == old(taskList.tasks)
    ensures r.Pass? ==> |taskList.tasks| == |old(taskList.tasks)| - 1
                        && (forall j :: 0 <= j < index ==> taskList.tasks[j] == old(taskList.tasks)[j])
                        && (forall j :: index <= j < |taskList.tasks| ==> taskList.tasks[j] == old(taskList.tasks)[j + 1])
    ensures AllValid(old(Records(taskList.tasks))) ==> AllValid(Records(taskList.tasks))
  {
    if index < 0 || index >= |taskList.tasks| {
      return Fail(IndexOutOfRange);
    }
    ghost var before := Records(taskList.tasks);
    taskList.tasks := taskList.tasks[..index] + taskList.tasks[index + 1..];
    assert forall j :: 0 <= j < |taskList.tasks| ==>
             Records(taskList.tasks)[j] == before[if j < index then j else j + 1];
    r := Pass;
  }

  // ---------------------------------------------------------------------
  // Completion by index

  /** The position a Python subscript `list[index]` denotes in a list of
      length `n`: negative indices count from the end; None where Python
      raises IndexError. */
  function Subscript(n: nat, index: int): (k: Option<nat>)
    ensures k.Some? <==> -(n as int) <= index < n
    ensures k.Some? ==> k.value < n && (k.value == index || k.value == index + n)
  {
    if 0 <= index < n then Some(index)
    else if -(n as int) <= index < 0 then Some(index + n)
    else None
  }

  /** `task_list[index].mark_completed()`, as the shell does it: the task at
      that position, and every other position holding the same object, is
      completed; nothing else changes. Marking a completed task again changes
      nothing. */
  method MarkCompletedAt(taskList: TaskList, index: int) returns (r: Outcome)
    modifies taskList.tasks
    ensures taskList.tasks == old(taskList.tasks)
    ensures r.Fail? <==> index < -|taskList.tasks| || index >= |taskList.tasks|
    ensures r.Fail? ==> r.error == IndexOutOfRange && Records(taskList.tasks) == old(Records(taskList.tasks))
    ensures r.Pass? ==>
            var k := Subscript(|taskList.tasks|, index).value;
            forall j :: 0 <= j < |taskList.tasks| ==>
              Records(taskList.tasks)[j] ==
                if taskList.tasks[j] == taskList.tasks[k] then old(Records(taskList.tasks))[j].(completed := true)
                else old(Records(taskList.tasks))[j]
    ensures r.Pass? && old(taskList.tasks[Subscript(|taskList.tasks|, index).value].completed) ==>
            Records(taskList.tasks) == old(Records(taskList.tasks))
    ensures AllValid(old(Records(taskList.tasks))) ==> AllValid(Records(taskList.tasks))
  {
    var k := Subscript(|taskList.tasks|, index);
    if k.None? {
      return Fail(IndexOutOfRange);
    }
    var task := taskList.tasks[k.value];
    ghost var before := Records(taskList.tasks);
    task.MarkCompleted();
    assert forall j :: 0 <= j < |taskList.tasks| ==>
             Records(taskList.tasks)[j] ==
               if taskList.tasks[j] == task then before[j].(completed := true) else before[j];
    assert before[k.value].completed ==> Records(taskList.tasks) == before;
    r := Pass;
  }

  // ---------------------------------------------------------------------
  // save_tasks_to_csv and load_tasks_from_csv

  /** The rows save_tasks_to_csv writes: the header, then each task's
      `to_list()` in list order. */
  function SavedRows(ts: seq<Task>): seq<Row>
    reads ts
  {
    [Header] + seq(|ts|, i requires 0 <= i < |ts| reads ts => ts[i].ToList())
  }

  /** save_tasks_to_csv, as the sequence of rows its writer receives. */
  method SaveTasksToCsv(taskList: TaskList) returns (rows: seq<Row>)
    ensures rows == SavedRows(taskList.tasks)
  {
    rows := [Header];
    for i := 0 to |taskList.tasks|
      invariant rows == SavedRows(taskList.tasks[..i])
    {
      rows := rows + [taskList.tasks[i].ToList()];
    }
    assert taskList.tasks[..|taskList.tasks|] == taskList.tasks;
  }

  function LowerAscii(c: char): char {
    if 'A' <= c <= 'Z' then (c as int - 'A' as int + 'a' as int) as char else c
  }

  /** `completed_str.lower() == "true"`: the flag is read without regard to
      letter case, and any other text means not completed. */
  function ParseCompleted(text: string): (b: bool)
    ensures b <==> |text| == 4 && text[0] in "tT" && text[1] in "rR" && text[2] in "uU" && text[3] in "eE"
  {
    var lowered := seq(|text|, i requires 0 <= i < |text| => LowerAscii(text[i]));
    assert lowered == "true" <==>
           |text| == 4 && lowered[0] == 't' && lowered[1] == 'r' && lowered[2] == 'u' && lowered[3] == 'e';
    lowered == "true"
  }

  /** The Task built from a row of exactly four fields; no validator runs. */
  function RecordOfRow(row: Row): TaskRecord
    requires |row| == 4
  {
    TaskRecord(row[0], row[1], row[2], ParseCompleted(row[3]))
  }

  /** The tasks built from the data rows: one for each row of exactly four
      fields, in file order; other rows are skipped. */
  function ParseRows(rows: seq<Row>): seq<TaskRecord> {
    if rows == [] then []
    else
      var last := rows[|rows| - 1];
      ParseRows(rows[..|rows| - 1]) + (if |last| == 4 then [RecordOfRow(last)] else [])
  }

  /** What load_tasks_from_csv returns for a file: nothing for a missing
      file; otherwise the first row is skipped as the header and the rest are
      parsed. */
  function LoadedRecords(file: Option<seq<Row>>): seq<TaskRecord> {
    match file
    case None => []
    case Some(rows) => if rows == [] then [] else ParseRows(rows[1..])
  }

  /** load_tasks_from_csv: a new list of new tasks, one object per data row,
      holding the file's records. */
  method LoadTasksFromCsv(file: Option<seq<Row>>) returns (taskList: TaskList)
    ensures fresh(taskList)
    ensures forall t :: t in taskList.tasks ==> fresh(t)
    ensures forall i, j :: 0 <= i < j < |taskList.tasks| ==> taskList.tasks[i] != taskList.tasks[j]
    ensures Records(taskList.tasks) == LoadedRecords(file)
    ensures file.None? ==> taskList.tasks == []
  {
    taskList := new TaskList();
    if file.None? {
      return;
    }
    var rows := file.value;
    var data := if rows == [] then [] else rows[1..];
    for i := 0 to |data|
      invariant fresh(taskList)
      invariant forall t :: t in taskList.tasks ==> fresh(t)
      invariant forall i, j :: 0 <= i < j < |taskList.tasks| ==> taskList.tasks[i] != taskList.tasks[j]
      invariant Records(taskList.tasks) == ParseRows(data[..i])
    {
      var row := data[i];
      assert data[..i + 1][..i] == data[..i];
      if |row| == 4 {
        var task := new Task(row[0], row[1], row[2], ParseCompleted(row[3]));
        taskList.Append(task);
      }
    }
    assert data[..|data|] == data;
  }

  // ---------------------------------------------------------------------
  // Properties of the file format

  /** Parsing goes row by row: the tasks of two runs of rows are those of the
      first run followed by those of the second. */
  lemma {:induction false} ParseRowsAppend(a: seq<Row>, b: seq<Row>)
    ensures ParseRows(a + b) == ParseRows(a) + ParseRows(b)
    decreases |b|
  {
    if b == [] {
      assert a + b == a;
    } else {
      var b' := b[..|b| - 1];
      assert (a + b)[..|a + b| - 1] == a + b';
      ParseRowsAppend(a, b');
    }
  }

  /** A row of the wrong length adds no task, wherever it stands. */
  lemma SkipsMalformedRow(before: seq<Row>, row: Row, after: seq<Row>)
    requires |row| != 4
    ensures ParseRows(before + [row] + after) == ParseRows(before + after)
  {
    ParseRowsAppend(before + [row], after);
    ParseRowsAppend(before, [row]);
    ParseRowsAppend(before, after);
    assert ParseRows([row]) == [] by {
      assert [row][..0] == [];
    }
  }

  /** The completed text `to_list` writes reads back as the same flag. */
  lemma BoolTextRoundTrip(b: bool)
    ensures ParseCompleted(BoolText(b)) == b
  {
  }

  /** Every data row of a saved list parses back to the task it came from,
      in order. */
  lemma {:induction false} DataRowsRoundTrip(ts: seq<Task>)
    ensures ParseRows(SavedRows(ts)[1..]) == Records(ts)
    decreases |ts|
  {
    if ts != [] {
      var n := |ts|;
      var init := ts[..n - 1];
      var rows := SavedRows(ts)[1..];
      assert rows[..n - 1] == SavedRows(init)[1..];
      DataRowsRoundTrip(init);
      var last := ts[n - 1];
      assert rows[n - 1] == last.ToList();
      BoolTextRoundTrip(last.completed);
      assert RecordOfRow(last.ToList()) == last.Record();
      assert Records(ts) == Records(init) + [last.Record()];
    }
  }

  /** Saving a list and loading the rows back gives tasks with the same four
      fields, in the same order. */
  lemma SaveLoadRoundTrip(ts: seq<Task>)
    ensures LoadedRecords(Some(SavedRows(ts))) == Records(ts)
  {
    DataRowsRoundTrip(ts);
  }

  /** Loading does not validate: a row with a blank name, an impossible date
      and an unknown priority still becomes a task. */
  lemma LoadSkipsValidation()
    ensures var loaded := LoadedRecords(Some([Header, [" ", "2024-02-30", "Urgent", "yes"]]));
            loaded == [TaskRecord(" ", "2024-02-30", "Urgent", false)] && !ValidRecord(loaded[0])
  {
    var rows: seq<Row> := [[" ", "2024-02-30", "Urgent", "yes"]];
    assert rows[..0] == [];
    assert !ValidatePriority("Urgent").Pass?;
  }

  /** The inputs of the usual example pass all three checks. */
  lemma ExampleInputsValid()
    ensures ValidateInputs("Buy milk", "2024-05-01", "Low") == Pass
  {
    DueDateExamples();
    assert ValidateTaskName("Buy milk").Pass? by {
      assert !IsSpace("Buy milk"[0]);
    }
  }

  lemma BlankNameRejected()
    ensures ValidateInputs("   ", "2024-05-01", "Low") == Fail(InvalidInput(NameField))
  {
  }

  lemma Month13Rejected()
    ensures ValidateInputs("Buy milk", "2024-13-01", "Low") == Fail(InvalidInput(DueDateField))
  {
    DueDateExamples();
    assert ValidateTaskName("Buy milk").Pass? by {
      assert !IsSpace("Buy milk"[0]);
    }
  }

  lemma UnknownPriorityRejected()
    ensures ValidateInputs("Buy milk", "2024-05-01", "Urgent") == Fail(InvalidInput(PriorityField))
  {
    ExampleInputsValid();
  }

  /** With every field bad, the name is the error reported. */
  lemma NameReportedFirst()
    ensures ValidateInputs("", "2024-13-01", "Urgent") == Fail(InvalidInput(NameField))
  {
  }

  /** Completing the only task, saving and loading it, then deleting by
      index. */
  method CompleteDeleteExample() {
    var taskList := new TaskList();
    var task := new Task("Buy milk", "2024-05-01", "Low");
    taskList.Append(task);
    var r := MarkCompletedAt(taskList, 0);
    assert Records(taskList.tasks) == [TaskRecord("Buy milk", "2024-05-01", "Low", true)];
    var rows := SaveTasksToCsv(taskList);
    SaveLoadRoundTrip(taskList.tasks);
    var loaded := LoadTasksFromCsv(Some(rows));
    assert Records(loaded.tasks) == [TaskRecord("Buy milk", "2024-05-01", "Low", true)];

    r := DeleteTask(taskList, 1);
    assert r == Fail(IndexOutOfRange);
    r := DeleteTask(taskList, -1);
    assert r == Fail(IndexOutOfRange);
    r := DeleteTask(taskList, 0);
    assert taskList.tasks == [];
  }
}
