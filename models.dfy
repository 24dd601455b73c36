/** The Task entity of models.py. Name, due date and priority are set once by
    the constructor and only read afterwards; `completed` is the one field the
    source changes in place. */
module Models {

  /** What a Task's four read-only properties return. */
  datatype TaskRecord = TaskRecord(name: string, dueDate: string, priority: string, completed: bool)

  /** Python's `str` of a bool. */
  function BoolText(b: bool): string {
    if b then "True" else "False"
  }

  class Task {
    const name: string
    const dueDate: string
    const priority: string
    var completed: bool

    constructor (name: string, dueDate: string, priority: string, completed: bool := false)
      ensures Record() == TaskRecord(name, dueDate, priority, completed)
    {
      this.name := name;
      this.dueDate := dueDate;
      this.priority := priority;
      this.completed := completed;
    }

    /** The four properties `task_name`, `due_date`, `priority` and
        `completed`, read together. */
    function Record(): TaskRecord
      reads this
    {
      TaskRecord(name, dueDate, priority, completed)
    }

    /** mark_completed: sets the flag, never clears it, and touches no other
        field; on a task already completed it changes nothing. */
    method MarkCompleted()
      modifies this
      ensures Record() == old(Record()).(completed := true)
      ensures old(completed) ==> unchanged(this)
    {
      completed := true;
    }

    /** to_list: the row written to the CSV file, the four fields in order
        with the flag as the text "True" or "False". */
    function ToList(): (row: seq<string>)
      reads this
      ensures |row| == 4 && row[..3] == [name, dueDate, priority]
      ensures row[3] == "True" || row[3] == "False"
      ensures row[3] == "True" <==> completed
    {
      [name, dueDate, priority, BoolText(completed)]
    }
  }
}
