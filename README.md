# To-do list core, modelled in Dafny

A model of the task-list core of a small to-do manager written in Python.
The core has three parts:

- **The Task entity** (`models.py`). A task has a name, a due date, a
  priority and a completed flag. The first three are fixed by the
  constructor. `mark_completed` is the only change of state. `to_list` gives
  the four-field CSV row.
- **The validators** (`utils.py`). A name must be non-blank after
  `strip()`. A due date must be accepted by
  `datetime.strptime(text, "%Y-%m-%d")`. A priority must be exactly `Low`,
  `Medium` or `High`.
- **The collection operations** (`controllers.py`). `add_task` and
  `delete_task` update the caller's list in place. `save_tasks_to_csv`
  writes a header and one row per task. `load_tasks_from_csv` reads them
  back.

Files and modules:

- `outcomes.dfy` (`Outcomes`): the error taxonomy. Python's `ValueError`
  becomes `InvalidInput(field)`, which names the validator that raised.
  `IndexError` becomes `IndexOutOfRange`. A call that may raise returns an
  `Outcome`, `Pass` or `Fail(error)`.
- `models.dfy` (`Models`): `class Task`. `name`, `dueDate` and `priority`
  are `const` fields; they stand for the read-only properties. `completed` is
  the one mutable field. `TaskRecord` is the value the four properties return
  together.
- `strptime.dfy` (`Strptime`): what `strptime` does with the format
  `%Y-%m-%d`. It matches the regular expression CPython builds from the
  format: `%Y` is `\d\d\d\d`, `%m` is `1[0-2]|0[1-9]|[1-9]` and `%d` is
  `3[01]|[12]\d|0[1-9]|[1-9]| [1-9]`. Alternatives are tried in order, with
  backtracking into `%m`. Text left over after the match is an error. The
  fields must then form a date that `datetime.date` accepts: years 1 to
  9999, months 1 to 12, and Gregorian month lengths. The lemmas prove that the
  accepted texts are exactly the calendar dates written in one of the allowed
  forms. The month may drop its leading zero. The day may drop its leading
  zero or have a leading space instead.
- `utils.dfy` (`Utils`): the three validators as functions to an `Outcome`,
  and `str.strip()` over Python's whitespace characters.
- `controllers.dfy` (`Controllers`): `class TaskList` stands for the
  caller's Python list, with `tasks: seq<Task>`. `AddTask` and `DeleteTask`
  update it in place. A CSV file is modelled as its rows, `seq<Row>` with
  `Row = seq<string>`; a missing file is `None`. `SaveTasksToCsv` returns the
  rows its loop writes. `LoadTasksFromCsv` builds new tasks from the rows.
  Each method is proved against a specification function: `SavedRows`,
  `LoadedRecords` or `Records`. The round trip is proved on those functions.

Three behaviours of the code differ from what its docstrings or its shell
suggest; the model follows the code in each:

- A due date like `2024-5-1` or `2024-05- 1` is accepted, because `%m` and
  `%d` allow it. A strict reading of the `YYYY-MM-DD` format the docstrings
  name (`models.py:7`, `utils.py:21`) would reject it.
- `load_tasks_from_csv` builds tasks without running any validator
  (`controllers.py:84`). A loaded task need not satisfy the field rules
  (`LoadSkipsValidation`). `AddTask`, `DeleteTask` and `MarkCompletedAt` keep
  the rules for every task when they held before.
- No controller marks a task completed by index. The shell does it with
  `task_list[index].mark_completed()` (`main.py:72`). `MarkCompletedAt` is an
  ADDITION that wraps this expression with Python's subscript rules. An index
  from `-len` to `len - 1` is accepted, and `-1` is the last task. Anything
  else raises `IndexError`. A bounds check like `delete_task`'s would reject
  `-1`; the shell does not have one.

## Model

| member | source | states |
|---|---|---|
| Models.Task.constructor | models.py:12-45 | the four properties return the constructor's arguments; `completed` is false unless a value is passed (default parameter) |
| Models.Task.MarkCompleted | models.py:47-51 | afterwards `completed` is true and name, due date and priority are unchanged; on a completed task the call changes nothing (idempotent) |
| Models.Task.ToList | models.py:53-60 | exactly four fields: name, due date, priority, then `"True"` or `"False"`, which is `"True"` iff the task is completed |
| Utils.Strip | utils.py:15 | the stripped text is empty iff every character is whitespace; otherwise it starts and ends with a non-whitespace character |
| Utils.StripKeepsMiddle | utils.py:15 | the stripped text is a slice of the input with only whitespace before and after it, so `strip()` removes exactly the surrounding whitespace |
| Utils.ValidateTaskName | utils.py:5-16 | passes iff the name has a non-whitespace character, so surrounding whitespace is allowed; otherwise fails with `InvalidInput(NameField)` |
| Utils.ValidateDueDate | utils.py:19-32 | passes iff `strptime` returns a date; otherwise fails with `InvalidInput(DueDateField)` |
| Utils.DueDateIff | utils.py:29-32 | a due date passes iff it is a calendar date written as four year digits, `-`, a month padded or bare, `-`, and a day padded, bare or space-padded |
| Utils.ValidatePriority | utils.py:35-46 | passes iff the text is exactly `Low`, `Medium` or `High`; otherwise fails with `InvalidInput(PriorityField)` |
| Utils.PaddedNameAccepted | utils.py:15-16 | `"  Buy milk\t"` passes: surrounding whitespace is allowed |
| Utils.BlankNamesRejected | utils.py:15-16 | `""`, `"   "` and a mix of tab, newline and ideographic space fail |
| Utils.PriorityExamples | utils.py:45-46 | `Medium` passes; `Urgent`, `low`, `HIGH` and `" Low"` fail, so the comparison is case-sensitive |
| Utils.DueDateExamples | utils.py:30 | `2024-05-01` passes and `2024-13-01` fails |
| Strptime.DaysInMonth | utils.py:30 | month lengths lie between 28 and 31; a month has 29 days iff it is February of a leap year |
| Strptime.YearLength | utils.py:30 | the month lengths add up to 366 in a Gregorian leap year and 365 otherwise |
| Strptime.Parse | utils.py:30 | every date `strptime` returns is a calendar date: year 1 to 9999, month 1 to 12, day within the month |
| Strptime.MatchRender | utils.py:30 | the pattern matches the whole of any rendering of in-range fields and reads the same field values back |
| Strptime.ParseRender | utils.py:30 | every calendar date, written in any allowed form, is accepted and parses back to that date |
| Strptime.RenderParse | utils.py:30 | every accepted text is a rendering of the date it parses to, in some allowed form |
| Strptime.AcceptedIff | utils.py:30 | `strptime` accepts a text iff it renders some calendar date |
| Strptime.AcceptsPaddedDate | utils.py:30 | `2024-05-01` is 1 May 2024 |
| Strptime.AcceptsUnpaddedFields | utils.py:30 | `2024-5-1` and `2024-05- 1` are accepted |
| Strptime.AcceptsLeapDay | utils.py:30 | 29 February is accepted in 2024 and in 2000 |
| Strptime.RejectsMonth13 | utils.py:30 | `2024-13-01` is rejected |
| Strptime.RejectsNonCalendar | utils.py:30 | text the pattern matches in full is still rejected when its fields are not a calendar date |
| Strptime.RejectsFebruary30 | utils.py:30 | `2024-02-30` is rejected |
| Strptime.RejectsFebruary29 | utils.py:30 | 29 February is rejected in 2023 and in 1900, which are not leap years |
| Strptime.RejectsApril31 | utils.py:30 | `2024-04-31` is rejected |
| Strptime.RejectsYearZero | utils.py:30 | year `0000` is rejected |
| Strptime.RejectsShortYear | utils.py:30 | a two-digit year and the empty text are rejected |
| Strptime.RejectsOtherSeparator | utils.py:30 | `/` separators are rejected |
| Strptime.RejectsTrailingSpace | utils.py:30 | a trailing space is left over after the match, so the text is rejected |
| Strptime.RejectsThreeDigitDay | utils.py:30 | a three-digit day leaves a digit over, so the text is rejected |
| Controllers.TaskList.constructor | controllers.py:72 | a new list is empty |
| Controllers.TaskList.Append | controllers.py:25 | `append` puts the task at the end and changes no task |
| Controllers.ValidateInputs | controllers.py:20-22 | passes iff all three fields are valid; the error is the name's if the name is bad, else the date's if the date is bad, else the priority's |
| Controllers.AddTask | controllers.py:7-25 | on valid input, one new task that is not completed and has the given fields is appended, and the earlier tasks are the same objects; on invalid input the list is unchanged; a list of valid tasks stays valid |
| Controllers.DeleteTask | controllers.py:28-42 | fails with `IndexOutOfRange` iff `index < 0` or `index >= len`, and then the list is unchanged; otherwise the length drops by one, earlier tasks stay in place and later ones shift left by one |
| Controllers.Subscript | main.py:72 | a Python subscript is valid iff `-n <= index < n`; a negative index counts from the end |
| Controllers.MarkCompletedAt | main.py:72 | ADDITION: fails iff the subscript is out of range and then changes nothing; otherwise completes the task at that position and changes nothing else; repeating it changes nothing |
| Controllers.SaveTasksToCsv | controllers.py:45-59 | the rows written are the header `Task Name, Due Date, Priority, Completed` followed by each task's `to_list()` in list order |
| Controllers.ParseCompleted | controllers.py:83 | the flag is true iff the text is `true` in any mix of letter case |
| Controllers.LoadTasksFromCsv | controllers.py:62-87 | a missing file gives an empty list; otherwise the tasks are new objects, distinct from each other (one per data row), holding the file's records as `LoadedRecords` defines them |
| Controllers.ParseRowsAppend | controllers.py:80-85 | rows are parsed one by one, in file order: the tasks of `a + b` are those of `a` followed by those of `b` |
| Controllers.SkipsMalformedRow | controllers.py:81 | a row without exactly four fields adds no task wherever it stands |
| Controllers.BoolTextRoundTrip | controllers.py:83 | the `True`/`False` text `to_list` writes reads back as the same flag |
| Controllers.DataRowsRoundTrip | controllers.py:58-59 | the data rows of a saved list parse back to the tasks' records, in order |
| Controllers.SaveLoadRoundTrip | controllers.py:57-85 | loading the rows saved from a list gives tasks with the same four fields in the same order |
| Controllers.LoadSkipsValidation | controllers.py:84 | a row with a blank name, 30 February and priority `Urgent` still loads as a task that breaks the field rules |
| Controllers.ExampleInputsValid | controllers.py:20-22 | `("Buy milk", "2024-05-01", "Low")` passes all three checks |
| Controllers.BlankNameRejected | controllers.py:20 | a whitespace-only name fails with the name error |
| Controllers.Month13Rejected | controllers.py:21 | `2024-13-01` fails with the due-date error |
| Controllers.UnknownPriorityRejected | controllers.py:22 | `Urgent` fails with the priority error |
| Controllers.NameReportedFirst | controllers.py:20-22 | when all three fields are bad, the name error is the one reported |

`Controllers.CompleteDeleteExample` is a client method, not a model of the
source. It completes a task, saves and loads the list, then deletes at
indices 1, -1 and 0, with the outcomes asserted.

## Left out

- File-system effects are not modelled: `os.makedirs`, `open`, the UTF-8
  encoding and overwriting the file. `save_tasks_to_csv` is modelled as the
  rows it writes and `load_tasks_from_csv` as a function of the rows it
  reads. `os.path.exists` is the `None` case of the file.
- The file path parameters and their default `data/tasks.csv` are not
  modelled, because no path is modelled.
- Read and write errors, such as permissions or a path that is a directory,
  are not modelled, because they come from I/O.
- The `csv` module's quoting, escaping and line splitting are not modelled.
  Its code is not part of this model. The round trip is proved at row level,
  so it assumes the csv writer and reader give back the rows they were given.
- The message texts of the exceptions are not modelled. Only the exception
  kind and the field that failed are kept.
- Strptime.IsDigit: `\d` matches only ASCII digits in this model. In Python
  it also matches other Unicode decimal digits.
- Controllers.ParseCompleted: `lower()` is modelled for ASCII letters only,
  while Python lower-cases all of Unicode. The result is the same: no
  character other than `A`-`Z` lower-cases to `t`, `r`, `u` or `e`, so the
  comparison with `"true"` loses nothing.
- `main.py` and `ui_main.py` are not modelled (windows, event handlers,
  message boxes, startup). The one exception is the completion by index at
  `main.py:72`.
- Nothing in `Task` prevents other Dafny code from assigning `completed`
  directly. In Python the attribute is private by convention only.
