# To-do list: task table and task file

A model of the logic of a single-window Swing to-do list (`ToDoListApp.java`).
The window keeps its tasks as the rows of a table model: four texts per row,
Task, Due Date, Priority and Status. A `TaskManager` appends, deletes and
completes rows by position. After every successful command the whole table is
rewritten to `tasks.txt`, one line per row, the four columns joined by commas
with no quoting. At start-up every line of that file that splits into exactly
four fields becomes a row again. Any other line is dropped without notice.

Modules, one per concern:

- `JavaText` (`java_text.dfy`): `String.trim()` and `String.split(",")` with
  Java's rules. `split` keeps leading and inner empty fields and drops trailing
  ones. A string without a comma comes back whole, even when it is empty.
- `LineFile` (`line_file.dfy`): the file's text as `BufferedWriter.newLine()`
  writes it and as `BufferedReader.readLine()` cuts it into lines. `readLine`
  ends a line at `\n`, `\r` or `\r\n`.
- `TaskStore` (`task_store.dfy`): the `Task` record, the `Row` datatype, the
  `TaskTable` class standing for the `DefaultTableModel`, and the `TaskManager`
  class that shares that table with the window.
- `TaskFile` (`task_file.dfy`): the line format (`SerializeRow`, `Serialize`,
  `ParseLine`, `Load`) and its round trip.
- `ToDoList` (`app.dfy`): the window's commands as the `ToDoListApp` class.
  `AddTask` validates the form, `DeleteTask` and `MarkTaskCompleted` act on the
  selected row, and `SaveTasks` and `LoadTasks` are the save and load loops.
  The task file is the field `file`, holding the file's text.

Points where the code is easy to misread, and the model follows it:

- Delete and mark-completed ignore a negative row and do no range check of
  their own. A row past the last one would make the table model throw, so the
  model requires the row to exist.
- Loading stores the status text verbatim in the Status column. No completion
  flag is derived from it, so a row loaded with status `Done` stays `Done`.
- Priority is any text. The combo box only offers High, Medium and Low, but no
  code checks it.

Main results:

- Saving a list and loading it into an empty table gives back the same rows
  (`TaskFile.FileRoundTrip`). This holds when no column holds a comma or a line
  break and the status is not empty, and when every char survives the
  platform's default charset (see "## Left out").
- A row's line parses back to that row exactly when the row has no comma in
  any column and a non-empty status (`TaskFile.ParseSerializeRow`). So the
  known limitation of the format is exact: a task named `a,b` is lost on
  reload.
- Every loaded row round-trips, so saving a loaded table to the file and
  loading the file again changes nothing (`TaskFile.LoadSaveLoadFile`), with no
  condition on what the file held before.

## Model

| member | source | states |
|---|---|---|
| `JavaText.Trim` | ToDoListApp.java:97-98 | the result is the slice of the input from the first char above U+0020; every char before it and every char after it is at most U+0020; it is empty exactly when every char of the input is at most U+0020; otherwise both of its ends are above U+0020 |
| `JavaText.TrimmedStart` | ToDoListApp.java:97-98 | the first kept position: every char before it is at most U+0020, and the char at it, if any, is not |
| `JavaText.TrimmedEnd` | ToDoListApp.java:97-98 | one past the last kept position: every char from it on is at most U+0020, and the char just before it, if any, is not |
| `JavaText.TrimUntrimmable` | ToDoListApp.java:97-98 | a text whose first and last chars are above U+0020 is unchanged by trimming |
| `JavaText.TrimKeepsOut` | ToDoListApp.java:97-98 | trimming adds no char: a char absent from the input is absent from the trimmed text |
| `JavaText.TrimIdempotent` | ToDoListApp.java:97-98 | trimming a trimmed text changes nothing |
| `JavaText.IndexOf` | ToDoListApp.java:148 | the position returned holds the separator and no earlier position does |
| `JavaText.SplitAll` | ToDoListApp.java:148 | cutting at every separator gives at least one field, a single field exactly when the separator is absent, no field holds the separator, and joining the fields with the separator gives the input back |
| `JavaText.DropTrailingEmpty` | ToDoListApp.java:148 | the result is a prefix of the fields whose last field is non-empty, and every field dropped is empty |
| `JavaText.JavaSplit` | ToDoListApp.java:148 | `split(",")`: no field holds a comma; without a comma the input comes back as the one field; otherwise the result is the full cut with its trailing empty fields removed, so it is empty or ends with a non-empty field |
| `JavaText.FieldInJoin` | ToDoListApp.java:148 | every char of a field is a char of the fields' join |
| `JavaText.JavaSplitKeepsOut` | ToDoListApp.java:148 | splitting adds no char: a char absent from the line is absent from every field of `split(",")` |
| `JavaText.SplitAllJoinWith` | ToDoListApp.java:133-148 | cutting the join of separator-free fields at the separator gives back exactly those fields |
| `JavaText.JavaSplitJoinWith` | ToDoListApp.java:133-148 | `split(",")` of at least two comma-free fields joined by commas, the last of them non-empty, gives back exactly those fields |
| `LineFile.FirstLineBreak` | ToDoListApp.java:147 | the position returned holds `\n` or `\r` and no earlier position does |
| `LineFile.WriteLines` | ToDoListApp.java:131-137 | the text written is empty exactly when there are no lines, and otherwise ends with the line separator |
| `LineFile.ReadLines` | ToDoListApp.java:145-147 | no line read holds a line break, and an empty text holds no line at all |
| `LineFile.ReadLinesCrLf` | ToDoListApp.java:147 | a line without breaks ended by `\r\n` is read as that one line, and reading goes on after both chars |
| `LineFile.ReadLinesCr` | ToDoListApp.java:147 | a line without breaks ended by a `\r` not followed by `\n` is read as that one line, and reading goes on after the `\r` |
| `LineFile.WriteLinesAppend` | ToDoListApp.java:132-137 | writing two runs of lines in turn writes the concatenation of what each run writes |
| `LineFile.ReadLinesWriteLines` | ToDoListApp.java:131-147 | reading back the text written for lines without line breaks gives exactly those lines, in order |
| `TaskStore.Row.WithColumn` | ToDoListApp.java:196 | the new value is in the given column and every other column is unchanged |
| `TaskStore.StatusText` | ToDoListApp.java:185 | the status text is never empty; it is "Completed" exactly when the task is completed, and "Pending" when it is not |
| `TaskStore.RemoveAt` | ToDoListApp.java:190 | one row fewer; rows before the index are unchanged and every later row moves up one place |
| `TaskStore.MarkCompletedAt` | ToDoListApp.java:196 | same length; every other row unchanged; the row at the index keeps its name, due date and priority and gets status "Completed" |
| `TaskStore.MarkCompletedIdempotent` | ToDoListApp.java:196 | marking the same row completed twice gives the same rows as marking it once |
| `TaskStore.Task.constructor` | ToDoListApp.java:169-174 | a new task has the given name, due date and priority and is not completed |
| `TaskStore.TaskTable.constructor` | ToDoListApp.java:43 | the table starts with no rows |
| `TaskStore.TaskTable.GetValueAt` | ToDoListApp.java:133-136 | defined only for an existing row and column; column 0 gives the row's name, 1 its due date, 2 its priority and 3 its status |
| `TaskStore.TaskTable.AddRow` | ToDoListApp.java:150 | the row is appended last and the earlier rows stay as they were |
| `TaskStore.TaskTable.RemoveRow` | ToDoListApp.java:190 | for an existing row, the rows become the old rows without that row |
| `TaskStore.TaskTable.SetValueAt` | ToDoListApp.java:196 | only the given column of the given row takes the new value |
| `TaskStore.TaskManager.constructor` | ToDoListApp.java:180-182 | the manager works on the table it is given |
| `TaskStore.TaskManager.AddTask` | ToDoListApp.java:184-186 | exactly one row is appended, holding the task's name, due date, priority and status text; earlier rows are unchanged |
| `TaskStore.TaskManager.DeleteTask` | ToDoListApp.java:188-192 | a negative index leaves the rows unchanged; any other index removes exactly that row |
| `TaskStore.TaskManager.MarkTaskCompleted` | ToDoListApp.java:194-198 | a negative index leaves the rows unchanged; any other index sets that row's status to "Completed" and changes nothing else |
| `TaskFile.SerializeRow` | ToDoListApp.java:133-136 | the line of a row is its four columns joined by commas, in column order |
| `TaskFile.Serialize` | ToDoListApp.java:132-138 | one line per row, in row order, each the row's serialised line |
| `TaskFile.ParseLine` | ToDoListApp.java:148-150 | a row comes out exactly when the split has four fields; its columns are those fields in order, and the row round-trips |
| `TaskFile.Load` | ToDoListApp.java:147-151 | no more rows than lines |
| `TaskFile.LoadRoundTrips` | ToDoListApp.java:147-151 | every loaded row round-trips: no column holds a comma and the status is not empty |
| `TaskFile.LoadCons` | ToDoListApp.java:147-151 | a line in front of other lines contributes its row, if it parses, before the rows of the others |
| `TaskFile.LoadPersistable` | ToDoListApp.java:147-151 | every row loaded from lines without line breaks survives the file: no comma, no line break, non-empty status |
| `TaskFile.LoadAppend` | ToDoListApp.java:147-151 | loading two runs of lines loads the first run, then the second, so the file order is kept |
| `TaskFile.LoadOne` | ToDoListApp.java:148-150 | a line whose split does not have four fields adds no row; otherwise it adds exactly the row of its four fields |
| `TaskFile.ParseSerializeRow` | ToDoListApp.java:133-150 | a row's line parses back to that row if and only if no column holds a comma and the status is not empty |
| `TaskFile.LoadSerializeRoundTrips` | ToDoListApp.java:130-152 | rows that all round-trip come back, in order, from their saved lines |
| `TaskFile.LoadSerialize` | ToDoListApp.java:130-152 | loading the saved lines reproduces the rows if and only if every row round-trips |
| `TaskFile.LoadSerializeLoad` | ToDoListApp.java:130-152 | saving the rows that were loaded and loading them again gives the same rows |
| `TaskFile.SerializeRowNoLineBreak` | ToDoListApp.java:133-136 | a row whose columns hold no line break is saved as a line without one, whatever else the columns hold |
| `TaskFile.FileRoundTrip` | ToDoListApp.java:130-152 | writing the table to the file and loading the file into an empty table gives back the same rows, when no column holds a comma or a line break and no status is empty |
| `TaskFile.LoadSaveLoadFile` | ToDoListApp.java:130-158 | for any file text, writing the table loaded from it and loading the written text gives the same table |
| `ToDoList.SaveStep` | ToDoListApp.java:132-137 | the text for the first i+1 rows is the text for the first i rows followed by row i's line and a line separator |
| `ToDoList.LoadStep` | ToDoListApp.java:147-151 | the rows for the first i+1 lines are the rows for the first i lines, then line i's row if its split has four fields |
| `ToDoList.AddedRowPersistable` | ToDoListApp.java:96-104 | a task typed without commas or line breaks, with such a priority, gives a pending row that survives the file |
| `ToDoList.ToDoListApp.constructor` | ToDoListApp.java:43-92 | the manager shares the window's table, and the table holds exactly the rows loaded from the saved file (none for a missing file) |
| `ToDoList.ToDoListApp.AddTask` | ToDoListApp.java:96-108 | accepted exactly when the trimmed name and the trimmed due date are both non-empty; if rejected, the "cannot be empty" dialog is shown and the table and the file are unchanged; if accepted, one pending row with the trimmed texts is appended and the file holds the new table |
| `ToDoList.ToDoListApp.DeleteTask` | ToDoListApp.java:110-118 | with no selection, the "Select a task to delete!" dialog and nothing changes; otherwise exactly the selected row is removed and the file is rewritten from the new table |
| `ToDoList.ToDoListApp.MarkTaskCompleted` | ToDoListApp.java:120-128 | with no selection, the "Select a task to mark as completed!" dialog and nothing changes; otherwise only the selected row's status becomes "Completed" and the file is rewritten |
| `ToDoList.ToDoListApp.SaveTasks` | ToDoListApp.java:130-142 | the file becomes the serialised lines of all rows, in row order, each followed by a line separator |
| `ToDoList.ToDoListApp.LoadTasks` | ToDoListApp.java:144-158 | the rows of the file's lines with four fields are appended in file order; the rows already there stay |
| `ToDoList.ReopenAfterAdd` | ToDoListApp.java:92-158 | starting with no file, adding a task and then opening a new window on the written file shows exactly that task, trimmed and pending |

## Left out

- Swing: the frame, the layout, the buttons, the Enter-key binding and
  `main`. A command is a method call, and an error dialog is the
  `ErrorDialog(message)` outcome carrying the dialog's text.
- Clearing the two text fields after a successful add. This is display state
  only.
- Row selection: the selected row is a parameter. `getSelectedRow` gives -1
  or an existing row, so `DeleteTask` and `MarkTaskCompleted` require the row
  to be below the row count. For a larger index the table model would throw.
- File I/O failures: the `IOException` dialogs on save and load are not
  modelled, and neither is a partly written or partly read file. A missing
  file (`FileNotFoundException`) is modelled as the empty text, which loads
  no rows.
- `newLine()` writes the platform's `line.separator`. The model takes it to be
  `\n`. `readLine()` accepts `\n`, `\r` and `\r\n` as terminators, and all three
  are modelled.
- Java strings are UTF-16 code units. The model uses Dafny's `char`. Trimming
  compares each char with U+0020 in both.
- Editing a cell in place: the `JTable` over the `DefaultTableModel`
  (ToDoListApp.java:43-44) lets the user double-click any cell and type a new
  value, which the table model stores through `setValueAt`. Such an edit skips
  the trim check of the add command and is not saved until the next command
  that saves. Only the three commands are modelled, so the model does not
  cover rows whose texts came from such an edit, nor a table that differs from
  the file.
- Character encoding: `FileWriter` and `FileReader` (ToDoListApp.java:131,
  145) use the platform's default charset, and a char that charset cannot
  encode is written as `?`. The model takes the file to hold the chars
  themselves, so its round-trip results assume every char of every column can
  be encoded.
- `DefaultTableModel` beyond its ordered four-column rows: column names,
  change events and cell types are not modelled.
