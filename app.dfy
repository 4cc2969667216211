/** The window's commands: what happens to the task list and to the task
    file when the user adds, deletes or completes a task, and how the list
    is saved and loaded. The file is modelled by its text; a missing file
    reads as the empty text. */
module ToDoList {
  import opened JavaText
  import opened LineFile
  import opened TaskStore
  import opened TaskFile

  const EmptyFieldMessage: string := "Task name and due date cannot be empty!"
  const NoTaskToDeleteMessage: string := "Select a task to delete!"
  const NoTaskToCompleteMessage: string := "Select a task to mark as completed!"

  /** What a command shows the user: nothing, or an error dialog. */
  datatype Outcome = Done | ErrorDialog(message: string)

  /** Saving the first `i + 1` rows writes what saving the first `i` wrote, then row `i`'s line. */
  lemma SaveStep(rows: seq<Row>, i: nat)
    requires i < |rows|
    ensures WriteLines(Serialize(rows[..i + 1])) ==
            WriteLines(Serialize(rows[..i])) + SerializeRow(rows[i]) + NewLine
  {
    assert Serialize(rows[..i + 1]) == Serialize(rows[..i]) + [SerializeRow(rows[i])];
    WriteLinesAppend(Serialize(rows[..i]), [SerializeRow(rows[i])]);
    assert WriteLines([SerializeRow(rows[i])]) == SerializeRow(rows[i]) + NewLine;
  }

  /** Loading the first `i + 1` lines loads the first `i`, then line `i`
      if it has four fields. */
  lemma LoadStep(lines: seq<string>, i: nat)
    requires i < |lines|
    ensures var data := JavaSplit(lines[i]);
            Load(lines[..i + 1]) ==
            Load(lines[..i]) + if |data| == 4 then [Row(data[0], data[1], data[2], data[3])] else []
  {
    assert lines[..i + 1] == lines[..i] + [lines[i]];
    LoadAppend(lines[..i], [lines[i]]);
    LoadOne(lines[i]);
  }

  /** `LoadStep` after rows already in the table, as the load loop needs it. */
  lemma LoadStepAfter(rows: seq<Row>, lines: seq<string>, i: nat)
    requires i < |lines|
    ensures var data := JavaSplit(lines[i]);
            rows + Load(lines[..i + 1]) ==
            rows + Load(lines[..i]) + if |data| == 4 then [Row(data[0], data[1], data[2], data[3])] else []
  {
    LoadStep(lines, i);
  }

  /** A task typed without commas or line breaks, with a priority that has
      none either, is saved as a line that loads back as the same row. */
  lemma AddedRowPersistable(taskText: string, dateText: string, priority: string)
    requires ',' !in taskText && ',' !in dateText && ',' !in priority
    requires !HasLineBreak(taskText) && !HasLineBreak(dateText) && !HasLineBreak(priority)
    ensures Persistable(Row(Trim(taskText), Trim(dateText), priority, Pending))
  {
    assert ',' !in Pending && !HasLineBreak(Pending);
    TrimKeepsOut(taskText, ',');
    TrimKeepsOut(taskText, '\n');
    TrimKeepsOut(taskText, '\r');
    TrimKeepsOut(dateText, ',');
    TrimKeepsOut(dateText, '\n');
    TrimKeepsOut(dateText, '\r');
  }

  class ToDoListApp {
    const tableModel: TaskTable
    const taskManager: TaskManager
    /** The text of the task file. */
    var file: string

    /** The manager changes the very table the window shows and saves. */
    ghost predicate Valid()
      reads this
    {
      taskManager.tableModel == tableModel
    }

    /** Starts with the rows loaded from the saved file. */
    constructor (savedFile: string)
      ensures Valid() && fresh(tableModel) && fresh(taskManager)
      ensures file == savedFile
      ensures tableModel.rows == Load(ReadLines(savedFile))
    {
      var table := new TaskTable();
      tableModel := table;
      taskManager := new TaskManager(table);
      file := savedFile;
      new;
      LoadTasks();
    }

    /** Adds a pending task with the trimmed name and due date and saves,
        unless either is empty after trimming, in which case nothing
        changes and an error is shown. */
    method AddTask(taskText: string, dateText: string, priority: string) returns (outcome: Outcome)
      requires Valid()
      modifies this, tableModel
      ensures Valid()
      ensures outcome == Done <==> Trim(taskText) != [] && Trim(dateText) != []
      ensures outcome != Done ==> outcome == ErrorDialog(EmptyFieldMessage)
      ensures outcome != Done ==> tableModel.rows == old(tableModel.rows) && file == old(file)
      ensures outcome == Done ==>
        tableModel.rows == old(tableModel.rows) + [Row(Trim(taskText), Trim(dateText), priority, Pending)]
      ensures outcome == Done ==> file == WriteLines(Serialize(tableModel.rows))
    {
      var name := Trim(taskText);
      var dueDate := Trim(dateText);
      if name == [] || dueDate == [] {
        return ErrorDialog(EmptyFieldMessage);
      }
      var task := new Task(name, dueDate, priority);
      taskManager.AddTask(task);
      SaveTasks();
      outcome := Done;
    }

    /** Deletes the selected row and saves; with no selection (a negative
        row) nothing changes and an error is shown. */
    method DeleteTask(selectedRow: int) returns (outcome: Outcome)
      requires Valid() && selectedRow < |tableModel.rows|
      modifies this, tableModel
      ensures Valid()
      ensures selectedRow < 0 ==> outcome == ErrorDialog(NoTaskToDeleteMessage)
      ensures selectedRow < 0 ==> tableModel.rows == old(tableModel.rows) && file == old(file)
      ensures selectedRow >= 0 ==> outcome == Done
      ensures selectedRow >= 0 ==> tableModel.rows == RemoveAt(old(tableModel.rows), selectedRow)
      ensures selectedRow >= 0 ==> file == WriteLines(Serialize(tableModel.rows))
    {
      if selectedRow >= 0 {
        taskManager.DeleteTask(selectedRow);
        SaveTasks();
        outcome := Done;
      } else {
        outcome := ErrorDialog(NoTaskToDeleteMessage);
      }
    }

    /** Marks the selected row completed and saves; with no selection (a
        negative row) nothing changes and an error is shown. */
    method MarkTaskCompleted(selectedRow: int) returns (outcome: Outcome)
      requires Valid() && selectedRow < |tableModel.rows|
      modifies this, tableModel
      ensures Valid()
      ensures selectedRow < 0 ==> outcome == ErrorDialog(NoTaskToCompleteMessage)
      ensures selectedRow < 0 ==> tableModel.rows == old(tableModel.rows) && file == old(file)
      ensures selectedRow >= 0 ==> outcome == Done
      ensures selectedRow >= 0 ==> tableModel.rows == MarkCompletedAt(old(tableModel.rows), selectedRow)
      ensures selectedRow >= 0 ==> file == WriteLines(Serialize(tableModel.rows))
    {
      if selectedRow >= 0 {
        taskManager.MarkTaskCompleted(selectedRow);
        SaveTasks();
        outcome := Done;
      } else {
        outcome := ErrorDialog(NoTaskToCompleteMessage);
      }
    }

    /** Rewrites the whole file: one line per row, in row order. */
    method SaveTasks()
      modifies this`file
      ensures file == WriteLines(Serialize(tableModel.rows))
    {
      var text := "";
      var i := 0;
      while i < |tableModel.rows|
        invariant 0 <= i <= |tableModel.rows|
        invariant text == WriteLines(Serialize(tableModel.rows[..i]))
      {
        var line := tableModel.GetValueAt(i, 0) + "," + tableModel.GetValueAt(i, 1) + "," +
                    tableModel.GetValueAt(i, 2) + "," + tableModel.GetValueAt(i, 3);
        SaveStep(tableModel.rows, i);
        text := text + line + NewLine;
        i := i + 1;
      }
      assert tableModel.rows[..i] == tableModel.rows;
      file := text;
    }

    /** Appends a row for every line of the file that splits into exactly
        four fields, in file order; other lines are skipped. */
    method LoadTasks()
      modifies tableModel
      ensures tableModel.rows == old(tableModel.rows) + Load(ReadLines(file))
    {
      var lines := ReadLines(file);
      var i := 0;
      while i < |lines|
        invariant 0 <= i <= |lines|
        invariant tableModel.rows == old(tableModel.rows) + Load(lines[..i])
      {
        LoadStepAfter(old(tableModel.rows), lines, i);
        var data := JavaSplit(lines[i]);
        if |data| == 4 {
          tableModel.AddRow(Row(data[0], data[1], data[2], data[3]));
        }
        i := i + 1;
      }
      assert lines[..i] == lines;
    }
  }

  /** Start with no file, add one task, then open a new window on the file
      that was written: it shows exactly that task, still pending, provided
      the typed texts and the priority hold no comma and no line break. */
  method ReopenAfterAdd(taskText: string, dateText: string, priority: string) returns (reloaded: seq<Row>)
    requires Trim(taskText) != [] && Trim(dateText) != []
    requires ',' !in taskText && ',' !in dateText && ',' !in priority
    requires !HasLineBreak(taskText) && !HasLineBreak(dateText) && !HasLineBreak(priority)
    ensures reloaded == [Row(Trim(taskText), Trim(dateText), priority, Pending)]
  {
    var app := new ToDoListApp("");
    var outcome := app.AddTask(taskText, dateText, priority);
    var row := Row(Trim(taskText), Trim(dateText), priority, Pending);
    assert app.tableModel.rows == [row];
    AddedRowPersistable(taskText, dateText, priority);
    FileRoundTrip([row]);
    var reopened := new ToDoListApp(app.file);
    reloaded := reopened.tableModel.rows;
  }
}
