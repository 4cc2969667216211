/** The in-memory task list: the `Task` record, the table model whose
    rows are the list, and the `TaskManager` that changes it. */
module TaskStore {

  /** Status texts the table shows in its fourth column. */
  const Completed: string := "Completed"
  const Pending: string := "Pending"

  /** Number of columns: Task, Due Date, Priority, Status. */
  const ColumnCount: nat := 4

  /** One row of the table: four texts. The status column holds whatever
      text was put there (rows read from the file keep theirs verbatim). */
  datatype Row = Row(name: string, dueDate: string, priority: string, status: string) {

    /** The four columns in table order. */
    function Columns(): seq<string> {
      [name, dueDate, priority, status]
    }

    function Column(c: nat): string
      requires c < ColumnCount
    {
      Columns()[c]
    }

    /** The row with column `c` replaced by `value`. */
    function WithColumn(c: nat, value: string): (r: Row)
      requires c < ColumnCount
      ensures r.Column(c) == value
      ensures forall d :: 0 <= d < ColumnCount && d != c ==> r.Column(d) == Column(d)
    {
      if c == 0 then this.(name := value)
      else if c == 1 then this.(dueDate := value)
      else if c == 2 then this.(priority := value)
      else this.(status := value)
    }
  }

  /** The text shown for a completion flag. */
  function StatusText(completed: bool): (s: string)
    ensures s != []
    ensures s == Completed <==> completed
    ensures !completed ==> s == Pending
  {
    if completed then Completed else Pending
  }

  /** `rows` without the row at `index`; the rows after it move up by one. */
  function RemoveAt(rows: seq<Row>, index: nat): (r: seq<Row>)
    requires index < |rows|
    ensures |r| == |rows| - 1
    ensures forall j :: 0 <= j < index ==> r[j] == rows[j]
    ensures forall j :: index <= j < |r| ==> r[j] == rows[j + 1]
  {
    rows[..index] + rows[index + 1..]
  }

  /** `rows` with the status of the row at `index` set to "Completed". */
  function MarkCompletedAt(rows: seq<Row>, index: nat): (r: seq<Row>)
    requires index < |rows|
    ensures |r| == |rows|
    ensures forall j :: 0 <= j < |rows| && j != index ==> r[j] == rows[j]
    ensures r[index].name == rows[index].name && r[index].dueDate == rows[index].dueDate
    ensures r[index].priority == rows[index].priority && r[index].status == Completed
  {
    rows[index := rows[index].WithColumn(3, Completed)]
  }

  /** Marking a row completed a second time changes nothing. */
  lemma MarkCompletedIdempotent(rows: seq<Row>, index: nat)
    requires index < |rows|
    ensures MarkCompletedAt(MarkCompletedAt(rows, index), index) == MarkCompletedAt(rows, index)
  {
  }

  /** A task as the form creates it: never completed at first. */
  class Task {
    var name: string
    var dueDate: string
    var priority: string
    var completed: bool

    constructor (name: string, dueDate: string, priority: string)
      ensures this.name == name && this.dueDate == dueDate && this.priority == priority
      ensures !completed
    {
      this.name := name;
      this.dueDate := dueDate;
      this.priority := priority;
      this.completed := false;
    }
  }

  /** The table model: an ordered list of four-column rows. */
  class TaskTable {
    var rows: seq<Row>

    constructor ()
      ensures rows == []
    {
      rows := [];
    }

    /** The text in the given column of the given row. */
    function GetValueAt(row: nat, column: nat): (value: string)
      reads this
      requires row < |rows| && column < ColumnCount
      ensures column == 0 ==> value == rows[row].name
      ensures column == 1 ==> value == rows[row].dueDate
      ensures column == 2 ==> value == rows[row].priority
      ensures column == 3 ==> value == rows[row].status
    {
      rows[row].Column(column)
    }

    method AddRow(row: Row)
      modifies this
      ensures rows == old(rows) + [row]
    {
      rows := rows + [row];
    }

    /** Removing a row that does not exist throws in the table model,
        so callers must name an existing row. */
    method RemoveRow(index: nat)
      requires index < |rows|
      modifies this
      ensures rows == RemoveAt(old(rows), index)
    {
      rows := rows[..index] + rows[index + 1..];
    }

    method SetValueAt(value: string, row: nat, column: nat)
      requires row < |rows| && column < ColumnCount
      modifies this
      ensures rows == old(rows)[row := old(rows)[row].WithColumn(column, value)]
    {
      rows := rows[row := rows[row].WithColumn(column, value)];
    }
  }

  /** Changes the table it shares with the window. */
  class TaskManager {
    const tableModel: TaskTable

    constructor (tableModel: TaskTable)
      ensures this.tableModel == tableModel
    {
      this.tableModel := tableModel;
    }

    /** Appends the task as a new last row; earlier rows stay as they were. */
    method AddTask(task: Task)
      modifies tableModel
      ensures tableModel.rows ==
        old(tableModel.rows) + [Row(task.name, task.dueDate, task.priority, StatusText(task.completed))]
    {
      tableModel.AddRow(Row(task.name, task.dueDate, task.priority, StatusText(task.completed)));
    }

    /** Removes the row at `index`; a negative index is ignored. */
    method DeleteTask(index: int)
      requires index < |tableModel.rows|
      modifies tableModel
      ensures index < 0 ==> tableModel.rows == old(tableModel.rows)
      ensures index >= 0 ==> tableModel.rows == RemoveAt(old(tableModel.rows), index)
    {
      if index >= 0 {
        tableModel.RemoveRow(index);
      }
    }

    /** Sets the status of the row at `index` to "Completed"; a negative
        index is ignored. */
    method MarkTaskCompleted(index: int)
      requires index < |tableModel.rows|
      modifies tableModel
      ensures index < 0 ==> tableModel.rows == old(tableModel.rows)
      ensures index >= 0 ==> tableModel.rows == MarkCompletedAt(old(tableModel.rows), index)
    {
      if index >= 0 {
        tableModel.SetValueAt(Completed, index, 3);
      }
    }
  }
}
