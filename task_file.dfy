/** The line format of the task file: one row per line, its four columns
    joined by commas, with no quoting or escaping of any kind. */
module TaskFile {
  import opened JavaText
  import opened LineFile
  import opened TaskStore

  datatype Option<T> = None | Some(value: T)

  /** The line `saveTasks` writes for one row: its four columns, in
      table order, joined by commas. */
  function SerializeRow(row: Row): (line: string)
    ensures line == JoinWith(row.Columns(), ',')
  {
    var f := row.Columns();
    assert JoinWith(f[3..], ',') == row.status;
    assert JoinWith(f[2..], ',') == row.priority + "," + row.status by {
      assert f[2..][1..] == f[3..];
    }
    assert JoinWith(f[1..], ',') == row.dueDate + "," + row.priority + "," + row.status by {
      assert f[1..][1..] == f[2..];
    }
    row.name + "," + row.dueDate + "," + row.priority + "," + row.status
  }

  /** One line per row, in row order. */
  function Serialize(rows: seq<Row>): (lines: seq<string>)
    ensures |lines| == |rows|
    ensures forall i :: 0 <= i < |rows| ==> lines[i] == SerializeRow(rows[i])
  {
    if rows == [] then [] else [SerializeRow(rows[0])] + Serialize(rows[1..])
  }

  /** The row `loadTasks` makes of one line, if the line splits into exactly four fields. */
  function ParseLine(line: string): (r: Option<Row>)
    ensures r.Some? <==> |JavaSplit(line)| == 4
    ensures r.Some? ==> r.value.Columns() == JavaSplit(line)
    ensures r.Some? ==> RoundTrips(r.value)
  {
    var data := JavaSplit(line);
    assert |data| == 4 ==> ',' in line && data[3] == data[|data| - 1];
    if |data| == 4 then Some(Row(data[0], data[1], data[2], data[3])) else None
  }

  /** A row survives being saved as a line and split again: no column holds
      a comma, and the status is not empty (a trailing empty field would be
      dropped by the split). */
  predicate RoundTrips(row: Row) {
    && ',' !in row.name && ',' !in row.dueDate && ',' !in row.priority && ',' !in row.status
    && row.status != []
  }

  /** A row survives the file as well: in addition, no column holds a line break. */
  predicate Persistable(row: Row) {
    && RoundTrips(row)
    && !HasLineBreak(row.name) && !HasLineBreak(row.dueDate)
    && !HasLineBreak(row.priority) && !HasLineBreak(row.status)
  }

  /** The rows `loadTasks` appends for the given lines: the parsed ones, in
      order; lines that do not split into four fields are skipped. */
  function Load(lines: seq<string>): (rows: seq<Row>)
    ensures |rows| <= |lines|
  {
    if lines == [] then []
    else
      var first := ParseLine(lines[0]);
      var rest := Load(lines[1..]);
      if first.Some? then [first.value] + rest else rest
  }

  /** Every loaded row round-trips: no column holds a comma and the status is not empty. */
  lemma {:induction false} LoadRoundTrips(lines: seq<string>)
    ensures forall i :: 0 <= i < |Load(lines)| ==> RoundTrips(Load(lines)[i])
  {
    if lines != [] {
      LoadRoundTrips(lines[1..]);
    }
  }

  /** Lines without line breaks load as rows that survive the file. */
  lemma {:induction false} LoadPersistable(lines: seq<string>)
    requires forall k :: 0 <= k < |lines| ==> !HasLineBreak(lines[k])
    ensures forall i :: 0 <= i < |Load(lines)| ==> Persistable(Load(lines)[i])
  {
    if lines != [] {
      LoadPersistable(lines[1..]);
      var first := ParseLine(lines[0]);
      if first.Some? {
        JavaSplitKeepsOut(lines[0], '\n');
        JavaSplitKeepsOut(lines[0], '\r');
        assert Persistable(first.value) by {
          var f := first.value.Columns();
          assert f[0] == first.value.name && f[1] == first.value.dueDate;
          assert f[2] == first.value.priority && f[3] == first.value.status;
        }
      }
    }
  }

  /** Loading two runs of lines loads the first run, then the second. */
  lemma {:induction false} LoadAppend(a: seq<string>, b: seq<string>)
    ensures Load(a + b) == Load(a) + Load(b)
  {
    if a == [] {
      assert a + b == b;
    } else {
      assert (a + b)[1..] == a[1..] + b;
      LoadAppend(a[1..], b);
    }
  }

  /** A line in front of other lines: its row, if any, comes first. */
  lemma LoadCons(line: string, lines: seq<string>)
    ensures Load([line] + lines) ==
            (if ParseLine(line).Some? then [ParseLine(line).value] else []) + Load(lines)
  {
    assert ([line] + lines)[1..] == lines;
  }

  /** A malformed line contributes no row, a well-formed one exactly its fields. */
  lemma LoadOne(line: string)
    ensures |JavaSplit(line)| != 4 ==> Load([line]) == []
    ensures |JavaSplit(line)| == 4 ==> Load([line]) == [ParseLine(line).value]
    ensures |JavaSplit(line)| == 4 ==> Load([line])[0].Columns() == JavaSplit(line)
  {
    assert [line][1..] == [];
  }

  /** The line written for a row parses back to that row exactly when the row round-trips. */
  lemma ParseSerializeRow(row: Row)
    ensures ParseLine(SerializeRow(row)) == Some(row) <==> RoundTrips(row)
  {
    if RoundTrips(row) {
      JavaSplitJoinWith(row.Columns());
    }
  }

  /** Rows that all round-trip come back from their saved lines. */
  lemma {:induction false} LoadSerializeRoundTrips(rows: seq<Row>)
    requires forall i :: 0 <= i < |rows| ==> RoundTrips(rows[i])
    ensures Load(Serialize(rows)) == rows
  {
    if rows != [] {
      var line := SerializeRow(rows[0]);
      assert Serialize(rows) == [line] + Serialize(rows[1..]);
      ParseSerializeRow(rows[0]);
      LoadSerializeRoundTrips(rows[1..]);
      LoadCons(line, Serialize(rows[1..]));
      assert rows == [rows[0]] + rows[1..];
    }
  }

  /** Loading the saved lines gives back the rows exactly when each row round-trips. */
  lemma LoadSerialize(rows: seq<Row>)
    ensures Load(Serialize(rows)) == rows <==> forall i :: 0 <= i < |rows| ==> RoundTrips(rows[i])
  {
    if forall i :: 0 <= i < |rows| ==> RoundTrips(rows[i]) {
      LoadSerializeRoundTrips(rows);
    } else {
      LoadRoundTrips(Serialize(rows));
    }
  }

  /** Saving what was loaded and loading it again gives the same rows. */
  lemma LoadSerializeLoad(lines: seq<string>)
    ensures Load(Serialize(Load(lines))) == Load(lines)
  {
    LoadRoundTrips(lines);
    LoadSerialize(Load(lines));
  }

  /** The line written for a row has a line break only if a column has one. */
  lemma SerializeRowNoLineBreak(row: Row)
    requires !HasLineBreak(row.name) && !HasLineBreak(row.dueDate)
    requires !HasLineBreak(row.priority) && !HasLineBreak(row.status)
    ensures !HasLineBreak(SerializeRow(row))
  {
  }

  /** The whole file: writing the saved lines and reading them back with
      `readLine` reproduces the rows, when every row is persistable. */
  lemma FileRoundTrip(rows: seq<Row>)
    requires forall i :: 0 <= i < |rows| ==> Persistable(rows[i])
    ensures Load(ReadLines(WriteLines(Serialize(rows)))) == rows
  {
    var lines := Serialize(rows);
    forall k | 0 <= k < |lines|
      ensures !HasLineBreak(lines[k])
    {
      SerializeRowNoLineBreak(rows[k]);
    }
    ReadLinesWriteLines(lines);
    LoadSerialize(rows);
  }

  /** A table loaded from a file, written back to the file and loaded again,
      is the same table. */
  lemma LoadSaveLoadFile(text: string)
    ensures Load(ReadLines(WriteLines(Serialize(Load(ReadLines(text)))))) == Load(ReadLines(text))
  {
    LoadPersistable(ReadLines(text));
    FileRoundTrip(Load(ReadLines(text)));
  }
}
