/** The delimited-text printer `tableData2txt` of frontend/src/utils/utils.js. */
module TableText {
  import opened Text

  datatype Column = Column(title: string, dataIndex: string)
  type Row = map<string, string>

  // A cell the row does not have prints as the empty string, as Array.join prints undefined.
  function Cell(row: Row, key: string): string {
    if key in row then row[key] else ""
  }

  function Titles(columns: seq<Column>): seq<string> {
    seq(|columns|, i requires 0 <= i < |columns| => columns[i].title)
  }

  function Cells(columns: seq<Column>, row: Row): seq<string> {
    seq(|columns|, i requires 0 <= i < |columns| => Cell(row, columns[i].dataIndex))
  }

  function Lines(columns: seq<Column>, data: seq<Row>, col: char): seq<string> {
    seq(|data|, i requires 0 <= i < |data| => Join(Cells(columns, data[i]), col))
  }

  function TableDataToText(columns: seq<Column>, data: seq<Row>, col: char := ';', line: char := '\n'): string {
    Join(Titles(columns), col) + [line] + Join(Lines(columns, data, col), line)
  }

  // Reading the text back: split into lines, and every line into cells.
  function Recover(text: string, col: char, line: char): seq<seq<string>> {
    var lines := Split(text, line);
    seq(|lines|, i requires 0 <= i < |lines| => Split(lines[i], col))
  }

  // The visible table: the titles, then one row per data row, which shows under each column what the row
  // holds at the column's dataIndex, or nothing.
  function Grid(columns: seq<Column>, data: seq<Row>): (g: seq<seq<string>>)
    ensures |g| == |data| + 1
    ensures forall i | 0 <= i < |g| :: |g[i]| == |columns|
    ensures forall j | 0 <= j < |columns| :: g[0][j] == columns[j].title
    ensures forall i, j | 0 <= i < |data| && 0 <= j < |columns| ::
              g[i + 1][j] == if columns[j].dataIndex in data[i] then data[i][columns[j].dataIndex] else ""
  {
    [Titles(columns)] + seq(|data|, i requires 0 <= i < |data| => Cells(columns, data[i]))
  }

  ghost predicate Clean(grid: seq<seq<string>>, d: char) {
    forall i, j | 0 <= i < |grid| && 0 <= j < |grid[i]| :: d !in grid[i][j]
  }

  lemma TextIsJoinedLines(columns: seq<Column>, data: seq<Row>, col: char, line: char)
    requires data != []
    ensures
      var lines := [Join(Titles(columns), col)] + Lines(columns, data, col);
      && TableDataToText(columns, data, col, line) == Join(lines, line)
      && |lines| == |Grid(columns, data)|
      && forall i | 0 <= i < |lines| :: lines[i] == Join(Grid(columns, data)[i], col)
  {
    var lines := [Join(Titles(columns), col)] + Lines(columns, data, col);
    assert lines[1..] == Lines(columns, data, col);
  }

  // One line: when it can be split back, and when it contains the line delimiter.
  lemma LineFacts(cells: seq<string>, col: char, line: char)
    ensures Split(Join(cells, col), col) == cells <==> cells != [] && forall j | 0 <= j < |cells| :: col !in cells[j]
    ensures line in Join(cells, col) <==>
            (line == col && |cells| > 1) || exists j | 0 <= j < |cells| :: line in cells[j]
  {
    InJoin(cells, col, line);
    SplitJoinIff(cells, col);
    if j :| 0 <= j < |cells| && line in cells[j] { assert cells[j] in cells; }
    if j :| 0 <= j < |cells| && col in cells[j] { assert cells[j] in cells; }
  }

  // Lines without the line delimiter are recovered one by one; with one in any line the count is off.
  lemma RecoverCount(lines: seq<string>, col: char, line: char)
    requires lines != []
    ensures
      var back := Recover(Join(lines, line), col, line);
      && (|back| == |lines| <==> forall i | 0 <= i < |lines| :: line !in lines[i])
      && (|back| == |lines| ==> forall i | 0 <= i < |lines| :: back[i] == Split(lines[i], col))
  {
    SplitJoinCount(lines, line);
    if forall i | 0 <= i < |lines| :: line !in lines[i] {
      assert forall p <- lines :: line !in p;
    } else {
      var i :| 0 <= i < |lines| && line in lines[i];
      assert lines[i] in lines;
    }
  }

  lemma RecoverLines(lines: seq<string>, grid: seq<seq<string>>, col: char, line: char)
    requires |lines| == |grid| && lines != []
    requires forall i | 0 <= i < |lines| :: lines[i] == Join(grid[i], col)
    requires forall i | 0 <= i < |grid| :: |grid[i]| == |grid[0]|
    ensures Recover(Join(lines, line), col, line) == grid <==>
            |grid[0]| >= 1 && Clean(grid, col) && Clean(grid, line) && (col != line || |grid[0]| == 1)
  {
    var back := Recover(Join(lines, line), col, line);
    RecoverCount(lines, col, line);
    forall i | 0 <= i < |lines|
      ensures Split(lines[i], col) == grid[i] <==> grid[i] != [] && forall j | 0 <= j < |grid[i]| :: col !in grid[i][j]
      ensures line in lines[i] <==>
              (line == col && |grid[i]| > 1) || exists j | 0 <= j < |grid[i]| :: line in grid[i][j]
    {
      LineFacts(grid[i], col, line);
    }
    if back == grid {
      assert forall i | 0 <= i < |grid| :: Split(lines[i], col) == grid[i] && line !in lines[i];
      assert line !in lines[0];
    }
    if |grid[0]| >= 1 && Clean(grid, col) && Clean(grid, line) && (col != line || |grid[0]| == 1) {
      assert forall i | 0 <= i < |grid| :: back[i] == grid[i];
    }
  }

  // The printed text can be read back exactly when the table has a column and a row, no title or cell
  // contains a delimiter, and the two delimiters differ (or there is only one column).
  lemma RecoverableIff(columns: seq<Column>, data: seq<Row>, col: char, line: char)
    ensures
      var grid := Grid(columns, data);
      Recover(TableDataToText(columns, data, col, line), col, line) == grid <==>
      && columns != [] && data != []
      && Clean(grid, col) && Clean(grid, line)
      && (col != line || |columns| == 1)
  {
    if data == [] {
      var header := Join(Titles(columns), col);
      SplitAtDelimiter(header, "", line);
      assert TableDataToText(columns, data, col, line) == header + [line] + "";
      assert |Split(header + [line] + "", line)| >= 2;
    } else {
      TextIsJoinedLines(columns, data, col, line);
      RecoverLines([Join(Titles(columns), col)] + Lines(columns, data, col), Grid(columns, data), col, line);
    }
  }

  // With the default delimiters, a semicolon and a line break.
  lemma DefaultTextRecoverable(columns: seq<Column>, data: seq<Row>)
    requires columns != [] && data != []
    requires Clean(Grid(columns, data), ';') && Clean(Grid(columns, data), '\n')
    ensures Recover(TableDataToText(columns, data), ';', '\n') == Grid(columns, data)
  {
    RecoverableIff(columns, data, ';', '\n');
  }

  // Two such tables that print the same text show the same grid.
  lemma PrintingIsInjective(columns: seq<Column>, data: seq<Row>, columns': seq<Column>, data': seq<Row>,
                            col: char, line: char)
    requires col != line
    requires columns != [] && data != [] && columns' != [] && data' != []
    requires Clean(Grid(columns, data), col) && Clean(Grid(columns, data), line)
    requires Clean(Grid(columns', data'), col) && Clean(Grid(columns', data'), line)
    requires TableDataToText(columns, data, col, line) == TableDataToText(columns', data', col, line)
    ensures Grid(columns, data) == Grid(columns', data')
  {
    RecoverableIff(columns, data, col, line);
    RecoverableIff(columns', data', col, line);
  }
}
