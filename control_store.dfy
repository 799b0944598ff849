/**
 * The control-store converter: a table of control words, one row per
 * control state, turned into one bit string per row.  The header row and
 * the label column are dropped; a cell is a 1 bit only when it is exactly
 * "1".  Rows arrive already split into cells.
 */
module ControlStore {
  import opened Results
  import opened Binary

  /** The bit one cell stands for: "1" gives '1'; "0", "x", "X", empty and any other text give '0'. */
  function CellBit(cell: string): (b: char)
    ensures b == '0' || b == '1'
    ensures b == '1' <==> cell == "1"
  {
    if cell == "1" then '1'
    else if cell == "0" then '0'
    else if cell == "x" || cell == "X" then '0'
    else '0'
  }

  /** `row[1:]`: the cells after the label column (none for an empty row). */
  function Cells(row: seq<string>): (cells: seq<string>)
    ensures |cells| == if row == [] then 0 else |row| - 1
    ensures forall j | 0 <= j < |cells| :: cells[j] == row[j + 1]
  {
    if row == [] then [] else row[1..]
  }

  /**
   * The conversion loop: skip the header row (a table without one makes
   * `next` raise, here None), then for every other row map each cell after
   * the label to its bit and join them into one string, rows in order.
   */
  method ConvertRows(rows: seq<seq<string>>) returns (lines: Option<seq<string>>)
    ensures lines.None? <==> rows == []
    ensures lines.Some? ==> |lines.value| == |rows| - 1
    ensures lines.Some? ==> forall i | 0 <= i < |lines.value| ::
      IsBinary(lines.value[i]) && |lines.value[i]| == |Cells(rows[i + 1])|
      && forall j | 0 <= j < |lines.value[i]| :: (lines.value[i][j] == '1' <==> rows[i + 1][j + 1] == "1")
  {
    if rows == [] {
      return None;
    }
    var processedLines: seq<string> := [];
    for r := 1 to |rows|
      invariant |processedLines| == r - 1
      invariant forall i | 0 <= i < r - 1 ::
        IsBinary(processedLines[i]) && |processedLines[i]| == |Cells(rows[i + 1])|
      invariant forall i, j | 0 <= i < r - 1 && 0 <= j < |processedLines[i]| ::
        processedLines[i][j] == CellBit(rows[i + 1][j + 1])
    {
      var cells := Cells(rows[r]);
      var processedRow: string := [];
      for c := 0 to |cells|
        invariant |processedRow| == c
        invariant forall j | 0 <= j < c :: processedRow[j] == CellBit(cells[j])
      {
        var cell := cells[c];
        if cell == "1" {
          processedRow := processedRow + ['1'];
        } else if cell == "0" {
          processedRow := processedRow + ['0'];
        } else if cell == "x" || cell == "X" {
          processedRow := processedRow + ['0'];
        } else {
          processedRow := processedRow + ['0'];
        }
      }
      processedLines := processedLines + [processedRow];
    }
    lines := Some(processedLines);
  }
}
