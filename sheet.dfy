/**
 * The first worksheet of an uploaded workbook, as the parser sees it: a grid of
 * cells (a plain cell holding a value, or a non-anchor cell of a merged block),
 * the sheet's column count, and its merged ranges in the library's iteration order.
 * Rows and columns are numbered from 1, as in the spreadsheet.
 */
module Sheet {
  import opened Wrappers
  import Text

  /** A cell value: text or an integer (the parser never needs fractional numbers). */
  datatype Value = Text(s: string) | Number(n: int)

  /** `str(value)`. */
  function Str(v: Value): string {
    match v
    case Text(s) => s
    case Number(n) => Text.IntToString(n)
  }

  /** A plain cell (`Cell`) holds a value or `None`; a `MergedCell` holds nothing of its own. */
  datatype Cell = Plain(value: Option<Value>) | Merged

  type Pos = n: int | 1 <= n witness 1

  /** A merged block: its bounds and the value of its top-left (anchor) cell. */
  datatype MergedRange = MergedRange(minRow: Pos, maxRow: Pos, minCol: Pos, maxCol: Pos, anchor: Option<Value>)
  {
    /** `coordinate in range`. */
    predicate Contains(row: int, col: int) {
      minRow <= row <= maxRow && minCol <= col <= maxCol
    }
  }

  datatype Worksheet = Worksheet(grid: seq<seq<Cell>>, maxColumn: nat, merged: seq<MergedRange>)
  {
    /** `worksheet.max_row`. */
    function MaxRow(): nat { |grid| }

    /** The cell at (row, col); cells outside the stored grid are empty. */
    function CellAt(row: int, col: int): Cell {
      if 1 <= row <= |grid| && 1 <= col <= |grid[row - 1]| then grid[row - 1][col - 1] else Plain(None)
    }
  }

  /**
   * Every range's anchor value is the value of the plain cell at its top-left corner, as
   * a range's `start_cell` is that cell in the library.
   */
  predicate AnchorsAgree(ws: Worksheet) {
    forall i :: 0 <= i < |ws.merged| ==> ws.CellAt(ws.merged[i].minRow, ws.merged[i].minCol) == Plain(ws.merged[i].anchor)
  }

  /** Index of the first range in `ranges` that contains (row, col), if any. */
  function FirstContaining(ranges: seq<MergedRange>, row: int, col: int): (i: Option<nat>)
    ensures i.Some? ==> i.value < |ranges| && ranges[i.value].Contains(row, col)
    ensures i.Some? ==> forall j :: 0 <= j < i.value ==> !ranges[j].Contains(row, col)
    ensures i.None? <==> forall j :: 0 <= j < |ranges| ==> !ranges[j].Contains(row, col)
    decreases |ranges|
  {
    if ranges == [] then None
    else if ranges[0].Contains(row, col) then Some(0)
    else match FirstContaining(ranges[1..], row, col)
      case None => None
      case Some(k) => Some(k + 1)
  }

  /** `__merged_cell_value`: the anchor value of the first containing range, or `''`. */
  function MergedCellValue(ws: Worksheet, row: int, col: int): Option<Value> {
    match FirstContaining(ws.merged, row, col)
    case None => Some(Text(""))
    case Some(i) => ws.merged[i].anchor
  }

  /** `__get_cell_value`: a plain cell's own value, a merged cell's anchor value. */
  function GetCellValue(ws: Worksheet, row: int, col: int): Option<Value> {
    match ws.CellAt(row, col)
    case Plain(value) => value
    case Merged => MergedCellValue(ws, row, col)
  }

  /**
   * A plain cell resolves to its own value; a merged cell to the anchor value of the
   * first range containing it, or to `''` when no range contains it.
   */
  lemma GetCellValueSpec(ws: Worksheet, row: int, col: int)
    ensures ws.CellAt(row, col).Plain? ==> GetCellValue(ws, row, col) == ws.CellAt(row, col).value
    ensures ws.CellAt(row, col).Merged? && (forall j :: 0 <= j < |ws.merged| ==> !ws.merged[j].Contains(row, col)) ==>
      GetCellValue(ws, row, col) == Some(Text(""))
    ensures forall i ::
              (ws.CellAt(row, col).Merged? && 0 <= i < |ws.merged| && ws.merged[i].Contains(row, col) &&
               forall j :: 0 <= j < i ==> !ws.merged[j].Contains(row, col))
              ==> GetCellValue(ws, row, col) == ws.merged[i].anchor
  {
    var k := FirstContaining(ws.merged, row, col);
    forall i | ws.CellAt(row, col).Merged? && 0 <= i < |ws.merged| && ws.merged[i].Contains(row, col) &&
               (forall j :: 0 <= j < i ==> !ws.merged[j].Contains(row, col))
      ensures GetCellValue(ws, row, col) == ws.merged[i].anchor
    {
      assert k.Some?;
    }
  }

  /** `cell.value` read directly, as the data rows do: a merged cell reads as `None`. */
  function RawValue(c: Cell): Option<Value> {
    match c
    case Plain(value) => value
    case Merged => None
  }
}
