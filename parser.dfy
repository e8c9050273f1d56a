/**
 * `XLSParser`: reads the header of the first worksheet once, on construction, and
 * then turns the data rows into records keyed by field name.
 */
module Parser {
  import opened Wrappers
  import opened Sheet
  import opened Header
  import Text

  /** One data row: field name to the raw cell value. */
  type Record = map<string, Option<Value>>

  /** The position of the last occurrence of `k` in `keys`. */
  function LastIndexOf(keys: seq<string>, k: string): (i: nat)
    requires k in keys
    ensures i < |keys| && keys[i] == k
    ensures forall j :: i < j < |keys| ==> keys[j] != k
    decreases |keys|
  {
    if keys[|keys| - 1] == k then |keys| - 1 else LastIndexOf(keys[..|keys| - 1], k)
  }

  /** The dictionary built by assigning `vals[t]` to `keys[t]` for t = 0, 1, ... in turn. */
  function RecordOf(keys: seq<string>, vals: seq<Option<Value>>): Record
    requires |keys| == |vals|
    decreases |keys|
  {
    if keys == [] then map[]
    else RecordOf(keys[..|keys| - 1], vals[..|vals| - 1])[keys[|keys| - 1] := vals[|vals| - 1]]
  }

  /** A record has exactly the field names as keys, and a repeated name keeps its last column's value. */
  lemma {:induction false} RecordOfLookup(keys: seq<string>, vals: seq<Option<Value>>)
    requires |keys| == |vals|
    ensures RecordOf(keys, vals).Keys == set k | k in keys
    ensures forall k :: k in keys ==> RecordOf(keys, vals)[k] == vals[LastIndexOf(keys, k)]
    decreases |keys|
  {
    if keys != [] {
      var n := |keys| - 1;
      RecordOfLookup(keys[..n], vals[..n]);
      assert keys == keys[..n] + [keys[n]];
      forall k | k in keys
        ensures RecordOf(keys, vals)[k] == vals[LastIndexOf(keys, k)]
      {
        if k != keys[n] {
          assert k in keys[..n];
          assert LastIndexOf(keys, k) == LastIndexOf(keys[..n], k);
        }
      }
    }
  }

  /** The first `width` cells of a row, read with `cell.value`. */
  function RowValues(ws: Worksheet, row: int, width: nat): (vals: seq<Option<Value>>)
    ensures |vals| == width
    ensures forall t :: 0 <= t < width ==> vals[t] == RawValue(ws.CellAt(row, t + 1))
  {
    seq(width, t requires 0 <= t < width => RawValue(ws.CellAt(row, t + 1)))
  }

  function RowRecord(ws: Worksheet, names: seq<string>, row: int): Record {
    RecordOf(names, RowValues(ws, row, |names|))
  }

  /** One record per worksheet row from `start` to `max_row`, in row order. */
  function DataRecords(ws: Worksheet, names: seq<string>, start: int): seq<Record> {
    var n := if start <= ws.MaxRow() then ws.MaxRow() - start + 1 else 0;
    seq(n, i requires 0 <= i < n => RowRecord(ws, names, start + i))
  }

  /** A row's record: keys are the field names, each with the raw value of its last column. */
  lemma RowRecordSpec(ws: Worksheet, names: seq<string>, row: int)
    ensures RowRecord(ws, names, row).Keys == set k | k in names
    ensures forall k :: k in names ==>
      RowRecord(ws, names, row)[k] == RawValue(ws.CellAt(row, LastIndexOf(names, k) + 1))
  {
    RecordOfLookup(names, RowValues(ws, row, |names|));
  }

  /**
   * `data` yields one record per row from `start` to the last row; each record's keys are
   * the field names, and each name maps to the raw value of the last column carrying it.
   */
  lemma DataRecordsSpec(ws: Worksheet, names: seq<string>, start: int)
    ensures |DataRecords(ws, names, start)| == if start <= ws.MaxRow() then ws.MaxRow() - start + 1 else 0
    ensures forall i :: 0 <= i < |DataRecords(ws, names, start)| ==>
      DataRecords(ws, names, start)[i].Keys == set k | k in names
    ensures forall i, k :: 0 <= i < |DataRecords(ws, names, start)| && k in names ==>
      DataRecords(ws, names, start)[i][k] == RawValue(ws.CellAt(start + i, LastIndexOf(names, k) + 1))
  {
    var rs := DataRecords(ws, names, start);
    forall i | 0 <= i < |rs|
      ensures rs[i].Keys == set k | k in names
      ensures forall k :: k in names ==> rs[i][k] == RawValue(ws.CellAt(start + i, LastIndexOf(names, k) + 1))
    {
      assert rs[i] == RowRecord(ws, names, start + i);
      RowRecordSpec(ws, names, start + i);
    }
  }

  class XLSParser {
    const worksheet: Worksheet
    var dataRowsStartIndex: Option<int>
    var fieldNames: seq<string>
    var tableWidth: nat

    /** The state a successfully constructed parser is in. */
    ghost predicate Valid()
      reads this
    {
      && ParsedHeader(worksheet).Success?
      && dataRowsStartIndex == Some(ParsedHeader(worksheet).value.depth + 1)
      && fieldNames == ParsedHeader(worksheet).value.names
      && tableWidth == |fieldNames|
    }

    /** The part of `__init__` before the header is parsed. */
    constructor Load(ws: Worksheet)
      ensures worksheet == ws && dataRowsStartIndex == None && fieldNames == [] && tableWidth == 0
    {
      worksheet := ws;
      dataRowsStartIndex := None;
      fieldNames := [];
      tableWidth := 0;
    }

    /** `XLSParser(file)`: a parser whose header has been read, or the error `__parse_header` raised. */
    static method Open(ws: Worksheet) returns (r: Result<XLSParser, ParseError>)
      ensures r.Success? <==> ParsedHeader(ws).Success?
      ensures r.Failure? ==> r.error == ParsedHeader(ws).error
      ensures r.Success? ==> fresh(r.value) && r.value.worksheet == ws && r.value.Valid()
    {
      var p := new XLSParser.Load(ws);
      var names := p.ParseHeader();
      if names.Failure? {
        return Failure(names.error);
      }
      p.fieldNames := names.value;
      p.tableWidth := |names.value|;
      r := Success(p);
    }

    /** `__parse_header`: sets the data start row once the depth is known, then builds the field names. */
    method ParseHeader() returns (r: Result<seq<string>, ParseError>)
      modifies this
      ensures ParsedHeader(worksheet).Success? ==> r == Success(ParsedHeader(worksheet).value.names)
      ensures ParsedHeader(worksheet).Failure? ==> r == Failure(ParsedHeader(worksheet).error)
      ensures HeaderDepth(worksheet.merged).None? ==> dataRowsStartIndex == old(dataRowsStartIndex)
      ensures HeaderDepth(worksheet.merged).Some? ==> dataRowsStartIndex == Some(HeaderDepth(worksheet.merged).value + 1)
      ensures fieldNames == old(fieldNames) && tableWidth == old(tableWidth)
    {
      var depth := HeaderDepth(worksheet.merged);
      if depth.None? {
        return Failure(NoHeaderRange);
      }
      var headerWidth := depth.value;
      dataRowsStartIndex := Some(headerWidth + 1);
      var size := worksheet.MaxRow();
      var table := new seq<string>[size](_ => []);
      var ok := ReadHeaderRows(table, headerWidth);
      if !ok {
        ParsedHeaderOverflow(worksheet, headerWidth);
        return Failure(FragmentIndexOutOfRange);
      }
      ParsedHeaderWithoutOverflow(worksheet, headerWidth);
      var trimmed := CutOffTail(table[..]);
      if trimmed.None? {
        return Failure(EmptyHeaderTable);
      }
      r := Success(NamesOf(trimmed.value));
    }

    /**
     * The outer loop of `__parse_header` over header rows 1..depth, on a table of empty
     * slots; false when some header value falls in a column without a slot.
     */
    method ReadHeaderRows(table: array<seq<string>>, depth: int) returns (ok: bool)
      requires forall u :: 0 <= u < table.Length ==> table[u] == []
      modifies table
      ensures ok <==> !Overflows(worksheet, depth, table.Length)
      ensures ok ==> table[..] == FragmentTable(worksheet, depth, table.Length)
    {
      var size := table.Length;
      var row := 1;
      while row <= depth
        invariant 1 <= row <= if depth < 1 then 1 else depth + 1
        invariant forall u :: 0 <= u < size ==> table[u] == Slot(worksheet, u, row - 1)
        invariant forall rr, col :: 1 <= rr < row && size < col <= worksheet.maxColumn ==> !HasValue(worksheet, rr, col)
      {
        ok := ReadHeaderRow(table, row);
        if !ok {
          var col :| size < col <= worksheet.maxColumn && HasValue(worksheet, row, col);
          assert 1 <= row <= depth && size < col <= worksheet.maxColumn && HasValue(worksheet, row, col);
          return false;
        }
        row := row + 1;
      }
      assert table[..] == FragmentTable(worksheet, depth, size) by {
        forall u | 0 <= u < size ensures table[u] == FragmentTable(worksheet, depth, size)[u] {
        }
      }
      ok := true;
    }

    /**
     * The inner loop of `__parse_header` for header row `row`: pushes each cell's resolved
     * value onto its column's slot; false when a value falls in a column without a slot.
     */
    method ReadHeaderRow(table: array<seq<string>>, row: int) returns (ok: bool)
      requires 1 <= row
      requires forall u :: 0 <= u < table.Length ==> table[u] == Slot(worksheet, u, row - 1)
      modifies table
      ensures ok ==> forall u :: 0 <= u < table.Length ==> table[u] == Slot(worksheet, u, row)
      ensures ok <==> forall col :: table.Length < col <= worksheet.maxColumn ==> !HasValue(worksheet, row, col)
    {
      var size := table.Length;
      var t := 0;
      while t < worksheet.maxColumn
        invariant 0 <= t <= worksheet.maxColumn
        invariant forall u :: 0 <= u < size ==> table[u] == Slot(worksheet, u, if u < t then row else row - 1)
        invariant forall col :: size < col <= t ==> !HasValue(worksheet, row, col)
      {
        var value := GetCellValue(worksheet, row, t + 1);
        if value.Some? {
          if t >= size {
            assert HasValue(worksheet, row, t + 1);
            return false;
          }
          assert Slot(worksheet, t, row) == Push(table[t], value);
          if table[t] == [] || DiffersFromLast(table[t][|table[t]| - 1], value.value) {
            table[t] := table[t] + [Text.Lower(Str(value.value))];
          }
        } else {
          assert t < size ==> Slot(worksheet, t, row) == table[t];
          assert !HasValue(worksheet, row, t + 1);
        }
        t := t + 1;
      }
      ok := true;
    }

    /** `__cut_off_tail`: pops empty lists off the end; reading `[-1]` of an empty list fails. */
    static method CutOffTail(tailed: seq<seq<string>>) returns (r: Option<seq<seq<string>>>)
      ensures r == Trimmed(tailed)
    {
      var list := tailed;
      while list != [] && list[|list| - 1] == []
        invariant Trimmed(list) == Trimmed(tailed)
      {
        list := list[..|list| - 1];
      }
      if list == [] {
        return None;
      }
      r := Some(list);
    }

    /** `data`: one record per row from the data start row on, over the first `table_width` columns. */
    method Data() returns (result: seq<Record>)
      requires Valid()
      ensures result == DataRecords(worksheet, fieldNames, dataRowsStartIndex.value)
    {
      var start := dataRowsStartIndex.value;
      result := [];
      var row := start;
      while row <= worksheet.MaxRow()
        invariant start <= row
        invariant row <= worksheet.MaxRow() + 1 || row == start
        invariant |result| == row - start
        invariant forall i :: 0 <= i < |result| ==> result[i] == RowRecord(worksheet, fieldNames, start + i)
      {
        var rowDict := ReadDataRow(row);
        result := result + [rowDict];
        row := row + 1;
      }
    }

    /** The body of `data`'s row loop: one row's dictionary, filled column by column. */
    method ReadDataRow(row: int) returns (rowDict: Record)
      requires tableWidth == |fieldNames|
      ensures rowDict == RowRecord(worksheet, fieldNames, row)
    {
      var vals := RowValues(worksheet, row, tableWidth);
      rowDict := map[];
      var t := 0;
      while t < tableWidth
        invariant 0 <= t <= tableWidth
        invariant rowDict == RecordOf(fieldNames[..t], vals[..t])
      {
        assert fieldNames[..t + 1][..t] == fieldNames[..t] && vals[..t + 1][..t] == vals[..t];
        rowDict := rowDict[fieldNames[t] := RawValue(worksheet.CellAt(row, t + 1))];
        t := t + 1;
      }
      assert fieldNames[..t] == fieldNames && vals[..t] == vals;
    }
  }
}
