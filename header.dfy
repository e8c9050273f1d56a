/**
 * What `XLSParser.__parse_header` computes, as functions of the worksheet:
 * the header depth, the per-column fragment lists, the trimmed fragment table
 * and the joined field names, with every way the computation can fail.
 * `Parser.XLSParser.ParseHeader` is proved to compute `ParsedHeader`.
 */
module Header {
  import opened Wrappers
  import opened Sheet
  import Text

  /** The exceptions `__parse_header` can raise. */
  datatype ParseError =
    | NoHeaderRange             // `max()` of an empty list: no merged range starts at row 1
    | FragmentIndexOutOfRange   // a header value in a column past the fragment table
    | EmptyHeaderTable          // `__cut_off_tail` popped every list and read `[-1]` of `[]`

  /** The header depth and the field names. */
  datatype HeaderInfo = HeaderInfo(depth: int, names: seq<string>)

  /** `max(r.max_row for r in ranges if r.min_row == 1)`, or `None` when that list is empty. */
  function HeaderDepth(ranges: seq<MergedRange>): (d: Option<int>)
    ensures d.None? <==> forall i :: 0 <= i < |ranges| ==> ranges[i].minRow != 1
    ensures d.Some? ==> exists i :: 0 <= i < |ranges| && ranges[i].minRow == 1 && ranges[i].maxRow == d.value
    ensures d.Some? ==> forall i :: 0 <= i < |ranges| && ranges[i].minRow == 1 ==> ranges[i].maxRow <= d.value
    decreases |ranges|
  {
    if ranges == [] then None
    else
      var rest := HeaderDepth(ranges[1..]);
      if ranges[0].minRow != 1 then rest
      else if rest.Some? && rest.value > ranges[0].maxRow then rest
      else Some(ranges[0].maxRow)
  }

  /** The test at line 78 as written: the stored, lower-cased fragment against the raw value. */
  predicate DiffersFromLast(last: string, v: Value) {
    v != Text(last)
  }

  /** One step of the header loop for one cell of one column. */
  function Push(frags: seq<string>, v: Option<Value>): seq<string> {
    if v.Some? && (frags == [] || DiffersFromLast(frags[|frags| - 1], v.value))
    then frags + [Text.Lower(Str(v.value))]
    else frags
  }

  predicate AllLowerCase(frags: seq<string>) {
    forall i :: 0 <= i < |frags| ==> Text.IsLowerCase(frags[i])
  }

  /** The fragments collected for column `col` from header rows 1..rows. */
  function Fragments(ws: Worksheet, col: int, rows: int): (r: seq<string>)
    ensures |r| <= if rows < 0 then 0 else rows
    ensures AllLowerCase(r)
    decreases rows
  {
    if rows <= 0 then [] else Push(Fragments(ws, col, rows - 1), GetCellValue(ws, rows, col))
  }

  /** Slot t of the fragment table after header rows 1..rows: column t + 1's fragments, if the sheet has that column. */
  function Slot(ws: Worksheet, t: nat, rows: int): seq<string> {
    if t < ws.maxColumn then Fragments(ws, t + 1, rows) else []
  }

  /** The fragment table with `size` slots. */
  function FragmentTable(ws: Worksheet, depth: int, size: nat): (table: seq<seq<string>>)
    ensures |table| == size
    ensures forall t :: 0 <= t < size ==> table[t] == if t < ws.maxColumn then Fragments(ws, t + 1, depth) else []
  {
    seq(size, t requires 0 <= t < size => Slot(ws, t, depth))
  }

  /** Some header cell holding a value lies in a column that has no slot in a table of `size` slots. */
  predicate Overflows(ws: Worksheet, depth: int, size: nat) {
    exists row, col :: 1 <= row <= depth && size < col <= ws.maxColumn && HasValue(ws, row, col)
  }

  predicate HasValue(ws: Worksheet, row: int, col: int) {
    GetCellValue(ws, row, col).Some?
  }

  predicate AllEmpty(s: seq<seq<string>>) {
    forall i :: 0 <= i < |s| ==> s[i] == []
  }

  /** Every list from index `k` on is empty. */
  predicate EmptyFrom(s: seq<seq<string>>, k: nat) {
    forall j :: k <= j < |s| ==> s[j] == []
  }

  /** `__cut_off_tail`: drop trailing empty lists; `None` when nothing but empty lists is left. */
  function Trimmed(s: seq<seq<string>>): (r: Option<seq<seq<string>>>)
    ensures r.None? <==> AllEmpty(s)
    ensures r.Some? ==> 0 < |r.value| <= |s| && r.value == s[..|r.value|] && r.value[|r.value| - 1] != []
    ensures r.Some? ==> EmptyFrom(s, |r.value|)
    decreases |s|
  {
    if s == [] then None
    else if s[|s| - 1] == [] then Trimmed(s[..|s| - 1])
    else Some(s)
  }

  lemma TrimmedIdempotent(s: seq<seq<string>>)
    requires Trimmed(s).Some?
    ensures Trimmed(Trimmed(s).value) == Trimmed(s)
  {
  }

  /** Each column's fragments joined with `_`. */
  function NamesOf(table: seq<seq<string>>): (names: seq<string>)
    ensures |names| == |table|
    ensures forall i :: 0 <= i < |table| ==> names[i] == Text.Join(table[i], "_")
  {
    seq(|table|, i requires 0 <= i < |table| => Text.Join(table[i], "_"))
  }

  /** The header parse with a fragment table of `size` slots. */
  function ParseHeaderSized(ws: Worksheet, size: nat): Result<HeaderInfo, ParseError> {
    match HeaderDepth(ws.merged)
    case None => Failure(NoHeaderRange)
    case Some(d) =>
      if Overflows(ws, d, size) then Failure(FragmentIndexOutOfRange)
      else match Trimmed(FragmentTable(ws, d, size))
        case None => Failure(EmptyHeaderTable)
        case Some(t) => Success(HeaderInfo(d, NamesOf(t)))
  }

  /** `__parse_header` as written: the table has `worksheet.max_row` slots. */
  function ParsedHeader(ws: Worksheet): Result<HeaderInfo, ParseError> {
    ParseHeaderSized(ws, ws.MaxRow())
  }

  /** A column none of whose header cells resolves to a value has no fragments. */
  lemma {:induction false} NoValuesNoFragments(ws: Worksheet, col: int, rows: int)
    requires forall row :: 1 <= row <= rows ==> !HasValue(ws, row, col)
    ensures Fragments(ws, col, rows) == []
    decreases rows
  {
    if rows > 0 {
      NoValuesNoFragments(ws, col, rows - 1);
      assert !HasValue(ws, rows, col);
    }
  }

  /**
   * What a successful parse yields: the depth is the deepest range starting at row 1,
   * name i is column i + 1's fragments joined with `_`, the last name has at least one
   * fragment, and every later column has none.
   */
  lemma ParsedHeaderSuccess(ws: Worksheet)
    requires ParsedHeader(ws).Success?
    ensures var h := ParsedHeader(ws).value;
      && HeaderDepth(ws.merged) == Some(h.depth)
      && 1 <= |h.names| <= ws.MaxRow()
      && |h.names| <= ws.maxColumn
      && (forall i :: 0 <= i < |h.names| ==> h.names[i] == Text.Join(Fragments(ws, i + 1, h.depth), "_"))
      && Fragments(ws, |h.names|, h.depth) != []
      && (forall col :: |h.names| < col <= ws.maxColumn ==> Fragments(ws, col, h.depth) == [])
  {
    var d := HeaderDepth(ws.merged).value;
    var table := FragmentTable(ws, d, ws.MaxRow());
    var t := Trimmed(table).value;
    forall col | |t| < col <= ws.maxColumn
      ensures Fragments(ws, col, d) == []
    {
      if col <= ws.MaxRow() {
        assert table[col - 1] == [];
      } else {
        NoValuesNoFragments(ws, col, d);
      }
    }
  }

  /** Without overflow, the parse is decided by trimming the fragment table. */
  lemma ParsedHeaderWithoutOverflow(ws: Worksheet, d: int)
    requires HeaderDepth(ws.merged) == Some(d) && !Overflows(ws, d, ws.MaxRow())
    ensures Trimmed(FragmentTable(ws, d, ws.MaxRow())).None? ==> ParsedHeader(ws) == Failure(EmptyHeaderTable)
    ensures Trimmed(FragmentTable(ws, d, ws.MaxRow())).Some? ==>
      ParsedHeader(ws) == Success(HeaderInfo(d, NamesOf(Trimmed(FragmentTable(ws, d, ws.MaxRow())).value)))
  {
  }

  lemma ParsedHeaderOfTable(ws: Worksheet, d: int, t: seq<seq<string>>)
    requires HeaderDepth(ws.merged) == Some(d) && !Overflows(ws, d, ws.MaxRow())
    requires Trimmed(FragmentTable(ws, d, ws.MaxRow())) == Some(t)
    ensures ParsedHeader(ws) == Success(HeaderInfo(d, NamesOf(t)))
  {
  }

  /** The parse fails for want of a header range exactly when no merged range starts at row 1. */
  lemma ParsedHeaderNoRange(ws: Worksheet)
    ensures ParsedHeader(ws) == Failure(NoHeaderRange) <==> forall i :: 0 <= i < |ws.merged| ==> ws.merged[i].minRow != 1
  {
  }

  /** Given a header depth, the parse fails on the table index exactly when a header value lies past it. */
  lemma ParsedHeaderOverflow(ws: Worksheet, d: int)
    requires HeaderDepth(ws.merged) == Some(d)
    ensures ParsedHeader(ws) == Failure(FragmentIndexOutOfRange) <==> Overflows(ws, d, ws.MaxRow())
  {
  }

  /** Without overflow, every slot of the table is empty exactly when every column has no fragments. */
  lemma TableEmptyIff(ws: Worksheet, d: int, size: nat)
    requires !Overflows(ws, d, size)
    ensures AllEmpty(FragmentTable(ws, d, size)) <==> forall col :: 1 <= col <= ws.maxColumn ==> Fragments(ws, col, d) == []
  {
    if AllEmpty(FragmentTable(ws, d, size)) {
      EmptyTableNoFragments(ws, d, size);
    } else {
      NonEmptyTableHasFragment(ws, d, size);
    }
  }

  lemma EmptyTableNoFragments(ws: Worksheet, d: int, size: nat)
    requires !Overflows(ws, d, size) && AllEmpty(FragmentTable(ws, d, size))
    ensures forall col :: 1 <= col <= ws.maxColumn ==> Fragments(ws, col, d) == []
  {
    var table := FragmentTable(ws, d, size);
    forall col | 1 <= col <= ws.maxColumn
      ensures Fragments(ws, col, d) == []
    {
      if col <= size {
        assert table[col - 1] == [];
      } else {
        NoOverflowColumnEmpty(ws, d, size, col);
      }
    }
  }

  lemma NonEmptyTableHasFragment(ws: Worksheet, d: int, size: nat)
    requires !AllEmpty(FragmentTable(ws, d, size))
    ensures exists col :: 1 <= col <= ws.maxColumn && Fragments(ws, col, d) != []
  {
    var table := FragmentTable(ws, d, size);
    var i :| 0 <= i < size && table[i] != [];
    assert table[i] == Slot(ws, i, d);
    assert 1 <= i + 1 <= ws.maxColumn && Fragments(ws, i + 1, d) != [];
  }

  /** Without overflow, the parse fails on an empty table exactly when no column has a fragment. */
  lemma ParsedHeaderEmpty(ws: Worksheet, d: int)
    requires HeaderDepth(ws.merged) == Some(d) && !Overflows(ws, d, ws.MaxRow())
    ensures ParsedHeader(ws) == Failure(EmptyHeaderTable) <==>
      forall col :: 1 <= col <= ws.maxColumn ==> Fragments(ws, col, d) == []
  {
    var table := FragmentTable(ws, d, ws.MaxRow());
    assert ParsedHeader(ws) == Failure(EmptyHeaderTable) <==> Trimmed(table).None?;
    TableEmptyIff(ws, d, ws.MaxRow());
  }

  /**
   * The de-duplication as written: a column whose header rows all resolve to the same
   * value `v` gets one fragment only when `v` is text that is already lower-case;
   * otherwise it gets the lower-cased text once per row.
   */
  lemma {:induction false} RepeatedValueFragments(ws: Worksheet, col: int, rows: nat, v: Value)
    requires rows >= 1
    requires forall row :: 1 <= row <= rows ==> GetCellValue(ws, row, col) == Some(v)
    ensures v.Text? && Text.IsLowerCase(v.s) ==> Fragments(ws, col, rows) == [v.s]
    ensures !(v.Text? && Text.IsLowerCase(v.s)) ==> Fragments(ws, col, rows) == seq(rows, _ => Text.Lower(Str(v)))
    decreases rows
  {
    var f := Text.Lower(Str(v));
    if v.Text? && Text.IsLowerCase(v.s) {
      Text.LowerOfLowerCase(v.s);
      assert !DiffersFromLast(f, v);
    } else if v.Text? {
      Text.LowerChangesUpperCase(v.s);
      assert DiffersFromLast(f, v);
    }
    assert GetCellValue(ws, rows, col) == Some(v);
    if rows > 1 {
      RepeatedValueFragments(ws, col, rows - 1, v);
      if !(v.Text? && Text.IsLowerCase(v.s)) {
        assert seq(rows - 1, _ => f) + [f] == seq(rows, _ => f);
      }
    }
  }

  /** Finding, as written: a vertically merged header cell `Company` becomes `company_company`. */
  function MixedCaseSheet(): Worksheet {
    Worksheet([[Plain(Some(Text("Company")))], [Merged]], 1, [MergedRange(1, 2, 1, 1, Some(Text("Company")))])
  }

  lemma MixedCaseFragments()
    ensures Fragments(MixedCaseSheet(), 1, 2) == ["company", "company"]
  {
    var ws := MixedCaseSheet();
    assert Text.Lower("Company") == "company";
    assert GetCellValue(ws, 1, 1) == Some(Text("Company"));
    assert GetCellValue(ws, 2, 1) == Some(Text("Company"));
    assert Fragments(ws, 1, 1) == ["company"];
  }

  lemma MixedCaseMergedHeaderRepeats()
    ensures AnchorsAgree(MixedCaseSheet())
    ensures Fragments(MixedCaseSheet(), 1, 2) == ["company", "company"]
    ensures ParsedHeader(MixedCaseSheet()) == Success(HeaderInfo(2, ["company_company"]))
  {
    var ws := MixedCaseSheet();
    MixedCaseFragments();
    var table := FragmentTable(ws, 2, 2);
    assert Trimmed(table) == Some([["company", "company"]]) by {
      assert table[0] == ["company", "company"] && table[1] == [];
      assert table[..1] == [["company", "company"]];
      assert Trimmed(table) == Trimmed(table[..1]);
    }
    assert !Overflows(ws, 2, ws.MaxRow());
    assert NamesOf([["company", "company"]]) == ["company_company"] by {
      assert Text.Join(["company", "company"], "_") == "company_company";
    }
    ParsedHeaderOfTable(ws, 2, [["company", "company"]]);
  }

  /** Finding, corrected: compare the lower-cased text of the value with the last fragment. */
  function PushIntended(frags: seq<string>, v: Option<Value>): seq<string> {
    if v.Some? && (frags == [] || frags[|frags| - 1] != Text.Lower(Str(v.value)))
    then frags + [Text.Lower(Str(v.value))]
    else frags
  }

  function FragmentsIntended(ws: Worksheet, col: int, rows: int): (r: seq<string>)
    ensures forall i :: 0 <= i < |r| - 1 ==> r[i] != r[i + 1]
    decreases rows
  {
    if rows <= 0 then [] else PushIntended(FragmentsIntended(ws, col, rows - 1), GetCellValue(ws, rows, col))
  }

  /** Corrected: a column whose header rows all resolve to `v` gets exactly one fragment. */
  lemma {:induction false} RepeatedValueFragmentsIntended(ws: Worksheet, col: int, rows: nat, v: Value)
    requires rows >= 1
    requires forall row :: 1 <= row <= rows ==> GetCellValue(ws, row, col) == Some(v)
    ensures FragmentsIntended(ws, col, rows) == [Text.Lower(Str(v))]
    decreases rows
  {
    var low := Text.Lower(Str(v));
    assert GetCellValue(ws, rows, col) == Some(v);
    if rows > 1 {
      RepeatedValueFragmentsIntended(ws, col, rows - 1, v);
      assert FragmentsIntended(ws, col, rows) == PushIntended([low], Some(v));
    } else {
      assert FragmentsIntended(ws, col, rows) == PushIntended([], Some(v));
    }
  }

  /** Finding, as written: a header-only sheet with more columns than rows. */
  function WideHeaderSheet(): Worksheet {
    Worksheet(
      [[Plain(Some(Text("id"))), Plain(Some(Text("company"))), Plain(Some(Text("x")))],
       [Merged, Plain(None), Plain(None)]],
      3,
      [MergedRange(1, 2, 1, 1, Some(Text("id")))])
  }

  lemma WideHeaderOverflows()
    ensures AnchorsAgree(WideHeaderSheet())
    ensures ParsedHeader(WideHeaderSheet()) == Failure(FragmentIndexOutOfRange)
  {
    var ws := WideHeaderSheet();
    assert HasValue(ws, 1, 3) by {
      assert ws.CellAt(1, 3) == Plain(Some(Text("x")));
    }
    assert HeaderDepth(ws.merged) == Some(2) by {
      assert ws.merged[1..] == [];
    }
    ParsedHeaderOverflow(ws, 2);
  }

  lemma {:induction false} TrimmedIgnoresEmptyTail(s: seq<seq<string>>, k: nat)
    ensures Trimmed(s + seq(k, _ => [])) == Trimmed(s)
    decreases k
  {
    if k > 0 {
      var e: seq<seq<string>> := seq(k, _ => []);
      assert (s + e)[..|s + e| - 1] == s + seq(k - 1, _ => []);
      TrimmedIgnoresEmptyTail(s, k - 1);
    } else {
      assert s + seq(k, _ => []) == s;
    }
  }

  /** A table larger than the column count only adds empty slots at the end. */
  lemma WideTableTrimsAlike(ws: Worksheet, d: int, size: nat)
    requires size >= ws.maxColumn
    ensures Trimmed(FragmentTable(ws, d, size)) == Trimmed(FragmentTable(ws, d, ws.maxColumn))
  {
    var a := FragmentTable(ws, d, size);
    var b := FragmentTable(ws, d, ws.maxColumn);
    var e: seq<seq<string>> := seq(size - ws.maxColumn, _ => []);
    assert a == b + e by {
      forall i | 0 <= i < size ensures a[i] == (b + e)[i] {
        if i < ws.maxColumn {
          assert a[i] == b[i];
        }
      }
    }
    TrimmedIgnoresEmptyTail(b, size - ws.maxColumn);
  }

  /** A table smaller than the column count, with no value past it, misses only empty slots. */
  lemma NarrowTableTrimsAlike(ws: Worksheet, d: int, size: nat)
    requires size < ws.maxColumn && !Overflows(ws, d, size)
    ensures Trimmed(FragmentTable(ws, d, size)) == Trimmed(FragmentTable(ws, d, ws.maxColumn))
  {
    NarrowTablePadded(ws, d, size);
    TrimmedIgnoresEmptyTail(FragmentTable(ws, d, size), ws.maxColumn - size);
  }

  /** The column-sized table is the smaller table padded with empty slots. */
  lemma NarrowTablePadded(ws: Worksheet, d: int, size: nat)
    requires size < ws.maxColumn && !Overflows(ws, d, size)
    ensures FragmentTable(ws, d, ws.maxColumn) == FragmentTable(ws, d, size) + seq(ws.maxColumn - size, _ => [])
  {
    var a := FragmentTable(ws, d, size);
    var b := FragmentTable(ws, d, ws.maxColumn);
    var e: seq<seq<string>> := seq(ws.maxColumn - size, _ => []);
    forall i | 0 <= i < ws.maxColumn
      ensures b[i] == (a + e)[i]
    {
      if i >= size {
        NoOverflowColumnEmpty(ws, d, size, i + 1);
      }
    }
  }

  /** Without overflow, a column past the table has no fragments. */
  lemma NoOverflowColumnEmpty(ws: Worksheet, d: int, size: nat, col: int)
    requires !Overflows(ws, d, size) && size < col <= ws.maxColumn
    ensures Fragments(ws, col, d) == []
  {
    forall row | 1 <= row <= d
      ensures !HasValue(ws, row, col)
    {
      if HasValue(ws, row, col) {
        assert Overflows(ws, d, size);
      }
    }
    NoValuesNoFragments(ws, col, d);
  }

  /**
   * Corrected, and how far the code agrees with it: whenever no header value falls past
   * the table, a table of any size gives the same result as one slot per column; a table
   * with one slot per column never overflows.
   */
  lemma SizeIrrelevantWithoutOverflow(ws: Worksheet, size: nat)
    requires HeaderDepth(ws.merged).Some? ==> !Overflows(ws, HeaderDepth(ws.merged).value, size)
    ensures ParseHeaderSized(ws, size) == ParseHeaderSized(ws, ws.maxColumn)
    ensures ParseHeaderSized(ws, ws.maxColumn) != Failure(FragmentIndexOutOfRange)
  {
    if HeaderDepth(ws.merged).Some? {
      var d := HeaderDepth(ws.merged).value;
      if size >= ws.maxColumn {
        WideTableTrimsAlike(ws, d, size);
      } else {
        NarrowTableTrimsAlike(ws, d, size);
      }
      assert !Overflows(ws, d, ws.maxColumn);
    }
  }
}
