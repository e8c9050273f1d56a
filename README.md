# XLSX_parser core, modelled in Dafny

This project models the core of XLSX_parser, a Django application. The application
accepts an uploaded Excel workbook. It reads a table whose header may span several rows
of merged cells, and turns each header column into one field name. It checks those names
against the fields of the stored data model, and reads every data row into a record
keyed by field name. Each stored row gets a random date of one month.

The model covers `app/core/forms.py`:

- `XLSParser` (header parsing, cell resolution, trailing-column trimming, row reading);
- the header check of `XLSUploadForm` (`add_header_error`, `check_header`, `clean`);
- the deterministic part of `RandomDatePicker` (validators, the month's dates, the choice).

Modules:

- `Wrappers` holds `Option` and `Result`. Python exceptions become `Failure` values.
- `Text` holds the string operations used: ASCII `str.lower`, `str(int)`, `sep.join`,
  and `str.split` as the partner of `join`.
- `Sheet` is the worksheet as the parser sees it. It is a grid of plain or merged cells,
  a column count, and the merged ranges in library order. Each range carries its anchor
  cell's value. Cells resolve as `__get_cell_value` resolves them.
- `Header` is the pure specification of `__parse_header` and `__cut_off_tail`. It also
  holds the lemmas about them and the first two findings.
- `Parser` holds the class `XLSParser`. Its fields are the worksheet,
  `dataRowsStartIndex`, `fieldNames` and `tableWidth`. Its methods carry the source's loops:
  - the nested header loop over an `array` of fragment lists;
  - the popping `while` loop of `__cut_off_tail`;
  - the row loop of `data`.

  Each method is proved against the `Header` and `Parser` specification functions.
  The constructor in the source can raise, so it is modelled as `XLSParser.Open`, which
  returns a `Result`.
- `Schema` holds the list comprehensions and messages of `check_header`.
- `UploadForm` holds the class `XLSUploadForm`. Its field `fileErrors` collects the
  errors added to the `file` field.
- `Dates` holds the proleptic Gregorian calendar, `calendar.Calendar().itermonthdates`,
  the validators, `RandomDatePicker` as a value, and `PickDate`.

There is no fallback when no merged range starts at row 1: `max([])` raises at
`app/core/forms.py:72`, and `clean` reports "Incompatible file!".
`Header.ParsedHeaderNoRange` and `UploadForm.UploadErrorsSpec` state that behaviour.

## Model

| member | source | states |
|---|---|---|
| Sheet.FirstContaining | app/core/forms.py:35-39 | the index of the first merged range containing a coordinate: it contains the cell, no earlier range does, and `None` exactly when no range contains it |
| Sheet.MergedCellValue | app/core/forms.py:29-40 | `__merged_cell_value` as written: the anchor value of the first range containing the cell, or `''`; stated by FirstContaining and GetCellValueSpec |
| Sheet.GetCellValue | app/core/forms.py:42-50 | `__get_cell_value` as written: a plain cell's value, or the merged-cell lookup; stated by GetCellValueSpec |
| Sheet.GetCellValueSpec | app/core/forms.py:35-50 | a plain cell resolves to its own value; a merged cell resolves to the anchor value of the first range containing it, or to `''` when no range contains it |
| Sheet.RawValue | app/core/forms.py:92 | `cell.value` as the library gives it: a plain cell's value, `None` for a merged cell; stated by RowValues and RowRecordSpec |
| Header.HeaderDepth | app/core/forms.py:70-72 | `None` exactly when no merged range starts at row 1; otherwise the value is the `max_row` of such a range, and no such range ends lower |
| Header.Push | app/core/forms.py:78-79 | the test-and-append of one header cell as written, comparing the last fragment with the raw value; stated by Fragments, RepeatedValueFragments and MixedCaseFragments |
| Header.Fragments | app/core/forms.py:75-79 | a column's fragments are all lower-case, and there are at most as many as header rows |
| Header.FragmentTable | app/core/forms.py:74-79 | the table has exactly `size` slots; slot t holds column t+1's fragments when the sheet has that column, otherwise nothing |
| Header.Trimmed | app/core/forms.py:53-62 | `None` (popping an empty list) exactly when every list is empty; otherwise a non-empty prefix of the input, unchanged and in order, whose last list is non-empty, and every dropped list is empty |
| Header.TrimmedIdempotent | app/core/forms.py:53-62 | trimming a trimmed list changes nothing |
| Header.TrimmedIgnoresEmptyTail | app/core/forms.py:53-62 | appending any number of empty lists does not change the trimmed result |
| Header.NamesOf | app/core/forms.py:80 | one name per column list, each the list's fragments joined with `_` |
| Header.NoValuesNoFragments | app/core/forms.py:77-79 | a column with no resolved value in any header row gets no fragment, since `None` is never appended |
| Header.RepeatedValueFragments | app/core/forms.py:75-79 | a column whose header rows all resolve to the same value gets one fragment if that value is lower-case text, and otherwise one lower-cased copy per row |
| Header.ParseHeaderSized | app/core/forms.py:64-80 | `__parse_header` with a table of a given size; stated by ParsedHeaderWithoutOverflow, ParsedHeaderOfTable and SizeIrrelevantWithoutOverflow |
| Header.ParsedHeader | app/core/forms.py:64-80 | `__parse_header` as written, the table having `max_row` slots; stated by ParsedHeaderSuccess, ParsedHeaderNoRange, ParsedHeaderOverflow and ParsedHeaderEmpty |
| Header.ParsedHeaderSuccess | app/core/forms.py:64-80 | a successful parse has the deepest row-1 range as its depth, and name i is column i+1's fragments joined with `_`; the last name has a fragment and every later column has none; there are at least one and at most `max_row` names, and no more than the sheet's columns |
| Header.ParsedHeaderNoRange | app/core/forms.py:70-72 | the parse fails for want of a header range exactly when no merged range starts at row 1 |
| Header.ParsedHeaderOverflow | app/core/forms.py:74-78 | given a depth, the parse fails with an index error exactly when a header cell holding a value lies in a column past `max_row` |
| Header.ParsedHeaderWithoutOverflow | app/core/forms.py:74-80 | without that overflow, the parse is the trimmed fragment table: it is an empty-table failure when trimming fails, and otherwise the trimmed table's names |
| Header.ParsedHeaderOfTable | app/core/forms.py:72-80 | without overflow and with trimmed table `t`, the parse yields the depth and the names of `t` |
| Header.TableEmptyIff | app/core/forms.py:74-79 | without overflow, every table slot is empty exactly when every column of the sheet has no fragment |
| Header.EmptyTableNoFragments | app/core/forms.py:74-79 | without overflow, an all-empty table means no column of the sheet has a fragment |
| Header.NonEmptyTableHasFragment | app/core/forms.py:74-79 | a non-empty table slot is a sheet column with a fragment |
| Header.NoOverflowColumnEmpty | app/core/forms.py:74-79 | without overflow, a column past the table has no fragments |
| Header.ParsedHeaderEmpty | app/core/forms.py:53-80 | without overflow, the parse fails on an empty table exactly when no column has a fragment |
| Header.MixedCaseFragments | app/core/forms.py:78-79 | on a two-row merged header cell `Company`, the column's fragments are `company`, `company` |
| Header.MixedCaseMergedHeaderRepeats | app/core/forms.py:75-80 | that sheet, whose range anchor is its top-left cell, parses to the single field name `company_company` |
| Header.PushIntended | app/core/forms.py:78-79 | the test-and-append with the lower-cased value compared; stated by FragmentsIntended and RepeatedValueFragmentsIntended |
| Header.FragmentsIntended | app/core/forms.py:78-79 | with the lower-cased value compared, no two adjacent fragments of a column are equal |
| Header.RepeatedValueFragmentsIntended | app/core/forms.py:78-79 | with the lower-cased value compared, a column whose header rows all resolve to one value gets exactly one fragment |
| Header.WideHeaderOverflows | app/core/forms.py:74-78 | a header-only sheet with three named columns and two rows, whose range anchor is its top-left cell, fails with an index error |
| Header.WideTableTrimsAlike | app/core/forms.py:74-80 | a table with more slots than columns trims to the same result as one slot per column |
| Header.NarrowTableTrimsAlike | app/core/forms.py:74-80 | a table with fewer slots than columns, and no header value past them, trims to the same result as one slot per column |
| Header.NarrowTablePadded | app/core/forms.py:74-79 | without overflow, the column-sized table is the smaller table followed by empty slots |
| Header.SizeIrrelevantWithoutOverflow | app/core/forms.py:74-80 | unless a header value lies past the table, the parse does not depend on the table's size, and a table sized by columns never overflows |
| Parser.LastIndexOf | app/core/forms.py:91-92 | the index of the last occurrence of a key |
| Parser.RecordOf | app/core/forms.py:90-92 | the dictionary filled by `row_dict[field_names[t]] = ...` for t in order; stated by RecordOfLookup |
| Parser.RecordOfLookup | app/core/forms.py:90-92 | a row's record has exactly the field names as keys, and a repeated name keeps the value of its last column |
| Parser.RowValues | app/core/forms.py:89-92 | one value per column of the table width, entry t being `cell.value` of column t+1 (so a merged cell reads as `None`) |
| Parser.RowRecord | app/core/forms.py:89-92 | one row's dictionary over the first `table_width` columns; stated by RowRecordSpec |
| Parser.DataRecords | app/core/forms.py:88-94 | the `data` list as written, one dictionary per row from the start row to `max_row`; stated by DataRecordsSpec |
| Parser.RowRecordSpec | app/core/forms.py:90-92 | a row's record has the field names as keys, each with the raw value of the last column carrying that name |
| Parser.DataRecordsSpec | app/core/forms.py:88-94 | one record per sheet row from the start row to the last row, in row order; each record's keys are the field names, with each value the raw value of the last column carrying that name |
| Parser.XLSParser.Load | app/core/forms.py:22-25 | a freshly loaded parser holds the worksheet and no header yet |
| Parser.XLSParser.Open | app/core/forms.py:22-27 | opening succeeds exactly when the header parses, and fails with the parse's own error otherwise; an opened parser has start row = depth + 1, the parsed names, and a table width equal to the number of names |
| Parser.XLSParser.ParseHeader | app/core/forms.py:64-80 | the nested loops return the specified parse; the start row is set to depth + 1 before the table is filled, and is left alone when there is no header range |
| Parser.XLSParser.ReadHeaderRows | app/core/forms.py:75-79 | the loop over header rows fills the table exactly as specified, and stops exactly when a header value lies past the last slot |
| Parser.XLSParser.ReadHeaderRow | app/core/forms.py:75-79 | one header row advances every slot by that row's cell, and fails exactly when a value lies past the last slot |
| Parser.XLSParser.CutOffTail | app/core/forms.py:53-62 | the popping loop computes `Trimmed` |
| Parser.XLSParser.Data | app/core/forms.py:83-94 | on a constructed parser (Valid), the row loop builds exactly the specified records, starting at depth + 1 with the parsed names |
| Parser.XLSParser.ReadDataRow | app/core/forms.py:90-92 | the inner column loop of `data` builds exactly the row's specified dictionary |
| Schema.Without | app/core/forms.py:185-189 | the kept entries are exactly those not in the excluded list, and there are no more of them than entries |
| Schema.WithoutAppend | app/core/forms.py:185-189 | filtering keeps the input order |
| Schema.WithoutCounts | app/core/forms.py:185-189 | every kept entry keeps all its duplicates; excluded entries keep none |
| Schema.WithoutEmptyIff | app/core/forms.py:185-189 | nothing is kept exactly when every entry is excluded |
| Schema.AllowedFields | app/core/forms.py:166-167 | a field is allowed exactly when the data model has it and it is not one of the four unnecessary fields |
| Schema.HeaderError | app/core/forms.py:169-180 | there is a message exactly when there are error fields, and only one; it starts with the given text followed by `: ` |
| Schema.CheckHeader | app/core/forms.py:182-189 | the messages `check_header` adds, as written; stated by CheckHeaderMessages, CheckHeaderPassesIff and the two examples |
| Schema.CheckHeaderMessages | app/core/forms.py:182-189 | at most two messages; a missing name yields the missing-names message listing the allowed names absent from the header; a name not allowed yields the not-allowed message listing the header names not allowed, in header order |
| Schema.CheckHeaderPassesIff | app/core/forms.py:182-189 | no message is added exactly when the header's names and the allowed names are equal as sets |
| Schema.MissingNameExample | app/core/forms.py:186-187 | a header lacking the allowed name `company` yields exactly `Following names are missing: company` |
| Schema.NotAllowedNameExample | app/core/forms.py:188-189 | a header with the extra name `extra` yields exactly `Following names are not allowed: extra` |
| UploadForm.UploadErrors | app/core/forms.py:191-202 | the errors `clean` adds, as written; stated by UploadErrorsSpec |
| UploadForm.UploadErrorsSpec | app/core/forms.py:191-202 | cleaning adds no error exactly when the upload is a workbook whose header parses to the allowed names (as sets); a sheet without a row-1 merged range gets `Incompatible file!` |
| UploadForm.XLSUploadForm.constructor | app/core/forms.py:161-167 | a new form has no errors and no parser, and its allowed fields are the model's fields minus the unnecessary ones |
| UploadForm.XLSUploadForm.AddHeaderError | app/core/forms.py:169-180 | appends the header error message, if any, to the file field's errors |
| UploadForm.XLSUploadForm.CheckHeader | app/core/forms.py:182-189 | appends the missing-names message, then the not-allowed message |
| UploadForm.XLSUploadForm.Clean | app/core/forms.py:191-202 | appends exactly the upload's errors; on a successful parse it keeps the new parser, and otherwise the previous one |
| Text.Lower | app/core/forms.py:79 | the result has the input's length, is lower-case, and lowers each letter in place |
| Text.LowerIdempotent | app/core/forms.py:79 | lowering twice is lowering once |
| Text.LowerOfLowerCase | app/core/forms.py:79 | lowering a lower-case string leaves it as it is |
| Text.LowerChangesUpperCase | app/core/forms.py:78-79 | lowering a string with an upper-case letter changes it |
| Text.SplitJoin | app/core/forms.py:80 | joining fragments that do not contain the separator can be undone by splitting on it |
| Dates.DaysInMonth | app/core/forms.py:144 | a month has 28 to 31 days, and 29 exactly for February of a leap year |
| Dates.Weekday | app/core/forms.py:144 | the weekday is one of 0 (Monday) to 6 |
| Dates.Padding | app/core/forms.py:144 | fewer than 7 days of padding before and after the month, and the padded month spans whole weeks |
| Dates.LeadingDays | app/core/forms.py:144 | as many days as the leading padding, none of them in the month |
| Dates.TrailingDays | app/core/forms.py:144 | as many days as the trailing padding, none of them in the month |
| Dates.NoPaddingBeforeYearOne | app/core/forms.py:144 | January of year 1 starts on a Monday, so nothing of year 0 precedes it |
| Dates.PaddingAfterLastMonth | app/core/forms.py:144 | December 9999 is followed by two days of January 10000 |
| Dates.DayRun | app/core/forms.py:144 | the dates of a day range, one per day, in ascending order |
| Dates.MonthDays | app/core/forms.py:139-145 | every day of the month in ascending order; stated by MonthDaysSpec |
| Dates.InMonth | app/core/forms.py:145 | the filter keeps exactly the dates of the month and never lengthens the list |
| Dates.InMonthAppend | app/core/forms.py:145 | filtering a concatenation filters each part |
| Dates.InMonthKeepsAll | app/core/forms.py:145 | a list of dates all in the month is kept whole |
| Dates.InMonthDropsAll | app/core/forms.py:145 | a list of dates all in other months is dropped |
| Dates.InMonthPadded | app/core/forms.py:144-145 | filtering the month's days padded on both sides by dates of other months gives back exactly the month's days |
| Dates.InMonthIdempotent | app/core/forms.py:115 | filtering the month's dates again by month changes nothing |
| Dates.IterMonthDates | app/core/forms.py:144 | `calendar.Calendar().itermonthdates` consumed to the end, leading padding, then the month, then trailing padding; stated by IterMonthDatesSuccessIff and IterMonthDatesWholeWeeks |
| Dates.DatesList | app/core/forms.py:139-145 | `__dates_list` as written; stated by DatesListValue |
| Dates.IterMonthDatesSuccessIff | app/core/forms.py:144 | the month iteration succeeds exactly for month 1..12 of a year 1..9999, except December 9999; a bad month fails with the illegal-month error |
| Dates.IterMonthDatesWholeWeeks | app/core/forms.py:144 | for every listable month, the iteration yields whole weeks |
| Dates.DatesListValue | app/core/forms.py:139-145 | `__dates_list` succeeds exactly when the iteration does, and then holds exactly the month's own days |
| Dates.MonthDaysSpec | app/core/forms.py:139-145 | the month's days appear once each, in ascending day order, all in the month |
| Dates.ValidateYear | app/core/forms.py:117-126 | accepts exactly an integer in 1..9999 and returns it; otherwise the error message ends with the argument's repr |
| Dates.ValidateMonth | app/core/forms.py:128-137 | accepts exactly an integer in 1..12 and returns it; otherwise the error message ends with the argument's repr |
| Dates.PickerDates | app/core/forms.py:115 | for a year in 1..9999 and a month in 1..12 other than December 9999, the re-filtered list is exactly the month's days |
| Dates.PickerDatesFailure | app/core/forms.py:139-145 | any other year and month give the month iteration's error, which is the illegal-month error for a month outside 1..12 |
| Dates.MonthDaysInMonth | app/core/forms.py:115 | filtering the month's days by their month keeps them all |
| Dates.NewPicker | app/core/forms.py:103-115 | `RandomDatePicker.__init__` as written, with the clock and the draws as parameters; stated by NewPickerInvalidYear, NewPickerMonthWithoutYear, NewPickerYearAndMonth, NewPickerDrawnMonth and NewPickerNonEmpty |
| Dates.NewPickerInvalidYear | app/core/forms.py:103-108 | a supplied year outside 1..9999 raises the year error, whose message ends with the year's repr |
| Dates.NewPickerMonthWithoutYear | app/core/forms.py:110-113 | a month supplied with no year raises the year error for `None`, since line 113 validates the year argument |
| Dates.NewPickerYearAndMonth | app/core/forms.py:107-115 | a valid year with any supplied month builds a picker only for a year in 1..12; it picks the month numbered like the year, with exactly that month's days, and otherwise raises the illegal-month error for the year |
| Dates.NewPickerDrawnMonth | app/core/forms.py:103-115 | with no month supplied, the picker is for the drawn month of the given or drawn year, with exactly that month's days, unless the year is out of range or the month is December 9999, which raise the iteration's error |
| Dates.NewPickerNonEmpty | app/core/forms.py:103-115 | every picker the construction builds has a month in 1..12 and at least 28 dates, so `pick_date` (line 152) never meets an empty list |
| Dates.SuppliedMonthIgnored | app/core/forms.py:110-113 | year 2020 with month 5 fails with illegal month 2020; year 3 with month 5 yields month 3 |
| Dates.LastMonthFails | app/core/forms.py:124-126 | year 9999 is accepted, yet December 9999 fails on the year-10000 date of its last week |
| Dates.NewPickerIntended | app/core/forms.py:103-115 | the corrected construction, validating the month as a month; stated by NewPickerIntendedSpec |
| Dates.NewPickerIntendedSpec | app/core/forms.py:103-115 | with the month validated as a month and the month's days listed directly, valid arguments always build a picker for exactly the requested year and month; a bad month raises the month error |
| Dates.PickDate | app/core/forms.py:147-152 | an element of the picker's dates; an empty list is an error |

## Left out

- Reading the workbook file (`openpyxl.load_workbook`, first worksheet) is I/O. The model starts from a `Worksheet` value, and an unreadable upload is `None` in `UploadForm.Clean`.
- The library's merged-range order is taken as the order of the `merged` sequence. A merged cell's anchor value is carried in its range. `Sheet.AnchorsAgree` states that it equals the plain cell at the range's top-left corner, and the example sheets meet it. The general lemmas hold for every sheet and do not need it.
- `Parser.XLSParser.Data`: the worksheet's `max_row` is the grid's row count. A `MergedCell` reads as `None`, as `cell.value` does in the library.
- `Parser.XLSParser.CutOffTail` works on a sequence value. The source pops the caller's list in place; no caller sees that list afterwards.
- `Parser.XLSParser.Open`: a Python exception from `__init__` becomes a `Failure`. `clean` catches every exception, so `UploadForm.Clean` maps every failure to one message. The logging call is left out.
- `Text.Lower` lowers ASCII letters only. Unicode case mapping is left out.
- `str()` of non-integer cell values: a cell value is text or an integer. Floats, dates and booleans are left out.
- `Dates.ValidateYear` and `Dates.ValidateMonth` take an optional integer. The `isinstance` rejection of other Python types, and `bool` counting as `int`, are left out.
- `Dates.NewPicker`: the clock (`timezone.now().year`) and `random.randint` become parameters, `currentYear`, `drawnYear` and `drawnMonth`. Each `requires` is the range `randint` draws from.
- `Dates.PickDate`: `random.choice` is any element of the list. Its distribution is left out.
- Django form machinery is left out: `forms.Form`, `super().clean()` and `add_error` beyond appending to the file field's errors.
- `preprocess_data`, `save`, bulk creation and the rollback by deleting the file record are persistence and are left out.
- `app/core/views.py`, `app/core/models.py`, `app/core/admin.py` and `app/core/urls.py` are not part of this model. The data model's field names (`app/core/models.py:13-14, 39-50`) are passed to the form's constructor rather than read from the model.

## Findings

| source | as written | input that shows it | evidently intended | confidence | as-written member | corrected member |
|---|---|---|---|---|---|---|
| app/core/forms.py:78 | the de-duplication test compares the stored, lower-cased fragment with the raw cell value | a header cell `Company` merged over rows 1-2 gives the field name `company_company` | a value repeated down a merged header cell contributes one fragment | not executed | Header.MixedCaseMergedHeaderRepeats | Header.RepeatedValueFragmentsIntended |
| app/core/forms.py:74 | the fragment table has `worksheet.max_row` slots, one per row rather than one per column | a two-row sheet with three named header columns raises an index error | one slot per column, so a wide, short sheet parses | not executed | Header.WideHeaderOverflows | Header.SizeIrrelevantWithoutOverflow |
| app/core/forms.py:113 | a supplied month is replaced by `__validate_year(year)` | `RandomDatePicker(2020, 5)` raises an illegal-month error for 2020 | `self.month = self.__validate_month(month)` | not executed | Dates.SuppliedMonthIgnored | Dates.NewPickerIntendedSpec |
| app/core/forms.py:144 | the month's dates are taken from a week-padded iteration | `RandomDatePicker(9999)` with month 12 drawn at line 111 passes validation, then fails on 1 January 10000 | every validated year and month yields its dates | not executed | Dates.LastMonthFails | Dates.NewPickerIntendedSpec |
