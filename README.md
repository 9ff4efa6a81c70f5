# HR sheet to Postgres synchronisers, in Dafny

Four Python scripts copy the HR roster kept in a Google sheet into a
Postgres table. This project models what they do between reading the grid
and talking to the database, and proves what that logic promises.

- `code/hr_gsheet2db_dag.py` (an Airflow task) and
  `code/hr_merge2gsheet_20241022.py` share one scheme:
  - clean the header: strip every label, and name a blank one `col_{i+1}`;
  - drop and recreate `employee_records_for_IT_use`;
  - turn each row into a nine-field record: a stripped cell or `'NA'`;
  - normalise the two date fields with `parse_date`, which tries eight
    `strptime` formats in order and writes `YYYY-MM-DD`, or `'NA'` which
    becomes NULL;
  - insert each row in its own transaction, committed on success and
    rolled back on any exception, then go on with the next row.
  - The two copies of `parse_date` are the same function; so are the two
    loops. Only the VARCHAR widths differ.
- `code/hr_sheet2db.py` is the earliest variant:
  - labels and cells are used unstripped, and only a label equal to `''`
    is renamed;
  - a missing column gives NULL;
  - a row with an empty `Div` is skipped;
  - `clean_date` keeps any ten-character date text;
  - only IntegrityError and DataError are survived row by row. Any other
    error, including the IndexError of a short row, ends the run.
- `code/hr_merge2gsheet_20250213.py` upserts into `hr_merge_for_IT_use`,
  keyed on `10_number`:
  - it reads the rows `2..row_count` in windows of 800, columns A to S;
  - it pads each row to twenty cells;
  - it converts `YYYY/MM/DD` dates to `YYYY-MM-DD`, and anything else to NULL;
  - it upserts each row whose cell 9 is non-empty, and commits once per
    window. A refused statement raises out of the run.

The Dafny modules follow that structure:

| module | models |
|---|---|
| `Common` | values (text, NULL, date), records, the store's verdicts, column types |
| `Text` | `str.strip`, `str(n)`/`int(s)` on digit strings, `list.index` |
| `Dates` | `strptime` on the eight formats, `strftime('%Y-%m-%d')`, `parse_date`, the re-read of lines 139-140 |
| `Header` | both header clean-ups |
| `Store` | the two connections, as classes with `committed`/pending state |
| `RowMap` | the record building of the stripping variants |
| `AppendSync` | their per-row transactional loop |
| `GsheetDag`, `Merge20241022`, `Sheet2Db`, `Merge20250213` | one module per script |

The database's accept/refuse decision is a parameter, `admit`. Where a
lemma needs it, `HonoursWidths` says the store refuses a text longer than
its VARCHAR column.

Facts of the code the model relies on:
- `row_count = 2500` gives four windows, the last `[2402, 2500]`.
- A row too short for a header position is not padded:
  - `hr_gsheet2db_dag.py` and `hr_merge2gsheet_20241022.py` raise
    IndexError, which their catch-all turns into a skipped row;
  - `hr_sheet2db.py` raises IndexError and nothing catches it, so the
    run stops.
- `hr_merge2gsheet_20250213.py` isolates no row: it commits per window,
  and the first refused statement ends the run with the earlier windows
  committed.

## Model

| member | source | states |
|---|---|---|
| Text.TrimStart | code/hr_gsheet2db_dag.py:126 | `lstrip` removes a blank prefix and nothing else; what is left starts with a non-space |
| Text.TrimEnd | code/hr_gsheet2db_dag.py:126 | `rstrip` removes a blank suffix and nothing else; what is left ends with a non-space |
| Text.Strip | code/hr_gsheet2db_dag.py:75 | `str.strip()` (lines 75 and 126), defined as `TrimEnd` after `TrimStart`; its meaning is proved by StripKeepsCore (only whitespace cut, a non-space at each end), StripEmptyIffBlank, StripIdempotent and StripOfTrimmed |
| Text.StripKeepsCore | code/hr_gsheet2db_dag.py:126 | `strip` returns a contiguous slice with only whitespace on either side of it, and the slice neither starts nor ends with whitespace |
| Text.StripEmptyIffBlank | code/hr_gsheet2db_dag.py:126-129 | a cell strips to `''` exactly when it is all whitespace (both directions) |
| Text.StripIdempotent | code/hr_gsheet2db_dag.py:75 | stripping twice is stripping once |
| Text.StripOfTrimmed | code/hr_gsheet2db_dag.py:126 | a string that neither starts nor ends with whitespace is its own strip |
| Text.Decimal | code/hr_gsheet2db_dag.py:75 | `str(n)` is a non-empty digit string without a leading zero |
| Text.DecimalRoundTrip | code/hr_gsheet2db_dag.py:75 | `int(str(n)) == n` |
| Text.DecimalInjective | code/hr_gsheet2db_dag.py:75 | different numbers have different decimal renderings |
| Text.IndexOf | code/hr_gsheet2db_dag.py:126 | `header.index(col)` is the first position holding `col` |
| Header.ColumnLabel | code/hr_gsheet2db_dag.py:75 | a generated label starts with `col_` |
| Header.ColumnLabelClean | code/hr_gsheet2db_dag.py:75 | a generated label is non-empty and already stripped |
| Header.ColumnLabelInjective | code/hr_gsheet2db_dag.py:75 | two positions never get the same generated label |
| Header.SanitizeStripped | code/hr_gsheet2db_dag.py:75 | the header keeps its length; a blank label at position i becomes `col_{i+1}`, every other label is stripped |
| Header.SanitizeStrippedClean | code/hr_merge2gsheet_20241022.py:69 | after the clean-up no label is empty and none has whitespace around it |
| Header.SanitizeStrippedIdempotent | code/hr_gsheet2db_dag.py:75 | cleaning a cleaned header changes nothing |
| Header.SanitizeExact | code/hr_sheet2db.py:35 | the header keeps its length; only labels equal to `''` are renamed `col_{i+1}`, every other label is kept verbatim; no label is empty |
| Dates.DaysInMonth | code/hr_gsheet2db_dag.py:55 | a month has 28 to 31 days, and 29 exactly in February of a Gregorian leap year |
| Dates.DigitRun | code/hr_gsheet2db_dag.py:55 | the digit run a directive consumes is all digits and is followed by a non-digit or the end |
| Dates.Strptime | code/hr_gsheet2db_dag.py:55 | whatever `strptime` accepts is a real calendar day |
| Dates.Accepts | code/hr_gsheet2db_dag.py:41-55 | the digit groups a directive of the formats at lines 41-51 matches in `strptime` at line 55: `%Y` four digits, `%m` one or two worth 1 to 12, `%d` one or two worth 1 to 31; used through ReadDirectiveGroup and AcceptsText |
| Dates.ReadFields | code/hr_gsheet2db_dag.py:55 | the matching half of `strptime`: the directives' numbers read in order with the format's separator between them, and failure when any of the input is left over; its meaning is MatchGroups (success exactly for the three groups that suit) |
| Dates.Assemble | code/hr_gsheet2db_dag.py:55 | the day `strptime` builds from the three numbers in the format's field order (year-month-day, month-day-year or day-month-year); StrptimeGroups and StrptimeRender state the resulting day |
| Dates.ReadDirectiveGroup | code/hr_gsheet2db_dag.py:55 | a directive in front of a digit group reads exactly that group, when the group's width and value suit the directive |
| Dates.MatchGroups | code/hr_gsheet2db_dag.py:55 | three digit groups joined by one character match a format exactly when the character is its separator and each group suits its directive |
| Dates.StrptimeGroups | code/hr_gsheet2db_dag.py:55 | `strptime` on three joined digit groups gives the day they assemble to in the format's order, or fails |
| Dates.PadDigits | code/hr_gsheet2db_dag.py:56 | a zero-padded number has the width asked for, is all digits and reads back as the number |
| Dates.PadDigitsOfDigits | code/hr_gsheet2db_dag.py:56 | a digit group of width w is the zero-padded rendering of its value |
| Dates.IsoDate | code/hr_gsheet2db_dag.py:56 | `strftime('%Y-%m-%d')` gives ten characters shaped `YYYY-MM-DD` |
| Dates.RenderedShape | code/hr_gsheet2db_dag.py:56 | every rendered date is ten characters starting and ending with a digit |
| Dates.RenderOfGroups | code/hr_gsheet2db_dag.py:56 | digit groups of widths 4, 2 and 2 that name a day are that day's rendering in the format |
| Dates.AcceptsText | code/hr_gsheet2db_dag.py:55-56 | a number a date writes reads back as itself, and a directive accepts it exactly when its width and range suit that directive |
| Dates.StrptimeRender | code/hr_gsheet2db_dag.py:55-56 | round trip: a day written in a format is read back by that format as the same day |
| Dates.StrptimeOtherSeparator | code/hr_gsheet2db_dag.py:41-51 | a format with another separator never reads a rendered date |
| Dates.StrptimeYearClash | code/hr_gsheet2db_dag.py:41-51 | year-first and year-last formats never read each other's output |
| Dates.StrptimeCrossed | code/hr_gsheet2db_dag.py:41-51 | a day-first format reads a month-first date, and the other way round, as the swapped day when the day is at most 12, and fails otherwise |
| Dates.StrptimeRendered | code/hr_gsheet2db_dag.py:41-55 | what every one of the eight formats makes of a date written in any format |
| Dates.FirstSuccess | code/hr_gsheet2db_dag.py:53-58 | the loop returns the first attempt that succeeded and every earlier attempt failed; nothing exactly when all failed |
| Dates.FirstSuccessIs | code/hr_gsheet2db_dag.py:53-58 | an attempt that succeeded after only failures is the one the loop returns |
| Dates.ReadFirst | code/hr_gsheet2db_dag.py:53-59 | the loop's result is `'NA'` or `YYYY-MM-DD`-shaped |
| Dates.ParseDate | code/hr_gsheet2db_dag.py:33-59 | `parse_date` returns `'NA'` or a `YYYY-MM-DD`-shaped string |
| Dates.ParseDateFirstFormatWins | code/hr_gsheet2db_dag.py:41-58 | the first format, in the order of lines 41-51, that accepts the stripped input decides the date |
| Dates.ParseDateAbsent | code/hr_gsheet2db_dag.py:38-59 | `'NA'` comes out exactly for `''`, `'-'` and inputs that no format accepts (both directions) |
| Dates.ParseDateOfRendered | code/hr_gsheet2db_dag.py:38-55 | a rendered date skips the early `'NA'` and goes straight to the format loop |
| Dates.FirstRereader | code/hr_gsheet2db_dag.py:53-58 | for a date written in each of the eight formats, which format the loop stops at and as which day |
| Dates.ParseDateRendered | code/hr_gsheet2db_dag.py:41-58 | a day written in any of the eight formats comes out as itself, except that a day-first date whose day is at most 12 is swapped because `%m/%d/%Y` or `%m-%d-%Y` takes it first |
| Dates.ParseDateMonthFirst | code/hr_gsheet2db_dag.py:41-58 | any `'aa/bb/yyyy'` naming a valid day with month `aa` reads month-first as `yyyy-aa-bb`, day-first never getting a turn (so `'01/02/2024'` gives `2024-01-02`) |
| Dates.ParseDateDayFirst | code/hr_gsheet2db_dag.py:41-58 | `'aa/bb/yyyy'` with `aa` above 12 fails month-first and reads day-first: `yyyy-bb-aa` (so `'13/02/2024'` gives `2024-02-13`) |
| Dates.ReadFirstNoSuchDay | code/hr_gsheet2db_dag.py:53-59 | `YYYY-mm-dd` digit groups that name no real day are read by no format |
| Dates.ParseDateNoSuchDay | code/hr_gsheet2db_dag.py:53-59 | such a string, e.g. February 30 or month 13, gives `'NA'` |
| Dates.ParseDateNA | code/hr_gsheet2db_dag.py:38-59 | `'NA'` is no date and is returned as it is |
| Dates.ParseDateIdempotent | code/hr_gsheet2db_dag.py:33-59 | `parse_date(parse_date(s)) == parse_date(s)` |
| Dates.DateColumn | code/hr_gsheet2db_dag.py:139-140 | the date column re-read from `parse_date`'s output with `'%Y-%m-%d'`: NULL for `'NA'`, else the day, None where `strptime` raises; DateColumnAgrees gives its meaning |
| Dates.DateColumnAgrees | code/hr_gsheet2db_dag.py:135-140 | the re-read never raises; the date field is NULL exactly when `parse_date` gave `'NA'`, and otherwise a real day whose `YYYY-MM-DD` text is what `parse_date` gave |
| RowMap.CellValue | code/hr_gsheet2db_dag.py:126-129 | a present cell stripped, `'NA'` when nothing is left; CellValueMeaning and CellValueClean give its meaning |
| RowMap.CellText | code/hr_gsheet2db_dag.py:124-131 | the text appended for one column: the cell at `header.index(col)` through CellValue, `'NA'` for a missing column, None for the IndexError; CellTextMeaning gives its meaning |
| RowMap.CellValueMeaning | code/hr_gsheet2db_dag.py:126-129 | a present cell gives `'NA'` when blank and its strip otherwise |
| RowMap.CellValueClean | code/hr_gsheet2db_dag.py:126-129 | a cell's text is never empty and already stripped |
| RowMap.CellTextMeaning | code/hr_gsheet2db_dag.py:124-131 | a column's text is `'NA'` when the header lacks the column or its cell is blank, else the stripped cell at the first matching position; never empty, already stripped |
| RowMap.NotAvailableClean | code/hr_gsheet2db_dag.py:129-131 | the `'NA'` placeholder is non-empty and stripped |
| RowMap.TextsOf | code/hr_gsheet2db_dag.py:123-132 | one text per column, in column order; the ensures only lays out the list, and the meaning of each entry is proved on the element function by CellTextMeaning |
| RowMap.Texts | code/hr_gsheet2db_dag.py:111-132 | nine texts, in the column order of lines 111-115; the ensures only lays out the list, and the meaning of each entry is proved on the element function by CellTextMeaning |
| RowMap.TextsOfColumns | code/hr_gsheet2db_dag.py:111-132 | the loop over any column list, on the table's columns, is the table's record loop |
| RowMap.WithDates | code/hr_gsheet2db_dag.py:135-140 | the record holds the two date values in slots 4 and 5 and the texts everywhere else |
| RowMap.ColumnText | code/hr_gsheet2db_dag.py:125-131 | one pass of the column loop computes the column's cell text, or raises IndexError |
| RowMap.CollectTexts | code/hr_gsheet2db_dag.py:123-132 | the column loop finishes exactly when every named column lies within the row, and then holds every column's text |
| RowMap.BuildRecord | code/hr_gsheet2db_dag.py:123-140 | the record-building statements compute the row's record, or the exception they raise |
| RowMap.StrippedRecord | code/hr_gsheet2db_dag.py:122-140 | the record built for a row, or None where building raises; its meaning is StrippedRecordDefined, StrippedRecordText, StrippedRecordDate and StrippedRecordFrom, and BuildRecord is proved to compute it |
| RowMap.StrippedRecordFrom | code/hr_gsheet2db_dag.py:135-140 | the record of a long enough row is its texts with the two re-read dates in place |
| RowMap.StrippedRecordDefined | code/hr_gsheet2db_dag.py:123-140 | a record is built exactly when the row reaches every named column (the date re-read never raises), and it has nine fields |
| RowMap.StrippedRecordText | code/hr_gsheet2db_dag.py:111-132 | each text field of the record is the column's cell text |
| RowMap.StrippedRecordDate | code/hr_gsheet2db_dag.py:135-140 | each date field is NULL exactly when `parse_date` of its cell text gave `'NA'`, and otherwise the day that text names |
| AppendSync.Admitted | code/hr_gsheet2db_dag.py:142-153 | a row adds its record exactly when the record was built and the store accepted it, and adds nothing else |
| AppendSync.RowInsert | code/hr_gsheet2db_dag.py:120-153 | what one loop pass adds to the committed table, through Admitted: the built record when the store accepts it, nothing otherwise; InsertRow is proved to add exactly this |
| AppendSync.Builds | code/hr_gsheet2db_dag.py:120 | one built record (or failure) per row, in row order; the ensures only lays out the list, and the meaning of each entry is proved on the element function StrippedRecord (StrippedRecordDefined, StrippedRecordText, StrippedRecordDate) |
| AppendSync.BuildsAppend | code/hr_gsheet2db_dag.py:120 | building the records of `a + b` builds those of `a`, then those of `b` |
| AppendSync.BuildsSnoc | code/hr_gsheet2db_dag.py:120-153 | one more row adds what its own record adds |
| AppendSync.Stored | code/hr_gsheet2db_dag.py:120-153 | the records a run of the loop over built records leaves committed, in order; StoredAppend, StoredMembers and StoredBound give its meaning |
| AppendSync.StoredAppend | code/hr_gsheet2db_dag.py:120-153 | the rows' additions concatenate |
| AppendSync.StoredMembers | code/hr_gsheet2db_dag.py:142-153 | a record is stored exactly when the store accepts it and some row built it |
| AppendSync.StoredBound | code/hr_gsheet2db_dag.py:120-153 | no more records are stored than rows |
| AppendSync.Inserted | code/hr_gsheet2db_dag.py:120-153 | the records the loop leaves committed for the sheet rows; InsertedMembers (a record is there exactly when some row built it and the store accepted it), InsertedAppend, InsertedSnoc and InsertedBound give its meaning, and InsertRows is proved to commit it |
| AppendSync.InsertedAppend | code/hr_gsheet2db_dag.py:120-153 | rows are independent: the table after `a + b` is the table after `a`, then what `b` adds |
| AppendSync.InsertedSnoc | code/hr_gsheet2db_dag.py:120-153 | one more row adds exactly what that row adds |
| AppendSync.InsertedMembers | code/hr_gsheet2db_dag.py:120-153 | the table holds a record exactly when the store accepted it and some row's record is that record |
| AppendSync.InsertedBound | code/hr_gsheet2db_dag.py:120-153 | at most one record per row is stored |
| AppendSync.ShortRowSkipped | code/hr_gsheet2db_dag.py:126-151 | a row too short for a named column (IndexError, caught by the catch-all) adds nothing, and the loop goes on with the rows after it |
| AppendSync.InsertedFitsWidths | code/hr_gsheet2db_dag.py:93-104 | when the store refuses over-long text, every stored record fits the declared widths; this restates the store's VARCHAR rule (`HonoursWidths`) over the stored records rather than a property of the script itself |
| AppendSync.InsertBuilt | code/hr_gsheet2db_dag.py:142-153 | the handlers of one pass: the table grows by the row's record on success and is as before otherwise; no transaction is left open |
| AppendSync.InsertRow | code/hr_gsheet2db_dag.py:121-153 | one pass of the loop body leaves the table grown by exactly what the row adds, with no transaction open |
| AppendSync.InsertRows | code/hr_gsheet2db_dag.py:120-153 | the loop leaves the table grown by exactly the accepted records of the rows, in sheet order |
| GsheetDag.Run | code/hr_gsheet2db_dag.py:61-153 | an empty sheet changes nothing; otherwise the table is recreated and holds exactly the accepted records of the data rows under the cleaned header, each within the widths of lines 95-103 when the store enforces them |
| Merge20241022.Run | code/hr_merge2gsheet_20241022.py:55-153 | the same as `GsheetDag.Run`, with the widths of lines 90-98 |
| Merge20241022.LaidOutReaches | code/hr_merge2gsheet_20241022.py:121-124 | under a header laid out as lines 106-110, a nine-cell row reaches every column |
| Merge20241022.LaidOutText | code/hr_merge2gsheet_20241022.py:121-132 | under such a header, column k takes its text from cell k |
| Merge20241022.WorkedTexts | code/hr_merge2gsheet_20241022.py:120-132 | for a row with a blank Div, a `'-'` resigned date and clean reporting date and `10_Number`: Div is `'NA'`, and the other three fields are their cells' texts |
| Merge20241022.SlashDateColumn | code/hr_merge2gsheet_20241022.py:135-140 | a `YYYY/MM/DD` date field holds that day; a `'-'` one is NULL |
| Merge20241022.WorkedRow | code/hr_merge2gsheet_20241022.py:120-140 | such a row whose reporting date is written `YYYY/MM/DD` becomes the record with Div `'NA'`, that reporting day, a NULL resigned date and the `10_Number` as written |
| Sheet2Db.RawRecord | code/hr_sheet2db.py:82 | the record exists exactly when the row reaches every named column; it has nine fields, each the raw cell at the first matching header position, or NULL for a missing column |
| Sheet2Db.CleanDate | code/hr_sheet2db.py:90-93 | `clean_date` keeps the value or makes it NULL, and keeps it exactly when it is a text of ten characters |
| Sheet2Db.CleanDateLengthOnly | code/hr_sheet2db.py:90-93 | no calendar check: `'2024/13/45'` is kept, while `'2024-3-1'`, `'-'` and NULL become NULL |
| Sheet2Db.Cleaned | code/hr_sheet2db.py:95-96 | only the two date fields change, each through `clean_date` |
| Sheet2Db.DivEmpty | code/hr_sheet2db.py:85 | `not record[0]`: the Div entry is NULL or the empty string; StoredStep shows no stored record has it |
| Sheet2Db.RowStep | code/hr_sheet2db.py:80-107 | what one row does: stop on the IndexError of line 82, skip an empty Div, commit an accepted record, roll back on IntegrityError or DataError, stop on any other error; StoredStep, ShortRowStops and SyncRow give its meaning |
| Sheet2Db.Added | code/hr_sheet2db.py:98-107 | a row adds one record exactly when it was stored |
| Sheet2Db.StoredStep | code/hr_sheet2db.py:84-107 | a stored record has a non-empty Div, was accepted, and has cleaned dates |
| Sheet2Db.Sync | code/hr_sheet2db.py:80-117 | the records the row loop leaves committed and whether it reached the end; SyncAppend, SyncSnoc, SyncStoredRecords, StopsThere and SyncFitsWidths give its meaning, and SyncRows is proved to commit it |
| Sheet2Db.SyncAppend | code/hr_sheet2db.py:80-107 | a run over `a + b` runs `a`, then `b` only when `a` reached its end |
| Sheet2Db.SyncSnoc | code/hr_sheet2db.py:80-107 | one more row is looked at only when the run so far reached its end; it adds its step's record |
| Sheet2Db.SyncStoredRecords | code/hr_sheet2db.py:80-107 | every stored record has a non-empty Div, was accepted and has cleaned dates |
| Sheet2Db.SyncFitsWidths | code/hr_sheet2db.py:53-65 | when the store refuses over-long text, every stored record fits the declared widths; this restates the store's VARCHAR rule (`HonoursWidths`) over the stored records rather than a property of the script itself |
| Sheet2Db.StopsThere | code/hr_sheet2db.py:80-117 | a row whose exception is not caught ends the run: what was committed before it stays, nothing after it is looked at |
| Sheet2Db.ShortRowStops | code/hr_sheet2db.py:82-117 | in particular a row too short for a named column (IndexError at line 82) ends the run |
| Sheet2Db.SyncRow | code/hr_sheet2db.py:81-107 | one pass: Div-empty rows are skipped; an accepted record is committed; IntegrityError and DataError roll back and continue; any other error stops |
| Sheet2Db.SyncRows | code/hr_sheet2db.py:80-107 | the loop leaves the table grown by exactly the records the run stores, up to the first row that stops it |
| Sheet2Db.Run | code/hr_sheet2db.py:21-107 | an empty sheet changes nothing; otherwise the table is recreated and holds what the loop stores under the exactly-cleaned header |
| Merge20250213.WindowsFrom | code/hr_merge2gsheet_20250213.py:74-75 | the windows `range(start, total + 1, BATCH_SIZE)` with `end = min(start + BATCH_SIZE - 1, total)`; WindowsTile and WindowsCount give its meaning |
| Merge20250213.Windows | code/hr_merge2gsheet_20250213.py:74-75 | the windows of the data rows 2 to `total`; WindowsOf2500 and FetchedAll give its meaning |
| Merge20250213.WindowsTile | code/hr_merge2gsheet_20250213.py:74-75 | the windows tile `start..total`: none exactly when the range is empty; each is non-empty, within the range and at most 800 rows; all but the last are full; contiguous, ascending, first at `start`, last ending at `total` |
| Merge20250213.WindowsCount | code/hr_merge2gsheet_20250213.py:74-75 | there are `ceil((total - start + 1) / 800)` windows |
| Merge20250213.WindowsOf2500 | code/hr_merge2gsheet_20250213.py:33-75 | `row_count = 2500` gives four windows, the last `[2402, 2500]` |
| Merge20250213.Clip | code/hr_merge2gsheet_20250213.py:76 | a fetched row is a prefix of the sheet row, at most 19 cells, and the whole row when it is that short |
| Merge20250213.ClipAll | code/hr_merge2gsheet_20250213.py:76 | every row of a fetch is clipped to columns A to S; the ensures only lays out the list, and the meaning of each entry is proved on the element function Clip |
| Merge20250213.ClipAllAppend | code/hr_merge2gsheet_20250213.py:76 | clipping distributes over concatenated rows |
| Merge20250213.Span | code/hr_merge2gsheet_20250213.py:76 | a range of rows fetches rows of at most 19 cells |
| Merge20250213.SpanSplit | code/hr_merge2gsheet_20250213.py:76 | fetching `lo..hi` fetches `lo..mid`, then `mid..hi` |
| Merge20250213.Fetch | code/hr_merge2gsheet_20250213.py:76 | a window fetches rows of at most 19 cells |
| Merge20250213.Fetched | code/hr_merge2gsheet_20250213.py:76 | the rows the windows fetch, one window after the other; FetchedStep, FetchedFrom and FetchedAll give its meaning |
| Merge20250213.DataRows | code/hr_merge2gsheet_20250213.py:76 | the data rows `2..total` cut to columns A to S, the reference FetchedAll compares the windows' fetches with |
| Merge20250213.FetchedStep | code/hr_merge2gsheet_20250213.py:74-76 | the first window fetches its rows, then the next windows follow |
| Merge20250213.FetchedFrom | code/hr_merge2gsheet_20250213.py:74-76 | the windows from `start` fetch the rows `start..total`, each once and in order |
| Merge20250213.FetchedAll | code/hr_merge2gsheet_20250213.py:74-76 | every data row is fetched exactly once, in sheet order |
| Merge20250213.Padded | code/hr_merge2gsheet_20250213.py:80-83 | a row shorter than 20 is padded with `''` to 20; its cells are unchanged; a longer row is untouched |
| Merge20250213.PadRow | code/hr_merge2gsheet_20250213.py:80-83 | the append loop computes the padded row |
| Merge20250213.SlashDate | code/hr_merge2gsheet_20250213.py:86-100 | a date cell becomes NULL or a `YYYY-MM-DD` text, and a text exactly when `%Y/%m/%d` reads it |
| Merge20250213.SlashDateRoundTrip | code/hr_merge2gsheet_20250213.py:90-100 | a day written `YYYY/MM/DD` is passed on as the same day written `YYYY-MM-DD` |
| Merge20250213.SlashDateSameDay | code/hr_merge2gsheet_20250213.py:92 | the text passed on names the day the cell named |
| Merge20250213.SlashDateOtherLayouts | code/hr_merge2gsheet_20250213.py:90-100 | a date written in any other of the eight layouts, `'2024-03-01'` among them, becomes NULL |
| Merge20250213.UpsertTuple | code/hr_merge2gsheet_20250213.py:131-134 | eighteen parameters: the key is cell 9, the dates are the converted cells 7 and 8, `active` is cell 19 |
| Merge20250213.UpsertTupleIgnoresRS | code/hr_merge2gsheet_20250213.py:131-134 | cells 17 and 18 (columns R and S) are never written |
| Merge20250213.ActiveAlwaysEmpty | code/hr_merge2gsheet_20250213.py:76-134 | because a fetch has at most 19 cells, `active` is always padding, `''` |
| Merge20250213.RowUpsert | code/hr_merge2gsheet_20250213.py:103-135 | a row makes a statement exactly when its padded cell 9 is non-empty, whitespace included; it writes a record carrying that key under that key |
| Merge20250213.Statements | code/hr_merge2gsheet_20250213.py:78-135 | one statement, or none, per fetched row, in order; the ensures only lays out the list, and the meaning of each entry is proved on the element function RowUpsert |
| Merge20250213.StatementsAppend | code/hr_merge2gsheet_20250213.py:78 | the statements of concatenated rows concatenate |
| Merge20250213.Apply | code/hr_merge2gsheet_20250213.py:78-135 | the statements of the row loop run in order: an accepted upsert sets its key's whole record, a row without statement is skipped, the first refusal raises; ApplyAppend, ApplyOverride, ApplyIdempotent, ApplyWrites, ApplyUntouched, ApplyLastWrite and ApplyKeyedRight give its meaning |
| Merge20250213.ApplyAppend | code/hr_merge2gsheet_20250213.py:104-130 | running `a + b` runs `a`, then `b` only when `a` raised nothing |
| Merge20250213.ApplyOverride | code/hr_merge2gsheet_20250213.py:112-129 | what the statements write does not depend on the table's previous content, and every other key keeps its record |
| Merge20250213.ApplyFromEmpty | code/hr_merge2gsheet_20250213.py:112-129 | over any table, the statements write what they write over an empty one |
| Merge20250213.ApplyIdempotent | code/hr_merge2gsheet_20250213.py:104-130 | replaying the same rows leaves the table as running them once |
| Merge20250213.ApplyWrites | code/hr_merge2gsheet_20250213.py:104-130 | every key whose record changes is some statement's key |
| Merge20250213.ApplyUntouched | code/hr_merge2gsheet_20250213.py:104-130 | a key that no statement writes keeps its record |
| Merge20250213.ApplyLastWrite | code/hr_merge2gsheet_20250213.py:112-129 | last write wins, in full: after a run without error, a key holds the whole record of the last statement that wrote it |
| Merge20250213.ApplyKeyedRight | code/hr_merge2gsheet_20250213.py:58 | keyed statements keep every record under its own non-empty `10_number` |
| Merge20250213.StatementsKeyed | code/hr_merge2gsheet_20250213.py:103 | every statement the rows make is keyed |
| Merge20250213.ApplyFit | code/hr_merge2gsheet_20250213.py:47-68 | when the store refuses over-long text, upserts keep every record within the widths of lines 49-66; this restates the store's VARCHAR rule (`HonoursWidths`) over the stored records rather than a property of the script itself |
| Merge20250213.RunBatches | code/hr_merge2gsheet_20250213.py:74-137 | the window loop: each window's statements applied and committed at line 137, a raising window discarded and no later window run; Completed, RunBatchesCommits, RunBatchesStops and RunBatchesKeeps give its meaning |
| Merge20250213.Completed | code/hr_merge2gsheet_20250213.py:74-137 | a run commits at most as many windows as there are |
| Merge20250213.RunBatchesCommits | code/hr_merge2gsheet_20250213.py:74-137 | a run without error commits what running all the windows' statements at once would |
| Merge20250213.RunBatchesStops | code/hr_merge2gsheet_20250213.py:74-137 | a run that raises has committed the windows before the failing one, without error, and the failing window's statements fail |
| Merge20250213.RunBatchesKeeps | code/hr_merge2gsheet_20250213.py:47-137 | whatever is committed keeps records under their own keys and within the widths |
| Merge20250213.WindowStatements | code/hr_merge2gsheet_20250213.py:74-135 | each window's statements are those of the rows it fetches; the ensures only lays out the list, and WindowStatementsFlatten gives it meaning |
| Merge20250213.WindowStatementsFlatten | code/hr_merge2gsheet_20250213.py:74-135 | the windows' statements, one after the other, are the statements of all fetched rows |
| Merge20250213.Upserted | code/hr_merge2gsheet_20250213.py:72-138 | what `upsert_data` leaves committed; UpsertedAllRows, UpsertedStops and UpsertedKeeps give its meaning, and UpsertData is proved to commit it |
| Merge20250213.UpsertedAllRows | code/hr_merge2gsheet_20250213.py:72-138 | a run without error leaves the table every data row's upsert, in sheet order, makes |
| Merge20250213.UpsertedStops | code/hr_merge2gsheet_20250213.py:72-138 | a run that raises keeps exactly the rows of the earlier windows, and the failing window's rows make a statement fail |
| Merge20250213.UpsertedKeeps | code/hr_merge2gsheet_20250213.py:72-138 | the committed table keeps records under their own keys, and within the widths when the store enforces them |
| Merge20250213.UpsertRow | code/hr_merge2gsheet_20250213.py:103-135 | one row's statement is run against the open transaction, or skipped for an empty key; nothing is committed |
| Merge20250213.UpsertBatch | code/hr_merge2gsheet_20250213.py:78-135 | the row loop of one window runs its statements until one raises |
| Merge20250213.UpsertWindow | code/hr_merge2gsheet_20250213.py:75-137 | one window is fetched, run and committed; on a refused statement nothing of it is committed |
| Merge20250213.UpsertData | code/hr_merge2gsheet_20250213.py:72-138 | `upsert_data` commits exactly what `Upserted` says and reports whether it raised |
| Merge20250213.Run | code/hr_merge2gsheet_20250213.py:141-156 | the script leaves the table `Upserted` describes, and the connection closed |
| Store.AppendConnection.constructor | code/hr_gsheet2db_dag.py:78-85 | a new connection sees the table as committed, with no open work |
| Store.AppendConnection.Recreate | code/hr_gsheet2db_dag.py:87-107 | drop and create leave the table empty and committed |
| Store.AppendConnection.Insert | code/hr_gsheet2db_dag.py:142 | an accepted insert adds the record to the open transaction; a refused one aborts the transaction; nothing is committed |
| Store.AppendConnection.Commit | code/hr_gsheet2db_dag.py:152-153 | commit makes the open work permanent, unless the transaction aborted |
| Store.AppendConnection.Rollback | code/hr_gsheet2db_dag.py:143-151 | rollback discards the open work and keeps the committed table |
| Store.KeyedConnection.constructor | code/hr_merge2gsheet_20250213.py:143-149 | a new connection sees the committed table |
| Store.KeyedConnection.Upsert | code/hr_merge2gsheet_20250213.py:104-135 | an accepted upsert sets the key's whole record in the open transaction, other keys unchanged; a refused one aborts it |
| Store.KeyedConnection.Commit | code/hr_merge2gsheet_20250213.py:137 | commit makes the transaction's table the committed one, unless the transaction aborted |
| Store.KeyedConnection.Close | code/hr_merge2gsheet_20250213.py:155-156 | close discards the open transaction and keeps the committed table |

## Left out

- The Google sheet and gspread (`open`, `worksheet`, `get_all_values`, `get`, `row_values`, `row_count`) and the OAuth set-up are not modelled. The grid is a parameter, and so is `row_count` (`total`). gspread's trimming of trailing empty cells and rows is not modelled: any grid is allowed.
- The database's own decision to accept or refuse a statement is an abstract `admit` function. Only the VARCHAR width rule is stated, as `HonoursWidths`. Postgres's trailing-space allowance for VARCHAR and the date-type checks are not modelled. SQL text, `columns_str`/`placeholders` and cursors are left out. The DROP/CREATE statements are modelled as always succeeding.
- Store.KeyedConnection.constructor: `create_table_if_not_exists` is modelled by starting from whatever keyed table exists. Its schema is assumed to be the one of lines 47-68.
- Airflow wiring, dotenv, environment variables and credentials are configuration and are not modelled.
- Printing and `skipped_records.txt` are logging only, and are left out.
- The outer exception handlers and `finally` blocks are process plumbing, so are not modelled. This includes the NameError that `hr_sheet2db.py` and `hr_merge2gsheet_20241022.py` raise in `finally` when the sheet is empty. The `Run` methods state only that an empty sheet leaves the table unchanged.
- The UTF-8 `encode`/`decode(..., 'ignore')` of `hr_merge2gsheet_20241022.py` line 129 is a codec detail. Strings here are already valid text, so it is the identity.
- `strptime` is modelled for the eight formats over ASCII digits:
  - `%Y` is exactly four digits;
  - `%m` and `%d` are one or two digits;
  - separators are literal, and the whole string must be used.
  - Space-padded numbers, Unicode digits and other directives are not modelled.
- Dates.IsoDate: `strftime('%Y-%m-%d')` is modelled as zero-padding the year to four digits for every year. CPython's output for years below 1000 depends on the platform. So the re-read at lines 139-140 is proved to agree with `parse_date` for all years, including the ones a platform may print unpadded.
- `datetime.date` is modelled as a (year, month, day) triple checked by the Gregorian rule for years 1 to 9999.
- Merge20241022.WorkedRow: stated for a family of rows (any blank Div, any `YYYY/MM/DD` reporting date, `'-'` as the resigned date, any clean `10_Number`), such as `['', 'Jane Doe', 'Eng', '', '2024/03/01', '-', '1234567890', 'D1', '']`, rather than for one row of literals.
- Merge20250213.Run: when the run raises, the exception propagates after `conn.close()`. The model reports it as `ok == false`.
