/**
 * hr_merge2gsheet_20241022.py, the module-level script: the
 * whole sheet replaces the table `employee_records_for_IT_use`.
 */
module Merge20241022 {
  import opened Common
  import opened Header
  import opened AppendSync
  import opened Store
  import opened Text
  import opened Dates
  import opened RowMap

  /** The declared column types of `employee_records_for_IT_use`, in column order. */
  const Schema: seq<ColumnType> := [
    Varchar(10), Varchar(40), Varchar(10), Varchar(10),    // Div, Formal_Name, Department, Cost_Centre
    SqlDate, SqlDate,                                      // Reporting_date, Resigned_date
    Varchar(10), Varchar(8), Varchar(8)                    // 10_Number, Department_Code, Cost_Centre_Code
  ]

  /**
   * One run over the sheet's values `data`. An empty sheet raises before the
   * database is touched; otherwise the table is dropped and recreated, and
   * it ends holding exactly the accepted records of the data rows, read
   * under the cleaned header, in sheet order.
   */
  method Run(conn: AppendConnection, data: seq<seq<string>>, admit: Admission)
    requires conn.Idle()
    modifies conn
    ensures data == [] ==> conn.committed == old(conn.committed)
    ensures data != [] ==> conn.committed == Inserted(SanitizeStripped(data[0]), data[1..], admit)
    ensures data != [] && HonoursWidths(admit, Schema) ==>
      forall r :: r in conn.committed ==> FitsWidths(Schema, r)
    ensures conn.Idle()
  {
    if data == [] {
      return;
    }
    var header := SanitizeStripped(data[0]);
    var rows := if |data| > 1 then data[1..] else [];
    conn.Recreate();
    InsertRows(conn, header, rows, admit);
    if HonoursWidths(admit, Schema) {
      InsertedFitsWidths(header, rows, admit, Schema);
    }
  }

  /** A header laid out as lines 106-110: each column is first named at its own position. */
  predicate LaidOut(header: seq<string>)
  {
    forall k :: 0 <= k < |Columns| ==> Columns[k] in header && IndexOf(header, Columns[k]) == k
  }

  /** A row as long as the header's columns reaches every one of them. */
  lemma LaidOutReaches(header: seq<string>, row: seq<string>)
    requires LaidOut(header) && |row| == |Columns|
    ensures RowLongEnough(header, row)
  {
  }

  /** Under a laid-out header, column `k` takes its text from cell `k`. */
  lemma LaidOutText(header: seq<string>, row: seq<string>, k: nat)
    requires LaidOut(header) && |row| == |Columns| && k < |Columns|
    ensures RowLongEnough(header, row) && Texts(header, row)[k] == CellValue(row[k])
  {
    LaidOutReaches(header, row);
  }

  /**
   * A typical row, in general: under a header laid out as
   * lines 106-110, a blank `Div` becomes `'NA'`, a reporting date written
   * `YYYY/MM/DD` (such as `'2024/03/01'`) is read by `'%Y/%m/%d'` as that
   * day, a `'-'` resigned date becomes NULL and a clean `10_Number` is kept
   * as written.
   */
  lemma WorkedRow(header: seq<string>, row: seq<string>, d: Date)
    requires LaidOut(header) && |row| == |Columns| && ValidDate(d)
    requires IsBlank(row[0]) && row[ReportingSlot] == Render(SlashFormat, d) && row[ResignedSlot] == "-"
    requires row[6] != "" && Strip(row[6]) == row[6]
    ensures RowLongEnough(header, row)
    ensures StrippedRecord(header, row) == Some(WithDates(Texts(header, row), Day(d), Null))
  {
    assert RowLongEnough(header, row) &&
           Texts(header, row)[ReportingSlot] == Render(SlashFormat, d) && Texts(header, row)[ResignedSlot] == "-" by {
      RenderedShape(SlashFormat, d);
      StripOfTrimmed(row[ReportingSlot]);
      WorkedTexts(header, row);
    }
    assert DateColumn(Render(SlashFormat, d)) == Some(Day(d)) && DateColumn("-") == Some(Null) by {
      SlashDateColumn(d);
    }
    StrippedRecordFrom(header, row, Day(d), Null);
  }

  /** The texts the loop collects for the worked row, before the date columns are read. */
  lemma WorkedTexts(header: seq<string>, row: seq<string>)
    requires LaidOut(header) && |row| == |Columns|
    requires IsBlank(row[0]) && row[ResignedSlot] == "-"
    requires row[ReportingSlot] != "" && Strip(row[ReportingSlot]) == row[ReportingSlot]
    requires row[6] != "" && Strip(row[6]) == row[6]
    ensures RowLongEnough(header, row)
    ensures var texts := Texts(header, row);
      texts[0] == "NA" && texts[ReportingSlot] == row[ReportingSlot] &&
      texts[ResignedSlot] == "-" && texts[6] == row[6]
  {
    LaidOutText(header, row, 0);
    LaidOutText(header, row, ReportingSlot);
    LaidOutText(header, row, ResignedSlot);
    LaidOutText(header, row, 6);
    StripEmptyIffBlank(row[0]);
    StripOfTrimmed("-");
  }

  /** A date column written `YYYY/MM/DD` holds that day; one written `'-'` is NULL. */
  lemma SlashDateColumn(d: Date)
    requires ValidDate(d)
    ensures DateColumn(Render(SlashFormat, d)) == Some(Day(d))
    ensures DateColumn("-") == Some(Null)
  {
    assert DateFormats[3] == SlashFormat;
    ParseDateRendered(3, d);
    StrptimeRender(IsoFormat, d);
  }
}
