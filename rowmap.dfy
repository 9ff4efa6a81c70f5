/**
 * How hr_gsheet2db_dag.py (lines 120-140) and hr_merge2gsheet_20241022.py
 * (lines 118-140) turn one sheet row into the nine parameters of their
 * INSERT: each wanted column is looked up by name in the cleaned header,
 * its cell stripped, `'NA'` put where there is nothing, and the two date
 * columns normalised by `parse_date` and re-read as dates.
 */
module RowMap {
  import opened Common
  import opened Text
  import opened Dates

  /** The table's columns, in INSERT order. */
  const Columns: seq<string> := [
    "Div", "Formal_Name", "Department", "Cost_Centre",
    "Reporting_date", "Resigned_date", "10_Number",
    "Department_Code", "Cost_Centre_Code"
  ]

  /** The positions of `Reporting_date` and `Resigned_date` in `Columns`. */
  const ReportingSlot: nat := 4
  const ResignedSlot: nat := 5

  predicate IsDateSlot(k: nat)
  {
    k == ReportingSlot || k == ResignedSlot
  }

  /**
   * The text the loop appends for column `col`: the stripped cell under the
   * first header position named `col`, `'NA'` when that is empty or no
   * header position has the name; None where `row[...]` raises IndexError.
   */
  function CellText(header: seq<string>, row: seq<string>, col: string): Option<string>
  {
    if col in header then
      var i := IndexOf(header, col);
      if i < |row| then Some(CellValue(row[i])) else None
    else Some("NA")
  }

  /** A present cell: stripped, and `'NA'` when nothing is left. */
  function CellValue(cell: string): string
  {
    var v := Strip(cell);
    if v == "" then "NA" else v
  }

  /** The value of a cell is `'NA'` for a blank cell and the stripped cell otherwise. */
  lemma CellValueMeaning(cell: string)
    ensures CellValue(cell) == (if IsBlank(cell) then "NA" else Strip(cell))
  {
    StripEmptyIffBlank(cell);
  }

  /** The value of a cell is never empty and is already stripped. */
  lemma CellValueClean(cell: string)
    ensures CellValue(cell) != "" && Strip(CellValue(cell)) == CellValue(cell)
  {
    if Strip(cell) == "" {
      assert CellValue(cell) == "NA";
      NotAvailableClean();
    } else {
      assert CellValue(cell) == Strip(cell);
      StripIdempotent(cell);
    }
  }

  /** Every column of `cols` that the header names lies within the row. */
  predicate Reaches(header: seq<string>, row: seq<string>, cols: seq<string>)
  {
    forall k :: 0 <= k < |cols| && cols[k] in header ==> IndexOf(header, cols[k]) < |row|
  }

  /** Every wanted column that the header names lies within the row. */
  predicate RowLongEnough(header: seq<string>, row: seq<string>)
  {
    forall k :: 0 <= k < |Columns| && Columns[k] in header ==> IndexOf(header, Columns[k]) < |row|
  }

  /** The texts the loop appends for the columns `cols`, one per column. */
  function TextsOf(header: seq<string>, row: seq<string>, cols: seq<string>): (t: seq<string>)
    requires Reaches(header, row, cols)
    ensures |t| == |cols|
    ensures forall k :: 0 <= k < |cols| ==> CellText(header, row, cols[k]) == Some(t[k])
  {
    seq(|cols|, k requires 0 <= k < |cols| => CellText(header, row, cols[k]).value)
  }

  /** The texts the loop appends, one per column, for a row long enough. */
  function Texts(header: seq<string>, row: seq<string>): (t: seq<string>)
    requires RowLongEnough(header, row)
    ensures |t| == |Columns|
    ensures forall k :: 0 <= k < |Columns| ==> CellText(header, row, Columns[k]) == Some(t[k])
  {
    seq(|Columns|, k requires 0 <= k < |Columns| => CellText(header, row, Columns[k]).value)
  }

  /** The loop over any column list, run on the table's columns, is the loop over the table's columns. */
  lemma TextsOfColumns(header: seq<string>, row: seq<string>)
    ensures Reaches(header, row, Columns) <==> RowLongEnough(header, row)
    ensures RowLongEnough(header, row) ==> TextsOf(header, row, Columns) == Texts(header, row)
  {
  }

  /** The nine texts with the two date columns replaced. */
  function WithDates(texts: seq<string>, reporting: Value, resigned: Value): (r: Record)
    requires |texts| == |Columns|
    ensures |r| == |Columns| && r[ReportingSlot] == reporting && r[ResignedSlot] == resigned
    ensures forall k :: 0 <= k < |Columns| && !IsDateSlot(k) ==> r[k] == Text(texts[k])
  {
    seq(|Columns|, k requires 0 <= k < |Columns| =>
      if k == ReportingSlot then reporting
      else if k == ResignedSlot then resigned
      else Text(texts[k]))
  }

  /**
   * The record the loop builds for `row`, or None when building it raises
   * (an IndexError at line 126, or a ValueError from the re-read at line 139).
   */
  function StrippedRecord(header: seq<string>, row: seq<string>): Option<Record>
  {
    if RowLongEnough(header, row) then
      var texts := Texts(header, row);
      match (DateColumn(texts[ReportingSlot]), DateColumn(texts[ResignedSlot]))
      case (Some(reporting), Some(resigned)) => Some(WithDates(texts, reporting, resigned))
      case _ => None
    else None
  }

  /** One pass of the loop of lines 123-132: the text for column `col`, or None where indexing the row raises. */
  method ColumnText(header: seq<string>, row: seq<string>, col: string) returns (v: Option<string>)
    ensures v == CellText(header, row, col)
  {
    if col in header {
      var i := IndexOf(header, col);
      if i >= |row| {
        return None;
      }
      var value := Strip(row[i]);
      if value == "" {
        value := "NA";
      }
      v := Some(value);
    } else {
      v := Some("NA");
    }
  }

  /**
   * The loop of lines 123-132: one text per column, in column order; None
   * where `row[header.index(col)]` raises IndexError.
   */
  method CollectTexts(header: seq<string>, row: seq<string>, cols: seq<string>) returns (r: Option<seq<string>>)
    ensures r.Some? <==> Reaches(header, row, cols)
    ensures r.Some? ==> r.value == TextsOf(header, row, cols)
  {
    var record: seq<string> := [];
    var k := 0;
    while k < |cols|
      invariant 0 <= k <= |cols| && |record| == k
      invariant forall j :: 0 <= j < k ==> CellText(header, row, cols[j]) == Some(record[j])
    {
      var value := ColumnText(header, row, cols[k]);
      if value.None? {
        return None;
      }
      record := record + [value.value];
      k := k + 1;
    }
    assert Reaches(header, row, cols) by {
      forall j | 0 <= j < |cols| && cols[j] in header
        ensures IndexOf(header, cols[j]) < |row|
      {
        assert CellText(header, row, cols[j]).Some?;
      }
    }
    r := Some(record);
  }

  /**
   * The record-building of lines 121-140: the column texts, then the two
   * date texts replaced by `parse_date`'s output and that by NULL or the
   * date it names. None where the Python code raises.
   */
  method BuildRecord(header: seq<string>, row: seq<string>) returns (r: Option<Record>)
    ensures r == StrippedRecord(header, row)
  {
    var collected := CollectTexts(header, row, Columns);
    TextsOfColumns(header, row);
    if collected.None? {
      return None;
    }
    var texts := collected.value;
    var reportingText := ParseDate(texts[ReportingSlot]);
    var resignedText := ParseDate(texts[ResignedSlot]);
    var reporting: Value;
    if reportingText == "NA" {
      reporting := Null;
    } else {
      match Strptime(IsoFormat, reportingText)
      case None =>
        return None;
      case Some(d) =>
        reporting := Day(d);
    }
    var resigned: Value;
    if resignedText == "NA" {
      resigned := Null;
    } else {
      match Strptime(IsoFormat, resignedText)
      case None =>
        return None;
      case Some(d) =>
        resigned := Day(d);
    }
    r := Some(WithDates(texts, reporting, resigned));
  }

  /** The record of a row long enough, given what its two date columns read as. */
  lemma StrippedRecordFrom(header: seq<string>, row: seq<string>, reporting: Value, resigned: Value)
    requires RowLongEnough(header, row)
    requires DateColumn(Texts(header, row)[ReportingSlot]) == Some(reporting)
    requires DateColumn(Texts(header, row)[ResignedSlot]) == Some(resigned)
    ensures StrippedRecord(header, row) == Some(WithDates(Texts(header, row), reporting, resigned))
  {
  }

  /**
   * A record is built exactly when the row reaches every wanted column the
   * header names: a short row raises IndexError, and the re-read of
   * `parse_date`'s output never fails.
   */
  lemma StrippedRecordDefined(header: seq<string>, row: seq<string>)
    ensures StrippedRecord(header, row).Some? <==> RowLongEnough(header, row)
    ensures StrippedRecord(header, row).Some? ==> |StrippedRecord(header, row).value| == |Columns|
  {
    if RowLongEnough(header, row) {
      var texts := Texts(header, row);
      DateColumnAgrees(texts[ReportingSlot]);
      DateColumnAgrees(texts[ResignedSlot]);
      var reporting, resigned := DateColumn(texts[ReportingSlot]).value, DateColumn(texts[ResignedSlot]).value;
      assert StrippedRecord(header, row) == Some(WithDates(texts, reporting, resigned));
    }
  }

  /**
   * What the loop appends for a column: `'NA'` when the header lacks the
   * name or the cell is blank, and otherwise the cell stripped, from the
   * first header position with that name. It is never empty and never
   * padded with whitespace.
   */
  lemma CellTextMeaning(header: seq<string>, row: seq<string>, col: string)
    requires CellText(header, row, col).Some?
    ensures var v := CellText(header, row, col).value;
      v == (if col !in header || IsBlank(row[IndexOf(header, col)]) then "NA"
            else Strip(row[IndexOf(header, col)])) &&
      v != "" && Strip(v) == v
  {
    if col in header {
      CellValueMeaning(row[IndexOf(header, col)]);
      CellValueClean(row[IndexOf(header, col)]);
    } else {
      NotAvailableClean();
    }
  }

  /** The placeholder `'NA'` is a non-empty, stripped text. */
  lemma NotAvailableClean()
    ensures "NA" != "" && Strip("NA") == "NA"
  {
    StripOfTrimmed("NA");
  }

  /** A text column of the record holds what the loop appended for it. */
  lemma StrippedRecordText(header: seq<string>, row: seq<string>, k: nat)
    requires k < |Columns| && !IsDateSlot(k) && StrippedRecord(header, row).Some?
    ensures CellText(header, row, Columns[k]).Some?
    ensures StrippedRecord(header, row).value[k] == Text(CellText(header, row, Columns[k]).value)
  {
  }

  /** The text of the cell a date column is read from: the same rule as the text columns. */
  function DateCellText(header: seq<string>, row: seq<string>, k: nat): string
    requires k < |Columns| && RowLongEnough(header, row)
  {
    CellText(header, row, Columns[k]).value
  }

  /**
   * A date column is NULL exactly when `parse_date` gives `'NA'` for its
   * text, and otherwise holds the day whose `YYYY-MM-DD` form `parse_date` gave.
   */
  lemma StrippedRecordDate(header: seq<string>, row: seq<string>, k: nat)
    requires IsDateSlot(k) && StrippedRecord(header, row).Some?
    ensures RowLongEnough(header, row)
    ensures var v := StrippedRecord(header, row).value[k];
      var p := ParseDate(DateCellText(header, row, k));
      (v == Null <==> p == "NA") &&
      (p != "NA" ==> v.Day? && ValidDate(v.d) && IsoDate(v.d) == p)
  {
    StrippedRecordDefined(header, row);
    DateColumnAgrees(DateCellText(header, row, k));
  }
}
