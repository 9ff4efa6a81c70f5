/**
 * hr_sheet2db.py, the earliest variant of the synchroniser: labels and
 * cells are used as written (no stripping), a missing column becomes NULL,
 * a row with an empty `Div` is skipped, date cells are kept when they are
 * ten characters long, and only IntegrityError and DataError are survived
 * row by row.
 */
module Sheet2Db {
  import opened Common
  import opened Text
  import opened Header
  import opened Store

  /** The table's columns, in INSERT order. */
  const Columns: seq<string> := [
    "Div", "Formal Name", "Department", "Cost Centre",
    "Reporting date", "Resigned date", "10 Number",
    "Department Code", "Cost Centre Code"
  ]

  /** The declared column types of `employee_records_for_IT_use`, in column order. */
  const Schema: seq<ColumnType> := [
    Varchar(50), Varchar(100), Varchar(100), Varchar(50),  // Div, Formal Name, Department, Cost Centre
    SqlDate, SqlDate,                                      // Reporting date, Resigned date
    Varchar(10), Varchar(8), Varchar(8)                    // 10 Number, Department Code, Cost Centre Code
  ]

  const DivSlot: nat := 0
  const ReportingSlot: nat := 4
  const ResignedSlot: nat := 5

  /** Every wanted column that the header names lies within the row. */
  predicate RowLongEnough(header: seq<string>, row: seq<string>)
  {
    forall k :: 0 <= k < |Columns| && Columns[k] in header ==> IndexOf(header, Columns[k]) < |row|
  }

  /**
   * The comprehension of line 82: the raw cell under the first header
   * position with the column's name, NULL when no position has it; None
   * where `row[...]` raises IndexError.
   */
  function RawRecord(header: seq<string>, row: seq<string>): (r: Option<Record>)
    ensures r.Some? <==> RowLongEnough(header, row)
    ensures r.Some? ==> |r.value| == |Columns|
    ensures r.Some? ==> forall k :: 0 <= k < |Columns| ==>
      r.value[k] == if Columns[k] in header then Text(row[IndexOf(header, Columns[k])]) else Null
  {
    if RowLongEnough(header, row) then
      Some(seq(|Columns|, k requires 0 <= k < |Columns| =>
        if Columns[k] in header then Text(row[IndexOf(header, Columns[k])]) else Null))
    else None
  }

  /** Line 85, `not record[0]`: the Div entry is NULL or the empty string. */
  predicate DivEmpty(r: Record)
    requires |r| > DivSlot
  {
    r[DivSlot] == Null || r[DivSlot] == Text("")
  }

  /**
   * `clean_date` (lines 90-93): the text is kept when it is non-empty, not
   * `'-'` and exactly ten characters long, with no check that it names a
   * day; everything else becomes NULL.
   */
  function CleanDate(v: Value): (r: Value)
    ensures r == v || r == Null
    ensures r != Null <==> v.Text? && |v.s| == 10
  {
    if v.Text? && v.s != "" && v.s != "-" && |v.s| == 10 then v else Null
  }

  /** The record of lines 95-96: both date entries passed through `clean_date`. */
  function Cleaned(r: Record): (c: Record)
    requires |r| == |Columns|
    ensures |c| == |r|
    ensures forall k :: 0 <= k < |r| && k != ReportingSlot && k != ResignedSlot ==> c[k] == r[k]
    ensures c[ReportingSlot] == CleanDate(r[ReportingSlot]) && c[ResignedSlot] == CleanDate(r[ResignedSlot])
  {
    r[ReportingSlot := CleanDate(r[ReportingSlot])][ResignedSlot := CleanDate(r[ResignedSlot])]
  }

  /** What happens to one row. */
  datatype Step =
    | Stored(r: Record)  // inserted and committed
    | Skipped            // skipped (empty Div) or rolled back (IntegrityError, DataError)
    | Stopped            // an uncaught exception ends the run

  function RowStep(header: seq<string>, row: seq<string>, admit: Admission): Step
  {
    match RawRecord(header, row)
    case None => Stopped
    case Some(r) =>
      if DivEmpty(r) then Skipped
      else
        var c := Cleaned(r);
        match admit(c)
        case Accepted => Stored(c)
        case Rejected(IntegrityError) => Skipped
        case Rejected(DataError) => Skipped
        case Rejected(OtherError) => Stopped
  }

  /** What a step adds to the table. */
  function Added(s: Step): (added: seq<Record>)
    ensures |added| <= 1 && (added != [] <==> s.Stored?)
  {
    if s.Stored? then [s.r] else []
  }

  /** The records a run leaves committed, and whether it reached the end of the rows. */
  datatype Outcome = Outcome(inserted: seq<Record>, finished: bool)

  function Sync(header: seq<string>, rows: seq<seq<string>>, admit: Admission): Outcome
  {
    if rows == [] then Outcome([], true)
    else
      var s := RowStep(header, rows[0], admit);
      if s == Stopped then Outcome([], false)
      else
        var rest := Sync(header, rows[1..], admit);
        Outcome(Added(s) + rest.inserted, rest.finished)
  }

  /**
   * A run over `a + b` is a run over `a` followed, when that one reached
   * its end, by a run over `b`; once the run stops, later rows are never
   * looked at.
   */
  lemma {:induction false} SyncAppend(header: seq<string>, a: seq<seq<string>>, b: seq<seq<string>>, admit: Admission)
    ensures Sync(header, a + b, admit) ==
      if Sync(header, a, admit).finished
      then Outcome(Sync(header, a, admit).inserted + Sync(header, b, admit).inserted, Sync(header, b, admit).finished)
      else Sync(header, a, admit)
  {
    if a == [] {
      assert a + b == b;
    } else {
      assert (a + b)[0] == a[0] && (a + b)[1..] == a[1..] + b;
      SyncAppend(header, a[1..], b, admit);
      var s := RowStep(header, a[0], admit);
      if s != Stopped {
        var x, y := Sync(header, a[1..], admit).inserted, Sync(header, b, admit).inserted;
        assert Added(s) + (x + y) == (Added(s) + x) + y;
      }
    }
  }

  /** One more row: when the rows so far reached their end, that row's step is applied. */
  lemma SyncSnoc(header: seq<string>, rows: seq<seq<string>>, row: seq<string>, admit: Admission)
    ensures Sync(header, rows + [row], admit) ==
      if !Sync(header, rows, admit).finished then Sync(header, rows, admit)
      else Outcome(Sync(header, rows, admit).inserted + Added(RowStep(header, row, admit)),
                   RowStep(header, row, admit) != Stopped)
  {
    assert [row][0] == row && [row][1..] == [];
    assert Added(RowStep(header, row, admit)) + [] == Added(RowStep(header, row, admit));
    assert Sync(header, rows, admit).inserted + [] == Sync(header, rows, admit).inserted;
    SyncAppend(header, rows, [row], admit);
  }

  /** The records a step stores are the ones of `StoredShape`. */
  predicate StoredShape(r: Record, admit: Admission)
  {
    |r| == |Columns| && !DivEmpty(r) && admit(r) == Accepted &&
    (r[ReportingSlot] == Null || (r[ReportingSlot].Text? && |r[ReportingSlot].s| == 10)) &&
    (r[ResignedSlot] == Null || (r[ResignedSlot].Text? && |r[ResignedSlot].s| == 10))
  }

  /** A stored step holds a record with a non-empty Div, accepted by the store, with clean dates. */
  lemma StoredStep(header: seq<string>, row: seq<string>, admit: Admission)
    requires RowStep(header, row, admit).Stored?
    ensures StoredShape(RowStep(header, row, admit).r, admit)
  {
    var r := RawRecord(header, row).value;
    assert !DivEmpty(r);
    var c := Cleaned(r);
    assert RowStep(header, row, admit) == Stored(c);
    assert c[DivSlot] == r[DivSlot];
  }

  /**
   * Every stored record came from a row with a non-empty Div, was accepted
   * by the store, and holds in each date column NULL or a ten-character text.
   */
  lemma {:induction false} SyncStoredRecords(header: seq<string>, rows: seq<seq<string>>, admit: Admission)
    ensures forall r :: r in Sync(header, rows, admit).inserted ==> StoredShape(r, admit)
  {
    if rows != [] {
      var s := RowStep(header, rows[0], admit);
      if s != Stopped {
        SyncStoredRecords(header, rows[1..], admit);
        if s.Stored? {
          StoredStep(header, rows[0], admit);
        }
        assert Sync(header, rows, admit).inserted == Added(s) + Sync(header, rows[1..], admit).inserted;
      }
    }
  }

  /** When the store refuses whatever overflows a column, every stored record fits the schema. */
  lemma SyncFitsWidths(header: seq<string>, rows: seq<seq<string>>, admit: Admission)
    requires HonoursWidths(admit, Schema)
    ensures forall r :: r in Sync(header, rows, admit).inserted ==> FitsWidths(Schema, r)
  {
    SyncStoredRecords(header, rows, admit);
  }

  /**
   * A row whose step stops the run ends it there: the rows before it are
   * committed and no row from it on is written.
   */
  lemma StopsThere(header: seq<string>, rows: seq<seq<string>>, j: nat, admit: Admission)
    requires j < |rows| && RowStep(header, rows[j], admit) == Stopped
    requires Sync(header, rows[..j], admit).finished
    ensures Sync(header, rows, admit) == Outcome(Sync(header, rows[..j], admit).inserted, false)
  {
    var before, tail := rows[..j], rows[j..];
    assert rows == before + tail;
    assert tail[0] == rows[j];
    SyncAppend(header, before, tail, admit);
    assert Sync(header, tail, admit) == Outcome([], false);
    assert Sync(header, before, admit).inserted + [] == Sync(header, before, admit).inserted;
  }

  /** In particular a row too short for a column the header names ends the run (line 82 raises IndexError). */
  lemma ShortRowStops(header: seq<string>, rows: seq<seq<string>>, j: nat, admit: Admission)
    requires j < |rows| && !RowLongEnough(header, rows[j])
    requires Sync(header, rows[..j], admit).finished
    ensures Sync(header, rows, admit) == Outcome(Sync(header, rows[..j], admit).inserted, false)
  {
    assert RawRecord(header, rows[j]).None?;
    StopsThere(header, rows, j, admit);
  }

  /** `clean_date` does no calendar check: `'2024/13/45'` passes through, `'2024-3-1'` does not. */
  lemma CleanDateLengthOnly()
    ensures CleanDate(Text("2024/13/45")) == Text("2024/13/45")
    ensures CleanDate(Text("2024-3-1")) == Null
    ensures CleanDate(Text("-")) == Null && CleanDate(Null) == Null
  {
  }

  /**
   * One pass of the loop body (lines 81-107): build the record, skip it when
   * Div is empty, clean the dates, insert and commit; roll back on
   * IntegrityError or DataError. `go` is false where the run ends: an
   * IndexError at line 82, caught by nothing, or another store error, which
   * reaches the handler of line 115 that rolls back.
   */
  method SyncRow(conn: AppendConnection, header: seq<string>, row: seq<string>, admit: Admission) returns (go: bool)
    requires conn.Idle()
    modifies conn
    ensures go <==> RowStep(header, row, admit) != Stopped
    ensures conn.committed == old(conn.committed) + Added(RowStep(header, row, admit))
    ensures conn.Idle()
  {
    var raw := RawRecord(header, row);
    if raw.None? {
      return false;
    }
    var record := raw.value;
    if DivEmpty(record) {
      return true;
    }
    record := record[ReportingSlot := CleanDate(record[ReportingSlot])];
    record := record[ResignedSlot := CleanDate(record[ResignedSlot])];
    assert record == Cleaned(raw.value);
    var verdict := conn.Insert(record, admit);
    match verdict {
      case Accepted =>
        conn.Commit();
        go := true;
      case Rejected(IntegrityError) =>
        conn.Rollback();
        go := true;
      case Rejected(DataError) =>
        conn.Rollback();
        go := true;
      case Rejected(OtherError) =>
        conn.Rollback();
        go := false;
    }
  }

  /** The loop of lines 80-107, up to the end of the rows or the first row that ends the run. */
  method SyncRows(conn: AppendConnection, header: seq<string>, rows: seq<seq<string>>, admit: Admission)
    requires conn.Idle()
    modifies conn
    ensures conn.committed == old(conn.committed) + Sync(header, rows, admit).inserted
    ensures conn.Idle()
  {
    var i := 0;
    while i < |rows|
      invariant 0 <= i <= |rows|
      invariant Sync(header, rows[..i], admit).finished
      invariant conn.committed == old(conn.committed) + Sync(header, rows[..i], admit).inserted
      invariant conn.Idle()
    {
      ghost var done, added := Sync(header, rows[..i], admit).inserted, Added(RowStep(header, rows[i], admit));
      var go := SyncRow(conn, header, rows[i], admit);
      if !go {
        StopsThere(header, rows, i, admit);
        return;
      }
      assert conn.committed == old(conn.committed) + (done + added);
      SyncSnoc(header, rows[..i], rows[i], admit);
      assert rows[..i + 1] == rows[..i] + [rows[i]];
      i := i + 1;
    }
    assert rows[..i] == rows;
  }

  /**
   * One run over the sheet's values `data`: an empty sheet raises before the
   * database is touched; otherwise the table is dropped and recreated and
   * the rows are processed under the exactly cleaned header.
   */
  method Run(conn: AppendConnection, data: seq<seq<string>>, admit: Admission)
    requires conn.Idle()
    modifies conn
    ensures data == [] ==> conn.committed == old(conn.committed)
    ensures data != [] ==> conn.committed == Sync(SanitizeExact(data[0]), data[1..], admit).inserted
    ensures conn.Idle()
  {
    if data == [] {
      return;
    }
    var header := SanitizeExact(data[0]);
    var rows := if |data| > 1 then data[1..] else [];
    conn.Recreate();
    SyncRows(conn, header, rows, admit);
  }
}
