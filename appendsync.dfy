/**
 * The per-row transactional insert loop shared by hr_gsheet2db_dag.py
 * (lines 120-153) and hr_merge2gsheet_20241022.py (lines 118-153): every
 * row runs in its own transaction, which is committed when the record was
 * built and inserted, and rolled back on any exception, after which the
 * loop goes on with the next row.
 */
module AppendSync {
  import opened Common
  import opened RowMap
  import opened Store

  /** What a row whose record is `built` adds: the record when it was built and the store accepts it, nothing otherwise. */
  function Admitted(built: Option<Record>, admit: Admission): (added: seq<Record>)
    ensures |added| <= 1
    ensures added != [] <==> built.Some? && admit(built.value) == Accepted
    ensures added != [] ==> added == [built.value]
  {
    match built
    case None => []
    case Some(r) => if admit(r) == Accepted then [r] else []
  }

  /** What one row adds to the table: its record when it is built and accepted, nothing otherwise. */
  function RowInsert(header: seq<string>, row: seq<string>, admit: Admission): seq<Record>
  {
    Admitted(Builder(header)(row), admit)
  }

  /** How the loop builds a row's record under `header`. */
  function Builder(header: seq<string>): seq<string> -> Option<Record>
  {
    row => StrippedRecord(header, row)
  }

  /** The records `build` makes of the rows, row by row; None where building raises. */
  function Builds(build: seq<string> -> Option<Record>, rows: seq<seq<string>>): (bs: seq<Option<Record>>)
    ensures |bs| == |rows| && forall j :: 0 <= j < |rows| ==> bs[j] == build(rows[j])
  {
    seq(|rows|, j requires 0 <= j < |rows| => build(rows[j]))
  }

  lemma BuildsAppend(build: seq<string> -> Option<Record>, a: seq<seq<string>>, b: seq<seq<string>>)
    ensures Builds(build, a + b) == Builds(build, a) + Builds(build, b)
  {
    var l, r := Builds(build, a + b), Builds(build, a) + Builds(build, b);
    forall j | 0 <= j < |l| ensures l[j] == r[j] {
      if j < |a| {
        assert (a + b)[j] == a[j];
      } else {
        assert (a + b)[j] == b[j - |a|];
      }
    }
  }

  /** What the rows whose records are `bs` leave committed, in order: all but the last, then the last. */
  function Stored(bs: seq<Option<Record>>, admit: Admission): seq<Record>
  {
    if bs == [] then [] else Stored(bs[..|bs| - 1], admit) + Admitted(bs[|bs| - 1], admit)
  }

  /** One more row adds what its own record adds, whatever builds the records. */
  lemma BuildsSnoc(build: seq<string> -> Option<Record>, rows: seq<seq<string>>, i: nat, admit: Admission)
    requires i < |rows|
    ensures Stored(Builds(build, rows[..i + 1]), admit) == Stored(Builds(build, rows[..i]), admit) + Admitted(build(rows[i]), admit)
  {
    var bs := Builds(build, rows[..i + 1]);
    assert bs[..i] == Builds(build, rows[..i]);
  }

  /** The records the loop leaves committed, in sheet order. */
  function Inserted(header: seq<string>, rows: seq<seq<string>>, admit: Admission): seq<Record>
  {
    Stored(Builds(Builder(header), rows), admit)
  }

  lemma {:induction false} StoredAppend(a: seq<Option<Record>>, b: seq<Option<Record>>, admit: Admission)
    ensures Stored(a + b, admit) == Stored(a, admit) + Stored(b, admit)
  {
    if b == [] {
      assert a + b == a;
    } else {
      var init, last := b[..|b| - 1], b[|b| - 1];
      assert (a + b)[..|a + b| - 1] == a + init && (a + b)[|a + b| - 1] == last;
      StoredAppend(a, init, admit);
      var x, y, z := Stored(a, admit), Stored(init, admit), Admitted(last, admit);
      assert (x + y) + z == x + (y + z);
    }
  }

  /**
   * Rows are independent: what a run over `a + b` leaves is what a run over
   * `a` leaves followed by what a run over `b` leaves. In particular a row
   * that fails takes nothing with it, before or after.
   */
  lemma InsertedAppend(header: seq<string>, a: seq<seq<string>>, b: seq<seq<string>>, admit: Admission)
    ensures Inserted(header, a + b, admit) == Inserted(header, a, admit) + Inserted(header, b, admit)
  {
    BuildsAppend(Builder(header), a, b);
    StoredAppend(Builds(Builder(header), a), Builds(Builder(header), b), admit);
  }

  /** One more row adds what that row adds. */
  lemma InsertedSnoc(header: seq<string>, rows: seq<seq<string>>, row: seq<string>, admit: Admission)
    ensures Inserted(header, rows + [row], admit) == Inserted(header, rows, admit) + RowInsert(header, row, admit)
  {
    var bs := Builds(Builder(header), rows + [row]);
    BuildsAppend(Builder(header), rows, [row]);
    assert bs[..|bs| - 1] == Builds(Builder(header), rows);
    assert bs[|bs| - 1] == StrippedRecord(header, row);
  }

  lemma {:induction false} StoredMembers(bs: seq<Option<Record>>, admit: Admission, r: Record)
    ensures r in Stored(bs, admit) <==> admit(r) == Accepted && exists j :: 0 <= j < |bs| && bs[j] == Some(r)
  {
    if bs != [] {
      var n := |bs| - 1;
      var init := bs[..n];
      StoredMembers(init, admit, r);
      if exists j :: 0 <= j < |bs| && bs[j] == Some(r) {
        var j :| 0 <= j < |bs| && bs[j] == Some(r);
        if j < n {
          assert init[j] == bs[j];
        }
      }
      if exists j :: 0 <= j < n && init[j] == Some(r) {
        var j :| 0 <= j < n && init[j] == Some(r);
        assert bs[j] == init[j];
      }
    }
  }

  /**
   * Exactly the built and accepted records are stored: a record is in the
   * table after the loop if and only if some row builds it and the store
   * accepts it.
   */
  lemma InsertedMembers(header: seq<string>, rows: seq<seq<string>>, admit: Admission, r: Record)
    ensures r in Inserted(header, rows, admit) <==>
      admit(r) == Accepted && exists j :: 0 <= j < |rows| && StrippedRecord(header, rows[j]) == Some(r)
  {
    var bs := Builds(Builder(header), rows);
    StoredMembers(bs, admit, r);
    if exists j :: 0 <= j < |rows| && StrippedRecord(header, rows[j]) == Some(r) {
      var j :| 0 <= j < |rows| && StrippedRecord(header, rows[j]) == Some(r);
      assert bs[j] == Some(r);
    }
  }

  lemma {:induction false} StoredBound(bs: seq<Option<Record>>, admit: Admission)
    ensures |Stored(bs, admit)| <= |bs|
  {
    if bs != [] {
      StoredBound(bs[..|bs| - 1], admit);
    }
  }

  /** No more records than rows are stored. */
  lemma InsertedBound(header: seq<string>, rows: seq<seq<string>>, admit: Admission)
    ensures |Inserted(header, rows, admit)| <= |rows|
  {
    StoredBound(Builds(Builder(header), rows), admit);
  }

  /**
   * A row too short for a column the header names stores nothing, and the
   * rows around it are handled as if it were absent (the IndexError is
   * caught by the catch-all handler, not turned into padding).
   */
  lemma ShortRowSkipped(header: seq<string>, rows: seq<seq<string>>, j: nat, admit: Admission)
    requires j < |rows| && !RowLongEnough(header, rows[j])
    ensures Inserted(header, rows, admit) == Inserted(header, rows[..j], admit) + Inserted(header, rows[j + 1..], admit)
  {
    StrippedRecordDefined(header, rows[j]);
    assert rows == (rows[..j] + [rows[j]]) + rows[j + 1..];
    InsertedAppend(header, rows[..j] + [rows[j]], rows[j + 1..], admit);
    InsertedSnoc(header, rows[..j], rows[j], admit);
    assert RowInsert(header, rows[j], admit) == [];
    assert Inserted(header, rows[..j], admit) + [] == Inserted(header, rows[..j], admit);
  }

  /** When the store refuses whatever overflows a column, every stored record fits the schema. */
  lemma InsertedFitsWidths(header: seq<string>, rows: seq<seq<string>>, admit: Admission, schema: seq<ColumnType>)
    requires HonoursWidths(admit, schema)
    ensures forall r :: r in Inserted(header, rows, admit) ==> FitsWidths(schema, r)
  {
    forall r | r in Inserted(header, rows, admit)
      ensures FitsWidths(schema, r)
    {
      InsertedMembers(header, rows, admit, r);
    }
  }

  /**
   * The handlers of one pass of the loop body, given the record built for
   * the row (None where building raised IndexError): insert it and commit;
   * on any exception (from building, or IntegrityError, DataError or
   * another error from the insert) roll back instead.
   */
  method InsertBuilt(conn: AppendConnection, built: Option<Record>, admit: Admission)
    requires conn.Idle()
    modifies conn
    ensures conn.committed == old(conn.committed) + Admitted(built, admit)
    ensures conn.Idle()
  {
    match built {
      case None =>
        conn.Rollback();
      case Some(record) =>
        var verdict := conn.Insert(record, admit);
        if verdict == Accepted {
          conn.Commit();
        } else {
          conn.Rollback();
        }
    }
  }

  /** One pass of the loop body: build the record, then insert and commit it, or roll back. */
  method InsertRow(conn: AppendConnection, header: seq<string>, row: seq<string>, admit: Admission)
    requires conn.Idle()
    modifies conn
    ensures conn.committed == old(conn.committed) + RowInsert(header, row, admit)
    ensures conn.Idle()
  {
    var built := BuildRecord(header, row);
    InsertBuilt(conn, built, admit);
  }

  /** The loop over the data rows: each row is handled on its own, and the loop always runs to the end. */
  method InsertRows(conn: AppendConnection, header: seq<string>, rows: seq<seq<string>>, admit: Admission)
    requires conn.Idle()
    modifies conn
    ensures conn.committed == old(conn.committed) + Inserted(header, rows, admit)
    ensures conn.Idle()
  {
    var i := 0;
    while i < |rows|
      invariant 0 <= i <= |rows|
      invariant conn.committed == old(conn.committed) + Stored(Builds(Builder(header), rows[..i]), admit)
      invariant conn.Idle()
    {
      InsertRow(conn, header, rows[i], admit);
      BuildsSnoc(Builder(header), rows, i, admit);
      i := i + 1;
    }
    assert rows[..i] == rows;
  }
}
