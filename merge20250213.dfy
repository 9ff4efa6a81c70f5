/**
 * hr_merge2gsheet_20250213.py: the `Merge` sheet upserted into
 * `hr_merge_for_IT_use`, keyed on `"10_number"`. The data rows are fetched
 * in windows of `BATCH_SIZE` sheet rows, each row is padded to twenty cells,
 * its two date cells are rewritten from `YYYY/MM/DD` to `YYYY-MM-DD`, and a
 * row with a non-empty `10_number` replaces whatever the table holds under
 * that key. Each window is committed on its own; the first store error ends
 * the run and the open window is discarded when the connection closes.
 */
module Merge20250213 {
  import opened Common
  import opened Dates
  import opened Store

  /** `BATCH_SIZE`: how many sheet rows are fetched and committed together. */
  const BatchSize: nat := 800
  /** `A{start}:S{end}`: columns A to S, the cells a fetched row can hold. */
  const FetchedColumns: nat := 19
  /** `len(row) < 20`: the number of cells a row is padded to. */
  const RowWidth: nat := 20
  /** Position of `10_number` among a row's cells and among the upsert's parameters. */
  const KeySlot: nat := 9
  /** Position of `active` among the upsert's parameters. */
  const ActiveSlot: nat := 17

  /** The declared column types of `hr_merge_for_IT_use`, in parameter order. */
  const Schema: seq<ColumnType> := [
    Varchar(13), Varchar(50), Varchar(50), Varchar(13), Varchar(255),  // div, last_name, first_name, middle_name, formal_name
    Varchar(50), Varchar(50), SqlDate, SqlDate,                         // department, cost_centre, reporting_date, resigned_date
    Varchar(10), Varchar(21), Varchar(15), Varchar(16),                 // "10_number", type, department_code, cost_centre_code
    Varchar(50), Varchar(87), Varchar(59), Varchar(94), Varchar(6)      // transfer_record, remark, card_number, adm_remark, active
  ]

  function Min(a: int, b: int): int
  {
    if a <= b then a else b
  }

  /** Sheet rows are numbered from 1; row 1 is the header. */
  type RowNumber = n: int | 1 <= n witness 1

  /** The sheet rows `first` to `last` of one fetch, both included. */
  datatype Window = Window(first: RowNumber, last: nat)

  /**
   * `for start in range(start, total + 1, BATCH_SIZE)` with
   * `end = min(start + BATCH_SIZE - 1, total)`.
   */
  function WindowsFrom(start: RowNumber, total: nat): seq<Window>
    decreases total + 1 - start
  {
    if start > total then []
    else [Window(start, Min(start + BatchSize - 1, total))] + WindowsFrom(start + BatchSize, total)
  }

  /** The windows of `upsert_data`: the data rows 2 to `total`. */
  function Windows(total: nat): seq<Window>
  {
    WindowsFrom(2, total)
  }

  /**
   * The windows tile the rows `start..total`: there are none exactly when
   * that range is empty; each is non-empty, within the range and at most
   * `BatchSize` rows; all but the last are full; the first begins at
   * `start`, each next one right after the previous, and the last ends at
   * `total`.
   */
  lemma {:induction false} WindowsTile(start: RowNumber, total: nat)
    ensures var ws := WindowsFrom(start, total);
      (ws == [] <==> start > total) &&
      (forall k :: 0 <= k < |ws| ==> start <= ws[k].first <= ws[k].last <= total && ws[k].last - ws[k].first < BatchSize) &&
      (forall k :: 0 <= k < |ws| - 1 ==> ws[k].last - ws[k].first == BatchSize - 1) &&
      (ws != [] ==> ws[0].first == start && ws[|ws| - 1].last == total) &&
      (forall k :: 0 < k < |ws| ==> ws[k].first == ws[k - 1].last + 1)
    decreases total + 1 - start
  {
    if start <= total {
      var ws := WindowsFrom(start, total);
      var rest := WindowsFrom(start + BatchSize, total);
      WindowsTile(start + BatchSize, total);
      assert ws == [ws[0]] + rest;
      assert forall k :: 0 < k < |ws| ==> ws[k] == rest[k - 1];
      if rest != [] {
        assert ws[|ws| - 1] == rest[|rest| - 1];
      }
    }
  }

  /** There are `ceil((total - start + 1) / BatchSize)` windows. */
  lemma {:induction false} WindowsCount(start: RowNumber, total: nat)
    ensures |WindowsFrom(start, total)| == if start > total then 0 else (total - start) / BatchSize + 1
    decreases total + 1 - start
  {
    if start <= total {
      WindowsCount(start + BatchSize, total);
      if start + BatchSize <= total {
        assert (total - start) / BatchSize == (total - start - BatchSize) / BatchSize + 1;
      }
    }
  }

  /** A sheet whose grid has 2500 rows is read in four windows, the last of 99 rows. */
  lemma WindowsOf2500()
    ensures |Windows(2500)| == 4
    ensures Windows(2500)[3] == Window(2402, 2500)
  {
    WindowsCount(2, 2500);
    WindowsTile(2, 2500);
    var ws := Windows(2500);
    assert ws[1].first == ws[0].last + 1 && ws[2].first == ws[1].last + 1 && ws[3].first == ws[2].last + 1;
  }

  /** The cells of columns A to S of a row. */
  function Clip(row: seq<string>): (r: seq<string>)
    ensures |r| <= FetchedColumns && |r| <= |row| && r == row[..|r|]
    ensures |row| <= FetchedColumns ==> r == row
  {
    if |row| <= FetchedColumns then row else row[..FetchedColumns]
  }

  function ClipAll(rows: seq<seq<string>>): (r: seq<seq<string>>)
    ensures |r| == |rows| && forall i :: 0 <= i < |rows| ==> r[i] == Clip(rows[i])
  {
    seq(|rows|, i requires 0 <= i < |rows| => Clip(rows[i]))
  }

  lemma ClipAllAppend(a: seq<seq<string>>, b: seq<seq<string>>)
    ensures ClipAll(a + b) == ClipAll(a) + ClipAll(b)
  {
    assert forall i :: 0 <= i < |a| + |b| ==> (a + b)[i] == if i < |a| then a[i] else b[i - |a|];
  }

  /**
   * The rows `lo + 1` to `hi` that the sheet has (row `n` is `sheet[n - 1]`;
   * rows past the sheet's data are not returned), cut to columns A to S.
   */
  function Span(sheet: seq<seq<string>>, lo: nat, hi: nat): (rows: seq<seq<string>>)
    requires lo <= hi
    ensures forall i :: 0 <= i < |rows| ==> |rows[i]| <= FetchedColumns
  {
    ClipAll(sheet[Min(lo, |sheet|)..Min(hi, |sheet|)])
  }

  lemma SpanSplit(sheet: seq<seq<string>>, lo: nat, mid: nat, hi: nat)
    requires lo <= mid <= hi
    ensures Span(sheet, lo, hi) == Span(sheet, lo, mid) + Span(sheet, mid, hi)
  {
    var a, b, c := Min(lo, |sheet|), Min(mid, |sheet|), Min(hi, |sheet|);
    assert sheet[a..c] == sheet[a..b] + sheet[b..c];
    ClipAllAppend(sheet[a..b], sheet[b..c]);
  }

  /** `sheet.get(f"A{first}:S{last}")`. */
  function Fetch(sheet: seq<seq<string>>, w: Window): (batch: seq<seq<string>>)
    ensures forall i :: 0 <= i < |batch| ==> |batch[i]| <= FetchedColumns
  {
    if w.first - 1 <= w.last then Span(sheet, w.first - 1, w.last) else []
  }

  /** The rows the windows fetch, one window after the other. */
  function Fetched(sheet: seq<seq<string>>, ws: seq<Window>): seq<seq<string>>
  {
    if ws == [] then [] else Fetch(sheet, ws[0]) + Fetched(sheet, ws[1..])
  }

  /** The data rows `2..total` the sheet has, cut to columns A to S. */
  function DataRows(sheet: seq<seq<string>>, total: nat): seq<seq<string>>
  {
    if total < 2 then [] else Span(sheet, 1, total)
  }

  /** The windows from `start` fetch the rows `start..total` the sheet has, each once and in order. */
  lemma {:induction false} FetchedFrom(sheet: seq<seq<string>>, start: RowNumber, total: nat)
    ensures Fetched(sheet, WindowsFrom(start, total)) ==
      if start > total then [] else Span(sheet, start - 1, total)
    decreases total + 1 - start
  {
    if start <= total {
      var last := Min(start + BatchSize - 1, total);
      var rest := Fetched(sheet, WindowsFrom(start + BatchSize, total));
      assert Fetched(sheet, WindowsFrom(start, total)) == Span(sheet, start - 1, last) + rest by {
        FetchedStep(sheet, start, total);
      }
      assert rest == if start + BatchSize > total then [] else Span(sheet, start + BatchSize - 1, total) by {
        FetchedFrom(sheet, start + BatchSize, total);
      }
      if start + BatchSize <= total {
        SpanSplit(sheet, start - 1, last, total);
      } else {
        assert Span(sheet, start - 1, last) + [] == Span(sheet, start - 1, last);
      }
    }
  }

  /** The first window from `start` fetches the rows `start..last`, then the next windows follow. */
  lemma FetchedStep(sheet: seq<seq<string>>, start: RowNumber, total: nat)
    requires start <= total
    ensures Fetched(sheet, WindowsFrom(start, total)) ==
      Span(sheet, start - 1, Min(start + BatchSize - 1, total)) + Fetched(sheet, WindowsFrom(start + BatchSize, total))
  {
    var ws := WindowsFrom(start, total);
    assert ws[0] == Window(start, Min(start + BatchSize - 1, total)) && ws[1..] == WindowsFrom(start + BatchSize, total);
  }

  /** Every data row the sheet has is fetched exactly once, in sheet order. */
  lemma FetchedAll(sheet: seq<seq<string>>, total: nat)
    ensures Fetched(sheet, Windows(total)) == DataRows(sheet, total)
  {
    FetchedFrom(sheet, 2, total);
  }

  /** Lines 80-83: a row is padded with empty cells to twenty; a longer row is kept as it is. */
  function Padded(row: seq<string>): (r: seq<string>)
    ensures |r| == if |row| < RowWidth then RowWidth else |row|
    ensures r[..|row|] == row
    ensures forall k :: |row| <= k < |r| ==> r[k] == ""
  {
    if |row| < RowWidth then row + seq(RowWidth - |row|, _ => "") else row
  }

  /** The `while` loop of lines 82-83, appending to the row in place. */
  method PadRow(row: seq<string>) returns (r: seq<string>)
    ensures r == Padded(row)
  {
    r := row;
    while |r| < RowWidth
      invariant |row| <= |r| && r[..|row|] == row
      invariant forall k :: |row| <= k < |r| ==> r[k] == ""
      invariant |r| <= RowWidth || r == row
      decreases RowWidth - |r|
    {
      r := r + [""];
    }
    assert |r| == |Padded(row)|;
    assert forall k :: 0 <= k < |r| ==> r[k] == Padded(row)[k] by {
      forall k | 0 <= k < |r|
        ensures r[k] == Padded(row)[k]
      {
        if k < |row| {
          assert r[k] == r[..|row|][k] && Padded(row)[k] == Padded(row)[..|row|][k];
        }
      }
    }
  }

  /**
   * Lines 86-100 for one date cell: an empty cell gives None; otherwise the
   * cell is read with `'%Y/%m/%d'` and written back with `'%Y-%m-%d'`, and
   * None when the read raises ValueError.
   */
  function SlashDate(cell: string): (v: Value)
    ensures v == Null || (v.Text? && IsIsoShaped(v.s))
    ensures v != Null <==> Strptime(SlashFormat, cell).Some?
  {
    if cell == "" then
      assert Strptime(SlashFormat, cell).None? by {
        assert DigitRun(cell) == 0;
      }
      Null
    else match Strptime(SlashFormat, cell)
      case Some(d) => Text(IsoDate(d))
      case None => Null
  }

  /** A day written `YYYY/MM/DD` is passed on as the same day written `YYYY-MM-DD`. */
  lemma SlashDateRoundTrip(d: Date)
    requires ValidDate(d)
    ensures SlashDate(Render(SlashFormat, d)) == Text(IsoDate(d))
  {
    StrptimeRender(SlashFormat, d);
  }

  /** The text passed on names the day the cell named. */
  lemma SlashDateSameDay(cell: string)
    requires SlashDate(cell) != Null
    ensures Strptime(IsoFormat, SlashDate(cell).s) == Strptime(SlashFormat, cell)
  {
    StrptimeRender(IsoFormat, Strptime(SlashFormat, cell).value);
  }

  /**
   * A date cell already written `YYYY-MM-DD`, or written day or month first,
   * becomes NULL: only `YYYY/MM/DD` survives.
   */
  lemma SlashDateOtherLayouts(f: Format, d: Date)
    requires ValidDate(d) && IsSeparator(f.sep) && (f.sep != '/' || f.order != YMD)
    ensures SlashDate(Render(f, d)) == Null
  {
    if f.sep != '/' {
      StrptimeOtherSeparator(SlashFormat, f, d);
    } else {
      StrptimeYearClash(SlashFormat, f, d);
    }
  }

  /**
   * The parameters of the upsert (lines 131-134): cells 0-6, the two
   * rewritten dates, cells 9-16, and cell 19 for `active`.
   */
  function UpsertTuple(row: seq<string>): (r: Record)
    requires |row| >= RowWidth
    ensures |r| == |Schema| && r[KeySlot] == Text(row[KeySlot])
    ensures r[7] == SlashDate(row[7]) && r[8] == SlashDate(row[8])
    ensures r[ActiveSlot] == Text(row[19])
  {
    [Text(row[0]), Text(row[1]), Text(row[2]), Text(row[3]), Text(row[4]),
     Text(row[5]), Text(row[6]), SlashDate(row[7]), SlashDate(row[8]),
     Text(row[9]), Text(row[10]), Text(row[11]), Text(row[12]),
     Text(row[13]), Text(row[14]), Text(row[15]), Text(row[16]), Text(row[19])]
  }

  /** Columns R and S (cells 17 and 18) are fetched but never written. */
  lemma UpsertTupleIgnoresRS(row: seq<string>, x: string, y: string)
    requires |row| >= RowWidth
    ensures UpsertTuple(row[17 := x][18 := y]) == UpsertTuple(row)
  {
  }

  /**
   * `active` is read from cell 19 (column T), which the fetch of columns A
   * to S never returns: after padding it is always empty.
   */
  lemma ActiveAlwaysEmpty(row: seq<string>)
    requires |row| <= FetchedColumns
    ensures UpsertTuple(Padded(row))[ActiveSlot] == Text("")
  {
  }

  /** One upsert statement: the key it writes under and its parameters. */
  datatype Upsert = Upsert(key: string, params: Record)

  /** A statement that writes a record carrying its own, non-empty, key under that key. */
  predicate Keyed(u: Upsert)
  {
    u.key != "" && |u.params| == |Schema| && u.params[KeySlot] == Text(u.key)
  }

  /**
   * What lines 80-135 do with one fetched row: the upsert of its parameters
   * under its padded cell 9, none when that cell is empty (line 103).
   */
  function RowUpsert(row: seq<string>): (u: Option<Upsert>)
    ensures u.Some? <==> Padded(row)[KeySlot] != ""
    ensures u.Some? ==> Keyed(u.value) && u.value.key == Padded(row)[KeySlot]
  {
    var p := Padded(row);
    if p[KeySlot] == "" then None else Some(Upsert(p[KeySlot], UpsertTuple(p)))
  }

  /** The statements of a sequence of rows, one per row. */
  function Statements(rows: seq<seq<string>>): (s: seq<Option<Upsert>>)
    ensures |s| == |rows| && forall i :: 0 <= i < |rows| ==> s[i] == RowUpsert(rows[i])
  {
    seq(|rows|, i requires 0 <= i < |rows| => RowUpsert(rows[i]))
  }

  lemma StatementsAppend(a: seq<seq<string>>, b: seq<seq<string>>)
    ensures Statements(a + b) == Statements(a) + Statements(b)
  {
    assert forall i :: 0 <= i < |a| + |b| ==> (a + b)[i] == if i < |a| then a[i] else b[i - |a|];
  }

  /** The table a run of upserts leaves, and whether every statement was accepted. */
  datatype Applied = Applied(table: map<string, Record>, ok: bool)

  /**
   * Statements run one after the other: an upsert the store accepts makes
   * its record the key's record, whether or not the key was present
   * (`ON CONFLICT ... DO UPDATE` sets every other column); a row without
   * statement is skipped; the first refused statement raises, leaving the
   * table as it was before it.
   */
  function Apply(table: map<string, Record>, stmts: seq<Option<Upsert>>, admit: Admission): Applied
    decreases |stmts|
  {
    if stmts == [] then Applied(table, true)
    else match stmts[0]
      case None => Apply(table, stmts[1..], admit)
      case Some(u) =>
        if admit(u.params) == Accepted then Apply(table[u.key := u.params], stmts[1..], admit)
        else Applied(table, false)
  }

  /** Running `a + b` runs `a`, and then `b` when `a` raised nothing. */
  lemma {:induction false} ApplyAppend(table: map<string, Record>, a: seq<Option<Upsert>>, b: seq<Option<Upsert>>, admit: Admission)
    ensures Apply(table, a + b, admit) ==
      if Apply(table, a, admit).ok then Apply(Apply(table, a, admit).table, b, admit)
      else Apply(table, a, admit)
    decreases |a|
  {
    if a == [] {
      assert a + b == b;
    } else {
      assert (a + b)[0] == a[0] && (a + b)[1..] == a[1..] + b;
      match a[0] {
        case None =>
          ApplyAppend(table, a[1..], b, admit);
        case Some(u) =>
          if admit(u.params) == Accepted {
            ApplyAppend(table[u.key := u.params], a[1..], b, admit);
          }
      }
    }
  }

  /**
   * Upserts override: what the statements write does not depend on what
   * the table held before, and every key they do not write keeps its record.
   */
  lemma {:induction false} ApplyOverride(t: map<string, Record>, u: map<string, Record>, stmts: seq<Option<Upsert>>, admit: Admission)
    ensures Apply(t + u, stmts, admit) == Applied(t + Apply(u, stmts, admit).table, Apply(u, stmts, admit).ok)
    decreases |stmts|
  {
    if stmts != [] {
      match stmts[0] {
        case None =>
          ApplyOverride(t, u, stmts[1..], admit);
        case Some(s) =>
          if admit(s.params) == Accepted {
            assert (t + u)[s.key := s.params] == t + u[s.key := s.params];
            ApplyOverride(t, u[s.key := s.params], stmts[1..], admit);
          }
      }
    }
  }

  /** Over any table, the statements write exactly what they write over an empty one. */
  lemma ApplyFromEmpty(t: map<string, Record>, stmts: seq<Option<Upsert>>, admit: Admission)
    ensures Apply(t, stmts, admit) == Applied(t + Apply(map[], stmts, admit).table, Apply(map[], stmts, admit).ok)
  {
    assert t + map[] == t;
    ApplyOverride(t, map[], stmts, admit);
  }

  /** Upserting the same rows twice leaves the table as upserting them once. */
  lemma ApplyIdempotent(t: map<string, Record>, stmts: seq<Option<Upsert>>, admit: Admission)
    requires Apply(t, stmts, admit).ok
    ensures Apply(Apply(t, stmts, admit).table, stmts, admit) == Apply(t, stmts, admit)
  {
    var written := Apply(map[], stmts, admit).table;
    ApplyFromEmpty(t, stmts, admit);
    ApplyFromEmpty(t + written, stmts, admit);
    assert (t + written) + written == t + written;
  }

  /** Every key whose record changes is the key of one of the statements. */
  lemma {:induction false} ApplyWrites(t: map<string, Record>, stmts: seq<Option<Upsert>>, admit: Admission, k: string)
    requires k in Apply(t, stmts, admit).table && (k !in t || Apply(t, stmts, admit).table[k] != t[k])
    ensures exists j :: 0 <= j < |stmts| && stmts[j].Some? && stmts[j].value.key == k
    decreases |stmts|
  {
    match stmts[0] {
      case None =>
        ApplyWrites(t, stmts[1..], admit, k);
        var j :| 0 <= j < |stmts| - 1 && stmts[1..][j].Some? && stmts[1..][j].value.key == k;
        assert stmts[j + 1] == stmts[1..][j];
      case Some(s) =>
        if s.key != k {
          ApplyWrites(t[s.key := s.params], stmts[1..], admit, k);
          var j :| 0 <= j < |stmts| - 1 && stmts[1..][j].Some? && stmts[1..][j].value.key == k;
          assert stmts[j + 1] == stmts[1..][j];
        }
    }
  }

  /** A key that no statement writes keeps its record. */
  lemma {:induction false} ApplyUntouched(t: map<string, Record>, stmts: seq<Option<Upsert>>, admit: Admission, k: string)
    requires k in t
    requires forall i :: 0 <= i < |stmts| && stmts[i].Some? ==> stmts[i].value.key != k
    ensures k in Apply(t, stmts, admit).table && Apply(t, stmts, admit).table[k] == t[k]
    decreases |stmts|
  {
    if stmts != [] {
      match stmts[0] {
        case None =>
          ApplyUntouched(t, stmts[1..], admit, k);
        case Some(u) =>
          if admit(u.params) == Accepted {
            ApplyUntouched(t[u.key := u.params], stmts[1..], admit, k);
          }
      }
    }
  }

  /**
   * Last write wins: after a run that raised nothing, the key of a statement
   * that no later statement writes again holds that statement's record, in
   * every column.
   */
  lemma {:induction false} ApplyLastWrite(t: map<string, Record>, stmts: seq<Option<Upsert>>, admit: Admission, j: nat)
    requires Apply(t, stmts, admit).ok
    requires j < |stmts| && stmts[j].Some?
    requires forall i :: j < i < |stmts| && stmts[i].Some? ==> stmts[i].value.key != stmts[j].value.key
    ensures stmts[j].value.key in Apply(t, stmts, admit).table
    ensures Apply(t, stmts, admit).table[stmts[j].value.key] == stmts[j].value.params
    decreases |stmts|
  {
    match stmts[0] {
      case None =>
        ApplyLastWrite(t, stmts[1..], admit, j - 1);
      case Some(u) =>
        if j == 0 {
          ApplyUntouched(t[u.key := u.params], stmts[1..], admit, u.key);
        } else {
          ApplyLastWrite(t[u.key := u.params], stmts[1..], admit, j - 1);
        }
    }
  }

  /** Every record is stored under the `10_number` it carries, and no key is empty. */
  predicate KeyedRight(table: map<string, Record>)
  {
    forall k :: k in table ==> k != "" && |table[k]| == |Schema| && table[k][KeySlot] == Text(k)
  }

  predicate AllKeyed(stmts: seq<Option<Upsert>>)
  {
    forall j :: 0 <= j < |stmts| && stmts[j].Some? ==> Keyed(stmts[j].value)
  }

  /** Keyed statements keep every record under its own key. */
  lemma {:induction false} ApplyKeyedRight(t: map<string, Record>, stmts: seq<Option<Upsert>>, admit: Admission)
    requires KeyedRight(t) && AllKeyed(stmts)
    ensures KeyedRight(Apply(t, stmts, admit).table)
    decreases |stmts|
  {
    if stmts != [] {
      assert AllKeyed(stmts[1..]) by {
        forall j | 0 <= j < |stmts| - 1 && stmts[1..][j].Some? ensures Keyed(stmts[1..][j].value) {
          assert stmts[1..][j] == stmts[j + 1];
        }
      }
      match stmts[0] {
        case None =>
          ApplyKeyedRight(t, stmts[1..], admit);
        case Some(s) =>
          if admit(s.params) == Accepted {
            ApplyKeyedRight(t[s.key := s.params], stmts[1..], admit);
          }
      }
    }
  }

  /** The statements of rows are keyed. */
  lemma StatementsKeyed(rows: seq<seq<string>>)
    ensures AllKeyed(Statements(rows))
  {
  }

  /** Every record of the table fits the declared column widths. */
  predicate AllFit(table: map<string, Record>)
  {
    forall k :: k in table ==> FitsWidths(Schema, table[k])
  }

  /** When the store refuses whatever overflows a column, upserts keep every record within the widths. */
  lemma {:induction false} ApplyFit(t: map<string, Record>, stmts: seq<Option<Upsert>>, admit: Admission)
    requires HonoursWidths(admit, Schema) && AllFit(t)
    ensures AllFit(Apply(t, stmts, admit).table)
    decreases |stmts|
  {
    if stmts != [] {
      match stmts[0] {
        case None =>
          ApplyFit(t, stmts[1..], admit);
        case Some(s) =>
          if admit(s.params) == Accepted {
            ApplyFit(t[s.key := s.params], stmts[1..], admit);
          }
      }
    }
  }

  /** The statements of one fetched window. */
  type Batch = seq<Option<Upsert>>

  /**
   * The outer loop over the windows, each given by its statements: each
   * window is applied and committed; a window that raises is discarded (the
   * connection is closed with its transaction open) and no later window is
   * fetched.
   */
  function RunBatches(table: map<string, Record>, batches: seq<Batch>, admit: Admission): Applied
    decreases |batches|
  {
    if batches == [] then Applied(table, true)
    else
      var a := Apply(table, batches[0], admit);
      if a.ok then RunBatches(a.table, batches[1..], admit) else Applied(table, false)
  }

  /** The statements of all the windows, one window after the other. */
  function Flatten(batches: seq<Batch>): Batch
  {
    if batches == [] then [] else batches[0] + Flatten(batches[1..])
  }

  /** How many windows a run commits. */
  function Completed(table: map<string, Record>, batches: seq<Batch>, admit: Admission): (n: nat)
    ensures n <= |batches|
    decreases |batches|
  {
    if batches == [] then 0
    else
      var a := Apply(table, batches[0], admit);
      if a.ok then 1 + Completed(a.table, batches[1..], admit) else 0
  }

  /** A run without error commits what applying all the windows' statements at once would. */
  lemma {:induction false} RunBatchesCommits(t: map<string, Record>, batches: seq<Batch>, admit: Admission)
    ensures RunBatches(t, batches, admit).ok == Apply(t, Flatten(batches), admit).ok
    ensures RunBatches(t, batches, admit).ok ==> RunBatches(t, batches, admit).table == Apply(t, Flatten(batches), admit).table
    decreases |batches|
  {
    if batches != [] {
      var a := Apply(t, batches[0], admit);
      ApplyAppend(t, batches[0], Flatten(batches[1..]), admit);
      if a.ok {
        RunBatchesCommits(a.table, batches[1..], admit);
      }
    }
  }

  /** The first `n + 1` windows are the first window, then the next `n`. */
  lemma FlattenPrefix(batches: seq<Batch>, n: nat)
    requires n < |batches|
    ensures Flatten(batches[..n + 1]) == batches[0] + Flatten(batches[1..][..n])
    ensures Flatten(batches[..0]) == []
  {
    var p := batches[..n + 1];
    assert p[0] == batches[0] && p[1..] == batches[1..][..n];
    assert batches[..0] == [];
  }

  /**
   * A run that raises keeps exactly the windows before the failing one: the
   * committed table is what those windows write, without error, and adding
   * the next window makes a statement fail.
   */
  lemma {:induction false} RunBatchesStops(t: map<string, Record>, batches: seq<Batch>, admit: Admission)
    requires !RunBatches(t, batches, admit).ok
    ensures Completed(t, batches, admit) < |batches|
    ensures Apply(t, Flatten(batches[..Completed(t, batches, admit)]), admit) == Applied(RunBatches(t, batches, admit).table, true)
    ensures !Apply(t, Flatten(batches[..Completed(t, batches, admit) + 1]), admit).ok
    decreases |batches|
  {
    var a := Apply(t, batches[0], admit);
    if a.ok {
      var n := Completed(a.table, batches[1..], admit);
      RunBatchesStops(a.table, batches[1..], admit);
      FlattenPrefix(batches, n);
      FlattenPrefix(batches, n + 1);
      ApplyAppend(t, batches[0], Flatten(batches[1..][..n]), admit);
      ApplyAppend(t, batches[0], Flatten(batches[1..][..n + 1]), admit);
    } else {
      FlattenPrefix(batches, 0);
      assert batches[1..][..0] == [];
      assert batches[0] + [] == batches[0];
    }
  }

  /** Whatever a run commits keeps every record under its own key and within the widths the store enforces. */
  lemma {:induction false} RunBatchesKeeps(t: map<string, Record>, batches: seq<Batch>, admit: Admission)
    ensures KeyedRight(t) && (forall k :: 0 <= k < |batches| ==> AllKeyed(batches[k])) ==>
      KeyedRight(RunBatches(t, batches, admit).table)
    ensures HonoursWidths(admit, Schema) && AllFit(t) ==> AllFit(RunBatches(t, batches, admit).table)
    decreases |batches|
  {
    if batches != [] {
      var a := Apply(t, batches[0], admit);
      if KeyedRight(t) && (forall k :: 0 <= k < |batches| ==> AllKeyed(batches[k])) {
        ApplyKeyedRight(t, batches[0], admit);
        assert forall k :: 0 <= k < |batches| - 1 ==> batches[1..][k] == batches[k + 1];
      }
      if HonoursWidths(admit, Schema) && AllFit(t) {
        ApplyFit(t, batches[0], admit);
      }
      if a.ok {
        RunBatchesKeeps(a.table, batches[1..], admit);
      }
    }
  }

  /** The statements of each window's rows. */
  function WindowStatements(sheet: seq<seq<string>>, ws: seq<Window>): (bs: seq<Batch>)
    ensures |bs| == |ws| && forall k :: 0 <= k < |ws| ==> bs[k] == Statements(Fetch(sheet, ws[k]))
  {
    seq(|ws|, k requires 0 <= k < |ws| => Statements(Fetch(sheet, ws[k])))
  }

  /** The windows' statements, one window after the other, are the statements of the rows they fetch. */
  lemma {:induction false} WindowStatementsFlatten(sheet: seq<seq<string>>, ws: seq<Window>)
    ensures Flatten(WindowStatements(sheet, ws)) == Statements(Fetched(sheet, ws))
  {
    if ws != [] {
      var bs := WindowStatements(sheet, ws);
      assert bs[1..] == WindowStatements(sheet, ws[1..]);
      WindowStatementsFlatten(sheet, ws[1..]);
      StatementsAppend(Fetch(sheet, ws[0]), Fetched(sheet, ws[1..]));
    }
  }

  /** What a run of the script leaves committed. */
  function Upserted(table: map<string, Record>, sheet: seq<seq<string>>, total: nat, admit: Admission): Applied
  {
    RunBatches(table, WindowStatements(sheet, Windows(total)), admit)
  }

  /**
   * A run without error leaves the old table overridden by what the data
   * rows `2..total` write, in sheet order, the later row winning a key.
   */
  lemma UpsertedAllRows(t: map<string, Record>, sheet: seq<seq<string>>, total: nat, admit: Admission)
    ensures Upserted(t, sheet, total, admit).ok == Apply(t, Statements(DataRows(sheet, total)), admit).ok
    ensures Upserted(t, sheet, total, admit).ok ==>
      Upserted(t, sheet, total, admit).table == t + Apply(map[], Statements(DataRows(sheet, total)), admit).table
  {
    RunBatchesCommits(t, WindowStatements(sheet, Windows(total)), admit);
    WindowStatementsFlatten(sheet, Windows(total));
    FetchedAll(sheet, total);
    ApplyFromEmpty(t, Statements(DataRows(sheet, total)), admit);
  }

  /**
   * A run that raises commits exactly the rows of the windows before the
   * failing one, without error, and the rows of the failing window make a
   * statement fail.
   */
  lemma UpsertedStops(t: map<string, Record>, sheet: seq<seq<string>>, total: nat, admit: Admission)
    requires !Upserted(t, sheet, total, admit).ok
    ensures var ws := Windows(total);
      var n := Completed(t, WindowStatements(sheet, ws), admit);
      n < |ws| &&
      Apply(t, Statements(Fetched(sheet, ws[..n])), admit) == Applied(Upserted(t, sheet, total, admit).table, true) &&
      !Apply(t, Statements(Fetched(sheet, ws[..n + 1])), admit).ok
  {
    var ws := Windows(total);
    var bs := WindowStatements(sheet, ws);
    var n := Completed(t, bs, admit);
    RunBatchesStops(t, bs, admit);
    assert bs[..n] == WindowStatements(sheet, ws[..n]);
    assert bs[..n + 1] == WindowStatements(sheet, ws[..n + 1]);
    WindowStatementsFlatten(sheet, ws[..n]);
    WindowStatementsFlatten(sheet, ws[..n + 1]);
  }

  /** Whatever a run commits keeps every record under its own key and within the widths the store enforces. */
  lemma UpsertedKeeps(t: map<string, Record>, sheet: seq<seq<string>>, total: nat, admit: Admission)
    ensures KeyedRight(t) ==> KeyedRight(Upserted(t, sheet, total, admit).table)
    ensures HonoursWidths(admit, Schema) && AllFit(t) ==> AllFit(Upserted(t, sheet, total, admit).table)
  {
    var bs := WindowStatements(sheet, Windows(total));
    forall k | 0 <= k < |bs|
      ensures AllKeyed(bs[k])
    {
      StatementsKeyed(Fetch(sheet, Windows(total)[k]));
    }
    RunBatchesKeeps(t, bs, admit);
  }

  /**
   * One pass of the loop over a fetched window (lines 79-135): pad the row,
   * rewrite its dates, and upsert it when it has a `10_number`. In terms of
   * the statements still to run, `rest`: the row's statement is applied,
   * and a refused one leaves the transaction in error.
   */
  method UpsertRow(conn: KeyedConnection, cells: seq<string>, ghost stmts: Batch, admit: Admission) returns (ok: bool)
    requires !conn.aborted && stmts != [] && stmts[0] == RowUpsert(cells)
    modifies conn
    ensures conn.committed == old(conn.committed)
    ensures ok ==> !conn.aborted
    ensures ok ==> Apply(old(conn.working), stmts, admit) == Apply(conn.working, stmts[1..], admit)
    ensures !ok ==> Apply(old(conn.working), stmts, admit) == Applied(old(conn.working), false)
  {
    var row := PadRow(cells);
    if row[KeySlot] != "" {
      var verdict := conn.Upsert(row[KeySlot], UpsertTuple(row), admit);
      ok := verdict == Accepted;
    } else {
      ok := true;
    }
  }

  /** The loop over one fetched window; a refused statement raises out of it. */
  method UpsertBatch(conn: KeyedConnection, batch: seq<seq<string>>, admit: Admission) returns (ok: bool)
    requires !conn.aborted
    modifies conn
    ensures conn.committed == old(conn.committed)
    ensures ok == Apply(old(conn.working), Statements(batch), admit).ok
    ensures ok ==> conn.working == Apply(old(conn.working), Statements(batch), admit).table && !conn.aborted
  {
    ghost var stmts := Statements(batch);
    var j := 0;
    while j < |batch|
      invariant 0 <= j <= |batch|
      invariant conn.committed == old(conn.committed) && !conn.aborted
      invariant Apply(old(conn.working), stmts, admit) == Apply(conn.working, stmts[j..], admit)
    {
      assert stmts[j..][0] == stmts[j] && stmts[j..][1..] == stmts[j + 1..];
      var done := UpsertRow(conn, batch[j], stmts[j..], admit);
      if !done {
        return false;
      }
      j := j + 1;
    }
    ok := true;
  }

  /**
   * One iteration of the outer loop (lines 75-138): fetch the window,
   * upsert its rows, commit. In terms of the windows still to run, `rest`:
   * the window is committed, or it raises and the run ends.
   */
  method UpsertWindow(conn: KeyedConnection, sheet: seq<seq<string>>, w: Window, ghost bs: seq<Batch>, admit: Admission)
    returns (ok: bool)
    requires conn.Idle() && bs != [] && bs[0] == Statements(Fetch(sheet, w))
    modifies conn
    ensures ok ==> conn.Idle()
    ensures ok ==> RunBatches(old(conn.committed), bs, admit) == RunBatches(conn.committed, bs[1..], admit)
    ensures !ok ==> conn.committed == old(conn.committed)
    ensures !ok ==> RunBatches(old(conn.committed), bs, admit) == Applied(conn.committed, false)
  {
    var batch := Fetch(sheet, w);
    ok := UpsertBatch(conn, batch, admit);
    if ok {
      conn.Commit();
    }
  }

  /**
   * `upsert_data` (lines 72-138): fetch each window, upsert its rows and
   * commit. It returns false where an exception leaves the function, with
   * the failing window's transaction still open.
   */
  method UpsertData(conn: KeyedConnection, sheet: seq<seq<string>>, total: nat, admit: Admission) returns (ok: bool)
    requires conn.Idle()
    modifies conn
    ensures ok == Upserted(old(conn.committed), sheet, total, admit).ok
    ensures conn.committed == Upserted(old(conn.committed), sheet, total, admit).table
    ensures ok ==> conn.Idle()
  {
    ghost var ws := Windows(total);
    ghost var bs := WindowStatements(sheet, ws);
    ghost var k := 0;
    var start: RowNumber := 2;
    while start <= total
      invariant 0 <= k <= |ws| && WindowsFrom(start, total) == ws[k..]
      invariant conn.Idle()
      invariant Upserted(old(conn.committed), sheet, total, admit) == RunBatches(conn.committed, bs[k..], admit)
      decreases total + 1 - start
    {
      var end := Min(start + BatchSize - 1, total);
      assert ws[k..][0] == ws[k] == Window(start, end) && ws[k..][1..] == ws[k + 1..];
      assert bs[k..][0] == bs[k] && bs[k..][1..] == bs[k + 1..];
      var done := UpsertWindow(conn, sheet, Window(start, end), bs[k..], admit);
      if !done {
        return false;
      }
      start := start + BatchSize;
      k := k + 1;
    }
    assert ws[k..] == [];
    ok := true;
  }

  /**
   * The script's main block (lines 141-156): the table is created when
   * missing and otherwise left as it is, the sheet is upserted, and the
   * connection is closed whatever happened, discarding an open window.
   */
  method Run(conn: KeyedConnection, sheet: seq<seq<string>>, total: nat, admit: Admission) returns (ok: bool)
    requires conn.Idle()
    modifies conn
    ensures ok == Upserted(old(conn.committed), sheet, total, admit).ok
    ensures conn.committed == Upserted(old(conn.committed), sheet, total, admit).table
    ensures conn.Idle()
  {
    ok := UpsertData(conn, sheet, total, admit);
    conn.Close();
  }
}
