/**
 * Values shared by every script of the synchroniser: the optional value, the
 * calendar date, the cells of a database record and the store's verdict on a
 * written record.
 */
module Common {

  datatype Option<+T> = None | Some(value: T)

  /** A `datetime.date`, as the triple (year, month, day). */
  datatype Date = Date(year: int, month: int, day: int)

  /**
   * One parameter passed to `cursor.execute`: a Python `str`, `None`
   * (SQL NULL) or a `datetime.date`.
   */
  datatype Value = Text(s: string) | Null | Day(d: Date)

  /** The parameter list of one INSERT statement. */
  type Record = seq<Value>

  /** The psycopg2 exception classes the scripts distinguish. */
  datatype StoreError =
    | IntegrityError  // psycopg2.IntegrityError: a constraint was violated
    | DataError       // psycopg2.DataError: a value does not fit its column
    | OtherError      // any other psycopg2.Error (connection, aborted transaction, ...)

  /** What the database answers to one INSERT or upsert statement. */
  datatype Verdict = Accepted | Rejected(error: StoreError)

  /** A store: its (abstract) decision on each statement's parameters. */
  type Admission = Record -> Verdict

  /** The declared SQL type of a column. */
  datatype ColumnType = Varchar(width: nat) | SqlDate

  /**
   * The record respects the declared VARCHAR widths: it has one value per
   * column and no text is longer than its column allows.
   */
  predicate FitsWidths(schema: seq<ColumnType>, r: Record)
  {
    |r| == |schema| &&
    forall i :: 0 <= i < |r| && schema[i].Varchar? && r[i].Text? ==> |r[i].s| <= schema[i].width
  }

  /** The store refuses every record that overflows a VARCHAR column of the schema. */
  ghost predicate HonoursWidths(admit: Admission, schema: seq<ColumnType>)
  {
    forall r :: admit(r) == Accepted ==> FitsWidths(schema, r)
  }
}
