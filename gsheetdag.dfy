/**
 * hr_gsheet2db_dag.py, the body of the Airflow task `hr_gsheet2db`: the
 * whole sheet replaces the table `employee_records_for_IT_use`.
 */
module GsheetDag {
  import opened Common
  import opened Header
  import opened AppendSync
  import opened Store

  /** The declared column types of `employee_records_for_IT_use`, in column order. */
  const Schema: seq<ColumnType> := [
    Varchar(50), Varchar(100), Varchar(100), Varchar(50),  // Div, Formal_Name, Department, Cost_Centre
    SqlDate, SqlDate,                                      // Reporting_date, Resigned_date
    Varchar(10), Varchar(8), Varchar(8)                    // 10_Number, Department_Code, Cost_Centre_Code
  ]

  /**
   * One run over the sheet's values `data`. An empty sheet raises before the
   * database is touched; otherwise the table is dropped and recreated, and
   * it ends holding exactly the accepted records of the data rows, read
   * under the cleaned header, in sheet order.
   */
  method Run(conn: AppendConnection, data: seq<seq<string>>, admit: Admission)
    requires conn.Idle()
    modifies conn
    ensures data == [] ==> conn.committed == old(conn.committed)
    ensures data != [] ==> conn.committed == Inserted(SanitizeStripped(data[0]), data[1..], admit)
    ensures data != [] && HonoursWidths(admit, Schema) ==>
      forall r :: r in conn.committed ==> FitsWidths(Schema, r)
    ensures conn.Idle()
  {
    if data == [] {
      return;
    }
    var header := SanitizeStripped(data[0]);
    var rows := if |data| > 1 then data[1..] else [];
    conn.Recreate();
    InsertRows(conn, header, rows, admit);
    if HonoursWidths(admit, Schema) {
      InsertedFitsWidths(header, rows, admit, Schema);
    }
  }
}
