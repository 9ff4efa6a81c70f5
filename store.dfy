/**
 * The PostgreSQL side of the scripts, as psycopg2 connections see it: a
 * statement runs inside the open transaction, `commit` makes the
 * transaction's effects durable and `rollback` (or closing the connection)
 * discards them. Whether the server accepts a statement is the abstract
 * `Admission` of the store.
 */
module Store {
  import opened Common

  /**
   * A connection to `employee_records_for_IT_use`, a table with no key
   * that only ever receives INSERTs.
   */
  class AppendConnection {
    /** The rows of the table as committed. */
    var committed: seq<Record>
    /** The rows inserted by the open transaction, not yet committed. */
    var pending: seq<Record>
    /** A statement of the open transaction failed; PostgreSQL refuses any further one. */
    var aborted: bool

    constructor (table: seq<Record>)
      ensures committed == table && pending == [] && !aborted
    {
      committed := table;
      pending := [];
      aborted := false;
    }

    /** No transaction holds uncommitted work. */
    predicate Idle()
      reads this
    {
      pending == [] && !aborted
    }

    /** `DROP TABLE IF EXISTS` then `CREATE TABLE`, each followed by `commit`. */
    method Recreate()
      modifies this
      ensures committed == [] && Idle()
    {
      committed := [];
      pending := [];
      aborted := false;
    }

    /**
     * `cursor.execute(insert_query, r)`: in a failed transaction every
     * statement is refused; otherwise the store decides, and an accepted
     * row joins the open transaction while a refused one puts it in error.
     */
    method Insert(r: Record, admit: Admission) returns (v: Verdict)
      modifies this
      ensures committed == old(committed)
      ensures old(aborted) ==> v == Rejected(OtherError) && pending == old(pending) && aborted
      ensures !old(aborted) ==> v == admit(r)
      ensures !old(aborted) && v == Accepted ==> pending == old(pending) + [r] && !aborted
      ensures !old(aborted) && v != Accepted ==> pending == old(pending) && aborted
    {
      if aborted {
        v := Rejected(OtherError);
      } else {
        v := admit(r);
        if v == Accepted {
          pending := pending + [r];
        } else {
          aborted := true;
        }
      }
    }

    /**
     * `conn.commit()`: the open transaction's rows become part of the table;
     * a transaction in error is rolled back instead, as PostgreSQL does.
     */
    method Commit()
      modifies this
      ensures committed == if old(aborted) then old(committed) else old(committed) + old(pending)
      ensures Idle()
    {
      if !aborted {
        committed := committed + pending;
      }
      pending := [];
      aborted := false;
    }

    /** `conn.rollback()`: the open transaction's work is discarded. */
    method Rollback()
      modifies this
      ensures committed == old(committed) && Idle()
    {
      pending := [];
      aborted := false;
    }
  }

  /**
   * A connection to `hr_merge_for_IT_use`, whose rows are keyed on
   * `"10_number"` (its PRIMARY KEY) and written with
   * `INSERT ... ON CONFLICT ("10_number") DO UPDATE`.
   */
  class KeyedConnection {
    /** The table as committed: the row stored under each key. */
    var committed: map<string, Record>
    /** The table as the open transaction sees it. */
    var working: map<string, Record>
    /** A statement of the open transaction failed. */
    var aborted: bool

    constructor (table: map<string, Record>)
      ensures committed == table && working == table && !aborted
    {
      committed := table;
      working := table;
      aborted := false;
    }

    predicate Idle()
      reads this
    {
      working == committed && !aborted
    }

    /**
     * The upsert of `r` under `key`: when the store accepts it, the key's
     * row becomes `r` in every column, whether or not the key was present,
     * and no other key is touched.
     */
    method Upsert(key: string, r: Record, admit: Admission) returns (v: Verdict)
      modifies this
      ensures committed == old(committed)
      ensures old(aborted) ==> v == Rejected(OtherError) && working == old(working) && aborted
      ensures !old(aborted) ==> v == admit(r)
      ensures !old(aborted) && v == Accepted ==> working == old(working)[key := r] && !aborted
      ensures !old(aborted) && v != Accepted ==> working == old(working) && aborted
    {
      if aborted {
        v := Rejected(OtherError);
      } else {
        v := admit(r);
        if v == Accepted {
          working := working[key := r];
        } else {
          aborted := true;
        }
      }
    }

    /** `conn.commit()`; a transaction in error is rolled back instead. */
    method Commit()
      modifies this
      ensures committed == if old(aborted) then old(committed) else old(working)
      ensures Idle()
    {
      if aborted {
        working := committed;
      } else {
        committed := working;
      }
      aborted := false;
    }

    /** `conn.close()`: an open transaction is discarded, the committed table stays. */
    method Close()
      modifies this
      ensures committed == old(committed) && Idle()
    {
      working := committed;
      aborted := false;
    }
  }
}
