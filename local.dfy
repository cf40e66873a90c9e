/**
 * local.py's PostgreSQL store: the target database, the `json_data` table inside it
 * and that table's rows. Every failure of a connection or statement (including the
 * `JSONB` cast rejecting the text) is a `fault` argument or the `jsonb` parser
 * argument; the date column takes the clock reading `now`.
 */
module Local {
  import opened Base
  import opened Ingest
  import opened JsonTable
  import opened Pipeline

  class LocalStore {
    /** `pg_catalog.pg_database` lists the target database. */
    var databaseExists: bool
    /** The `json_data` table exists in it. */
    var tableExists: bool
    var rows: seq<Row<Record>>
    /** The next value of the table's `SERIAL` sequence. */
    var nextId: nat

    function Contents(): Table<Record>
      reads this
    {
      Table(rows, nextId)
    }

    /** A table lives inside the database; a table not yet created holds nothing. */
    ghost predicate Valid()
      reads this
    {
      && JsonTable.Valid(Contents())
      && (tableExists ==> databaseExists)
      && (!tableExists ==> Contents() == Empty())
    }

    /** A server on which nothing has been provisioned yet. */
    constructor ()
      ensures Valid() && !databaseExists && !tableExists
    {
      databaseExists, tableExists := false, false;
      rows, nextId := [], 1;
    }

    /** `ensure_database_exists`: creates the database only when the catalog lookup
        finds none (reporting whether it did); a failure is raised and changes nothing.
        The table and its rows are never touched. */
    method EnsureDatabaseExists(fault: bool) returns (r: Result<bool, StoreError>)
      requires Valid()
      modifies this
      ensures Valid()
      ensures r.Failure? <==> fault
      ensures r.Success? ==> r.value == !old(databaseExists) && databaseExists
      ensures r.Failure? ==> databaseExists == old(databaseExists)
      ensures tableExists == old(tableExists) && Contents() == old(Contents())
    {
      if fault {
        return Failure(StoreError);
      }
      var found := databaseExists;
      if !found {
        databaseExists := true;
      }
      r := Success(!found);
    }

    /** `ensure_table_exists`: `CREATE TABLE IF NOT EXISTS` inside the target database.
        An existing table keeps its rows and sequence; a failure (no database to connect
        to, or any other) is raised and changes nothing. */
    method EnsureTableExists(fault: bool) returns (r: Result<(), StoreError>)
      requires Valid()
      modifies this
      ensures Valid()
      ensures r.Success? <==> !fault && databaseExists
      ensures tableExists == (old(tableExists) || r.Success?)
      ensures databaseExists == old(databaseExists) && Contents() == old(Contents())
    {
      if fault || !databaseExists {
        return Failure(StoreError);
      }
      tableExists := true;
      r := Success(());
    }

    /** `insert_into_database`: appends one row when the statement and commit succeed;
        on any failure the transaction is rolled back and the table is as before. The
        error is reported, not raised. */
    method InsertIntoDatabase(documentName: string, jsonData: string, now: int,
                              jsonb: string -> bool, fault: bool) returns (ok: bool)
      requires Valid()
      modifies this
      ensures Valid()
      ensures ok == (tableExists && jsonb(jsonData) && !fault)
      ensures ok ==> Contents() == Insert(old(Contents()), Record(documentName, jsonData, now))
      ensures !ok ==> Contents() == old(Contents())
      ensures databaseExists == old(databaseExists) && tableExists == old(tableExists)
    {
      ok := tableExists && jsonb(jsonData) && !fault;
      if ok {
        var t := Insert(Contents(), Record(documentName, jsonData, now));
        rows, nextId := t.rows, t.nextId;
      }
    }

    /** `SELECT * FROM json_data` for the report: every row, in storage order. */
    method ReadAll(fault: bool) returns (r: Result<seq<Row<Record>>, StoreError>)
      requires Valid()
      ensures r.Success? <==> !fault && tableExists
      ensures r.Success? ==> r.value == rows
    {
      if fault || !tableExists {
        return Failure(StoreError);
      }
      r := Success(rows);
    }

    /** The "Extract Text" branch of `main`: the table changes only when the stage
        reached the insert and the insert succeeded, and then by exactly the row for
        the document name and the extracted text. */
    method RunExtract(submit: bool, upload: Option<Upload>, documentName: string,
                      response: Option<string>, now: int, jsonb: string -> bool,
                      fault: bool) returns (stage: Stage, inserted: bool)
      requires Valid()
      modifies this
      ensures Valid()
      ensures stage == GreedyStage(submit, upload, documentName, response)
      ensures inserted ==> stage.Store?
      ensures stage.Store? ==> inserted == (tableExists && jsonb(stage.json) && !fault)
      ensures inserted ==>
        Contents() == Insert(old(Contents()), Record(documentName, stage.json, now))
      ensures !inserted ==> Contents() == old(Contents())
      ensures databaseExists == old(databaseExists) && tableExists == old(tableExists)
    {
      stage := GreedyStage(submit, upload, documentName, response);
      inserted := false;
      if stage.Store? {
        inserted := InsertIntoDatabase(documentName, stage.json, now, jsonb, fault);
      }
    }
  }
}
