/**
 * cloud.py's SQLite store: the `json_data` table of `extracted_data.db`. The
 * `json.loads` check is the `loads` argument (true when it parses); every `sqlite3`
 * failure is a `fault` argument; the date column takes the clock reading `now`.
 */
module Cloud {
  import opened Base
  import opened Ingest
  import opened Extraction
  import opened JsonTable
  import opened Pipeline

  /** Which branch `insert_json_to_database` ends in. */
  datatype InsertOutcome = Inserted | InvalidJson | DatabaseError

  class CloudStore {
    /** The `json_data` table exists in the database file. */
    var tableExists: bool
    var rows: seq<Row<Record>>
    /** One more than the largest id `AUTOINCREMENT` has handed out (`sqlite_sequence`). */
    var nextId: nat

    function Contents(): Table<Record>
      reads this
    {
      Table(rows, nextId)
    }

    ghost predicate Valid()
      reads this
    {
      JsonTable.Valid(Contents()) && (!tableExists ==> Contents() == Empty())
    }

    /** A database file without the table. */
    constructor ()
      ensures Valid() && !tableExists
    {
      tableExists := false;
      rows, nextId := [], 1;
    }

    /** `initialize_database`: `CREATE TABLE IF NOT EXISTS`. Rows and id generator are
        never touched, so a second call changes nothing. */
    method InitializeDatabase(fault: bool) returns (ok: bool)
      requires Valid()
      modifies this
      ensures Valid()
      ensures ok == !fault
      ensures tableExists == (old(tableExists) || ok)
      ensures Contents() == old(Contents())
    {
      ok := !fault;
      if ok {
        tableExists := true;
      }
    }

    /** `insert_json_to_database`: text `json.loads` rejects takes the "Invalid JSON
        data" branch; otherwise the `INSERT` appends exactly one row, unless `sqlite3`
        fails. Only the `Inserted` outcome changes the table. */
    method InsertJsonToDatabase(documentName: string, jsonData: string, now: int,
                                loads: string -> bool, fault: bool)
      returns (outcome: InsertOutcome)
      requires Valid()
      modifies this
      ensures Valid()
      ensures outcome ==
        if !loads(jsonData) then InvalidJson
        else if fault || !tableExists then DatabaseError
        else Inserted
      ensures outcome == Inserted ==>
        Contents() == Insert(old(Contents()), Record(documentName, jsonData, now))
      ensures outcome != Inserted ==> Contents() == old(Contents())
      ensures tableExists == old(tableExists)
    {
      if !loads(jsonData) {
        return InvalidJson;
      }
      if fault || !tableExists {
        return DatabaseError;
      }
      var t := Insert(Contents(), Record(documentName, jsonData, now));
      rows, nextId := t.rows, t.nextId;
      outcome := Inserted;
    }

    /** `delete_records`: on success the table is empty; the id generator keeps its
        value, so ids are never reused. A failure changes nothing. */
    method DeleteRecords(fault: bool) returns (ok: bool)
      requires Valid()
      modifies this
      ensures Valid()
      ensures ok == (!fault && tableExists)
      ensures ok ==> Contents() == Clear(old(Contents()))
      ensures !ok ==> Contents() == old(Contents())
      ensures tableExists == old(tableExists)
    {
      ok := !fault && tableExists;
      if ok {
        var t := Clear(Contents());
        rows, nextId := t.rows, t.nextId;
      }
    }

    /** `SELECT * FROM json_data` for the report: every row, in storage order. */
    method ReadAll(fault: bool) returns (r: Result<seq<Row<Record>>, StoreError>)
      requires Valid()
      ensures r.Success? <==> !fault && tableExists
      ensures r.Success? ==> r.value == rows
    {
      if fault || !tableExists {
        return Failure(StoreError);
      }
      r := Success(rows);
    }

    /** The "Extract Text" branch of `main`: the table changes only when the stage
        reached the insert and `json.loads` and `sqlite3` both succeeded, and then by
        exactly the row for the document name and the extracted text. */
    method RunExtract(submit: bool, upload: Option<Upload>, documentName: string,
                      response: Option<string>, now: int, loads: string -> bool,
                      fault: bool) returns (stage: Stage, outcome: Option<InsertOutcome>)
      requires Valid()
      modifies this
      ensures Valid()
      ensures stage == GreedyStage(submit, upload, documentName, response)
      ensures outcome.Some? <==> stage.Store?
      ensures outcome == Some(Inserted) ==>
        Contents() == Insert(old(Contents()), Record(documentName, stage.json, now))
      ensures outcome != Some(Inserted) ==> Contents() == old(Contents())
      ensures stage.Store? ==> outcome == Some(
        if !loads(stage.json) then InvalidJson
        else if fault || !tableExists then DatabaseError
        else Inserted)
      ensures tableExists == old(tableExists)
    {
      stage := GreedyStage(submit, upload, documentName, response);
      outcome := None;
      if stage.Store? {
        var o := InsertJsonToDatabase(documentName, stage.json, now, loads, fault);
        outcome := Some(o);
      }
    }
  }

  /** Insert-then-read, end to end: starting from an empty table, a successful run of
      the extraction branch followed by the report's read gives exactly one row, with
      the document name and the text the extractor took out of the model's response. */
  method InsertThenReport(documentName: string, response: string, now: int,
                          upload: Upload, loads: string -> bool)
    returns (stage: Stage, report: Result<seq<Row<Record>>, StoreError>)
    requires documentName != "" && ExtractGreedy(response).Some?
    requires loads(ExtractGreedy(response).value)
    ensures report.Success? && |report.value| == 1
    ensures report.value[0].value.documentName == documentName
    ensures report.value[0].value.jsonData == ExtractGreedy(response).value
  {
    var store := new CloudStore();
    var ok := store.InitializeDatabase(false);
    var outcome;
    stage, outcome := store.RunExtract(true, Some(upload), documentName, Some(response), now, loads, false);
    report := store.ReadAll(false);
  }
}
