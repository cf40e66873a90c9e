/**
 * app.py's PostgreSQL store: a `json_data` table with a single `data` column. Every
 * failure of a connection or statement is a `fault` argument; the `JSONB` cast of the
 * inserted text is the `jsonb` parser argument.
 */
module App {
  import opened Base
  import opened Ingest
  import opened Extraction
  import opened JsonTable
  import opened Pipeline

  class AppStore {
    /** The `json_data` table exists in database `data`. */
    var tableExists: bool
    /** The `data` column of every row, with its `SERIAL` id. */
    var rows: seq<Row<string>>
    var nextId: nat

    function Contents(): Table<string>
      reads this
    {
      Table(rows, nextId)
    }

    ghost predicate Valid()
      reads this
    {
      JsonTable.Valid(Contents()) && (!tableExists ==> Contents() == Empty())
    }

    constructor ()
      ensures Valid() && !tableExists
    {
      tableExists := false;
      rows, nextId := [], 1;
    }

    /** `insert_into_database`: creates the table if absent and appends one row holding
        the text, in one transaction. Any failure (connection, statement, the `JSONB`
        cast) is reported, not raised, and, the transaction never being committed,
        leaves everything as it was. */
    method InsertIntoDatabase(jsonData: string, jsonb: string -> bool, fault: bool)
      returns (ok: bool)
      requires Valid()
      modifies this
      ensures Valid()
      ensures ok == (!fault && jsonb(jsonData))
      ensures ok ==> tableExists && Contents() == Insert(old(Contents()), jsonData)
      ensures !ok ==> tableExists == old(tableExists) && Contents() == old(Contents())
    {
      ok := !fault && jsonb(jsonData);
      if ok {
        tableExists := true;
        var t := Insert(Contents(), jsonData);
        rows, nextId := t.rows, t.nextId;
      }
    }

    /** The "Extract Text" branch of `main`: the table changes only when the stage
        reached the insert and the insert succeeded, and then by exactly one row holding
        the extracted text. Since that text never closes its object, no parser that
        requires closed objects accepts it, and the table never changes. */
    method RunExtract(submit: bool, upload: Option<Upload>, save: bool,
                      response: Option<string>, jsonb: string -> bool, fault: bool)
      returns (stage: Stage, inserted: bool)
      requires Valid()
      modifies this
      ensures Valid()
      ensures stage == LazyStage(submit, upload, save, response)
      ensures inserted ==> stage.Store?
      ensures stage.Store? ==> inserted == (!fault && jsonb(stage.json))
      ensures inserted ==> tableExists && Contents() == Insert(old(Contents()), stage.json)
      ensures !inserted ==> tableExists == old(tableExists) && Contents() == old(Contents())
      ensures ClosesObjects(jsonb) ==> !inserted
    {
      stage := LazyStage(submit, upload, save, response);
      inserted := false;
      if stage.Store? {
        if ClosesObjects(jsonb) {
          LazyNeverValidObject(response.value, jsonb);
        }
        inserted := InsertIntoDatabase(stage.json, jsonb, fault);
      }
    }
  }
}
