# Image2JSON extract-and-store pipeline, modelled in Dafny

Three Streamlit scripts (`local.py`, `cloud.py`, `app.py`) let a user upload an image of a
hand-filled form. Each script sends the image to a hosted vision model, scrapes a JSON
object out of the model's free-text answer with a regular expression (`extract_json`), and
stores that text in a `json_data` table. The store is PostgreSQL in `local.py` and `app.py`
and SQLite in `cloud.py`. This project models the parts of those scripts that are logic
rather than library calls:

- `scan.dfy` (`Scan`): first and last index of a character. The regex searches are built
  from these.
- `extraction.dfy` (`Extraction`): the two `extract_json` variants.
  - The greedy `\{[\s\S]+\}` of `local.py`/`cloud.py` runs from the first `{` to the last
    `}`, and needs at least one character between them.
  - The lazy `{[\s\S]*?(?=})` of `app.py` runs from the first `{` up to, but not
    including, the first `}` after it.
  - Each variant is proved equal to the match Python's `re.search` reports. That match is
    the leftmost one; among matches at that start it is the longest (greedy) or the
    shortest (lazy).
- `ingest.dfy` (`Ingest`): `load_image`. The three scripts carry the same function
  (`local.py:47-56`, `cloud.py:41-49`, `app.py:16-27`).
- `config.dfy` (`Config`): the required-environment-variables check at start-up in
  `local.py`.
- `table.dfy` (`JsonTable`): the `json_data` table as a value. It holds rows in storage
  order plus the id generator (`SERIAL` / `AUTOINCREMENT`). It defines insert, bulk clear,
  and sequences of those operations, with the append-only and id-freshness lemmas. It also
  declares the row columns shared by `local.py` and `cloud.py` (`Record`) and the one
  database error (`StoreError`).
- `pipeline.dfy` (`Pipeline`): how far one press of "Extract Text" gets in each `main`,
  and which text, if any, it hands to the store.
- `local.dfy`, `cloud.dfy`, `app.dfy`: one class per script's store. Each class's fields
  are the provisioning flags, the row sequence and the id counter. Each class has methods
  for the script's database functions and for its extraction branch of `main`.

External effects are parameters of the model:
- the model's response is an `Option<string>`, where `None` means `generate_text` raised;
- every database failure is a `fault: bool`;
- `json.loads` and PostgreSQL's `JSONB` input are predicate parameters (`loads`, `jsonb`);
- the `date_created` clock reading is `now`.

Points of the code's behaviour the model keeps as they are:
- The matched span is passed to the insert as it is; nothing in the scripts parses or
  re-serialises it. `local.py`
  relies on the `JSONB` cast, and `app.py` uses the lazy pattern.
- Reading an empty table is not an error.
- `load_image` checks only that an upload is present, not that it has content.

## Model

| member | source | states |
|---|---|---|
| `Extraction.ExtractGreedy` | local.py:99-112 | Any text returned starts with `{`, ends with `}` and has length at least 3, so it is always truthy for `if json_data` |
| `Extraction.GreedyNoneIff` | local.py:101-108 | `None` exactly when no `}` stands two or more places after any `{`. A later `{` never rescues a failed first one |
| `Extraction.GreedySound` | local.py:101-106 | A returned text is the match `re.search` reports: leftmost start, and the longest match from there |
| `Extraction.GreedyComplete` | local.py:101-106 | The match `re.search` reports is exactly what is returned |
| `Extraction.GreedyFirstToLast` | local.py:101-106 | The result is the contiguous slice from the input's first `{` to its last `}`. No match ends beyond it, so nested objects are captured whole |
| `Extraction.GreedyIdempotent` | local.py:101-106 | Extracting again from a returned text gives that text unchanged |
| `Extraction.EmptyObject` | local.py:101-108 | `{}` yields `None` from the greedy pattern and `{` from the lazy one |
| `Extraction.NestedInProse` | cloud.py:84-87 | `x {"a": {}} y` yields the whole outer object `{"a": {}}`, not a truncated inner span |
| `Extraction.NoBraces` | cloud.py:84-87 | A response with no brace yields `None` from both variants |
| `Extraction.ExtractLazy` | app.py:50-56 | Any text returned is non-empty, starts with `{` and contains no `}` |
| `Extraction.LazyNoneIff` | app.py:51-56 | `None` exactly when no `}` occurs after any `{` |
| `Extraction.LazySound` | app.py:51-54 | A returned text is the match `re.search` reports: leftmost start, and the shortest match from there |
| `Extraction.LazyComplete` | app.py:51-54 | The match `re.search` reports is exactly what is returned |
| `Extraction.LazyAtFirstBrace` | app.py:52-54 | The result is a contiguous slice starting at the input's first `{`, and the input's next character is `}` |
| `Extraction.LazyOutputRejected` | app.py:50-56 | Extracting again from a lazy result finds nothing, so this variant is not idempotent |
| `Extraction.LazyPrefixOfGreedy` | app.py:51 | Wherever the greedy pattern matches, the lazy one matches a strict prefix of the greedy span |
| `Extraction.FlatObject` | app.py:51 | `{"a": 1}` yields `{"a": 1` from the lazy pattern and `{"a": 1}` from the greedy one |
| `Extraction.LazyNeverValidObject` | app.py:51-54 | No JSON parser that requires objects to be closed accepts a lazy result |
| `Extraction.ExtractLazyClosed` | app.py:51 | Corrected lazy search that consumes the `}`: its result starts with `{`, ends with `}` and has no `}` before its end |
| `Extraction.LazyClosedExtends` | app.py:51 | The corrected search succeeds on the same inputs as the original and returns the original text plus the closing `}` |
| `Ingest.LoadImage` | local.py:47-56 | Fails with `FileNotFoundError("No file uploaded")` exactly when there is no upload. Otherwise it returns a one-element list with the upload's type and bytes unchanged |
| `Config.MissingVars` | local.py:23 | A name is reported exactly when it is listed and unset or empty |
| `Config.MissingVarsAppend` | local.py:23 | The reported list keeps the order of the required names |
| `Config.MissingVarsAllUnset` | local.py:23 | With every listed name unset, the report is the full list, with nothing dropped or repeated |
| `Config.StartupCheck` | local.py:22-25 | Raises exactly when some required variable is unset or empty. The error carries the non-empty list of missing names, in `required_vars` order |
| `Config.Join` | local.py:25 | A non-empty join starts with the first name; an empty list joins to the empty text |
| `Config.JoinAppend` | local.py:25 | Joining a concatenation is joining each part with the separator between them, so names keep their order |
| `Config.JoinExample` | local.py:25 | `", ".join(["DB_HOST", "DB_PORT"])` is `DB_HOST, DB_PORT` |
| `Config.Message` | local.py:25 | The error text is the `Missing environment variables: ` prefix followed by the missing names joined with `, ` |
| `JsonTable.Insert` | cloud.py:101-104 | Exactly one row is appended, carrying the given columns. Existing rows are unchanged and in place. The new id differs from every existing id, and table validity is kept |
| `JsonTable.Clear` | cloud.py:148 | No rows remain, and the id generator keeps its value |
| `JsonTable.InsertThenRead` | cloud.py:101-104 | After an insert, reading all rows finds a row with the inserted columns. From an empty table it is the only row |
| `JsonTable.RunValid` | cloud.py:32 | Any sequence of inserts and bulk deletes keeps ids increasing and below the generator |
| `JsonTable.GeneratorMonotone` | cloud.py:32 | The id generator never moves back, across inserts and deletes |
| `JsonTable.AssignedBounds` | cloud.py:32 | Every id assigned by a sequence of operations lies between the generator's value before and after it |
| `JsonTable.AssignedFresh` | cloud.py:32 | Ids assigned over any sequence of inserts and bulk deletes strictly increase, so none is handed out twice (`AUTOINCREMENT`) |
| `JsonTable.AssignedAboveExisting` | cloud.py:32 | Every id assigned over any sequence of inserts and bulk deletes differs from every id present at the start, including ids whose rows were deleted |
| `JsonTable.AppendOnly` | cloud.py:101-104 | Inserts never modify or remove existing rows: the old rows are still the first rows |
| `JsonTable.DeleteThenRead` | cloud.py:148-150 | After a bulk delete the table is empty, whatever came before |
| `Pipeline.GreedyStage` | local.py:236-248 | The insert is reached exactly when submit, upload and document name are all present and the greedy extractor returned text. It receives exactly that text, and `load_image` cannot fail under the guard |
| `Pipeline.LazyStage` | app.py:124-138 | The insert is reached exactly when submit, upload and "Save Data" are present and the lazy extractor returned text. A missing upload raises `FileNotFoundError`, and a failed model call raises |
| `Local.LocalStore.EnsureDatabaseExists` | local.py:114-137 | Creates the database only when the catalog lookup finds none, and reports whether it did. A failure changes nothing; the table and rows are never touched |
| `Local.LocalStore.EnsureTableExists` | local.py:139-157 | Creates the table only if absent, inside an existing database. An existing table keeps its rows and sequence; a failure changes nothing |
| `Local.LocalStore.InsertIntoDatabase` | local.py:159-174 | Appends exactly one row `(document_name, json_data, now)` when the statement commits. Otherwise the insert is rolled back and the table is unchanged |
| `Local.LocalStore.ReadAll` | local.py:178-180 | The report read-back returns every row in storage order |
| `Local.LocalStore.RunExtract` | local.py:236-248 | The table changes only when the greedy stage reached the insert and the insert committed, and then by exactly that one row |
| `Cloud.CloudStore.InitializeDatabase` | cloud.py:26-39 | Creates the table if absent and never touches rows or the id generator, so a second call changes nothing |
| `Cloud.CloudStore.InsertJsonToDatabase` | cloud.py:93-113 | Text `json.loads` rejects takes the "Invalid JSON data" branch and leaves the table unchanged. Otherwise exactly one row `(document_name, json_data)` is appended unless `sqlite3` fails |
| `Cloud.CloudStore.DeleteRecords` | cloud.py:143-155 | On success the table is empty and the id generator is kept. A failure changes nothing |
| `Cloud.CloudStore.ReadAll` | cloud.py:117-120 | The report read-back returns every row in storage order |
| `Cloud.CloudStore.RunExtract` | cloud.py:217-234 | The table changes only when the greedy stage reached the insert, `json.loads` accepted the text and `sqlite3` succeeded, and then by exactly that one row |
| `Cloud.InsertThenReport` | cloud.py:93-120 | From a fresh database, a successful extraction followed by the report's read gives exactly one row, with the document name and the extracted text |
| `App.AppStore.InsertIntoDatabase` | app.py:58-103 | On success the table exists and holds exactly one more row with the text. Any failure leaves the table, and whether it exists, unchanged |
| `App.AppStore.RunExtract` | app.py:124-138 | The table changes only when the lazy stage reached the insert and the insert succeeded. With a parser that requires closed objects, it never changes |

## Findings

| source | as written | input that shows it | evidently intended | confidence | as-written member | corrected member |
|---|---|---|---|---|---|---|
| app.py:51 | The lookahead `(?=})` leaves the closing brace out of the match, so the stored text never closes its object and the `JSONB` cast rejects every insert | `{"a": 1}` gives `{"a": 1` | Capture the object including its `}` (`{[\s\S]*?}`), as the comment "between { and }" says | high (not executed) | `Extraction.LazyNeverValidObject` | `Extraction.ExtractLazyClosed` |

`App.AppStore.RunExtract` keeps the extractor as written, because it models what `app.py`
does. Its last postcondition states the consequence: no row is ever stored.

## Left out

- `generate_text` (Groq and Gemini calls, the base64 data URI) is a network call. Its
  answer is the `response` parameter, with `None` for a raised error.
- Streamlit rendering, spinners, messages, `st.json`, PIL image display and rerun
  semantics are not modelled. `app.py`'s nested "Save Data" button is the independent
  flag `save`. In Streamlit, pressing it reruns the script with "Extract Text" unpressed.
- `save_text_to_file`, the Excel export, the download button and `cleanup_temp_files`
  are filesystem and pandas work. Only the `SELECT * FROM json_data` read is kept
  (`ReadAll`).
- `json.loads` and the `JSONB` cast are not modelled as parsers. They are the
  predicate parameters `loads` and `jsonb`. The only property assumed of a parser is
  `ClosesObjects`, and only where stated.
- Connection pools, `getconn`/`putconn`, `close`, and dotenv loading are left out, and so
  is client construction at import time.
- Database failures are the `fault` flags and do not say which statement failed.
  `ensure_database_exists` failing after the lookup is one of them.
- The rejection of `CREATE DATABASE IF NOT EXISTS` (app.py:70) by PostgreSQL is not
  modelled. That statement counts as succeeding unless `fault` is set.
- The unbound `conn` in the `finally` at app.py:101 when the first connect fails is not
  modelled.
- The `except` branches of `extract_json` (local.py:109-112, cloud.py:88-91) are not
  modelled. `re.search` on a string does not raise, and a response of `None` is not
  modelled.
- `Local.LocalStore.InsertIntoDatabase`, `Local.LocalStore.ReadAll` and
  `App.AppStore.InsertIntoDatabase`: the stored `jsonData` stands for the `JSONB` value
  PostgreSQL keeps (local.py:148, app.py:87). That value is parsed and normalised:
  whitespace is dropped, keys are reordered and only the last of a duplicate key is
  kept. So it need not equal the inserted text, and `SELECT *` (local.py:180) returns
  the normalised value. The model stores and reads back the text exactly as inserted.
- `Local.LocalStore.InsertIntoDatabase`: a failed insert leaves the id counter as it
  was. PostgreSQL may still consume a `SERIAL` value in that case. Ids stay unique
  either way.
- The `date_created` default is the clock reading `now` passed by the caller.
- `seleniumtest.py` is not part of this model.
