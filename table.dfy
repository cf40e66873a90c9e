/**
 * The `json_data` table as a value: its rows in storage order and the next id its
 * generator hands out (`SERIAL` in PostgreSQL, `INTEGER PRIMARY KEY AUTOINCREMENT`
 * in SQLite; both start at 1). The store classes of the three scripts keep these two
 * parts as fields and change them only through the functions below.
 */
module JsonTable {

  /** A stored row: the id the table assigned and the columns the caller supplied. */
  datatype Row<V> = Row(id: nat, value: V)

  datatype Table<V> = Table(rows: seq<Row<V>>, nextId: nat)

  /** The caller-supplied columns of a row in local.py's and cloud.py's schema:
      `document_name`, `json_data`, `date_created`. */
  datatype Record = Record(documentName: string, jsonData: string, dateCreated: int)

  /** A failed database call: a `psycopg2` or `sqlite3` error. */
  datatype StoreError = StoreError

  /** Ids are handed out in increasing order and every id handed out so far lies
      below the generator's next value. */
  predicate Valid<V>(t: Table<V>) {
    && 1 <= t.nextId
    && (forall k :: 0 <= k < |t.rows| ==> t.rows[k].id < t.nextId)
    && (forall j, k :: 0 <= j < k < |t.rows| ==> t.rows[j].id < t.rows[k].id)
  }

  /** A freshly created table. */
  function Empty<V>(): (t: Table<V>)
    ensures Valid(t) && t.rows == []
  {
    Table([], 1)
  }

  /** `INSERT`: one row is appended with a fresh id; the rows already there stay as
      they were, in place. */
  function Insert<V>(t: Table<V>, v: V): (r: Table<V>)
    ensures |r.rows| == |t.rows| + 1
    ensures r.rows[..|t.rows|] == t.rows
    ensures r.rows[|t.rows|].value == v
    ensures Valid(t) ==> Valid(r)
    ensures Valid(t) ==> forall k :: 0 <= k < |t.rows| ==> t.rows[k].id != r.rows[|t.rows|].id
  {
    Table(t.rows + [Row(t.nextId, v)], t.nextId + 1)
  }

  /** `DELETE FROM json_data`: every row goes, the id generator keeps its value. */
  function Clear<V>(t: Table<V>): (r: Table<V>)
    ensures r.rows == [] && r.nextId == t.nextId
    ensures Valid(t) ==> Valid(r)
  {
    Table([], t.nextId)
  }

  /** Insert-then-read: after an insert into a table, reading all rows finds exactly one
      more row carrying the inserted columns; from an empty table that row is the only one. */
  lemma InsertThenRead<V>(t: Table<V>, v: V)
    requires Valid(t)
    ensures exists k :: 0 <= k < |Insert(t, v).rows| && Insert(t, v).rows[k].value == v
    ensures t.rows == [] ==> Insert(t, v).rows == [Row(t.nextId, v)]
  {
    assert Insert(t, v).rows[|t.rows|].value == v;
  }

  /** The operations a session can apply to the table. */
  datatype Op<V> = Add(value: V) | DeleteAll

  function Apply<V>(t: Table<V>, op: Op<V>): Table<V> {
    match op
    case Add(v) => Insert(t, v)
    case DeleteAll => Clear(t)
  }

  /** The table after a sequence of operations. */
  function Run<V>(t: Table<V>, ops: seq<Op<V>>): Table<V>
    decreases |ops|
  {
    if ops == [] then t else Run(Apply(t, ops[0]), ops[1..])
  }

  /** The ids the inserts of `ops` are given, in order. */
  function Assigned<V>(t: Table<V>, ops: seq<Op<V>>): seq<nat>
    decreases |ops|
  {
    if ops == [] then []
    else (if ops[0].Add? then [t.nextId] else []) + Assigned(Apply(t, ops[0]), ops[1..])
  }

  /** Every sequence of operations keeps the table valid. */
  lemma {:induction false} RunValid<V>(t: Table<V>, ops: seq<Op<V>>)
    requires Valid(t)
    ensures Valid(Run(t, ops))
    decreases |ops|
  {
    if ops != [] {
      RunValid(Apply(t, ops[0]), ops[1..]);
    }
  }

  /** Every id assigned by `ops` lies between the generator's value before and after. */
  lemma {:induction false} AssignedBounds<V>(t: Table<V>, ops: seq<Op<V>>)
    ensures forall k :: 0 <= k < |Assigned(t, ops)| ==>
      t.nextId <= Assigned(t, ops)[k] < Run(t, ops).nextId
    decreases |ops|
  {
    if ops != [] {
      var t' := Apply(t, ops[0]);
      AssignedBounds(t', ops[1..]);
      GeneratorMonotone(t', ops[1..]);
      assert Run(t, ops) == Run(t', ops[1..]);
    }
  }

  /** The id generator only moves forward. */
  lemma {:induction false} GeneratorMonotone<V>(t: Table<V>, ops: seq<Op<V>>)
    ensures t.nextId <= Run(t, ops).nextId
    decreases |ops|
  {
    if ops != [] {
      GeneratorMonotone(Apply(t, ops[0]), ops[1..]);
    }
  }

  /** No id is ever handed out twice, even across bulk deletes: the ids assigned by a
      sequence of operations strictly increase. */
  lemma {:induction false} AssignedFresh<V>(t: Table<V>, ops: seq<Op<V>>)
    ensures forall j, k :: 0 <= j < k < |Assigned(t, ops)| ==>
      Assigned(t, ops)[j] < Assigned(t, ops)[k]
    decreases |ops|
  {
    if ops != [] {
      var t' := Apply(t, ops[0]);
      var rest := Assigned(t', ops[1..]);
      AssignedFresh(t', ops[1..]);
      AssignedBounds(t', ops[1..]);
      if ops[0].Add? {
        var all := [t.nextId] + rest;
        assert Assigned(t, ops) == all;
        forall j, k | 0 <= j < k < |all| ensures all[j] < all[k] {
          if j == 0 {
            assert all[k] == rest[k - 1];
          } else {
            assert all[j] == rest[j - 1] && all[k] == rest[k - 1];
          }
        }
      } else {
        assert Assigned(t, ops) == rest;
      }
    }
  }

  /** Every id assigned by a sequence of operations differs from the id of every row
      present before it, even when the rows were deleted in between. */
  lemma AssignedAboveExisting<V>(t: Table<V>, ops: seq<Op<V>>)
    requires Valid(t)
    ensures forall k, i :: 0 <= k < |Assigned(t, ops)| && 0 <= i < |t.rows| ==>
      t.rows[i].id < Assigned(t, ops)[k]
  {
    AssignedBounds(t, ops);
  }

  /** Without a bulk delete the table only grows at its end: the rows present at the
      start are still the first rows, unchanged. */
  lemma {:induction false} AppendOnly<V>(t: Table<V>, ops: seq<Op<V>>)
    requires forall k :: 0 <= k < |ops| ==> ops[k].Add?
    ensures |t.rows| <= |Run(t, ops).rows|
    ensures Run(t, ops).rows[..|t.rows|] == t.rows
    decreases |ops|
  {
    if ops != [] {
      var t' := Apply(t, ops[0]);
      AppendOnly(t', ops[1..]);
      assert t'.rows[..|t.rows|] == t.rows;
      assert Run(t, ops).rows[..|t'.rows|][..|t.rows|] == Run(t, ops).rows[..|t.rows|];
    }
  }

  /** After a bulk delete succeeds nothing is left to read. */
  lemma DeleteThenRead<V>(t: Table<V>, ops: seq<Op<V>>)
    ensures Run(t, ops + [DeleteAll]).rows == []
  {
    RunAppend(t, ops, [DeleteAll]);
  }

  /** Running two operation sequences one after the other is running their concatenation. */
  lemma {:induction false} RunAppend<V>(t: Table<V>, a: seq<Op<V>>, b: seq<Op<V>>)
    ensures Run(t, a + b) == Run(Run(t, a), b)
    decreases |a|
  {
    if a == [] {
      assert a + b == b;
    } else {
      assert (a + b)[0] == a[0];
      assert (a + b)[1..] == a[1..] + b;
      RunAppend(Apply(t, a[0]), a[1..], b);
    }
  }
}
