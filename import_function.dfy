/** The `import-data` function: reads a backup envelope, upserts its records
    table by table in a fixed order, and reports per table how many records
    the store accepted and how many it refused. The store is a value threaded
    through the import; whether the store accepts the k-th record of a table
    is a parameter. */
module ImportFunction {
  import opened Common
  import opened BulkStore
  import ExportFunction

  /** The request body: either it does not parse (with the parser's message)
      or it is a document, with or without a `tables` property. */
  datatype Payload = Malformed(message: string) | Document(tables: Option<map<TableName, seq<Row>>>)

  const MISSING_TABLES: string := "Invalid import file format: missing tables property"

  /** One `upsert` request: the table and the record. */
  datatype UpsertCall = UpsertCall(table: TableName, row: Row)

  /** The records of one table in the file; a missing list imports nothing,
      like the source's `?.length > 0` guard. */
  function RowsOf(tables: map<TableName, seq<Row>>, t: TableName): seq<Row>
  {
    if t in tables then tables[t] else []
  }

  /** The store after the records of table `t` have been upserted in order,
      `accepts(t, k)` saying whether the store took the k-th one. */
  function ImportRows(db: Store, t: TableName, rows: seq<Row>, accepts: (TableName, nat) -> bool): Store
  {
    if rows == [] then db
    else
      var before := ImportRows(db, t, rows[..|rows| - 1], accepts);
      if accepts(t, |rows| - 1) then Upsert(before, t, rows[|rows| - 1]) else before
  }

  /** A table's `{ inserted, errors }`: every record is counted once, as
      inserted or as an error. */
  function Tally(t: TableName, rows: seq<Row>, accepts: (TableName, nat) -> bool): (c: Counts)
    ensures c.inserted + c.errors == |rows|
    ensures c.inserted <= |rows| && c.errors <= |rows|
  {
    if rows == [] then Counts(0, 0)
    else
      var c := Tally(t, rows[..|rows| - 1], accepts);
      if accepts(t, |rows| - 1) then Counts(c.inserted + 1, c.errors) else Counts(c.inserted, c.errors + 1)
  }

  function UpsertsOf(t: TableName, rows: seq<Row>): (calls: seq<UpsertCall>)
    ensures |calls| == |rows| && forall k :: 0 <= k < |rows| ==> calls[k] == UpsertCall(t, rows[k])
  {
    seq(|rows|, k requires 0 <= k < |rows| => UpsertCall(t, rows[k]))
  }

  /** The store after the first n tables of `TABLE_ORDER`. */
  function ImportTables(db: Store, tables: map<TableName, seq<Row>>, accepts: (TableName, nat) -> bool, n: nat): Store
    requires n <= |TABLE_ORDER|
  {
    if n == 0 then db
    else
      var t := TABLE_ORDER[n - 1];
      ImportRows(ImportTables(db, tables, accepts, n - 1), t, RowsOf(tables, t), accepts)
  }

  /** `results` after the first n tables: every table is present, those not
      reached yet with zero counts. */
  function Results(tables: map<TableName, seq<Row>>, accepts: (TableName, nat) -> bool, n: nat): (r: map<TableName, Counts>)
    requires n <= |TABLE_ORDER|
    ensures forall t :: t in r
    ensures forall t :: r[t] == if TableIndex(t) < n then Tally(t, RowsOf(tables, t), accepts) else Counts(0, 0)
  {
    TableOrderListsEachTableOnce();
    map t | t in TABLE_ORDER :: if TableIndex(t) < n then Tally(t, RowsOf(tables, t), accepts) else Counts(0, 0)
  }

  /** The upserts sent for the first n tables, in order. */
  function Calls(tables: map<TableName, seq<Row>>, n: nat): seq<UpsertCall>
    requires n <= |TABLE_ORDER|
  {
    if n == 0 then [] else Calls(tables, n - 1) + UpsertsOf(TABLE_ORDER[n - 1], RowsOf(tables, TABLE_ORDER[n - 1]))
  }

  /** The request handler. The preflight is answered with 200 and no body. A
      body that does not parse, or has no `tables`, gets 500 with the error's
      message before any upsert. Otherwise every record of every table is
      upserted, tables in `TABLE_ORDER` and records in file order, a refused
      record counting as an error without stopping the import, and the answer
      is 200 with `success` and the per-table counts. */
  method Serve(m: HttpMethod, payload: Payload, db: Store, accepts: (TableName, nat) -> bool)
      returns (resp: Response, db': Store, calls: seq<UpsertCall>)
    ensures m == Options ==> resp == Response(200, NoBody) && db' == db && calls == []
    ensures m != Options && payload.Malformed? ==>
      resp == Response(500, ErrorBody(payload.message)) && db' == db && calls == []
    ensures m != Options && payload.Document? && payload.tables.None? ==>
      resp == Response(500, ErrorBody(MISSING_TABLES)) && db' == db && calls == []
    ensures m != Options && payload.Document? && payload.tables.Some? ==>
      var tables := payload.tables.value;
      && resp == Response(200, ImportReport(true, Results(tables, accepts, |TABLE_ORDER|)))
      && db' == ImportTables(db, tables, accepts, |TABLE_ORDER|)
      && calls == Calls(tables, |TABLE_ORDER|)
  {
    db', calls := db, [];
    if m == Options {
      return Response(200, NoBody), db', calls;
    }
    if payload.Malformed? {
      return Response(500, ErrorBody(payload.message)), db', calls;
    }
    if payload.tables.None? {
      return Response(500, ErrorBody(MISSING_TABLES)), db', calls;
    }
    var tables := payload.tables.value;
    var results := Results(tables, accepts, 0);
    var i := 0;
    while i < |TABLE_ORDER|
      invariant 0 <= i <= |TABLE_ORDER|
      invariant db' == ImportTables(db, tables, accepts, i)
      invariant results == Results(tables, accepts, i)
      invariant calls == Calls(tables, i)
    {
      var t := TABLE_ORDER[i];
      var rows := RowsOf(tables, t);
      TableOrderListsEachTableOnce();
      var counts, sent;
      db', counts, sent := UpsertTable(db', t, rows, accepts);
      results := results[t := counts];
      calls := calls + sent;
      ResultsStep(tables, accepts, i);
      i := i + 1;
    }
    resp := Response(200, ImportReport(true, results));
  }

  /** One table's loop: each record is upserted in order, and counted as
      inserted or as an error according to the store's answer. An empty
      list sends nothing. */
  method UpsertTable(db: Store, t: TableName, rows: seq<Row>, accepts: (TableName, nat) -> bool)
      returns (db': Store, counts: Counts, sent: seq<UpsertCall>)
    ensures db' == ImportRows(db, t, rows, accepts)
    ensures counts == Tally(t, rows, accepts)
    ensures sent == UpsertsOf(t, rows)
  {
    db', counts, sent := db, Counts(0, 0), [];
    if |rows| > 0 {
      var j := 0;
      while j < |rows|
        invariant 0 <= j <= |rows|
        invariant db' == ImportRows(db, t, rows[..j], accepts)
        invariant counts == Tally(t, rows[..j], accepts)
        invariant sent == UpsertsOf(t, rows[..j])
      {
        PrefixStep(db, t, rows, accepts, j);
        sent := sent + [UpsertCall(t, rows[j])];
        if accepts(t, j) {
          db' := Upsert(db', t, rows[j]);
          counts := Counts(counts.inserted + 1, counts.errors);
        } else {
          counts := Counts(counts.inserted, counts.errors + 1);
        }
        j := j + 1;
      }
      assert rows[..j] == rows;
    } else {
      assert rows == [];
    }
  }

  /** What one more record does to the store, the tally and the calls sent. */
  lemma PrefixStep(db: Store, t: TableName, rows: seq<Row>, accepts: (TableName, nat) -> bool, j: nat)
    requires j < |rows|
    ensures ImportRows(db, t, rows[..j + 1], accepts)
         == (var before := ImportRows(db, t, rows[..j], accepts);
             if accepts(t, j) then Upsert(before, t, rows[j]) else before)
    ensures Tally(t, rows[..j + 1], accepts)
         == (var c := Tally(t, rows[..j], accepts);
             if accepts(t, j) then Counts(c.inserted + 1, c.errors) else Counts(c.inserted, c.errors + 1))
    ensures UpsertsOf(t, rows[..j + 1]) == UpsertsOf(t, rows[..j]) + [UpsertCall(t, rows[j])]
  {
    var p := rows[..j + 1];
    assert p[..|p| - 1] == rows[..j];
  }

  lemma ResultsStep(tables: map<TableName, seq<Row>>, accepts: (TableName, nat) -> bool, i: nat)
    requires i < |TABLE_ORDER|
    ensures Results(tables, accepts, i + 1)
         == Results(tables, accepts, i)[TABLE_ORDER[i] := Tally(TABLE_ORDER[i], RowsOf(tables, TABLE_ORDER[i]), accepts)]
  {
    TableOrderListsEachTableOnce();
  }

  // ---------------------------------------------------------------------------
  // What the import does to the store

  /** The last record with that id the store accepted, if any. */
  function LastAccepted(t: TableName, rows: seq<Row>, accepts: (TableName, nat) -> bool, id: Id): (r: Option<Row>)
    ensures r.Some? ==> r.value in rows && r.value.id == id
  {
    if rows == [] then None
    else if rows[|rows| - 1].id == id && accepts(t, |rows| - 1) then Some(rows[|rows| - 1])
    else LastAccepted(t, rows[..|rows| - 1], accepts, id)
  }

  /** Importing one table leaves the other tables alone. */
  lemma {:induction false} ImportRowsOtherTables(db: Store, t: TableName, rows: seq<Row>, accepts: (TableName, nat) -> bool, u: TableName)
    requires u != t
    ensures TableOf(ImportRows(db, t, rows, accepts), u) == TableOf(db, u)
  {
    if rows != [] {
      ImportRowsOtherTables(db, t, rows[..|rows| - 1], accepts, u);
    }
  }

  /** After one table's records, an id holds the last accepted record with that
      id; an id no accepted record carries keeps what it had (or stays absent). */
  lemma {:induction false} ImportRowsLookup(db: Store, t: TableName, rows: seq<Row>, accepts: (TableName, nat) -> bool, id: Id)
    ensures var res := TableOf(ImportRows(db, t, rows, accepts), t);
      match LastAccepted(t, rows, accepts, id)
      case Some(r) => id in res && res[id] == r
      case None => (id in res <==> id in TableOf(db, t)) && (id in res ==> res[id] == TableOf(db, t)[id])
  {
    if rows != [] {
      ImportRowsLookup(db, t, rows[..|rows| - 1], accepts, id);
    }
  }

  /** The same across the four tables: the store's row under an id of table
      `t` is the last record of `t` with that id the store accepted, and ids
      no accepted record carries are untouched. */
  lemma {:induction false} ImportTablesLookup(db: Store, tables: map<TableName, seq<Row>>, accepts: (TableName, nat) -> bool,
                                               n: nat, t: TableName, id: Id)
    requires n <= |TABLE_ORDER|
    ensures var res := TableOf(ImportTables(db, tables, accepts, n), t);
      var last := if TableIndex(t) < n then LastAccepted(t, RowsOf(tables, t), accepts, id) else None;
      && (last.Some? ==> id in res && res[id] == last.value)
      && (last.None? ==> (id in res <==> id in TableOf(db, t)) && (id in res ==> res[id] == TableOf(db, t)[id]))
  {
    if n > 0 {
      ImportTablesLookup(db, tables, accepts, n - 1, t, id);
      var u := TABLE_ORDER[n - 1];
      var prev := ImportTables(db, tables, accepts, n - 1);
      TableOrderListsEachTableOnce();
      if u == t {
        ImportRowsLookup(prev, t, RowsOf(tables, t), accepts, id);
      } else {
        ImportRowsOtherTables(prev, u, RowsOf(tables, u), accepts, t);
      }
    }
  }

  // ---------------------------------------------------------------------------
  // Export then import

  /** A store that accepts every record. */
  function AcceptAll(t: TableName, k: nat): bool
  {
    true
  }

  predicate DistinctIds(rows: seq<Row>)
  {
    forall i, j :: 0 <= i < j < |rows| ==> rows[i].id != rows[j].id
  }

  lemma {:induction false} LastAcceptedOfDistinct(t: TableName, rows: seq<Row>, r: Row)
    requires DistinctIds(rows) && r in rows
    ensures LastAccepted(t, rows, AcceptAll, r.id) == Some(r)
  {
    var last := rows[|rows| - 1];
    if last != r {
      var init := rows[..|rows| - 1];
      assert r in init by {
        var k :| 0 <= k < |rows| && rows[k] == r;
        assert k < |rows| - 1;
        assert init[k] == r;
      }
      assert last.id != r.id by {
        var k :| 0 <= k < |init| && init[k] == r;
        assert rows[k] == r;
      }
      LastAcceptedOfDistinct(t, init, r);
    }
  }

  lemma {:induction false} LastAcceptedOfAbsent(t: TableName, rows: seq<Row>, id: Id)
    requires forall r :: r in rows ==> r.id != id
    ensures LastAccepted(t, rows, AcceptAll, id) == None
  {
    if rows != [] {
      LastAcceptedOfAbsent(t, rows[..|rows| - 1], id);
    }
  }

  lemma {:induction false} TallyAllAccepted(t: TableName, rows: seq<Row>)
    ensures Tally(t, rows, AcceptAll) == Counts(|rows|, 0)
  {
    if rows != [] {
      TallyAllAccepted(t, rows[..|rows| - 1]);
    }
  }

  /** Importing an exported backup into an empty store that accepts every
      record restores every exported row under its id and nothing else, and
      reports every row of each table as inserted, when the ids within each
      table are distinct. */
  lemma ExportThenImport(url: Option<string>, key: Option<string>, fetched: TableName -> Option<seq<Row>>,
                         now: string, t: TableName, id: Id)
    requires !Falsy(url) && !Falsy(key)
    requires forall u :: DistinctIds(ExportFunction.OrEmpty(fetched(u)))
    ensures var tables := ExportFunction.Serve(Post, url, key, fetched, now).body.tables;
      var restored := TableOf(ImportTables(map[], tables, AcceptAll, |TABLE_ORDER|), t);
      && (forall r :: r in tables[t] ==> r.id in restored && restored[r.id] == r)
      && (id in restored <==> exists r :: r in tables[t] && r.id == id)
      && Results(tables, AcceptAll, |TABLE_ORDER|)[t] == Counts(|tables[t]|, 0)
  {
    var tables := ExportFunction.Serve(Post, url, key, fetched, now).body.tables;
    var rows := RowsOf(tables, t);
    assert rows == tables[t] == ExportFunction.OrEmpty(fetched(t));
    forall r | r in rows
      ensures r.id in TableOf(ImportTables(map[], tables, AcceptAll, |TABLE_ORDER|), t)
      ensures TableOf(ImportTables(map[], tables, AcceptAll, |TABLE_ORDER|), t)[r.id] == r
    {
      ImportTablesLookup(map[], tables, AcceptAll, |TABLE_ORDER|, t, r.id);
      LastAcceptedOfDistinct(t, rows, r);
    }
    ImportTablesLookup(map[], tables, AcceptAll, |TABLE_ORDER|, t, id);
    if !exists r :: r in rows && r.id == id {
      LastAcceptedOfAbsent(t, rows, id);
    }
    TallyAllAccepted(t, rows);
  }
}
