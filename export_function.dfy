/** The `export-data` function: answers the CORS preflight, checks its
    configuration, reads the four tables and sends them in a versioned
    backup envelope. The outcome of each table read is a parameter: `None`
    for a read that failed. */
module ExportFunction {
  import opened Common
  import opened BulkStore

  const VERSION: string := "1.0"
  const CONFIG_ERROR: string := "Server configuration error"

  /** `result.data || []`: a failed read is exported as an empty list. */
  function OrEmpty(read: Option<seq<Row>>): (rows: seq<Row>)
    ensures read.Some? ==> rows == read.value
    ensures read.None? ==> rows == []
  {
    match read
    case None => []
    case Some(rows) => rows
  }

  /** The envelope's `tables`: one list per table, under exactly the four table names. */
  function Tables(fetched: TableName -> Option<seq<Row>>): (tables: map<TableName, seq<Row>>)
    ensures tables.Keys == {ContactCategories, Contacts, EmailTemplates, UserEmails}
    ensures forall t :: t in tables && tables[t] == OrEmpty(fetched(t))
  {
    TableOrderListsEachTableOnce();
    map t | t in TABLE_ORDER :: OrEmpty(fetched(t))
  }

  /** The request handler. The preflight gets 204 with no body and a missing
      URL or key gets 500 with the configuration error; neither depends on
      what the reads return. Otherwise the answer is 200 with the envelope of version "1.0",
      stamped with `now`. */
  function Serve(m: HttpMethod, url: Option<string>, key: Option<string>,
                 fetched: TableName -> Option<seq<Row>>, now: string): (r: Response)
    ensures m == Options ==> r == Response(204, NoBody)
    ensures m != Options && (Falsy(url) || Falsy(key)) ==> r == Response(500, ErrorBody(CONFIG_ERROR))
    ensures m != Options && !Falsy(url) && !Falsy(key) ==>
      && r.status == 200 && r.body.ExportBody?
      && r.body.version == VERSION && r.body.exportedAt == now
      && r.body.tables.Keys == {ContactCategories, Contacts, EmailTemplates, UserEmails}
      && (forall t :: t in r.body.tables && r.body.tables[t] == if fetched(t).Some? then fetched(t).value else [])
  {
    if m == Options then Response(204, NoBody)
    else if Falsy(url) || Falsy(key) then Response(500, ErrorBody(CONFIG_ERROR))
    else Response(200, ExportBody(VERSION, now, Tables(fetched)))
  }
}
