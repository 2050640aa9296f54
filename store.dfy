/** The part of the database the backup functions move: four tables of
    records keyed by `id`, the store's upsert on that key, and the HTTP
    responses the functions send. */
module BulkStore {

  datatype TableName = ContactCategories | Contacts | EmailTemplates | UserEmails

  /** The order in which the import writes the tables: categories before the
      contacts that refer to them. */
  const TABLE_ORDER: seq<TableName> := [ContactCategories, Contacts, EmailTemplates, UserEmails]

  /** The table's name in the store and in the backup file. */
  function TableKey(t: TableName): string
  {
    match t
    case ContactCategories => "contact_categories"
    case Contacts => "contacts"
    case EmailTemplates => "email_templates"
    case UserEmails => "user_emails"
  }

  /** A table's position in `TABLE_ORDER`. */
  function TableIndex(t: TableName): (k: nat)
    ensures k < |TABLE_ORDER| && TABLE_ORDER[k] == t
  {
    match t
    case ContactCategories => 0
    case Contacts => 1
    case EmailTemplates => 2
    case UserEmails => 3
  }

  /** Every table is written exactly once. */
  lemma TableOrderListsEachTableOnce()
    ensures forall t :: t in TABLE_ORDER
    ensures forall i, j :: 0 <= i < j < |TABLE_ORDER| ==> TABLE_ORDER[i] != TABLE_ORDER[j]
    ensures forall i :: 0 <= i < |TABLE_ORDER| ==> TableIndex(TABLE_ORDER[i]) == i
    ensures forall t, u :: TableKey(t) == TableKey(u) ==> t == u
  {
    forall t ensures t in TABLE_ORDER {
      assert TABLE_ORDER[TableIndex(t)] == t;
    }
  }

  type Id = string

  /** A record: its `id` and its other columns, as the file carries them. */
  datatype Row = Row(id: Id, columns: map<string, string>)

  type Table = map<Id, Row>

  type Store = map<TableName, Table>

  function TableOf(db: Store, t: TableName): Table
  {
    if t in db then db[t] else map[]
  }

  /** `upsert(row, { onConflict: 'id' })`: the row is stored under its id,
      replacing any row with that id; every other row of every table is kept. */
  function Upsert(db: Store, t: TableName, row: Row): (r: Store)
    ensures row.id in TableOf(r, t) && TableOf(r, t)[row.id] == row
    ensures TableOf(r, t).Keys == TableOf(db, t).Keys + {row.id}
    ensures forall id :: id in TableOf(db, t) && id != row.id ==> TableOf(r, t)[id] == TableOf(db, t)[id]
    ensures forall u :: u != t ==> TableOf(r, u) == TableOf(db, u)
  {
    db[t := TableOf(db, t)[row.id := row]]
  }

  datatype Counts = Counts(inserted: nat, errors: nat)

  datatype Body =
    | NoBody
    | ErrorBody(error: string)
    | ExportBody(version: string, exportedAt: string, tables: map<TableName, seq<Row>>)
    | ImportReport(success: bool, results: map<TableName, Counts>)

  datatype Response = Response(status: int, body: Body)

  datatype HttpMethod = Options | Post | OtherMethod
}
