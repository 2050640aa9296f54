/** The inline-edit contacts table of one category (`ContactsTable`): the
    contacts on screen, the one cell being edited, the id of a row just
    added, and the handlers that edit them. Every store call is represented
    by its outcome, passed in by the caller, and the table keeps a log of
    the requests it sends so that what is sent, and what is not, can be
    stated. */
module Contacts {
  import opened Common

  type Id = string

  /** The columns of a contact that the handlers write. */
  datatype Field = BusinessName | Email | MobileNumber | Status | Notes

  /** A `contacts` row. Every text column is nullable here: an update stores
      null for a blank value, whatever the column. */
  datatype Contact = Contact(
    id: Id, categoryId: Id, businessName: Option<string>, email: Option<string>,
    mobileNumber: Option<string>, status: Option<string>, notes: Option<string>)

  /** The cell being edited: a row id and a column. */
  datatype Cell = Cell(id: Id, field: Field)

  datatype Key = Enter | Escape | OtherKey

  /** The requests the table sends to the store. */
  datatype Request =
    | SelectContacts(categoryId: Id)
    | InsertContact(categoryId: Id, businessName: string, status: string)
    | UpdateField(id: Id, field: Field, value: Option<string>)
    | DeleteContact(id: Id)

  const PENDING: string := "Pending"

  function Get(c: Contact, f: Field): Option<string>
  {
    match f
    case BusinessName => c.businessName
    case Email => c.email
    case MobileNumber => c.mobileNumber
    case Status => c.status
    case Notes => c.notes
  }

  /** `{ ...c, [field]: value }`. */
  function Set(c: Contact, f: Field, v: Option<string>): (r: Contact)
    ensures r.id == c.id && r.categoryId == c.categoryId
    ensures forall g :: Get(r, g) == if g == f then v else Get(c, g)
  {
    match f
    case BusinessName => c.(businessName := v)
    case Email => c.(email := v)
    case MobileNumber => c.(mobileNumber := v)
    case Status => c.(status := v)
    case Notes => c.(notes := v)
  }

  /** The row the store returns for `handleAddNew`'s insert: an empty
      business name, status "Pending", the other columns null. */
  function BlankContact(id: Id, categoryId: Id): Contact
  {
    Contact(id, categoryId, Some(""), None, None, Some(PENDING), None)
  }

  /** `contacts.map(c => c.id === id ? { ...c, [field]: value } : c)`: the
      rows with that id get the new value in that column; every other column
      of every row, and the ids and order of the rows, are kept. */
  function UpdateContacts(cs: seq<Contact>, id: Id, f: Field, v: Option<string>): (r: seq<Contact>)
    ensures |r| == |cs|
    ensures forall i :: 0 <= i < |r| ==> r[i].id == cs[i].id && r[i].categoryId == cs[i].categoryId
    ensures forall i, g :: 0 <= i < |r| ==>
      Get(r[i], g) == if cs[i].id == id && g == f then v else Get(cs[i], g)
  {
    seq(|cs|, i requires 0 <= i < |cs| => if cs[i].id == id then Set(cs[i], f, v) else cs[i])
  }

  /** `contacts.filter(c => c.id !== id)`. */
  function WithoutId(cs: seq<Contact>, id: Id): (r: seq<Contact>)
    ensures forall c :: c in r <==> c in cs && c.id != id
    ensures |r| <= |cs|
  {
    if cs == [] then []
    else (if cs[0].id == id then [] else [cs[0]]) + WithoutId(cs[1..], id)
  }

  /** The filter works row by row: it keeps the order of the rows it keeps. */
  lemma {:induction false} WithoutIdAppend(a: seq<Contact>, b: seq<Contact>, id: Id)
    ensures WithoutId(a + b, id) == WithoutId(a, id) + WithoutId(b, id)
  {
    if a == [] {
      assert a + b == b;
    } else {
      assert (a + b)[1..] == a[1..] + b;
      WithoutIdAppend(a[1..], b, id);
    }
  }

  /** A list without that id is left as it is. */
  lemma {:induction false} WithoutAbsentId(cs: seq<Contact>, id: Id)
    requires forall c :: c in cs ==> c.id != id
    ensures WithoutId(cs, id) == cs
  {
    if cs != [] {
      WithoutAbsentId(cs[1..], id);
      assert cs == [cs[0]] + cs[1..];
    }
  }

  /** Deleting a row after updating it leaves the same list as deleting it
      from the list before the update: the delete's stale copy of the list
      gives the same result as the updated one. */
  lemma {:induction false} DeleteAfterUpdate(cs: seq<Contact>, id: Id, f: Field, v: Option<string>)
    ensures WithoutId(UpdateContacts(cs, id, f, v), id) == WithoutId(cs, id)
  {
    if cs != [] {
      var u := UpdateContacts(cs, id, f, v);
      assert u[1..] == UpdateContacts(cs[1..], id, f, v);
      DeleteAfterUpdate(cs[1..], id, f, v);
      assert u[0].id == cs[0].id;
      assert u[0] == cs[0] || cs[0].id == id;
    }
  }

  /** `contacts.find(c => c.id === id)`. */
  function FindContact(cs: seq<Contact>, id: Id): (r: Option<Contact>)
    ensures r.None? <==> forall c :: c in cs ==> c.id != id
    ensures r.Some? ==> r.value in cs && r.value.id == id
    ensures r.Some? ==> exists i :: 0 <= i < |cs| && cs[i] == r.value && forall j :: 0 <= j < i ==> cs[j].id != id
  {
    if cs == [] then None
    else if cs[0].id == id then Some(cs[0])
    else
      var r := FindContact(cs[1..], id);
      assert r.Some? ==> exists i :: 0 <= i < |cs| && cs[i] == r.value && forall j :: 0 <= j < i ==> cs[j].id != id by {
        if r.Some? {
          var i :| 0 <= i < |cs[1..]| && cs[1..][i] == r.value && forall j :: 0 <= j < i ==> cs[1..][j].id != id;
          assert cs[i + 1] == r.value;
          assert forall j :: 0 <= j < i + 1 ==> cs[j].id != id by {
            forall j | 0 <= j < i + 1 ensures cs[j].id != id {
              if j > 0 {
                assert cs[j] == cs[1..][j - 1];
              }
            }
          }
        }
      }
      r
  }

  /** `!contact.business_name && !contact.email && !contact.mobile_number`. */
  predicate IsBlank(c: Contact)
  {
    Falsy(c.businessName) && Falsy(c.email) && Falsy(c.mobileNumber)
  }

  /** The cleanup rule of `handleBlur`: the row just added is left with a
      blank business name and nothing in its email or mobile number. */
  predicate AbandonsNewRow(cs: seq<Contact>, newRowId: Option<Id>, id: Id, f: Field, value: string)
  {
    && newRowId == Some(id)
    && AllSpace(value)
    && f == BusinessName
    && FindContact(cs, id).Some?
    && IsBlank(FindContact(cs, id).value)
  }

  /** A row added and then left with a blank business name meets the cleanup
      rule, and the update and delete of the blur leave exactly the list as
      it was before the row was added. */
  lemma AbandonedRowLeavesNoTrace(cs: seq<Contact>, id: Id, categoryId: Id, value: string)
    requires forall c :: c in cs ==> c.id != id
    requires AllSpace(value)
    ensures AbandonsNewRow(cs + [BlankContact(id, categoryId)], Some(id), id, BusinessName, value)
    ensures WithoutId(UpdateContacts(cs + [BlankContact(id, categoryId)], id, BusinessName, TrimOrNull(value)), id) == cs
  {
    var row := BlankContact(id, categoryId);
    var all := cs + [row];
    FindAppended(cs, row);
    DeleteAfterUpdate(all, id, BusinessName, TrimOrNull(value));
    WithoutIdAppend(cs, [row], id);
    WithoutAbsentId(cs, id);
    assert WithoutId([row], id) == [];
  }

  lemma {:induction false} FindAppended(cs: seq<Contact>, row: Contact)
    requires forall c :: c in cs ==> c.id != row.id
    ensures FindContact(cs + [row], row.id) == Some(row)
  {
    if cs == [] {
      assert cs + [row] == [row];
    } else {
      assert (cs + [row])[1..] == cs[1..] + [row];
      FindAppended(cs[1..], row);
    }
  }

  class ContactsTable {
    const categoryId: Id
    var contacts: seq<Contact>
    var editingCell: Option<Cell>
    var newRowId: Option<Id>
    /** The requests sent to the store so far, oldest first. */
    var requests: seq<Request>

    constructor (categoryId: Id)
      ensures this.categoryId == categoryId
      ensures contacts == [] && editingCell == None && newRowId == None && requests == []
    {
      this.categoryId := categoryId;
      contacts, editingCell, newRowId, requests := [], None, None, [];
    }

    /** `fetchContacts`: the category's contacts replace the list; on a store
        error the list is kept. */
    method FetchContacts(fetched: Option<seq<Contact>>)
      modifies this`contacts, this`requests
      ensures requests == old(requests) + [SelectContacts(categoryId)]
      ensures contacts == if fetched.Some? then fetched.value else old(contacts)
    {
      requests := requests + [SelectContacts(categoryId)];
      if fetched.Some? {
        contacts := fetched.value;
      }
    }

    /** `handleAddNew`: inserts a row with an empty business name and status
        "Pending"; once the store returns the new row's id the row is appended,
        remembered as the new row, and its business name is opened for
        editing. On a store error nothing but the request log changes. */
    method AddNew(insertedId: Option<Id>)
      modifies this`contacts, this`editingCell, this`newRowId, this`requests
      ensures requests == old(requests) + [InsertContact(categoryId, "", PENDING)]
      ensures insertedId.None? ==>
        contacts == old(contacts) && editingCell == old(editingCell) && newRowId == old(newRowId)
      ensures insertedId.Some? ==>
        && contacts == old(contacts) + [BlankContact(insertedId.value, categoryId)]
        && newRowId == insertedId
        && editingCell == Some(Cell(insertedId.value, BusinessName))
    {
      requests := requests + [InsertContact(categoryId, "", PENDING)];
      if insertedId.Some? {
        contacts := contacts + [BlankContact(insertedId.value, categoryId)];
        newRowId := insertedId;
        editingCell := Some(Cell(insertedId.value, BusinessName));
      }
    }

    /** `handleUpdate`: sends `value.trim() || null` for the column and, once
        the store accepts it, writes it into the rows with that id. */
    method HandleUpdate(id: Id, f: Field, value: string, storeOk: bool)
      modifies this`contacts, this`requests
      ensures requests == old(requests) + [UpdateField(id, f, TrimOrNull(value))]
      ensures contacts == if storeOk then UpdateContacts(old(contacts), id, f, TrimOrNull(value)) else old(contacts)
    {
      var stored := TrimOrNull(value);
      requests := requests + [UpdateField(id, f, stored)];
      if storeOk {
        contacts := UpdateContacts(contacts, id, f, stored);
      }
    }

    /** The status selector's `onValueChange`, which goes through `handleUpdate`. */
    method ChangeStatus(id: Id, value: string, storeOk: bool)
      modifies this`contacts, this`requests
      ensures requests == old(requests) + [UpdateField(id, Status, TrimOrNull(value))]
      ensures contacts == if storeOk then UpdateContacts(old(contacts), id, Status, TrimOrNull(value)) else old(contacts)
    {
      HandleUpdate(id, Status, value, storeOk);
    }

    /** `handleDelete`: once the store deletes the row, the rows with that id
        leave the list. */
    method HandleDelete(id: Id, storeOk: bool)
      modifies this`contacts, this`requests
      ensures requests == old(requests) + [DeleteContact(id)]
      ensures contacts == if storeOk then WithoutId(old(contacts), id) else old(contacts)
    {
      requests := requests + [DeleteContact(id)];
      if storeOk {
        contacts := WithoutId(contacts, id);
      }
    }

    /** `handleBlur`: always sends the update and closes the editor; when the
        row just added is left blank, also deletes it. The new-row mark is
        cleared in every case. The source's update and delete both start from
        the list as it was before the blur; here they run one after the
        other, which `DeleteAfterUpdate` shows comes to the same list. */
    method HandleBlur(id: Id, f: Field, value: string, updateOk: bool, deleteOk: bool)
      modifies this`contacts, this`editingCell, this`newRowId, this`requests
      ensures editingCell == None && newRowId == None
      ensures var cleanup := AbandonsNewRow(old(contacts), old(newRowId), id, f, value);
        && requests == old(requests) + [UpdateField(id, f, TrimOrNull(value))]
                                     + (if cleanup then [DeleteContact(id)] else [])
        && contacts == if cleanup && deleteOk then WithoutId(old(contacts), id)
                       else if updateOk then UpdateContacts(old(contacts), id, f, TrimOrNull(value))
                       else old(contacts)
    {
      var cleanup := newRowId == Some(id) && AllSpace(value) && f == BusinessName
                     && FindContact(contacts, id).Some? && IsBlank(FindContact(contacts, id).value);
      var before := contacts;
      HandleUpdate(id, f, value, updateOk);
      editingCell := None;
      if cleanup {
        DeleteAfterUpdate(before, id, f, TrimOrNull(value));
        HandleDelete(id, deleteOk);
      }
      newRowId := None;
    }

    /** `handleKeyDown`: Enter commits like a blur; Escape closes the editor
        and clears the new-row mark without sending anything; any other key
        does nothing. */
    method HandleKeyDown(key: Key, id: Id, f: Field, value: string, updateOk: bool, deleteOk: bool)
      modifies this`contacts, this`editingCell, this`newRowId, this`requests
      ensures key == Escape ==>
        editingCell == None && newRowId == None && contacts == old(contacts) && requests == old(requests)
      ensures key == OtherKey ==>
        editingCell == old(editingCell) && newRowId == old(newRowId)
        && contacts == old(contacts) && requests == old(requests)
      ensures key == Enter ==> editingCell == None && newRowId == None
      ensures key == Enter ==> var cleanup := AbandonsNewRow(old(contacts), old(newRowId), id, f, value);
        && requests == old(requests) + [UpdateField(id, f, TrimOrNull(value))]
                                     + (if cleanup then [DeleteContact(id)] else [])
        && contacts == if cleanup && deleteOk then WithoutId(old(contacts), id)
                       else if updateOk then UpdateContacts(old(contacts), id, f, TrimOrNull(value))
                       else old(contacts)
    {
      if key == Enter {
        HandleBlur(id, f, value, updateOk, deleteOk);
      }
      if key == Escape {
        editingCell := None;
        newRowId := None;
      }
    }

    /** Clicking a text cell opens exactly that cell for editing (the status
        column has a selector instead). */
    method ClickCell(id: Id, f: Field)
      requires f != Status
      modifies this`editingCell
      ensures editingCell == Some(Cell(id, f))
    {
      editingCell := Some(Cell(id, f));
    }
  }
}
