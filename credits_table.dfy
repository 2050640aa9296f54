/** The user-credits dashboard (`UserCreditsTable`): the rows loaded for a
    selected address, the status and copy handlers, the rows inserted for
    missing variations, and the component state the handlers replace. The
    store is an external collaborator: each store call is represented by its
    outcome, passed in by the caller. */
module CreditsTable {
  import opened Common
  import opened EmailVariations
  import opened SavedEmails
  import opened Countdown

  type Id = string

  datatype CreditStatus = Activated | Errors

  /** A `user_emails` row as the store returns it. */
  datatype EmailRecord = EmailRecord(
    id: Id, email: string, status: CreditStatus, credits: int,
    monthlyCredits: int, maxMonthlyCredits: int, lastCopiedAt: Option<int>)

  /** `UserData`: a displayed row, numbered from 1. */
  datatype UserData = UserData(
    id: Id, no: int, email: string, status: CreditStatus, credits: int,
    monthlyCredits: int, maxMonthlyCredits: int)

  /** A row the dashboard asks the store to insert. */
  datatype NewRow = NewRow(email: string, status: CreditStatus, credits: int,
                           monthlyCredits: int, maxMonthlyCredits: int)

  /** The update `handleCopyRow` sends: copy time and new monthly credits. */
  datatype CopyUpdate = CopyUpdate(id: Id, lastCopiedAt: int, monthlyCredits: int)

  const DEFAULT_CREDITS: int := 5
  const DEFAULT_MAX_MONTHLY: int := 30
  const COPY_INCREMENT: int := 5

  // ---------------------------------------------------------------------------
  // Rows inserted for a selected address (`initializeEmailVariations`)

  /** `variations.filter(email => !existingEmails.has(email))`. */
  function Missing(variations: seq<string>, existing: seq<string>): (r: seq<string>)
    ensures forall e :: e in r <==> e in variations && e !in existing
    ensures |r| <= |variations|
  {
    if variations == [] then []
    else (if variations[0] in existing then [] else [variations[0]]) + Missing(variations[1..], existing)
  }

  /** The filter distributes over concatenation, so the order of the
      variations is kept. */
  lemma {:induction false} MissingAppend(a: seq<string>, b: seq<string>, existing: seq<string>)
    ensures Missing(a + b, existing) == Missing(a, existing) + Missing(b, existing)
  {
    if a == [] {
      assert a + b == b;
    } else {
      assert (a + b)[1..] == a[1..] + b;
      MissingAppend(a[1..], b, existing);
    }
  }

  function DefaultRow(email: string): NewRow
  {
    NewRow(email, Activated, DEFAULT_CREDITS, 0, DEFAULT_MAX_MONTHLY)
  }

  /** The rows inserted for the variations the store does not hold yet. */
  function RowsToInsert(variations: seq<string>, existing: seq<string>): (r: seq<NewRow>)
    ensures forall e :: (exists row :: row in r && row.email == e) <==> e in variations && e !in existing
    ensures forall row :: row in r ==> row == DefaultRow(row.email)
    ensures |r| == |Missing(variations, existing)|
    ensures forall i :: 0 <= i < |r| ==> r[i].email == Missing(variations, existing)[i]
  {
    var missing := Missing(variations, existing);
    var r := seq(|missing|, i requires 0 <= i < |missing| => DefaultRow(missing[i]));
    assert forall e :: e in missing ==> exists row :: row in r && row.email == e by {
      forall e | e in missing ensures exists row :: row in r && row.email == e {
        var i :| 0 <= i < |missing| && missing[i] == e;
        assert r[i] in r;
      }
    }
    r
  }

  // ---------------------------------------------------------------------------
  // Loading the rows of a selected address (`fetchEmailsForSelected`)

  /** The sort key: the address length. */
  function Len(row: EmailRecord): nat
  {
    |row.email|
  }

  predicate SortedByLength(s: seq<EmailRecord>)
  {
    forall i, j :: 0 <= i < j < |s| ==> Len(s[i]) <= Len(s[j])
  }

  /** Places `x` after every row no longer than it, as a stable sort places the
      last of equally long rows. */
  function InsertByLength(x: EmailRecord, s: seq<EmailRecord>): (r: seq<EmailRecord>)
    ensures multiset(r) == multiset(s) + multiset{x}
  {
    if s == [] then [x]
    else if Len(s[0]) > Len(x) then [x] + s
    else
      assert s == [s[0]] + s[1..];
      [s[0]] + InsertByLength(x, s[1..])
  }

  lemma {:induction false} InsertByLengthSorted(x: EmailRecord, s: seq<EmailRecord>)
    requires SortedByLength(s)
    ensures SortedByLength(InsertByLength(x, s))
  {
    if s != [] && Len(s[0]) <= Len(x) {
      var rest := InsertByLength(x, s[1..]);
      InsertByLengthSorted(x, s[1..]);
      var r := [s[0]] + rest;
      forall i, j | 0 <= i < j < |r| ensures Len(r[i]) <= Len(r[j]) {
        if i == 0 {
          assert r[j] == rest[j - 1];
          assert r[j] in multiset(rest);
          assert r[j] == x || r[j] in multiset(s[1..]);
          if r[j] != x {
            var k :| 0 <= k < |s[1..]| && s[1..][k] == r[j];
            assert r[j] == s[k + 1];
          }
        } else {
          assert r[i] == rest[i - 1] && r[j] == rest[j - 1];
        }
      }
    }
  }

  /** `data.sort((a, b) => a.email.length - b.email.length)`: a stable sort by
      address length (the store delivers the rows by creation time). */
  function SortByLength(s: seq<EmailRecord>): (r: seq<EmailRecord>)
    ensures SortedByLength(r)
    ensures multiset(r) == multiset(s)
  {
    if s == [] then []
    else
      assert s == s[..|s| - 1] + [s[|s| - 1]];
      InsertByLengthSorted(s[|s| - 1], SortByLength(s[..|s| - 1]));
      InsertByLength(s[|s| - 1], SortByLength(s[..|s| - 1]))
  }

  /** The rows of one address length, in order. */
  function OfLength(s: seq<EmailRecord>, len: nat): seq<EmailRecord>
  {
    if s == [] then [] else (if Len(s[0]) == len then [s[0]] else []) + OfLength(s[1..], len)
  }

  lemma {:induction false} OfLengthAppend(a: seq<EmailRecord>, b: seq<EmailRecord>, len: nat)
    ensures OfLength(a + b, len) == OfLength(a, len) + OfLength(b, len)
  {
    if a != [] {
      assert (a + b)[1..] == a[1..] + b;
      OfLengthAppend(a[1..], b, len);
    } else {
      assert a + b == b;
    }
  }

  lemma {:induction false} InsertByLengthStable(x: EmailRecord, s: seq<EmailRecord>, len: nat)
    requires SortedByLength(s)
    ensures OfLength(InsertByLength(x, s), len) == OfLength(s, len) + OfLength([x], len)
    decreases |s|, 1
  {
    if s == [] {
      assert InsertByLength(x, s) == [x] && s + [x] == [x];
    } else if Len(s[0]) > Len(x) {
      InsertFrontStable(x, s, len);
    } else {
      InsertLaterStable(x, s, len);
    }
  }

  lemma {:induction false} InsertLaterStable(x: EmailRecord, s: seq<EmailRecord>, len: nat)
    requires SortedByLength(s) && s != [] && Len(s[0]) <= Len(x)
    ensures OfLength(InsertByLength(x, s), len) == OfLength(s, len) + OfLength([x], len)
    decreases |s|, 0
  {
    var tail := s[1..];
    var rest := InsertByLength(x, tail);
    var a, b, c := OfLength([s[0]], len), OfLength(tail, len), OfLength([x], len);
    assert OfLength(rest, len) == b + c by {
      SortedTail(s);
      InsertByLengthStable(x, tail, len);
    }
    assert OfLength(InsertByLength(x, s), len) == a + OfLength(rest, len) by {
      assert InsertByLength(x, s) == [s[0]] + rest;
      OfLengthAppend([s[0]], rest, len);
    }
    assert OfLength(s, len) == a + b by {
      OfLengthAppend([s[0]], tail, len);
      assert [s[0]] + tail == s;
    }
    AppendAssoc(a, b, c);
  }

  lemma AppendAssoc<T>(a: seq<T>, b: seq<T>, c: seq<T>)
    ensures a + (b + c) == (a + b) + c
  {
  }

  lemma SortedTail(s: seq<EmailRecord>)
    requires SortedByLength(s) && s != []
    ensures SortedByLength(s[1..])
  {
    var tail := s[1..];
    forall i, j | 0 <= i < j < |tail| ensures Len(tail[i]) <= Len(tail[j]) {
      assert tail[i] == s[i + 1] && tail[j] == s[j + 1];
    }
  }

  /** A row shorter than all others goes to the front, ahead of no row of its own length. */
  lemma InsertFrontStable(x: EmailRecord, s: seq<EmailRecord>, len: nat)
    requires SortedByLength(s) && s != [] && Len(s[0]) > Len(x)
    ensures OfLength(InsertByLength(x, s), len) == OfLength(s, len) + OfLength([x], len)
  {
    assert InsertByLength(x, s) == [x] + s;
    OfLengthAppend([x], s, len);
    if Len(x) == len {
      forall i | 0 <= i < |s| ensures Len(s[i]) > len {
        if i > 0 { assert Len(s[0]) <= Len(s[i]); }
      }
      NoneOfLength(s, len);
    } else {
      assert OfLength([x], len) == [];
    }
  }

  lemma {:induction false} NoneOfLength(s: seq<EmailRecord>, len: nat)
    requires forall i :: 0 <= i < |s| ==> Len(s[i]) > len
    ensures OfLength(s, len) == []
  {
    if s != [] {
      assert forall i :: 0 <= i < |s[1..]| ==> s[1..][i] == s[i + 1];
      NoneOfLength(s[1..], len);
    }
  }

  /** The sort is stable: the rows of each address length keep the order the
      store delivered them in (creation time). */
  lemma {:induction false} SortByLengthStable(s: seq<EmailRecord>, len: nat)
    ensures OfLength(SortByLength(s), len) == OfLength(s, len)
  {
    if s != [] {
      var init, x := s[..|s| - 1], s[|s| - 1];
      SortByLengthStable(init, len);
      InsertByLengthStable(x, SortByLength(init), len);
      OfLengthAppend(init, [x], len);
      assert init + [x] == s;
    }
  }

  /** `sortedData.map((row, index) => ({ ..., no: index + 1, ... }))`. */
  function Numbered(sorted: seq<EmailRecord>): (r: seq<UserData>)
    ensures |r| == |sorted|
    ensures forall i :: 0 <= i < |r| ==> r[i].no == i + 1 && Displays(r[i], sorted[i])
  {
    seq(|sorted|, i requires 0 <= i < |sorted| =>
      var row := sorted[i];
      UserData(row.id, i + 1, row.email, row.status, row.credits, row.monthlyCredits, row.maxMonthlyCredits))
  }

  /** A displayed row shows the stored row's fields. */
  predicate Displays(u: UserData, row: EmailRecord)
  {
    u.id == row.id && u.email == row.email && u.status == row.status && u.credits == row.credits
    && u.monthlyCredits == row.monthlyCredits && u.maxMonthlyCredits == row.maxMonthlyCredits
  }

  /** The numbers of the rows whose copy lock is still running. */
  function RestoredCopiedRows(sorted: seq<EmailRecord>, now: int): (r: set<int>)
    ensures forall no :: no in r <==> 1 <= no <= |sorted| && ShouldShowCountdown(sorted[no - 1].lastCopiedAt, now)
  {
    set i | 0 <= i < |sorted| && ShouldShowCountdown(sorted[i].lastCopiedAt, now) :: i + 1
  }

  /** The loaded rows: sorted by address length ascending (equal lengths in
      delivery order), numbered 1..n, and exactly the fetched rows. */
  lemma LoadedRows(data: seq<EmailRecord>)
    ensures var users := Numbered(SortByLength(data));
      && |users| == |data|
      && (forall i :: 0 <= i < |users| ==> users[i].no == i + 1)
      && (forall i, j :: 0 <= i < j < |users| ==> |users[i].email| <= |users[j].email|)
      && (forall i :: 0 <= i < |users| ==> exists row :: row in data && Displays(users[i], row))
  {
    var sorted := SortByLength(data);
    assert |sorted| == |multiset(sorted)| == |multiset(data)| == |data|;
    forall i | 0 <= i < |sorted| ensures sorted[i] in data {
      assert sorted[i] in multiset(sorted);
    }
  }

  // ---------------------------------------------------------------------------
  // Row updates

  /** `users.find(u => u.id === id)`. */
  function FindUser(users: seq<UserData>, id: Id): (r: Option<UserData>)
    ensures r.None? <==> forall u :: u in users ==> u.id != id
    ensures r.Some? ==> r.value in users && r.value.id == id
    ensures r.Some? ==> exists i :: 0 <= i < |users| && users[i] == r.value && forall j :: 0 <= j < i ==> users[j].id != id
  {
    if users == [] then None
    else if users[0].id == id then Some(users[0])
    else
      var r := FindUser(users[1..], id);
      assert r.Some? ==> exists i :: 0 <= i < |users| && users[i] == r.value && forall j :: 0 <= j < i ==> users[j].id != id by {
        if r.Some? {
          var i :| 0 <= i < |users[1..]| && users[1..][i] == r.value && forall j :: 0 <= j < i ==> users[1..][j].id != id;
          assert users[i + 1] == r.value;
          assert forall j :: 0 <= j < i + 1 ==> users[j].id != id by {
            forall j | 0 <= j < i + 1 ensures users[j].id != id {
              if j > 0 { assert users[j] == users[1..][j - 1]; }
            }
          }
        }
      }
      r
  }

  /** `Math.min(monthlyCredits + 5, maxMonthlyCredits)`. */
  function CappedCredits(monthly: int, max: int): (r: int)
    ensures r <= max && r <= monthly + COPY_INCREMENT
    ensures r == max || r == monthly + COPY_INCREMENT
    ensures monthly <= max ==> monthly <= r
  {
    if monthly + COPY_INCREMENT < max then monthly + COPY_INCREMENT else max
  }

  /** `users.map(user => user.id === id ? { ...user, status } : user)`. */
  function WithStatus(users: seq<UserData>, id: Id, status: CreditStatus): (r: seq<UserData>)
    ensures |r| == |users|
    ensures forall i :: 0 <= i < |r| ==> r[i].(status := users[i].status) == users[i]
    ensures forall i :: 0 <= i < |r| ==> r[i].status == if users[i].id == id then status else users[i].status
  {
    seq(|users|, i requires 0 <= i < |users| => if users[i].id == id then users[i].(status := status) else users[i])
  }

  /** `users.map(u => u.id === id ? { ...u, monthlyCredits } : u)`. */
  function WithMonthlyCredits(users: seq<UserData>, id: Id, monthly: int): (r: seq<UserData>)
    ensures |r| == |users|
    ensures forall i :: 0 <= i < |r| ==> r[i].(monthlyCredits := users[i].monthlyCredits) == users[i]
    ensures forall i :: 0 <= i < |r| ==> r[i].monthlyCredits == if users[i].id == id then monthly else users[i].monthlyCredits
  {
    seq(|users|, i requires 0 <= i < |users| => if users[i].id == id then users[i].(monthlyCredits := monthly) else users[i])
  }

  /** Copying a row stays within its monthly maximum: a row that was within it
      ends with at least as many monthly credits, and at most the maximum. */
  lemma CopyKeepsCreditsInRange(users: seq<UserData>, id: Id)
    requires FindUser(users, id).Some?
    requires forall u :: u in users ==> u.monthlyCredits <= u.maxMonthlyCredits
    ensures var u := FindUser(users, id).value;
      var r := WithMonthlyCredits(users, id, CappedCredits(u.monthlyCredits, u.maxMonthlyCredits));
      && (forall i :: 0 <= i < |r| && users[i] == u ==> users[i].monthlyCredits <= r[i].monthlyCredits <= r[i].maxMonthlyCredits)
      && (forall i :: 0 <= i < |r| && users[i].id != id ==> r[i] == users[i])
  {
  }

  // ---------------------------------------------------------------------------
  // The component state

  class Dashboard {
    var users: seq<UserData>
    var copiedRows: set<int>
    var savedEmails: seq<string>
    var draggedIndex: Option<nat>
    var selectedEmail: string
    var showDashboard: bool
    var newEmail: string

    ghost predicate Valid()
      reads this
    {
      draggedIndex.Some? ==> draggedIndex.value < |savedEmails|
    }

    constructor ()
      ensures Valid()
      ensures users == [] && copiedRows == {} && savedEmails == [] && draggedIndex == None
      ensures selectedEmail == "" && !showDashboard && newEmail == ""
    {
      users, copiedRows, savedEmails, draggedIndex := [], {}, [], None;
      selectedEmail, showDashboard, newEmail := "", false, "";
    }

    /** `fetchSavedEmails`, run on mount: on success the saved list becomes the
        deduplicated base addresses; on a store error it stays as it was. */
    method LoadSavedEmails(fetched: Option<seq<string>>)
      modifies this`savedEmails
      ensures savedEmails == if fetched.Some? then Dedup(fetched.value, |fetched.value|) else old(savedEmails)
    {
      if fetched.Some? {
        savedEmails := BaseEmails(fetched.value);
      }
    }

    /** `handleSelectEmail`. */
    method SelectEmail(email: string)
      modifies this`users, this`copiedRows, this`selectedEmail, this`showDashboard
      ensures users == [] && copiedRows == {} && selectedEmail == email && showDashboard
    {
      users := [];
      copiedRows := {};
      selectedEmail := email;
      showDashboard := true;
    }

    /** The Back button: leaves the table for the saved list and clears the input. */
    method Back()
      modifies this`showDashboard, this`newEmail
      ensures !showDashboard && newEmail == ""
    {
      showDashboard := false;
      newEmail := "";
    }

    /** `initializeEmailVariations`: clears the table, then, when the
        existence check succeeds, returns the rows to insert (the variations
        the store lacks, with default credits) and the variations to fetch.
        On a failed check it stops with the table cleared. */
    method InitializeEmailVariations(existing: Option<seq<string>>)
        returns (toInsert: seq<NewRow>, fetch: Option<seq<string>>)
      modifies this`users, this`copiedRows
      ensures users == [] && copiedRows == {}
      ensures existing.None? ==> toInsert == [] && fetch == None
      ensures existing.Some? ==> fetch == Some(Variations(selectedEmail))
      ensures existing.Some? ==> toInsert == RowsToInsert(Variations(selectedEmail), existing.value)
    {
      users := [];
      copiedRows := {};
      var variations := GenerateEmailVariations(selectedEmail);
      if existing.None? {
        return [], None;
      }
      toInsert := RowsToInsert(variations, existing.value);
      fetch := Some(variations);
    }

    /** `fetchEmailsForSelected`: on success the table shows the fetched rows
        sorted by address length and numbered from 1, and the rows still in
        their copy lock are marked copied; on a store error nothing changes. */
    method FetchEmailsForSelected(fetched: Option<seq<EmailRecord>>, now: int)
      modifies this`users, this`copiedRows
      ensures fetched.None? ==> users == old(users) && copiedRows == old(copiedRows)
      ensures fetched.Some? ==> users == Numbered(SortByLength(fetched.value))
      ensures fetched.Some? ==> copiedRows == RestoredCopiedRows(SortByLength(fetched.value), now)
    {
      if fetched.Some? {
        var sortedData := SortByLength(fetched.value);
        copiedRows := RestoredCopiedRows(sortedData, now);
        users := Numbered(sortedData);
      }
    }

    /** `handleStatusChange`: after a successful store update only the status
        of the rows with that id changes; on a store error nothing changes. */
    method StatusChange(id: Id, status: CreditStatus, storeOk: bool)
      modifies this`users
      ensures users == if storeOk then WithStatus(old(users), id, status) else old(users)
    {
      if storeOk {
        users := WithStatus(users, id, status);
      }
    }

    /** `handleCopyRow`: raises the row's monthly credits by 5, capped at its
        maximum, sends the copy time and the new credits to the store and, on
        success, mirrors the credits locally and marks the row number copied.
        An unknown id does nothing; a store error changes nothing locally. */
    method CopyRow(no: int, id: Id, now: int, storeOk: bool) returns (sent: Option<CopyUpdate>)
      modifies this`users, this`copiedRows
      ensures FindUser(old(users), id).None? ==> sent == None && users == old(users) && copiedRows == old(copiedRows)
      ensures FindUser(old(users), id).Some? ==>
        var u := FindUser(old(users), id).value;
        var credits := CappedCredits(u.monthlyCredits, u.maxMonthlyCredits);
        && sent == Some(CopyUpdate(id, now, credits))
        && users == (if storeOk then WithMonthlyCredits(old(users), id, credits) else old(users))
        && copiedRows == (if storeOk then old(copiedRows) + {no} else old(copiedRows))
    {
      var user := FindUser(users, id);
      if user.None? {
        return None;
      }
      var newMonthlyCredits := CappedCredits(user.value.monthlyCredits, user.value.maxMonthlyCredits);
      sent := Some(CopyUpdate(id, now, newMonthlyCredits));
      if !storeOk {
        return;
      }
      users := WithMonthlyCredits(users, id, newMonthlyCredits);
      copiedRows := copiedRows + {no};
    }

    /** The copy button's `handleCopy`: refused while the row is in its
        countdown, otherwise `handleCopyRow`. */
    method ClickCopy(no: int, id: Id, now: int, storeOk: bool) returns (sent: Option<CopyUpdate>)
      modifies this`users, this`copiedRows
      ensures no in old(copiedRows) ==> sent == None && users == old(users) && copiedRows == old(copiedRows)
      ensures no in copiedRows <==> no in old(copiedRows) || (storeOk && sent.Some?)
      ensures no !in old(copiedRows) && FindUser(old(users), id).None? ==>
        sent == None && users == old(users) && copiedRows == old(copiedRows)
      ensures no !in old(copiedRows) && FindUser(old(users), id).Some? ==>
        var u := FindUser(old(users), id).value;
        var credits := CappedCredits(u.monthlyCredits, u.maxMonthlyCredits);
        && sent == Some(CopyUpdate(id, now, credits))
        && users == (if storeOk then WithMonthlyCredits(old(users), id, credits) else old(users))
        && copiedRows == (if storeOk then old(copiedRows) + {no} else old(copiedRows))
    {
      if no in copiedRows {
        return None;
      }
      sent := CopyRow(no, id, now, storeOk);
    }

    /** The address input's `onChange`. */
    method TypeNewEmail(value: string)
      modifies this`newEmail
      ensures newEmail == value
    {
      newEmail := value;
    }

    /** `handleAddEmail`: a non-blank input has all variations of its trimmed
        address inserted; once the insert succeeds the input is cleared and
        the selected address's rows are fetched again. On a store error the
        input is kept and nothing is fetched. */
    method AddEmail(storeOk: bool) returns (toInsert: seq<NewRow>, fetch: Option<seq<string>>)
      modifies this`newEmail
      ensures var e := Trim(old(newEmail));
        if e == [] then toInsert == [] && fetch == None && newEmail == old(newEmail)
        else
          && toInsert == RowsToInsert(Variations(e), [])
          && fetch == (if storeOk then Some(Variations(selectedEmail)) else None)
          && newEmail == (if storeOk then "" else old(newEmail))
    {
      var e := Trim(newEmail);
      if e == [] {
        return [], None;
      }
      var variations := GenerateEmailVariations(e);
      toInsert := RowsToInsert(variations, []);
      if !storeOk {
        return toInsert, None;
      }
      newEmail := "";
      var selectedVariations := GenerateEmailVariations(selectedEmail);
      fetch := Some(selectedVariations);
    }

    /** `handleSaveEmail`: a non-blank input whose trimmed address is not saved
        yet has all its variations inserted; once the insert succeeds the
        address is appended to the saved list and the input is cleared. */
    method SaveEmail(storeOk: bool) returns (toInsert: seq<NewRow>)
      modifies this`savedEmails, this`newEmail
      ensures old(Valid()) ==> Valid()
      ensures var e := Trim(old(newEmail));
        if e != [] && e !in old(savedEmails) then
          && toInsert == RowsToInsert(Variations(e), [])
          && savedEmails == (if storeOk then old(savedEmails) + [e] else old(savedEmails))
          && newEmail == (if storeOk then "" else old(newEmail))
        else toInsert == [] && savedEmails == old(savedEmails) && newEmail == old(newEmail)
    {
      var e := Trim(newEmail);
      if e == [] || e in savedEmails {
        return [];
      }
      var variations := GenerateEmailVariations(e);
      toInsert := RowsToInsert(variations, []);
      if storeOk {
        savedEmails := savedEmails + [e];
        newEmail := "";
      }
    }

    /** `handleDragStart`. */
    method DragStart(index: nat)
      requires index < |savedEmails|
      modifies this`draggedIndex
      ensures Valid() && draggedIndex == Some(index)
    {
      draggedIndex := Some(index);
    }

    /** `handleDragOver`: while an item is dragged over another position, it
        moves there; over its own position, or with nothing dragged, nothing changes. */
    method DragOver(index: nat)
      requires Valid() && index < |savedEmails|
      modifies this`savedEmails, this`draggedIndex
      ensures Valid()
      ensures old(draggedIndex) == None || old(draggedIndex) == Some(index) ==>
        savedEmails == old(savedEmails) && draggedIndex == old(draggedIndex)
      ensures old(draggedIndex) != None && old(draggedIndex) != Some(index) ==>
        savedEmails == MoveItem(old(savedEmails), old(draggedIndex).value, index) && draggedIndex == Some(index)
    {
      if draggedIndex == None || draggedIndex == Some(index) {
        return;
      }
      savedEmails := MoveItem(savedEmails, draggedIndex.value, index);
      draggedIndex := Some(index);
    }

    /** `handleDragEnd`. */
    method DragEnd()
      modifies this`draggedIndex
      ensures Valid() && draggedIndex == None
    {
      draggedIndex := None;
    }
  }
}
