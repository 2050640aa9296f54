/** The saved-email list of the user-credits dashboard: the pass that reduces the
    fetched `user_emails` addresses to one base address per dot-insensitive
    local part, and the drag-to-reorder splice of that list. */
module SavedEmails {
  import opened Common
  import opened EmailVariations

  // ---------------------------------------------------------------------------
  // Base-email deduplication (`fetchSavedEmails`)

  /** The local part with its dots removed: two addresses with the same key are
      variations of one another as far as the dashboard is concerned. */
  function Key(email: string): (r: string)
  {
    StripDots(LocalPart(email))
  }

  /** `${withoutDots}@${domain}`; a missing domain prints as "undefined". */
  function BaseCandidate(email: string): (r: string)
  {
    var d := match Domain(email) case None => "undefined" case Some(d) => d;
    Key(email) + "@" + d
  }

  /** The address kept for a row that starts a new key: its dotless form when
      that form was fetched too, otherwise the row's own address. */
  function Chosen(row: string, data: seq<string>): (r: string)
    ensures r == row || r in data
  {
    if BaseCandidate(row) in data then BaseCandidate(row) else row
  }

  /** Some kept address has the key, scanning the list as the source's inner loop does. */
  predicate HasKey(kept: seq<string>, key: string)
  {
    kept != [] && (HasKey(kept[..|kept| - 1], key) || Key(kept[|kept| - 1]) == key)
  }

  lemma {:induction false} HasKeyIff(kept: seq<string>, key: string)
    ensures HasKey(kept, key) <==> exists e :: e in kept && Key(e) == key
  {
    if kept != [] {
      var init, last := kept[..|kept| - 1], kept[|kept| - 1];
      HasKeyIff(init, key);
      assert kept == init + [last];
      if exists e :: e in kept && Key(e) == key {
        var e :| e in kept && Key(e) == key;
        assert e in init || e == last;
      }
    }
  }

  /** One turn of the `data.forEach`: a row whose key is already represented
      adds nothing; otherwise its chosen address is added to the insertion-ordered set. */
  function Step(kept: seq<string>, row: string, data: seq<string>): seq<string>
  {
    if HasKey(kept, Key(row)) then kept
    else if Chosen(row, data) in kept then kept
    else kept + [Chosen(row, data)]
  }

  /** The saved list after the first n fetched rows. */
  function Dedup(data: seq<string>, n: nat): (r: seq<string>)
    requires n <= |data|
    ensures |r| <= n
    ensures forall i, j :: 0 <= i < j < |r| ==> r[i] != r[j]
  {
    if n == 0 then [] else
      StepShape(Dedup(data, n - 1), data[n - 1], data);
      Step(Dedup(data, n - 1), data[n - 1], data)
  }

  /** A step adds nothing for a key already represented; otherwise it leaves
      the list as it was or appends the chosen address, which was not in it. */
  lemma StepShape(kept: seq<string>, row: string, data: seq<string>)
    ensures HasKey(kept, Key(row)) ==> Step(kept, row, data) == kept
    ensures var r := Step(kept, row, data);
      r == kept || (r == kept + [Chosen(row, data)] && Chosen(row, data) !in kept)
  {
  }

  /** The source's dedup pass, with its loop over the fetched rows and `data.some`. */
  method BaseEmails(data: seq<string>) returns (kept: seq<string>)
    ensures kept == Dedup(data, |data|)
  {
    kept := [];
    var n := 0;
    while n < |data|
      invariant 0 <= n <= |data|
      invariant kept == Dedup(data, n)
    {
      kept := AddRow(kept, data[n], data);
      n := n + 1;
    }
  }

  /** The body of the `data.forEach` callback for one fetched row. */
  method AddRow(kept: seq<string>, row: string, data: seq<string>) returns (next: seq<string>)
    ensures next == Step(kept, row, data)
  {
    next := kept;
    var isBase := IsNewKey(kept, Key(row));
    if isBase {
      var baseEmail := BaseCandidate(row);
      var chosen := if baseEmail in data then baseEmail else row;
      if chosen !in kept {
        next := kept + [chosen];
      }
    }
  }

  /** The inner `baseEmails.forEach`: no saved address has the key yet. */
  method IsNewKey(kept: seq<string>, withoutDots: string) returns (isBase: bool)
    ensures isBase <==> !HasKey(kept, withoutDots)
  {
    isBase := true;
    var m := 0;
    while m < |kept|
      invariant 0 <= m <= |kept|
      invariant isBase <==> !HasKey(kept[..m], withoutDots)
    {
      assert kept[..m + 1][..m] == kept[..m];
      if StripDots(LocalPart(kept[m])) == withoutDots {
        isBase := false;
      }
      m := m + 1;
    }
    assert kept[..m] == kept;
  }

  /** All variations of an address share its key: the saved list treats them
      as one address. */
  lemma VariationsShareKey(email: string, v: string)
    requires v in Variations(email)
    ensures Key(v) == Key(email)
  {
    var i :| 0 <= i < |Variations(email)| && Variations(email)[i] == v;
    if i > 0 {
      VariationProperties(email, i);
    }
  }

  lemma KeyOfBaseCandidate(email: string)
    ensures Key(BaseCandidate(email)) == Key(email)
  {
    var k := Key(email);
    var d := match Domain(email) case None => "undefined" case Some(d) => d;
    assert '@' !in LocalPart(email);
    StripDotsSubset(LocalPart(email));
    assert '@' !in d;
    SplitJoin(k, d);
    StripDotsNoDots(k);
  }

  lemma {:induction false} StripDotsSubset(s: string)
    ensures forall c :: c in StripDots(s) ==> c in s
  {
    if s != [] {
      StripDotsSubset(s[1..]);
    }
  }

  lemma KeyOfChosen(row: string, data: seq<string>)
    ensures Key(Chosen(row, data)) == Key(row)
  {
    KeyOfBaseCandidate(row);
  }

  /** Every kept address was fetched. */
  lemma {:induction false} DedupFetched(data: seq<string>, n: nat)
    requires n <= |data|
    ensures forall e :: e in Dedup(data, n) ==> e in data
  {
    if n > 0 {
      DedupFetched(data, n - 1);
      var kept, row := Dedup(data, n - 1), data[n - 1];
      forall e | e in Step(kept, row, data) ensures e in data {
        StepAddsChosen(kept, row, data);
      }
    }
  }

  /** A step keeps what was kept and adds at most the row's chosen address,
      which was fetched when the row was. */
  lemma StepAddsChosen(kept: seq<string>, row: string, data: seq<string>)
    requires row in data
    ensures forall e :: e in Step(kept, row, data) ==> e in kept || e == Chosen(row, data)
    ensures Chosen(row, data) in data
  {
  }

  /** No two kept addresses share a key. */
  lemma {:induction false} DedupDistinctKeys(data: seq<string>, n: nat)
    requires n <= |data|
    ensures forall i, j :: 0 <= i < j < |Dedup(data, n)| ==> Key(Dedup(data, n)[i]) != Key(Dedup(data, n)[j])
  {
    if n > 0 {
      DedupDistinctKeys(data, n - 1);
      var kept, row := Dedup(data, n - 1), data[n - 1];
      var next := Dedup(data, n);
      if !HasKey(kept, Key(row)) && Chosen(row, data) !in kept {
        KeyOfChosen(row, data);
        HasKeyIff(kept, Key(row));
        assert next == kept + [Chosen(row, data)];
        forall i, j | 0 <= i < j < |next| ensures Key(next[i]) != Key(next[j]) {
          if j == |kept| {
            assert next[i] in kept;
          } else {
            assert next[i] == kept[i] && next[j] == kept[j];
          }
        }
      }
    }
  }

  /** Every fetched key is represented in the saved list. */
  lemma {:induction false} DedupCoversFetched(data: seq<string>, n: nat)
    requires n <= |data|
    ensures forall r :: r in data[..n] ==> HasKey(Dedup(data, n), Key(r))
  {
    if n > 0 {
      DedupCoversFetched(data, n - 1);
      var kept, row := Dedup(data, n - 1), data[n - 1];
      assert data[..n] == data[..n - 1] + [row];
      forall r | r in data[..n] ensures HasKey(Dedup(data, n), Key(r)) {
        if r == row {
          StepHasRowKey(kept, row, data);
        } else {
          assert r in data[..n - 1];
          StepKeepsKey(kept, row, data, Key(r));
        }
      }
    }
  }

  /** An address a step keeps was kept before or has the row's key. */
  lemma StepKeyOrigin(kept: seq<string>, row: string, data: seq<string>, e: string)
    requires e in Step(kept, row, data)
    ensures e in kept || Key(e) == Key(row)
  {
    KeyOfChosen(row, data);
  }

  /** A step loses no key. */
  lemma StepKeepsKey(kept: seq<string>, row: string, data: seq<string>, key: string)
    requires HasKey(kept, key)
    ensures HasKey(Step(kept, row, data), key)
  {
    var r := Step(kept, row, data);
    if r != kept {
      assert r[..|r| - 1] == kept;
    }
  }

  /** After a step the row's key is represented. */
  lemma StepHasRowKey(kept: seq<string>, row: string, data: seq<string>)
    ensures HasKey(Step(kept, row, data), Key(row))
  {
    KeyOfChosen(row, data);
    var r := Step(kept, row, data);
    if r != kept {
      assert r[..|r| - 1] == kept;
    } else if Chosen(row, data) in kept {
      HasKeyIff(kept, Key(row));
    }
  }

  /** Every kept key is the key of some fetched row. */
  lemma {:induction false} DedupKeysFetched(data: seq<string>, n: nat)
    requires n <= |data|
    ensures forall e :: e in Dedup(data, n) ==> exists r :: r in data[..n] && Key(r) == Key(e)
  {
    forall e | e in Dedup(data, n) ensures exists r :: r in data[..n] && Key(r) == Key(e) {
      KeyOrigin(data, n, e);
    }
  }

  lemma {:induction false} KeyOrigin(data: seq<string>, n: nat, e: string)
    requires n <= |data| && e in Dedup(data, n)
    ensures exists r :: r in data[..n] && Key(r) == Key(e)
  {
    var kept, row := Dedup(data, n - 1), data[n - 1];
    StepKeyOrigin(kept, row, data, e);
    assert data[..n] == data[..n - 1] + [row];
    if e in kept {
      KeyOrigin(data, n - 1, e);
      var r :| r in data[..n - 1] && Key(r) == Key(e);
      assert r in data[..n];
    } else {
      assert row in data[..n];
    }
  }

  /** The worked case: a dotted address and its dotless form fetched in that
      order (as `ab.c@x.com` sorts before `abc@x.com`) keep only the dotless one. */
  lemma DotlessWins(local: string, domain: string)
    requires '@' !in local && '@' !in domain
    ensures var dotted, plain := local + "@" + domain, StripDots(local) + "@" + domain;
      Dedup([dotted, plain], 2) == [plain]
  {
    var key := StripDots(local);
    var dotted, plain := local + "@" + domain, key + "@" + domain;
    var data := [dotted, plain];
    StripDotsSubset(local);
    SplitJoin(local, domain);
    SplitJoin(key, domain);
    StripDotsNoDots(key);
    assert Key(dotted) == key && Key(plain) == key;
    assert BaseCandidate(dotted) == plain;
    assert Chosen(data[0], data) == plain;
    assert Dedup(data, 1) == [plain];
    assert HasKey(Dedup(data, 1), Key(data[1])) by {
      assert Dedup(data, 1)[..0] == [];
    }
  }

  // ---------------------------------------------------------------------------
  // Drag to reorder (`handleDragOver`)

  /** `splice(from, 1)` followed by `splice(to, 0, item)`: the item at `from`
      moves to `to`. */
  function MoveItem<T>(s: seq<T>, from: nat, to: nat): (r: seq<T>)
    requires from < |s| && to < |s|
    ensures |r| == |s|
    ensures r[to] == s[from]
    ensures r[..to] + r[to + 1..] == s[..from] + s[from + 1..]
    ensures multiset(r) == multiset(s)
  {
    var a, x, b := s[..from], s[from], s[from + 1..];
    var rest := a + b;
    var r := rest[..to] + [x] + rest[to..];
    assert r[..to] == rest[..to];
    assert r[to + 1..] == rest[to..];
    assert rest[..to] + rest[to..] == rest;
    assert s == a + [x] + b;
    calc {
      multiset(r);
      multiset(rest[..to]) + multiset{x} + multiset(rest[to..]);
      multiset(rest[..to] + rest[to..]) + multiset{x};
      multiset(a) + multiset(b) + multiset{x};
      multiset(a + [x] + b);
    }
    r
  }

  /** Moving an item and moving it straight back restores the list. */
  lemma MoveItemBack<T>(s: seq<T>, from: nat, to: nat)
    requires from < |s| && to < |s|
    ensures MoveItem(MoveItem(s, from, to), to, from) == s
  {
    var r := MoveItem(s, from, to);
    var b := MoveItem(r, to, from);
    SameAroundIndex(b, s, from);
  }

  /** Two lists of one length that agree at index k and everywhere else are equal. */
  lemma SameAroundIndex<T>(b: seq<T>, s: seq<T>, k: nat)
    requires |b| == |s| && k < |s| && b[k] == s[k]
    requires b[..k] + b[k + 1..] == s[..k] + s[k + 1..]
    ensures b == s
  {
    var x := b[..k] + b[k + 1..];
    assert b[..k] == x[..k] == s[..k];
    assert b[k + 1..] == x[k..] == s[k + 1..];
    assert b == b[..k] + [b[k]] + b[k + 1..];
    assert s == s[..k] + [s[k]] + s[k + 1..];
  }
}
