/** The user-credits dashboard's email-variation generator: from `local@domain`
    it produces the address itself followed by the addresses with dots inserted
    cumulatively from the right of the local part (`abc@x.com`, `ab.c@x.com`,
    `a.b.c@x.com`), for mail providers that ignore dots in the local part. */
module EmailVariations {
  import opened Common

  // ---------------------------------------------------------------------------
  // `email.split("@")`, first and second piece

  /** The first piece of `s.split("@")`: everything before the first '@'. */
  function LocalPart(s: string): (r: string)
    ensures |r| <= |s| && r == s[..|r|]
    ensures '@' !in r
    ensures |r| < |s| ==> s[|r|] == '@'
  {
    if s == [] || s[0] == '@' then [] else [s[0]] + LocalPart(s[1..])
  }

  /** The second piece of `s.split("@")`, or None (JavaScript's `undefined`)
      when `s` holds no '@'. Pieces after a second '@' are not part of it. */
  function Domain(s: string): (r: Option<string>)
    ensures r.None? <==> '@' !in s
    ensures r.Some? ==> '@' !in r.value && LocalPart(s) + "@" + r.value <= s
    ensures r.Some? ==> var end := |LocalPart(s)| + 1 + |r.value|; end == |s| || s[end] == '@'
  {
    var local := LocalPart(s);
    if |local| == |s| then None else Some(LocalPart(s[|local| + 1..]))
  }

  /** Joining a local part and a domain with '@' splits back into the same two pieces. */
  lemma {:induction false} SplitJoin(local: string, domain: string)
    requires '@' !in local && '@' !in domain
    ensures LocalPart(local + "@" + domain) == local
    ensures Domain(local + "@" + domain) == Some(domain)
  {
    assert local + "@" + domain == local + ("@" + domain);
    LocalPartStopsAtAt(local, "@" + domain);
    assert (local + "@" + domain)[|local| + 1..] == domain;
    LocalPartStopsAtAt(domain, "");
    assert domain + "" == domain;
  }

  lemma {:induction false} LocalPartStopsAtAt(a: string, b: string)
    requires '@' !in a
    requires b == [] || b[0] == '@'
    ensures LocalPart(a + b) == a
  {
    if a != [] {
      assert (a + b)[1..] == a[1..] + b;
      LocalPartStopsAtAt(a[1..], b);
    } else {
      assert a + b == b;
    }
  }

  // ---------------------------------------------------------------------------
  // The variations, stated without reference to the loops that build them

  /** `s` with a dot between every two neighbouring characters: "abc" -> "a.b.c". */
  function DotJoin(s: string): (r: string)
    ensures |s| > 0 ==> |r| == 2 * |s| - 1
    ensures |s| == 0 ==> r == []
  {
    if |s| <= 1 then s else DotJoin(s[..|s| - 1]) + ['.', s[|s| - 1]]
  }

  /** The k-th dotted form of a local part: the first |local| - 1 - k characters
      unchanged, then the last k + 1 characters with a dot between each pair. */
  function Dotted(local: string, k: nat): string
    requires k < |local|
  {
    local[..|local| - 1 - k] + DotJoin(local[|local| - 1 - k..])
  }

  predicate Unsplittable(email: string)
  {
    LocalPart(email) == [] || Domain(email) == None || Domain(email) == Some([])
  }

  /** What `generateEmailVariations` returns: `[email]` when the local part or
      the domain is missing (JavaScript-falsy), otherwise `email` followed by the
      dotted forms with 1, 2, ..., |local| - 1 dots. */
  function Variations(email: string): (r: seq<string>)
    ensures |r| >= 1 && r[0] == email
    ensures Unsplittable(email) ==> r == [email]
    ensures !Unsplittable(email) ==> |r| == |LocalPart(email)|
  {
    if Unsplittable(email) then [email]
    else
      var local := LocalPart(email);
      [email] + DottedForms(local, Domain(email).value, |local| - 1)
  }

  lemma VariationsOfSplittable(email: string)
    requires !Unsplittable(email)
    ensures Variations(email) == [email] + DottedForms(LocalPart(email), Domain(email).value, |LocalPart(email)| - 1)
  {
  }

  /** The addresses with 1, 2, ..., n dots, in that order. */
  function DottedForms(local: string, domain: string, n: nat): (r: seq<string>)
    requires n < |local|
    ensures |r| == n
  {
    if n == 0 then [] else DottedForms(local, domain, n - 1) + [Dotted(local, n) + "@" + domain]
  }

  /** One more round of the outer loop adds the form with one more dot. */
  lemma DottedFormsStep(email: string, vs: seq<string>, local: string, domain: string, n: nat)
    requires n + 1 < |local| && vs == [email] + DottedForms(local, domain, n)
    ensures vs + [Dotted(local, n + 1) + "@" + domain] == [email] + DottedForms(local, domain, n + 1)
  {
    var x := Dotted(local, n + 1) + "@" + domain;
    assert DottedForms(local, domain, n + 1) == DottedForms(local, domain, n) + [x];
    assert vs + [x] == [email] + (DottedForms(local, domain, n) + [x]);
  }

  lemma ConsIndex<T>(x: T, s: seq<T>, k: nat)
    requires 1 <= k <= |s|
    ensures ([x] + s)[k] == s[k - 1]
  {
  }

  lemma {:induction false} DottedFormAt(local: string, domain: string, n: nat, k: nat)
    requires 1 <= k <= n < |local|
    ensures DottedForms(local, domain, n)[k - 1] == Dotted(local, k) + "@" + domain
  {
    if k < n {
      DottedFormAt(local, domain, n - 1, k);
    }
  }

  // ---------------------------------------------------------------------------
  // The source's nested loops

  /** What the inner loop has built after `j` characters in the round with
      loop variable `i`: each character, followed by a dot when
      `i - 1 <= position < |local| - 1`. */
  ghost function Marked(local: string, i: int, j: nat): string
    requires j <= |local|
  {
    if j == 0 then []
    else Marked(local, i, j - 1) + [local[j - 1]] + (if i - 1 <= j - 1 < |local| - 1 then "." else "")
  }

  /** Before position i - 1 no dot is written: the inner loop copies the prefix. */
  lemma {:induction false} MarkedPrefix(local: string, i: int, j: nat)
    requires 1 <= i < |local| && j <= i - 1
    ensures Marked(local, i, j) == local[..j]
  {
    if j > 0 {
      MarkedPrefix(local, i, j - 1);
      assert local[..j] == local[..j - 1] + [local[j - 1]];
    }
  }

  /** From position i - 1 on, every character but the last is followed by a dot. */
  lemma {:induction false} MarkedDotted(local: string, i: int, j: nat)
    requires 1 <= i < |local| && i - 1 < j <= |local|
    ensures Marked(local, i, j) == local[..i - 1] + DotJoin(local[i - 1..j]) + (if j < |local| then "." else "")
  {
    var c := local[j - 1];
    var dot := if j < |local| then "." else "";
    if j - 1 == i - 1 {
      MarkedPrefix(local, i, j - 1);
      assert local[i - 1..j] == [c];
    } else {
      MarkedDotted(local, i, j - 1);
      var head, t := local[..i - 1], local[i - 1..j];
      var before := DotJoin(local[i - 1..j - 1]);
      assert t[..|t| - 1] == local[i - 1..j - 1];
      assert DotJoin(t) == before + ['.', c];
      assert Marked(local, i, j) == head + before + "." + [c] + dot;
      assert head + before + "." + [c] + dot == head + (before + ['.', c]) + dot;
    }
  }

  /** The source's `generateEmailVariations`, with its two nested loops. */
  method GenerateEmailVariations(email: string) returns (variations: seq<string>)
    ensures variations == Variations(email)
  {
    var localPart, domain := LocalPart(email), Domain(email);
    if localPart == [] || domain == None || domain.value == [] {
      assert Unsplittable(email);
      assert Variations(email) == [email];
      return [email];
    }
    assert !Unsplittable(email);
    variations := [email];
    var i := |localPart| - 1;
    while i > 0
      invariant 0 <= i <= |localPart| - 1
      invariant variations == [email] + DottedForms(localPart, domain.value, |localPart| - 1 - i)
    {
      var modifiedLocal := DotFrom(localPart, i);
      DottedFormsStep(email, variations, localPart, domain.value, |localPart| - 1 - i);
      variations := variations + [modifiedLocal + "@" + domain.value];
      i := i - 1;
    }
    assert variations == [email] + DottedForms(localPart, domain.value, |localPart| - 1);
    VariationsOfSplittable(email);
  }

  /** The inner loop: copy the local part, writing a dot after every
      character from position i - 1 on except the last. */
  method DotFrom(localPart: string, i: int) returns (modifiedLocal: string)
    requires 1 <= i < |localPart|
    ensures modifiedLocal == Dotted(localPart, |localPart| - i)
  {
    modifiedLocal := "";
    var j := 0;
    while j < |localPart|
      invariant 0 <= j <= |localPart|
      invariant modifiedLocal == Marked(localPart, i, j)
    {
      modifiedLocal := modifiedLocal + [localPart[j]];
      if j >= i - 1 && j < |localPart| - 1 {
        modifiedLocal := modifiedLocal + ".";
      }
      j := j + 1;
    }
    MarkedDotted(localPart, i, |localPart|);
    assert localPart[i - 1..|localPart|] == localPart[i - 1..];
  }

  lemma {:induction false} VariationAt(email: string, k: nat)
    requires !Unsplittable(email)
    requires 1 <= k < |LocalPart(email)|
    ensures Variations(email)[k] == Dotted(LocalPart(email), k) + "@" + Domain(email).value
  {
    var local, domain := LocalPart(email), Domain(email).value;
    var forms := DottedForms(local, domain, |local| - 1);
    VariationsOfSplittable(email);
    ConsIndex(email, forms, k);
    DottedFormAt(local, domain, |local| - 1, k);
  }

  // ---------------------------------------------------------------------------
  // Properties of the variations

  /** `local.replace(/\./g, "")`. */
  function StripDots(s: string): (r: string)
    ensures '.' !in r
    ensures |r| <= |s|
  {
    if s == [] then [] else (if s[0] == '.' then [] else [s[0]]) + StripDots(s[1..])
  }

  lemma {:induction false} StripDotsAppend(a: string, b: string)
    ensures StripDots(a + b) == StripDots(a) + StripDots(b)
  {
    if a != [] {
      assert (a + b)[1..] == a[1..] + b;
      StripDotsAppend(a[1..], b);
    } else {
      assert a + b == b;
    }
  }

  /** A string without dots is its own dot-stripped form. */
  lemma {:induction false} StripDotsNoDots(s: string)
    requires '.' !in s
    ensures StripDots(s) == s
  {
    if s != [] {
      StripDotsNoDots(s[1..]);
    }
  }

  /** Character m of the local part sits at position 2m of its dot-joined form,
      and a dot fills every odd position. */
  lemma {:induction false} DotJoinAt(s: string, m: nat)
    requires m < |s|
    ensures DotJoin(s)[2 * m] == s[m]
    ensures m < |s| - 1 ==> DotJoin(s)[2 * m + 1] == '.'
  {
    if |s| > 1 {
      var p := s[..|s| - 1];
      if m < |s| - 1 {
        DotJoinAt(p, m);
        assert DotJoin(s)[2 * m] == DotJoin(p)[2 * m];
        if m < |s| - 2 {
          assert DotJoin(s)[2 * m + 1] == DotJoin(p)[2 * m + 1];
        }
      }
    }
  }

  lemma {:induction false} DotJoinStrip(s: string)
    ensures StripDots(DotJoin(s)) == StripDots(s)
  {
    if |s| > 1 {
      var p := s[..|s| - 1];
      DotJoinStrip(p);
      StripDotsAppend(DotJoin(p), ['.', s[|s| - 1]]);
      StripDotsAppend(p, [s[|s| - 1]]);
      assert p + [s[|s| - 1]] == s;
      assert StripDots(['.', s[|s| - 1]]) == StripDots([s[|s| - 1]]);
    }
  }

  /** The number of dots in a string. */
  function DotCount(s: string): nat
  {
    if s == [] then 0 else DotCount(s[..|s| - 1]) + (if s[|s| - 1] == '.' then 1 else 0)
  }

  lemma {:induction false} DotCountAppend(a: string, b: string)
    ensures DotCount(a + b) == DotCount(a) + DotCount(b)
  {
    if b == [] {
      assert a + b == a;
    } else {
      assert (a + b)[..|a + b| - 1] == a + b[..|b| - 1];
      DotCountAppend(a, b[..|b| - 1]);
    }
  }

  /** Dot-joining n characters adds n - 1 dots. */
  lemma {:induction false} DotJoinDots(s: string)
    requires |s| > 0
    ensures DotCount(DotJoin(s)) == DotCount(s) + |s| - 1
  {
    if |s| > 1 {
      var p, c := s[..|s| - 1], s[|s| - 1];
      DotJoinDots(p);
      DotCountAppend(DotJoin(p), ['.', c]);
      assert ['.', c][..1] == ['.'] && ['.'][..0] == [];
    }
  }

  lemma {:induction false} DotJoinNoAt(s: string)
    requires '@' !in s
    ensures '@' !in DotJoin(s)
  {
    if |s| > 1 {
      DotJoinNoAt(s[..|s| - 1]);
    }
  }

  /** The k-th variation (k >= 1) of an address that splits into `local` and
      `domain`: its local part is the k-th dotted form, which carries exactly k
      more dots than the original, all inside its last 2k + 1 characters, and
      gives the original back once dots are removed; its domain is unchanged. */
  lemma {:induction false} VariationProperties(email: string, k: nat)
    requires !Unsplittable(email)
    requires 1 <= k < |LocalPart(email)|
    ensures var local, v := LocalPart(email), Variations(email)[k];
      && LocalPart(v) == Dotted(local, k)
      && Domain(v) == Domain(email)
      && DotCount(LocalPart(v)) == DotCount(local) + k
      && StripDots(LocalPart(v)) == StripDots(local)
      && ('.' !in local ==> StripDots(LocalPart(v)) == local)
      && LocalPart(v)[..|local| - 1 - k] == local[..|local| - 1 - k]
  {
    var local, domain := LocalPart(email), Domain(email).value;
    var d := Dotted(local, k);
    VariationAt(email, k);
    DottedProperties(local, k);
    SplitJoin(d, domain);
    assert LocalPart(Variations(email)[k]) == d;
    if '.' !in local {
      StripDotsNoDots(local);
    }
  }

  /** The k-th dotted form keeps the first |local| - 1 - k characters, adds
      exactly k dots, no '@', and strips back to what `local` strips to. */
  lemma DottedProperties(local: string, k: nat)
    requires k < |local| && '@' !in local
    ensures var d := Dotted(local, k);
      && '@' !in d
      && DotCount(d) == DotCount(local) + k
      && StripDots(d) == StripDots(local)
      && d[..|local| - 1 - k] == local[..|local| - 1 - k]
  {
    SplitAt(local, |local| - 1 - k);
    DottedNoAt(local, k);
    DottedDots(local, k);
    DottedStrip(local, k);
  }

  lemma DottedNoAt(local: string, k: nat)
    requires k < |local| && '@' !in local
    ensures '@' !in Dotted(local, k)
  {
    DotJoinNoAt(local[|local| - 1 - k..]);
  }

  lemma DottedDots(local: string, k: nat)
    requires k < |local|
    ensures DotCount(Dotted(local, k)) == DotCount(local) + k
  {
    var cut := |local| - 1 - k;
    var head, tail := local[..cut], local[cut..];
    SplitAt(local, cut);
    DotJoinDots(tail);
    DotCountAppend(head, tail);
    DotCountAppend(head, DotJoin(tail));
  }

  lemma DottedStrip(local: string, k: nat)
    requires k < |local|
    ensures StripDots(Dotted(local, k)) == StripDots(local)
  {
    var cut := |local| - 1 - k;
    DotJoinStripAfter(local[..cut], local[cut..]);
    SplitAt(local, cut);
  }

  lemma SplitAt<T>(s: seq<T>, n: nat)
    requires n <= |s|
    ensures s[..n] + s[n..] == s
  {
  }

  lemma DotJoinStripAfter(head: string, tail: string)
    ensures StripDots(head + DotJoin(tail)) == StripDots(head + tail)
  {
    DotJoinStrip(tail);
    StripDotsAppend(head, DotJoin(tail));
    StripDotsAppend(head, tail);
  }

  /** The worked example of the dashboard: `abc@x.com`. */
  lemma ExampleAbc()
    ensures Variations("abc@x.com") == ["abc@x.com", "ab.c@x.com", "a.b.c@x.com"]
  {
    var e := "abc@x.com";
    ExampleAbcSplit();
    VariationsOfSplittable(e);
    ExampleAbcForms();
  }

  lemma ExampleAbcSplit()
    ensures LocalPart("abc@x.com") == "abc" && Domain("abc@x.com") == Some("x.com")
  {
    SplitJoin("abc", "x.com");
    assert "abc@x.com" == "abc" + "@" + "x.com";
  }

  lemma ExampleAbcForms()
    ensures DottedForms("abc", "x.com", 2) == ["ab.c@x.com", "a.b.c@x.com"]
  {
    ExampleAbcDotted();
    assert DottedForms("abc", "x.com", 1) == ["ab.c@x.com"] by {
      assert "ab.c" + "@" + "x.com" == "ab.c@x.com";
    }
    assert "a.b.c" + "@" + "x.com" == "a.b.c@x.com";
  }

  lemma ExampleAbcDotted()
    ensures Dotted("abc", 1) == "ab.c" && Dotted("abc", 2) == "a.b.c"
  {
    assert "abc"[1..] == "bc" && "bc"[..1] == "b" && "abc"[..1] == "a";
    assert DotJoin("bc") == "b.c";
    assert "abc"[..2] == "ab" && "ab"[..1] == "a";
    assert DotJoin("ab") == "a.b";
    assert DotJoin("abc") == "a.b.c";
    assert "abc"[0..] == "abc";
  }

  /** A one-character local part has no place for a dot. */
  lemma SingleCharacterLocal(email: string)
    requires |LocalPart(email)| == 1
    ensures Variations(email) == [email]
  {
  }
}
