/** Values and string helpers shared by the portal's components: an Option for the
    nullable values of the store and of component state, and JavaScript's `trim`
    and truthiness tests on strings. */
module Common {

  datatype Option<T> = None | Some(value: T)

  /** The code points JavaScript's String.prototype.trim removes: the WhiteSpace
      and LineTerminator characters of ECMAScript (section 12.2 and 12.3 of
      ECMA-262), space separators of Unicode category Zs included. */
  predicate IsJsSpace(c: char)
  {
    || '\U{9}' <= c <= '\U{D}'
    || c == ' ' || c == '\U{A0}' || c == '\U{1680}'
    || '\U{2000}' <= c <= '\U{200A}'
    || c == '\U{2028}' || c == '\U{2029}' || c == '\U{202F}' || c == '\U{205F}'
    || c == '\U{3000}' || c == '\U{FEFF}'
  }

  predicate AllSpace(s: string)
  {
    forall k :: 0 <= k < |s| ==> IsJsSpace(s[k])
  }

  lemma AllSpaceAppend(a: string, b: string)
    requires AllSpace(a) && AllSpace(b)
    ensures AllSpace(a + b)
  {
  }

  /** Drops the leading whitespace: the result is the suffix that starts at the
      first non-space character. */
  function TrimStart(s: string): (r: string)
    ensures |r| <= |s| && r == s[|s| - |r|..]
    ensures AllSpace(s[..|s| - |r|])
    ensures r == [] || !IsJsSpace(r[0])
  {
    if s != [] && IsJsSpace(s[0]) then
      var r := TrimStart(s[1..]);
      assert s[..|s| - |r|] == [s[0]] + s[1..][..|s| - 1 - |r|];
      AllSpaceAppend([s[0]], s[1..][..|s| - 1 - |r|]);
      r
    else s
  }

  /** Drops the trailing whitespace: the result is the prefix that ends at the
      last non-space character. */
  function TrimEnd(s: string): (r: string)
    ensures |r| <= |s| && r == s[..|r|]
    ensures AllSpace(s[|r|..])
    ensures r == [] || !IsJsSpace(r[|r| - 1])
  {
    if s != [] && IsJsSpace(s[|s| - 1]) then
      var r := TrimEnd(s[..|s| - 1]);
      assert s[|r|..] == s[..|s| - 1][|r|..] + [s[|s| - 1]];
      AllSpaceAppend(s[..|s| - 1][|r|..], [s[|s| - 1]]);
      r
    else s
  }

  /** JavaScript's `s.trim()`. */
  function Trim(s: string): (r: string)
    ensures r == [] || (!IsJsSpace(r[0]) && !IsJsSpace(r[|r| - 1]))
  {
    TrimEnd(TrimStart(s))
  }

  /** `s.trim()` is a contiguous piece of `s` with only whitespace cut off either side. */
  lemma TrimIsSlice(s: string)
    ensures exists i, j :: 0 <= i <= j <= |s| && Trim(s) == s[i..j]
                           && AllSpace(s[..i]) && AllSpace(s[j..])
  {
    var t := TrimStart(s);
    var i := |s| - |t|;
    var r := TrimEnd(t);
    var j := i + |r|;
    assert s[i..j] == t[..|r|];
    assert s[j..] == t[|r|..];
  }

  /** `s.trim()` is empty exactly when `s` is whitespace only. */
  lemma TrimEmptyIffAllSpace(s: string)
    ensures Trim(s) == [] <==> AllSpace(s)
  {
    var t := TrimStart(s);
    if Trim(s) == [] {
      assert AllSpace(t) by { assert t[0..] == t; }
      assert t == [];
      forall k | 0 <= k < |s| ensures IsJsSpace(s[k]) {
        assert s[k] == s[..|s| - |t|][k];
      }
    } else {
      var r := Trim(s);
      assert r == t[..|r|];
      assert !IsJsSpace(t[0]);
    }
  }

  /** Trimming twice changes nothing. */
  lemma TrimIdempotent(s: string)
    ensures Trim(Trim(s)) == Trim(s)
  {
    var r := Trim(s);
    assert TrimStart(r) == r;
    assert TrimEnd(r) == r;
  }

  /** JavaScript's `!x` for a `string | null`: null and "" are falsy. */
  predicate Falsy(x: Option<string>)
  {
    x == None || x == Some("")
  }

  /** `value.trim() || null`: the trimmed text, or null when nothing but
      whitespace was entered. */
  function TrimOrNull(value: string): (r: Option<string>)
    ensures r == None <==> AllSpace(value)
    ensures r.Some? ==> r.value == Trim(value) && r.value != []
    ensures !Falsy(r) || r == None
  {
    TrimEmptyIffAllSpace(value);
    var t := Trim(value);
    if t == [] then None else Some(t)
  }
}
