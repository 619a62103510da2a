/** The two pieces of JavaScript and SQLite string behaviour the model relies
    on: ordinal ordering of strings, and `String.prototype.trim`. */
module Strings {
  import opened Collections

  /** Code point by code point comparison in which a proper prefix comes
      first: the order of SQLite's default BINARY collation, and of
      JavaScript's default `sort` on strings within the Basic Multilingual
      Plane. */
  predicate StrLeq(a: string, b: string)
    decreases |a|
  {
    if a == [] then true
    else if b == [] then false
    else if a[0] != b[0] then a[0] < b[0]
    else StrLeq(a[1..], b[1..])
  }

  /** The reverse order, for `ORDER BY ... DESC` and `b.localeCompare(a)`. */
  predicate StrGeq(a: string, b: string) {
    StrLeq(b, a)
  }

  lemma {:induction false} StrLeqTotal(a: string, b: string)
    ensures StrLeq(a, b) || StrLeq(b, a)
    decreases |a|
  {
    if a != [] && b != [] && a[0] == b[0] {
      StrLeqTotal(a[1..], b[1..]);
    }
  }

  lemma {:induction false} StrLeqTransitive(a: string, b: string, c: string)
    requires StrLeq(a, b) && StrLeq(b, c)
    ensures StrLeq(a, c)
    decreases |a|
  {
    if a != [] && b != [] && c != [] && a[0] == b[0] && b[0] == c[0] {
      StrLeqTransitive(a[1..], b[1..], c[1..]);
    }
  }

  lemma {:induction false} StrLeqAntisymmetric(a: string, b: string)
    requires StrLeq(a, b) && StrLeq(b, a)
    ensures a == b
    decreases |a|
  {
    if a != [] && b != [] {
      StrLeqAntisymmetric(a[1..], b[1..]);
      assert a == [a[0]] + a[1..] && b == [b[0]] + b[1..];
    }
  }

  /** Ordinal order is a total order on strings. */
  lemma StrLeqTotalPreorder()
    ensures TotalPreorder(StrLeq)
  {
    forall a, b ensures StrLeq(a, b) || StrLeq(b, a) {
      StrLeqTotal(a, b);
    }
    forall a, b, c | StrLeq(a, b) && StrLeq(b, c) ensures StrLeq(a, c) {
      StrLeqTransitive(a, b, c);
    }
  }

  /** The reverse of ordinal order is a total order on strings. */
  lemma StrGeqTotalPreorder()
    ensures TotalPreorder(StrGeq)
  {
    forall a, b ensures StrGeq(a, b) || StrGeq(b, a) {
      StrLeqTotal(a, b);
    }
    forall a, b, c | StrGeq(a, b) && StrGeq(b, c) ensures StrGeq(a, c) {
      StrLeqTransitive(c, b, a);
    }
  }

  /** The characters `trim` removes: ECMAScript's WhiteSpace (tab, vertical
      tab, form feed, the byte order mark and every space separator) and
      LineTerminator (line feed, carriage return, line and paragraph
      separators). */
  predicate IsWhiteSpace(c: char) {
    || c == '\t' || c == '\n' || c == '\U{000B}' || c == '\U{000C}' || c == '\r'
    || c == ' ' || c == '\U{00A0}' || c == '\U{1680}'
    || ('\U{2000}' <= c <= '\U{200A}')
    || c == '\U{2028}' || c == '\U{2029}' || c == '\U{202F}' || c == '\U{205F}'
    || c == '\U{3000}' || c == '\U{FEFF}'
  }

  predicate WhiteSpaceOnly(s: string) {
    forall i :: 0 <= i < |s| ==> IsWhiteSpace(s[i])
  }

  /** `s` without its leading white space. */
  function TrimStart(s: string): (r: string)
    ensures |r| <= |s| && r == s[|s| - |r|..]
    ensures WhiteSpaceOnly(s[..|s| - |r|])
    ensures r == [] || !IsWhiteSpace(r[0])
    decreases |s|
  {
    if s != [] && IsWhiteSpace(s[0]) then
      var r := TrimStart(s[1..]);
      assert s[..|s| - |r|] == [s[0]] + s[1..][..|s| - 1 - |r|];
      WhiteSpaceConcat([s[0]], s[1..][..|s| - 1 - |r|]);
      r
    else
      s
  }

  /** `s` without its trailing white space. */
  function TrimEnd(s: string): (r: string)
    ensures |r| <= |s| && r == s[..|r|]
    ensures WhiteSpaceOnly(s[|r|..])
    ensures r == [] || !IsWhiteSpace(r[|r| - 1])
    decreases |s|
  {
    if s != [] && IsWhiteSpace(s[|s| - 1]) then
      var p := s[..|s| - 1];
      var r := TrimEnd(p);
      assert s[|r|..] == p[|r|..] + [s[|s| - 1]];
      WhiteSpaceConcat(p[|r|..], [s[|s| - 1]]);
      r
    else
      s
  }

  /** `s.trim()`: the slice of `s` left once the white space at both ends is
      removed; it is empty exactly when `s` is all white space. */
  function Trim(s: string): (r: string)
    ensures r == [] <==> WhiteSpaceOnly(s)
    ensures r != [] ==> !IsWhiteSpace(r[0]) && !IsWhiteSpace(r[|r| - 1])
    ensures exists i :: IsTrimmedAt(s, r, i)
  {
    var t := TrimStart(s);
    var r := TrimEnd(t);
    TrimBothEnds(s, t, r, |s| - |t|);
    r
  }

  /** `r` is the slice of `s` at `i`, with only white space around it. */
  ghost predicate IsTrimmedAt(s: string, r: string, i: int) {
    && 0 <= i <= |s| - |r|
    && r == s[i..i + |r|]
    && WhiteSpaceOnly(s[..i])
    && WhiteSpaceOnly(s[i + |r|..])
  }

  /** Removing leading white space, then trailing white space, leaves a slice
      of `s` that starts and ends with other characters, or nothing when `s`
      is all white space. */
  lemma TrimBothEnds(s: string, t: string, r: string, i: int)
    requires 0 <= i <= |s| && t == s[i..] && WhiteSpaceOnly(s[..i])
    requires t == [] || !IsWhiteSpace(t[0])
    requires |r| <= |t| && r == t[..|r|] && WhiteSpaceOnly(t[|r|..])
    requires r == [] || !IsWhiteSpace(r[|r| - 1])
    ensures r == [] <==> WhiteSpaceOnly(s)
    ensures r != [] ==> !IsWhiteSpace(r[0]) && !IsWhiteSpace(r[|r| - 1])
    ensures exists j :: IsTrimmedAt(s, r, j)
  {
    assert r == s[i..i + |r|];
    assert s[i + |r|..] == t[|r|..];
    assert s == s[..i] + t;
    if r == [] {
      assert t == t[|r|..];
      WhiteSpaceConcat(s[..i], t);
    } else {
      assert r[0] == t[0] && s[i] == t[0];
    }
    assert IsTrimmedAt(s, r, i);
  }

  lemma WhiteSpaceConcat(a: string, b: string)
    requires WhiteSpaceOnly(a) && WhiteSpaceOnly(b)
    ensures WhiteSpaceOnly(a + b)
  {
    forall k | 0 <= k < |a + b| ensures IsWhiteSpace((a + b)[k]) {
      if k < |a| {
        assert (a + b)[k] == a[k];
      } else {
        assert (a + b)[k] == b[k - |a|];
      }
    }
  }
}
