/** Python string primitives the core relies on: `str.strip`, `str.lower`,
    `str.upper`, `str.split(sep)` and the filter that keeps non-empty pieces. */
module Text {

  /** Python's `str.isspace` for one character: the ASCII whitespace, the
      four information separators, NEL, NBSP and the Unicode space separators. */
  predicate IsSpace(c: char)
  {
    || c == ' ' || c == '\t' || c == '\n' || c == '\r'
    || c == '\U{000B}' || c == '\U{000C}'
    || ('\U{001C}' <= c <= '\U{001F}')
    || c == '\U{0085}' || c == '\U{00A0}' || c == '\U{1680}'
    || ('\U{2000}' <= c <= '\U{200A}')
    || c == '\U{2028}' || c == '\U{2029}' || c == '\U{202F}' || c == '\U{205F}'
    || c == '\U{3000}'
  }

  predicate AllSpaces(s: string)
  {
    forall k :: 0 <= k < |s| ==> IsSpace(s[k])
  }

  /** How many whitespace characters `s` starts with. */
  function Leading(s: string): (n: nat)
    ensures n <= |s|
    decreases |s|
  {
    if s != [] && IsSpace(s[0]) then 1 + Leading(s[1..]) else 0
  }

  /** How many whitespace characters `s` ends with. */
  function Trailing(s: string): (n: nat)
    ensures n <= |s|
    decreases |s|
  {
    if s != [] && IsSpace(s[|s| - 1]) then 1 + Trailing(s[..|s| - 1]) else 0
  }

  /** `Leading(s)` counts the longest run of whitespace at the start. */
  lemma {:induction false} LeadingSpec(s: string)
    ensures var n := Leading(s);
      (forall k :: 0 <= k < n ==> IsSpace(s[k])) && (n < |s| ==> !IsSpace(s[n]))
    decreases |s|
  {
    if s != [] && IsSpace(s[0]) {
      LeadingSpec(s[1..]);
      var n := Leading(s);
      forall k | 1 <= k < n
        ensures IsSpace(s[k])
      {
        assert s[k] == s[1..][k - 1];
      }
      if n < |s| {
        assert s[n] == s[1..][n - 1];
      }
    }
  }

  /** `Trailing(s)` counts the longest run of whitespace at the end. */
  lemma {:induction false} TrailingSpec(s: string)
    ensures var n := Trailing(s);
      (forall k :: |s| - n <= k < |s| ==> IsSpace(s[k])) && (n < |s| ==> !IsSpace(s[|s| - n - 1]))
    decreases |s|
  {
    if s != [] && IsSpace(s[|s| - 1]) {
      var p := s[..|s| - 1];
      TrailingSpec(p);
      var n := Trailing(s);
      forall k | |s| - n <= k < |s| - 1
        ensures IsSpace(s[k])
      {
        assert s[k] == p[k];
      }
      if n < |s| {
        assert s[|s| - n - 1] == p[|p| - (n - 1) - 1];
      }
    }
  }

  /** A run of `n` whitespace characters not followed by another is what
      `Leading` counts. */
  lemma {:induction false} LeadingIs(s: string, n: nat)
    requires n <= |s| && (forall k :: 0 <= k < n ==> IsSpace(s[k])) && (n < |s| ==> !IsSpace(s[n]))
    ensures Leading(s) == n
    decreases n
  {
    if n > 0 {
      assert IsSpace(s[0]);
      var rest := s[1..];
      forall k | 0 <= k < n - 1
        ensures IsSpace(rest[k])
      {
        assert rest[k] == s[k + 1];
      }
      if n - 1 < |rest| {
        assert rest[n - 1] == s[n];
      }
      LeadingIs(rest, n - 1);
    }
  }

  /** A run of `n` whitespace characters not preceded by another is what
      `Trailing` counts. */
  lemma {:induction false} TrailingIs(s: string, n: nat)
    requires n <= |s| && (forall k :: |s| - n <= k < |s| ==> IsSpace(s[k])) && (n < |s| ==> !IsSpace(s[|s| - n - 1]))
    ensures Trailing(s) == n
    decreases n
  {
    if n > 0 {
      assert IsSpace(s[|s| - 1]);
      var p := s[..|s| - 1];
      forall k | |p| - (n - 1) <= k < |p|
        ensures IsSpace(p[k])
      {
        assert p[k] == s[k];
      }
      if n - 1 < |p| {
        assert p[|p| - (n - 1) - 1] == s[|s| - n - 1];
      }
      TrailingIs(p, n - 1);
    }
  }

  /** Python's `s.strip()`: `s` without its leading and trailing whitespace. */
  function Strip(s: string): string
  {
    var i := Leading(s);
    s[i..|s| - Trailing(s[i..])]
  }

  /** What `strip` gives neither starts nor ends with whitespace. */
  lemma StripEnds(s: string)
    ensures var r := Strip(s); r == [] || (!IsSpace(r[0]) && !IsSpace(r[|r| - 1]))
  {
    var i := Leading(s);
    var t := s[i..];
    var n := Trailing(t);
    var r := Strip(s);
    LeadingSpec(s);
    TrailingSpec(t);
    if r != [] {
      assert r[0] == s[i];
      assert r[|r| - 1] == s[|s| - n - 1] == t[|t| - n - 1];
    }
  }

  /** `s` is whitespace, then `strip(s)`, then whitespace. */
  lemma StripShape(s: string)
    ensures var r, i := Strip(s), Leading(s);
      i + |r| <= |s| && r == s[i..i + |r|] && AllSpaces(s[..i]) && AllSpaces(s[i + |r|..])
  {
    var i := Leading(s);
    var n := Trailing(s[i..]);
    var r := Strip(s);
    assert r == s[i..|s| - n];
    assert i + |r| == |s| - n;
    LeadingSpaces(s, i);
    TrailingSpaces(s, i, n);
  }

  lemma LeadingSpaces(s: string, i: nat)
    requires i == Leading(s)
    ensures AllSpaces(s[..i])
  {
    LeadingSpec(s);
    forall k | 0 <= k < i
      ensures IsSpace(s[..i][k])
    {
      assert s[..i][k] == s[k];
    }
  }

  lemma TrailingSpaces(s: string, i: nat, n: nat)
    requires i <= |s| && n == Trailing(s[i..])
    ensures AllSpaces(s[|s| - n..])
  {
    var t := s[i..];
    var u := s[|s| - n..];
    TrailingSpec(t);
    forall k | 0 <= k < |u|
      ensures IsSpace(u[k])
    {
      assert u[k] == t[|t| - n + k];
    }
  }

  lemma AllSpacesConcat(x: string, y: string)
    requires AllSpaces(x) && AllSpaces(y)
    ensures AllSpaces(x + y)
  {
    forall k | 0 <= k < |x + y|
      ensures IsSpace((x + y)[k])
    {
      if k < |x| {
        assert (x + y)[k] == x[k];
      } else {
        assert (x + y)[k] == y[k - |x|];
      }
    }
  }

  /** Whatever lies between whitespace and starts and ends with something
      else is what `strip` gives: the result is determined by its shape. */
  lemma StripUnique(a: string, m: string, b: string)
    requires AllSpaces(a) && AllSpaces(b)
    requires m == [] || (!IsSpace(m[0]) && !IsSpace(m[|m| - 1]))
    ensures Strip(a + m + b) == m
  {
    var s := a + m + b;
    if m == [] {
      assert s == a + b;
      AllSpacesConcat(a, b);
      LeadingIs(s, |s|);
      assert s[|s|..] == [];
    } else {
      forall k | 0 <= k < |a|
        ensures IsSpace(s[k])
      {
        assert s[k] == a[k];
      }
      assert s[|a|] == m[0];
      LeadingIs(s, |a|);
      var t := s[|a|..];
      assert t == m + b by {
        assert |t| == |m + b|;
        forall k | 0 <= k < |t|
          ensures t[k] == (m + b)[k]
        {
          assert t[k] == s[|a| + k];
        }
      }
      forall k | |t| - |b| <= k < |t|
        ensures IsSpace(t[k])
      {
        assert t[k] == b[k - |m|];
      }
      assert t[|t| - |b| - 1] == m[|m| - 1];
      TrailingIs(t, |b|);
      assert s[|a|..|s| - |b|] == m;
    }
  }

  /** Whitespace around a string does not change what `strip` gives. */
  lemma StripPadded(a: string, s: string, b: string)
    requires AllSpaces(a) && AllSpaces(b)
    ensures Strip(a + s + b) == Strip(s)
  {
    var r := Strip(s);
    var i := Leading(s);
    StripShape(s);
    StripEnds(s);
    var pre, post := s[..i], s[i + |r|..];
    assert s == pre + r + post by {
      assert s == s[..i] + s[i..i + |r|] + s[i + |r|..];
    }
    AllSpacesConcat(a, pre);
    AllSpacesConcat(post, b);
    Regroup(a, pre, r, post, b);
    StripUnique(a + pre, r, post + b);
  }

  lemma Regroup(a: string, p: string, r: string, q: string, b: string)
    ensures a + (p + r + q) + b == (a + p) + r + (q + b)
  {
    calc {
      a + (p + r + q) + b;
      ((a + p) + r) + (q + b);
    }
  }

  /** `strip` is idempotent. */
  lemma StripIdempotent(s: string)
    ensures Strip(Strip(s)) == Strip(s)
  {
    var r := Strip(s);
    StripEnds(s);
    assert [] + r + [] == r;
    StripUnique([], r, []);
  }

  /** Python's `str.lower` on ASCII letters; other characters are kept. */
  function LowerChar(c: char): (d: char)
    ensures !('A' <= d <= 'Z')
    ensures ('a' <= d <= 'z') <==> ('a' <= c <= 'z' || 'A' <= c <= 'Z')
  {
    if 'A' <= c <= 'Z' then (c as int + 32) as char else c
  }

  /** Python's `str.upper` on ASCII letters; other characters are kept. */
  function UpperChar(c: char): (d: char)
    ensures !('a' <= d <= 'z')
    ensures ('A' <= d <= 'Z') <==> ('a' <= c <= 'z' || 'A' <= c <= 'Z')
  {
    if 'a' <= c <= 'z' then (c as int - 32) as char else c
  }

  function Lower(s: string): (r: string)
    ensures |r| == |s|
    ensures forall k :: 0 <= k < |s| ==> r[k] == LowerChar(s[k])
  {
    seq(|s|, k requires 0 <= k < |s| => LowerChar(s[k]))
  }

  function Upper(s: string): (r: string)
    ensures |r| == |s|
    ensures forall k :: 0 <= k < |s| ==> r[k] == UpperChar(s[k])
  {
    seq(|s|, k requires 0 <= k < |s| => UpperChar(s[k]))
  }

  /** Lower-casing the upper-cased form gives the lower-cased form, so
      `x == y.upper()` implies `x.lower() == y.lower()`. */
  lemma LowerUpper(s: string)
    ensures Lower(Upper(s)) == Lower(s)
  {
  }

  /** Python's `s.split(sep)`: the pieces between occurrences of `sep`. */
  function Split(s: string, sep: char): (pieces: seq<string>)
    ensures |pieces| >= 1
    ensures forall p :: p in pieces ==> sep !in p
    decreases |s|
  {
    if s == [] then [""]
    else
      var rest := Split(s[1..], sep);
      if s[0] == sep then [""] + rest
      else [[s[0]] + rest[0]] + rest[1..]
  }

  /** Python's `sep.join(pieces)`. */
  function Join(pieces: seq<string>, sep: char): string
    requires |pieces| >= 1
  {
    if |pieces| == 1 then pieces[0] else pieces[0] + [sep] + Join(pieces[1..], sep)
  }

  /** Splitting loses nothing: joining the pieces again gives back `s`. */
  lemma {:induction false} SplitJoin(s: string, sep: char)
    ensures Join(Split(s, sep), sep) == s
    decreases |s|
  {
    if s != [] {
      SplitJoin(s[1..], sep);
      var rest := Split(s[1..], sep);
      if s[0] != sep {
        if |rest| == 1 {
        } else {
          assert ([s[0]] + rest[0]) + [sep] + Join(rest[1..], sep)
            == [s[0]] + (rest[0] + [sep] + Join(rest[1..], sep));
        }
      }
    }
  }

  /** A string without `sep` is one piece. */
  lemma {:induction false} SplitNoSep(s: string, sep: char)
    requires sep !in s
    ensures Split(s, sep) == [s]
    decreases |s|
  {
    if s != [] {
      assert s[0] in s && sep !in s[1..];
      SplitNoSep(s[1..], sep);
      assert [s[0]] + s[1..] == s;
    }
  }

  /** Appending `sep` and a piece without `sep` adds that piece last. */
  lemma {:induction false} SplitAppendPiece(d: string, sep: char, q: string)
    requires sep !in q
    ensures Split(d + [sep] + q, sep) == Split(d, sep) + [q]
    decreases |d|
  {
    if d == [] {
      assert d + [sep] + q == [sep] + q && ([sep] + q)[1..] == q;
      SplitNoSep(q, sep);
    } else {
      assert (d + [sep] + q)[1..] == d[1..] + [sep] + q;
      SplitAppendPiece(d[1..], sep, q);
    }
  }

  /** The comprehension `[p for p in pieces if p != ""]`. */
  function NonEmpty(pieces: seq<string>): (r: seq<string>)
    ensures forall p :: p in r <==> p in pieces && p != ""
    ensures |r| <= |pieces|
  {
    if pieces == [] then []
    else if pieces[0] == "" then NonEmpty(pieces[1..])
    else [pieces[0]] + NonEmpty(pieces[1..])
  }

  /** The comprehension keeps every non-empty piece as many times as it
      occurs, drops every empty one, and keeps their order. */
  lemma {:induction false} NonEmptyExact(pieces: seq<string>)
    ensures forall p :: multiset(NonEmpty(pieces))[p] == if p == "" then 0 else multiset(pieces)[p]
    ensures IsSubsequence(NonEmpty(pieces), pieces)
  {
    if pieces != [] {
      NonEmptyExact(pieces[1..]);
      assert pieces == [pieces[0]] + pieces[1..];
      var rest := NonEmpty(pieces[1..]);
      if pieces[0] != "" {
        assert ([pieces[0]] + rest)[1..] == rest;
      } else {
        SubsequenceOfTail(rest, pieces);
      }
    }
  }

  /** `pieces[j]` is the last non-empty piece. */
  predicate LastNonEmptyAt(pieces: seq<string>, j: int)
  {
    0 <= j < |pieces| && pieces[j] != "" && forall k :: j < k < |pieces| ==> pieces[k] == ""
  }

  /** The last piece kept is the last non-empty piece, so `[...][-1]` of
      the comprehension picks it. */
  lemma {:induction false} NonEmptyLast(pieces: seq<string>)
    ensures var r := NonEmpty(pieces);
      r != [] ==> exists j :: LastNonEmptyAt(pieces, j) && pieces[j] == r[|r| - 1]
  {
    var r := NonEmpty(pieces);
    if pieces != [] && r != [] {
      var rest := NonEmpty(pieces[1..]);
      NonEmptyLast(pieces[1..]);
      if rest == [] {
        assert pieces[0] != "" && r == [pieces[0]];
        forall k | 0 < k < |pieces|
          ensures pieces[k] == ""
        {
          assert pieces[k] in pieces[1..];
        }
        assert LastNonEmptyAt(pieces, 0);
      } else {
        assert r[|r| - 1] == rest[|rest| - 1];
        var j :| LastNonEmptyAt(pieces[1..], j) && pieces[1..][j] == rest[|rest| - 1];
        assert forall k :: j + 1 < k < |pieces| ==> pieces[k] == pieces[1..][k - 1];
        assert LastNonEmptyAt(pieces, j + 1);
      }
    }
  }

  /** A non-empty piece appended stays last. */
  lemma {:induction false} NonEmptyAppend(pieces: seq<string>, q: string)
    requires q != ""
    ensures NonEmpty(pieces + [q]) == NonEmpty(pieces) + [q]
  {
    if pieces != [] {
      assert (pieces + [q])[1..] == pieces[1..] + [q];
      NonEmptyAppend(pieces[1..], q);
    }
  }

  /** `s` is `t` with some elements left out, order kept. */
  predicate IsSubsequence<T(==)>(s: seq<T>, t: seq<T>)
  {
    s == [] || (t != [] && ((s[0] == t[0] && IsSubsequence(s[1..], t[1..])) || IsSubsequence(s, t[1..])))
  }

  lemma {:induction false} SubsequenceOfTail<T>(s: seq<T>, t: seq<T>)
    requires t != [] && IsSubsequence(s, t[1..])
    ensures IsSubsequence(s, t)
  {
  }
}
