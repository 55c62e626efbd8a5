/** Percent-decoding of URL components (section 2.1 of RFC 3986), as
    Python's `urllib.parse.unquote` performs it, with its inverse. */
module Percent {

  predicate IsHexDigit(c: char)
  {
    '0' <= c <= '9' || 'a' <= c <= 'f' || 'A' <= c <= 'F'
  }

  function HexValue(c: char): (v: nat)
    requires IsHexDigit(c)
    ensures v < 16
  {
    if '0' <= c <= '9' then c as int - '0' as int
    else if 'a' <= c <= 'f' then c as int - 'a' as int + 10
    else c as int - 'A' as int + 10
  }

  /** The upper-case hexadecimal digit for `v`, as Python's `quote` writes it. */
  function HexDigit(v: nat): (c: char)
    requires v < 16
    ensures IsHexDigit(c) && HexValue(c) == v
  {
    if v < 10 then ('0' as int + v) as char else ('A' as int + v - 10) as char
  }

  /** Python's `unquote`: every `%XX` with two hexadecimal digits becomes the
      character with code XX; a `%` not followed by two hexadecimal digits is
      kept as it is. */
  function Unquote(s: string): (r: string)
    ensures |r| <= |s|
  {
    if s == [] then []
    else if |s| >= 3 && s[0] == '%' && IsHexDigit(s[1]) && IsHexDigit(s[2]) then
      [(16 * HexValue(s[1]) + HexValue(s[2])) as char] + Unquote(s[3..])
    else
      [s[0]] + Unquote(s[1..])
  }

  /** Characters that percent-encoding leaves alone: the unreserved set of
      RFC 3986 and every character beyond one byte. */
  predicate IsKept(c: char)
  {
    || 'a' <= c <= 'z' || 'A' <= c <= 'Z' || '0' <= c <= '9'
    || c == '-' || c == '.' || c == '_' || c == '~'
    || c as int >= 256
  }

  /** Percent-encoding of one character. */
  function Escape(c: char): (e: string)
    ensures '%' !in e ==> e == [c]
  {
    if IsKept(c) then [c]
    else ['%', HexDigit(c as int / 16), HexDigit(c as int % 16)]
  }

  /** The model's own percent-encoder, the partner against which `Unquote`
      is proved: every one-byte character outside the unreserved set becomes
      `%XX`, and wider characters are kept as they are. It is not
      `urllib.parse.quote`, which first encodes as UTF-8 and escapes every
      byte of a wide character. */
  function Quote(s: string): (r: string)
    ensures |r| >= |s|
  {
    if s == [] then [] else Escape(s[0]) + Quote(s[1..])
  }

  /** Decoding undoes encoding: `unquote(quote(s)) == s` for every string. */
  lemma {:induction false} UnquoteQuote(s: string)
    ensures Unquote(Quote(s)) == s
  {
    if s != [] {
      UnquoteQuote(s[1..]);
      UnquoteEscape(s[0], Quote(s[1..]));
      assert s == [s[0]] + s[1..];
    }
  }

  /** Decoding turns the encoding of one character back into it. */
  lemma UnquoteEscape(c: char, t: string)
    ensures Unquote(Escape(c) + t) == [c] + Unquote(t)
  {
    var e := Escape(c);
    if IsKept(c) {
      assert (e + t)[0] == c && (e + t)[1..] == t;
    } else {
      assert (e + t)[..3] == e && (e + t)[3..] == t;
      assert (16 * HexValue(e[1]) + HexValue(e[2])) as char == c;
    }
  }

  /** The encoding of a string never holds `c` when `c` is neither kept,
      a hexadecimal digit nor `%`; in particular it holds no `/`. */
  lemma {:induction false} QuoteAvoids(s: string, c: char)
    requires !IsKept(c) && !IsHexDigit(c) && c != '%'
    ensures c !in Quote(s)
  {
    if s != [] {
      QuoteAvoids(s[1..], c);
    }
  }

  /** A string that needs no encoding is its own encoding and decoding. */
  lemma {:induction false} QuotePlain(s: string)
    requires forall k :: 0 <= k < |s| ==> IsKept(s[k])
    ensures Quote(s) == s && Unquote(s) == s
  {
    if s != [] {
      QuotePlain(s[1..]);
      assert s == [s[0]] + s[1..];
    }
  }
}
