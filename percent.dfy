/** Percent-encoding as Node's `querystring.escape` and `querystring.unescape`
    perform it, one byte at a time (section 2.1 of RFC 3986): the unreserved
    characters stay, every other byte becomes `%` and two upper-case hex digits. */
module Percent {
  import opened Bytes

  /** The bytes `querystring.escape` leaves alone: letters, digits and `-_.!~*'()`. */
  predicate Unreserved(c: Octet)
  {
    || ('A' <= c <= 'Z') || ('a' <= c <= 'z') || ('0' <= c <= '9')
    || c == '-' || c == '_' || c == '.' || c == '!' || c == '~'
    || c == '*' || c == '\'' || c == '(' || c == ')'
  }

  predicate IsHex(c: Octet)
  {
    ('0' <= c <= '9') || ('A' <= c <= 'F') || ('a' <= c <= 'f')
  }

  function HexValue(c: Octet): (n: int)
    requires IsHex(c)
    ensures 0 <= n < 16
  {
    if '0' <= c <= '9' then c as int - '0' as int
    else if 'A' <= c <= 'F' then c as int - 'A' as int + 10
    else c as int - 'a' as int + 10
  }

  /** The upper-case hex digit for `n`, as `querystring.escape` writes it. */
  function HexDigit(n: int): (c: Octet)
    requires 0 <= n < 16
    ensures IsHex(c) && HexValue(c) == n
    ensures ('0' <= c <= '9') || ('A' <= c <= 'F')
  {
    if n < 10 then ('0' as int + n) as char else ('A' as int + n - 10) as char
  }

  /** What `querystring.escape` writes for one byte. */
  function EscapeOctet(c: Octet): (r: ByteString)
    ensures forall d :: d in r ==> Unreserved(d) || d == '%' || ('0' <= d <= '9') || ('A' <= d <= 'F')
  {
    if Unreserved(c) then [c] else ['%', HexDigit(c as int / 16), HexDigit(c as int % 16)]
  }

  /** `querystring.escape(s)`. Its output is drawn from the unreserved bytes, `%`
      and upper-case hex digits, so it never holds one of the query-string
      delimiters `=`, `&` or `+`, and it is empty only for the empty string. */
  function Escape(s: ByteString): (r: ByteString)
    ensures forall d :: d in r ==> Unreserved(d) || d == '%' || ('0' <= d <= '9') || ('A' <= d <= 'F')
    ensures '=' !in r && '&' !in r && '+' !in r
    ensures |r| >= |s| && (r == [] <==> s == [])
  {
    if s == [] then [] else EscapeOctet(s[0]) + Escape(s[1..])
  }

  /** `querystring.unescape(s)`: every `%` followed by two hex digits (of either
      case) becomes the byte they spell; everything else, a stray `%` included,
      stays as it is. */
  function Unescape(s: ByteString): (r: ByteString)
    ensures |r| <= |s|
  {
    if s == [] then []
    else if |s| >= 3 && s[0] == '%' && IsHex(s[1]) && IsHex(s[2]) then
      [(HexValue(s[1]) * 16 + HexValue(s[2])) as char] + Unescape(s[3..])
    else [s[0]] + Unescape(s[1..])
  }

  /** Unescaping undoes escaping: every string survives the round trip. */
  lemma {:induction false} UnescapeEscape(s: ByteString)
    ensures Unescape(Escape(s)) == s
  {
    if s != [] {
      var head, rest := EscapeOctet(s[0]), Escape(s[1..]);
      UnescapeEscape(s[1..]);
      assert (head + rest)[|head|..] == rest;
      if !Unreserved(s[0]) {
        assert (HexValue(head[1]) * 16 + HexValue(head[2])) as char == s[0];
      }
      assert s == [s[0]] + s[1..];
    }
  }

  /** A string without `%` is its own unescaping. */
  lemma {:induction false} UnescapePlain(s: ByteString)
    requires '%' !in s
    ensures Unescape(s) == s
  {
    if s != [] {
      UnescapePlain(s[1..]);
      assert s == [s[0]] + s[1..];
    }
  }

  /** A string of unreserved bytes is its own escaping. */
  lemma {:induction false} EscapeUnreserved(s: ByteString)
    requires forall c :: c in s ==> Unreserved(c)
    ensures Escape(s) == s
  {
    if s != [] {
      EscapeUnreserved(s[1..]);
      assert s == [s[0]] + s[1..];
    }
  }
}
