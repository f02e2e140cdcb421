/** Strings and buffers as the token code sees them. A JavaScript string is held
    as the sequence of its UTF-8 bytes, each shown as the character with that code,
    so `Buffer.from(s, 'utf8')` keeps every code as it is. */
module Bytes {

  /** One byte of a string's UTF-8 form. */
  type Octet = c: char | c as int < 256 witness 'A'

  /** A JavaScript string, as its UTF-8 bytes. */
  type ByteString = seq<Octet>

  /** One element of a Node `Buffer`. */
  type Byte = b: int | 0 <= b < 256

  datatype Option<+T> = None | Some(value: T)

  /** `Buffer.from(s, 'utf8')`. */
  function BufferFrom(s: ByteString): (b: seq<Byte>)
    ensures |b| == |s|
    ensures forall i :: 0 <= i < |s| ==> b[i] == s[i] as int
  {
    seq(|s|, i requires 0 <= i < |s| => s[i] as int)
  }

  /** No element occurs twice. */
  predicate Distinct<T(==)>(s: seq<T>)
  {
    forall i, j :: 0 <= i < j < |s| ==> s[i] != s[j]
  }
}
