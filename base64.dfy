/** Base64 as section 4 of RFC 4648 defines it, the form `Buffer.toString('base64')`
    writes, and Node's decoding of such text with `Buffer.from(s, 'base64')`. */
module Base64 {
  import opened Bytes

  type Sextet = n: int | 0 <= n < 64

  /** The character for a 6-bit value in the standard alphabet `A-Z a-z 0-9 + /`. */
  function Char(n: Sextet): (c: Octet)
    ensures c != '='
  {
    if n < 26 then ('A' as int + n) as char
    else if n < 52 then ('a' as int + n - 26) as char
    else if n < 62 then ('0' as int + n - 52) as char
    else if n == 62 then '+'
    else '/'
  }

  /** The characters the decoder reads as digits: the standard alphabet and the
      URL-safe `-` and `_`. */
  predicate IsDigit(c: Octet)
  {
    ('A' <= c <= 'Z') || ('a' <= c <= 'z') || ('0' <= c <= '9') || c == '+' || c == '/' || c == '-' || c == '_'
  }

  function Value(c: Octet): Sextet
    requires IsDigit(c)
  {
    if 'A' <= c <= 'Z' then c as int - 'A' as int
    else if 'a' <= c <= 'z' then c as int - 'a' as int + 26
    else if '0' <= c <= '9' then c as int - '0' as int + 52
    else if c == '+' || c == '-' then 62
    else 63
  }

  /** The four sextets of a group of three bytes, one function per position
      (a missing byte counts as zero). */
  function First(b0: Byte): Sextet { b0 / 4 }
  function Second(b0: Byte, b1: Byte): Sextet { b0 % 4 * 16 + b1 / 16 }
  function Third(b1: Byte, b2: Byte): Sextet { b1 % 16 * 4 + b2 / 64 }
  function Fourth(b2: Byte): Sextet { b2 % 64 }

  /** A byte string cut into 6-bit groups: three bytes to four sextets, with a
      last group of one or two bytes written as two or three sextets. */
  function ToSextets(b: seq<Byte>): (r: seq<Sextet>)
  {
    if |b| == 0 then []
    else if |b| == 1 then [First(b[0]), Second(b[0], 0)]
    else if |b| == 2 then [First(b[0]), Second(b[0], b[1]), Third(b[1], 0)]
    else [First(b[0]), Second(b[0], b[1]), Third(b[1], b[2]), Fourth(b[2])] + ToSextets(b[3..])
  }

  /** The three bytes a group of four sextets spells, one function per position. */
  function High(s0: Sextet, s1: Sextet): Byte { s0 as int * 4 + s1 as int / 16 }
  function Middle(s1: Sextet, s2: Sextet): Byte { s1 as int % 16 * 16 + s2 as int / 4 }
  function Low(s2: Sextet, s3: Sextet): Byte { s2 as int % 4 * 64 + s3 as int }

  /** Sextets back to bytes; a lone trailing sextet carries no whole byte. */
  function FromSextets(x: seq<Sextet>): seq<Byte>
  {
    if |x| < 2 then []
    else if |x| == 2 then [High(x[0], x[1])]
    else if |x| == 3 then [High(x[0], x[1]), Middle(x[1], x[2])]
    else [High(x[0], x[1]), Middle(x[1], x[2]), Low(x[2], x[3])] + FromSextets(x[4..])
  }

  function Chars(x: seq<Sextet>): (r: ByteString)
    ensures |r| == |x| && forall i :: 0 <= i < |x| ==> r[i] == Char(x[i])
  {
    seq(|x|, i requires 0 <= i < |x| => Char(x[i]))
  }

  /** The `=` padding that brings the encoding to a multiple of four characters. */
  function Padding(n: nat): ByteString
  {
    if n % 3 == 1 then "==" else if n % 3 == 2 then "=" else ""
  }

  /** `Buffer.toString('base64')`. */
  function Encode(b: seq<Byte>): ByteString
  {
    Chars(ToSextets(b)) + Padding(|b|)
  }

  /** `s.replace(/=/g, '')`: every `=` removed. */
  function Strip(s: ByteString): (r: ByteString)
    ensures '=' !in r
  {
    if s == [] then [] else (if s[0] == '=' then [] else [s[0]]) + Strip(s[1..])
  }

  /** The digits `Buffer.from(s, 'base64')` reads: other characters are skipped
      and a `=` ends the data. */
  function Digits(s: ByteString): seq<Sextet>
  {
    if s == [] || s[0] == '=' then []
    else if IsDigit(s[0]) then [Value(s[0])] + Digits(s[1..])
    else Digits(s[1..])
  }

  /** `Buffer.from(s, 'base64')`. */
  function Decode(s: ByteString): seq<Byte>
  {
    FromSextets(Digits(s))
  }

  /** The arithmetic of one group: the bytes are recovered from their sextets. */
  lemma GroupArithmetic(b0: Byte, b1: Byte, b2: Byte)
    ensures High(First(b0), Second(b0, b1)) == b0
    ensures Middle(Second(b0, b1), Third(b1, b2)) == b1
    ensures Low(Third(b1, b2), Fourth(b2)) == b2
  {
    var s1 := b0 % 4 * 16 + b1 / 16;
    var s2 := b1 % 16 * 4 + b2 / 64;
    assert s1 / 16 == b0 % 4 && s1 % 16 == b1 / 16;
    assert s2 / 4 == b1 % 16 && s2 % 4 == b2 / 64;
  }

  lemma {:induction false} FromToSextets(b: seq<Byte>)
    ensures FromSextets(ToSextets(b)) == b
  {
    if |b| >= 3 {
      FirstGroup(b);
      FromToSextets(b[3..]);
      assert b == b[..3] + b[3..];
    } else if |b| == 1 {
      assert b == [b[0]];
      OneByte(b[0]);
    } else if |b| == 2 {
      assert b == [b[0], b[1]];
      TwoBytes(b[0], b[1]);
    }
  }

  lemma OneByte(b0: Byte)
    ensures FromSextets(ToSextets([b0])) == [b0]
  {
    var x := ToSextets([b0]);
    assert x == [First(b0), Second(b0, 0)];
    assert FromSextets(x) == [High(x[0], x[1])];
    GroupArithmetic(b0, 0, 0);
  }

  lemma TwoBytes(b0: Byte, b1: Byte)
    ensures FromSextets(ToSextets([b0, b1])) == [b0, b1]
  {
    GroupArithmetic(b0, b1, 0);
  }

  lemma FirstGroup(b: seq<Byte>)
    requires |b| >= 3
    ensures FromSextets(ToSextets(b)) == b[..3] + FromSextets(ToSextets(b[3..]))
  {
    var rest := ToSextets(b[3..]);
    assert ToSextets(b) == [First(b[0]), Second(b[0], b[1]), Third(b[1], b[2]), Fourth(b[2])] + rest;
    GroupOf(b[0], b[1], b[2], rest);
    PrefixOfThree(b);
  }

  lemma PrefixOfThree(b: seq<Byte>)
    requires |b| >= 3
    ensures b[..3] == [b[0], b[1], b[2]]
  {
  }

  lemma GroupOf(b0: Byte, b1: Byte, b2: Byte, rest: seq<Sextet>)
    ensures FromSextets([First(b0), Second(b0, b1), Third(b1, b2), Fourth(b2)] + rest) == [b0, b1, b2] + FromSextets(rest)
  {
    var x := [First(b0), Second(b0, b1), Third(b1, b2), Fourth(b2)] + rest;
    assert x[4..] == rest;
    assert x[0] == First(b0) && x[1] == Second(b0, b1) && x[2] == Third(b1, b2) && x[3] == Fourth(b2);
    FullGroup(x);
    GroupArithmetic(b0, b1, b2);
  }

  lemma FullGroup(x: seq<Sextet>)
    requires |x| >= 4
    ensures FromSextets(x) == [High(x[0], x[1]), Middle(x[1], x[2]), Low(x[2], x[3])] + FromSextets(x[4..])
  {
  }

  lemma {:induction false} DigitsOfChars(x: seq<Sextet>, tail: ByteString)
    requires tail == [] || tail[0] == '='
    ensures Digits(Chars(x) + tail) == x
  {
    if x != [] {
      DigitsOfChars(x[1..], tail);
      assert (Chars(x) + tail)[1..] == Chars(x[1..]) + tail;
      assert Value(Char(x[0])) == x[0];
      assert x == [x[0]] + x[1..];
    } else {
      assert Chars(x) + tail == tail;
    }
  }

  lemma {:induction false} StripAppend(a: ByteString, b: ByteString)
    ensures Strip(a + b) == Strip(a) + Strip(b)
  {
    if a == [] {
      assert a + b == b;
    } else {
      var head: ByteString := if a[0] == '=' then [] else [a[0]];
      calc {
        Strip(a + b);
        { assert (a + b)[0] == a[0] && (a + b)[1..] == a[1..] + b; }
        head + Strip(a[1..] + b);
        { StripAppend(a[1..], b); }
        head + (Strip(a[1..]) + Strip(b));
        (head + Strip(a[1..])) + Strip(b);
      }
    }
  }

  lemma {:induction false} StripPlain(a: ByteString)
    requires '=' !in a
    ensures Strip(a) == a
  {
    if a != [] {
      StripPlain(a[1..]);
      assert a == [a[0]] + a[1..];
    }
  }

  /** Removing the padding leaves the digit characters, one per sextet. */
  lemma StrippedEncoding(b: seq<Byte>)
    ensures Strip(Encode(b)) == Chars(ToSextets(b))
  {
    var body := Chars(ToSextets(b));
    StripAppend(body, Padding(|b|));
    StripPlain(body);
    assert Strip("=") == [] && Strip("==") == [] by {
      assert "=="[1..] == "=";
      assert "="[1..] == [];
    }
  }

  /** Decoding inverts encoding, with or without its padding. */
  lemma DecodeEncode(b: seq<Byte>)
    ensures Decode(Encode(b)) == b
    ensures Decode(Strip(Encode(b))) == b
  {
    var x := ToSextets(b);
    DigitsOfChars(x, Padding(|b|));
    DigitsOfChars(x, []);
    assert Chars(x) + [] == Chars(x);
    StrippedEncoding(b);
    FromToSextets(b);
  }

  /** Four characters for every three bytes, and two or three for a last partial group. */
  lemma {:induction false} SextetCount(b: seq<Byte>)
    ensures |ToSextets(b)| == |b| / 3 * 4 + (if |b| % 3 == 0 then 0 else |b| % 3 + 1)
  {
    if |b| >= 3 {
      SextetCount(b[3..]);
    }
  }

  /** The encoding is padded to a multiple of four characters, and its `=`
      are exactly the padding. */
  lemma EncodingShape(b: seq<Byte>)
    ensures |Encode(b)| == (|b| + 2) / 3 * 4
    ensures forall i :: 0 <= i < |Encode(b)| ==> (Encode(b)[i] == '=' <==> i >= |ToSextets(b)|)
  {
    SextetCount(b);
  }

  /** A 64-byte signature encodes to 88 characters whose only `=` are the last
      two, so removing them leaves exactly 86 characters. */
  lemma SignatureEncoding(sig: seq<Byte>)
    requires |sig| == 64
    ensures |Encode(sig)| == 88 && Encode(sig)[86] == '=' && Encode(sig)[87] == '='
    ensures forall i :: 0 <= i < 86 ==> Encode(sig)[i] != '='
    ensures |Strip(Encode(sig))| == 86 && Strip(Encode(sig)) == Encode(sig)[..86]
  {
    EncodingShape(sig);
    SextetCount(sig);
    StrippedEncoding(sig);
    assert Encode(sig)[..86] == Chars(ToSextets(sig));
  }
}
