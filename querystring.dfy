/** The parts of Node's `querystring` module the token code relies on:
    `stringify` over an ordered list of string pairs and `parse` back into a
    mapping from each key to the values it was given, in order. */
module QueryString {
  import opened Bytes
  import opened Percent

  /** One `key=value` field before escaping. */
  datatype Pair = Pair(key: ByteString, value: ByteString)

  /** The decimal form of `n`, the name of an array element's key. */
  function Decimal(n: nat): (r: ByteString)
    ensures |r| >= 1 && forall d :: d in r ==> '0' <= d <= '9'
    ensures |r| == 1 <==> n < 10
  {
    if n < 10 then [('0' as int + n) as char] else Decimal(n / 10) + [('0' as int + n % 10) as char]
  }

  /** Distinct indices have distinct names. */
  lemma {:induction false} DecimalInjective(a: nat, b: nat)
    requires Decimal(a) == Decimal(b)
    ensures a == b
  {
    if a >= 10 && b >= 10 {
      var da, db := Decimal(a), Decimal(b);
      assert da[|da| - 1] == db[|db| - 1];
      assert da[..|da| - 1] == Decimal(a / 10);
      assert db[..|db| - 1] == Decimal(b / 10);
      DecimalInjective(a / 10, b / 10);
    }
  }

  function Keys(pairs: seq<Pair>): (r: seq<ByteString>)
    ensures |r| == |pairs| && forall i :: 0 <= i < |pairs| ==> r[i] == pairs[i].key
  {
    seq(|pairs|, i requires 0 <= i < |pairs| => pairs[i].key)
  }

  /** What `stringify` writes for one pair: both halves escaped, joined by `=`. */
  function Field(p: Pair): (r: ByteString)
  {
    Escape(p.key) + ['='] + Escape(p.value)
  }

  /** `querystring.stringify` of an object whose own keys, in order, with their
      string values, are `pairs`: the fields joined by `&`. */
  function Stringify(pairs: seq<Pair>): (r: ByteString)
    ensures r == [] <==> pairs == []
    ensures pairs != [] ==> '=' in r
  {
    if pairs == [] then []
    else if |pairs| == 1 then Field(pairs[0])
    else
      assert '=' in Field(pairs[0]);
      Field(pairs[0]) + ['&'] + Stringify(pairs[1..])
  }

  /** The segments of `s` between `&` separators, empty ones included. */
  function Split(s: ByteString): (r: seq<ByteString>)
    ensures |r| >= 1
    ensures forall seg :: seg in r ==> '&' !in seg
  {
    if s == [] then [[]]
    else
      var rest := Split(s[1..]);
      if s[0] == '&' then [[]] + rest else [[s[0]] + rest[0]] + rest[1..]
  }

  /** The first position of `c` in `s`, or `|s|` when there is none. */
  function IndexOf(s: ByteString, c: Octet): (i: nat)
    ensures i <= |s| && (i < |s| ==> s[i] == c)
    ensures forall j :: 0 <= j < i ==> s[j] != c
  {
    if s == [] || s[0] == c then 0 else 1 + IndexOf(s[1..], c)
  }

  function PlusToSpace(s: ByteString): (r: ByteString)
    ensures |r| == |s|
    ensures forall i :: 0 <= i < |s| ==> r[i] == if s[i] == '+' then ' ' else s[i]
  {
    seq(|s|, i requires 0 <= i < |s| => if s[i] == '+' then ' ' else s[i])
  }

  /** How `parse` decodes a key or a value: `+` is a space, then percent-decoding. */
  function DecodeComponent(s: ByteString): ByteString
  {
    Unescape(PlusToSpace(s))
  }

  /** One non-empty segment: the key runs up to the first `=`, the value is the
      rest (empty when there is no `=`). */
  function ParsePair(seg: ByteString): Pair
  {
    var i := IndexOf(seg, '=');
    Pair(DecodeComponent(seg[..i]), DecodeComponent(if i < |seg| then seg[i + 1..] else []))
  }

  /** Record one more value for `p.key`: the first makes the key a string, each
      later one adds to the list of its values. */
  function AddValue(m: map<ByteString, seq<ByteString>>, p: Pair): map<ByteString, seq<ByteString>>
  {
    m[p.key := (if p.key in m then m[p.key] else []) + [p.value]]
  }

  function Collect(segs: seq<ByteString>, acc: map<ByteString, seq<ByteString>>): map<ByteString, seq<ByteString>>
  {
    if segs == [] then acc
    else Collect(segs[1..], if segs[0] == [] then acc else AddValue(acc, ParsePair(segs[0])))
  }

  /** `querystring.parse(s)`: every non-empty `&`-segment adds one value to its key. */
  function Parse(s: ByteString): map<ByteString, seq<ByteString>>
  {
    Collect(Split(s), map[])
  }

  /** The mapping a list of pairs with distinct keys denotes: each key to its one value. */
  function Singletons(pairs: seq<Pair>): (m: map<ByteString, seq<ByteString>>)
    ensures forall k :: k in m <==> k in Keys(pairs)
  {
    if pairs == [] then map[]
    else Singletons(pairs[1..])[pairs[0].key := [pairs[0].value]]
  }

  lemma {:induction false} SingletonsAt(pairs: seq<Pair>, i: nat)
    requires Distinct(Keys(pairs)) && i < |pairs|
    ensures Singletons(pairs)[pairs[i].key] == [pairs[i].value]
  {
    if i > 0 {
      assert Keys(pairs[1..]) == Keys(pairs)[1..];
      SingletonsAt(pairs[1..], i - 1);
    }
  }

  lemma {:induction false} SplitPlain(a: ByteString)
    requires '&' !in a
    ensures Split(a) == [a]
  {
    if a != [] {
      SplitPlain(a[1..]);
      assert a == [a[0]] + a[1..];
    }
  }

  lemma {:induction false} SplitAt(a: ByteString, b: ByteString)
    requires '&' !in a
    ensures Split(a + ['&'] + b) == [a] + Split(b)
  {
    if a == [] {
      assert ([] + ['&'] + b)[1..] == b;
    } else {
      SplitAt(a[1..], b);
      assert (a + ['&'] + b)[1..] == a[1..] + ['&'] + b;
      assert a == [a[0]] + a[1..];
    }
  }

  function Fields(pairs: seq<Pair>): (r: seq<ByteString>)
    ensures |r| == |pairs| && forall i :: 0 <= i < |pairs| ==> r[i] == Field(pairs[i])
  {
    seq(|pairs|, i requires 0 <= i < |pairs| => Field(pairs[i]))
  }

  /** Splitting a stringified list gives back its fields, one per pair. */
  lemma {:induction false} SplitStringify(pairs: seq<Pair>)
    requires pairs != []
    ensures Split(Stringify(pairs)) == Fields(pairs)
  {
    PlusFreeField(pairs[0]);
    if |pairs| == 1 {
      SplitPlain(Field(pairs[0]));
    } else {
      SplitAt(Field(pairs[0]), Stringify(pairs[1..]));
      SplitStringify(pairs[1..]);
    }
  }

  lemma PlusFreeField(p: Pair)
    ensures '&' !in Field(p) && '+' !in Field(p)
  {
  }

  lemma PlusToSpaceIdentity(s: ByteString)
    requires '+' !in s
    ensures PlusToSpace(s) == s
  {
  }

  /** A field parses back to the pair it was written from. */
  lemma ParsePairField(p: Pair)
    ensures ParsePair(Field(p)) == p
  {
    var k, v := Escape(p.key), Escape(p.value);
    var seg := Field(p);
    var i := IndexOf(seg, '=');
    assert seg[|k|] == '=';
    assert forall j :: 0 <= j < |k| ==> seg[j] == k[j];
    assert i == |k|;
    assert seg[..i] == k && seg[i + 1..] == v;
    PlusToSpaceIdentity(k);
    PlusToSpaceIdentity(v);
    UnescapeEscape(p.key);
    UnescapeEscape(p.value);
  }

  lemma {:induction false} CollectFields(pairs: seq<Pair>, acc: map<ByteString, seq<ByteString>>)
    requires Distinct(Keys(pairs))
    requires forall k :: k in Keys(pairs) ==> k !in acc
    ensures Collect(Fields(pairs), acc) == acc + Singletons(pairs)
  {
    if pairs != [] {
      var p, rest := pairs[0], pairs[1..];
      var acc' := acc[p.key := [p.value]];
      CollectFirst(pairs, acc);
      KeysTail(pairs, acc);
      CollectFields(rest, acc');
      assert Singletons(pairs) == Singletons(rest)[p.key := [p.value]];
      MapShift(acc, Singletons(rest), p.key, [p.value]);
    }
  }

  lemma CollectFirst(pairs: seq<Pair>, acc: map<ByteString, seq<ByteString>>)
    requires pairs != [] && pairs[0].key !in acc
    ensures Collect(Fields(pairs), acc) == Collect(Fields(pairs[1..]), acc[pairs[0].key := [pairs[0].value]])
  {
    var p := pairs[0];
    ParsePairField(p);
    assert Fields(pairs)[0] == Field(p) && Field(p) != [];
    assert [] + [p.value] == [p.value];
    assert AddValue(acc, ParsePair(Field(p))) == acc[p.key := [p.value]];
    assert Fields(pairs)[1..] == Fields(pairs[1..]);
  }

  lemma KeysTail(pairs: seq<Pair>, acc: map<ByteString, seq<ByteString>>)
    requires pairs != [] && Distinct(Keys(pairs))
    requires forall k :: k in Keys(pairs) ==> k !in acc
    ensures pairs[0].key !in acc && pairs[0].key !in Singletons(pairs[1..])
    ensures Distinct(Keys(pairs[1..]))
    ensures forall k :: k in Keys(pairs[1..]) ==> k !in acc[pairs[0].key := [pairs[0].value]]
  {
    var rest := pairs[1..];
    assert Keys(rest) == Keys(pairs)[1..];
    assert Keys(pairs)[0] == pairs[0].key && pairs[0].key in Keys(pairs);
    forall k | k in Keys(rest) ensures k in Keys(pairs) && k != pairs[0].key {
      var j :| 0 <= j < |rest| && Keys(rest)[j] == k;
      assert Keys(pairs)[j + 1] == k;
    }
  }

  lemma MapShift(a: map<ByteString, seq<ByteString>>, b: map<ByteString, seq<ByteString>>, k: ByteString, v: seq<ByteString>)
    requires k !in b
    ensures a[k := v] + b == a + b[k := v]
  {
  }

  /** `parse(stringify(pairs))` gives each of the distinct keys its one value. */
  lemma ParseStringify(pairs: seq<Pair>)
    requires Distinct(Keys(pairs))
    ensures Parse(Stringify(pairs)) == Singletons(pairs)
  {
    if pairs != [] {
      var m: map<ByteString, seq<ByteString>> := map[];
      SplitStringify(pairs);
      CollectFields(pairs, m);
      EmptyMerge(Singletons(pairs));
    }
  }

  lemma EmptyMerge(m: map<ByteString, seq<ByteString>>)
    ensures map[] + m == m
  {
  }
}
