/** The canonical serializer and its inverse: `serialize` turns a string, an
    array or a plain object into the payload that is signed, and `deserialize`
    turns a payload back into data, choosing the shape by whether it holds `=`. */
module Canonical {
  import opened Bytes
  import opened Ordering
  import opened Percent
  import opened QueryString

  /** The value of an object property, as far as the serializer tells them apart. */
  datatype Property = Undefined | Defined(text: ByteString)

  /** The three shapes `serialize` accepts. A plain object is given by its keys in
      the order `Object.keys` reports them and by the value of each key. */
  datatype Datum =
    | Scalar(text: ByteString)
    | Sequence(items: seq<ByteString>)
    | Mapping(keys: seq<ByteString>, fields: map<ByteString, Property>)

  /** What `deserialize` returns: a string, or the object `querystring.parse`
      builds, each key with its values in order (one value is a string, several
      are an array). */
  datatype Data = Plain(text: ByteString) | Query(params: map<ByteString, seq<ByteString>>)

  /** The keys of a JavaScript object are distinct and are exactly its properties. */
  ghost predicate WellFormed(d: Datum)
  {
    d.Mapping? ==> Distinct(d.keys) && forall k :: k in d.keys <==> k in d.fields
  }

  const PROTO: ByteString := "__proto__"

  /** `typeof data[key] !== 'undefined'`. */
  predicate IsDefined(fields: map<ByteString, Property>, k: ByteString)
  {
    k in fields && fields[k].Defined?
  }

  /** The keys the filter keeps, in their original order. */
  function DefinedKeys(keys: seq<ByteString>, fields: map<ByteString, Property>): seq<ByteString>
  {
    Filter(k => IsDefined(fields, k), keys)
  }

  /** The own keys that the `reduce` with `Object.assign` gives the fresh object,
      in creation order. Assigning to `__proto__` runs the prototype setter,
      which ignores a string, so that key is never created. */
  function AssignedKeys(sorted: seq<ByteString>): (r: seq<ByteString>)
    ensures forall k :: k in r <==> k in sorted && k != PROTO
  {
    Filter(k => k != PROTO, sorted)
  }

  /** The keys `querystring.stringify` visits: `Object.keys` of the object built
      from the sorted defined keys. */
  function EmittedKeys(keys: seq<ByteString>, fields: map<ByteString, Property>): seq<ByteString>
  {
    OwnKeys(AssignedKeys(Sort(LexLess, DefinedKeys(keys, fields))))
  }

  /** The string `querystring.stringify` writes for a property: its text, or
      nothing for an undefined value. */
  function TextOf(fields: map<ByteString, Property>, k: ByteString): ByteString
  {
    if IsDefined(fields, k) then fields[k].text else []
  }

  function FieldPairs(keys: seq<ByteString>, fields: map<ByteString, Property>): (r: seq<Pair>)
    ensures Keys(r) == keys
    ensures forall i :: 0 <= i < |keys| ==> r[i] == Pair(keys[i], TextOf(fields, keys[i]))
  {
    seq(|keys|, i requires 0 <= i < |keys| => Pair(keys[i], TextOf(fields, keys[i])))
  }

  /** The pairs `querystring.stringify` writes for an array: each element under
      its index. */
  function IndexPairs(items: seq<ByteString>): (r: seq<Pair>)
    ensures |r| == |items|
    ensures forall i :: 0 <= i < |items| ==> r[i] == Pair(Decimal(i), items[i])
  {
    seq(|items|, i requires 0 <= i < |items| => Pair(Decimal(i), items[i]))
  }

  /** `serialize(data)`. */
  function Serialize(d: Datum): (r: ByteString)
    ensures d.Scalar? ==> '=' !in r && (r == [] <==> d.text == [])
  {
    match d
    case Scalar(text) => Escape(text)
    case Sequence(items) => Stringify(IndexPairs(items))
    case Mapping(keys, fields) => Stringify(FieldPairs(EmittedKeys(keys, fields), fields))
  }

  /** `deserialize(payload)`: a payload holding `=` is parsed as a query string,
      any other is percent-decoded as one string. */
  function Deserialize(payload: ByteString): (r: Data)
    ensures r.Query? <==> '=' in payload
    ensures r.Plain? ==> r.text == Unescape(payload)
    ensures r.Query? ==> r.params == Parse(payload)
  {
    if '=' in payload then Query(Parse(payload)) else Plain(Unescape(payload))
  }

  /** The object a mapping deserializes to: every defined key but `__proto__`,
      with its one value. */
  function DefinedParams(fields: map<ByteString, Property>): map<ByteString, seq<ByteString>>
  {
    map k | k in fields && fields[k].Defined? && k != PROTO :: [fields[k].text]
  }

  /** The serializer visits exactly the defined keys other than `__proto__`, each once. */
  lemma EmittedKeysExactly(keys: seq<ByteString>, fields: map<ByteString, Property>)
    requires WellFormed(Mapping(keys, fields))
    ensures Distinct(EmittedKeys(keys, fields))
    ensures forall k :: k in EmittedKeys(keys, fields) <==> IsDefined(fields, k) && k != PROTO
  {
    var defined := DefinedKeys(keys, fields);
    FilterDistinct(k => IsDefined(fields, k), keys);
    LexIsStrictTotal();
    SortSorted(LexLess, defined);
    SortElements(LexLess, defined);
    var sorted := Sort(LexLess, defined);
    PermutationDistinct(defined, sorted);
    FilterDistinct(k => k != PROTO, sorted);
    OwnKeysElements(AssignedKeys(sorted));
  }

  /** The order of the fields: array-index keys first by numeric value, then
      the other keys in lexicographic order. With `EmittedKeysExactly` and
      `KeyOrder` being a strict total order, this fixes the emitted sequence. */
  lemma EmittedOrder(keys: seq<ByteString>, fields: map<ByteString, Property>)
    requires WellFormed(Mapping(keys, fields))
    ensures Sorted(KeyOrder, EmittedKeys(keys, fields))
  {
    var defined := DefinedKeys(keys, fields);
    FilterDistinct(k => IsDefined(fields, k), keys);
    LexIsStrictTotal();
    SortSorted(LexLess, defined);
    var sorted := Sort(LexLess, defined);
    PermutationDistinct(defined, sorted);
    FilterDistinct(k => k != PROTO, sorted);
    FilterSorted(LexLess, k => k != PROTO, sorted);
    OwnKeysSorted(AssignedKeys(sorted));
  }

  /** A string survives the round trip: its escaping never holds `=`, so it is
      unescaped back as it was. */
  lemma ScalarRoundTrip(text: ByteString)
    ensures Deserialize(Serialize(Scalar(text))) == Plain(text)
  {
    UnescapeEscape(text);
  }

  /** A stringified list of pairs with distinct keys deserializes to the object
      of those pairs, or to the empty string when there are none. */
  lemma DeserializeStringify(pairs: seq<Pair>)
    requires Distinct(Keys(pairs))
    ensures Deserialize(Stringify(pairs)) == if pairs == [] then Plain([]) else Query(Singletons(pairs))
  {
    ParseStringify(pairs);
  }

  lemma IndexKeysDistinct(items: seq<ByteString>)
    ensures Distinct(Keys(IndexPairs(items)))
  {
    var pairs := IndexPairs(items);
    forall i, j | 0 <= i < j < |pairs| ensures Keys(pairs)[i] != Keys(pairs)[j] {
      if Decimal(i) == Decimal(j) { DecimalInjective(i, j); }
    }
  }

  /** An array comes back as an object from each index to its element; the
      empty array comes back as the empty string. */
  lemma SequenceRoundTrip(items: seq<ByteString>)
    ensures items == [] ==> Deserialize(Serialize(Sequence(items))) == Plain([])
    ensures items != [] ==> Deserialize(Serialize(Sequence(items))).Query?
    ensures var r := Deserialize(Serialize(Sequence(items)));
      r.Query? ==>
        && (forall i :: 0 <= i < |items| ==> Decimal(i) in r.params && r.params[Decimal(i)] == [items[i]])
        && (forall k :: k in r.params ==> exists i :: 0 <= i < |items| && k == Decimal(i))
  {
    var pairs := IndexPairs(items);
    IndexKeysDistinct(items);
    DeserializeStringify(pairs);
    var m := Singletons(pairs);
    forall i | 0 <= i < |items| ensures Decimal(i) in m && m[Decimal(i)] == [items[i]] {
      SingletonsAt(pairs, i);
      assert Keys(pairs)[i] == Decimal(i);
    }
    forall k | k in m ensures exists i :: 0 <= i < |items| && k == Decimal(i) {
      var i :| 0 <= i < |pairs| && Keys(pairs)[i] == k;
    }
  }

  /** The object of the emitted pairs is the object of the defined keys. */
  lemma EmittedParams(keys: seq<ByteString>, fields: map<ByteString, Property>)
    requires WellFormed(Mapping(keys, fields))
    ensures Distinct(Keys(FieldPairs(EmittedKeys(keys, fields), fields)))
    ensures Singletons(FieldPairs(EmittedKeys(keys, fields), fields)) == DefinedParams(fields)
    ensures EmittedKeys(keys, fields) == [] <==> DefinedParams(fields) == map[]
  {
    EmittedKeysExactly(keys, fields);
    ParamsOfPairs(EmittedKeys(keys, fields), fields);
  }

  lemma ParamsOfPairs(emitted: seq<ByteString>, fields: map<ByteString, Property>)
    requires Distinct(emitted)
    requires forall k :: k in emitted <==> IsDefined(fields, k) && k != PROTO
    ensures Singletons(FieldPairs(emitted, fields)) == DefinedParams(fields)
    ensures emitted == [] <==> DefinedParams(fields) == map[]
  {
    var pairs := FieldPairs(emitted, fields);
    var m := Singletons(pairs);
    var want := DefinedParams(fields);
    forall k ensures k in m <==> k in want {
      assert k in m <==> k in emitted;
    }
    forall k | k in m ensures m[k] == want[k] {
      var i :| 0 <= i < |emitted| && emitted[i] == k;
      SingletonsAt(pairs, i);
    }
    assert m == want;
    if emitted != [] {
      assert emitted[0] in want;
    }
  }

  /** A well-formed object comes back as the object of its defined keys (other
      than `__proto__`), each with its one value; an object with none comes back
      as the empty string. */
  lemma MappingRoundTrip(keys: seq<ByteString>, fields: map<ByteString, Property>)
    requires WellFormed(Mapping(keys, fields))
    ensures Deserialize(Serialize(Mapping(keys, fields)))
         == if DefinedParams(fields) == map[] then Plain([]) else Query(DefinedParams(fields))
  {
    EmittedParams(keys, fields);
    DeserializeStringify(FieldPairs(EmittedKeys(keys, fields), fields));
  }

  /** Serializing an object does not depend on the order of its keys, nor on
      its undefined properties: objects that agree on their defined properties
      serialize to the same payload. */
  lemma OrderIndependent(a: Datum, b: Datum)
    requires a.Mapping? && b.Mapping? && WellFormed(a) && WellFormed(b)
    requires forall k :: IsDefined(a.fields, k) <==> IsDefined(b.fields, k)
    requires forall k :: IsDefined(a.fields, k) && IsDefined(b.fields, k) ==> a.fields[k] == b.fields[k]
    ensures Serialize(a) == Serialize(b)
  {
    var da, db := DefinedKeys(a.keys, a.fields), DefinedKeys(b.keys, b.fields);
    FilterDistinct(k => IsDefined(a.fields, k), a.keys);
    FilterDistinct(k => IsDefined(b.fields, k), b.keys);
    LexIsStrictTotal();
    SortCanonical(LexLess, da, db);
    var emitted := EmittedKeys(a.keys, a.fields);
    assert emitted == EmittedKeys(b.keys, b.fields);
    EmittedKeysExactly(a.keys, a.fields);
    assert FieldPairs(emitted, a.fields) == FieldPairs(emitted, b.fields);
  }

  /** A serialized payload holds `=` exactly when the datum is an array or an
      object and the payload is not empty. */
  lemma SerializedShape(d: Datum)
    ensures '=' in Serialize(d) <==> !d.Scalar? && Serialize(d) != []
  {
  }

  /** Shape inference is exact on serialized data: a payload deserializes as a
      string exactly when it came from a string or is empty. */
  lemma ShapeRecovered(d: Datum)
    ensures Deserialize(Serialize(d)).Plain? <==> d.Scalar? || Serialize(d) == []
  {
    SerializedShape(d);
  }
}
