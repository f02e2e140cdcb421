# tilde-token in Dafny

A model of `index.js` from tilde-token. The library issues compact signed tokens of the form
`~` + an Ed25519 signature in unpadded base64 + a canonical payload, and verifies them. The model covers:

- the canonical serializer (`serialize`) and its shape-guessing inverse (`deserialize`);
- the keypair derivation (`makeKeypair`): SHA-256 of the secret seeds Ed25519 key generation;
- the signer and its wrapper (`signer`, `sign`);
- the structural decoder (`decode`);
- the verifier and its wrapper (`verifier`, `verify`), which turn every failure into an `ok: false` envelope.

The parts of Node that `index.js` relies on are modelled too, as far as the protocol uses them:

- `querystring.escape`, `unescape`, `stringify` and `parse`;
- `Buffer.toString('base64')` and `Buffer.from(s, 'base64')`;
- the order in which `Object.keys` reports the keys of the object the serializer builds.

The model is pure: datatypes, functions and lemmas. A JavaScript string is its sequence of UTF-8 bytes (`Bytes.ByteString`). The closures that `signer` and `verifier` return are datatypes that hold the key they captured (`Token.SigningFunction`, `Token.VerifyingFunction`). A thrown exception is a `Throws` result. An exception caught inside the verifying function is a `Caught` verdict. The results keep the source's two field names: `err` for a signature that does not verify and `error` for a caught exception.

SHA-256 and Ed25519 are parameters, gathered in `Token.Primitives`. The one property the protocol relies on is stated as `Token.Sound`:

- every signature made with a generated keypair is 64 bytes;
- such a signature verifies under that keypair's public key.

Modules, in dependency order:

- `bytes.dfy`: `Bytes`, the byte and string types, `Buffer.from(s, 'utf8')` and `Option`.
- `ordering.dfy`: `Ordering`, holding:
  - the lexicographic order and insertion sort (`Array.prototype.sort`);
  - `Filter`;
  - the `Object.keys` order of integer-like keys.
- `percent.dfy`: `Percent`, `querystring.escape` and `unescape`.
- `querystring.dfy`: `QueryString`, `stringify` and `parse`.
- `base64.dfy`: `Base64`, as section 4 of RFC 4648 defines it.
- `canonical.dfy`: `Canonical`, `serialize` and `deserialize`.
- `token.dfy`: `Token`, which holds:
  - the keypair, signer, decoder and verifier;
  - the end-to-end lemmas.

### Behaviour of the code worth knowing

- **Object key order.** The serializer sorts the defined keys lexicographically and copies them into a fresh object with `Object.assign`. `querystring.stringify` then visits that object's keys in `Object.keys` order. So the fields are not simply in lexicographic order. Two things change it:
  - Keys that are array indices (canonical decimals below 2^32 - 1) come first, in numeric order. So `{"10": .., "9": ..}` serializes as `9=..&10=..`.
  - A `__proto__` key is dropped, because assigning it runs the prototype setter.

  `Canonical.EmittedKeysExactly`, `Canonical.EmittedOrder` and `Ordering.OwnKeysSorted` state what the code does. The key order still depends only on the set of defined keys (`Canonical.OrderIndependent`).
- **Empty secret in `makeKeypair`.** `makeKeypair` has no check of its own: it hashes the empty string like any other. Only an absent secret makes the hash throw, modelled as `MissingHashInput`. The checks for an empty secret live in `signer` and `verifier`.
- **`Buffer` as a key.** `signer` hashes a `Buffer` secret, but `verifier` uses a `Buffer` directly as the public key. So a token signed with a `Buffer` is checked, under that same `Buffer`, against the `Buffer`'s bytes as the public key, not against the key derived from them (`Token.BufferKeyIsPublic`). That such a check then fails rests on the unforgeability of Ed25519, which is not modelled.
- **Malformed tokens.** A malformed token does not surface as a "malformed token" error from the verifier. `decode` returns no `payload`, so `Buffer.from(undefined)` throws, and the caught exception is returned in the `error` field (`Token.Check`).

## Model

| member | source | states |
|---|---|---|
| Percent.Escape | index.js:6-7 | escaping a string yields only unreserved bytes, `%` and upper-case hex digits; it never contains `=`, `&` or `+`; it is never shorter than its input and is empty only for the empty string |
| Percent.UnescapeEscape | index.js:20-24 | `querystring.unescape(querystring.escape(s)) == s` for every string |
| Percent.UnescapePlain | index.js:23 | unescaping a string without `%` leaves it unchanged |
| Percent.EscapeUnreserved | index.js:7 | a string of unreserved characters escapes to itself |
| QueryString.Stringify | index.js:10 | stringifying yields the empty string exactly when there are no pairs; otherwise the result contains `=` |
| QueryString.DecimalInjective | index.js:10 | distinct array indices get distinct key names |
| QueryString.SplitStringify | index.js:22 | splitting a stringified list on `&` gives back one field per pair, in order |
| QueryString.ParsePairField | index.js:22 | one `key=value` field parses back to the pair it was written from |
| QueryString.CollectFields | index.js:22 | parsing fields with distinct keys adds each key with its single value to what was already collected |
| QueryString.ParseStringify | index.js:22 | `querystring.parse(querystring.stringify(pairs))` maps each of the distinct keys to its one value |
| QueryString.Parse | index.js:22 | no contract of its own: `QueryString.ParseStringify` shows it inverts `stringify` on distinct keys, with `QueryString.ParsePairField` and `QueryString.CollectFields` for its single steps |
| QueryString.SingletonsAt | index.js:22 | in the parsed object of distinct pairs, the i-th key holds exactly the i-th value |
| Ordering.Sort | index.js:15 | sorting preserves the multiset of keys |
| Ordering.SortSorted | index.js:15 | under a strict total order, sorting distinct keys yields a sorted sequence |
| Ordering.LexIsStrictTotal | index.js:15 | the default sort order on strings is irreflexive, transitive and total |
| Ordering.SortCanonical | index.js:13-15 | two key lists with the same elements sort to the same sequence, whatever their original order |
| Ordering.SortedUnique | index.js:15 | two sorted sequences with the same elements are equal |
| Ordering.FilterPartition | index.js:14 | the kept and the rejected keys together are exactly the original keys |
| Ordering.FilterDistinct | index.js:14 | filtering keeps the keys distinct |
| Ordering.FilterSorted | index.js:14-16 | filtering keeps a sorted sequence sorted |
| Ordering.Filter | index.js:14 | a key is kept exactly when it is in the input and passes the test |
| Ordering.OwnKeys | index.js:16 | `Object.keys` of the built object reports each created key once, as a permutation |
| Ordering.OwnKeysElements | index.js:16 | `Object.keys` lists the created keys, each once, and nothing else |
| Ordering.OwnKeysOrder | index.js:16 | `Object.keys` reports the array-index keys first in increasing numeric order, then the other keys in creation order |
| Ordering.OwnKeysSorted | index.js:15-16 | keys created in lexicographic order are reported in `KeyOrder`: indices first by value, then the rest lexicographically |
| Ordering.KeyOrderIsStrictTotal | index.js:15-16 | that reporting order is a strict total order, so it fixes the sequence |
| Base64.Strip | index.js:43 | removing padding leaves no `=` |
| Base64.Encode | index.js:42 | no contract of its own: `Base64.EncodingShape` gives its length and where its `=` padding sits, `Base64.SignatureEncoding` its form for a 64-byte signature, and `Base64.DecodeEncode` its inverse |
| Base64.Decode | index.js:61 | no contract of its own: `Base64.DecodeEncode` shows it inverts the encoding, padded or stripped, and `Base64.DigitsOfChars` that it stops at `=` |
| Base64.DecodeEncode | index.js:41-43 | decoding the base64 of any bytes, with or without its `=` padding, yields those bytes |
| Base64.EncodingShape | index.js:42 | the encoding has `4 * ceil(n / 3)` characters, and its `=` characters are exactly those after the data digits |
| Base64.SignatureEncoding | index.js:41-44 | a 64-byte signature encodes to 88 characters ending in `==` with no other `=`; stripped it is the first 86 characters |
| Base64.StrippedEncoding | index.js:43 | stripping the encoding leaves exactly the data digits |
| Base64.FromToSextets | index.js:61 | regrouping the 6-bit groups of any byte string into bytes gives it back |
| Base64.DigitsOfChars | index.js:61 | the decoder reads back exactly the digits written, stopping at padding |
| Canonical.Deserialize | index.js:20-24 | the payload is parsed as a query string exactly when it contains `=`; otherwise it is percent-decoded as one string |
| Canonical.Serialize | index.js:5-18 | a string's payload never contains `=` and is empty only for the empty string; for the full meaning see `Canonical.ScalarRoundTrip`, `Canonical.SequenceRoundTrip`, `Canonical.MappingRoundTrip`, `Canonical.OrderIndependent` and `Canonical.SerializedShape` |
| Canonical.AssignedKeys | index.js:16 | the fresh object gets every sorted key except `__proto__`, whose assignment the prototype setter swallows |
| Canonical.EmittedKeys | index.js:13-16 | no contract of its own: `Canonical.EmittedKeysExactly` gives its elements and `Canonical.EmittedOrder` its order |
| Canonical.ScalarRoundTrip | index.js:6-7 | a string serializes and deserializes back to itself |
| Canonical.SequenceRoundTrip | index.js:9-10 | an array comes back as an object mapping each index's decimal name to its element, with no other key; the empty array comes back as the empty string |
| Canonical.EmittedKeysExactly | index.js:12-16 | an object's payload has one field for each defined key other than `__proto__`, and for no other key |
| Canonical.EmittedOrder | index.js:13-17 | the fields appear in `KeyOrder`: array-index keys by numeric value first, then the others lexicographically |
| Canonical.EmittedParams | index.js:12-17 | the emitted fields have distinct keys, and as an object they are exactly the defined properties with their values |
| Canonical.ParamsOfPairs | index.js:16-17 | distinct emitted keys, covering exactly the defined keys, yield the object of the defined properties |
| Canonical.DeserializeStringify | index.js:17-24 | a stringified list of pairs with distinct keys deserializes to their object, or to the empty string when there are none |
| Canonical.IndexKeysDistinct | index.js:9-10 | the pairs written for an array have distinct keys |
| Canonical.MappingRoundTrip | index.js:12-24 | a well-formed object deserializes back to the object of its defined properties other than `__proto__`, or to the empty string when it has none |
| Canonical.OrderIndependent | index.js:12-17 | two objects that agree on their defined properties serialize identically, whatever their key order and undefined properties |
| Canonical.SerializedShape | index.js:5-18 | a payload contains `=` exactly when it came from an array or an object and is not empty |
| Canonical.ShapeRecovered | index.js:20-24 | a payload deserializes as a string exactly when it came from a string or is empty |
| Token.SecretBytes | index.js:27 | a string secret is hashed as its UTF-8 bytes, a `Buffer` as its own bytes; so a passphrase and a `Buffer` of its UTF-8 bytes derive the same keypair |
| Bytes.BufferFrom | index.js:41 | `Buffer.from(s, 'utf8')` keeps the length and each byte of the string |
| Token.MakeKeypair | index.js:26-29 | keypair derivation throws only when the secret is absent; otherwise the keypair is key generation on the SHA-256 of the secret's bytes, the empty string included |
| Token.Signer | index.js:31-35 | `signer` throws `MissingSecret` exactly on a falsy secret; otherwise it captures the derived keypair |
| Token.Frame | index.js:44 | a token starts with `~` and ends with its payload |
| Token.SignData | index.js:36-45 | the signing function throws `MissingData` exactly on falsy data; otherwise it returns a `~` token ending in the serialized payload |
| Token.Sign | index.js:48-50 | `sign` throws exactly when the secret or the data is falsy, checking the secret first; otherwise it is the signing function of `signer(secret)` applied to the data |
| Token.Decode | index.js:52-63 | `decode` is `ok: false` exactly for a non-string, a token shorter than 88 or one not starting with `~`; otherwise the payload is the non-empty text from offset 87, the signature is the base64 decoding of characters 1 to 86, and the data is the deserialized payload |
| Token.Verifier | index.js:65-69 | `verifier` throws `MissingVerificationKey` exactly on a falsy key; a `Buffer` is used as the public key and any other key through its derived keypair |
| Token.Check | index.js:70-79 | the verifying function never throws. It returns `ok: true` with the decoded data exactly when the token is well formed and the primitive accepts. It returns `err` exactly when the primitive refuses. A malformed token gives a caught exception, and so does a throwing primitive |
| Token.Accepts | index.js:73 | no contract of its own: it is the `ed25519.Verify` call on the payload's UTF-8 bytes and the decoded signature, and `Token.Check` and `Token.SignVerify` state what follows from its answer |
| Token.Verify | index.js:82-84 | `verify` throws exactly on a falsy key; otherwise it is the verifying function of `verifier(key)` applied to the token |
| Token.SignedLayout | index.js:40-44 | a signed token is `~`, then 86 signature characters without `=` that decode to the signature made, then the payload from offset 87 |
| Token.DecodeSigned | index.js:52-62 | decoding a signed token with a non-empty payload recovers that payload, its deserialized data and the signature that was made |
| Token.EmptyPayloadRejected | index.js:44-53 | a datum that serializes to nothing gives an 87-character token that `decode` rejects, which every non-falsy key answers with a caught exception |
| Token.SignVerify | index.js:65-79 | a token with a payload verifies, under a `Buffer` of the signer's public key and under the signing passphrase, to the deserialized payload |
| Token.BufferKeyIsPublic | index.js:35-73 | a token signed with a `Buffer` is checked, under that `Buffer`, against the `Buffer` itself as public key |
| Token.StringTokenRoundTrip | index.js:36-84 | a non-empty string signed and verified with the same passphrase comes back unchanged |
| Token.ObjectTokenRoundTrip | index.js:12-84 | an object with a defined property other than `__proto__`, signed and verified with the same passphrase, comes back as the object of its defined properties |
| Token.SignOrderIndependent | index.js:12-50 | objects that agree on their defined properties give the same token |

## Left out

- SHA-256 and Ed25519 internals (`createHash`, `ed25519.MakeKeypair`, `Sign`, `Verify`): these are foreign libraries and are parameters of the model. Only `Token.Sound` is assumed about them.
- Tamper detection and cross-key rejection (`verify(sign(D, S1), S2)` is `ok: false`): these need the unforgeability of Ed25519, which is beyond the one stated assumption.
- Determinism of `sign`: every operation here is a mathematical function, so it holds by construction and needs no lemma.
- Values other than strings: numbers, booleans, nested objects and arrays inside objects, and what `querystring` does to them. Object values are strings or `undefined`, and array elements are strings.
- Falsiness: `0`, `false`, `NaN` and other non-string secrets are not modelled. A non-string, non-`Buffer` secret is not modelled either.
- Strings holding an unpaired surrogate are outside the model: they have no UTF-8 form, and `querystring.escape` throws a `URIError` on them, so `serialize` and `sign` throw. `Token.Sign` returns a token for every non-empty string.
- `querystring.parse`'s `maxKeys` limit of 1000: a payload with more fields is not truncated in the model.
- Strings are modelled as UTF-8 bytes. JavaScript measures and slices strings in UTF-16 code units and compares them by those units. This matters, for instance, for a token with non-ASCII characters before offset 88 and for sorting keys with non-ASCII characters. Payloads that `serialize` produces are ASCII.
- `Buffer.from(s, 'base64')` on arbitrary text: the model skips characters outside the alphabet, accepts the URL-safe `-` and `_`, and stops at the first `=`. Node's exact treatment of a lone trailing digit and of whitespace is not reproduced.
- `querystring.unescape`'s fallback to a lenient decoder when `decodeURIComponent` fails, for malformed UTF-8 after decoding: the model decodes every `%HH` byte by byte.
- Exception types and messages: only which misuse was reported and whether a failure was thrown or returned.
- Percent.Unescape: its contract only bounds the output length; its meaning is given by `Percent.UnescapeEscape` and `Percent.UnescapePlain`.
