/** The token protocol: a keypair derived from a secret, a signer that frames
    `~` + unpadded base64 signature + payload, a structural decoder, and a
    verifier that turns every failure into an `ok: false` envelope. SHA-256 and
    Ed25519 are parameters, with the one property of them the protocol leans on. */
module Token {
  import opened Bytes
  import opened Canonical
  import Base64

  datatype Keypair = Keypair(publicKey: seq<Byte>, privateKey: seq<Byte>)

  /** The cryptographic library: `createHash('sha256')`, `ed25519.MakeKeypair`,
      `ed25519.Sign` and `ed25519.Verify`. `verify` yields `None` where the
      library throws. */
  datatype Primitives = Primitives(
    sha256: seq<Byte> -> seq<Byte>,
    makeKeypair: seq<Byte> -> Keypair,
    sign: (seq<Byte>, Keypair) -> seq<Byte>,
    verify: (seq<Byte>, seq<Byte>, seq<Byte>) -> Option<bool>)

  /** What Ed25519 (RFC 8032) guarantees and the framing relies on: a signature
      made with a generated keypair is 64 bytes and verifies under that
      keypair's public key. */
  ghost predicate Sound(p: Primitives)
  {
    forall seed, m :: |p.sign(m, p.makeKeypair(seed))| == 64
      && p.verify(m, p.sign(m, p.makeKeypair(seed)), p.makeKeypair(seed).publicKey) == Some(true)
  }

  /** A secret or verification key as a caller passes it: nothing (`undefined`,
      `null`), a string, or a `Buffer`. */
  datatype KeyMaterial = Absent | Passphrase(text: ByteString) | Buffer(bytes: seq<Byte>)

  /** `!secret`: nothing or the empty string; a `Buffer`, being an object, never is. */
  predicate FalsyKey(k: KeyMaterial)
  {
    k.Absent? || (k.Passphrase? && k.text == [])
  }

  /** `!data`, for the data `serialize` accepts: nothing or the empty string;
      arrays and objects, even empty ones, are truthy. */
  predicate FalsyData(data: Option<Datum>)
  {
    data.None? || (data.value.Scalar? && data.value.text == [])
  }

  /** The exceptions the protocol raises on misuse. */
  datatype Misuse = MissingSecret | MissingData | MissingVerificationKey | MissingHashInput

  datatype Result<+T> = Ok(value: T) | Throws(error: Misuse)

  /** The bytes `hash.update(secret)` consumes: a string as UTF-8, a `Buffer` as is. */
  function SecretBytes(k: KeyMaterial): (b: seq<Byte>)
    requires !k.Absent?
    ensures k.Buffer? ==> b == k.bytes
    ensures k.Passphrase? ==> b == BufferFrom(k.text)
  {
    if k.Buffer? then k.bytes else BufferFrom(k.text)
  }

  /** `makeKeypair(secret)`: the Ed25519 keypair seeded by the SHA-256 digest of the
      secret. It has no check of its own: the empty string is hashed like any
      other, and only a missing secret makes the hash throw. */
  function MakeKeypair(p: Primitives, secret: KeyMaterial): (r: Result<Keypair>)
    ensures r.Throws? <==> secret.Absent?
    ensures r.Throws? ==> r.error == MissingHashInput
    ensures r.Ok? ==> r.value == p.makeKeypair(p.sha256(SecretBytes(secret)))
  {
    if secret.Absent? then Throws(MissingHashInput)
    else Ok(p.makeKeypair(p.sha256(SecretBytes(secret))))
  }

  /** The function `signer` returns, with the keypair it derived once. */
  datatype SigningFunction = SigningFunction(keypair: Keypair)

  /** `signer(secret)`. */
  function Signer(p: Primitives, secret: KeyMaterial): (r: Result<SigningFunction>)
    ensures r.Throws? <==> FalsyKey(secret)
    ensures r.Throws? ==> r.error == MissingSecret
    ensures r.Ok? ==> MakeKeypair(p, secret) == Ok(r.value.keypair)
  {
    if FalsyKey(secret) then Throws(MissingSecret)
    else Ok(SigningFunction(MakeKeypair(p, secret).value))
  }

  /** The wire format: `~`, the signature in base64 without its padding, the payload. */
  function Frame(signature: seq<Byte>, payload: ByteString): (t: ByteString)
    ensures |t| >= 1 + |payload| && t[0] == '~'
    ensures t[|t| - |payload|..] == payload
  {
    ['~'] + Base64.Strip(Base64.Encode(signature)) + payload
  }

  /** Calling the function `signer` returned on `data`. */
  function SignData(p: Primitives, f: SigningFunction, data: Option<Datum>): (r: Result<ByteString>)
    ensures r.Throws? <==> FalsyData(data)
    ensures r.Throws? ==> r.error == MissingData
    ensures r.Ok? ==> var payload := Serialize(data.value);
      |r.value| > |payload| && r.value[0] == '~' && r.value[|r.value| - |payload|..] == payload
  {
    if FalsyData(data) then Throws(MissingData)
    else
      var payload := Serialize(data.value);
      Ok(Frame(p.sign(BufferFrom(payload), f.keypair), payload))
  }

  /** `sign(data, secret)`: the secret is checked before the data. */
  function Sign(p: Primitives, data: Option<Datum>, secret: KeyMaterial): (r: Result<ByteString>)
    ensures r.Throws? <==> FalsyKey(secret) || FalsyData(data)
    ensures FalsyKey(secret) ==> r == Throws(MissingSecret)
    ensures !FalsyKey(secret) ==> r == SignData(p, Signer(p, secret).value, data)
  {
    match Signer(p, secret)
    case Throws(e) => Throws(e)
    case Ok(f) => SignData(p, f, data)
  }

  /** The signature `sign(data, secret)` puts in its token. */
  function SignatureOf(p: Primitives, d: Datum, secret: KeyMaterial): seq<Byte>
    requires !secret.Absent?
  {
    p.sign(BufferFrom(Serialize(d)), MakeKeypair(p, secret).value)
  }

  /** What `decode` is given: a string, or a value of any other type. */
  datatype TokenArg = Text(s: ByteString) | Other

  /** What `decode` returns: `{ok: false, err}` or `{ok: true, payload, data, signature}`. */
  datatype Decoding = Malformed | Wellformed(payload: ByteString, data: Data, signature: seq<Byte>)

  /** The length of the smallest well-formed token: the marker, 86 signature
      characters and one payload character. */
  const MIN_TOKEN: nat := 88

  /** Where the payload starts: after the marker and the 86 signature characters. */
  const PAYLOAD_START: nat := 87

  /** `decode(token)`. */
  function Decode(token: TokenArg): (r: Decoding)
    ensures r.Malformed? <==> token.Other? || |token.s| < MIN_TOKEN || token.s[0] != '~'
    ensures r.Wellformed? ==>
      && r.payload == token.s[PAYLOAD_START..] && r.payload != []
      && |token.s| == PAYLOAD_START + |r.payload|
      && r.signature == Base64.Decode(token.s[1..PAYLOAD_START])
      && r.data == Deserialize(r.payload)
  {
    if token.Other? || |token.s| < MIN_TOKEN || token.s[0] != '~' then Malformed
    else
      var payload := token.s[PAYLOAD_START..];
      Wellformed(payload, Deserialize(payload), Base64.Decode(token.s[1..PAYLOAD_START]))
  }

  /** The function `verifier` returns, with the public key it chose once. */
  datatype VerifyingFunction = VerifyingFunction(publicKey: seq<Byte>)

  /** `verifier(key)`: a `Buffer` is the public key itself; any other key is a
      secret whose keypair supplies it. */
  function Verifier(p: Primitives, key: KeyMaterial): (r: Result<VerifyingFunction>)
    ensures r.Throws? <==> FalsyKey(key)
    ensures r.Throws? ==> r.error == MissingVerificationKey
    ensures r.Ok? && key.Buffer? ==> r.value.publicKey == key.bytes
    ensures r.Ok? && key.Passphrase? ==> r.value.publicKey == MakeKeypair(p, key).value.publicKey
  {
    if FalsyKey(key) then Throws(MissingVerificationKey)
    else if key.Buffer? then Ok(VerifyingFunction(key.bytes))
    else Ok(VerifyingFunction(MakeKeypair(p, key).value.publicKey))
  }

  /** Why a token was not accepted. */
  datatype Failure = InvalidSignature | PayloadNotString | PrimitiveThrew

  /** What the verifying function returns: `{ok: true, data}`, `{ok: false, err}`
      for a signature that does not verify, or `{ok: false, error}` for an
      exception it caught. */
  datatype Verdict = Verified(data: Data) | Refused(err: Failure) | Caught(error: Failure)

  /** The answer of `ed25519.Verify` on a well-formed token's payload and signature. */
  function Accepts(p: Primitives, publicKey: seq<Byte>, d: Decoding): Option<bool>
    requires d.Wellformed?
  {
    p.verify(BufferFrom(d.payload), d.signature, publicKey)
  }

  /** Calling the function `verifier` returned on `token`. It never throws: a
      malformed token has no payload, so turning it into a `Buffer` throws and
      the exception is caught, as is one from the primitive. */
  function Check(p: Primitives, f: VerifyingFunction, token: TokenArg): (r: Verdict)
    ensures Decode(token).Malformed? ==> r == Caught(PayloadNotString)
    ensures r.Verified? <==> Decode(token).Wellformed? && Accepts(p, f.publicKey, Decode(token)) == Some(true)
    ensures r.Verified? ==> r.data == Decode(token).data && r.data == Deserialize(token.s[PAYLOAD_START..])
    ensures r.Refused? <==> Decode(token).Wellformed? && Accepts(p, f.publicKey, Decode(token)) == Some(false)
    ensures r.Refused? ==> r.err == InvalidSignature
    ensures r.Caught? && Decode(token).Wellformed? ==> r.error == PrimitiveThrew
  {
    var d := Decode(token);
    if d.Malformed? then Caught(PayloadNotString)
    else
      match Accepts(p, f.publicKey, d)
      case None => Caught(PrimitiveThrew)
      case Some(ok) => if ok then Verified(d.data) else Refused(InvalidSignature)
  }

  /** `verify(token, key)`. */
  function Verify(p: Primitives, token: TokenArg, key: KeyMaterial): (r: Result<Verdict>)
    ensures r.Throws? <==> FalsyKey(key)
    ensures r.Throws? ==> r.error == MissingVerificationKey
    ensures r.Ok? ==> r.value == Check(p, Verifier(p, key).value, token)
  {
    match Verifier(p, key)
    case Throws(e) => Throws(e)
    case Ok(f) => Ok(Check(p, f, token))
  }

  /** The layout of a signed token: the marker, exactly 86 signature characters
      holding no `=`, which decode to the signature that was made, then the
      payload at offset 87. */
  lemma SignedLayout(p: Primitives, d: Datum, secret: KeyMaterial)
    requires Sound(p) && !FalsyKey(secret) && !FalsyData(Some(d))
    ensures Sign(p, Some(d), secret).Ok?
    ensures var t := Sign(p, Some(d), secret).value;
      && |t| == PAYLOAD_START + |Serialize(d)|
      && t[0] == '~' && '=' !in t[..PAYLOAD_START]
      && t[PAYLOAD_START..] == Serialize(d)
      && Base64.Decode(t[1..PAYLOAD_START]) == SignatureOf(p, d, secret)
  {
    var payload := Serialize(d);
    var sig := SignatureOf(p, d, secret);
    var kp := MakeKeypair(p, secret).value;
    assert |p.sign(BufferFrom(payload), p.makeKeypair(p.sha256(SecretBytes(secret))))| == 64;
    Base64.SignatureEncoding(sig);
    Base64.DecodeEncode(sig);
    var chars := Base64.Strip(Base64.Encode(sig));
    var t := Sign(p, Some(d), secret).value;
    assert t == ['~'] + chars + payload;
    assert t[1..PAYLOAD_START] == chars;
    assert t[..PAYLOAD_START] == ['~'] + chars;
  }

  /** Decoding a signed token with a payload gives back the payload, its data
      and the signature that was made. */
  lemma DecodeSigned(p: Primitives, d: Datum, secret: KeyMaterial)
    requires Sound(p) && !FalsyKey(secret) && !FalsyData(Some(d)) && Serialize(d) != []
    ensures Sign(p, Some(d), secret).Ok?
    ensures Decode(Text(Sign(p, Some(d), secret).value))
         == Wellformed(Serialize(d), Deserialize(Serialize(d)), SignatureOf(p, d, secret))
  {
    SignedLayout(p, d, secret);
  }

  /** A datum that serializes to nothing, such as an empty array or an object
      with no defined property, is signed into an 87-character token that
      `decode` rejects, so no key verifies it. */
  lemma EmptyPayloadRejected(p: Primitives, d: Datum, secret: KeyMaterial, key: KeyMaterial)
    requires Sound(p) && !FalsyKey(secret) && !FalsyData(Some(d)) && Serialize(d) == []
    requires !FalsyKey(key)
    ensures Sign(p, Some(d), secret).Ok?
    ensures |Sign(p, Some(d), secret).value| == PAYLOAD_START
    ensures Decode(Text(Sign(p, Some(d), secret).value)) == Malformed
    ensures Verify(p, Text(Sign(p, Some(d), secret).value), key) == Ok(Caught(PayloadNotString))
  {
    SignedLayout(p, d, secret);
  }

  /** A signed token with a payload verifies to the deserialized payload under a
      `Buffer` holding the signer's public key and, when it was signed with a
      passphrase, under that passphrase. */
  lemma SignVerify(p: Primitives, d: Datum, secret: KeyMaterial)
    requires Sound(p) && !FalsyKey(secret) && !FalsyData(Some(d)) && Serialize(d) != []
    ensures Sign(p, Some(d), secret).Ok?
    ensures var t := Text(Sign(p, Some(d), secret).value);
      Verify(p, t, Buffer(MakeKeypair(p, secret).value.publicKey)) == Ok(Verified(Deserialize(Serialize(d))))
    ensures var t := Text(Sign(p, Some(d), secret).value);
      secret.Passphrase? ==> Verify(p, t, secret) == Ok(Verified(Deserialize(Serialize(d))))
  {
    DecodeSigned(p, d, secret);
    var payload := BufferFrom(Serialize(d));
    var seed := p.sha256(SecretBytes(secret));
    assert p.verify(payload, p.sign(payload, p.makeKeypair(seed)), p.makeKeypair(seed).publicKey) == Some(true);
  }

  /** The verifier reads a `Buffer` as a public key where the signer reads it as a
      secret: a token signed with a `Buffer` is checked against that `Buffer`
      itself, not against the public key derived from it. */
  lemma BufferKeyIsPublic(p: Primitives, d: Datum, bytes: seq<Byte>)
    requires Sound(p) && !FalsyData(Some(d)) && Serialize(d) != []
    ensures Sign(p, Some(d), Buffer(bytes)).Ok?
    ensures var t := Text(Sign(p, Some(d), Buffer(bytes)).value);
      Verify(p, t, Buffer(bytes))
        == Ok(match p.verify(BufferFrom(Serialize(d)), SignatureOf(p, d, Buffer(bytes)), bytes)
              case None => Caught(PrimitiveThrew)
              case Some(ok) => if ok then Verified(Deserialize(Serialize(d))) else Refused(InvalidSignature))
  {
    DecodeSigned(p, d, Buffer(bytes));
  }

  /** A non-empty string signed and verified with the same passphrase comes back as
      the same string. */
  lemma StringTokenRoundTrip(p: Primitives, text: ByteString, secret: KeyMaterial)
    requires Sound(p) && secret.Passphrase? && secret.text != [] && text != []
    ensures Sign(p, Some(Scalar(text)), secret).Ok?
    ensures Verify(p, Text(Sign(p, Some(Scalar(text)), secret).value), secret) == Ok(Verified(Plain(text)))
  {
    ScalarRoundTrip(text);
    SignVerify(p, Scalar(text), secret);
  }

  /** An object with at least one defined property (other than `__proto__`)
      signed and verified with the same passphrase comes back as the object of its
      defined properties. */
  lemma ObjectTokenRoundTrip(p: Primitives, keys: seq<ByteString>, fields: map<ByteString, Property>, secret: KeyMaterial)
    requires Sound(p) && secret.Passphrase? && secret.text != [] && WellFormed(Mapping(keys, fields))
    requires DefinedParams(fields) != map[]
    ensures Sign(p, Some(Mapping(keys, fields)), secret).Ok?
    ensures Verify(p, Text(Sign(p, Some(Mapping(keys, fields)), secret).value), secret)
         == Ok(Verified(Query(DefinedParams(fields))))
  {
    MappingRoundTrip(keys, fields);
    SignVerify(p, Mapping(keys, fields), secret);
  }

  /** Objects that agree on their defined properties are signed into the same
      token, whatever order their keys were created in. */
  lemma SignOrderIndependent(p: Primitives, a: Datum, b: Datum, secret: KeyMaterial)
    requires a.Mapping? && b.Mapping? && WellFormed(a) && WellFormed(b)
    requires forall k :: IsDefined(a.fields, k) <==> IsDefined(b.fields, k)
    requires forall k :: IsDefined(a.fields, k) && IsDefined(b.fields, k) ==> a.fields[k] == b.fields[k]
    ensures Sign(p, Some(a), secret) == Sign(p, Some(b), secret)
  {
    OrderIndependent(a, b);
  }
}
