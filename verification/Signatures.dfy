/** Signing and verifying identity documents and delegation tokens. Ed25519 and base64url are
    functions of unknown body, of which only what Lawful says is used. */
module Signatures {
  import opened Wrappers
  import opened Utf8
  import opened Text
  import opened Models
  import opened Payload
  import Json

  const ED25519: string := "Ed25519"
  const OKP: string := "OKP"

  type SecretKey = seq<byte>

  datatype Scheme = Scheme(
    publicKey: SecretKey -> seq<byte>,
    sign: (SecretKey, seq<byte>) -> seq<byte>,
    verify: (seq<byte>, seq<byte>, seq<byte>) -> bool,
    validPoint: seq<byte> -> bool,
    encode: seq<byte> -> string,
    decode: string -> Option<seq<byte>>,
    fmt: TimeFormat)

  /** Encoding is undone by decoding and yields visible text; a key verifies what it signed. */
  ghost predicate Lawful(c: Scheme) {
    (forall b :: c.decode(c.encode(b)) == Some(b))
    && (forall b :: b != [] ==> !Blank(c.encode(b)))
    && (forall k :: |c.publicKey(k)| == 32 && c.validPoint(c.publicKey(k)))
    && (forall k, m :: |c.sign(k, m)| == 64 && c.verify(c.publicKey(k), m, c.sign(k, m)))
    && Injective(c.fmt)
  }

  datatype SignatureError =
    | WrongAlgorithm
    | UnknownKeyId
    | UnusableKey
    | MalformedSignature
    | NotVerified

  /** `verifying_key_from_public_material`. */
  function VerifyingKey(c: Scheme, key: PublicKeyRecord): Option<seq<byte>> {
    if key.kty != OKP || key.crv != Some(ED25519) || key.x.None? then None
    else
      match c.decode(key.x.value)
      case None => None
      case Some(bytes) => if |bytes| == 32 && c.validPoint(bytes) then Some(bytes) else None
  }

  function DecodeSignature(c: Scheme, raw: string): Option<seq<byte>> {
    match c.decode(raw)
    case None => None
    case Some(bytes) => if |bytes| == 64 then Some(bytes) else None
  }

  // ---------------------------------------------------------------- identity documents

  function SignIdentityDocument(c: Scheme, doc: AgentIdentityDocument, key: SecretKey): string {
    c.encode(c.sign(key, IdentityPayload(c.fmt, doc)))
  }

  /** An Ed25519 key: its material decodes to a valid point of 32 bytes. */
  predicate UsableKey(c: Scheme, key: PublicKeyRecord) {
    key.kty == "OKP" && key.crv == Some("Ed25519") && key.x.Some?
    && c.decode(key.x.value).Some? && |c.decode(key.x.value).value| == 32 && c.validPoint(c.decode(key.x.value).value)
  }

  predicate UsableSignature(c: Scheme, signature: string) {
    c.decode(signature).Some? && |c.decode(signature).value| == 64
  }

  /** The key's material verifies the signature over the bytes. */
  predicate KeyVerifies(c: Scheme, key: PublicKeyRecord, payload: seq<byte>, signature: string) {
    UsableKey(c, key) && UsableSignature(c, signature)
    && c.verify(c.decode(key.x.value).value, payload, c.decode(signature).value)
  }

  lemma MaterialIff(c: Scheme, key: PublicKeyRecord, signature: string)
    ensures VerifyingKey(c, key) == if UsableKey(c, key) then c.decode(key.x.value) else None
    ensures DecodeSignature(c, signature) == if UsableSignature(c, signature) then c.decode(signature) else None
  {
  }

  /** Some key the document lists verifies the signature it carries. */
  predicate IdentitySigned(c: Scheme, doc: AgentIdentityDocument) {
    exists i | 0 <= i < |doc.publicKeys| :: KeyVerifies(c, doc.publicKeys[i], IdentityPayload(c.fmt, doc), doc.signature)
  }

  /** `verify_identity_document_signature`: tries the keys in order, passing over unusable ones,
      and tells a document without a usable key from one that none of them verifies. */
  method VerifyIdentityDocumentSignature(c: Scheme, doc: AgentIdentityDocument) returns (r: Result<(), SignatureError>)
    ensures r.Ok? <==> IdentitySigned(c, doc)
    ensures r == Err(MalformedSignature) <==> !UsableSignature(c, doc.signature)
    ensures r == Err(UnusableKey) <==>
              UsableSignature(c, doc.signature) && forall i | 0 <= i < |doc.publicKeys| :: !UsableKey(c, doc.publicKeys[i])
    ensures r.Err? ==> r.error in {MalformedSignature, UnusableKey, NotVerified}
  {
    var payload := IdentityPayload(c.fmt, doc);
    var signature := DecodeSignature(c, doc.signature);
    if signature.None? {
      return Err(MalformedSignature);
    }
    var keyParseFailures := 0;
    for i := 0 to |doc.publicKeys|
      invariant 0 <= keyParseFailures <= i
      invariant keyParseFailures == i <==> forall k | 0 <= k < i :: !UsableKey(c, doc.publicKeys[k])
      invariant forall k | 0 <= k < i :: !KeyVerifies(c, doc.publicKeys[k], payload, doc.signature)
    {
      var key := VerifyingKey(c, doc.publicKeys[i]);
      if key.None? {
        keyParseFailures := keyParseFailures + 1;
        continue;
      }
      if c.verify(key.value, payload, signature.value) {
        assert KeyVerifies(c, doc.publicKeys[i], payload, doc.signature);
        return Ok(());
      }
    }
    if keyParseFailures == |doc.publicKeys| {
      return Err(UnusableKey);
    }
    return Err(NotVerified);
  }

  // ---------------------------------------------------------------- delegation tokens

  function SignDelegationToken(c: Scheme, token: DelegationToken, order: seq<string>, key: SecretKey): string
    requires OrderFits(token, order)
  {
    c.encode(c.sign(key, TokenPayload(c.fmt, token, order)))
  }

  /** The first listed key of that id. */
  function FindKey(keys: seq<PublicKeyRecord>, kid: string): Option<PublicKeyRecord> {
    if keys == [] then None else if keys[0].kid == kid then Some(keys[0]) else FindKey(keys[1..], kid)
  }

  /** `verify_delegation_token_signature`. */
  function VerifyDelegationTokenSignature(c: Scheme, token: DelegationToken, order: seq<string>, doc: AgentIdentityDocument)
    : Result<(), SignatureError>
    requires OrderFits(token, order)
  {
    if token.signatureAlg != ED25519 then Err(WrongAlgorithm)
    else
      match FindKey(doc.publicKeys, token.keyId)
      case None => Err(UnknownKeyId)
      case Some(key) =>
        if VerifyingKey(c, key).None? then Err(UnusableKey)
        else
          match DecodeSignature(c, token.signature)
          case None => Err(MalformedSignature)
          case Some(signature) =>
            if c.verify(VerifyingKey(c, key).value, TokenPayload(c.fmt, token, order), signature) then Ok(()) else Err(NotVerified)
  }

  predicate FirstUnder(keys: seq<PublicKeyRecord>, kid: string, i: nat) {
    i < |keys| && keys[i].kid == kid && forall j | 0 <= j < i :: keys[j].kid != kid
  }

  /** A rotated key can be put to use exactly if its id was not listed before: that of several
      records under one id, only the first is ever found. */
  lemma {:induction false} KeyIsFoundIff(keys: seq<PublicKeyRecord>, kid: string, i: nat)
    requires i < |keys| && keys[i].kid == kid && (forall j | 0 <= j < i :: keys[j] != keys[i])
    ensures FindKey(keys, kid) == Some(keys[i]) <==> FirstUnder(keys, kid, i)
  {
    if i > 0 {
      var rest := keys[1..];
      assert forall j | 0 <= j < i - 1 :: rest[j] == keys[j + 1];
      assert forall j | 0 < j < i :: keys[j] == rest[j - 1];
      KeyIsFoundIff(rest, kid, i - 1);
    }
  }

  /** The first key listed under the token's key id verifies its Ed25519 signature. */
  predicate TokenSigned(c: Scheme, token: DelegationToken, order: seq<string>, doc: AgentIdentityDocument)
    requires OrderFits(token, order)
  {
    token.signatureAlg == "Ed25519"
    && exists i | 0 <= i < |doc.publicKeys| ::
         FirstUnder(doc.publicKeys, token.keyId, i)
         && KeyVerifies(c, doc.publicKeys[i], TokenPayload(c.fmt, token, order), token.signature)
  }

  predicate KeyListed(doc: AgentIdentityDocument, kid: string) {
    exists i | 0 <= i < |doc.publicKeys| :: doc.publicKeys[i].kid == kid
  }

  /** The first key listed under the id is there and usable. */
  predicate KeyReady(c: Scheme, doc: AgentIdentityDocument, kid: string) {
    exists i | 0 <= i < |doc.publicKeys| :: FirstUnder(doc.publicKeys, kid, i) && UsableKey(c, doc.publicKeys[i])
  }

  lemma {:induction false} FindKeyFirst(keys: seq<PublicKeyRecord>, kid: string)
    ensures FindKey(keys, kid).None? ==> forall i | 0 <= i < |keys| :: keys[i].kid != kid
    ensures FindKey(keys, kid).Some? ==> exists i | 0 <= i < |keys| :: FirstUnder(keys, kid, i) && keys[i] == FindKey(keys, kid).value
  {
    if keys != [] {
      if keys[0].kid == kid {
        assert FirstUnder(keys, kid, 0);
      } else {
        FindKeyFirst(keys[1..], kid);
        if FindKey(keys, kid).Some? {
          var i :| 0 <= i < |keys| - 1 && FirstUnder(keys[1..], kid, i) && keys[1..][i] == FindKey(keys, kid).value;
          assert forall j | 0 < j <= i + 1 :: keys[j] == keys[1..][j - 1];
          assert FirstUnder(keys, kid, i + 1);
        }
      }
    }
  }

  lemma FirstIsUnique(keys: seq<PublicKeyRecord>, kid: string, i: nat, j: nat)
    requires FirstUnder(keys, kid, i) && FirstUnder(keys, kid, j)
    ensures i == j
  {
  }

  /** A token verifies exactly when it is signed, and each refusal has its exact cause. */
  lemma TokenVerdictIff(c: Scheme, token: DelegationToken, order: seq<string>, doc: AgentIdentityDocument)
    requires OrderFits(token, order)
    ensures var r := VerifyDelegationTokenSignature(c, token, order, doc);
            var algorithm := token.signatureAlg == "Ed25519";
            (r.Ok? <==> TokenSigned(c, token, order, doc))
            && (r == Err(WrongAlgorithm) <==> !algorithm)
            && (r == Err(UnknownKeyId) <==> algorithm && !KeyListed(doc, token.keyId))
            && (r == Err(UnusableKey) <==> algorithm && KeyListed(doc, token.keyId) && !KeyReady(c, doc, token.keyId))
            && (r == Err(MalformedSignature) <==>
                  algorithm && KeyReady(c, doc, token.keyId) && !UsableSignature(c, token.signature))
            && (r == Err(NotVerified) <==>
                  algorithm && KeyReady(c, doc, token.keyId) && UsableSignature(c, token.signature)
                  && !TokenSigned(c, token, order, doc))
  {
    hide TokenPayload;
    FindKeyFirst(doc.publicKeys, token.keyId);
    var found := FindKey(doc.publicKeys, token.keyId);
    if found.Some? {
      var i :| 0 <= i < |doc.publicKeys| && FirstUnder(doc.publicKeys, token.keyId, i) && doc.publicKeys[i] == found.value;
      MaterialIff(c, found.value, token.signature);
      forall j | 0 <= j < |doc.publicKeys| && FirstUnder(doc.publicKeys, token.keyId, j) ensures j == i {
        FirstIsUnique(doc.publicKeys, token.keyId, i, j);
      }
    }
  }

  /** Verification depends on nothing but what the token says and its signature: neither side's
      hash map order matters. */
  lemma VerificationSeesOnlyTheSigned(c: Scheme, t: DelegationToken, order: seq<string>,
                                      u: DelegationToken, order': seq<string>, doc: AgentIdentityDocument)
    requires Injective(c.fmt) && TokenOrder(t, order) && TokenOrder(u, order')
    requires SameSigned(t, u) && t.signature == u.signature
    ensures VerifyDelegationTokenSignature(c, t, order, doc) == VerifyDelegationTokenSignature(c, u, order', doc)
  {
    TokenPayloadIff(c.fmt, t, order, u, order');
  }

  /** The record a key is published under. */
  function Published(c: Scheme, kid: string, key: SecretKey): PublicKeyRecord {
    PublicKeyRecord(kid, OKP, Some(ED25519), Some(c.encode(c.publicKey(key))))
  }

  /** What a key signed verifies under any document whose first key of that id is the signer's,
      whatever order the signer's and the verifier's maps iterate in. */
  lemma SignedTokenVerifies(c: Scheme, token: DelegationToken, order: seq<string>, order': seq<string>,
                            key: SecretKey, doc: AgentIdentityDocument)
    requires Lawful(c) && TokenOrder(token, order) && TokenOrder(token, order')
    requires token.signatureAlg == ED25519
    requires FindKey(doc.publicKeys, token.keyId) == Some(Published(c, token.keyId, key))
    ensures var signed := token.(signature := SignDelegationToken(c, token, order, key));
            VerifyDelegationTokenSignature(c, signed, order', doc) == Ok(())
  {
    var signed := token.(signature := SignDelegationToken(c, token, order, key));
    TokenPayloadIff(c.fmt, token, order, signed, order');
    var payload := TokenPayload(c.fmt, token, order);
    assert c.decode(c.encode(c.sign(key, payload))) == Some(c.sign(key, payload));
    assert c.decode(c.encode(c.publicKey(key))) == Some(c.publicKey(key));
    assert c.verify(c.publicKey(key), payload, c.sign(key, payload));
  }

  lemma SignedIdentityVerifies(c: Scheme, doc: AgentIdentityDocument, key: SecretKey, i: nat)
    requires Lawful(c) && i < |doc.publicKeys|
    requires exists kid :: doc.publicKeys[i] == Published(c, kid, key)
    ensures IdentitySigned(c, doc.(signature := SignIdentityDocument(c, doc, key)))
  {
    var signed := doc.(signature := SignIdentityDocument(c, doc, key));
    IdentityPayloadIff(c.fmt, doc, signed);
    var payload := IdentityPayload(c.fmt, doc);
    assert c.decode(c.encode(c.sign(key, payload))) == Some(c.sign(key, payload));
    assert c.decode(c.encode(c.publicKey(key))) == Some(c.publicKey(key));
    assert c.verify(c.publicKey(key), payload, c.sign(key, payload));
    assert KeyVerifies(c, signed.publicKeys[i], payload, signed.signature);
  }

  // ---------------------------------------------------------------- the laws can be met

  function VisibleChar(b: byte): char {
    var n: int := b;
    (0x100 + n) as char
  }

  function ByteOf(c: char): byte {
    if 0x100 <= c as int < 0x200 then c as int - 0x100 else 0
  }

  function VisibleText(b: seq<byte>): (s: string)
    ensures |s| == |b| && forall i | 0 <= i < |b| :: s[i] == VisibleChar(b[i])
  {
    seq(|b|, i requires 0 <= i < |b| => VisibleChar(b[i]))
  }

  function BytesOf(s: string): (b: seq<byte>)
    ensures |b| == |s| && forall i | 0 <= i < |s| :: b[i] == ByteOf(s[i])
  {
    seq(|s|, i requires 0 <= i < |s| => ByteOf(s[i]))
  }

  function Padded(b: seq<byte>, n: nat): (r: seq<byte>)
    ensures |r| == n
  {
    if |b| >= n then b[..n] else b + seq(n - |b|, _ => 0)
  }

  /** A scheme of no strength in which a signature is the public key and the message, cut to length. */
  function ToyScheme(): Scheme {
    Scheme(k => Padded(k, 32), (k, m) => Padded(Padded(k, 32) + m, 64), (p, m, s) => s == Padded(p + m, 64),
           _ => true, VisibleText, s => Some(BytesOf(s)), Json.PrintInt)
  }

  /** What is asked of a scheme is not contradictory. */
  lemma ToySchemeIsLawful()
    ensures Lawful(ToyScheme())
  {
    forall b: seq<byte> ensures BytesOf(VisibleText(b)) == b {
    }
    forall b: seq<byte> | b != [] ensures !Blank(VisibleText(b)) {
      BlankIff(VisibleText(b));
      assert VisibleText(b)[0] in VisibleText(b);
    }
    forall m, n | Json.PrintInt(m) == Json.PrintInt(n) ensures m == n {
      Json.IntReadBack(m, "");
      Json.IntReadBack(n, "");
      assert Json.PrintInt(m) + "" == Json.PrintInt(m) && Json.PrintInt(n) + "" == Json.PrintInt(n);
    }
  }
}
