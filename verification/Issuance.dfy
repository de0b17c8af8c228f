/** The three builders (src/issuance.rs), and what the pipeline makes of the requests they assemble. */
module Issuance {
  import opened Wrappers
  import opened Utf8
  import opened Text
  import opened Models
  import opened Payload
  import opened Signatures
  import opened Contracts
  import opened Policy
  import opened Pipeline
  import Json

  datatype IssuanceError<F> = Missing(field: F) | Invalid(field: F)

  function Required<T, F>(o: Option<T>, field: F): Result<T, IssuanceError<F>> {
    if o.None? then Err(Missing(field)) else Ok(o.value)
  }

  // ---------------------------------------------------------------- generated identifiers

  function Suffix(counter: nat, nanos: nat): string {
    Json.PrintNat(counter) + "_" + Json.PrintNat(nanos)
  }

  /** A suffix tells which count it was made of, whatever the system clock said. */
  lemma SuffixTellsItsCount(counter: nat, nanos: nat, counter': nat, nanos': nat)
    requires Suffix(counter, nanos) == Suffix(counter', nanos')
    ensures counter == counter' && nanos == nanos'
  {
    var rest, rest' := "_" + Json.PrintNat(nanos), "_" + Json.PrintNat(nanos');
    assert Suffix(counter, nanos) == Json.PrintNat(counter) + rest;
    assert Suffix(counter', nanos') == Json.PrintNat(counter') + rest';
    Json.DigitsReadBack(counter, rest);
    Json.DigitsReadBack(counter', rest');
    assert rest[1..] == Json.PrintNat(nanos) + "" && rest'[1..] == Json.PrintNat(nanos') + "";
    Json.DigitsReadBack(nanos, "");
    Json.DigitsReadBack(nanos', "");
  }

  const COUNTER_RANGE: nat := 0x1_0000_0000_0000_0000

  /** The process-wide counter, an atomic `u64`. */
  class IssuanceCounter {
    var next: nat

    ghost predicate Valid()
      reads this
    {
      next < COUNTER_RANGE
    }

    constructor ()
      ensures Valid() && next == 1
    {
      next := 1;
    }

    method UniqueSuffix(nanos: nat) returns (suffix: string)
      requires Valid()
      modifies this
      ensures Valid() && next == (old(next) + 1) % 18_446_744_073_709_551_616
      ensures suffix == Suffix(old(next), nanos)
    {
      suffix := Suffix(next, nanos);
      next := (next + 1) % COUNTER_RANGE;
    }
  }

  // ---------------------------------------------------------------- delegation tokens

  datatype TokenDraft = TokenDraft(
    tokenId: Option<string>,
    issuer: Option<string>,
    agentId: Option<string>,
    delegatorId: Option<string>,
    ownerId: Option<string>,
    audience: seq<string>,
    allowedActions: seq<string>,
    resourceConstraints: Option<ResourceConstraints>,
    maxSpend: Option<MaxSpend>,
    maxDelegationDepth: Option<u16>,
    issuedAt: Option<Time>,
    expiresAt: Option<Time>,
    expiresIn: Option<int>,
    intent: Option<string>,
    nonce: Option<string>,
    keyId: Option<string>)

  /** An explicit expiry wins over a relative one. */
  function Expiry(at: Option<Time>, within: Option<int>, start: Time): Option<Time> {
    if at.Some? then at else if within.Some? then Some(start + within.value) else None
  }

  /** What a token builder looks at, in that order. */
  datatype TokenField = Issuer | AgentId | DelegatorId | OwnerId | KeyId | Audience | AllowedActions | ExpiresAtOrExpiresIn | ExpiresAt
  {
    function Rank(): nat {
      match this
      case Issuer => 0 case AgentId => 1 case DelegatorId => 2 case OwnerId => 3 case KeyId => 4
      case Audience => 5 case AllowedActions => 6 case ExpiresAtOrExpiresIn => 7 case ExpiresAt => 8
    }

    predicate In(d: TokenDraft, clock: Time) {
      match this
      case Issuer => d.issuer.Some?
      case AgentId => d.agentId.Some?
      case DelegatorId => d.delegatorId.Some?
      case OwnerId => d.ownerId.Some?
      case KeyId => d.keyId.Some?
      case Audience => d.audience != []
      case AllowedActions => d.allowedActions != []
      case ExpiresAtOrExpiresIn => d.expiresAt.Some? || d.expiresIn.Some?
      case ExpiresAt =>
        if d.expiresAt.Some? then d.expiresAt.value > d.issuedAt.UnwrapOr(clock) else d.expiresIn.Some? && d.expiresIn.value > 0
    }

    function Complaint(): IssuanceError<TokenField> {
      if Audience? || AllowedActions? || ExpiresAt? then Invalid(this) else Missing(this)
    }
  }

  /** The token says what the draft says, with what is left open filled in; an explicit expiry wins
      over a lifetime. */
  predicate TokenFits(d: TokenDraft, clock: Time, suffix: string, t: DelegationToken) {
    (t.specVersion, t.kind, t.signatureAlg) == ("0.1", "DelegationToken", "Ed25519")
    && Some(t.issuer) == d.issuer && Some(t.agentId) == d.agentId && Some(t.delegatorId) == d.delegatorId
    && Some(t.ownerId) == d.ownerId && Some(t.keyId) == d.keyId
    && (t.audience, t.allowedActions) == (d.audience, d.allowedActions)
    && (t.resourceConstraints, t.maxSpend, t.maxDelegationDepth) == (d.resourceConstraints, d.maxSpend, d.maxDelegationDepth)
    && t.intent == d.intent
    && t.issuedAt == d.issuedAt.UnwrapOr(clock)
    && (if d.expiresAt.Some? then t.expiresAt == d.expiresAt.value else d.expiresIn == Some(t.expiresAt - t.issuedAt))
    && t.issuedAt < t.expiresAt && t.audience != [] && t.allowedActions != []
    && t.tokenId == d.tokenId.UnwrapOr("dlg_" + suffix) && t.nonce == d.nonce.UnwrapOr("nonce_" + suffix)
  }

  /** The token fits the draft and carries the key's signature over itself. */
  predicate TokenIssued(c: Scheme, d: TokenDraft, key: SecretKey, order: seq<string>, clock: Time, suffix: string, t: DelegationToken) {
    TokenFits(d, clock, suffix, t) && OrderFits(t, order) && t.signature == SignDelegationToken(c, t, order, key)
  }

  lemma TokenSignatureIsNotSigned(c: Scheme, t: DelegationToken, signature: string, order: seq<string>, key: SecretKey)
    requires OrderFits(t, order)
    ensures SignDelegationToken(c, t.(signature := signature), order, key) == SignDelegationToken(c, t, order, key)
  {
  }

  class DelegationTokenBuilder {
    /** Written directly by the setters of one field each. */
    var draft: TokenDraft

    constructor ()
      ensures draft == TokenDraft(None, None, None, None, None, [], [], None, None, None, None, None, None, None, None, None)
    {
      draft := TokenDraft(None, None, None, None, None, [], [], None, None, None, None, None, None, None, None, None);
    }

    method Audience(audience: string)
      modifies this
      ensures draft == old(draft).(audience := old(draft).audience + [audience])
    {
      draft := draft.(audience := draft.audience + [audience]);
    }

    method Audiences(audiences: seq<string>)
      modifies this
      ensures draft == old(draft).(audience := old(draft).audience + audiences)
    {
      draft := draft.(audience := draft.audience + audiences);
    }

    method AllowedAction(action: string)
      modifies this
      ensures draft == old(draft).(allowedActions := old(draft).allowedActions + [action])
    {
      draft := draft.(allowedActions := draft.allowedActions + [action]);
    }

    method AllowedActions(actions: seq<string>)
      modifies this
      ensures draft == old(draft).(allowedActions := old(draft).allowedActions + actions)
    {
      draft := draft.(allowedActions := draft.allowedActions + actions);
    }

    /** Issues exactly when every requirement is met, and otherwise says which was the first not
        to be; only an issued token uses up a count. */
    method BuildAndSign(c: Scheme, key: SecretKey, order: seq<string>, clock: Time, ids: IssuanceCounter, nanos: nat)
      returns (r: Result<DelegationToken, IssuanceError<TokenField>>)
      requires draft.resourceConstraints.Some? ==> forall k | k in order :: k in draft.resourceConstraints.value.extra
      requires ids.Valid()
      modifies ids
      ensures ids.Valid()
      ensures r.Err? ==> r.error == r.error.field.Complaint() && !r.error.field.In(draft, clock)
                         && (forall f: TokenField | f.Rank() < r.error.field.Rank() :: f.In(draft, clock))
                         && ids.next == old(ids.next)
      ensures r.Ok? ==> (forall f: TokenField :: f.In(draft, clock))
                        && TokenIssued(c, draft, key, order, clock, Suffix(old(ids.next), nanos), r.value)
                        && ids.next == (old(ids.next) + 1) % COUNTER_RANGE
    {
      hide SignDelegationToken;
      var issuer :- Required(draft.issuer, TokenField.Issuer);
      var agentId :- Required(draft.agentId, TokenField.AgentId);
      var delegatorId :- Required(draft.delegatorId, TokenField.DelegatorId);
      var ownerId :- Required(draft.ownerId, TokenField.OwnerId);
      var keyId :- Required(draft.keyId, TokenField.KeyId);
      if draft.audience == [] {
        return Err(Invalid(TokenField.Audience));
      }
      if draft.allowedActions == [] {
        return Err(Invalid(TokenField.AllowedActions));
      }
      var issuedAt := draft.issuedAt.UnwrapOr(clock);
      var expiresAt :- Required(Expiry(draft.expiresAt, draft.expiresIn, issuedAt), TokenField.ExpiresAtOrExpiresIn);
      if expiresAt <= issuedAt {
        return Err(Invalid(TokenField.ExpiresAt));
      }
      var suffix := ids.UniqueSuffix(nanos);
      var token := DelegationToken(
        SPEC_VERSION_CURRENT, KIND_DELEGATION_TOKEN, draft.tokenId.UnwrapOr("dlg_" + suffix), issuer, agentId, delegatorId,
        ownerId, draft.audience, draft.allowedActions, draft.resourceConstraints, draft.maxSpend, draft.maxDelegationDepth,
        issuedAt, expiresAt, draft.intent, draft.nonce.UnwrapOr("nonce_" + suffix), keyId, ED25519, "");
      TokenSignatureIsNotSigned(c, token, SignDelegationToken(c, token, order, key), order, key);
      token := token.(signature := SignDelegationToken(c, token, order, key));
      return Ok(token);
    }
  }

  // ---------------------------------------------------------------- identity documents

  datatype IdentityDraft = IdentityDraft(
    agentId: Option<string>,
    displayName: Option<string>,
    ownerId: Option<string>,
    issuer: Option<string>,
    identityType: Option<string>,
    subject: Option<string>,
    keyId: Option<string>,
    additionalPublicKeys: seq<PublicKeyRecord>,
    supportedProtocols: seq<string>,
    supportedAuthMethods: seq<string>,
    capabilities: Option<seq<string>>,
    endpoints: seq<AgentEndpoint>,
    createdAt: Option<Time>,
    expiresAt: Option<Time>,
    expiresIn: Option<int>)

  const DEFAULT_DOCUMENT_LIFETIME: int := 7 * 24 * 3600 * SECOND

  function DocumentExpiry(d: IdentityDraft, start: Time): Time {
    Expiry(d.expiresAt, d.expiresIn, start).UnwrapOr(start + DEFAULT_DOCUMENT_LIFETIME)
  }

  /** What a document builder looks at, in that order. */
  datatype DocumentField = AgentId | OwnerId | Issuer | IdentityType | Subject | KeyId | ExpiresAt
    | SupportedProtocols | SupportedAuthMethods | Endpoints
  {
    function Rank(): nat {
      match this
      case AgentId => 0 case OwnerId => 1 case Issuer => 2 case IdentityType => 3 case Subject => 4 case KeyId => 5
      case ExpiresAt => 6 case SupportedProtocols => 7 case SupportedAuthMethods => 8 case Endpoints => 9
    }

    predicate In(d: IdentityDraft, clock: Time) {
      match this
      case AgentId => d.agentId.Some?
      case OwnerId => d.ownerId.Some?
      case Issuer => d.issuer.Some?
      case IdentityType => d.identityType.Some?
      case Subject => d.subject.Some?
      case KeyId => d.keyId.Some?
      case ExpiresAt =>
        if d.expiresAt.Some? then d.expiresAt.value > d.createdAt.UnwrapOr(clock) else d.expiresIn.Some? ==> d.expiresIn.value > 0
      case SupportedProtocols => d.supportedProtocols != []
      case SupportedAuthMethods => d.supportedAuthMethods != []
      case Endpoints => d.endpoints != []
    }

    function Complaint(): IssuanceError<DocumentField> {
      if ExpiresAt? then Invalid(this) else Missing(this)
    }
  }

  function KeyRecord(c: Scheme, kid: string, key: seq<byte>): PublicKeyRecord {
    PublicKeyRecord(kid, OKP, Some(ED25519), Some(c.encode(key)))
  }

  /** The document says what the draft says; without an expiry or a lifetime it lives seven days. */
  predicate DocumentFits(c: Scheme, d: IdentityDraft, key: SecretKey, clock: Time, doc: AgentIdentityDocument) {
    (doc.specVersion, doc.kind) == ("0.1", "AgentIdentityDocument")
    && Some(doc.agentId) == d.agentId && doc.displayName == d.displayName && Some(doc.ownerId) == d.ownerId
    && Some(doc.issuer) == d.issuer && Some(doc.identityType) == d.identityType && Some(doc.subject) == d.subject
    && d.keyId.Some? && doc.publicKeys == [Published(c, d.keyId.value, key)] + d.additionalPublicKeys
    && (doc.supportedProtocols, doc.supportedAuthMethods) == (d.supportedProtocols, d.supportedAuthMethods)
    && (doc.capabilities, doc.endpoints, doc.attestation) == (d.capabilities, d.endpoints, None)
    && doc.createdAt == d.createdAt.UnwrapOr(clock)
    && (if d.expiresAt.Some? then doc.expiresAt == d.expiresAt.value
        else doc.expiresAt - doc.createdAt == d.expiresIn.UnwrapOr(604_800_000_000_000))
    && doc.createdAt < doc.expiresAt && doc.supportedProtocols != [] && doc.supportedAuthMethods != [] && doc.endpoints != []
  }

  /** The document fits the draft and carries the key's signature over itself. */
  predicate DocumentIssued(c: Scheme, d: IdentityDraft, key: SecretKey, clock: Time, doc: AgentIdentityDocument) {
    DocumentFits(c, d, key, clock, doc) && doc.signature == SignIdentityDocument(c, doc, key)
  }

  lemma DocumentSignatureIsNotSigned(c: Scheme, doc: AgentIdentityDocument, signature: string, key: SecretKey)
    ensures SignIdentityDocument(c, doc.(signature := signature), key) == SignIdentityDocument(c, doc, key)
  {
  }

  class AgentIdentityDocumentBuilder {
    /** Written directly by the setters of one field each. */
    var draft: IdentityDraft

    /** All added keys are records of Ed25519 keys. */
    ghost predicate Valid(c: Scheme)
      reads this
    {
      forall k | k in draft.additionalPublicKeys :: RecordsKey(c, k)
    }

    constructor (ghost c: Scheme)
      ensures Valid(c)
      ensures draft == IdentityDraft(None, None, None, None, None, None, None, [], [], [], None, [], None, None, None)
    {
      draft := IdentityDraft(None, None, None, None, None, None, None, [], [], [], None, [], None, None, None);
    }

    method AdditionalPublicKey(c: Scheme, kid: string, key: seq<byte>)
      requires Valid(c) && |key| == 32
      modifies this
      ensures Valid(c)
      ensures draft == old(draft).(additionalPublicKeys := old(draft).additionalPublicKeys + [KeyRecord(c, kid, key)])
    {
      assert RecordsKey(c, KeyRecord(c, kid, key)) by {
        assert |key| == 32 && KeyRecord(c, kid, key) == KeyRecord(c, KeyRecord(c, kid, key).kid, key);
      }
      draft := draft.(additionalPublicKeys := draft.additionalPublicKeys + [KeyRecord(c, kid, key)]);
    }

    method SupportedProtocol(protocol: string)
      modifies this
      ensures draft == old(draft).(supportedProtocols := old(draft).supportedProtocols + [protocol])
    {
      draft := draft.(supportedProtocols := draft.supportedProtocols + [protocol]);
    }

    method SupportedAuthMethod(authMethod: string)
      modifies this
      ensures draft == old(draft).(supportedAuthMethods := old(draft).supportedAuthMethods + [authMethod])
    {
      draft := draft.(supportedAuthMethods := draft.supportedAuthMethods + [authMethod]);
    }

    method Capability(capability: string)
      modifies this
      ensures draft == old(draft).(capabilities := Some(old(draft).capabilities.UnwrapOr([]) + [capability]))
    {
      draft := draft.(capabilities := Some(draft.capabilities.UnwrapOr([]) + [capability]));
    }

    method Endpoint(protocol: string, url: string)
      modifies this
      ensures draft == old(draft).(endpoints := old(draft).endpoints + [AgentEndpoint(protocol, url)])
    {
      draft := draft.(endpoints := draft.endpoints + [AgentEndpoint(protocol, url)]);
    }

    method BuildAndSign(c: Scheme, key: SecretKey, clock: Time) returns (r: Result<AgentIdentityDocument, IssuanceError<DocumentField>>)
      ensures r.Ok? ==> (forall f: DocumentField :: f.In(draft, clock)) && DocumentIssued(c, draft, key, clock, r.value)
      ensures r.Err? ==> r.error == r.error.field.Complaint() && !r.error.field.In(draft, clock)
                         && (forall f: DocumentField | f.Rank() < r.error.field.Rank() :: f.In(draft, clock))
    {
      hide SignIdentityDocument;
      var agentId :- Required(draft.agentId, DocumentField.AgentId);
      var ownerId :- Required(draft.ownerId, DocumentField.OwnerId);
      var issuer :- Required(draft.issuer, DocumentField.Issuer);
      var identityType :- Required(draft.identityType, DocumentField.IdentityType);
      var subject :- Required(draft.subject, DocumentField.Subject);
      var keyId :- Required(draft.keyId, DocumentField.KeyId);
      var createdAt := draft.createdAt.UnwrapOr(clock);
      var expiresAt := DocumentExpiry(draft, createdAt);
      if expiresAt <= createdAt {
        return Err(Invalid(DocumentField.ExpiresAt));
      }
      if draft.supportedProtocols == [] {
        return Err(Missing(DocumentField.SupportedProtocols));
      }
      if draft.supportedAuthMethods == [] {
        return Err(Missing(DocumentField.SupportedAuthMethods));
      }
      if draft.endpoints == [] {
        return Err(Missing(DocumentField.Endpoints));
      }
      var publicKeys := [KeyRecord(c, keyId, c.publicKey(key))];
      publicKeys := publicKeys + draft.additionalPublicKeys;
      var doc := AgentIdentityDocument(
        SPEC_VERSION_CURRENT, KIND_AGENT_IDENTITY_DOCUMENT, agentId, draft.displayName, ownerId, issuer, identityType, subject,
        publicKeys, draft.supportedProtocols, draft.supportedAuthMethods, draft.capabilities, draft.endpoints, None,
        createdAt, expiresAt, "");
      DocumentSignatureIsNotSigned(c, doc, SignIdentityDocument(c, doc, key), key);
      doc := doc.(signature := SignIdentityDocument(c, doc, key));
      return Ok(doc);
    }
  }

  ghost predicate RecordsKey(c: Scheme, r: PublicKeyRecord) {
    exists key: seq<byte> :: |key| == 32 && r == KeyRecord(c, r.kid, key)
  }

  // ---------------------------------------------------------------- envelopes

  datatype EnvelopeDraft = EnvelopeDraft(
    requestId: Option<string>,
    profile: Option<TrustProfile>,
    agentId: Option<string>,
    delegatorId: Option<string>,
    audience: Option<string>,
    action: Option<string>,
    resource: Option<string>,
    runtimeContext: Option<RuntimeContext>,
    identityDocument: Option<AgentIdentityDocument>,
    token: Option<DelegationToken>)

  const NO_RUNTIME_CONTEXT: RuntimeContext := RuntimeContext(None, None, None, None)

  /** What an envelope builder looks at, in that order. */
  datatype EnvelopeField = IdentityDocument | Token | Audience | Action
  {
    function Rank(): nat {
      match this
      case IdentityDocument => 0 case Token => 1 case Audience => 2 case Action => 3
    }

    predicate In(d: EnvelopeDraft) {
      match this
      case IdentityDocument => d.identityDocument.Some?
      case Token => d.token.Some?
      case Audience => d.audience.Some?
      case Action => d.action.Some?
    }
  }

  /** Who asks defaults to whom the token was issued to and by. */
  predicate EnvelopeFits(d: EnvelopeDraft, suffix: string, e: RequestEnvelope) {
    (e.specVersion, e.kind) == ("0.1", "TrustRequestEnvelope")
    && e.requestId == Some(d.requestId.UnwrapOr("req_" + suffix)) && e.profile == d.profile.UnwrapOr(Developer)
    && d.token == Some(e.token) && d.identityDocument.Some? && e.identityDocument == d.identityDocument
    && e.agentId == d.agentId.UnwrapOr(e.token.agentId) && e.delegatorId == d.delegatorId.UnwrapOr(e.token.delegatorId)
    && Some(e.audience) == d.audience && Some(e.action) == d.action && e.resource == d.resource
    && e.runtimeContext == d.runtimeContext.UnwrapOr(RuntimeContext(None, None, None, None))
  }

  class RequestEnvelopeBuilder {
    /** Written directly by the setters, of one field each. */
    var draft: EnvelopeDraft

    constructor ()
      ensures draft == EnvelopeDraft(None, None, None, None, None, None, None, None, None, None)
    {
      draft := EnvelopeDraft(None, None, None, None, None, None, None, None, None, None);
    }

    /** A count is used up only to name a request that has no identifier. */
    method Build(ids: IssuanceCounter, nanos: nat) returns (r: Result<RequestEnvelope, IssuanceError<EnvelopeField>>)
      requires ids.Valid()
      modifies ids
      ensures ids.Valid()
      ensures r.Ok? ==> (forall f: EnvelopeField :: f.In(draft)) && EnvelopeFits(draft, Suffix(old(ids.next), nanos), r.value)
      ensures r.Err? ==> r.error == Missing(r.error.field) && !r.error.field.In(draft)
                         && forall f: EnvelopeField | f.Rank() < r.error.field.Rank() :: f.In(draft)
      ensures ids.next == if r.Ok? && draft.requestId.None? then (old(ids.next) + 1) % COUNTER_RANGE else old(ids.next)
    {
      var doc :- Required(draft.identityDocument, EnvelopeField.IdentityDocument);
      var token :- Required(draft.token, EnvelopeField.Token);
      var audience :- Required(draft.audience, EnvelopeField.Audience);
      var action :- Required(draft.action, EnvelopeField.Action);
      var requestId := draft.requestId;
      if requestId.None? {
        var suffix := ids.UniqueSuffix(nanos);
        requestId := Some("req_" + suffix);
      }
      return Ok(RequestEnvelope(
        SPEC_VERSION_CURRENT, KIND_TRUST_REQUEST_ENVELOPE, requestId, draft.profile.UnwrapOr(Developer),
        draft.agentId.UnwrapOr(token.agentId), draft.delegatorId.UnwrapOr(token.delegatorId), audience, action,
        draft.resource, draft.runtimeContext.UnwrapOr(NO_RUNTIME_CONTEXT), Some(doc), token));
    }
  }

  // ---------------------------------------------------------------- issued requests at the pipeline

  /** Generated token ids and nonces never repeat while the counter has not wrapped: two tokens that
      left both open and drew different counts share neither. */
  lemma GeneratedIdentifiersDiffer(d: TokenDraft, clock: Time, counter: nat, nanos: nat, t: DelegationToken,
                                   d': TokenDraft, clock': Time, counter': nat, nanos': nat, t': DelegationToken)
    requires TokenFits(d, clock, Suffix(counter, nanos), t) && TokenFits(d', clock', Suffix(counter', nanos'), t')
    requires d.tokenId.None? && d.nonce.None? && d'.tokenId.None? && d'.nonce.None? && counter != counter'
    ensures t.tokenId != t'.tokenId && t.nonce != t'.nonce
  {
    var s, s' := Suffix(counter, nanos), Suffix(counter', nanos');
    assert ("dlg_" + s)[4..] == s && ("dlg_" + s')[4..] == s';
    assert ("nonce_" + s)[6..] == s && ("nonce_" + s')[6..] == s';
    if s == s' {
      SuffixTellsItsCount(counter, nanos, counter', nanos');
    }
  }

  /** The contract checks the builders leave to their callers: nothing given is blank. */
  predicate TokenFilled(d: TokenDraft) {
    NonEmptyIfPresent(d.tokenId) && NonEmptyIfPresent(d.issuer) && NonEmptyIfPresent(d.agentId)
    && NonEmptyIfPresent(d.delegatorId) && NonEmptyIfPresent(d.ownerId) && NonEmptyIfPresent(d.nonce)
    && NonEmptyIfPresent(d.keyId) && NonEmptyIfPresent(d.intent)
    && (forall a | a in d.audience :: NonEmpty(a)) && (forall a | a in d.allowedActions :: NonEmpty(a))
    && (d.resourceConstraints.Some? ==> ValidConstraints(d.resourceConstraints.value))
    && (d.maxSpend.Some? ==> NonEmpty(d.maxSpend.value.currency))
  }

  predicate DocumentFilled(d: IdentityDraft) {
    NonEmptyIfPresent(d.agentId) && NonEmptyIfPresent(d.displayName) && NonEmptyIfPresent(d.ownerId)
    && NonEmptyIfPresent(d.issuer) && NonEmptyIfPresent(d.identityType) && NonEmptyIfPresent(d.subject)
    && NonEmptyIfPresent(d.keyId) && (forall k | k in d.additionalPublicKeys :: NonEmpty(k.kid))
    && (forall p | p in d.supportedProtocols :: NonEmpty(p)) && (forall a | a in d.supportedAuthMethods :: NonEmpty(a))
    && (forall e | e in d.endpoints :: NonEmpty(e.protocol) && NonEmpty(e.url))
  }

  predicate EnvelopeFilled(d: EnvelopeDraft) {
    NonEmptyIfPresent(d.requestId) && NonEmptyIfPresent(d.agentId) && NonEmptyIfPresent(d.delegatorId)
    && NonEmptyIfPresent(d.audience) && NonEmptyIfPresent(d.action) && NonEmptyIfPresent(d.resource)
    && (d.runtimeContext.Some? ==> ValidRuntimeContext(d.runtimeContext.value))
  }

  lemma PrefixedIsNotBlank(c: char, s: string)
    requires !IsWhitespace(c)
    ensures !Blank([c] + s)
  {
    BlankIff([c] + s);
    assert c in [c] + s;
  }

  lemma GeneratedAreNotBlank(suffix: string)
    ensures NonEmpty("dlg_" + suffix) && NonEmpty("nonce_" + suffix) && NonEmpty("req_" + suffix)
  {
    assert "dlg_" + suffix == ['d'] + ("lg_" + suffix);
    assert "nonce_" + suffix == ['n'] + ("once_" + suffix);
    assert "req_" + suffix == ['r'] + ("eq_" + suffix);
    PrefixedIsNotBlank('d', "lg_" + suffix);
    PrefixedIsNotBlank('n', "once_" + suffix);
    PrefixedIsNotBlank('r', "eq_" + suffix);
  }

  lemma KnownTextsAreNotBlank()
    ensures NonEmpty(SPEC_VERSION_CURRENT) && NonEmpty(KIND_DELEGATION_TOKEN) && NonEmpty(KIND_AGENT_IDENTITY_DOCUMENT)
    ensures NonEmpty(KIND_TRUST_REQUEST_ENVELOPE) && NonEmpty(ED25519) && NonEmpty(OKP)
  {
    TrimKeeps(SPEC_VERSION_CURRENT);
    TrimKeeps(KIND_DELEGATION_TOKEN);
    TrimKeeps(KIND_AGENT_IDENTITY_DOCUMENT);
    TrimKeeps(KIND_TRUST_REQUEST_ENVELOPE);
    TrimKeeps(ED25519);
    TrimKeeps(OKP);
  }

  /** An issued token meets the contract exactly when its draft left nothing blank. */
  lemma TokenContractIff(c: Scheme, d: TokenDraft, key: SecretKey, order: seq<string>, clock: Time, suffix: string, t: DelegationToken)
    requires Lawful(c) && TokenIssued(c, d, key, order, clock, suffix, t)
    ensures ValidDelegationToken(t) <==> TokenFilled(d)
  {
    hide Blank, TokenPayload;
    GeneratedAreNotBlank(suffix);
    KnownTextsAreNotBlank();
    var signature := c.sign(key, TokenPayload(c.fmt, t, order));
    assert |signature| == 64 && NonEmpty(c.encode(signature));
  }

  lemma PublishedIsValid(c: Scheme, kid: string, key: seq<byte>)
    requires Lawful(c) && |key| == 32
    ensures ValidPublicKey(KeyRecord(c, kid, key)) <==> NonEmpty(kid)
  {
    hide Blank;
    KnownTextsAreNotBlank();
    assert NonEmpty(c.encode(key));
  }

  lemma DocumentContractIff(c: Scheme, d: IdentityDraft, key: SecretKey, clock: Time, doc: AgentIdentityDocument)
    requires Lawful(c) && DocumentIssued(c, d, key, clock, doc)
    requires forall k | k in d.additionalPublicKeys :: RecordsKey(c, k)
    ensures ValidIdentityDocument(doc) <==> DocumentFilled(d)
  {
    hide Blank, IdentityPayload, ValidPublicKey;
    KnownTextsAreNotBlank();
    var signature := c.sign(key, IdentityPayload(c.fmt, doc));
    assert |signature| == 64 && NonEmpty(c.encode(signature));
    var own := Published(c, d.keyId.value, key);
    assert own == KeyRecord(c, d.keyId.value, c.publicKey(key));
    PublishedIsValid(c, d.keyId.value, c.publicKey(key));
    forall k | k in d.additionalPublicKeys ensures ValidPublicKey(k) <==> NonEmpty(k.kid) {
      var bytes: seq<byte> :| |bytes| == 32 && k == KeyRecord(c, k.kid, bytes);
      PublishedIsValid(c, k.kid, bytes);
    }
    assert own in doc.publicKeys;
    assert forall k :: k in doc.publicKeys <==> k == own || k in d.additionalPublicKeys;
  }

  lemma EnvelopeContractIff(d: EnvelopeDraft, suffix: string, e: RequestEnvelope)
    requires EnvelopeFits(d, suffix, e)
    ensures ValidRequest(e) <==>
              EnvelopeFilled(d) && ValidDelegationToken(e.token)
              && ValidIdentityDocument(e.identityDocument.value) && e.identityDocument.value.agentId == e.agentId
  {
    hide Blank, ValidIdentityDocument;
    GeneratedAreNotBlank(suffix);
    KnownTextsAreNotBlank();
  }

  datatype Drafts = Drafts(token: TokenDraft, document: IdentityDraft, envelope: EnvelopeDraft)

  datatype Keys = Keys(token: SecretKey, document: SecretKey)

  ghost predicate TokenFrom(c: Scheme, d: TokenDraft, key: SecretKey, t: DelegationToken) {
    exists order, clock, suffix :: TokenOrder(t, order) && TokenIssued(c, d, key, order, clock, suffix, t)
  }

  ghost predicate DocumentFrom(c: Scheme, d: IdentityDraft, key: SecretKey, doc: AgentIdentityDocument) {
    (forall k | k in d.additionalPublicKeys :: RecordsKey(c, k)) && exists clock :: DocumentIssued(c, d, key, clock, doc)
  }

  /** An envelope the three builders made. */
  ghost predicate Issued(c: Scheme, d: Drafts, keys: Keys, e: RequestEnvelope) {
    e.identityDocument.Some? && TokenFrom(c, d.token, keys.token, e.token)
    && DocumentFrom(c, d.document, keys.document, e.identityDocument.value)
    && exists suffix :: EnvelopeFits(d.envelope, suffix, e)
  }

  predicate Filled(d: Drafts) {
    TokenFilled(d.token) && DocumentFilled(d.document) && EnvelopeFilled(d.envelope)
  }

  /** The parts speak of one agent, owner, issuer and delegator, and the audience is the token's. */
  predicate Coherent(e: RequestEnvelope)
    requires e.identityDocument.Some?
  {
    var doc := e.identityDocument.value;
    (doc.issuer, doc.agentId, doc.ownerId) == (e.token.issuer, e.token.agentId, e.token.ownerId)
    && (e.agentId, e.delegatorId) == (e.token.agentId, e.token.delegatorId) && e.audience in e.token.audience
  }

  /** What time, profile, store and policy have to say. */
  ghost predicate Acceptable(x: Setting, e: RequestEnvelope, store: Store, clock: Time)
    requires e.identityDocument.Some?
  {
    ProfileMet(e)
    && x.now < e.identityDocument.value.expiresAt + x.host.clockLeewaySecs * 1_000_000_000
    && e.token.issuedAt - x.host.clockLeewaySecs * 1_000_000_000 <= x.now
    && x.now < e.token.expiresAt + x.host.clockLeewaySecs * 1_000_000_000
    && Unbarred(store, e, clock) && Fresh(store, e.token, clock) && DepthAllowed(x, e.token)
    && AllPassed(x.policy(ApplyActionAliases(e, x.host), x.host))
  }

  lemma IssuedContractIff(c: Scheme, d: Drafts, keys: Keys, e: RequestEnvelope)
    requires Lawful(c) && Issued(c, d, keys, e)
    ensures ValidRequest(e) <==> Filled(d) && e.identityDocument.value.agentId == e.agentId
  {
    hide Blank, TokenIssued, DocumentIssued, EnvelopeFilled, ValidIdentityDocument, DocumentFilled, TokenFilled, Lawful, RecordsKey;
    var order, tokenClock, tokenSuffix :| TokenOrder(e.token, order)
      && TokenIssued(c, d.token, keys.token, order, tokenClock, tokenSuffix, e.token);
    TokenContractIff(c, d.token, keys.token, order, tokenClock, tokenSuffix, e.token);
    var documentClock :| DocumentIssued(c, d.document, keys.document, documentClock, e.identityDocument.value);
    DocumentContractIff(c, d.document, keys.document, documentClock, e.identityDocument.value);
    var suffix :| EnvelopeFits(d.envelope, suffix, e);
    EnvelopeContractIff(d.envelope, suffix, e);
  }

  lemma IssuedVerifies(x: Setting, d: Drafts, keys: Keys, e: RequestEnvelope)
    requires Lawful(x.scheme) && Issued(x.scheme, d, keys, e) && TokenOrder(e.token, x.order)
    requires FindKey(e.identityDocument.value.publicKeys, e.token.keyId) == Some(Published(x.scheme, e.token.keyId, keys.token))
    ensures IdentitySigned(x.scheme, e.identityDocument.value)
    ensures TokenSigned(x.scheme, e.token, x.order, e.identityDocument.value)
  {
    hide VerifyDelegationTokenSignature, TokenSigned, IdentitySigned, SignDelegationToken, SignIdentityDocument, Lawful, TokenOrder;
    var doc := e.identityDocument.value;
    var order, tokenClock, tokenSuffix :| TokenOrder(e.token, order)
      && TokenIssued(x.scheme, d.token, keys.token, order, tokenClock, tokenSuffix, e.token);
    SignedTokenVerifies(x.scheme, e.token, order, x.order, keys.token, doc);
    assert e.token == e.token.(signature := SignDelegationToken(x.scheme, e.token, order, keys.token));
    TokenVerdictIff(x.scheme, e.token, x.order, doc);
    var documentClock :| DocumentIssued(x.scheme, d.document, keys.document, documentClock, doc);
    assert doc.publicKeys[0] == Published(x.scheme, d.document.keyId.value, keys.document);
    SignedIdentityVerifies(x.scheme, doc, keys.document, 0);
    assert doc == doc.(signature := SignIdentityDocument(x.scheme, doc, keys.document));
  }

  /** An envelope the builders made is allowed exactly when nothing given to them was blank, its
      parts agree, and time, profile, store and policy accept it; signatures never stand in the
      way, provided the token's key is the one its document publishes first under that id. */
  lemma IssuedRequestAllowedIff(x: Setting, raw: RawRequest, store: Store, clock: Time, d: Drafts, keys: Keys)
    requires Lawful(x.scheme) && raw.parsed.Some?
    requires var e := raw.parsed.value;
             Issued(x.scheme, d, keys, e) && TokenOrder(e.token, x.order)
             && FindKey(e.identityDocument.value.publicKeys, e.token.keyId) == Some(Published(x.scheme, e.token.keyId, keys.token))
    ensures Evaluate(x, raw, store, clock).1.Ok?
            <==> Filled(d) && Coherent(raw.parsed.value) && Acceptable(x, raw.parsed.value, store, clock)
  {
    hide Evaluate, ValidRequest, Filled, TokenFrom, DocumentFrom, EnvelopeFits, Lawful;
    hide IdentitySigned, TokenSigned, Fresh;
    var e := raw.parsed.value;
    AllowedIff(x, raw, store, clock);
    AllStages(DemandsOf(x, raw, store, clock));
    assert forall stage :: DemandsOf(x, raw, store, clock)(stage) == Demands(stage, x, raw, store, clock);
    IssuedContractIff(x.scheme, d, keys, e);
    IssuedVerifies(x, d, keys, e);
    var doc, aliased := e.identityDocument.value, ApplyActionAliases(e, x.host);
    assert aliased == e.(action := aliased.action);
    assert Demands(NormalizeRequest, x, raw, store, clock) <==> Filled(d) && doc.agentId == e.agentId;
    assert Demands(VerifySignatures, x, raw, store, clock)
           <==> (doc.issuer, doc.agentId, doc.ownerId) == (e.token.issuer, e.token.agentId, e.token.ownerId);
    assert Demands(EnforceRevocationAndRedelegation, x, raw, store, clock)
           <==> Unbarred(store, e, clock) && Fresh(store, e.token, clock) && DepthAllowed(x, e.token);
    assert Demands(EvaluatePolicy, x, raw, store, clock) <==> AllPassed(x.policy(aliased, x.host));
  }

  lemma AllStages(demands: Stage -> bool)
    ensures (forall stage :: demands(stage))
            <==> demands(NormalizeRequest) && demands(ValidateProfileCompatibility) && demands(VerifySignatures)
                 && demands(ValidateIdentityDocumentLifetime) && demands(EnforceRevocationAndRedelegation)
                 && demands(ValidateTokenLifetime) && demands(ValidateTokenBinding) && demands(EvaluatePolicy)
  {
    FirstUnmetFailsFirst(demands);
  }
}
