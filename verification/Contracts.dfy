/** The request contract and the trust profiles (src/contracts.rs, src/profiles.rs). */
module Contracts {
  import opened Wrappers
  import opened Text
  import opened Models
  import opened Signatures

  const SPEC_VERSION_CURRENT: string := "0.1"
  const SUPPORTED_SPEC_VERSIONS: seq<string> := [SPEC_VERSION_CURRENT]
  const KIND_TRUST_REQUEST_ENVELOPE: string := "TrustRequestEnvelope"
  const KIND_DELEGATION_TOKEN: string := "DelegationToken"
  const KIND_AGENT_IDENTITY_DOCUMENT: string := "AgentIdentityDocument"

  predicate NonEmpty(s: string) {
    !Blank(s)
  }

  predicate NonEmptyIfPresent(o: Option<string>) {
    o.Some? ==> NonEmpty(o.value)
  }

  predicate NonEmptyVec(xs: seq<string>) {
    xs != [] && forall x | x in xs :: NonEmpty(x)
  }

  predicate SupportedVersion(s: string) {
    NonEmpty(s) && s in SUPPORTED_SPEC_VERSIONS
  }

  predicate IsKind(actual: string, expected: string) {
    NonEmpty(actual) && actual == expected
  }

  predicate ValidRuntimeContext(c: RuntimeContext) {
    (c.requestedSpend.Some? ==> c.requestedSpend.value >= 0)
    && NonEmptyIfPresent(c.spendCurrency) && NonEmptyIfPresent(c.targetEmail) && NonEmptyIfPresent(c.targetCalendarId)
  }

  predicate ValidDelegationToken(t: DelegationToken) {
    SupportedVersion(t.specVersion) && IsKind(t.kind, KIND_DELEGATION_TOKEN)
    && NonEmpty(t.tokenId) && NonEmpty(t.issuer) && NonEmpty(t.agentId) && NonEmpty(t.delegatorId)
    && NonEmpty(t.ownerId) && NonEmpty(t.nonce) && NonEmpty(t.keyId) && NonEmpty(t.signatureAlg)
    && NonEmpty(t.signature) && NonEmptyVec(t.audience) && NonEmptyVec(t.allowedActions)
    && NonEmptyIfPresent(t.intent) && t.issuedAt < t.expiresAt
    && (t.resourceConstraints.Some? ==> ValidConstraints(t.resourceConstraints.value))
    && (t.maxSpend.Some? ==> NonEmpty(t.maxSpend.value.currency))
    && t.signatureAlg == ED25519
  }

  predicate ValidConstraints(rc: ResourceConstraints) {
    (rc.calendarIds.Some? ==> NonEmptyVec(rc.calendarIds.value))
    && (rc.emailDomainAllowlist.Some? ==> NonEmptyVec(rc.emailDomainAllowlist.value))
  }

  predicate ValidPublicKey(k: PublicKeyRecord) {
    NonEmpty(k.kid) && NonEmpty(k.kty) && k.kty == OKP
    && k.crv.Some? && NonEmpty(k.crv.value) && k.crv.value == ED25519
    && k.x.Some? && NonEmpty(k.x.value)
  }

  predicate ValidIdentityDocument(d: AgentIdentityDocument) {
    SupportedVersion(d.specVersion) && IsKind(d.kind, KIND_AGENT_IDENTITY_DOCUMENT)
    && NonEmpty(d.agentId) && NonEmpty(d.ownerId) && NonEmpty(d.issuer) && NonEmpty(d.identityType)
    && NonEmpty(d.subject) && NonEmpty(d.signature)
    && NonEmptyVec(d.supportedProtocols) && NonEmptyVec(d.supportedAuthMethods) && NonEmptyIfPresent(d.displayName)
    && d.publicKeys != [] && (forall k | k in d.publicKeys :: ValidPublicKey(k))
    && d.endpoints != [] && (forall e | e in d.endpoints :: NonEmpty(e.protocol) && NonEmpty(e.url))
    && d.createdAt < d.expiresAt
    && (d.attestation.Some? ==>
          NonEmpty(d.attestation.value.typeName) && NonEmpty(d.attestation.value.issuer) && NonEmpty(d.attestation.value.evidenceRef))
  }

  /** `validate_request_contract`. */
  predicate ValidRequest(e: RequestEnvelope) {
    SupportedVersion(e.specVersion) && IsKind(e.kind, KIND_TRUST_REQUEST_ENVELOPE)
    && NonEmpty(e.agentId) && NonEmpty(e.delegatorId) && NonEmpty(e.audience) && NonEmpty(e.action)
    && ValidRuntimeContext(e.runtimeContext)
    && NonEmptyIfPresent(e.requestId) && NonEmptyIfPresent(e.resource)
    && ValidDelegationToken(e.token)
    && (e.identityDocument.Some? ==>
          ValidIdentityDocument(e.identityDocument.value) && e.identityDocument.value.agentId == e.agentId)
  }

  /** `validate_profile_compatibility`, for an envelope with an identity document. */
  predicate ProfileCompatible(profile: TrustProfile, d: AgentIdentityDocument) {
    match profile
    case Developer => true
    case Oidc =>
      d.identityType == "oidc" && "https://" <= d.issuer && !Blank(d.subject) && "delegation_token" in d.supportedAuthMethods
    case Spiffe =>
      d.identityType == "spiffe" && "spiffe://" <= d.subject && "delegation_token" in d.supportedAuthMethods
      && exists p | p in d.supportedProtocols :: p in ["http", "mcp", "a2a"]
  }

  // ---------------------------------------------------------------- the contract, written out

  predicate AllVisible(xs: seq<string>) {
    forall i | 0 <= i < |xs| :: Visible(xs[i])
  }

  predicate VisibleIfGiven(o: Option<string>) {
    o == None || Visible(o.value)
  }

  predicate SomeAllVisible(xs: seq<string>) {
    |xs| > 0 && AllVisible(xs)
  }

  lemma TextsIff()
    ensures forall s :: NonEmpty(s) <==> Visible(s)
    ensures forall o :: NonEmptyIfPresent(o) <==> VisibleIfGiven(o)
    ensures forall xs :: NonEmptyVec(xs) <==> SomeAllVisible(xs)
  {
    hide Visible, Blank;
    forall s ensures NonEmpty(s) <==> Visible(s) {
      VisibleIff(s);
    }
  }

  /** A version is supported, or a kind the right one, exactly when it is the literal text. */
  lemma VersionAndKindIff(actual: string, expected: string)
    requires Visible(expected)
    ensures SupportedVersion(actual) <==> actual == "0.1"
    ensures IsKind(actual, expected) <==> actual == expected
  {
    VisibleIff(expected);
    TrimKeeps("0.1");
  }

  lemma ConstraintsIff(rc: ResourceConstraints)
    ensures ValidConstraints(rc)
            <==> (forall ids | rc.calendarIds == Some(ids) :: SomeAllVisible(ids))
                 && (forall domains | rc.emailDomainAllowlist == Some(domains) :: SomeAllVisible(domains))
  {
    hide NonEmptyVec, SomeAllVisible;
    TextsIff();
  }

  /** A token passes exactly when it is version 0.1 of its kind, its eight mandatory texts and the
      members of its lists are more than whitespace, it expires after it is issued and names
      Ed25519, and whatever optional text, constraint or currency it carries is filled in too. */
  lemma TokenPassesIff(t: DelegationToken)
    ensures ValidDelegationToken(t)
            <==> t.specVersion == "0.1" && t.kind == "DelegationToken" && t.signatureAlg == "Ed25519"
                 && AllVisible([t.tokenId, t.issuer, t.agentId, t.delegatorId, t.ownerId, t.nonce, t.keyId, t.signature])
                 && SomeAllVisible(t.audience) && SomeAllVisible(t.allowedActions)
                 && VisibleIfGiven(t.intent) && t.issuedAt < t.expiresAt
                 && (forall rc | t.resourceConstraints == Some(rc) ::
                       (forall ids | rc.calendarIds == Some(ids) :: SomeAllVisible(ids))
                       && (forall domains | rc.emailDomainAllowlist == Some(domains) :: SomeAllVisible(domains)))
                 && (forall spend | t.maxSpend == Some(spend) :: Visible(spend.currency))
  {
    hide NonEmpty, NonEmptyIfPresent, NonEmptyVec, ValidConstraints, SomeAllVisible, VisibleIfGiven, Visible, SupportedVersion, IsKind;
    TextsIff();
    KindsAreVisible();
    VersionAndKindIff(t.specVersion, KIND_DELEGATION_TOKEN);
    VersionAndKindIff(t.kind, KIND_DELEGATION_TOKEN);
    if t.resourceConstraints.Some? {
      ConstraintsIff(t.resourceConstraints.value);
    }
    var texts := [t.tokenId, t.issuer, t.agentId, t.delegatorId, t.ownerId, t.nonce, t.keyId, t.signature];
    assert AllVisible(texts) <==> Visible(texts[0]) && Visible(texts[1]) && Visible(texts[2]) && Visible(texts[3])
                                  && Visible(texts[4]) && Visible(texts[5]) && Visible(texts[6]) && Visible(texts[7]);
  }

  lemma BeginsVisibly(s: string)
    requires s != "" && !IsWhitespace(s[0])
    ensures Visible(s)
  {
    assert s[0] in s;
  }

  lemma KindsAreVisible()
    ensures Visible("DelegationToken") && Visible("AgentIdentityDocument") && Visible("TrustRequestEnvelope") && Visible("Ed25519")
    ensures Visible("OKP")
  {
    hide Visible;
    BeginsVisibly("DelegationToken");
    BeginsVisibly("AgentIdentityDocument");
    BeginsVisibly("TrustRequestEnvelope");
    BeginsVisibly("Ed25519");
    BeginsVisibly("OKP");
  }

  lemma PublicKeyIff(k: PublicKeyRecord)
    ensures ValidPublicKey(k)
            <==> Visible(k.kid) && k.kty == "OKP" && k.crv == Some("Ed25519") && exists x :: k.x == Some(x) && Visible(x)
  {
    hide Visible, NonEmpty;
    TextsIff();
    KindsAreVisible();
  }

  /** A document passes exactly when it is version 0.1 of its kind with its mandatory texts, lists,
      Ed25519 keys and endpoints filled in, an attestation being complete if there is one. */
  lemma DocumentPassesIff(d: AgentIdentityDocument)
    ensures ValidIdentityDocument(d)
            <==> d.specVersion == "0.1" && d.kind == "AgentIdentityDocument"
                 && AllVisible([d.agentId, d.ownerId, d.issuer, d.identityType, d.subject, d.signature])
                 && SomeAllVisible(d.supportedProtocols) && SomeAllVisible(d.supportedAuthMethods) && VisibleIfGiven(d.displayName)
                 && |d.publicKeys| > 0
                 && (forall k | k in d.publicKeys ::
                       Visible(k.kid) && k.kty == "OKP" && k.crv == Some("Ed25519") && exists x :: k.x == Some(x) && Visible(x))
                 && |d.endpoints| > 0 && (forall p | p in d.endpoints :: AllVisible([p.protocol, p.url]))
                 && d.createdAt < d.expiresAt
                 && (forall a | d.attestation == Some(a) :: AllVisible([a.typeName, a.issuer, a.evidenceRef]))
  {
    hide NonEmpty, NonEmptyIfPresent, NonEmptyVec, SomeAllVisible, VisibleIfGiven, Visible, SupportedVersion, IsKind, ValidPublicKey;
    TextsIff();
    KindsAreVisible();
    VersionAndKindIff(d.specVersion, KIND_AGENT_IDENTITY_DOCUMENT);
    VersionAndKindIff(d.kind, KIND_AGENT_IDENTITY_DOCUMENT);
    forall k: PublicKeyRecord
      ensures ValidPublicKey(k)
              <==> Visible(k.kid) && k.kty == "OKP" && k.crv == Some("Ed25519") && exists x :: k.x == Some(x) && Visible(x) {
      PublicKeyIff(k);
    }
    forall s, t ensures AllVisible([s, t]) <==> Visible(s) && Visible(t) {
      assert AllVisible([s, t]) <==> Visible([s, t][0]) && Visible([s, t][1]);
    }
    forall s, t, u ensures AllVisible([s, t, u]) <==> Visible(s) && Visible(t) && Visible(u) {
      assert AllVisible([s, t, u]) <==> Visible([s, t, u][0]) && Visible([s, t, u][1]) && Visible([s, t, u][2]);
    }
    var texts := [d.agentId, d.ownerId, d.issuer, d.identityType, d.subject, d.signature];
    assert AllVisible(texts) <==> Visible(texts[0]) && Visible(texts[1]) && Visible(texts[2]) && Visible(texts[3])
                                  && Visible(texts[4]) && Visible(texts[5]);
  }

  lemma ContextIff(c: RuntimeContext)
    ensures ValidRuntimeContext(c)
            <==> (forall spend | c.requestedSpend == Some(spend) :: spend >= 0)
                 && VisibleIfGiven(c.spendCurrency) && VisibleIfGiven(c.targetEmail) && VisibleIfGiven(c.targetCalendarId)
  {
    hide NonEmptyIfPresent, VisibleIfGiven;
    TextsIff();
  }

  /** An envelope passes exactly when it is version 0.1 of its kind, its four mandatory texts and
      whatever optional ones it carries are filled in, no negative spend is asked for, and its token
      and its document, if it has one, pass; the document is then the agent's own. */
  lemma RequestPassesIff(e: RequestEnvelope)
    ensures ValidRequest(e)
            <==> e.specVersion == "0.1" && e.kind == "TrustRequestEnvelope"
                 && AllVisible([e.agentId, e.delegatorId, e.audience, e.action])
                 && VisibleIfGiven(e.requestId) && VisibleIfGiven(e.resource)
                 && VisibleIfGiven(e.runtimeContext.spendCurrency) && VisibleIfGiven(e.runtimeContext.targetEmail)
                 && VisibleIfGiven(e.runtimeContext.targetCalendarId)
                 && (forall spend | e.runtimeContext.requestedSpend == Some(spend) :: spend >= 0)
                 && ValidDelegationToken(e.token)
                 && (forall d | e.identityDocument == Some(d) :: ValidIdentityDocument(d) && d.agentId == e.agentId)
  {
    hide NonEmpty, NonEmptyIfPresent, VisibleIfGiven, Visible, SupportedVersion, IsKind, ValidRuntimeContext,
      ValidDelegationToken, ValidIdentityDocument;
    TextsIff();
    KindsAreVisible();
    VersionAndKindIff(e.specVersion, KIND_TRUST_REQUEST_ENVELOPE);
    VersionAndKindIff(e.kind, KIND_TRUST_REQUEST_ENVELOPE);
    ContextIff(e.runtimeContext);
    var texts := [e.agentId, e.delegatorId, e.audience, e.action];
    assert AllVisible(texts) <==> Visible(texts[0]) && Visible(texts[1]) && Visible(texts[2]) && Visible(texts[3]);
  }

  // ---------------------------------------------------------------- the profiles, written out

  /** What a profile asks: of a developer, any document; of an OIDC or a SPIFFE workload, one of that
      type with an issuer or subject under its scheme. */
  ghost predicate ProfileMet(e: RequestEnvelope) {
    e.identityDocument.Some?
    && (e.profile == Oidc ==>
          var d := e.identityDocument.value;
          d.identityType == "oidc" && (exists rest :: d.issuer == "https://" + rest) && Visible(d.subject)
          && "delegation_token" in d.supportedAuthMethods)
    && (e.profile == Spiffe ==>
          var d := e.identityDocument.value;
          d.identityType == "spiffe" && (exists rest :: d.subject == "spiffe://" + rest)
          && "delegation_token" in d.supportedAuthMethods
          && ("http" in d.supportedProtocols || "mcp" in d.supportedProtocols || "a2a" in d.supportedProtocols))
  }

  lemma PrefixIff(p: string, s: string)
    ensures p <= s <==> exists rest :: s == p + rest
  {
    if p <= s {
      assert s == p + s[|p|..];
    }
  }

  lemma ProfileIff(e: RequestEnvelope)
    ensures ProfileMet(e) <==> e.identityDocument.Some? && ProfileCompatible(e.profile, e.identityDocument.value)
  {
    if e.identityDocument.Some? {
      var d := e.identityDocument.value;
      PrefixIff("https://", d.issuer);
      PrefixIff("spiffe://", d.subject);
      VisibleIff(d.subject);
      var transports := ["http", "mcp", "a2a"];
      assert transports[0] in transports && transports[1] in transports && transports[2] in transports;
    }
  }
}
