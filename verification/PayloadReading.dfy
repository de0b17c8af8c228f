/** What a verifier in another language finds in the signed bytes: the payloads read back by a JSON
    parser, field by field under their literal names. */
module PayloadReading {
  import opened Wrappers
  import opened Utf8
  import opened Json
  import opened Canonical
  import opened Models
  import opened FieldNames
  import opened Payload

  /** An object of exactly these entries, in some order. */
  predicate Exactly(v: Value, es: seq<Entry>) {
    v.Object? && UniqueKeys(v.entries) && |v.entries| == |es| && forall i | 0 <= i < |es| :: es[i] in v.entries
  }

  function Texts(xs: seq<string>): (v: Value)
    ensures v.Array? && |v.elems| == |xs| && forall i | 0 <= i < |xs| :: v.elems[i] == Str(xs[i])
  {
    Array(seq(|xs|, i requires 0 <= i < |xs| => Str(xs[i])))
  }

  function TextOrNull(o: Option<string>): Value {
    match o
    case None => Null
    case Some(s) => Str(s)
  }

  function TextsOrNull(o: Option<seq<string>>): Value {
    match o
    case None => Null
    case Some(xs) => Texts(xs)
  }

  /** The whole text is one JSON value, this one. */
  predicate Says(payload: seq<byte>, v: Value) {
    Decode(payload).Some? && ParseValue(Decode(payload).value) == Accept(v, "")
  }

  lemma CanonicalSays(v: Value)
    requires WellFormed(v) && v.Object?
    ensures Says(CanonicalJson(v), Canon(v))
  {
    var text := Print(Canon(v));
    DecodeEncoded(text);
    CanonicalIsUniquelyReadable(v, "");
    assert text + "" == text;
  }

  // ---------------------------------------------------------------- records

  lemma RecordReads(keys: seq<string>, values: seq<Value>, read: seq<Value>)
    requires |keys| == |values| == |read| && WellFormed(Record(keys, values))
    requires forall i | 0 <= i < |read| :: read[i] == Canon(values[i])
    ensures Exactly(Canon(Record(keys, values)), RecordEntries(keys, read))
  {
    var entries := CanonEntries(RecordEntries(keys, values));
    CanonWellFormed(Record(keys, values));
    SortMultiset(entries);
    SortElements(entries);
    assert |multiset(SortByKey(entries))| == |multiset(entries)|;
    assert entries == RecordEntries(keys, read);
  }

  lemma CanonOfTexts(xs: seq<string>)
    ensures Canon(List(xs)) == Texts(xs) && WellFormed(List(xs))
  {
    ListSame(xs, Null);
    assert forall i | 0 <= i < |xs| :: Canon(List(xs)).elems[i] == Str(xs[i]);
    assert Canon(List(xs)).elems == Texts(xs).elems;
  }

  lemma CanonOfOptionals(o: Option<string>, p: Option<seq<string>>, n: Option<u16>)
    ensures Canon(OptionalStr(o)) == TextOrNull(o)
    ensures Canon(OptionalList(p)) == TextsOrNull(p)
    ensures Canon(OptionalNum(n)) == if n.None? then Null else Num(n.value)
  {
    if p.Some? {
      CanonOfTexts(p.value);
    }
  }

  // ---------------------------------------------------------------- tokens

  predicate SpendReads(o: Option<MaxSpend>, v: Value) {
    match o
    case None => v == Null
    case Some(spend) => Exactly(v, [Entry("amount", Num(spend.amount)), Entry("currency", Str(spend.currency))])
  }

  /** The two named lists, each unless an extra one has its name, and all extra ones. */
  ghost predicate ConstraintsRead(o: Option<ResourceConstraints>, v: Value) {
    match o
    case None => v == Null
    case Some(rc) =>
      v.Object? && UniqueKeys(v.entries)
      && forall e :: e in v.entries <==>
           (e.key in rc.extra && e.value == Texts(rc.extra[e.key]))
           || (e.key == "calendar_ids" && e.key !in rc.extra && e.value == TextsOrNull(rc.calendarIds))
           || (e.key == "email_domain_allowlist" && e.key !in rc.extra && e.value == TextsOrNull(rc.emailDomainAllowlist))
  }

  function TokenEntries(fmt: TimeFormat, t: DelegationToken, constraints: Value, spend: Value): seq<Entry> {
    [Entry("spec_version", Str(t.specVersion)), Entry("kind", Str(t.kind)), Entry("token_id", Str(t.tokenId)),
     Entry("issuer", Str(t.issuer)), Entry("agent_id", Str(t.agentId)), Entry("delegator_id", Str(t.delegatorId)),
     Entry("owner_id", Str(t.ownerId)), Entry("audience", Texts(t.audience)),
     Entry("allowed_actions", Texts(t.allowedActions)), Entry("resource_constraints", constraints),
     Entry("max_spend", spend),
     Entry("max_delegation_depth", if t.maxDelegationDepth.None? then Null else Num(t.maxDelegationDepth.value)),
     Entry("issued_at", Str(fmt(t.issuedAt))), Entry("expires_at", Str(fmt(t.expiresAt))),
     Entry("intent", TextOrNull(t.intent)), Entry("nonce", Str(t.nonce)), Entry("key_id", Str(t.keyId)),
     Entry("signature_alg", Str(t.signatureAlg)), Entry("signature", Str(""))]
  }

  lemma SpendIsRead(o: Option<MaxSpend>)
    ensures SpendReads(o, Canon(OptionalSpend(o)))
  {
    SpendSame(o, o);
    if o.Some? {
      var vs := [Num(o.value.amount), Str(o.value.currency)];
      RecordReads(MAX_SPEND_KEYS, vs, vs);
      assert RecordEntries(MAX_SPEND_KEYS, vs) == [Entry("amount", vs[0]), Entry("currency", vs[1])];
    }
  }

  lemma ConstraintsAreRead(o: Option<ResourceConstraints>, order: seq<string>)
    requires o.Some? ==> IterationOrder(order, o.value.extra)
    ensures ConstraintsRead(o, Canon(OptionalConstraints(o, order)))
  {
    hide Effective, ConstraintEntries, TextsOrNull, Texts, WellFormed, SortByKey;
    if o.Some? {
      var rc := o.value;
      var es := ConstraintEntries(rc, order);
      ConstraintsWellFormed(rc, order);
      CanonWellFormed(Object(es));
      CanonHasUniqueKeys(es);
      ConstraintElements(rc, order);
      SortElements(CanonEntries(es));
      forall e ensures e in Canon(Object(es)).entries <==> EffectiveEntry(rc, e) {
        CanonMember(es, rc, e);
      }
      forall e { EffectiveReads(rc, e); }
    }
  }

  lemma CanonHasUniqueKeys(es: seq<Entry>)
    requires WellFormed(Canon(Object(es)))
    ensures UniqueKeys(Canon(Object(es)).entries)
  {
  }

  ghost predicate EffectiveEntry(rc: ResourceConstraints, e: Entry) {
    e.key in Effective(rc) && e.value == TextsOrNull(Effective(rc)[e.key])
  }

  lemma EffectiveReads(rc: ResourceConstraints, e: Entry)
    ensures EffectiveEntry(rc, e)
            <==> (e.key in rc.extra && e.value == Texts(rc.extra[e.key]))
                 || (e.key == "calendar_ids" && e.key !in rc.extra && e.value == TextsOrNull(rc.calendarIds))
                 || (e.key == "email_domain_allowlist" && e.key !in rc.extra && e.value == TextsOrNull(rc.emailDomainAllowlist))
  {
    hide Texts;
    assert |"calendar_ids"| != |"email_domain_allowlist"|;
  }

  lemma CanonMember(es: seq<Entry>, rc: ResourceConstraints, e: Entry)
    requires forall f :: f in es <==> f.key in Effective(rc) && f.value == OptionalList(Effective(rc)[f.key])
    ensures e in CanonEntries(es) <==> e.key in Effective(rc) && e.value == TextsOrNull(Effective(rc)[e.key])
  {
    hide Effective;
    if e in CanonEntries(es) {
      var i :| 0 <= i < |es| && CanonEntries(es)[i] == e;
      assert es[i] in es;
      CanonOfOptionals(None, Effective(rc)[e.key], None);
    }
    if e.key in Effective(rc) && e.value == TextsOrNull(Effective(rc)[e.key]) {
      var f := Entry(e.key, OptionalList(Effective(rc)[e.key]));
      CanonOfOptionals(None, Effective(rc)[e.key], None);
      var i :| 0 <= i < |es| && es[i] == f;
      assert CanonEntries(es)[i] == e;
    }
  }

  function ReadValues(es: seq<Entry>): (vs: seq<Value>)
    ensures |vs| == |es| && forall i | 0 <= i < |es| :: vs[i] == es[i].value
  {
    seq(|es|, i requires 0 <= i < |es| => es[i].value)
  }

  lemma KindAndIssuerRead(fmt: TimeFormat, t: DelegationToken, constraints: Value, spend: Value)
    ensures forall i | 0 <= i < 4 ::
              TokenEntries(fmt, t, constraints, spend)[i] == Entry(TOKEN_KEYS[i], Canon(TokenParties(t)[i]))
  {
    var es, vs := TokenEntries(fmt, t, constraints, spend), TokenParties(t);
    assert es[0] == Entry(TOKEN_KEYS[0], Canon(vs[0])) && es[1] == Entry(TOKEN_KEYS[1], Canon(vs[1]));
    assert es[2] == Entry(TOKEN_KEYS[2], Canon(vs[2])) && es[3] == Entry(TOKEN_KEYS[3], Canon(vs[3]));
  }

  lemma PartiesRead(fmt: TimeFormat, t: DelegationToken, constraints: Value, spend: Value)
    ensures forall i | 4 <= i < 7 ::
              TokenEntries(fmt, t, constraints, spend)[i] == Entry(TOKEN_KEYS[i], Canon(TokenParties(t)[i]))
  {
    var es, vs := TokenEntries(fmt, t, constraints, spend), TokenParties(t);
    assert es[4] == Entry(TOKEN_KEYS[4], Canon(vs[4])) && es[5] == Entry(TOKEN_KEYS[5], Canon(vs[5]));
    assert es[6] == Entry(TOKEN_KEYS[6], Canon(vs[6]));
  }

  lemma ScopeReads(fmt: TimeFormat, t: DelegationToken, order: seq<string>)
    requires OrderFits(t, order)
    ensures var es := TokenEntries(fmt, t, Canon(OptionalConstraints(t.resourceConstraints, order)), Canon(OptionalSpend(t.maxSpend)));
            forall i | 7 <= i < 12 :: es[i] == Entry(TOKEN_KEYS[i], Canon(TokenScope(t, order)[i - 7]))
  {
    var es := TokenEntries(fmt, t, Canon(OptionalConstraints(t.resourceConstraints, order)), Canon(OptionalSpend(t.maxSpend)));
    var vs := TokenScope(t, order);
    CanonOfTexts(t.audience);
    CanonOfTexts(t.allowedActions);
    CanonOfOptionals(None, None, t.maxDelegationDepth);
    assert es[7] == Entry(TOKEN_KEYS[7], Canon(vs[0])) && es[8] == Entry(TOKEN_KEYS[8], Canon(vs[1]));
    assert es[9] == Entry(TOKEN_KEYS[9], Canon(vs[2])) && es[10] == Entry(TOKEN_KEYS[10], Canon(vs[3]));
    assert es[11] == Entry(TOKEN_KEYS[11], Canon(vs[4]));
  }

  lemma TermsRead(fmt: TimeFormat, t: DelegationToken, constraints: Value, spend: Value)
    requires t.signature == ""
    ensures forall i | 12 <= i < 19 ::
              TokenEntries(fmt, t, constraints, spend)[i] == Entry(TOKEN_KEYS[i], Canon(TokenTerms(fmt, t)[i - 12]))
  {
    var es, vs := TokenEntries(fmt, t, constraints, spend), TokenTerms(fmt, t);
    assert es[12] == Entry(TOKEN_KEYS[12], Canon(vs[0])) && es[13] == Entry(TOKEN_KEYS[13], Canon(vs[1]));
    assert es[14] == Entry(TOKEN_KEYS[14], Canon(vs[2])) && es[15] == Entry(TOKEN_KEYS[15], Canon(vs[3]));
    assert es[16] == Entry(TOKEN_KEYS[16], Canon(vs[4])) && es[17] == Entry(TOKEN_KEYS[17], Canon(vs[5]));
    assert es[18] == Entry(TOKEN_KEYS[18], Canon(vs[6]));
  }

  lemma FieldsRead(fmt: TimeFormat, t: DelegationToken, order: seq<string>)
    requires OrderFits(t, order) && t.signature == ""
    ensures var es := TokenEntries(fmt, t, Canon(OptionalConstraints(t.resourceConstraints, order)), Canon(OptionalSpend(t.maxSpend)));
            |es| == 19 && RecordEntries(TOKEN_KEYS, ReadValues(es)) == es
            && forall i | 0 <= i < 19 :: es[i].value == Canon(TokenFields(fmt, t, order)[i])
  {
    var constraints, spend := Canon(OptionalConstraints(t.resourceConstraints, order)), Canon(OptionalSpend(t.maxSpend));
    var es, fields := TokenEntries(fmt, t, constraints, spend), TokenFields(fmt, t, order);
    assert |es| == 19;
    hide TokenEntries, Canon, TokenParties, TokenScope, TokenTerms, OptionalConstraints, OptionalSpend;
    KindAndIssuerRead(fmt, t, constraints, spend);
    PartiesRead(fmt, t, constraints, spend);
    ScopeReads(fmt, t, order);
    TermsRead(fmt, t, constraints, spend);
    forall i | 0 <= i < 19 ensures es[i] == Entry(TOKEN_KEYS[i], Canon(fields[i])) {
      assert fields[i] == if i < 7 then TokenParties(t)[i] else if i < 12 then TokenScope(t, order)[i - 7] else TokenTerms(fmt, t)[i - 12];
    }
  }

  /** A token's signed bytes are one JSON object with exactly nineteen fields, each named and filled as
      written in TokenEntries, the constraints and the spending limit inside. */
  lemma TokenPayloadSays(fmt: TimeFormat, t: DelegationToken, order: seq<string>) returns (v: Value, constraints: Value, spend: Value)
    requires TokenOrder(t, order)
    ensures Says(TokenPayload(fmt, t, order), v) && Exactly(v, TokenEntries(fmt, t, constraints, spend))
    ensures ConstraintsRead(t.resourceConstraints, constraints) && SpendReads(t.maxSpend, spend)
  {
    hide Canon, ConstraintsRead, SpendReads, TokenFields, Says, Exactly, OptionalConstraints, OptionalSpend;
    var unsigned := t.(signature := "");
    var fields := TokenFields(fmt, unsigned, order);
    constraints, spend := Canon(OptionalConstraints(t.resourceConstraints, order)), Canon(OptionalSpend(t.maxSpend));
    ConstraintsAreRead(t.resourceConstraints, order);
    SpendIsRead(t.maxSpend);
    TokenFieldsWellFormed(fmt, unsigned, order);
    v := Canon(Record(TOKEN_KEYS, fields));
    CanonicalSays(Record(TOKEN_KEYS, fields));
    assert TokenEntries(fmt, t, constraints, spend) == TokenEntries(fmt, unsigned, constraints, spend);
    hide TokenEntries;
    FieldsRead(fmt, unsigned, order);
    RecordReads(TOKEN_KEYS, fields, ReadValues(TokenEntries(fmt, unsigned, constraints, spend)));
  }

  // ---------------------------------------------------------------- identity documents

  predicate KeyReads(k: PublicKeyRecord, v: Value) {
    Exactly(v, [Entry("kid", Str(k.kid)), Entry("kty", Str(k.kty)), Entry("crv", TextOrNull(k.crv)), Entry("x", TextOrNull(k.x))])
  }

  predicate EndpointReads(e: AgentEndpoint, v: Value) {
    Exactly(v, [Entry("protocol", Str(e.protocol)), Entry("url", Str(e.url))])
  }

  predicate AttestationReads(o: Option<AttestationRecord>, v: Value) {
    match o
    case None => v == Null
    case Some(a) =>
      Exactly(v, [Entry("type", Str(a.typeName)), Entry("issuer", Str(a.issuer)), Entry("evidence_ref", Str(a.evidenceRef))])
  }

  predicate KeysRead(ks: seq<PublicKeyRecord>, v: Value) {
    v.Array? && |v.elems| == |ks| && forall i | 0 <= i < |ks| :: KeyReads(ks[i], v.elems[i])
  }

  predicate EndpointsRead(es: seq<AgentEndpoint>, v: Value) {
    v.Array? && |v.elems| == |es| && forall i | 0 <= i < |es| :: EndpointReads(es[i], v.elems[i])
  }

  function IdentityEntries(fmt: TimeFormat, d: AgentIdentityDocument, keys: Value, endpoints: Value, attestation: Value): seq<Entry> {
    [Entry("spec_version", Str(d.specVersion)), Entry("kind", Str(d.kind)), Entry("agent_id", Str(d.agentId)),
     Entry("display_name", TextOrNull(d.displayName)), Entry("owner_id", Str(d.ownerId)), Entry("issuer", Str(d.issuer)),
     Entry("identity_type", Str(d.identityType)), Entry("subject", Str(d.subject)), Entry("public_keys", keys),
     Entry("supported_protocols", Texts(d.supportedProtocols)),
     Entry("supported_auth_methods", Texts(d.supportedAuthMethods)), Entry("capabilities", TextsOrNull(d.capabilities)),
     Entry("endpoints", endpoints), Entry("attestation", attestation), Entry("created_at", Str(fmt(d.createdAt))),
     Entry("expires_at", Str(fmt(d.expiresAt))), Entry("signature", Str(""))]
  }

  lemma KeyIsRead(k: PublicKeyRecord)
    ensures KeyReads(k, Canon(KeyValue(k)))
  {
    var vs := [Str(k.kid), Str(k.kty), OptionalStr(k.crv), OptionalStr(k.x)];
    KeySame(k, k);
    CanonOfOptionals(k.crv, None, None);
    CanonOfOptionals(k.x, None, None);
    RecordReads(PUBLIC_KEY_KEYS, vs, vs);
    assert RecordEntries(PUBLIC_KEY_KEYS, vs) == [Entry("kid", vs[0]), Entry("kty", vs[1]), Entry("crv", vs[2]), Entry("x", vs[3])];
  }

  lemma EndpointIsRead(e: AgentEndpoint)
    ensures EndpointReads(e, Canon(EndpointValue(e)))
  {
    var vs := [Str(e.protocol), Str(e.url)];
    EndpointSame(e, e);
    RecordReads(ENDPOINT_KEYS, vs, vs);
    assert RecordEntries(ENDPOINT_KEYS, vs) == [Entry("protocol", vs[0]), Entry("url", vs[1])];
  }

  lemma AttestationIsRead(o: Option<AttestationRecord>)
    ensures AttestationReads(o, Canon(OptionalAttestation(o)))
  {
    AttestationSame(o, o);
    if o.Some? {
      var vs := [Str(o.value.typeName), Str(o.value.issuer), Str(o.value.evidenceRef)];
      RecordReads(ATTESTATION_KEYS, vs, vs);
      assert RecordEntries(ATTESTATION_KEYS, vs) == [Entry("type", vs[0]), Entry("issuer", vs[1]), Entry("evidence_ref", vs[2])];
    }
  }

  lemma KeysAreRead(ks: seq<PublicKeyRecord>)
    ensures KeysRead(ks, Canon(KeysValue(ks)))
  {
    forall i | 0 <= i < |ks| ensures KeyReads(ks[i], Canon(KeysValue(ks)).elems[i]) {
      KeyIsRead(ks[i]);
    }
  }

  lemma EndpointsAreRead(es: seq<AgentEndpoint>)
    ensures EndpointsRead(es, Canon(EndpointsValue(es)))
  {
    forall i | 0 <= i < |es| ensures EndpointReads(es[i], Canon(EndpointsValue(es)).elems[i]) {
      EndpointIsRead(es[i]);
    }
  }

  function CanonicalEntries(fmt: TimeFormat, d: AgentIdentityDocument): (es: seq<Entry>) {
    IdentityEntries(fmt, d, Canon(KeysValue(d.publicKeys)), Canon(EndpointsValue(d.endpoints)), Canon(OptionalAttestation(d.attestation)))
  }

  lemma NamesRead(fmt: TimeFormat, d: AgentIdentityDocument)
    ensures forall i | 0 <= i < 4 :: CanonicalEntries(fmt, d)[i] == Entry(IDENTITY_KEYS[i], Canon(IdentityNames(d)[i]))
  {
    var es, vs := CanonicalEntries(fmt, d), IdentityNames(d);
    CanonOfOptionals(d.displayName, None, None);
    assert es[0] == Entry(IDENTITY_KEYS[0], Canon(vs[0])) && es[1] == Entry(IDENTITY_KEYS[1], Canon(vs[1]));
    assert es[2] == Entry(IDENTITY_KEYS[2], Canon(vs[2])) && es[3] == Entry(IDENTITY_KEYS[3], Canon(vs[3]));
  }

  lemma SubjectReads(fmt: TimeFormat, d: AgentIdentityDocument)
    ensures forall i | 4 <= i < 8 :: CanonicalEntries(fmt, d)[i] == Entry(IDENTITY_KEYS[i], Canon(IdentityNames(d)[i]))
  {
    var es, vs := CanonicalEntries(fmt, d), IdentityNames(d);
    assert es[4] == Entry(IDENTITY_KEYS[4], Canon(vs[4])) && es[5] == Entry(IDENTITY_KEYS[5], Canon(vs[5]));
    assert es[6] == Entry(IDENTITY_KEYS[6], Canon(vs[6])) && es[7] == Entry(IDENTITY_KEYS[7], Canon(vs[7]));
  }

  lemma FacilitiesRead(fmt: TimeFormat, d: AgentIdentityDocument)
    ensures forall i | 8 <= i < 14 :: CanonicalEntries(fmt, d)[i] == Entry(IDENTITY_KEYS[i], Canon(IdentityFacilities(d)[i - 8]))
  {
    var es, vs := CanonicalEntries(fmt, d), IdentityFacilities(d);
    CanonOfTexts(d.supportedProtocols);
    CanonOfTexts(d.supportedAuthMethods);
    CanonOfOptionals(None, d.capabilities, None);
    assert es[8] == Entry(IDENTITY_KEYS[8], Canon(vs[0])) && es[9] == Entry(IDENTITY_KEYS[9], Canon(vs[1]));
    assert es[10] == Entry(IDENTITY_KEYS[10], Canon(vs[2])) && es[11] == Entry(IDENTITY_KEYS[11], Canon(vs[3]));
    assert es[12] == Entry(IDENTITY_KEYS[12], Canon(vs[4])) && es[13] == Entry(IDENTITY_KEYS[13], Canon(vs[5]));
  }

  lemma DatesRead(fmt: TimeFormat, d: AgentIdentityDocument)
    requires d.signature == ""
    ensures forall i | 14 <= i < 17 :: CanonicalEntries(fmt, d)[i] == Entry(IDENTITY_KEYS[i], Canon(IdentityTerms(fmt, d)[i - 14]))
  {
    var es, vs := CanonicalEntries(fmt, d), IdentityTerms(fmt, d);
    assert es[14] == Entry(IDENTITY_KEYS[14], Canon(vs[0])) && es[15] == Entry(IDENTITY_KEYS[15], Canon(vs[1]));
    assert es[16] == Entry(IDENTITY_KEYS[16], Canon(vs[2]));
  }

  lemma IdentityFieldsRead(fmt: TimeFormat, d: AgentIdentityDocument)
    requires d.signature == ""
    ensures var es := CanonicalEntries(fmt, d);
            |es| == 17 && RecordEntries(IDENTITY_KEYS, ReadValues(es)) == es
            && forall i | 0 <= i < 17 :: es[i].value == Canon(IdentityFields(fmt, d)[i])
  {
    var es, fields := CanonicalEntries(fmt, d), IdentityFields(fmt, d);
    assert |es| == 17;
    hide CanonicalEntries, Canon, IdentityNames, IdentityFacilities, IdentityTerms;
    NamesRead(fmt, d);
    SubjectReads(fmt, d);
    FacilitiesRead(fmt, d);
    DatesRead(fmt, d);
    forall i | 0 <= i < 17 ensures es[i] == Entry(IDENTITY_KEYS[i], Canon(fields[i])) {
      assert fields[i] == if i < 8 then IdentityNames(d)[i] else if i < 14 then IdentityFacilities(d)[i - 8] else IdentityTerms(fmt, d)[i - 14];
    }
  }

  lemma IdentityFieldsWellFormed(fmt: TimeFormat, d: AgentIdentityDocument)
    ensures WellFormed(Record(IDENTITY_KEYS, IdentityFields(fmt, d)))
  {
    hide IdentityNames, IdentityFacilities, IdentityTerms;
    IdentityFacilitiesSame(d, d);
    NamesAndTermsAreTexts(fmt, d);
    var fields := IdentityFields(fmt, d);
    forall i | 0 <= i < |fields| ensures WellFormed(fields[i]) {
      assert fields[i] == if i < 8 then IdentityNames(d)[i] else if i < 14 then IdentityFacilities(d)[i - 8] else IdentityTerms(fmt, d)[i - 14];
    }
    IdentityKeysDistinct();
    RecordWellFormed(IDENTITY_KEYS, fields);
  }

  lemma NamesAndTermsAreTexts(fmt: TimeFormat, d: AgentIdentityDocument)
    ensures forall i | 0 <= i < 8 :: WellFormed(IdentityNames(d)[i])
    ensures forall i | 0 <= i < 3 :: WellFormed(IdentityTerms(fmt, d)[i])
  {
  }

  /** A document's signed bytes are one JSON object with exactly seventeen fields, each named and filled as
      written in IdentityEntries, keys, endpoints and attestation inside. */
  lemma IdentityPayloadSays(fmt: TimeFormat, d: AgentIdentityDocument)
    returns (v: Value, keys: Value, endpoints: Value, attestation: Value)
    ensures Says(IdentityPayload(fmt, d), v) && Exactly(v, IdentityEntries(fmt, d, keys, endpoints, attestation))
    ensures KeysRead(d.publicKeys, keys) && EndpointsRead(d.endpoints, endpoints) && AttestationReads(d.attestation, attestation)
  {
    hide Canon, IdentityFields, Says, Exactly, KeysRead, EndpointsRead, AttestationReads;
    var unsigned := d.(signature := "");
    var fields := IdentityFields(fmt, unsigned);
    keys, endpoints, attestation := Canon(KeysValue(d.publicKeys)), Canon(EndpointsValue(d.endpoints)), Canon(OptionalAttestation(d.attestation));
    KeysAreRead(d.publicKeys);
    EndpointsAreRead(d.endpoints);
    AttestationIsRead(d.attestation);
    IdentityFieldsWellFormed(fmt, unsigned);
    v := Canon(Record(IDENTITY_KEYS, fields));
    CanonicalSays(Record(IDENTITY_KEYS, fields));
    assert IdentityEntries(fmt, d, keys, endpoints, attestation) == CanonicalEntries(fmt, unsigned);
    hide IdentityEntries, CanonicalEntries;
    IdentityFieldsRead(fmt, unsigned);
    RecordReads(IDENTITY_KEYS, fields, ReadValues(CanonicalEntries(fmt, unsigned)));
  }
}
