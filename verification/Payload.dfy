/** The JSON trees that identity documents and delegation tokens are signed over. */
module Payload {
  import opened Wrappers
  import opened Utf8
  import opened Json
  import opened Canonical
  import opened Models
  import opened FieldNames

  /** How chrono writes an instant; two instants never share a text. */
  type TimeFormat = Time -> string

  ghost predicate Injective(fmt: TimeFormat) {
    forall a, b :: fmt(a) == fmt(b) ==> a == b
  }

  // ---------------------------------------------------------------- encodings of field types

  function List(xs: seq<string>): Value {
    Array(seq(|xs|, i requires 0 <= i < |xs| => Str(xs[i])))
  }

  function OptionalStr(o: Option<string>): Value {
    if o.None? then Null else Str(o.value)
  }

  function OptionalList(o: Option<seq<string>>): Value {
    if o.None? then Null else List(o.value)
  }

  lemma ListSame(xs: seq<string>, w: Value)
    ensures Equivalent(List(xs), w) <==> List(xs) == w
    ensures WellFormed(List(xs))
    ensures forall ys: seq<string> :: List(xs) == List(ys) <==> xs == ys
  {
    if Equivalent(List(xs), w) {
      var vs := List(xs).elems;
      forall i | 0 <= i < |vs| ensures w.elems[i] == vs[i] {
        assert Equivalent(vs[i], w.elems[i]);
      }
      assert w.elems == vs;
    }
    forall ys: seq<string> ensures List(xs) == List(ys) <==> xs == ys {
      if List(xs) == List(ys) {
        assert |xs| == |List(xs).elems| == |ys|;
        forall i | 0 <= i < |xs| ensures xs[i] == ys[i] {
          assert List(xs).elems[i] == Str(xs[i]) && List(ys).elems[i] == Str(ys[i]);
        }
      }
    }
  }

  lemma OptionalListSame(o: Option<seq<string>>, w: Value)
    ensures Equivalent(OptionalList(o), w) <==> OptionalList(o) == w
    ensures WellFormed(OptionalList(o))
    ensures forall p: Option<seq<string>> :: OptionalList(o) == OptionalList(p) <==> o == p
  {
    if o.Some? {
      ListSame(o.value, w);
    }
  }

  // ---------------------------------------------------------------- records

  /** A struct as serde writes it: its field names, each with its value. */
  function Record(keys: seq<string>, values: seq<Value>): Value
    requires |keys| == |values|
  {
    Object(RecordEntries(keys, values))
  }

  function RecordEntries(keys: seq<string>, values: seq<Value>): (es: seq<Entry>)
    requires |keys| == |values|
  {
    seq(|keys|, i requires 0 <= i < |keys| => Entry(keys[i], values[i]))
  }

  lemma RecordWellFormed(keys: seq<string>, values: seq<Value>)
    requires |keys| == |values| && Distinct(keys)
    requires forall i | 0 <= i < |values| :: WellFormed(values[i])
    ensures WellFormed(Record(keys, values))
  {
  }

  /** Records of one struct are the same JSON value exactly when every field is. */
  lemma RecordEquivalent(keys: seq<string>, vs: seq<Value>, ws: seq<Value>)
    requires |keys| == |vs| == |ws| && Distinct(keys)
    ensures Equivalent(Record(keys, vs), Record(keys, ws)) <==> FieldsEquivalent(vs, ws)
  {
    var es, fs := RecordEntries(keys, vs), RecordEntries(keys, ws);
    forall i, j | 0 <= i < |keys| && 0 <= j < |keys|
      ensures SameEntry(es[i], fs[j]) <==> i == j && Equivalent(vs[i], ws[i])
    {
    }
    if SameEntries(es, fs) {
      assert Within(es, fs);
      forall i | 0 <= i < |vs| ensures Equivalent(vs[i], ws[i]) {
        assert HasMatch(es[i], fs);
        var j :| 0 <= j < |fs| && SameEntry(es[i], fs[j]);
      }
    }
    if FieldsEquivalent(vs, ws) {
      forall i | 0 <= i < |es| ensures HasMatch(es[i], fs) {
        assert SameEntry(es[i], fs[i]);
      }
      forall i | 0 <= i < |fs| ensures MatchedBy(es, fs[i]) {
        assert SameEntry(es[i], fs[i]);
      }
      assert SameEntries(es, fs);
    }
  }

  predicate FieldsEquivalent(vs: seq<Value>, ws: seq<Value>) {
    |vs| == |ws| && forall i | 0 <= i < |vs| :: Equivalent(vs[i], ws[i])
  }

  lemma FieldsEquivalentConcat(vs: seq<Value>, vs': seq<Value>, ws: seq<Value>, ws': seq<Value>)
    requires |vs| == |ws| && |vs'| == |ws'|
    ensures FieldsEquivalent(vs + vs', ws + ws') <==> FieldsEquivalent(vs, ws) && FieldsEquivalent(vs', ws')
  {
    if FieldsEquivalent(vs + vs', ws + ws') {
      forall i | 0 <= i < |vs| ensures Equivalent(vs[i], ws[i]) {
        assert (vs + vs')[i] == vs[i] && (ws + ws')[i] == ws[i];
      }
      forall i | 0 <= i < |vs'| ensures Equivalent(vs'[i], ws'[i]) {
        assert (vs + vs')[|vs| + i] == vs'[i] && (ws + ws')[|vs| + i] == ws'[i];
      }
    }
  }

  // ---------------------------------------------------------------- resource constraints

  /** One order in which a hash map's keys may come out of its iterator. */
  ghost predicate IterationOrder(order: seq<string>, m: map<string, seq<string>>) {
    Distinct(order) && forall k :: k in order <==> k in m
  }

  /** Inserting into a JSON object replaces the value of a key it already holds. */
  function Upsert(es: seq<Entry>, key: string, v: Value): seq<Entry> {
    if es == [] then [Entry(key, v)]
    else if es[0].key == key then [Entry(key, v)] + es[1..]
    else [es[0]] + Upsert(es[1..], key, v)
  }

  function Flatten(es: seq<Entry>, order: seq<string>, extra: map<string, seq<string>>): seq<Entry>
    requires forall k | k in order :: k in extra
    decreases |order|
  {
    if order == [] then es
    else Flatten(Upsert(es, order[0], List(extra[order[0]])), order[1..], extra)
  }

  /** The two named fields, then the flattened extra constraints in iteration order. */
  function ConstraintEntries(rc: ResourceConstraints, order: seq<string>): seq<Entry>
    requires forall k | k in order :: k in rc.extra
  {
    Flatten([Entry(CALENDAR_IDS, OptionalList(rc.calendarIds)),
             Entry(EMAIL_DOMAIN_ALLOWLIST, OptionalList(rc.emailDomainAllowlist))],
            order, rc.extra)
  }

  /** What the flattened object says: an extra key that repeats a named one takes its place. */
  ghost function Effective(rc: ResourceConstraints): map<string, Option<seq<string>>> {
    map[CALENDAR_IDS := rc.calendarIds, EMAIL_DOMAIN_ALLOWLIST := rc.emailDomainAllowlist]
      + map k | k in rc.extra :: Some(rc.extra[k])
  }

  lemma {:induction false} UpsertElements(es: seq<Entry>, key: string, v: Value)
    requires UniqueKeys(es)
    ensures UniqueKeys(Upsert(es, key, v))
    ensures forall e :: e in Upsert(es, key, v) <==> e == Entry(key, v) || (e in es && e.key != key)
  {
    if es != [] {
      assert es == [es[0]] + es[1..];
      assert forall e | e in es[1..] :: e.key != es[0].key;
      if es[0].key != key {
        UpsertElements(es[1..], key, v);
        var tail := Upsert(es[1..], key, v);
        assert forall i | 0 <= i < |tail| :: tail[i] in tail && tail[i].key != es[0].key;
      }
    }
  }

  lemma {:induction false} FlattenElements(es: seq<Entry>, order: seq<string>, extra: map<string, seq<string>>)
    requires UniqueKeys(es) && Distinct(order) && forall k | k in order :: k in extra
    ensures UniqueKeys(Flatten(es, order, extra))
    ensures forall e :: e in Flatten(es, order, extra) <==>
              if e.key in order then e.value == List(extra[e.key]) else e in es
    decreases |order|
  {
    if order != [] {
      var next := Upsert(es, order[0], List(extra[order[0]]));
      UpsertElements(es, order[0], List(extra[order[0]]));
      FlattenElements(next, order[1..], extra);
      assert order == [order[0]] + order[1..];
      assert order[0] !in order[1..];
      forall e ensures e in Flatten(es, order, extra) <==>
                         if e.key in order then e.value == List(extra[e.key]) else e in es
      {
        assert e.key in order <==> e.key == order[0] || e.key in order[1..];
        assert e.key == order[0] ==> (e in next <==> e.value == List(extra[e.key]));
      }
    }
  }

  lemma ConstraintElements(rc: ResourceConstraints, order: seq<string>)
    requires IterationOrder(order, rc.extra)
    ensures UniqueKeys(ConstraintEntries(rc, order))
    ensures forall e :: e in ConstraintEntries(rc, order) <==>
              e.key in Effective(rc) && e.value == OptionalList(Effective(rc)[e.key])
  {
    var named := [Entry(CALENDAR_IDS, OptionalList(rc.calendarIds)),
                  Entry(EMAIL_DOMAIN_ALLOWLIST, OptionalList(rc.emailDomainAllowlist))];
    assert CALENDAR_IDS != EMAIL_DOMAIN_ALLOWLIST by {
      assert |CALENDAR_IDS| != |EMAIL_DOMAIN_ALLOWLIST|;
    }
    FlattenElements(named, order, rc.extra);
  }

  lemma ConstraintsWellFormed(rc: ResourceConstraints, order: seq<string>)
    requires IterationOrder(order, rc.extra)
    ensures WellFormed(Object(ConstraintEntries(rc, order)))
  {
    ConstraintElements(rc, order);
    var es := ConstraintEntries(rc, order);
    forall i | 0 <= i < |es| ensures WellFormed(es[i].value) {
      assert es[i] in es;
      OptionalListSame(Effective(rc)[es[i].key], Null);
    }
  }

  lemma ConstraintsEquivalent(rc: ResourceConstraints, order: seq<string>, sc: ResourceConstraints, order': seq<string>)
    requires IterationOrder(order, rc.extra) && IterationOrder(order', sc.extra)
    ensures Equivalent(Object(ConstraintEntries(rc, order)), Object(ConstraintEntries(sc, order')))
            <==> Effective(rc) == Effective(sc)
  {
    hide ConstraintEntries, Effective, OptionalList;
    var es, fs := ConstraintEntries(rc, order), ConstraintEntries(sc, order');
    ConstraintElements(rc, order);
    ConstraintElements(sc, order');
    forall i, j | 0 <= i < |es| && 0 <= j < |fs| ensures es[i] == fs[j] <==> SameEntry(es[i], fs[j]) {
      assert es[i] in es;
      OptionalListSame(Effective(rc)[es[i].key], fs[j].value);
    }
    MatchIffSameElements(es, fs, es, fs);
    if SameElements(es, fs) {
      forall k ensures k in Effective(rc) <==> k in Effective(sc) {
        assert k in Effective(rc) ==> Entry(k, OptionalList(Effective(rc)[k])) in es;
        assert k in Effective(sc) ==> Entry(k, OptionalList(Effective(sc)[k])) in fs;
      }
      forall k | k in Effective(rc) ensures Effective(rc)[k] == Effective(sc)[k] {
        assert Entry(k, OptionalList(Effective(rc)[k])) in es;
        OptionalListSame(Effective(rc)[k], Null);
      }
    }
  }

  function OptionalConstraints(o: Option<ResourceConstraints>, order: seq<string>): Value
    requires o.Some? ==> forall k | k in order :: k in o.value.extra
  {
    if o.None? then Null else Object(ConstraintEntries(o.value, order))
  }

  ghost function EffectiveConstraints(o: Option<ResourceConstraints>): Option<map<string, Option<seq<string>>>> {
    if o.None? then None else Some(Effective(o.value))
  }

  // ---------------------------------------------------------------- tokens

  function OptionalSpend(o: Option<MaxSpend>): Value {
    if o.None? then Null else Record(MAX_SPEND_KEYS, [Num(o.value.amount), Str(o.value.currency)])
  }

  lemma SpendSame(o: Option<MaxSpend>, p: Option<MaxSpend>)
    ensures WellFormed(OptionalSpend(o))
    ensures Equivalent(OptionalSpend(o), OptionalSpend(p)) <==> o == p
  {
    if o.Some? && p.Some? {
      var vs, ws := [Num(o.value.amount), Str(o.value.currency)], [Num(p.value.amount), Str(p.value.currency)];
      RecordEquivalent(MAX_SPEND_KEYS, vs, ws);
      assert Equivalent(vs[0], ws[0]) <==> o.value.amount == p.value.amount;
      assert Equivalent(vs[1], ws[1]) <==> o.value.currency == p.value.currency;
    }
  }

  function OptionalNum(o: Option<u16>): Value {
    if o.None? then Null else Num(o.value)
  }

  predicate OrderFits(t: DelegationToken, order: seq<string>) {
    t.resourceConstraints.Some? ==> forall k | k in order :: k in t.resourceConstraints.value.extra
  }

  /** `order` is an iteration order of the token's extra constraints, when it has any. */
  ghost predicate TokenOrder(t: DelegationToken, order: seq<string>)
    ensures TokenOrder(t, order) ==> OrderFits(t, order)
  {
    t.resourceConstraints.Some? ==> IterationOrder(order, t.resourceConstraints.value.extra)
  }

  function TokenParties(t: DelegationToken): (vs: seq<Value>)
    ensures |vs| == 7
  {
    [Str(t.specVersion), Str(t.kind), Str(t.tokenId), Str(t.issuer), Str(t.agentId), Str(t.delegatorId), Str(t.ownerId)]
  }

  function TokenScope(t: DelegationToken, order: seq<string>): (vs: seq<Value>)
    requires OrderFits(t, order)
    ensures |vs| == 5
  {
    [List(t.audience), List(t.allowedActions), OptionalConstraints(t.resourceConstraints, order),
     OptionalSpend(t.maxSpend), OptionalNum(t.maxDelegationDepth)]
  }

  function TokenTerms(fmt: TimeFormat, t: DelegationToken): (vs: seq<Value>)
    ensures |vs| == 7
  {
    [Str(fmt(t.issuedAt)), Str(fmt(t.expiresAt)), OptionalStr(t.intent), Str(t.nonce), Str(t.keyId),
     Str(t.signatureAlg), Str(t.signature)]
  }

  function TokenFields(fmt: TimeFormat, t: DelegationToken, order: seq<string>): (vs: seq<Value>)
    requires OrderFits(t, order)
    ensures |vs| == |TOKEN_KEYS|
  {
    TokenParties(t) + TokenScope(t, order) + TokenTerms(fmt, t)
  }

  /** `canonical_token_payload`: the signature is cleared before the token is serialised. */
  function TokenPayload(fmt: TimeFormat, t: DelegationToken, order: seq<string>): seq<byte>
    requires OrderFits(t, order)
  {
    CanonicalJson(Record(TOKEN_KEYS, TokenFields(fmt, t.(signature := ""), order)))
  }

  /** Tokens that say the same thing to a verifier: equal but for the signature, their resource
      constraints compared by what the flattened object says. */
  ghost predicate SameSigned(t: DelegationToken, u: DelegationToken) {
    t.(signature := "", resourceConstraints := None) == u.(signature := "", resourceConstraints := None)
    && EffectiveConstraints(t.resourceConstraints) == EffectiveConstraints(u.resourceConstraints)
  }

  lemma TokenFieldsWellFormed(fmt: TimeFormat, t: DelegationToken, order: seq<string>)
    requires TokenOrder(t, order)
    ensures WellFormed(Record(TOKEN_KEYS, TokenFields(fmt, t, order)))
  {
    ListSame(t.audience, Null);
    ListSame(t.allowedActions, Null);
    SpendSame(t.maxSpend, None);
    if t.resourceConstraints.Some? {
      ConstraintsWellFormed(t.resourceConstraints.value, order);
    }
    TokenKeysDistinct();
    RecordWellFormed(TOKEN_KEYS, TokenFields(fmt, t, order));
  }

  lemma OptionalConstraintsSame(o: Option<ResourceConstraints>, order: seq<string>,
                                p: Option<ResourceConstraints>, order': seq<string>)
    requires o.Some? ==> IterationOrder(order, o.value.extra)
    requires p.Some? ==> IterationOrder(order', p.value.extra)
    ensures Equivalent(OptionalConstraints(o, order), OptionalConstraints(p, order'))
            <==> EffectiveConstraints(o) == EffectiveConstraints(p)
  {
    if o.Some? && p.Some? {
      ConstraintsEquivalent(o.value, order, p.value, order');
    }
  }

  lemma TokenPartiesSame(t: DelegationToken, u: DelegationToken)
    ensures FieldsEquivalent(TokenParties(t), TokenParties(u))
            <==> t.specVersion == u.specVersion && t.kind == u.kind && t.tokenId == u.tokenId && t.issuer == u.issuer
                 && t.agentId == u.agentId && t.delegatorId == u.delegatorId && t.ownerId == u.ownerId
  {
    var vs, ws := TokenParties(t), TokenParties(u);
    if FieldsEquivalent(vs, ws) {
      assert Equivalent(vs[0], ws[0]) && Equivalent(vs[1], ws[1]) && Equivalent(vs[2], ws[2]) && Equivalent(vs[3], ws[3]);
      assert Equivalent(vs[4], ws[4]) && Equivalent(vs[5], ws[5]) && Equivalent(vs[6], ws[6]);
    }
  }

  lemma TokenScopeSame(t: DelegationToken, order: seq<string>, u: DelegationToken, order': seq<string>)
    requires TokenOrder(t, order) && TokenOrder(u, order')
    ensures FieldsEquivalent(TokenScope(t, order), TokenScope(u, order'))
            <==> t.audience == u.audience && t.allowedActions == u.allowedActions
                 && EffectiveConstraints(t.resourceConstraints) == EffectiveConstraints(u.resourceConstraints)
                 && t.maxSpend == u.maxSpend && t.maxDelegationDepth == u.maxDelegationDepth
  {
    var vs, ws := TokenScope(t, order), TokenScope(u, order');
    ListSame(t.audience, List(u.audience));
    ListSame(t.allowedActions, List(u.allowedActions));
    OptionalConstraintsSame(t.resourceConstraints, order, u.resourceConstraints, order');
    SpendSame(t.maxSpend, u.maxSpend);
    if FieldsEquivalent(vs, ws) {
      assert Equivalent(vs[0], ws[0]) && Equivalent(vs[1], ws[1]) && Equivalent(vs[2], ws[2]);
      assert Equivalent(vs[3], ws[3]) && Equivalent(vs[4], ws[4]);
    }
  }

  lemma TokenTermsSame(fmt: TimeFormat, t: DelegationToken, u: DelegationToken)
    requires Injective(fmt)
    ensures FieldsEquivalent(TokenTerms(fmt, t), TokenTerms(fmt, u))
            <==> t.issuedAt == u.issuedAt && t.expiresAt == u.expiresAt && t.intent == u.intent && t.nonce == u.nonce
                 && t.keyId == u.keyId && t.signatureAlg == u.signatureAlg && t.signature == u.signature
  {
    var vs, ws := TokenTerms(fmt, t), TokenTerms(fmt, u);
    if FieldsEquivalent(vs, ws) {
      assert Equivalent(vs[0], ws[0]) && Equivalent(vs[1], ws[1]) && Equivalent(vs[2], ws[2]) && Equivalent(vs[3], ws[3]);
      assert Equivalent(vs[4], ws[4]) && Equivalent(vs[5], ws[5]) && Equivalent(vs[6], ws[6]);
    }
  }

  lemma TokenFieldsSame(fmt: TimeFormat, t: DelegationToken, order: seq<string>, u: DelegationToken, order': seq<string>)
    requires Injective(fmt) && TokenOrder(t, order) && TokenOrder(u, order')
    requires t.signature == u.signature
    ensures FieldsEquivalent(TokenFields(fmt, t, order), TokenFields(fmt, u, order')) <==> SameSigned(t, u)
  {
    FieldsEquivalentConcat(TokenParties(t), TokenScope(t, order), TokenParties(u), TokenScope(u, order'));
    FieldsEquivalentConcat(TokenParties(t) + TokenScope(t, order), TokenTerms(fmt, t),
                           TokenParties(u) + TokenScope(u, order'), TokenTerms(fmt, u));
    TokenPartiesSame(t, u);
    TokenScopeSame(t, order, u, order');
    TokenTermsSame(fmt, t, u);
  }

  /** Token payloads are faithful: two tokens are signed over the same bytes exactly when they
      say the same thing, whatever order their hash maps iterate in. */
  lemma TokenPayloadIff(fmt: TimeFormat, t: DelegationToken, order: seq<string>, u: DelegationToken, order': seq<string>)
    requires Injective(fmt) && TokenOrder(t, order) && TokenOrder(u, order')
    ensures TokenPayload(fmt, t, order) == TokenPayload(fmt, u, order') <==> SameSigned(t, u)
  {
    var t0, u0 := t.(signature := ""), u.(signature := "");
    TokenFieldsWellFormed(fmt, t0, order);
    TokenFieldsWellFormed(fmt, u0, order');
    var vs, ws := TokenFields(fmt, t0, order), TokenFields(fmt, u0, order');
    CanonicalBytesIffEquivalent(Record(TOKEN_KEYS, vs), Record(TOKEN_KEYS, ws));
    TokenKeysDistinct();
    RecordEquivalent(TOKEN_KEYS, vs, ws);
    TokenFieldsSame(fmt, t0, order, u0, order');
  }

  /** The extra constraints stay clear of the two named ones. */
  predicate ExtraAvoidsNamed(t: DelegationToken) {
    t.resourceConstraints.Some? ==>
      CALENDAR_IDS !in t.resourceConstraints.value.extra && EMAIL_DOMAIN_ALLOWLIST !in t.resourceConstraints.value.extra
  }

  /** Without a clash of names, the signed bytes determine every field but the signature. */
  lemma TokenPayloadDeterminesToken(fmt: TimeFormat, t: DelegationToken, order: seq<string>, u: DelegationToken, order': seq<string>)
    requires Injective(fmt) && TokenOrder(t, order) && TokenOrder(u, order')
    requires ExtraAvoidsNamed(t) && ExtraAvoidsNamed(u)
    ensures TokenPayload(fmt, t, order) == TokenPayload(fmt, u, order') <==> t.(signature := "") == u.(signature := "")
  {
    TokenPayloadIff(fmt, t, order, u, order');
    if SameSigned(t, u) && t.resourceConstraints.Some? {
      var rc, sc := t.resourceConstraints.value, u.resourceConstraints.value;
      EffectiveDeterminesConstraints(rc, sc);
    }
  }

  lemma EffectiveDeterminesConstraints(rc: ResourceConstraints, sc: ResourceConstraints)
    requires Effective(rc) == Effective(sc)
    requires CALENDAR_IDS !in rc.extra && EMAIL_DOMAIN_ALLOWLIST !in rc.extra
    requires CALENDAR_IDS !in sc.extra && EMAIL_DOMAIN_ALLOWLIST !in sc.extra
    ensures rc == sc
  {
    assert |CALENDAR_IDS| != |EMAIL_DOMAIN_ALLOWLIST|;
    assert Effective(rc)[CALENDAR_IDS] == rc.calendarIds && Effective(sc)[CALENDAR_IDS] == sc.calendarIds;
    assert Effective(rc)[EMAIL_DOMAIN_ALLOWLIST] == rc.emailDomainAllowlist;
    assert Effective(sc)[EMAIL_DOMAIN_ALLOWLIST] == sc.emailDomainAllowlist;
    forall k ensures k in rc.extra <==> k in sc.extra {
      assert k in rc.extra <==> k in Effective(rc) && k != CALENDAR_IDS && k != EMAIL_DOMAIN_ALLOWLIST;
      assert k in sc.extra <==> k in Effective(sc) && k != CALENDAR_IDS && k != EMAIL_DOMAIN_ALLOWLIST;
    }
    forall k | k in rc.extra ensures rc.extra[k] == sc.extra[k] {
      assert Effective(rc)[k] == Some(rc.extra[k]) && Effective(sc)[k] == Some(sc.extra[k]);
    }
    assert rc.extra == sc.extra;
  }

  /** A clash of names hides a field from the signature: whatever the named constraint says, the
      payload is the same, because the extra entry of that name is the one printed. */
  lemma ClashingExtraHidesNamed(fmt: TimeFormat, t: DelegationToken, order: seq<string>,
                                calendars: Option<seq<string>>, domains: Option<seq<string>>)
    requires Injective(fmt) && TokenOrder(t, order)
    requires t.resourceConstraints.Some?
    ensures var rc := t.resourceConstraints.value;
            var u := t.(resourceConstraints := Some(rc.(calendarIds := calendars, emailDomainAllowlist := domains)));
            TokenPayload(fmt, t, order) == TokenPayload(fmt, u, order)
            <==> (CALENDAR_IDS in rc.extra || calendars == rc.calendarIds)
                 && (EMAIL_DOMAIN_ALLOWLIST in rc.extra || domains == rc.emailDomainAllowlist)
  {
    var rc := t.resourceConstraints.value;
    var u := t.(resourceConstraints := Some(rc.(calendarIds := calendars, emailDomainAllowlist := domains)));
    TokenPayloadIff(fmt, t, order, u, order);
    NamedShowIff(rc, calendars, domains);
    hide TokenPayload, Effective;
  }

  lemma NamedShowIff(rc: ResourceConstraints, calendars: Option<seq<string>>, domains: Option<seq<string>>)
    ensures Effective(rc) == Effective(rc.(calendarIds := calendars, emailDomainAllowlist := domains))
            <==> (CALENDAR_IDS in rc.extra || calendars == rc.calendarIds)
                 && (EMAIL_DOMAIN_ALLOWLIST in rc.extra || domains == rc.emailDomainAllowlist)
  {
    var sc := rc.(calendarIds := calendars, emailDomainAllowlist := domains);
    var a, b := Effective(rc), Effective(sc);
    assert |CALENDAR_IDS| != |EMAIL_DOMAIN_ALLOWLIST|;
    assert a.Keys == b.Keys;
    assert forall k | k in a && k != CALENDAR_IDS && k != EMAIL_DOMAIN_ALLOWLIST :: a[k] == b[k];
    assert a == b <==> a[CALENDAR_IDS] == b[CALENDAR_IDS] && a[EMAIL_DOMAIN_ALLOWLIST] == b[EMAIL_DOMAIN_ALLOWLIST];
  }

  // ---------------------------------------------------------------- identity documents

  function KeyValue(k: PublicKeyRecord): Value {
    Record(PUBLIC_KEY_KEYS, [Str(k.kid), Str(k.kty), OptionalStr(k.crv), OptionalStr(k.x)])
  }

  lemma KeySame(k: PublicKeyRecord, l: PublicKeyRecord)
    ensures WellFormed(KeyValue(k))
    ensures Equivalent(KeyValue(k), KeyValue(l)) <==> k == l
  {
    var vs := [Str(k.kid), Str(k.kty), OptionalStr(k.crv), OptionalStr(k.x)];
    var ws := [Str(l.kid), Str(l.kty), OptionalStr(l.crv), OptionalStr(l.x)];
    RecordEquivalent(PUBLIC_KEY_KEYS, vs, ws);
    if FieldsEquivalent(vs, ws) {
      assert Equivalent(vs[0], ws[0]) && Equivalent(vs[1], ws[1]) && Equivalent(vs[2], ws[2]) && Equivalent(vs[3], ws[3]);
    }
  }

  function EndpointValue(e: AgentEndpoint): Value {
    Record(ENDPOINT_KEYS, [Str(e.protocol), Str(e.url)])
  }

  lemma EndpointSame(e: AgentEndpoint, f: AgentEndpoint)
    ensures WellFormed(EndpointValue(e))
    ensures Equivalent(EndpointValue(e), EndpointValue(f)) <==> e == f
  {
    var vs, ws := [Str(e.protocol), Str(e.url)], [Str(f.protocol), Str(f.url)];
    RecordEquivalent(ENDPOINT_KEYS, vs, ws);
    if FieldsEquivalent(vs, ws) {
      assert Equivalent(vs[0], ws[0]) && Equivalent(vs[1], ws[1]);
    }
  }

  function OptionalAttestation(o: Option<AttestationRecord>): Value {
    if o.None? then Null
    else Record(ATTESTATION_KEYS, [Str(o.value.typeName), Str(o.value.issuer), Str(o.value.evidenceRef)])
  }

  lemma AttestationSame(o: Option<AttestationRecord>, p: Option<AttestationRecord>)
    ensures WellFormed(OptionalAttestation(o))
    ensures Equivalent(OptionalAttestation(o), OptionalAttestation(p)) <==> o == p
  {
    if o.Some? && p.Some? {
      var vs := [Str(o.value.typeName), Str(o.value.issuer), Str(o.value.evidenceRef)];
      var ws := [Str(p.value.typeName), Str(p.value.issuer), Str(p.value.evidenceRef)];
      RecordEquivalent(ATTESTATION_KEYS, vs, ws);
      if FieldsEquivalent(vs, ws) {
        assert Equivalent(vs[0], ws[0]) && Equivalent(vs[1], ws[1]) && Equivalent(vs[2], ws[2]);
      }
    }
  }

  function KeysValue(ks: seq<PublicKeyRecord>): Value {
    Array(seq(|ks|, i requires 0 <= i < |ks| => KeyValue(ks[i])))
  }

  lemma KeysSame(ks: seq<PublicKeyRecord>, ls: seq<PublicKeyRecord>)
    ensures WellFormed(KeysValue(ks))
    ensures Equivalent(KeysValue(ks), KeysValue(ls)) <==> ks == ls
  {
    forall i | 0 <= i < |ks|
      ensures WellFormed(KeyValue(ks[i])) && (i < |ls| ==> (Equivalent(KeyValue(ks[i]), KeyValue(ls[i])) <==> ks[i] == ls[i]))
    {
      KeySame(ks[i], if i < |ls| then ls[i] else ks[i]);
    }
    var vs, ws := KeysValue(ks).elems, KeysValue(ls).elems;
    if Equivalent(KeysValue(ks), KeysValue(ls)) {
      assert |ks| == |vs| == |ws| == |ls|;
      forall i | 0 <= i < |ks| ensures ks[i] == ls[i] {
        assert Equivalent(vs[i], ws[i]);
      }
    }
  }

  function EndpointsValue(es: seq<AgentEndpoint>): Value {
    Array(seq(|es|, i requires 0 <= i < |es| => EndpointValue(es[i])))
  }

  lemma EndpointsSame(es: seq<AgentEndpoint>, fs: seq<AgentEndpoint>)
    ensures WellFormed(EndpointsValue(es))
    ensures Equivalent(EndpointsValue(es), EndpointsValue(fs)) <==> es == fs
  {
    forall i | 0 <= i < |es|
      ensures WellFormed(EndpointValue(es[i])) && (i < |fs| ==> (Equivalent(EndpointValue(es[i]), EndpointValue(fs[i])) <==> es[i] == fs[i]))
    {
      EndpointSame(es[i], if i < |fs| then fs[i] else es[i]);
    }
    var vs, ws := EndpointsValue(es).elems, EndpointsValue(fs).elems;
    if Equivalent(EndpointsValue(es), EndpointsValue(fs)) {
      assert |es| == |vs| == |ws| == |fs|;
      forall i | 0 <= i < |es| ensures es[i] == fs[i] {
        assert Equivalent(vs[i], ws[i]);
      }
    }
  }

  function IdentityNames(d: AgentIdentityDocument): (vs: seq<Value>)
    ensures |vs| == 8
  {
    [Str(d.specVersion), Str(d.kind), Str(d.agentId), OptionalStr(d.displayName), Str(d.ownerId), Str(d.issuer),
     Str(d.identityType), Str(d.subject)]
  }

  function IdentityFacilities(d: AgentIdentityDocument): (vs: seq<Value>)
    ensures |vs| == 6
  {
    [KeysValue(d.publicKeys), List(d.supportedProtocols), List(d.supportedAuthMethods),
     OptionalList(d.capabilities), EndpointsValue(d.endpoints), OptionalAttestation(d.attestation)]
  }

  function IdentityTerms(fmt: TimeFormat, d: AgentIdentityDocument): (vs: seq<Value>)
    ensures |vs| == 3
  {
    [Str(fmt(d.createdAt)), Str(fmt(d.expiresAt)), Str(d.signature)]
  }

  function IdentityFields(fmt: TimeFormat, d: AgentIdentityDocument): (vs: seq<Value>)
    ensures |vs| == |IDENTITY_KEYS|
  {
    IdentityNames(d) + IdentityFacilities(d) + IdentityTerms(fmt, d)
  }

  /** `canonical_identity_payload`. */
  function IdentityPayload(fmt: TimeFormat, d: AgentIdentityDocument): seq<byte> {
    CanonicalJson(Record(IDENTITY_KEYS, IdentityFields(fmt, d.(signature := ""))))
  }

  lemma IdentityNamesSame(d: AgentIdentityDocument, e: AgentIdentityDocument)
    ensures FieldsEquivalent(IdentityNames(d), IdentityNames(e))
            <==> d.specVersion == e.specVersion && d.kind == e.kind && d.agentId == e.agentId
                 && d.displayName == e.displayName && d.ownerId == e.ownerId && d.issuer == e.issuer
                 && d.identityType == e.identityType && d.subject == e.subject
  {
    var vs, ws := IdentityNames(d), IdentityNames(e);
    if FieldsEquivalent(vs, ws) {
      assert Equivalent(vs[0], ws[0]) && Equivalent(vs[1], ws[1]) && Equivalent(vs[2], ws[2]) && Equivalent(vs[3], ws[3]);
      assert Equivalent(vs[4], ws[4]) && Equivalent(vs[5], ws[5]) && Equivalent(vs[6], ws[6]) && Equivalent(vs[7], ws[7]);
    }
  }

  lemma IdentityFacilitiesSame(d: AgentIdentityDocument, e: AgentIdentityDocument)
    ensures forall i | 0 <= i < 6 :: WellFormed(IdentityFacilities(d)[i])
    ensures FieldsEquivalent(IdentityFacilities(d), IdentityFacilities(e))
            <==> d.publicKeys == e.publicKeys && d.supportedProtocols == e.supportedProtocols
                 && d.supportedAuthMethods == e.supportedAuthMethods && d.capabilities == e.capabilities
                 && d.endpoints == e.endpoints && d.attestation == e.attestation
  {
    var vs, ws := IdentityFacilities(d), IdentityFacilities(e);
    KeysSame(d.publicKeys, e.publicKeys);
    ListSame(d.supportedProtocols, List(e.supportedProtocols));
    ListSame(d.supportedAuthMethods, List(e.supportedAuthMethods));
    OptionalListSame(d.capabilities, OptionalList(e.capabilities));
    EndpointsSame(d.endpoints, e.endpoints);
    AttestationSame(d.attestation, e.attestation);
    if FieldsEquivalent(vs, ws) {
      assert Equivalent(vs[0], ws[0]) && Equivalent(vs[1], ws[1]) && Equivalent(vs[2], ws[2]);
      assert Equivalent(vs[3], ws[3]) && Equivalent(vs[4], ws[4]) && Equivalent(vs[5], ws[5]);
    }
  }

  lemma IdentityTermsSame(fmt: TimeFormat, d: AgentIdentityDocument, e: AgentIdentityDocument)
    requires Injective(fmt)
    ensures FieldsEquivalent(IdentityTerms(fmt, d), IdentityTerms(fmt, e))
            <==> d.createdAt == e.createdAt && d.expiresAt == e.expiresAt && d.signature == e.signature
  {
    var vs, ws := IdentityTerms(fmt, d), IdentityTerms(fmt, e);
    if FieldsEquivalent(vs, ws) {
      assert Equivalent(vs[0], ws[0]) && Equivalent(vs[1], ws[1]) && Equivalent(vs[2], ws[2]);
    }
  }

  lemma IdentityFieldsSame(fmt: TimeFormat, d: AgentIdentityDocument, e: AgentIdentityDocument)
    requires Injective(fmt)
    ensures WellFormed(Record(IDENTITY_KEYS, IdentityFields(fmt, d)))
    ensures FieldsEquivalent(IdentityFields(fmt, d), IdentityFields(fmt, e)) <==> d == e
  {
    FieldsEquivalentConcat(IdentityNames(d), IdentityFacilities(d), IdentityNames(e), IdentityFacilities(e));
    FieldsEquivalentConcat(IdentityNames(d) + IdentityFacilities(d), IdentityTerms(fmt, d),
                           IdentityNames(e) + IdentityFacilities(e), IdentityTerms(fmt, e));
    IdentityNamesSame(d, e);
    IdentityFacilitiesSame(d, e);
    IdentityTermsSame(fmt, d, e);
    var vs := IdentityFields(fmt, d);
    forall i | 0 <= i < |vs| ensures WellFormed(vs[i]) {
      assert 8 <= i < 14 ==> vs[i] == IdentityFacilities(d)[i - 8];
      assert i < 8 ==> vs[i] == IdentityNames(d)[i];
    }
    IdentityKeysDistinct();
    RecordWellFormed(IDENTITY_KEYS, vs);
  }

  /** The signed bytes of an identity document determine every field but the signature. */
  lemma IdentityPayloadIff(fmt: TimeFormat, d: AgentIdentityDocument, e: AgentIdentityDocument)
    requires Injective(fmt)
    ensures IdentityPayload(fmt, d) == IdentityPayload(fmt, e) <==> d.(signature := "") == e.(signature := "")
  {
    var d0, e0 := d.(signature := ""), e.(signature := "");
    IdentityFieldsSame(fmt, d0, e0);
    IdentityFieldsSame(fmt, e0, d0);
    var vs, ws := IdentityFields(fmt, d0), IdentityFields(fmt, e0);
    CanonicalBytesIffEquivalent(Record(IDENTITY_KEYS, vs), Record(IDENTITY_KEYS, ws));
    IdentityKeysDistinct();
    RecordEquivalent(IDENTITY_KEYS, vs, ws);
  }
}
