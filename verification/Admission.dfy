/** What an evaluation lets through, what it answers and what it puts on record, said of the request
    as it was received (src/engine.rs, src/stages.rs, src/profiles.rs). */
module Admission {
  import opened Wrappers
  import opened Text
  import Json
  import opened Models
  import opened Payload
  import opened Contracts
  import opened Policy
  import opened Signatures
  import opened TrustState
  import opened Pipeline

  // ---------------------------------------------------------------- the profile

  /** The second stage denies exactly the requests that pass the first and have no document, or one
      without what their profile asks for; a developer's may be any document. */
  lemma ProfileStageIff(x: Setting, raw: RawRequest, store: Store, clock: Time)
    requires raw.parsed.Some? ==> OrderFits(raw.parsed.value.token, x.order)
    ensures var r := Evaluate(x, raw, store, clock).1;
            r == Err(Violation(ValidateProfileCompatibility, NotSatisfied))
            <==> exists e :: raw.parsed == Some(e) && ValidRequest(e)
                   && (e.identityDocument == None
                       || var d := e.identityDocument.value;
                          (e.profile == Oidc
                           && (d.identityType != "oidc" || !("https://" <= d.issuer) || !Visible(d.subject)
                               || "delegation_token" !in d.supportedAuthMethods))
                          || (e.profile == Spiffe
                              && (d.identityType != "spiffe" || !("spiffe://" <= d.subject)
                                  || "delegation_token" !in d.supportedAuthMethods
                                  || forall p | p in d.supportedProtocols :: p != "http" && p != "mcp" && p != "a2a")))
  {
    hide Evaluate, ValidRequest, ProfileMet, Visible;
    ProfileStageDenies(x, raw, store, clock);
    if raw.parsed.Some? && raw.parsed.value.identityDocument.Some? {
      ProfileUnmetIff(raw.parsed.value);
    } else if raw.parsed.Some? {
      ProfileIff(raw.parsed.value);
    }
  }

  lemma ProfileUnmetIff(e: RequestEnvelope)
    requires e.identityDocument.Some?
    ensures var d := e.identityDocument.value;
            !ProfileMet(e)
            <==> (e.profile == Oidc
                  && (d.identityType != "oidc" || !("https://" <= d.issuer) || !Visible(d.subject)
                      || "delegation_token" !in d.supportedAuthMethods))
                 || (e.profile == Spiffe
                     && (d.identityType != "spiffe" || !("spiffe://" <= d.subject)
                         || "delegation_token" !in d.supportedAuthMethods
                         || forall p | p in d.supportedProtocols :: p != "http" && p != "mcp" && p != "a2a"))
  {
    hide Visible;
    PrefixIff("https://", e.identityDocument.value.issuer);
    PrefixIff("spiffe://", e.identityDocument.value.subject);
  }

  lemma ProfileStageDenies(x: Setting, raw: RawRequest, store: Store, clock: Time)
    requires raw.parsed.Some? ==> OrderFits(raw.parsed.value.token, x.order)
    ensures Evaluate(x, raw, store, clock).1 == Err(Violation(ValidateProfileCompatibility, NotSatisfied))
            <==> raw.parsed.Some? && ValidRequest(raw.parsed.value) && !ProfileMet(raw.parsed.value)
  {
    hide Evaluate, ValidRequest, ProfileMet, WellSigned, Fresh, Unbarred, AllPassed;
    OutcomeIsFirstUnmet(x, raw, store, clock);
    DenialReason(x, raw, store, clock);
    if raw.parsed.Some? {
      ProfileSeesNoAction(raw.parsed.value, ApplyActionAliases(raw.parsed.value, x.host).action);
    }
  }

  lemma ProfileSeesNoAction(e: RequestEnvelope, action: string)
    ensures ProfileMet(e.(action := action)) <==> ProfileMet(e)
  {
  }

  // ---------------------------------------------------------------- the action

  /** The envelope that is checked: as sent, but for the canonical name of a listed alias. */
  predicate Canonically(sent: RequestEnvelope, aliases: map<string, string>, checked: RequestEnvelope) {
    checked.(action := sent.action) == sent
    && (sent.action in aliases.Keys ==> checked.action == aliases[sent.action])
    && (sent.action !in aliases.Keys ==> checked.action == sent.action)
  }

  lemma AliasesApplied(e: RequestEnvelope, host: HostContext)
    ensures Canonically(e, host.actionAliases, ApplyActionAliases(e, host))
  {
  }

  /** What is allowed is the request under its action's canonical name, and that name is what the
      policy passed: under the default policy, one of the actions the token lists. */
  lemma AllowedActionIsCanonical(x: Setting, raw: RawRequest, store: Store, clock: Time)
    requires raw.parsed.Some? ==> OrderFits(raw.parsed.value.token, x.order)
    requires Evaluate(x, raw, store, clock).1.Ok?
    ensures var e := Evaluate(x, raw, store, clock).1.value;
            raw.parsed.Some? && Canonically(raw.parsed.value, x.host.actionAliases, e)
            && (forall i | 0 <= i < |x.policy(e, x.host)| :: x.policy(e, x.host)[i].passed)
            && (x.policy(e, x.host) == SimulatePolicy(e, x.host) ==> e.action in raw.parsed.value.token.allowedActions)
  {
    AllowedValue(x, raw, store, clock);
    AliasesApplied(raw.parsed.value, x.host);
    var e := Evaluate(x, raw, store, clock).1.value;
    hide Evaluate;
    if x.policy(e, x.host) == SimulatePolicy(e, x.host) {
      assert SimulatePolicy(e, x.host)[0].passed;
    }
  }

  lemma AllowedValue(x: Setting, raw: RawRequest, store: Store, clock: Time)
    requires raw.parsed.Some? ==> OrderFits(raw.parsed.value.token, x.order)
    requires Evaluate(x, raw, store, clock).1.Ok?
    ensures raw.parsed.Some? && Evaluate(x, raw, store, clock).1.value == ApplyActionAliases(raw.parsed.value, x.host)
    ensures AllPassed(x.policy(ApplyActionAliases(raw.parsed.value, x.host), x.host))
  {
    hide ValidRequest, WellSigned, Fresh, Unbarred, AllPassed;
    AllowedIff(x, raw, store, clock);
    assert Demands(EvaluatePolicy, x, raw, store, clock);
    BeforeStoreIff(x, raw, store, clock);
    EnforceIff(x, raw, store, clock);
  }

  /** An allowed request, its token and its document are of the one version and of their kinds. */
  lemma AllowedIsOfItsKind(x: Setting, raw: RawRequest, store: Store, clock: Time)
    requires raw.parsed.Some? ==> OrderFits(raw.parsed.value.token, x.order)
    requires Evaluate(x, raw, store, clock).1.Ok?
    ensures exists e, d :: raw.parsed == Some(e) && e.identityDocument == Some(d)
              && e.specVersion == "0.1" && e.token.specVersion == "0.1" && d.specVersion == "0.1"
              && e.kind == "TrustRequestEnvelope" && e.token.kind == "DelegationToken" && d.kind == "AgentIdentityDocument"
  {
    hide Evaluate, ValidRequest, ValidDelegationToken, ValidIdentityDocument, AllVisible, SomeAllVisible, VisibleIfGiven;
    AllowedIff(x, raw, store, clock);
    assert Demands(NormalizeRequest, x, raw, store, clock) && Demands(VerifySignatures, x, raw, store, clock);
    var e := raw.parsed.value;
    RequestPassesIff(e);
    TokenPassesIff(e.token);
    DocumentPassesIff(e.identityDocument.value);
  }

  // ---------------------------------------------------------------- the reasons

  /** Which refusal the fifth stage gives, told from the state it found. */
  ghost predicate StoreRefuses(reason: Reason, x: Setting, e: RequestEnvelope, store: Store, clock: Time) {
    var t, s := e.token, store.state;
    var unbarred := store.available && t.tokenId !in s.revoked && e.agentId !in s.denied;
    var held := t.nonce in s.nonces && (s.nonces[t.nonce] >= clock || s.nonces[t.nonce] >= t.expiresAt);
    match reason
    case BackendError => !store.available
    case TokenRevoked => store.available && t.tokenId in s.revoked
    case AgentDenied => store.available && t.tokenId !in s.revoked && e.agentId in s.denied
    case NonceReplayed => unbarred && held
    case DepthExceeded => unbarred && !held && exists max :: t.maxDelegationDepth == Some(max) && x.host.delegationDepth.UnwrapOr(0) > max
    case _ => false
  }

  lemma EnforceReason(x: Setting, e: RequestEnvelope, store: Store, clock: Time)
    ensures var r := EnforceRevocation(store, e, x.host, clock).1;
            r.Err? ==> StoreRefuses(r.error.reason, x, e, store, clock)
  {
  }

  /** The reason a stage may give, told from the request as sent, the store and the policy's checks:
      the first failing one's name, and nothing after it was looked at. */
  ghost predicate ReasonFits(v: Violation, x: Setting, raw: RawRequest, store: Store, clock: Time) {
    match v.stage
    case NormalizeRequest => v.reason == Malformed
    case EnforceRevocationAndRedelegation => raw.parsed.Some? && StoreRefuses(v.reason, x, raw.parsed.value, store, clock)
    case EvaluatePolicy =>
      raw.parsed.Some? && exists e, i: nat :: Canonically(raw.parsed.value, x.host.actionAliases, e) && PolicyRefuses(x.policy(e, x.host), i, v.reason)
    case _ => v.reason == NotSatisfied
  }

  predicate PolicyRefuses(checks: seq<PolicyCheck>, i: nat, reason: Reason) {
    i < |checks| && reason == CheckFailed(checks[i].name) && !checks[i].passed
    && forall j | 0 <= j < i :: checks[j].passed
  }

  lemma DenialReason(x: Setting, raw: RawRequest, store: Store, clock: Time)
    requires raw.parsed.Some? ==> OrderFits(raw.parsed.value.token, x.order)
    ensures var r := Evaluate(x, raw, store, clock).1;
            r.Err? ==> ReasonFits(r.error, x, raw, store, clock)
  {
    hide ValidRequest, ProfileMet, ProfileCompatible, TokenSigned, IdentitySigned, EnforceRevocation, ApplyPolicyChecks,
      VerifyDelegationTokenSignature, StoreRefuses, BeforeStore, PolicyRefuses, WellSigned, Fresh, Unbarred, AllPassed;
    BeforeStoreReason(x, raw);
    if BeforeStore(x, raw).Ok? {
      BeforeStoreIff(x, raw, store, clock);
      var sent, e := raw.parsed.value, BeforeStore(x, raw).value;
      EnforceIff(x, raw, store, clock);
      AliasesApplied(sent, x.host);
      EnforceReason(x, e, store, clock);
      RefusalSeesNoAction(x, sent, e.action, store, clock);
      PolicyReason(x, e);
    }
  }

  lemma BeforeStoreReason(x: Setting, raw: RawRequest)
    requires raw.parsed.Some? ==> OrderFits(raw.parsed.value.token, x.order)
    ensures var r := BeforeStore(x, raw);
            r.Err? ==> r.error.stage in {NormalizeRequest, ValidateProfileCompatibility, VerifySignatures, ValidateIdentityDocumentLifetime}
                       && r.error.reason == if r.error.stage == NormalizeRequest then Malformed else NotSatisfied
  {
    hide ValidRequest, ProfileCompatible, TokenSigned, IdentitySigned, VerifyDelegationTokenSignature;
  }

  lemma RefusalSeesNoAction(x: Setting, e: RequestEnvelope, action: string, store: Store, clock: Time)
    ensures forall reason ::
              StoreRefuses(reason, x, e.(action := action), store, clock) <==> StoreRefuses(reason, x, e, store, clock)
  {
  }

  lemma PolicyReason(x: Setting, e: RequestEnvelope)
    ensures var r := ApplyPolicyChecks(e, x.host, x.policy);
            r.Err? ==> r.error.stage == EvaluatePolicy && exists i: nat :: PolicyRefuses(x.policy(e, x.host), i, r.error.reason)
  {
    var checks := x.policy(e, x.host);
    if FirstFailure(checks).Some? {
      var i :| FailsFirstAt(checks, i) && checks[i] == FirstFailure(checks).value;
      assert PolicyRefuses(checks, i, CheckFailed(checks[i].name));
    }
  }

  // ---------------------------------------------------------------- the record

  /** The value the object holds under the key. */
  predicate Member(v: Json.Value, key: string, held: Json.Value) {
    v.Object? && exists i | 0 <= i < |v.entries| :: v.entries[i] == Json.Entry(key, held) && forall j | 0 <= j < i :: v.entries[j].key != key
  }

  ghost predicate Reaches(root: Json.Value, path: seq<string>, v: Json.Value)
    decreases |path|
  {
    if path == [] then v == root else exists inner :: Member(root, path[0], inner) && Reaches(inner, path[1..], v)
  }

  /** A field on record is the text found at the path, without the whitespace around it; none is on
      record when there is no text there or one of whitespace only. */
  ghost predicate Quotes(field: Option<string>, root: Json.Value, path: seq<string>) {
    match field
    case Some(t) => t != "" && exists s :: Reaches(root, path, Json.Str(s)) && Trimmed(s, t)
    case None => forall s :: Reaches(root, path, Json.Str(s)) ==> !Visible(s)
  }

  lemma {:induction false} LookupIs(es: seq<Json.Entry>, key: string, held: Json.Value)
    ensures Lookup(es, key) == Some(held) <==> Member(Json.Object(es), key, held)
  {
    if es != [] {
      LookupIs(es[1..], key, held);
      if es[0].key == key {
        assert Lookup(es, key) == Some(es[0].value);
        if es[0].value == held {
          assert es[0] == Json.Entry(key, held);
        }
      } else if Member(Json.Object(es[1..]), key, held) {
        var i :| 0 <= i < |es[1..]| && es[1..][i] == Json.Entry(key, held) && forall j | 0 <= j < i :: es[1..][j].key != key;
        assert forall j | 1 <= j < i + 1 :: es[j] == es[1..][j - 1];
        assert es[i + 1] == Json.Entry(key, held);
      }
    }
  }

  lemma GetIs(v: Json.Value, key: string, held: Json.Value)
    ensures Get(v, key) == Some(held) <==> Member(v, key, held)
  {
    if v.Object? {
      LookupIs(v.entries, key, held);
    }
  }

  lemma {:induction false} ExtractQuotes(root: Json.Value, path: seq<string>)
    ensures Quotes(ExtractString(root, path), root, path)
    decreases |path|
  {
    hide Trimmed, Visible, Trim, Member, Get;
    if path == [] {
      if root.Str? {
        VisibleIff(root.s);
        TrimIsExact(root.s);
      }
    } else {
      forall held ensures Get(root, path[0]) == Some(held) <==> Member(root, path[0], held) {
        GetIs(root, path[0], held);
      }
      if Get(root, path[0]).Some? {
        ExtractQuotes(Get(root, path[0]).value, path[1..]);
      }
    }
  }

  /** The event of an allowed evaluation repeats the request under its action's canonical name. */
  lemma AllowedEventTells(x: Setting, raw: RawRequest, store: Store, clock: Time)
    requires raw.parsed.Some? ==> OrderFits(raw.parsed.value.token, x.order)
    requires Evaluate(x, raw, store, clock).1.Ok?
    ensures var r := Evaluate(x, raw, store, clock).1;
            var event := EventOf(r, raw, x.now, x.explain);
            event.occurredAt == x.now && event.allowed
            && event.stage == "evaluate_policy" && event.reason == "request authorized"
            && raw.parsed.Some? && Canonically(raw.parsed.value, x.host.actionAliases, r.value)
            && event.requestId == raw.parsed.value.requestId && event.agentId == Some(raw.parsed.value.agentId)
            && event.delegatorId == Some(raw.parsed.value.delegatorId) && event.audience == Some(raw.parsed.value.audience)
            && event.action == Some(r.value.action) && event.tokenId == Some(raw.parsed.value.token.tokenId)
  {
    hide Evaluate, AllPassed;
    AllowedValue(x, raw, store, clock);
    AliasesApplied(raw.parsed.value, x.host);
  }

  /** The event of a denied one names the stage and the reason, and quotes the request as sent. */
  lemma DeniedEventTells(x: Setting, raw: RawRequest, store: Store, clock: Time)
    requires raw.parsed.Some? ==> OrderFits(raw.parsed.value.token, x.order)
    requires Evaluate(x, raw, store, clock).1.Err?
    ensures var v := Evaluate(x, raw, store, clock).1.error;
            var event := EventOf(Err(v), raw, x.now, x.explain);
            event.occurredAt == x.now && !event.allowed && StageIsNamed(v.stage, event.stage) && event.reason == x.explain(v)
            && Quotes(event.requestId, raw.json, ["request_id"]) && Quotes(event.agentId, raw.json, ["agent_id"])
            && Quotes(event.delegatorId, raw.json, ["delegator_id"]) && Quotes(event.audience, raw.json, ["audience"])
            && Quotes(event.action, raw.json, ["action"])
            && Quotes(event.tokenId, raw.json, ["delegation_token", "token_id"])
  {
    hide Evaluate, ExtractString, Quotes;
    ExtractQuotes(raw.json, ["request_id"]);
    ExtractQuotes(raw.json, ["agent_id"]);
    ExtractQuotes(raw.json, ["delegator_id"]);
    ExtractQuotes(raw.json, ["audience"]);
    ExtractQuotes(raw.json, ["action"]);
    ExtractQuotes(raw.json, ["delegation_token", "token_id"]);
  }

  /** The stages under the names they go by outside. */
  predicate StageIsNamed(stage: Stage, name: string) {
    (stage.NormalizeRequest? && name == "normalize_request")
    || (stage.ValidateProfileCompatibility? && name == "validate_profile_compatibility")
    || (stage.VerifySignatures? && name == "verify_signatures")
    || (stage.ValidateIdentityDocumentLifetime? && name == "validate_identity_document_lifetime")
    || (stage.EnforceRevocationAndRedelegation? && name == "enforce_revocation_and_redelegation")
    || (stage.ValidateTokenLifetime? && name == "validate_token_lifetime")
    || (stage.ValidateTokenBinding? && name == "validate_token_binding")
    || (stage.EvaluatePolicy? && name == "evaluate_policy")
  }

  /** The decision returned says the same: it allows exactly what was let through. */
  lemma DecisionTells(x: Setting, raw: RawRequest, store: Store, clock: Time)
    requires raw.parsed.Some? ==> OrderFits(raw.parsed.value.token, x.order)
    ensures var r := Evaluate(x, raw, store, clock).1;
            var decision, event := DecisionOf(r, x.explain), EventOf(r, raw, x.now, x.explain);
            (decision.allowed <==> r.Ok?)
            && (r.Ok? ==> decision.stage == "evaluate_policy" && decision.reason == "request authorized")
            && (r.Err? ==> StageIsNamed(r.error.stage, decision.stage) && decision.reason == x.explain(r.error))
            && (decision.allowed, decision.stage, decision.reason) == (event.allowed, event.stage, event.reason)
  {
    hide Evaluate;
  }
}
