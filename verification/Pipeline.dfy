/** The evaluation chain (src/engine.rs, src/stages.rs): eight stages in a fixed order, the fifth
    of which makes three store calls. */
module Pipeline {
  import opened Wrappers
  import opened Text
  import opened Models
  import opened Payload
  import opened Signatures
  import opened Contracts
  import opened Policy
  import opened TrustState
  import Json

  type PolicyFunction = (RequestEnvelope, HostContext) -> seq<PolicyCheck>

  /** What an evaluation is given beside the request: the signature scheme, the policy, the host's
      facts, the caller's time, the order in which this process iterates the token's extra
      constraints, and how to word a refusal. */
  datatype Setting = Setting(scheme: Scheme, policy: PolicyFunction, host: HostContext, now: Time, order: seq<string>,
                             explain: Violation -> string)

  /** A request as received, and the envelope it deserialises to, if it does. */
  datatype RawRequest = RawRequest(json: Json.Value, parsed: Option<RequestEnvelope>)

  /** A store whose backend may be down: a call then changes nothing and fails. */
  datatype Store = Store(backend: Backend, available: bool, state: State)
  {
    function Ask(op: Op, clock: Time): (Store, Option<Reply>) {
      if !available then (this, None)
      else
        var (next, reply) := Step(backend, state, op, clock);
        (this.(state := next), Some(reply))
    }
  }

  type Outcome = Result<RequestEnvelope, Violation>

  // ---------------------------------------------------------------- the stages

  function Normalize(raw: RawRequest): Outcome {
    if raw.parsed.None? || !ValidRequest(raw.parsed.value) then Err(Violation(NormalizeRequest, Malformed))
    else Ok(raw.parsed.value)
  }

  /** Host-side aliases rewrite the action to its canonical name before anything checks it. */
  function ApplyActionAliases(e: RequestEnvelope, host: HostContext): RequestEnvelope {
    if e.action in host.actionAliases then e.(action := host.actionAliases[e.action]) else e
  }

  function ValidateProfile(e: RequestEnvelope): Outcome {
    if e.identityDocument.None? || !ProfileCompatible(e.profile, e.identityDocument.value)
    then Err(Violation(ValidateProfileCompatibility, NotSatisfied)) else Ok(e)
  }

  function VerifyBothSignatures(c: Scheme, e: RequestEnvelope, order: seq<string>): Outcome
    requires OrderFits(e.token, order)
  {
    if e.identityDocument.None? then Err(Violation(VerifySignatures, NotSatisfied))
    else
      var doc := e.identityDocument.value;
      if doc.issuer != e.token.issuer then Err(Violation(VerifySignatures, NotSatisfied))
      else if doc.agentId != e.token.agentId then Err(Violation(VerifySignatures, NotSatisfied))
      else if doc.ownerId != e.token.ownerId then Err(Violation(VerifySignatures, NotSatisfied))
      else if !IdentitySigned(c, doc) then Err(Violation(VerifySignatures, NotSatisfied))
      else if VerifyDelegationTokenSignature(c, e.token, order, doc).Err? then Err(Violation(VerifySignatures, NotSatisfied))
      else Ok(e)
  }

  function ValidateIdentityLifetime(e: RequestEnvelope, now: Time, leeway: int): Outcome {
    if e.identityDocument.None? || e.identityDocument.value.expiresAt + leeway <= now
    then Err(Violation(ValidateIdentityDocumentLifetime, NotSatisfied)) else Ok(e)
  }

  function ValidateLifetime(e: RequestEnvelope, now: Time, leeway: int): Outcome {
    if e.token.issuedAt > now + leeway then Err(Violation(ValidateTokenLifetime, NotSatisfied))
    else if e.token.expiresAt + leeway <= now then Err(Violation(ValidateTokenLifetime, NotSatisfied))
    else Ok(e)
  }

  function ValidateBinding(e: RequestEnvelope): Outcome {
    if e.token.agentId != e.agentId then Err(Violation(ValidateTokenBinding, NotSatisfied))
    else if e.token.delegatorId != e.delegatorId then Err(Violation(ValidateTokenBinding, NotSatisfied))
    else if e.audience !in e.token.audience then Err(Violation(ValidateTokenBinding, NotSatisfied))
    else Ok(e)
  }

  function ApplyPolicyChecks(e: RequestEnvelope, host: HostContext, policy: PolicyFunction): Outcome {
    match FirstFailure(policy(e, host))
    case Some(check) => Err(Violation(EvaluatePolicy, CheckFailed(check.name)))
    case None => Ok(e)
  }

  function Refusal(reason: Reason): Outcome {
    Err(Violation(EnforceRevocationAndRedelegation, reason))
  }

  /** What each of the fifth stage's store replies leads to: None to go on. */
  function AfterRevocationReply(reply: Option<Reply>): Option<Outcome> {
    if reply.None? then Some(Refusal(BackendError))
    else if reply == Some(Answer(true)) then Some(Refusal(TokenRevoked)) else None
  }

  function AfterDenyReply(reply: Option<Reply>): Option<Outcome> {
    if reply.None? then Some(Refusal(BackendError))
    else if reply == Some(Answer(true)) then Some(Refusal(AgentDenied)) else None
  }

  function AfterNonceReply(reply: Option<Reply>, e: RequestEnvelope, host: HostContext): Outcome {
    if reply.None? then Refusal(BackendError)
    else if reply != Some(Answer(true)) then Refusal(NonceReplayed)
    else if e.token.maxDelegationDepth.Some? && host.delegationDepth.UnwrapOr(0) > e.token.maxDelegationDepth.value
    then Refusal(DepthExceeded)
    else Ok(e)
  }

  function EnforceRevocation(store: Store, e: RequestEnvelope, host: HostContext, clock: Time): (Store, Outcome) {
    var (s1, revoked) := store.Ask(IsTokenRevoked(e.token.tokenId), clock);
    if AfterRevocationReply(revoked).Some? then (s1, AfterRevocationReply(revoked).value)
    else
      var (s2, denied) := s1.Ask(IsAgentEmergencyDenied(e.agentId), clock);
      if AfterDenyReply(denied).Some? then (s2, AfterDenyReply(denied).value)
      else
        var (s3, consumed) := s2.Ask(ConsumeNonce(e.token.nonce, e.token.expiresAt), clock);
        (s3, AfterNonceReply(consumed, e, host))
  }

  /** Stages one to four, which touch no store. */
  function BeforeStore(x: Setting, raw: RawRequest): Outcome
    requires raw.parsed.Some? ==> OrderFits(raw.parsed.value.token, x.order)
  {
    var e0 :- Normalize(raw);
    var e1 := ApplyActionAliases(e0, x.host);
    var e2 :- ValidateProfile(e1);
    var e3 :- VerifyBothSignatures(x.scheme, e2, x.order);
    ValidateIdentityLifetime(e3, x.now, x.host.Leeway())
  }

  /** Stages six to eight. */
  function AfterStore(x: Setting, e: RequestEnvelope): Outcome {
    var e1 :- ValidateLifetime(e, x.now, x.host.Leeway());
    var e2 :- ValidateBinding(e1);
    ApplyPolicyChecks(e2, x.host, x.policy)
  }

  /** The chain of `evaluate_request_with_policy`. */
  function Evaluate(x: Setting, raw: RawRequest, store: Store, clock: Time): (Store, Outcome)
    requires raw.parsed.Some? ==> OrderFits(raw.parsed.value.token, x.order)
  {
    match BeforeStore(x, raw)
    case Err(v) => (store, Err(v))
    case Ok(e) =>
      var (after, result) := EnforceRevocation(store, e, x.host, clock);
      match result
      case Err(v) => (after, Err(v))
      case Ok(e') => (after, AfterStore(x, e'))
  }

  // ---------------------------------------------------------------- what the stages ask, said outright

  /** The stages in the order they are required to run. */
  const STAGE_ORDER: seq<Stage> := [
    NormalizeRequest, ValidateProfileCompatibility, VerifySignatures, ValidateIdentityDocumentLifetime,
    EnforceRevocationAndRedelegation, ValidateTokenLifetime, ValidateTokenBinding, EvaluatePolicy]

  /** Nonce freshness, as the store decides it. */
  predicate Fresh(store: Store, t: DelegationToken, clock: Time) {
    t.nonce !in store.state.nonces || store.state.nonces[t.nonce] < Min(clock, t.expiresAt)
  }

  /** What a stage demands of the aliased envelope; the first demands there be one. */
  ghost predicate Demands(stage: Stage, x: Setting, raw: RawRequest, store: Store, clock: Time) {
    raw.parsed.Some? &&
    var e := ApplyActionAliases(raw.parsed.value, x.host);
    match stage
    case NormalizeRequest => ValidRequest(raw.parsed.value)
    case ValidateProfileCompatibility => ProfileMet(e)
    case VerifySignatures => e.identityDocument.Some? && WellSigned(x, e.token, e.identityDocument.value)
    case ValidateIdentityDocumentLifetime =>
      e.identityDocument.Some? && x.now < e.identityDocument.value.expiresAt + x.host.clockLeewaySecs * 1_000_000_000
    case EnforceRevocationAndRedelegation => Unbarred(store, e, clock) && Fresh(store, e.token, clock) && DepthAllowed(x, e.token)
    case ValidateTokenLifetime =>
      e.token.issuedAt - x.host.clockLeewaySecs * 1_000_000_000 <= x.now < e.token.expiresAt + x.host.clockLeewaySecs * 1_000_000_000
    case ValidateTokenBinding =>
      (e.token.agentId, e.token.delegatorId) == (e.agentId, e.delegatorId) && e.audience in e.token.audience
    case EvaluatePolicy => AllPassed(x.policy(e, x.host))
  }

  predicate WellSigned(x: Setting, t: DelegationToken, d: AgentIdentityDocument) {
    (d.issuer, d.agentId, d.ownerId) == (t.issuer, t.agentId, t.ownerId)
    && IdentitySigned(x.scheme, d)
    && OrderFits(t, x.order) && TokenSigned(x.scheme, t, x.order, d)
  }

  predicate Unbarred(store: Store, e: RequestEnvelope, clock: Time) {
    store.available && e.token.tokenId !in store.state.revoked && e.agentId !in store.state.denied
  }

  predicate DepthAllowed(x: Setting, t: DelegationToken) {
    t.maxDelegationDepth.Some? ==> x.host.delegationDepth.UnwrapOr(0) <= t.maxDelegationDepth.value
  }

  /** The stage is the first in the required order whose demand is not met. */
  ghost predicate FailsFirst(demands: Stage -> bool, stage: Stage) {
    !demands(stage)
    && exists i :: 0 <= i < |STAGE_ORDER| && STAGE_ORDER[i] == stage && forall j | 0 <= j < i :: demands(STAGE_ORDER[j])
  }

  /** The same, read off one stage after the other. */
  function FirstUnmet(demands: Stage -> bool): Option<Stage> {
    if !demands(NormalizeRequest) then Some(NormalizeRequest)
    else if !demands(ValidateProfileCompatibility) then Some(ValidateProfileCompatibility)
    else if !demands(VerifySignatures) then Some(VerifySignatures)
    else if !demands(ValidateIdentityDocumentLifetime) then Some(ValidateIdentityDocumentLifetime)
    else if !demands(EnforceRevocationAndRedelegation) then Some(EnforceRevocationAndRedelegation)
    else if !demands(ValidateTokenLifetime) then Some(ValidateTokenLifetime)
    else if !demands(ValidateTokenBinding) then Some(ValidateTokenBinding)
    else if !demands(EvaluatePolicy) then Some(EvaluatePolicy)
    else None
  }

  lemma FirstUnmetFailsFirst(demands: Stage -> bool)
    ensures FirstUnmet(demands).None? <==> forall stage :: demands(stage)
    ensures FirstUnmet(demands).Some? ==> FailsFirst(demands, FirstUnmet(demands).value)
  {
    if FirstUnmet(demands).None? {
      forall stage ensures demands(stage) {
        match stage {
          case NormalizeRequest => case ValidateProfileCompatibility => case VerifySignatures =>
          case ValidateIdentityDocumentLifetime => case EnforceRevocationAndRedelegation =>
          case ValidateTokenLifetime => case ValidateTokenBinding => case EvaluatePolicy =>
        }
      }
    } else {
      var stage := FirstUnmet(demands).value;
      var i := match stage
               case NormalizeRequest => 0
               case ValidateProfileCompatibility => 1
               case VerifySignatures => 2
               case ValidateIdentityDocumentLifetime => 3
               case EnforceRevocationAndRedelegation => 4
               case ValidateTokenLifetime => 5
               case ValidateTokenBinding => 6
               case EvaluatePolicy => 7;
      assert STAGE_ORDER[i] == stage;
      assert forall j | 0 <= j < i :: demands(STAGE_ORDER[j]);
    }
  }

  ghost function DemandsOf(x: Setting, raw: RawRequest, store: Store, clock: Time): Stage -> bool {
    stage => Demands(stage, x, raw, store, clock)
  }

  lemma SignaturesIff(x: Setting, e: RequestEnvelope)
    requires OrderFits(e.token, x.order)
    ensures var r := VerifyBothSignatures(x.scheme, e, x.order);
            (r.Ok? <==> e.identityDocument.Some? && WellSigned(x, e.token, e.identityDocument.value))
            && (r.Ok? ==> r.value == e) && (r.Err? ==> r.error.stage == VerifySignatures)
  {
    hide TokenSigned, IdentitySigned, VerifyDelegationTokenSignature;
    if e.identityDocument.Some? {
      TokenVerdictIff(x.scheme, e.token, x.order, e.identityDocument.value);
    }
  }

  lemma BeforeStoreIff(x: Setting, raw: RawRequest, store: Store, clock: Time)
    requires raw.parsed.Some? ==> OrderFits(raw.parsed.value.token, x.order)
    ensures var r := BeforeStore(x, raw);
            var d := DemandsOf(x, raw, store, clock);
            (r.Ok? <==> d(NormalizeRequest) && d(ValidateProfileCompatibility) && d(VerifySignatures)
                        && d(ValidateIdentityDocumentLifetime))
            && (r.Ok? ==> r.value == ApplyActionAliases(raw.parsed.value, x.host))
            && (r.Err? ==> FirstUnmet(d) == Some(r.error.stage))
  {
    hide ValidRequest, ProfileCompatible, ProfileMet, WellSigned, VerifyBothSignatures;
    if raw.parsed.Some? {
      ProfileIff(ApplyActionAliases(raw.parsed.value, x.host));
      SignaturesIff(x, ApplyActionAliases(raw.parsed.value, x.host));
    }
  }

  lemma EnforceIff(x: Setting, raw: RawRequest, store: Store, clock: Time)
    requires raw.parsed.Some?
    ensures var e := ApplyActionAliases(raw.parsed.value, x.host);
            var r := EnforceRevocation(store, e, x.host, clock).1;
            (r.Ok? <==> Demands(EnforceRevocationAndRedelegation, x, raw, store, clock))
            && (r.Ok? ==> r.value == e) && (r.Err? ==> r.error.stage == EnforceRevocationAndRedelegation)
  {
  }

  lemma AfterStoreIff(x: Setting, raw: RawRequest, store: Store, clock: Time)
    requires raw.parsed.Some?
    ensures var r := AfterStore(x, ApplyActionAliases(raw.parsed.value, x.host));
            var d := DemandsOf(x, raw, store, clock);
            (r.Ok? <==> d(ValidateTokenLifetime) && d(ValidateTokenBinding) && d(EvaluatePolicy))
            && (r.Err? ==> Some(r.error.stage) == if !d(ValidateTokenLifetime) then Some(ValidateTokenLifetime)
                                                  else if !d(ValidateTokenBinding) then Some(ValidateTokenBinding)
                                                  else Some(EvaluatePolicy))
  {
  }

  lemma AfterStoreNeedsLifetime(x: Setting, e: RequestEnvelope)
    ensures AfterStore(x, e).Ok? ==> x.now < e.token.expiresAt + x.host.Leeway()
  {
    hide ApplyPolicyChecks;
  }

  lemma OutcomeIsFirstUnmet(x: Setting, raw: RawRequest, store: Store, clock: Time)
    requires raw.parsed.Some? ==> OrderFits(raw.parsed.value.token, x.order)
    ensures var r := Evaluate(x, raw, store, clock).1;
            FirstUnmet(DemandsOf(x, raw, store, clock)) == if r.Ok? then None else Some(r.error.stage)
  {
    BeforeStoreIff(x, raw, store, clock);
    if BeforeStore(x, raw).Ok? {
      EnforceIff(x, raw, store, clock);
      AfterStoreIff(x, raw, store, clock);
    }
  }

  /** A request is allowed exactly when all eight demands are met, and a denial names the first
      stage in the required order whose demand is not. */
  lemma AllowedIff(x: Setting, raw: RawRequest, store: Store, clock: Time)
    requires raw.parsed.Some? ==> OrderFits(raw.parsed.value.token, x.order)
    ensures var r := Evaluate(x, raw, store, clock).1;
            (r.Ok? <==> forall stage :: Demands(stage, x, raw, store, clock))
            && (r.Err? ==> FailsFirst(DemandsOf(x, raw, store, clock), r.error.stage))
  {
    hide Evaluate, Demands;
    var d := DemandsOf(x, raw, store, clock);
    OutcomeIsFirstUnmet(x, raw, store, clock);
    FirstUnmetFailsFirst(d);
    assert forall stage :: d(stage) == Demands(stage, x, raw, store, clock);
  }

  /** A store that does not answer always means denial, and is left as it was. */
  lemma BackendErrorDenies(x: Setting, raw: RawRequest, store: Store, clock: Time)
    requires raw.parsed.Some? ==> OrderFits(raw.parsed.value.token, x.order)
    requires !store.available
    ensures Evaluate(x, raw, store, clock).1.Err? && Evaluate(x, raw, store, clock).0 == store
  {
  }

  /** Exactly when the nonce is spent: the first four stages pass, the store answers, neither
      the token nor the agent is barred and the nonce is fresh, whatever later stages say. */
  ghost predicate SpendsNonce(x: Setting, raw: RawRequest, store: Store, clock: Time) {
    Demands(NormalizeRequest, x, raw, store, clock) && Demands(ValidateProfileCompatibility, x, raw, store, clock)
    && Demands(VerifySignatures, x, raw, store, clock) && Demands(ValidateIdentityDocumentLifetime, x, raw, store, clock)
    && Unbarred(store, raw.parsed.value, clock) && Fresh(store, raw.parsed.value.token, clock)
  }

  /** The whole effect of an evaluation on the store: a spent nonce is recorded until its token
      expires, beside the entries its own pruning keeps; otherwise nothing is recorded, and at
      most that pruning happens. */
  lemma NonceRecordedIff(x: Setting, raw: RawRequest, store: Store, clock: Time)
    requires raw.parsed.Some? ==> OrderFits(raw.parsed.value.token, x.order)
    ensures var after := Evaluate(x, raw, store, clock).0;
            after == store.(state := store.state.(nonces := after.state.nonces))
            && (if SpendsNonce(x, raw, store, clock) then
                  var t := raw.parsed.value.token;
                  after.state.nonces == Retain(store.state.nonces, Min(clock, t.expiresAt))[t.nonce := t.expiresAt]
                else
                  after.state.nonces == store.state.nonces
                  || (raw.parsed.Some?
                      && after.state.nonces == Retain(store.state.nonces, Min(clock, raw.parsed.value.token.expiresAt))))
  {
    hide Evaluate, BeforeStore, EnforceRevocation, Retain, ValidRequest, ProfileMet, WellSigned, Unbarred, Fresh;
    BeforeStoreIff(x, raw, store, clock);
    OnlyEnforcementTouchesStore(x, raw, store, clock);
    if BeforeStore(x, raw).Ok? {
      EnforceEffect(store, BeforeStore(x, raw).value, x.host, clock);
      AliasKeepsCredentials(raw.parsed.value, x.host, store, clock);
    }
  }

  lemma OnlyEnforcementTouchesStore(x: Setting, raw: RawRequest, store: Store, clock: Time)
    requires raw.parsed.Some? ==> OrderFits(raw.parsed.value.token, x.order)
    ensures Evaluate(x, raw, store, clock).0
            == if BeforeStore(x, raw).Ok? then EnforceRevocation(store, BeforeStore(x, raw).value, x.host, clock).0 else store
  {
    hide BeforeStore, EnforceRevocation, AfterStore;
  }

  lemma AliasKeepsCredentials(e: RequestEnvelope, host: HostContext, store: Store, clock: Time)
    ensures var aliased := ApplyActionAliases(e, host);
            aliased.token == e.token && Unbarred(store, aliased, clock) == Unbarred(store, e, clock)
  {
  }

  lemma EnforceEffect(store: Store, e: RequestEnvelope, host: HostContext, clock: Time)
    ensures var after := EnforceRevocation(store, e, host, clock).0;
            var kept := Retain(store.state.nonces, Min(clock, e.token.expiresAt));
            after == store.(state := store.state.(nonces := after.state.nonces))
            && (if Unbarred(store, e, clock) && Fresh(store, e.token, clock)
                then after.state.nonces == kept[e.token.nonce := e.token.expiresAt]
                else after.state.nonces == store.state.nonces || after.state.nonces == kept)
  {
  }

  /** What an allowed evaluation has spent cannot be spent at once again: with the store it left,
      any evaluation of the request is denied, whatever either clock says. */
  lemma ReplayDenied(x: Setting, y: Setting, raw: RawRequest, store: Store, clock: Time, clock': Time)
    requires raw.parsed.Some? ==> OrderFits(raw.parsed.value.token, x.order) && OrderFits(raw.parsed.value.token, y.order)
    requires Evaluate(x, raw, store, clock).1.Ok?
    ensures Evaluate(y, raw, Evaluate(x, raw, store, clock).0, clock').1.Err?
  {
    hide Evaluate, ValidRequest;
    AllowedIff(x, raw, store, clock);
    assert Demands(NormalizeRequest, x, raw, store, clock);
    NonceRecordedIff(x, raw, store, clock);
    var after := Evaluate(x, raw, store, clock).0;
    AllowedSpends(x, raw, store, clock);
    assert !Fresh(after, raw.parsed.value.token, clock');
    EvaluateNeedsFresh(y, raw, after, clock');
  }

  lemma AllowedSpends(x: Setting, raw: RawRequest, store: Store, clock: Time)
    requires forall stage :: Demands(stage, x, raw, store, clock)
    ensures SpendsNonce(x, raw, store, clock)
  {
    assert Demands(EnforceRevocationAndRedelegation, x, raw, store, clock);
    assert Demands(NormalizeRequest, x, raw, store, clock) && Demands(ValidateProfileCompatibility, x, raw, store, clock);
    assert Demands(VerifySignatures, x, raw, store, clock) && Demands(ValidateIdentityDocumentLifetime, x, raw, store, clock);
  }

  lemma EvaluateNeedsFresh(x: Setting, raw: RawRequest, store: Store, clock: Time)
    requires raw.parsed.Some? && OrderFits(raw.parsed.value.token, x.order)
    requires !Fresh(store, raw.parsed.value.token, clock)
    ensures Evaluate(x, raw, store, clock).1.Err?
  {
    hide Evaluate;
    AllowedIff(x, raw, store, clock);
    assert !Demands(EnforceRevocationAndRedelegation, x, raw, store, clock);
  }

  /** All that is asked of a request but that its nonce be fresh. */
  ghost predicate MeetsAllButFreshness(x: Setting, raw: RawRequest, store: Store, clock: Time) {
    Demands(NormalizeRequest, x, raw, store, clock) && Demands(ValidateProfileCompatibility, x, raw, store, clock)
    && Demands(VerifySignatures, x, raw, store, clock) && Demands(ValidateIdentityDocumentLifetime, x, raw, store, clock)
    && Unbarred(store, raw.parsed.value, clock) && DepthAllowed(x, raw.parsed.value.token)
    && Demands(ValidateTokenLifetime, x, raw, store, clock) && Demands(ValidateTokenBinding, x, raw, store, clock)
    && Demands(EvaluatePolicy, x, raw, store, clock)
  }

  lemma AllowedIffFreshAndRest(x: Setting, raw: RawRequest, store: Store, clock: Time)
    requires raw.parsed.Some? && OrderFits(raw.parsed.value.token, x.order)
    ensures Evaluate(x, raw, store, clock).1.Ok?
            <==> MeetsAllButFreshness(x, raw, store, clock) && Fresh(store, raw.parsed.value.token, clock)
  {
    hide Evaluate, ValidRequest, ProfileMet, WellSigned, Fresh, AllPassed;
    AllowedIff(x, raw, store, clock);
    AliasKeepsCredentials(raw.parsed.value, x.host, store, clock);
    FirstUnmetFailsFirst(DemandsOf(x, raw, store, clock));
    assert forall stage :: DemandsOf(x, raw, store, clock)(stage) == Demands(stage, x, raw, store, clock);
  }

  /** With another request allowed in between, a request allowed before is allowed again exactly when
      the other's pruning went past its expiry and it meets all other demands: the lifetime checks
      grant a leeway that the nonce store does not know of. */
  lemma ReplayAfterAnotherIff(x: Setting, y: Setting, z: Setting, raw: RawRequest, other: RawRequest,
                              store: Store, clock: Time, clock': Time, clock'': Time)
    requires raw.parsed.Some? && OrderFits(raw.parsed.value.token, x.order) && OrderFits(raw.parsed.value.token, z.order)
    requires other.parsed.Some? && OrderFits(other.parsed.value.token, y.order)
    requires raw.parsed.value.token.nonce != other.parsed.value.token.nonce
    requires Evaluate(x, raw, store, clock).1.Ok?
    requires Evaluate(y, other, Evaluate(x, raw, store, clock).0, clock').1.Ok?
    ensures var after := Evaluate(y, other, Evaluate(x, raw, store, clock).0, clock').0;
            Evaluate(z, raw, after, clock'').1.Ok?
            <==> MeetsAllButFreshness(z, raw, after, clock'')
                 && raw.parsed.value.token.expiresAt < Min(clock', other.parsed.value.token.expiresAt)
  {
    hide Evaluate, MeetsAllButFreshness;
    var first := Evaluate(x, raw, store, clock).0;
    var after := Evaluate(y, other, first, clock').0;
    AllowedRecords(x, raw, store, clock);
    AllowedRecords(y, other, first, clock');
    AllowedIffFreshAndRest(z, raw, after, clock'');
  }

  lemma AllowedRecords(x: Setting, raw: RawRequest, store: Store, clock: Time)
    requires raw.parsed.Some? && OrderFits(raw.parsed.value.token, x.order)
    requires Evaluate(x, raw, store, clock).1.Ok?
    ensures var t := raw.parsed.value.token;
            Evaluate(x, raw, store, clock).0.state.nonces == Retain(store.state.nonces, Min(clock, t.expiresAt))[t.nonce := t.expiresAt]
  {
    hide Evaluate;
    AllowedIff(x, raw, store, clock);
    AllowedSpends(x, raw, store, clock);
    NonceRecordedIff(x, raw, store, clock);
  }

  /** After the fifth stage the default policy's own depth check is never the one that fails. */
  lemma DepthNeverFailsInPolicy(e: RequestEnvelope, host: HostContext, store: Store, clock: Time)
    requires EnforceRevocation(store, e, host, clock).1.Ok?
    ensures var r := ApplyPolicyChecks(e, host, SimulatePolicy);
            r.Err? ==> r.error.reason != CheckFailed("delegation_depth")
  {
    var checks := SimulatePolicy(e, host);
    var failure := FirstFailure(checks);
    if failure.Some? {
      assert CheckDelegationDepth(e, host).passed;
      var i :| FailsFirstAt(checks, i) && checks[i] == failure.value;
      assert i < 6;
      assert |"delegation_depth"| == 16;
      assert checks[i].name != "delegation_depth";
    }
  }

  // ---------------------------------------------------------------- decisions and audit events

  function Get(v: Json.Value, key: string): Option<Json.Value> {
    if !v.Object? then None else Lookup(v.entries, key)
  }

  function Lookup(es: seq<Json.Entry>, key: string): Option<Json.Value> {
    if es == [] then None else if es[0].key == key then Some(es[0].value) else Lookup(es[1..], key)
  }

  /** `extract_string`: the trimmed text at a path, unless absent, of another kind or blank. */
  function ExtractString(root: Json.Value, path: seq<string>): Option<string>
    decreases |path|
  {
    if path == [] then
      if !root.Str? || Trim(root.s) == "" then None else Some(Trim(root.s))
    else
      match Get(root, path[0])
      case None => None
      case Some(v) => ExtractString(v, path[1..])
  }

  const AUTHORIZED: string := "request authorized"

  function DecisionOf(r: Outcome, explain: Violation -> string): Decision {
    match r
    case Ok(_) => Decision(true, StageName(EvaluatePolicy), AUTHORIZED)
    case Err(v) => Decision(false, StageName(v.stage), explain(v))
  }

  function EventOf(r: Outcome, raw: RawRequest, now: Time, explain: Violation -> string): AuditEvent {
    match r
    case Ok(e) =>
      AuditEvent(now, true, StageName(EvaluatePolicy), AUTHORIZED, e.requestId, Some(e.agentId), Some(e.delegatorId),
                 Some(e.audience), Some(e.action), Some(e.token.tokenId))
    case Err(v) =>
      AuditEvent(now, false, StageName(v.stage), explain(v), ExtractString(raw.json, ["request_id"]),
                 ExtractString(raw.json, ["agent_id"]), ExtractString(raw.json, ["delegator_id"]),
                 ExtractString(raw.json, ["audience"]), ExtractString(raw.json, ["action"]),
                 ExtractString(raw.json, ["delegation_token", "token_id"]))
  }
}
