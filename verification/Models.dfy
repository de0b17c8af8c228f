/** The wire and host data types (src/models.rs). Instants are nanosecond counts. */
module Models {
  import opened Wrappers

  type Time = int
  type i64 = x: int | -0x8000_0000_0000_0000 <= x < 0x8000_0000_0000_0000
  type u16 = x: int | 0 <= x < 0x1_0000

  /** A panel's scores; their number is counted in a `u32`. */
  type Scores = s: seq<u16> | |s| < 0x1_0000_0000

  const SECOND: int := 1_000_000_000

  datatype MaxSpend = MaxSpend(amount: i64, currency: string)

  datatype ResourceConstraints = ResourceConstraints(
    calendarIds: Option<seq<string>>,
    emailDomainAllowlist: Option<seq<string>>,
    extra: map<string, seq<string>>)

  datatype DelegationToken = DelegationToken(
    specVersion: string,
    kind: string,
    tokenId: string,
    issuer: string,
    agentId: string,
    delegatorId: string,
    ownerId: string,
    audience: seq<string>,
    allowedActions: seq<string>,
    resourceConstraints: Option<ResourceConstraints>,
    maxSpend: Option<MaxSpend>,
    maxDelegationDepth: Option<u16>,
    issuedAt: Time,
    expiresAt: Time,
    intent: Option<string>,
    nonce: string,
    keyId: string,
    signatureAlg: string,
    signature: string)

  datatype PublicKeyRecord = PublicKeyRecord(kid: string, kty: string, crv: Option<string>, x: Option<string>)

  datatype AgentEndpoint = AgentEndpoint(protocol: string, url: string)

  datatype AttestationRecord = AttestationRecord(typeName: string, issuer: string, evidenceRef: string)

  datatype AgentIdentityDocument = AgentIdentityDocument(
    specVersion: string,
    kind: string,
    agentId: string,
    displayName: Option<string>,
    ownerId: string,
    issuer: string,
    identityType: string,
    subject: string,
    publicKeys: seq<PublicKeyRecord>,
    supportedProtocols: seq<string>,
    supportedAuthMethods: seq<string>,
    capabilities: Option<seq<string>>,
    endpoints: seq<AgentEndpoint>,
    attestation: Option<AttestationRecord>,
    createdAt: Time,
    expiresAt: Time,
    signature: string)

  datatype TrustProfile = Developer | Oidc | Spiffe

  datatype RuntimeContext = RuntimeContext(
    requestedSpend: Option<i64>,
    spendCurrency: Option<string>,
    targetEmail: Option<string>,
    targetCalendarId: Option<string>)

  datatype RequestEnvelope = RequestEnvelope(
    specVersion: string,
    kind: string,
    requestId: Option<string>,
    profile: TrustProfile,
    agentId: string,
    delegatorId: string,
    audience: string,
    action: string,
    resource: Option<string>,
    runtimeContext: RuntimeContext,
    identityDocument: Option<AgentIdentityDocument>,
    token: DelegationToken)

  /** Facts from trusted infrastructure. The leeway stays within what a chrono duration holds. */
  datatype HostContext = HostContext(
    delegationDepth: Option<u16>,
    cognitiveJudgeScoresBps: Option<Scores>,
    cognitiveChallengePassBps: Option<u16>,
    reputationScoreBps: Option<u16>,
    riskChallengePassed: Option<bool>,
    extraApprovalGranted: Option<bool>,
    clockLeewaySecs: nat,
    actionAliases: map<string, string>)
  {
    function Leeway(): int {
      clockLeewaySecs * SECOND
    }
  }

  /** The eight stages of the evaluation chain. */
  datatype Stage =
    | NormalizeRequest
    | ValidateProfileCompatibility
    | VerifySignatures
    | ValidateIdentityDocumentLifetime
    | EnforceRevocationAndRedelegation
    | ValidateTokenLifetime
    | ValidateTokenBinding
    | EvaluatePolicy

  /** Why a stage refused; only causes another component depends on are told apart, and how they
      are worded is a parameter of the evaluation. */
  datatype Reason =
    | Malformed
    | NotSatisfied
    | BackendError
    | TokenRevoked
    | AgentDenied
    | NonceReplayed
    | DepthExceeded
    | CheckFailed(name: string)

  datatype Violation = Violation(stage: Stage, reason: Reason)

  function StageName(s: Stage): string {
    match s
    case NormalizeRequest => "normalize_request"
    case ValidateProfileCompatibility => "validate_profile_compatibility"
    case VerifySignatures => "verify_signatures"
    case ValidateIdentityDocumentLifetime => "validate_identity_document_lifetime"
    case EnforceRevocationAndRedelegation => "enforce_revocation_and_redelegation"
    case ValidateTokenLifetime => "validate_token_lifetime"
    case ValidateTokenBinding => "validate_token_binding"
    case EvaluatePolicy => "evaluate_policy"
  }

  datatype Decision = Decision(allowed: bool, stage: string, reason: string)

  datatype AuditEvent = AuditEvent(
    occurredAt: Time,
    allowed: bool,
    stage: string,
    reason: string,
    requestId: Option<string>,
    agentId: Option<string>,
    delegatorId: Option<string>,
    audience: Option<string>,
    action: Option<string>,
    tokenId: Option<string>)

  datatype PolicyCheck = PolicyCheck(name: string, passed: bool)
}
