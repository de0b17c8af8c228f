/** The default policy's seven checks (src/policy.rs). */
module Policy {
  import opened Wrappers
  import opened Text
  import opened Models

  const MIN_COGNITIVE_JUDGES: nat := 2
  const MIN_COGNITIVE_AVG_SCORE_BPS: nat := 8_500
  const MIN_COGNITIVE_CHALLENGE_PASS_BPS: nat := 9_000
  const REPUTATION_ALERT_THRESHOLD_BPS: nat := 7_000
  const TWO_TO_THE_32: nat := 0x1_0000_0000

  function CheckAllowedAction(e: RequestEnvelope): PolicyCheck {
    PolicyCheck("allowed_actions", e.action in e.token.allowedActions)
  }

  /** The `u32` running sum, which wraps where overflow is not checked. */
  function WrappingSum(scores: seq<u16>): (r: nat)
    ensures r < TWO_TO_THE_32
  {
    if scores == [] then 0 else (WrappingSum(scores[..|scores| - 1]) + scores[|scores| - 1]) % TWO_TO_THE_32
  }

  function AverageReaches(scores: seq<u16>): bool
    requires 0 < |scores| < TWO_TO_THE_32
  {
    WrappingSum(scores) / |scores| >= MIN_COGNITIVE_AVG_SCORE_BPS
  }

  function CheckCognitiveGate(c: HostContext): PolicyCheck {
    PolicyCheck("cognitive_gate",
      c.cognitiveJudgeScoresBps.None?
      || (var scores := c.cognitiveJudgeScoresBps.value;
          |scores| >= MIN_COGNITIVE_JUDGES && AverageReaches(scores)
          && c.cognitiveChallengePassBps.Some? && c.cognitiveChallengePassBps.value >= MIN_COGNITIVE_CHALLENGE_PASS_BPS))
  }

  function CheckReputationRiskMultiplier(c: HostContext): PolicyCheck {
    PolicyCheck("reputation_risk_multiplier",
      c.reputationScoreBps.None? || c.reputationScoreBps.value >= REPUTATION_ALERT_THRESHOLD_BPS
      || c.riskChallengePassed.UnwrapOr(false) || c.extraApprovalGranted.UnwrapOr(false))
  }

  function CheckCalendarConstraint(e: RequestEnvelope): PolicyCheck {
    PolicyCheck("calendar_constraint",
      match Calendars(e.token)
      case None => true
      case Some(ids) => e.runtimeContext.targetCalendarId.None? || e.runtimeContext.targetCalendarId.value in ids)
  }

  function CheckEmailDomainAllowlist(e: RequestEnvelope): PolicyCheck {
    PolicyCheck("email_domain_allowlist",
      match Domains(e.token)
      case None => true
      case Some(allowed) =>
        e.runtimeContext.targetEmail.None?
        || (var domain := AfterLast(e.runtimeContext.targetEmail.value, '@');
            domain.Some? && domain.value in allowed))
  }

  function CheckMaxSpend(e: RequestEnvelope): PolicyCheck {
    PolicyCheck("max_spend",
      match e.token.maxSpend
      case None => true
      case Some(max) =>
        e.runtimeContext.requestedSpend.None?
        || (e.runtimeContext.spendCurrency == Some(max.currency) && e.runtimeContext.requestedSpend.value <= max.amount))
  }

  function CheckDelegationDepth(e: RequestEnvelope, c: HostContext): PolicyCheck {
    PolicyCheck("delegation_depth",
      e.token.maxDelegationDepth.None? || c.delegationDepth.None? || c.delegationDepth.value <= e.token.maxDelegationDepth.value)
  }

  function Calendars(t: DelegationToken): Option<seq<string>> {
    if t.resourceConstraints.None? then None else t.resourceConstraints.value.calendarIds
  }

  function Domains(t: DelegationToken): Option<seq<string>> {
    if t.resourceConstraints.None? then None else t.resourceConstraints.value.emailDomainAllowlist
  }

  /** `simulate_policy`, the default policy. */
  function SimulatePolicy(e: RequestEnvelope, c: HostContext): seq<PolicyCheck> {
    [CheckAllowedAction(e), CheckCognitiveGate(c), CheckReputationRiskMultiplier(c), CheckCalendarConstraint(e),
     CheckEmailDomainAllowlist(e), CheckMaxSpend(e), CheckDelegationDepth(e, c)]
  }

  predicate AllPassed(checks: seq<PolicyCheck>) {
    forall i | 0 <= i < |checks| :: checks[i].passed
  }

  /** The check a denial reports: the first that failed. */
  function FirstFailure(checks: seq<PolicyCheck>): (r: Option<PolicyCheck>)
    ensures r.None? <==> AllPassed(checks)
    ensures r.Some? ==> exists i :: FailsFirstAt(checks, i) && checks[i] == r.value
  {
    if checks == [] then None
    else if !checks[0].passed then
      assert FailsFirstAt(checks, 0);
      Some(checks[0])
    else
      var r := FirstFailure(checks[1..]);
      assert r.Some? ==> exists i :: FailsFirstAt(checks, i) && checks[i] == r.value by {
        if r.Some? {
          var i :| FailsFirstAt(checks[1..], i) && checks[1..][i] == r.value;
          assert FailsFirstAt(checks, i + 1);
        }
      }
      r
  }

  predicate FailsFirstAt(checks: seq<PolicyCheck>, i: int) {
    0 <= i < |checks| && !checks[i].passed && forall j | 0 <= j < i :: checks[j].passed
  }

  // ---------------------------------------------------------------- the cognitive average

  function Sum(scores: seq<u16>): nat {
    if scores == [] then 0 else Sum(scores[..|scores| - 1]) + scores[|scores| - 1]
  }

  lemma WrapOnceMore(sum: nat, score: nat)
    ensures (sum % TWO_TO_THE_32 + score) % TWO_TO_THE_32 == (sum + score) % TWO_TO_THE_32
  {
  }

  lemma {:induction false} WrappingSumIsSum(scores: seq<u16>)
    ensures WrappingSum(scores) == Sum(scores) % TWO_TO_THE_32
    ensures Sum(scores) <= 65535 * |scores|
  {
    if scores != [] {
      WrappingSumIsSum(scores[..|scores| - 1]);
      WrapOnceMore(Sum(scores[..|scores| - 1]), scores[|scores| - 1]);
    }
  }

  /** For any number of judges the floored average reaches the threshold exactly when the wrapped
      sum is at least the threshold once per judge. */
  lemma AverageIff(scores: seq<u16>)
    requires 0 < |scores| < TWO_TO_THE_32
    ensures AverageReaches(scores) <==> Sum(scores) % TWO_TO_THE_32 >= 8_500 * |scores|
  {
    WrappingSumIsSum(scores);
    FlooredQuotient(WrappingSum(scores), |scores|, MIN_COGNITIVE_AVG_SCORE_BPS);
  }

  lemma FlooredQuotient(a: nat, n: nat, q: nat)
    requires n > 0
    ensures a / n >= q <==> a >= q * n
  {
    var d := a / n;
    assert a == d * n + a % n;
    if d >= q {
      assert d * n >= q * n;
    } else {
      assert (d + 1) * n <= q * n;
      assert (d + 1) * n == d * n + n;
    }
  }

  /** With up to 65537 judges nothing wraps: flooring the average loses nothing. */
  lemma AverageIffForRealPanels(scores: seq<u16>)
    requires 0 < |scores| <= 65_537
    ensures AverageReaches(scores) <==> Sum(scores) >= 8_500 * |scores|
  {
    AverageIff(scores);
    WrappingSumIsSum(scores);
    assert 65_535 * 65_537 == TWO_TO_THE_32 - 1;
  }

  /** What the gate asks of a panel in exact arithmetic: two judges or more, 85 % on average, and a
      challenge pass rate of 90 %. Without scores it asks nothing. */
  lemma CognitiveGateIff(c: HostContext)
    requires RealPanel(c)
    ensures CheckCognitiveGate(c).passed
            <==> c.cognitiveJudgeScoresBps.None?
                 || (var scores := c.cognitiveJudgeScoresBps.value;
                     |scores| >= 2 && 20 * Sum(scores) >= 17 * 10_000 * |scores|
                     && 10 * c.cognitiveChallengePassBps.UnwrapOr(0) >= 9 * 10_000)
  {
    if c.cognitiveJudgeScoresBps.Some? && c.cognitiveJudgeScoresBps.value != [] {
      AverageIffForRealPanels(c.cognitiveJudgeScoresBps.value);
    }
  }

  // ---------------------------------------------------------------- what each check refuses

  /** The default policy's checks in the order a denial reports them. */
  lemma ChecksInOrder(e: RequestEnvelope, c: HostContext)
    ensures var names := ["allowed_actions", "cognitive_gate", "reputation_risk_multiplier", "calendar_constraint",
                          "email_domain_allowlist", "max_spend", "delegation_depth"];
            |SimulatePolicy(e, c)| == |names| && forall i | 0 <= i < |names| :: SimulatePolicy(e, c)[i].name == names[i]
  {
  }

  /** Whatever the size of the panel, the gate fails exactly on a short panel, a low wrapped sum or
      a challenge that is missing or passed too rarely; a low reputation fails unless offset. */
  lemma HostChecksFailIff(e: RequestEnvelope, c: HostContext)
    ensures !SimulatePolicy(e, c)[1].passed
            <==> exists scores :: c.cognitiveJudgeScoresBps == Some(scores)
                   && (|scores| <= 1 || Sum(scores) % 4_294_967_296 < 8_500 * |scores|
                       || !exists rate :: c.cognitiveChallengePassBps == Some(rate) && rate >= 9_000)
    ensures !SimulatePolicy(e, c)[2].passed
            <==> exists score :: c.reputationScoreBps == Some(score) && score < 7_000
                   && c.riskChallengePassed != Some(true) && c.extraApprovalGranted != Some(true)
    ensures !SimulatePolicy(e, c)[6].passed
            <==> exists depth, max :: c.delegationDepth == Some(depth) && e.token.maxDelegationDepth == Some(max) && depth > max
  {
    hide CheckCognitiveGate, CheckReputationRiskMultiplier, CheckDelegationDepth;
    hide CheckAllowedAction, CheckCalendarConstraint, CheckEmailDomainAllowlist, CheckMaxSpend, Sum;
    GateFailsIff(c);
    ReputationFailsIff(c);
    DepthFailsIff(e, c);
  }

  lemma ReputationFailsIff(c: HostContext)
    ensures !CheckReputationRiskMultiplier(c).passed
            <==> exists score :: c.reputationScoreBps == Some(score) && score < 7_000
                   && c.riskChallengePassed != Some(true) && c.extraApprovalGranted != Some(true)
  {
  }

  lemma DepthFailsIff(e: RequestEnvelope, c: HostContext)
    ensures !CheckDelegationDepth(e, c).passed
            <==> exists depth, max :: c.delegationDepth == Some(depth) && e.token.maxDelegationDepth == Some(max) && depth > max
  {
  }

  lemma GateFailsIff(c: HostContext)
    ensures !CheckCognitiveGate(c).passed
            <==> exists scores :: c.cognitiveJudgeScoresBps == Some(scores)
                   && (|scores| <= 1 || Sum(scores) % 4_294_967_296 < 8_500 * |scores|
                       || !exists rate :: c.cognitiveChallengePassBps == Some(rate) && rate >= 9_000)
  {
    hide Sum, WrappingSum, AverageReaches;
    if c.cognitiveJudgeScoresBps.Some? {
      var scores := c.cognitiveJudgeScoresBps.value;
      if |scores| > 1 {
        AverageIff(scores);
        assert AverageReaches(scores) <==> Sum(scores) % 4_294_967_296 >= 8_500 * |scores|;
      }
    }
  }

  /** An action, calendar, mail domain or spend is refused exactly when it is asked for, the token
      restricts its kind and the restriction leaves it out; a mail's domain is what follows its last @. */
  lemma RequestChecksFailIff(e: RequestEnvelope, c: HostContext)
    ensures !SimulatePolicy(e, c)[0].passed <==> forall i | 0 <= i < |e.token.allowedActions| :: e.token.allowedActions[i] != e.action
    ensures !SimulatePolicy(e, c)[3].passed
            <==> exists rc, ids, calendar :: e.token.resourceConstraints == Some(rc) && rc.calendarIds == Some(ids)
                   && e.runtimeContext.targetCalendarId == Some(calendar) && calendar !in ids
    ensures !SimulatePolicy(e, c)[4].passed
            <==> exists rc, domains, mail :: e.token.resourceConstraints == Some(rc) && rc.emailDomainAllowlist == Some(domains)
                   && e.runtimeContext.targetEmail == Some(mail)
                   && forall user, domain | mail == user + "@" + domain && '@' !in domain :: domain !in domains
    ensures !SimulatePolicy(e, c)[5].passed
            <==> exists max, spend :: e.token.maxSpend == Some(max) && e.runtimeContext.requestedSpend == Some(spend)
                   && (e.runtimeContext.spendCurrency != Some(max.currency) || spend > max.amount)
  {
    hide AfterLast;
    EmailFailsIff(e);
  }

  lemma EmailFailsIff(e: RequestEnvelope)
    ensures !CheckEmailDomainAllowlist(e).passed
            <==> exists rc, domains, mail :: e.token.resourceConstraints == Some(rc) && rc.emailDomainAllowlist == Some(domains)
                   && e.runtimeContext.targetEmail == Some(mail)
                   && forall user, domain | mail == user + "@" + domain && '@' !in domain :: domain !in domains
  {
    if e.runtimeContext.targetEmail.Some? {
      var mail := e.runtimeContext.targetEmail.value;
      forall user, domain | mail == user + "@" + domain && '@' !in domain ensures AfterLast(mail, '@') == Some(domain) {
        assert mail[|user|] == '@' && mail[|user| + 1..] == domain;
        AfterLastAt(mail, '@', |user|);
      }
      var found := AfterLast(mail, '@');
      if found.Some? {
        var at := |mail| - |found.value| - 1;
        assert mail == mail[..at] + "@" + found.value by {
          assert mail == mail[..at] + [mail[at]] + mail[at + 1..];
        }
      }
    }
  }

  function Repeated(score: u16, n: nat): (scores: seq<u16>)
    ensures |scores| == n
  {
    seq(n, _ => score)
  }

  lemma {:induction false} SumOfRepeated(score: u16, n: nat)
    ensures Sum(Repeated(score, n)) == score * n
  {
    if n > 0 {
      assert Repeated(score, n)[..n - 1] == Repeated(score, n - 1);
      SumOfRepeated(score, n - 1);
    }
  }

  lemma {:induction false} SumConcat(a: seq<u16>, b: seq<u16>)
    ensures Sum(a + b) == Sum(a) + Sum(b)
  {
    if b == [] {
      assert a + b == a;
    } else {
      assert (a + b)[..|a + b| - 1] == a + b[..|b| - 1];
      SumConcat(a, b[..|b| - 1]);
    }
  }

  /** A panel whose average is high enough and whose scores wrap below the threshold. */
  predicate Misjudged(scores: seq<u16>)
    requires 0 < |scores| < TWO_TO_THE_32
  {
    Sum(scores) >= 8_500 * |scores| && !AverageReaches(scores)
  }

  /** Scores that add up to 2^32 exactly, or more of them than any wrapped sum can carry. */
  function OverflowingPanel(n: nat): (scores: seq<u16>)
    requires 65_537 < n
    ensures |scores| == n
  {
    if 8_500 * n <= TWO_TO_THE_32 then Repeated(65_535, 65_537) + [1] + Repeated(0, n - 65_538)
    else Repeated(65_535, n)
  }

  lemma OverflowingPanelIsMisjudged(n: nat)
    requires 65_537 < n < TWO_TO_THE_32
    ensures Misjudged(OverflowingPanel(n))
  {
    var scores := OverflowingPanel(n);
    AverageIff(scores);
    if 8_500 * n <= TWO_TO_THE_32 {
      var top, one, none := Repeated(65_535, 65_537), [1], Repeated(0, n - 65_538);
      SumOfRepeated(65_535, 65_537);
      SumOfRepeated(0, n - 65_538);
      SumConcat(top + one, none);
      SumConcat(top, one);
      assert Sum(one) == 1 by {
        assert one[..0] == [];
      }
      assert Sum(scores) == TWO_TO_THE_32;
    } else {
      SumOfRepeated(65_535, n);
    }
  }

  predicate JudgedExactly(scores: seq<u16>)
    requires 0 < |scores| < TWO_TO_THE_32
  {
    AverageReaches(scores) <==> Sum(scores) >= 8_500 * |scores|
  }

  /** The bound is tight, at every size: panels of n judges are all judged by their true average
      exactly when there are at most 65537 of them. */
  lemma ExactPanelsIff(n: nat)
    requires 0 < n < TWO_TO_THE_32
    ensures (forall scores: seq<u16> | |scores| == n :: JudgedExactly(scores)) <==> n <= 65_537
  {
    if n <= 65_537 {
      forall scores: seq<u16> | |scores| == n ensures JudgedExactly(scores) {
        AverageIffForRealPanels(scores);
      }
    } else {
      OverflowingPanelIsMisjudged(n);
      assert !JudgedExactly(OverflowingPanel(n));
    }
  }

  lemma {:induction false} HigherScoresHigherSum(higher: seq<u16>, lower: seq<u16>)
    requires |higher| == |lower| && forall i | 0 <= i < |lower| :: higher[i] >= lower[i]
    ensures Sum(higher) >= Sum(lower)
  {
    if lower != [] {
      HigherScoresHigherSum(higher[..|higher| - 1], lower[..|lower| - 1]);
    }
  }

  /** Host facts at least as reassuring, from the same panel of judges. */
  predicate NoWorse(better: HostContext, worse: HostContext) {
    (better.cognitiveJudgeScoresBps.Some? ==>
       worse.cognitiveJudgeScoresBps.Some?
       && (var scores, others := better.cognitiveJudgeScoresBps.value, worse.cognitiveJudgeScoresBps.value;
           |scores| == |others| && forall i | 0 <= i < |scores| :: scores[i] >= others[i]))
    && better.cognitiveChallengePassBps.UnwrapOr(0) >= worse.cognitiveChallengePassBps.UnwrapOr(0)
    && (better.reputationScoreBps.Some? ==>
          worse.reputationScoreBps.Some? && better.reputationScoreBps.value >= worse.reputationScoreBps.value)
    && (worse.riskChallengePassed.UnwrapOr(false) ==> better.riskChallengePassed.UnwrapOr(false))
    && (worse.extraApprovalGranted.UnwrapOr(false) ==> better.extraApprovalGranted.UnwrapOr(false))
    && better.delegationDepth.UnwrapOr(0) <= worse.delegationDepth.UnwrapOr(0)
  }

  predicate RealPanel(c: HostContext) {
    c.cognitiveJudgeScoresBps.Some? ==> |c.cognitiveJudgeScoresBps.value| <= 65_537
  }

  /** Better facts never turn a permission into a refusal, on panels whose scores cannot overflow
      their sum. */
  lemma BetterFactsNeverHurt(e: RequestEnvelope, better: HostContext, worse: HostContext)
    requires NoWorse(better, worse) && RealPanel(better) && AllPassed(SimulatePolicy(e, worse))
    ensures AllPassed(SimulatePolicy(e, better))
  {
    PermitsUnfolded(e.token, e, worse);
    PermitsUnfolded(e.token, e, better);
    assert e.(token := e.token) == e;
    if better.cognitiveJudgeScoresBps.Some? {
      var scores, others := better.cognitiveJudgeScoresBps.value, worse.cognitiveJudgeScoresBps.value;
      HigherScoresHigherSum(scores, others);
      AverageIffForRealPanels(scores);
      AverageIffForRealPanels(others);
    }
  }

  // ---------------------------------------------------------------- attenuation

  /** The inner token permits no request that the outer one refuses. Three readings are finer than
      set inclusion: a depth limit of 65535 limits nothing, an allowlist entry with an `@` matches
      no domain, and a constraint may be added where there was none. */
  predicate Narrows(inner: DelegationToken, outer: DelegationToken) {
    (forall a | a in inner.allowedActions :: a in outer.allowedActions)
    && (Calendars(outer).Some? ==>
          Calendars(inner).Some? && forall c | c in Calendars(inner).value :: c in Calendars(outer).value)
    && (Domains(outer).Some? ==>
          Domains(inner).Some? && forall d | d in Domains(inner).value && '@' !in d :: d in Domains(outer).value)
    && (outer.maxSpend.Some? ==>
          inner.maxSpend.Some? && inner.maxSpend.value.currency == outer.maxSpend.value.currency
          && inner.maxSpend.value.amount <= outer.maxSpend.value.amount)
    && (outer.maxDelegationDepth.Some? && outer.maxDelegationDepth.value < 65_535 ==>
          inner.maxDelegationDepth.Some? && inner.maxDelegationDepth.value <= outer.maxDelegationDepth.value)
  }

  predicate Permits(t: DelegationToken, e: RequestEnvelope, c: HostContext) {
    AllPassed(SimulatePolicy(e.(token := t), c))
  }

  lemma PermitsUnfolded(t: DelegationToken, e: RequestEnvelope, c: HostContext)
    ensures var r := e.(token := t);
            Permits(t, e, c)
            <==> CheckAllowedAction(r).passed && CheckCognitiveGate(c).passed && CheckReputationRiskMultiplier(c).passed
                 && CheckCalendarConstraint(r).passed && CheckEmailDomainAllowlist(r).passed
                 && CheckMaxSpend(r).passed && CheckDelegationDepth(r, c).passed
  {
    var checks := SimulatePolicy(e.(token := t), c);
    if AllPassed(checks) {
      assert checks[0].passed && checks[1].passed && checks[2].passed && checks[3].passed;
      assert checks[4].passed && checks[5].passed && checks[6].passed;
    }
  }

  /** Attenuation is monotone: narrowing a token never turns a refusal into a permission. */
  lemma NarrowingNeverPermitsMore(inner: DelegationToken, outer: DelegationToken, e: RequestEnvelope, c: HostContext)
    requires Narrows(inner, outer) && Permits(inner, e, c)
    ensures Permits(outer, e, c)
  {
    PermitsUnfolded(inner, e, c);
    PermitsUnfolded(outer, e, c);
  }

  ghost predicate PermitsNoMore(inner: DelegationToken, outer: DelegationToken, e: RequestEnvelope, c: HostContext) {
    Permits(inner, e, c) ==> Permits(outer, e, c)
  }

  /** And nothing else is an attenuation: if a token that allows some action at all permits no
      request the other refuses, it narrows it in this sense. */
  lemma NarrowsIff(inner: DelegationToken, outer: DelegationToken)
    requires inner.allowedActions != []
    ensures Narrows(inner, outer) <==> forall e, c :: PermitsNoMore(inner, outer, e, c)
  {
    if Narrows(inner, outer) {
      forall e, c ensures PermitsNoMore(inner, outer, e, c) {
        if Permits(inner, e, c) {
          NarrowingNeverPermitsMore(inner, outer, e, c);
        }
      }
    } else {
      SomeRequestTells(inner, outer);
    }
  }

  const QUIET_HOST: HostContext := HostContext(None, None, None, None, None, None, 30, map[])

  function Asking(action: string, context: RuntimeContext, t: DelegationToken): RequestEnvelope {
    RequestEnvelope("0.1", "TrustRequestEnvelope", None, Developer, t.agentId, t.delegatorId, "", action, None, context, None, t)
  }

  /** The runtime facts that put one constraint of a token to the test and leave the rest alone. */
  const NO_CONTEXT: RuntimeContext := RuntimeContext(None, None, None, None)

  lemma ActionTells(inner: DelegationToken, outer: DelegationToken, action: string)
    requires action in inner.allowedActions && action !in outer.allowedActions
    ensures !PermitsNoMore(inner, outer, Asking(action, NO_CONTEXT, inner), QUIET_HOST)
  {
    PermitsUnfolded(inner, Asking(action, NO_CONTEXT, inner), QUIET_HOST);
    PermitsUnfolded(outer, Asking(action, NO_CONTEXT, inner), QUIET_HOST);
  }

  lemma CalendarTells(inner: DelegationToken, outer: DelegationToken, action: string, calendar: string)
    requires action in inner.allowedActions
    requires Calendars(outer).Some? && calendar !in Calendars(outer).value
    requires Calendars(inner).Some? ==> calendar in Calendars(inner).value
    ensures !PermitsNoMore(inner, outer, Asking(action, NO_CONTEXT.(targetCalendarId := Some(calendar)), inner), QUIET_HOST)
  {
    var e := Asking(action, NO_CONTEXT.(targetCalendarId := Some(calendar)), inner);
    PermitsUnfolded(inner, e, QUIET_HOST);
    PermitsUnfolded(outer, e, QUIET_HOST);
  }

  lemma EmailTells(inner: DelegationToken, outer: DelegationToken, action: string, email: string)
    requires action in inner.allowedActions
    requires var domain := AfterLast(email, '@');
             Domains(outer).Some? && (domain.None? || domain.value !in Domains(outer).value)
             && (Domains(inner).Some? ==> domain.Some? && domain.value in Domains(inner).value)
    ensures !PermitsNoMore(inner, outer, Asking(action, NO_CONTEXT.(targetEmail := Some(email)), inner), QUIET_HOST)
  {
    var e := Asking(action, NO_CONTEXT.(targetEmail := Some(email)), inner);
    PermitsUnfolded(inner, e, QUIET_HOST);
    PermitsUnfolded(outer, e, QUIET_HOST);
  }

  lemma SpendTells(inner: DelegationToken, outer: DelegationToken, action: string)
    requires action in inner.allowedActions && outer.maxSpend.Some?
    requires inner.maxSpend.Some? ==>
               inner.maxSpend.value.currency != outer.maxSpend.value.currency || inner.maxSpend.value.amount > outer.maxSpend.value.amount
    ensures exists e :: !PermitsNoMore(inner, outer, e, QUIET_HOST)
  {
    var context := if inner.maxSpend.None? then NO_CONTEXT.(requestedSpend := Some(0))
                   else NO_CONTEXT.(requestedSpend := Some(inner.maxSpend.value.amount), spendCurrency := Some(inner.maxSpend.value.currency));
    var e := Asking(action, context, inner);
    PermitsUnfolded(inner, e, QUIET_HOST);
    PermitsUnfolded(outer, e, QUIET_HOST);
    assert !PermitsNoMore(inner, outer, e, QUIET_HOST);
  }

  lemma DepthTells(inner: DelegationToken, outer: DelegationToken, action: string)
    requires action in inner.allowedActions
    requires outer.maxDelegationDepth.Some? && outer.maxDelegationDepth.value < 65_535
    requires inner.maxDelegationDepth.Some? ==> inner.maxDelegationDepth.value > outer.maxDelegationDepth.value
    ensures exists c :: !PermitsNoMore(inner, outer, Asking(action, NO_CONTEXT, inner), c)
  {
    var depth: u16 := if inner.maxDelegationDepth.Some? then inner.maxDelegationDepth.value else 65_535;
    var c := QUIET_HOST.(delegationDepth := Some(depth));
    PermitsUnfolded(inner, Asking(action, NO_CONTEXT, inner), c);
    PermitsUnfolded(outer, Asking(action, NO_CONTEXT, inner), c);
    assert !PermitsNoMore(inner, outer, Asking(action, NO_CONTEXT, inner), c);
  }

  /** Some request the one token permits and the other does not. */
  lemma SomeRequestTells(inner: DelegationToken, outer: DelegationToken)
    requires inner.allowedActions != [] && !Narrows(inner, outer)
    ensures exists e, c :: !PermitsNoMore(inner, outer, e, c)
  {
    var action := inner.allowedActions[0];
    if a :| a in inner.allowedActions && a !in outer.allowedActions {
      ActionTells(inner, outer, a);
    } else if Calendars(outer).Some? && Calendars(inner).None? {
      var other := LongerThanAll(Calendars(outer).value);
      CalendarTells(inner, outer, action, other);
    } else if Calendars(outer).Some? && exists i :: i in Calendars(inner).value && i !in Calendars(outer).value {
      var i :| i in Calendars(inner).value && i !in Calendars(outer).value;
      CalendarTells(inner, outer, action, i);
    } else if Domains(outer).Some? && Domains(inner).None? {
      assert AfterLast("", '@').None?;
      EmailTells(inner, outer, action, "");
    } else if Domains(outer).Some? && exists d :: d in Domains(inner).value && '@' !in d && d !in Domains(outer).value {
      var d :| d in Domains(inner).value && '@' !in d && d !in Domains(outer).value;
      AfterLastAt("@" + d, '@', 0);
      assert ("@" + d)[1..] == d;
      EmailTells(inner, outer, action, "@" + d);
    } else if outer.maxSpend.Some? && (inner.maxSpend.None? || inner.maxSpend.value.currency != outer.maxSpend.value.currency
                                       || inner.maxSpend.value.amount > outer.maxSpend.value.amount) {
      SpendTells(inner, outer, action);
    } else {
      DepthTells(inner, outer, action);
    }
  }

  lemma {:induction false} LongerThanAll(xs: seq<string>) returns (s: string)
    ensures forall x | x in xs :: |x| < |s|
  {
    if xs == [] {
      s := "x";
    } else {
      s := LongerThanAll(xs[1..]);
      s := s + xs[0];
      assert xs == [xs[0]] + xs[1..];
      s := s + "x";
    }
  }
}
