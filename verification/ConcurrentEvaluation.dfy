/** Any number of evaluations and administrative calls on one store, interleaved call by call: an
    evaluation can be overtaken between its three awaited store calls. */
module ConcurrentEvaluation {
  import opened Wrappers
  import opened Models
  import opened Payload
  import opened TrustState
  import opened Pipeline

  /** The store calls an evaluation has behind it: none, the revocation check, the deny-list check
      too, or all it is going to make. */
  datatype Pc =
    | Unstarted
    | RevocationChecked(e: RequestEnvelope)
    | DenyChecked(e: RequestEnvelope)
    | Finished(outcome: Outcome)

  /** Where in the store's history the evaluation's three calls stand. */
  datatype Trail = Trail(checkedAt: Option<nat>, deniedAt: Option<nat>, consumedAt: Option<nat>)

  datatype Evaluation = Evaluation(x: Setting, raw: RawRequest, pc: Pc, trail: Trail)

  /** A store call that was answered, and the evaluation that made it, if one did. */
  datatype Answered = Answered(caller: Option<nat>, call: Call, reply: Reply)

  datatype System = System(evals: seq<Evaluation>, store: Store, log: seq<Answered>, now: Time)

  datatype Action =
    | Proceed(i: nat, clock: Time)
    | Administer(op: Op, clock: Time)
    | SetAvailable(available: bool)

  predicate Fits(s: System) {
    forall i | 0 <= i < |s.evals| ::
      s.evals[i].raw.parsed.Some? ==> OrderFits(s.evals[i].raw.parsed.value.token, s.evals[i].x.order)
  }

  function AppendReply(s: System, caller: Option<nat>, op: Op, clock: Time): System {
    var (store, reply) := s.store.Ask(op, clock);
    if reply.None? then s else s.(store := store, log := s.log + [Answered(caller, Call(op, clock), reply.value)])
  }

  /** One step of one evaluation: up to and including its next store call, or to its end. */
  function ProceedWith(s: System, i: nat, clock: Time): (r: System)
    requires Fits(s) && i < |s.evals|
    ensures |r.evals| == |s.evals|
  {
    var v := s.evals[i];
    match v.pc
    case Unstarted =>
      (match BeforeStore(v.x, v.raw)
       case Err(violation) => s.(evals := s.evals[i := v.(pc := Finished(Err(violation)))])
       case Ok(e) =>
         var op := IsTokenRevoked(e.token.tokenId);
         var stop := AfterRevocationReply(s.store.Ask(op, clock).1);
         var v' := v.(pc := if stop.Some? then Finished(stop.value) else RevocationChecked(e),
                      trail := v.trail.(checkedAt := Some(|s.log|)));
         AppendReply(s, Some(i), op, clock).(evals := s.evals[i := v']))
    case RevocationChecked(e) =>
      var op := IsAgentEmergencyDenied(e.agentId);
      var stop := AfterDenyReply(s.store.Ask(op, clock).1);
      var v' := v.(pc := if stop.Some? then Finished(stop.value) else DenyChecked(e),
                   trail := v.trail.(deniedAt := Some(|s.log|)));
      AppendReply(s, Some(i), op, clock).(evals := s.evals[i := v'])
    case DenyChecked(e) =>
      var op := ConsumeNonce(e.token.nonce, e.token.expiresAt);
      var stage := AfterNonceReply(s.store.Ask(op, clock).1, e, v.x.host);
      var v' := v.(pc := Finished(if stage.Ok? then AfterStore(v.x, stage.value) else stage),
                   trail := v.trail.(consumedAt := Some(|s.log|)));
      AppendReply(s, Some(i), op, clock).(evals := s.evals[i := v'])
    case Finished(_) => s
  }

  function Next(s: System, a: Action): (r: System)
    requires Fits(s)
    ensures |r.evals| == |s.evals|
  {
    match a
    case SetAvailable(available) => s.(store := s.store.(available := available))
    case Administer(op, clock) => if clock < s.now then s else AppendReply(s.(now := clock), None, op, clock)
    case Proceed(i, clock) => if clock < s.now || i >= |s.evals| then s else ProceedWith(s.(now := clock), i, clock)
  }

  lemma NextFits(s: System, a: Action)
    requires Fits(s)
    ensures Fits(Next(s, a))
    ensures forall i | 0 <= i < |s.evals| :: Next(s, a).evals[i].x == s.evals[i].x && Next(s, a).evals[i].raw == s.evals[i].raw
  {
    hide BeforeStore, AfterStore, AfterNonceReply, Step;
  }

  function Run(s: System, schedule: seq<Action>): (r: System)
    requires Fits(s)
    ensures |r.evals| == |s.evals|
    decreases |schedule|
  {
    if schedule == [] then s
    else
      NextFits(s, schedule[0]);
      Run(Next(s, schedule[0]), schedule[1..])
  }

  predicate Initial(s: System) {
    Fits(s) && s.log == [] && s.store.state == EMPTY
    && forall i | 0 <= i < |s.evals| :: s.evals[i].pc == Unstarted && s.evals[i].trail == Trail(None, None, None)
  }

  // ---------------------------------------------------------------- undisturbed, the steps are the pipeline

  /** An evaluation's steps taken without interruption are the sequential evaluation. */
  lemma StepsMakeEvaluate(s: System, i: nat, clock: Time)
    requires Fits(s) && i < |s.evals| && s.evals[i].pc == Unstarted && clock >= s.now
    ensures var v := s.evals[i];
            var a := Proceed(i, clock);
            var s1 := Next(s, a);
            Fits(s1) && Fits(Next(s1, a))
            && (var e := Next(Next(s1, a), a);
                (e.store, e.evals[i].pc) == (Evaluate(v.x, v.raw, s.store, clock).0, Finished(Evaluate(v.x, v.raw, s.store, clock).1)))
  {
    hide BeforeStore, AfterStore, Step;
    NextFits(s, Proceed(i, clock));
    NextFits(Next(s, Proceed(i, clock)), Proceed(i, clock));
  }

  // ---------------------------------------------------------------- the invariant

  function Calls(log: seq<Answered>): (r: seq<Call>)
    ensures |r| == |log|
  {
    seq(|log|, k requires 0 <= k < |log| => log[k].call)
  }

  /** The store is what the answered calls made of an empty one, in order, with their replies. */
  ghost predicate Sequential(s: System) {
    s.store.state == After(s.store.backend, Calls(s.log))
    && (forall k | 0 <= k < |s.log| :: s.log[k].reply == ReplyAt(s.store.backend, Calls(s.log), k))
    && ClockMonotone(Calls(s.log)) && (forall k | 0 <= k < |s.log| :: s.log[k].call.clock <= s.now)
  }

  predicate Recorded(s: System, i: nat, at: Option<nat>, op: Op, reply: Reply) {
    at.Some? && at.value < |s.log| && s.log[at.value].caller == Some(i)
    && s.log[at.value].call.op == op && s.log[at.value].reply == reply
  }

  predicate Allowed(s: System, i: nat)
    requires i < |s.evals|
  {
    s.evals[i].pc.Finished? && s.evals[i].pc.outcome.Ok?
  }

  predicate PassedRevocation(s: System, i: nat)
    requires i < |s.evals|
  {
    var v := s.evals[i];
    v.raw.parsed.Some?
    && Recorded(s, i, v.trail.checkedAt, IsTokenRevoked(v.raw.parsed.value.token.tokenId), Answer(false))
  }

  predicate PassedDenial(s: System, i: nat)
    requires i < |s.evals|
  {
    var v := s.evals[i];
    v.raw.parsed.Some?
    && Recorded(s, i, v.trail.deniedAt, IsAgentEmergencyDenied(v.raw.parsed.value.agentId), Answer(false))
  }

  /** The nonce was fresh, and the caller's clock within the token's lifetime. */
  predicate PassedNonce(s: System, i: nat)
    requires i < |s.evals|
  {
    var v := s.evals[i];
    v.raw.parsed.Some?
    && (var t := v.raw.parsed.value.token;
        Recorded(s, i, v.trail.consumedAt, ConsumeNonce(t.nonce, t.expiresAt), Answer(true))
        && v.x.now < t.expiresAt + v.x.host.Leeway())
  }

  /** An evaluation past a call has that call, favourably answered, in the history. */
  predicate TrailHolds(s: System, i: nat)
    requires i < |s.evals|
  {
    var v := s.evals[i];
    (v.pc.RevocationChecked? || v.pc.DenyChecked? ==> v.raw.parsed.Some? && SameCredentials(v.pc.e, v.raw.parsed.value))
    && (v.pc.RevocationChecked? || v.pc.DenyChecked? || Allowed(s, i) ==> PassedRevocation(s, i))
    && (v.pc.DenyChecked? || Allowed(s, i) ==> PassedDenial(s, i))
    && (Allowed(s, i) ==> PassedNonce(s, i))
  }

  predicate SameCredentials(e: RequestEnvelope, f: RequestEnvelope) {
    e.token == f.token && e.agentId == f.agentId
  }

  ghost predicate Inv(s: System) {
    Fits(s) && Sequential(s) && forall i | 0 <= i < |s.evals| :: TrailHolds(s, i)
  }

  lemma InitialInv(s: System)
    requires Initial(s)
    ensures Inv(s)
  {
  }

  lemma AppendKeepsSequential(s: System, caller: Option<nat>, op: Op, clock: Time)
    requires Sequential(s) && s.now <= clock
    ensures Sequential(AppendReply(s.(now := clock), caller, op, clock))
  {
    hide Step;
    var s' := AppendReply(s.(now := clock), caller, op, clock);
    if s.store.available {
      assert Calls(s'.log)[..|s.log|] == Calls(s.log);
      forall k | 0 <= k < |s'.log| ensures s'.log[k].reply == ReplyAt(s.store.backend, Calls(s'.log), k) {
        if k < |s.log| {
          PrefixReplies(s.store.backend, Calls(s'.log), |s.log|, k);
        }
      }
    }
  }

  lemma NextKeepsSequential(s: System, a: Action)
    requires Inv(s)
    ensures Sequential(Next(s, a))
  {
    hide BeforeStore, AfterStore, AfterNonceReply, Step;
    match a {
      case SetAvailable(_) =>
      case Administer(op, clock) =>
        if clock >= s.now {
          AppendKeepsSequential(s, None, op, clock);
        }
      case Proceed(i, clock) =>
        if clock >= s.now && i < |s.evals| {
          var v := s.evals[i];
          match v.pc {
            case Unstarted =>
              if BeforeStore(v.x, v.raw).Ok? {
                AppendKeepsSequential(s, Some(i), IsTokenRevoked(BeforeStore(v.x, v.raw).value.token.tokenId), clock);
              }
            case RevocationChecked(e) => AppendKeepsSequential(s, Some(i), IsAgentEmergencyDenied(e.agentId), clock);
            case DenyChecked(e) => AppendKeepsSequential(s, Some(i), ConsumeNonce(e.token.nonce, e.token.expiresAt), clock);
            case Finished(_) =>
          }
        }
    }
  }

  lemma OthersKeepTrail(s: System, s': System, j: nat)
    requires j < |s.evals| == |s'.evals| && TrailHolds(s, j) && s'.evals[j] == s.evals[j] && s.log <= s'.log
    ensures TrailHolds(s', j)
  {
  }

  lemma BeforeStoreKeepsCredentials(x: Setting, raw: RawRequest)
    requires raw.parsed.Some? ==> OrderFits(raw.parsed.value.token, x.order)
    requires BeforeStore(x, raw).Ok?
    ensures raw.parsed.Some? && SameCredentials(BeforeStore(x, raw).value, raw.parsed.value)
  {
    BeforeStoreIff(x, raw, Store(Memory, true, EMPTY), 0);
  }

  lemma AfterNonceNeedsTrue(reply: Option<Reply>, e: RequestEnvelope, host: HostContext)
    requires AfterNonceReply(reply, e, host).Ok?
    ensures reply == Some(Answer(true)) && AfterNonceReply(reply, e, host).value == e
  {
  }

  lemma CheckAnswers(store: Store, id: string, clock: Time)
    ensures AfterRevocationReply(store.Ask(IsTokenRevoked(id), clock).1).None? ==>
              store.Ask(IsTokenRevoked(id), clock).1 == Some(Answer(false))
    ensures AfterDenyReply(store.Ask(IsAgentEmergencyDenied(id), clock).1).None? ==>
              store.Ask(IsAgentEmergencyDenied(id), clock).1 == Some(Answer(false))
  {
  }

  lemma AppendLogs(s: System, caller: Option<nat>, op: Op, clock: Time)
    ensures s.log <= AppendReply(s, caller, op, clock).log
    ensures s.store.Ask(op, clock).1.Some? ==>
              AppendReply(s, caller, op, clock).log == s.log + [Answered(caller, Call(op, clock), s.store.Ask(op, clock).1.value)]
    ensures s.store.Ask(op, clock).1.None? ==> AppendReply(s, caller, op, clock) == s
  {
  }

  lemma ProceedKeepsOwnTrail(s: System, i: nat, clock: Time)
    requires Fits(s) && i < |s.evals| && TrailHolds(s, i)
    ensures TrailHolds(ProceedWith(s, i, clock), i)
    ensures s.log <= ProceedWith(s, i, clock).log
  {
    hide BeforeStore, AfterStore, AfterNonceReply, AfterRevocationReply, AfterDenyReply, Step, Store.Ask, AppendReply;
    var v := s.evals[i];
    match v.pc {
      case Unstarted =>
        if BeforeStore(v.x, v.raw).Ok? {
          var e := BeforeStore(v.x, v.raw).value;
          var op := IsTokenRevoked(e.token.tokenId);
          BeforeStoreKeepsCredentials(v.x, v.raw);
          AppendLogs(s, Some(i), op, clock);
          if AfterRevocationReply(s.store.Ask(op, clock).1).None? {
            CheckAnswers(s.store, e.token.tokenId, clock);
          } else {
            StopsAreRefusals(s.store.Ask(op, clock).1);
          }
        }
      case RevocationChecked(e) =>
        var op := IsAgentEmergencyDenied(e.agentId);
        AppendLogs(s, Some(i), op, clock);
        CheckAnswers(s.store, e.agentId, clock);
        StopsAreRefusals(s.store.Ask(op, clock).1);
      case DenyChecked(e) =>
        var op := ConsumeNonce(e.token.nonce, e.token.expiresAt);
        AppendLogs(s, Some(i), op, clock);
        var stage := AfterNonceReply(s.store.Ask(op, clock).1, e, v.x.host);
        if stage.Ok? {
          AfterNonceNeedsTrue(s.store.Ask(op, clock).1, e, v.x.host);
          AfterStoreNeedsLifetime(v.x, e);
        }
      case Finished(_) =>
    }
  }

  lemma StopsAreRefusals(reply: Option<Reply>)
    ensures AfterRevocationReply(reply).Some? ==> AfterRevocationReply(reply).value.Err?
    ensures AfterDenyReply(reply).Some? ==> AfterDenyReply(reply).value.Err?
  {
  }

  lemma NextKeepsTrails(s: System, a: Action)
    requires Inv(s)
    ensures var s' := Next(s, a); forall j | 0 <= j < |s'.evals| :: TrailHolds(s', j)
  {
    hide BeforeStore, AfterStore, AfterNonceReply, Step;
    var s' := Next(s, a);
    if a.Proceed? && a.clock >= s.now && a.i < |s.evals| {
      OthersKeepTrail(s, s.(now := a.clock), a.i);
      ProceedKeepsOwnTrail(s.(now := a.clock), a.i, a.clock);
      forall j | 0 <= j < |s'.evals| && j != a.i ensures TrailHolds(s', j) {
        OthersKeepTrail(s, s', j);
      }
    } else {
      forall j | 0 <= j < |s'.evals| ensures TrailHolds(s', j) {
        OthersKeepTrail(s, s', j);
      }
    }
  }

  lemma {:induction false} RunKeepsInv(s: System, schedule: seq<Action>)
    requires Inv(s)
    ensures Inv(Run(s, schedule))
    decreases |schedule|
  {
    if schedule != [] {
      NextFits(s, schedule[0]);
      NextKeepsSequential(s, schedule[0]);
      NextKeepsTrails(s, schedule[0]);
      RunKeepsInv(Next(s, schedule[0]), schedule[1..]);
    }
  }

  // ---------------------------------------------------------------- safety of every interleaving

  /** An allowed evaluation had all three favourable answers, and each is the answer that the store's
      sequential history gives to its call. */
  lemma AllowedHadThreeAnswers(s: System, schedule: seq<Action>, i: nat)
    requires Initial(s) && i < |s.evals| && Allowed(Run(s, schedule), i)
    ensures var e := Run(s, schedule);
            PassedRevocation(e, i) && PassedDenial(e, i) && PassedNonce(e, i)
            && forall k | 0 <= k < |e.log| :: e.log[k].reply == ReplyAt(e.store.backend, Calls(e.log), k)
  {
    InitialInv(s);
    RunKeepsInv(s, schedule);
    assert TrailHolds(Run(s, schedule), i);
  }

  /** Whatever the interleaving, of two allowed evaluations of one nonce the later to consume it did
      so strictly after the earlier one's token expired. */
  lemma NonceAllowedOnce(s: System, schedule: seq<Action>, i: nat, j: nat)
    requires Initial(s) && i < |s.evals| && j < |s.evals| && i != j
    requires var e := Run(s, schedule);
             Allowed(e, i) && Allowed(e, j) && FlushesNotAhead(Calls(e.log))
             && e.evals[i].raw.parsed.Some? && e.evals[j].raw.parsed.Some?
             && e.evals[i].raw.parsed.value.token.nonce == e.evals[j].raw.parsed.value.token.nonce
    ensures var e := Run(s, schedule);
            var a, b := e.evals[i].trail.consumedAt, e.evals[j].trail.consumedAt;
            a.Some? && b.Some? && a.value < |e.log| && b.value < |e.log|
            && a != b
            && (a.value < b.value ==> e.log[b.value].call.clock > e.evals[i].raw.parsed.value.token.expiresAt)
            && (b.value < a.value ==> e.log[a.value].call.clock > e.evals[j].raw.parsed.value.token.expiresAt)
  {
    var e := Run(s, schedule);
    InitialInv(s);
    RunKeepsInv(s, schedule);
    assert TrailHolds(e, i) && TrailHolds(e, j);
    var a, b := e.evals[i].trail.consumedAt.value, e.evals[j].trail.consumedAt.value;
    var calls := Calls(e.log);
    var nonce := e.evals[i].raw.parsed.value.token.nonce;
    assert AcceptedAt(e.store.backend, calls, a, nonce) && AcceptedAt(e.store.backend, calls, b, nonce);
    if a < b {
      SecondAcceptanceIsAfterExpiry(e.store.backend, calls, a, b, nonce);
    } else {
      SecondAcceptanceIsAfterExpiry(e.store.backend, calls, b, a, nonce);
    }
  }

  /** The caller's clock is ahead of the store's at the nonce call by the leeway it grants. */
  predicate KeepsUp(s: System, i: nat)
    requires i < |s.evals|
  {
    var at := s.evals[i].trail.consumedAt;
    at.Some? && at.value < |s.log| && s.log[at.value].call.clock + s.evals[i].x.host.Leeway() <= s.evals[i].x.now + 1
  }

  /** One token is allowed at most once in every interleaving, as far as its evaluations keep up: at
      no leeway, with a store clock not ahead of the caller's. */
  lemma TokenAllowedOnce(s: System, schedule: seq<Action>, i: nat, j: nat)
    requires Initial(s) && i < |s.evals| && j < |s.evals|
    requires var e := Run(s, schedule);
             Allowed(e, i) && Allowed(e, j) && FlushesNotAhead(Calls(e.log)) && KeepsUp(e, i) && KeepsUp(e, j)
             && e.evals[i].raw.parsed.Some? && e.evals[j].raw.parsed.Some?
             && e.evals[i].raw.parsed.value.token == e.evals[j].raw.parsed.value.token
    ensures i == j
  {
    if i != j {
      NonceAllowedOnce(s, schedule, i, j);
      AllowedHadThreeAnswers(s, schedule, i);
      AllowedHadThreeAnswers(s, schedule, j);
    }
  }

  /** An evaluation that has not yet made its revocation check when its token is revoked is never
      allowed, however long it is delayed and whatever happens meanwhile. */
  lemma {:induction false} RevokedBeforeCheckIsNeverAllowed(s: System, schedule: seq<Action>, i: nat)
    requires Fits(s) && i < |s.evals| && s.evals[i].raw.parsed.Some?
    requires s.evals[i].raw.parsed.value.token.tokenId in s.store.state.revoked
    requires s.evals[i].pc.Unstarted? || (s.evals[i].pc.Finished? && s.evals[i].pc.outcome.Err?)
    ensures !Allowed(Run(s, schedule), i)
    decreases |schedule|
  {
    if schedule != [] {
      NextFits(s, schedule[0]);
      RevocationKeepsBarring(s, schedule[0], i);
      RevokedBeforeCheckIsNeverAllowed(Next(s, schedule[0]), schedule[1..], i);
    }
  }

  lemma RevocationKeepsBarring(s: System, a: Action, i: nat)
    requires Fits(s) && i < |s.evals| && s.evals[i].raw.parsed.Some?
    requires s.evals[i].raw.parsed.value.token.tokenId in s.store.state.revoked
    requires s.evals[i].pc.Unstarted? || (s.evals[i].pc.Finished? && s.evals[i].pc.outcome.Err?)
    ensures var s' := Next(s, a);
            s'.evals[i].raw.parsed.Some? && s'.evals[i].raw.parsed.value.token.tokenId in s'.store.state.revoked
            && (s'.evals[i].pc.Unstarted? || (s'.evals[i].pc.Finished? && s'.evals[i].pc.outcome.Err?))
  {
    hide BeforeStore, AfterStore, AfterNonceReply;
    var v := s.evals[i];
    NextFits(s, a);
    if a.Proceed? && a.i == i && BeforeStore(v.x, v.raw).Ok? {
      BeforeStoreKeepsCredentials(v.x, v.raw);
    }
  }

  /** Likewise for a denied agent, as long as the deny list is not cleared. */
  lemma {:induction false} DeniedBeforeCheckIsNeverAllowed(s: System, schedule: seq<Action>, i: nat)
    requires Inv(s) && i < |s.evals| && s.evals[i].raw.parsed.Some?
    requires s.evals[i].raw.parsed.value.agentId in s.store.state.denied
    requires !s.evals[i].pc.DenyChecked? && (s.evals[i].pc.Finished? ==> s.evals[i].pc.outcome.Err?)
    requires forall k | 0 <= k < |schedule| && schedule[k].Administer? :: schedule[k].op != ClearEmergencyDenyList
    ensures !Allowed(Run(s, schedule), i)
    decreases |schedule|
  {
    if schedule != [] {
      NextFits(s, schedule[0]);
      NextKeepsSequential(s, schedule[0]);
      NextKeepsTrails(s, schedule[0]);
      DenialKeepsBarring(s, schedule[0], i);
      DeniedBeforeCheckIsNeverAllowed(Next(s, schedule[0]), schedule[1..], i);
    }
  }

  lemma DenialKeepsBarring(s: System, a: Action, i: nat)
    requires Fits(s) && i < |s.evals| && s.evals[i].raw.parsed.Some? && TrailHolds(s, i)
    requires s.evals[i].raw.parsed.value.agentId in s.store.state.denied
    requires !s.evals[i].pc.DenyChecked? && (s.evals[i].pc.Finished? ==> s.evals[i].pc.outcome.Err?)
    requires a.Administer? ==> a.op != ClearEmergencyDenyList
    ensures var s' := Next(s, a);
            s'.evals[i].raw.parsed.Some? && s'.evals[i].raw.parsed.value.agentId in s'.store.state.denied
            && !s'.evals[i].pc.DenyChecked? && (s'.evals[i].pc.Finished? ==> s'.evals[i].pc.outcome.Err?)
  {
    hide BeforeStore, AfterStore, AfterNonceReply;
    NextFits(s, a);
  }

  /** The check is where a revocation takes hold: an evaluation past it finishes the same way
      whether or not its token and its agent are barred meanwhile. */
  lemma BarredAfterChecksIsTooLate(s: System, i: nat, clock: Time, revoked: set<string>, denied: set<string>)
    requires Fits(s) && i < |s.evals| && s.evals[i].pc.DenyChecked?
    ensures var barred := s.(store := s.store.(state := s.store.state.(revoked := revoked, denied := denied)));
            ProceedWith(barred, i, clock).evals[i].pc == ProceedWith(s, i, clock).evals[i].pc
  {
    hide BeforeStore, AfterStore, AfterNonceReply;
  }

  /** Only evaluation i proceeds; administration does as it likes. */
  predicate OnlyProceeds(schedule: seq<Action>, i: nat) {
    forall k | 0 <= k < |schedule| && schedule[k].Proceed? :: schedule[k].i == i
  }

  predicate AlikeButRevoked(a: Store, b: Store) {
    a.(state := a.state.(revoked := {})) == b.(state := b.state.(revoked := {}))
  }

  lemma AskAlike(a: Store, b: Store, op: Op, clock: Time)
    requires AlikeButRevoked(a, b)
    ensures AlikeButRevoked(a.Ask(op, clock).0, b.Ask(op, clock).0)
    ensures a.Ask(op, clock).1.Some? == b.Ask(op, clock).1.Some?
    ensures !op.IsTokenRevoked? ==> a.Ask(op, clock).1 == b.Ask(op, clock).1
  {
  }

  /** The systems tell evaluation i the same, but for what tokens are revoked. */
  ghost predicate SameButRevoked(s: System, t: System, i: nat) {
    |s.evals| == |t.evals| && i < |s.evals| && s.now == t.now
    && (s.evals[i].x, s.evals[i].raw, s.evals[i].pc) == (t.evals[i].x, t.evals[i].raw, t.evals[i].pc)
    && AlikeButRevoked(s.store, t.store) && !s.evals[i].pc.Unstarted?
  }

  lemma NextSameButRevoked(s: System, t: System, i: nat, a: Action)
    requires Fits(s) && Fits(t) && SameButRevoked(s, t, i) && (a.Proceed? ==> a.i == i)
    ensures SameButRevoked(Next(s, a), Next(t, a), i)
  {
    hide BeforeStore, AfterStore, AfterNonceReply, Store.Ask, AlikeButRevoked;
    match a {
      case Administer(op, clock) => AskAlike(s.store, t.store, op, clock);
      case SetAvailable(_) => AvailableAlike(s.store, t.store, a.available);
      case Proceed(_, clock) =>
        match s.evals[i].pc {
          case RevocationChecked(e) => AskAlike(s.store, t.store, IsAgentEmergencyDenied(e.agentId), clock);
          case DenyChecked(e) => AskAlike(s.store, t.store, ConsumeNonce(e.token.nonce, e.token.expiresAt), clock);
          case _ =>
        }
    }
  }

  lemma AvailableAlike(a: Store, b: Store, available: bool)
    requires AlikeButRevoked(a, b)
    ensures AlikeButRevoked(a.(available := available), b.(available := available))
  {
  }

  /** A revocation is too late as soon as the revocation check has been passed: whatever tokens are
      revoked meanwhile, the evaluation goes on and ends the same way. */
  lemma {:induction false} RevokedAfterCheckIsTooLate(s: System, t: System, schedule: seq<Action>, i: nat)
    requires Fits(s) && Fits(t) && SameButRevoked(s, t, i) && OnlyProceeds(schedule, i)
    ensures SameButRevoked(Run(s, schedule), Run(t, schedule), i)
    decreases |schedule|
  {
    if schedule != [] {
      NextFits(s, schedule[0]);
      NextFits(t, schedule[0]);
      NextSameButRevoked(s, t, i, schedule[0]);
      RevokedAfterCheckIsTooLate(Next(s, schedule[0]), Next(t, schedule[0]), schedule[1..], i);
    }
  }
}
