/** Evaluations over one state file, each on a thread of the lock-file protocol: the three store calls
    of an evaluation are interleaved with everyone else's file operation by file operation, and a
    call may time out on the lock. */
module FileEvaluation {
  import opened Wrappers
  import opened Models
  import opened Payload
  import opened TrustState
  import opened Pipeline
  import Locks = LockProtocol

  /** What an evaluation waits for; the envelope is the one that passed the stages before the store. */
  datatype Progress =
    | Unstarted
    | AwaitsRevocation(e: RequestEnvelope)
    | AwaitsDenial(e: RequestEnvelope)
    | AwaitsNonce(e: RequestEnvelope)
    | Finished(outcome: Outcome)

  datatype Evaluation = Evaluation(x: Setting, raw: RawRequest, progress: Progress)

  /** Evaluation k runs on thread k; the threads beyond are others at work on the same file. */
  datatype System = System(evals: seq<Evaluation>, files: Locks.System)

  datatype Action = FileStep(a: Locks.Action) | Resume(k: nat)

  predicate Fits(s: System) {
    |s.evals| <= |s.files.threads|
    && forall k | 0 <= k < |s.evals| ::
         s.evals[k].raw.parsed.Some? ==> OrderFits(s.evals[k].raw.parsed.value.token, s.evals[k].x.order)
  }

  /** The call an evaluation has submitted. */
  function Submitted(p: Progress): Option<Op> {
    match p
    case AwaitsRevocation(e) => Some(IsTokenRevoked(e.token.tokenId))
    case AwaitsDenial(e) => Some(IsAgentEmergencyDenied(e.agentId))
    case AwaitsNonce(e) => Some(ConsumeNonce(e.token.nonce, e.token.expiresAt))
    case _ => None
  }

  /** A lock timeout is a backend error. */
  function ReplyOf(o: Locks.Outcome): Option<Reply> {
    if o.TimedOut? then None else Some(o.reply)
  }

  /** What an evaluation does when it starts, and when a call has come back. */
  function Started(x: Setting, raw: RawRequest): Progress
    requires raw.parsed.Some? ==> OrderFits(raw.parsed.value.token, x.order)
  {
    match BeforeStore(x, raw)
    case Err(violation) => Finished(Err(violation))
    case Ok(e) => AwaitsRevocation(e)
  }

  function Continued(x: Setting, p: Progress, reply: Option<Reply>): Progress {
    match p
    case AwaitsRevocation(e) =>
      var stop := AfterRevocationReply(reply);
      if stop.Some? then Finished(stop.value) else AwaitsDenial(e)
    case AwaitsDenial(e) =>
      var stop := AfterDenyReply(reply);
      if stop.Some? then Finished(stop.value) else AwaitsNonce(e)
    case AwaitsNonce(e) =>
      var stage := AfterNonceReply(reply, e, x.host);
      Finished(if stage.Ok? then AfterStore(x, stage.value) else stage)
    case _ => p
  }

  function Idle(t: Locks.Thread): bool {
    t.todo == [] && t.pc.Acquiring?
  }

  function Resumed(v: Evaluation, t: Locks.Thread): Progress
    requires v.raw.parsed.Some? ==> OrderFits(v.raw.parsed.value.token, v.x.order)
  {
    if v.progress.Unstarted? then Started(v.x, v.raw)
    else if t.outcomes == [] then v.progress
    else Continued(v.x, v.progress, ReplyOf(t.outcomes[|t.outcomes| - 1]))
  }

  function Next(s: System, a: Action): System
    requires Fits(s)
  {
    match a
    case FileStep(step) => s.(files := Locks.Next(s.files, step))
    case Resume(k) =>
      if k >= |s.evals| || !Idle(s.files.threads[k]) then s
      else
        var t := s.files.threads[k];
        var p := Resumed(s.evals[k], t);
        var op := Submitted(p);
        System(s.evals[k := s.evals[k].(progress := p)],
               if op.Some? then s.files.(threads := s.files.threads[k := t.(todo := [op.value])]) else s.files)
  }

  lemma NextFits(s: System, a: Action)
    requires Fits(s)
    ensures var s' := Next(s, a);
            Fits(s') && |s'.evals| == |s.evals| && |s'.files.threads| == |s.files.threads|
            && forall k | 0 <= k < |s.evals| :: s'.evals[k].x == s.evals[k].x && s'.evals[k].raw == s.evals[k].raw
  {
    hide Resumed;
  }

  function Run(s: System, schedule: seq<Action>): System
    requires Fits(s)
    decreases |schedule|
  {
    if schedule == [] then s
    else
      NextFits(s, schedule[0]);
      Run(Next(s, schedule[0]), schedule[1..])
  }

  predicate Initial(s: System) {
    Fits(s) && Locks.Initial(s.files)
    && forall k | 0 <= k < |s.evals| :: s.evals[k].progress == Unstarted && s.files.threads[k].todo == []
  }

  // ---------------------------------------------------------------- the invariant

  /** The call is in the committed history, made by thread k and answered so. */
  predicate CommittedAt(log: seq<Locks.Committed>, at: int, k: nat, op: Op, reply: Reply) {
    0 <= at < |log| && log[at].tid == k && log[at].call.op == op && log[at].reply == reply
  }

  ghost predicate HasCommitted(log: seq<Locks.Committed>, k: nat, op: Op, reply: Reply) {
    exists at :: CommittedAt(log, at, k, op, reply)
  }

  ghost predicate CameBack(log: seq<Locks.Committed>, k: nat, op: Op, o: Locks.Outcome) {
    o.Replied? ==> HasCommitted(log, k, op, o.reply)
  }

  /** The thread carries out what the evaluation submitted, and what it brings back was committed. */
  ghost predicate Carries(log: seq<Locks.Committed>, k: nat, t: Locks.Thread, p: Progress) {
    var op := Submitted(p);
    if op.None? then t.todo == []
    else
      (t.todo == [] || t.todo == [op.value])
      && (t.pc.Unlocking? ==> HasCommitted(log, k, op.value, t.pc.reply))
      && (t.todo == [] ==> t.outcomes != [] && CameBack(log, k, op.value, t.outcomes[|t.outcomes| - 1]))
  }

  /** What an allowed evaluation has behind it. */
  ghost predicate AllCommitted(log: seq<Locks.Committed>, k: nat, e: RequestEnvelope) {
    HasCommitted(log, k, IsTokenRevoked(e.token.tokenId), Answer(false))
    && HasCommitted(log, k, IsAgentEmergencyDenied(e.agentId), Answer(false))
    && HasCommitted(log, k, ConsumeNonce(e.token.nonce, e.token.expiresAt), Answer(true))
  }

  predicate SameCredentials(e: RequestEnvelope, raw: RawRequest) {
    raw.parsed.Some? && e.token == raw.parsed.value.token && e.agentId == raw.parsed.value.agentId
  }

  ghost predicate Backed(log: seq<Locks.Committed>, k: nat, v: Evaluation) {
    match v.progress
    case Unstarted => true
    case AwaitsRevocation(e) => SameCredentials(e, v.raw)
    case AwaitsDenial(e) =>
      SameCredentials(e, v.raw) && HasCommitted(log, k, IsTokenRevoked(e.token.tokenId), Answer(false))
    case AwaitsNonce(e) =>
      SameCredentials(e, v.raw) && HasCommitted(log, k, IsTokenRevoked(e.token.tokenId), Answer(false))
      && HasCommitted(log, k, IsAgentEmergencyDenied(e.agentId), Answer(false))
    case Finished(outcome) =>
      outcome.Ok? ==>
        v.raw.parsed.Some? && AllCommitted(log, k, v.raw.parsed.value)
        && v.x.now < v.raw.parsed.value.token.expiresAt + v.x.host.Leeway()
  }

  ghost predicate EvalInv(s: System, k: nat)
    requires Fits(s) && k < |s.evals|
  {
    Carries(s.files.log, k, s.files.threads[k], s.evals[k].progress) && Backed(s.files.log, k, s.evals[k])
  }

  ghost predicate Inv(s: System) {
    Fits(s) && Locks.Inv(s.files) && forall k | 0 <= k < |s.evals| :: EvalInv(s, k)
  }

  lemma InitialInv(s: System)
    requires Initial(s)
    ensures Inv(s)
  {
    Locks.InitialInv(s.files);
  }

  lemma HistoryGrows(log: seq<Locks.Committed>, log': seq<Locks.Committed>, k: nat, op: Op, reply: Reply)
    requires log <= log' && HasCommitted(log, k, op, reply)
    ensures HasCommitted(log', k, op, reply)
  {
    var at :| CommittedAt(log, at, k, op, reply);
    assert CommittedAt(log', at, k, op, reply);
  }

  lemma BackedLasts(log: seq<Locks.Committed>, log': seq<Locks.Committed>, k: nat, v: Evaluation)
    requires log <= log' && Backed(log, k, v)
    ensures Backed(log', k, v)
  {
    hide HasCommitted;
    forall op, reply | HasCommitted(log, k, op, reply) ensures HasCommitted(log', k, op, reply) {
      HistoryGrows(log, log', k, op, reply);
    }
  }

  lemma CarriesLasts(log: seq<Locks.Committed>, log': seq<Locks.Committed>, k: nat, t: Locks.Thread, p: Progress)
    requires log <= log' && Carries(log, k, t, p)
    ensures Carries(log', k, t, p)
  {
    hide HasCommitted;
    forall op, reply | HasCommitted(log, k, op, reply) ensures HasCommitted(log', k, op, reply) {
      HistoryGrows(log, log', k, op, reply);
    }
  }

  lemma LogGrows(s: Locks.System, a: Locks.Action)
    ensures s.log <= Locks.Next(s, a).log
    ensures forall k | 0 <= k < |s.threads| && k != a.tid :: Locks.Next(s, a).threads[k] == s.threads[k]
  {
  }

  /** A file operation of the evaluation's own thread. */
  lemma OwnStepCarries(s: Locks.System, a: Locks.Action, p: Progress)
    requires a.tid < |s.threads| && Carries(s.log, a.tid, s.threads[a.tid], p)
    ensures Carries(Locks.Next(s, a).log, a.tid, Locks.Next(s, a).threads[a.tid], p)
  {
    hide HasCommitted, Step;
    var k := a.tid;
    var s' := Locks.Next(s, a);
    var t, t' := s.threads[k], s'.threads[k];
    LogGrows(s, a);
    CarriesLasts(s.log, s'.log, k, t, p);
    if t.pc.Saving? && t'.pc.Unlocking? {
      assert CommittedAt(s'.log, |s.log|, k, t.todo[0], t.pc.reply);
      assert HasCommitted(s'.log, k, t.todo[0], t.pc.reply) by {
        CommittedIsThere(s'.log, |s.log|, k, t.todo[0], t.pc.reply);
      }
    }
  }

  lemma CommittedIsThere(log: seq<Locks.Committed>, at: int, k: nat, op: Op, reply: Reply)
    requires CommittedAt(log, at, k, op, reply)
    ensures HasCommitted(log, k, op, reply)
  {
  }

  lemma FileStepKeepsInv(s: System, a: Locks.Action)
    requires Inv(s)
    ensures Inv(Next(s, FileStep(a)))
  {
    hide Carries, Backed, Locks.Next, Locks.Inv;
    var s' := Next(s, FileStep(a));
    NextFits(s, FileStep(a));
    Locks.NextKeepsInv(s.files, a);
    LogGrows(s.files, a);
    forall k | 0 <= k < |s.evals| ensures EvalInv(s', k) {
      assert EvalInv(s, k);
      BackedLasts(s.files.log, s'.files.log, k, s.evals[k]);
      if k == a.tid {
        OwnStepCarries(s.files, a, s.evals[k].progress);
      } else {
        CarriesLasts(s.files.log, s'.files.log, k, s.files.threads[k], s.evals[k].progress);
      }
    }
  }

  /** Submitting a call to an idle thread disturbs nobody. */
  lemma SubmitKeepsLocks(s: Locks.System, k: nat, op: Op)
    requires Locks.Inv(s) && k < |s.threads| && Idle(s.threads[k])
    ensures Locks.Inv(s.(threads := s.threads[k := s.threads[k].(todo := [op])]))
  {
    var s' := s.(threads := s.threads[k := s.threads[k].(todo := [op])]);
    assert forall i | 0 <= i < |s.threads| :: Locks.Holds(s'.threads[i]) == Locks.Holds(s.threads[i]);
    forall i | 0 <= i < |s'.threads| ensures Locks.UpToDate(s', s'.threads[i]) {
      assert Locks.UpToDate(s, s.threads[i]);
    }
    if s.lockFile {
      var h :| 0 <= h < |s.threads| && Locks.Holds(s.threads[h]);
      assert Locks.Holds(s'.threads[h]);
    }
  }

  lemma StartIsBacked(log: seq<Locks.Committed>, k: nat, v: Evaluation)
    requires v.raw.parsed.Some? ==> OrderFits(v.raw.parsed.value.token, v.x.order)
    ensures Backed(log, k, v.(progress := Started(v.x, v.raw)))
  {
    hide BeforeStore;
    if BeforeStore(v.x, v.raw).Ok? {
      BeforeStoreIff(v.x, v.raw, Store(File, true, EMPTY), 0);
    }
  }

  lemma ContinuationIsBacked(log: seq<Locks.Committed>, k: nat, v: Evaluation, reply: Option<Reply>)
    requires Backed(log, k, v) && Submitted(v.progress).Some?
    requires reply.Some? ==> HasCommitted(log, k, Submitted(v.progress).value, reply.value)
    requires reply.Some? && !v.progress.AwaitsNonce? ==> reply.value.Answer?
    ensures Backed(log, k, v.(progress := Continued(v.x, v.progress, reply)))
  {
    hide HasCommitted, AfterStore;
    if v.progress.AwaitsNonce? {
      AfterStoreNeedsLifetime(v.x, v.progress.e);
    }
  }

  /** Checks are answered by yes or no. */
  lemma ChecksAreAnswered(s: Locks.System, k: nat, op: Op, reply: Reply)
    requires Locks.Inv(s) && HasCommitted(s.log, k, op, reply) && (op.IsTokenRevoked? || op.IsAgentEmergencyDenied?)
    ensures reply.Answer?
  {
    var at :| CommittedAt(s.log, at, k, op, reply);
    assert s.log[at].reply == ReplyAt(File, Locks.Calls(s.log), at);
  }

  lemma ResumptionIsBacked(s: System, k: nat)
    requires Inv(s) && k < |s.evals| && Idle(s.files.threads[k])
    ensures Backed(s.files.log, k, s.evals[k].(progress := Resumed(s.evals[k], s.files.threads[k])))
  {
    hide HasCommitted, Started, Continued, Locks.Inv;
    var v, t := s.evals[k], s.files.threads[k];
    assert EvalInv(s, k);
    if v.progress.Unstarted? {
      StartIsBacked(s.files.log, k, v);
    } else if Submitted(v.progress).Some? {
      var reply := ReplyOf(t.outcomes[|t.outcomes| - 1]);
      if reply.Some? && !v.progress.AwaitsNonce? {
        ChecksAreAnswered(s.files, k, Submitted(v.progress).value, reply.value);
      }
      ContinuationIsBacked(s.files.log, k, v, reply);
    } else {
      FinishedStays(v, t);
    }
  }

  lemma FinishedStays(v: Evaluation, t: Locks.Thread)
    requires v.raw.parsed.Some? ==> OrderFits(v.raw.parsed.value.token, v.x.order)
    requires v.progress.Finished?
    ensures Resumed(v, t) == v.progress
  {
  }

  lemma ResumeKeepsInv(s: System, k: nat)
    requires Inv(s)
    ensures Inv(Next(s, Resume(k)))
  {
    hide Backed, Resumed, Locks.Inv;
    var s' := Next(s, Resume(k));
    NextFits(s, Resume(k));
    if k < |s.evals| && Idle(s.files.threads[k]) {
      ResumptionIsBacked(s, k);
      var op := Submitted(Resumed(s.evals[k], s.files.threads[k]));
      if op.Some? {
        SubmitKeepsLocks(s.files, k, op.value);
      }
      forall j | 0 <= j < |s.evals| ensures EvalInv(s', j) {
        assert EvalInv(s, j);
      }
    }
  }

  lemma {:induction false} RunKeepsInv(s: System, schedule: seq<Action>)
    requires Inv(s)
    ensures Inv(Run(s, schedule)) && |Run(s, schedule).evals| == |s.evals|
    decreases |schedule|
  {
    if schedule != [] {
      NextFits(s, schedule[0]);
      match schedule[0] {
        case FileStep(a) => FileStepKeepsInv(s, a);
        case Resume(k) => ResumeKeepsInv(s, k);
      }
      RunKeepsInv(Next(s, schedule[0]), schedule[1..]);
    }
  }

  // ---------------------------------------------------------------- what every interleaving gives

  predicate Allowed(s: System, k: nat)
    requires k < |s.evals|
  {
    s.evals[k].progress.Finished? && s.evals[k].progress.outcome.Ok?
  }

  /** An allowed evaluation's three calls are in the history that the state file is the result of, each
      favourably answered. */
  lemma AllowedHadThreeAnswers(s: System, schedule: seq<Action>, k: nat)
    requires Initial(s) && k < |s.evals|
    ensures var e := Run(s, schedule);
            |e.evals| == |s.evals|
            && (Allowed(e, k) ==>
                  e.evals[k].raw.parsed.Some? && AllCommitted(e.files.log, k, e.evals[k].raw.parsed.value)
                  && e.evals[k].x.now < e.evals[k].raw.parsed.value.token.expiresAt + e.evals[k].x.host.Leeway())
            && e.files.Contents() == After(File, Locks.Calls(e.files.log))
            && forall i | 0 <= i < |e.files.log| :: e.files.log[i].reply == ReplyAt(File, Locks.Calls(e.files.log), i)
  {
    InitialInv(s);
    RunKeepsInv(s, schedule);
    assert EvalInv(Run(s, schedule), k);
  }

  /** Of two allowed evaluations of one nonce the later to consume it, in lock order, did so strictly
      after the earlier one's token expired. */
  lemma NonceAllowedOnce(s: System, schedule: seq<Action>, i: nat, j: nat) returns (a: nat, b: nat)
    requires Initial(s) && i < |s.evals| && j < |s.evals| && i != j
    requires var e := Run(s, schedule);
             |e.evals| == |s.evals| && Allowed(e, i) && Allowed(e, j) && FlushesNotAhead(Locks.Calls(e.files.log))
             && e.evals[i].raw.parsed.Some? && e.evals[j].raw.parsed.Some?
             && e.evals[i].raw.parsed.value.token.nonce == e.evals[j].raw.parsed.value.token.nonce
    ensures var e := Run(s, schedule);
            var t, u := e.evals[i].raw.parsed.value.token, e.evals[j].raw.parsed.value.token;
            CommittedAt(e.files.log, a, i, ConsumeNonce(t.nonce, t.expiresAt), Answer(true))
            && CommittedAt(e.files.log, b, j, ConsumeNonce(u.nonce, u.expiresAt), Answer(true))
            && a != b
            && (a < b ==> t.expiresAt < e.files.log[b].call.clock)
            && (b < a ==> u.expiresAt < e.files.log[a].call.clock)
  {
    var e := Run(s, schedule);
    InitialInv(s);
    RunKeepsInv(s, schedule);
    assert EvalInv(e, i) && EvalInv(e, j);
    var t, u := e.evals[i].raw.parsed.value.token, e.evals[j].raw.parsed.value.token;
    var calls := Locks.Calls(e.files.log);
    a :| CommittedAt(e.files.log, a, i, ConsumeNonce(t.nonce, t.expiresAt), Answer(true));
    b :| CommittedAt(e.files.log, b, j, ConsumeNonce(u.nonce, u.expiresAt), Answer(true));
    assert AcceptedAt(File, calls, a, t.nonce) && AcceptedAt(File, calls, b, t.nonce);
    if a < b {
      SecondAcceptanceIsAfterExpiry(File, calls, a, b, t.nonce);
    } else {
      SecondAcceptanceIsAfterExpiry(File, calls, b, a, t.nonce);
    }
  }

  /** The caller's clock is ahead of the store's at the nonce call by the leeway it grants. */
  ghost predicate KeepsUp(s: System, k: nat)
    requires k < |s.evals|
  {
    s.evals[k].raw.parsed.Some?
    && (var t := s.evals[k].raw.parsed.value.token;
        forall at | CommittedAt(s.files.log, at, k, ConsumeNonce(t.nonce, t.expiresAt), Answer(true)) ::
          s.files.log[at].call.clock + s.evals[k].x.host.Leeway() <= s.evals[k].x.now + 1)
  }

  /** One token is allowed at most once in every interleaving of file operations, as far as its
      evaluations keep up. */
  lemma TokenAllowedOnce(s: System, schedule: seq<Action>, i: nat, j: nat)
    requires Initial(s) && i < |s.evals| && j < |s.evals|
    requires var e := Run(s, schedule);
             |e.evals| == |s.evals| && Allowed(e, i) && Allowed(e, j) && FlushesNotAhead(Locks.Calls(e.files.log))
             && KeepsUp(e, i) && KeepsUp(e, j)
             && e.evals[i].raw.parsed.value.token == e.evals[j].raw.parsed.value.token
    ensures i == j
  {
    if i != j {
      var a, b := NonceAllowedOnce(s, schedule, i, j);
      AllowedHadThreeAnswers(s, schedule, i);
      AllowedHadThreeAnswers(s, schedule, j);
    }
  }

  /** An allowed evaluation's revocation check came before every revocation of its token. */
  lemma AllowedWasNotRevoked(s: System, schedule: seq<Action>, k: nat) returns (at: nat)
    requires Initial(s) && k < |s.evals|
    requires var e := Run(s, schedule); |e.evals| == |s.evals| && Allowed(e, k) && e.evals[k].raw.parsed.Some?
    ensures var e := Run(s, schedule);
            var id := e.evals[k].raw.parsed.value.token.tokenId;
            CommittedAt(e.files.log, at, k, IsTokenRevoked(id), Answer(false))
            && forall p | 0 <= p < at :: e.files.log[p].call.op != RevokeToken(id)
  {
    var e := Run(s, schedule);
    InitialInv(s);
    RunKeepsInv(s, schedule);
    assert EvalInv(e, k);
    var id := e.evals[k].raw.parsed.value.token.tokenId;
    var calls := Locks.Calls(e.files.log);
    at :| CommittedAt(e.files.log, at, k, IsTokenRevoked(id), Answer(false));
    assert e.files.log[at].reply == ReplyAt(File, calls, at);
    RevocationIsPermanent(File, calls[..at], id);
    forall p | 0 <= p < at ensures e.files.log[p].call.op != RevokeToken(id) {
      assert calls[..at][p] == e.files.log[p].call;
    }
  }

  /** An evaluation whose call finds the lock taken twenty-one times, whatever the others do meanwhile,
      is denied as by a store that does not answer. */
  lemma StarvedIsDenied(s: System, k: nat, schedule: seq<Locks.Action>)
    requires Fits(s) && k < |s.evals| && Submitted(s.evals[k].progress).Some?
    requires s.files.threads[k].todo == [Submitted(s.evals[k].progress).value] && s.files.threads[k].pc == Locks.Acquiring(0)
    requires Locks.KeepsFailing(s.files, schedule, k) && Locks.Turns(schedule, k) == 21
    ensures var starved := s.(files := Locks.Run(s.files, schedule));
            Fits(starved)
            && Next(starved, Resume(k)).evals[k].progress
               == Finished(Err(Violation(EnforceRevocationAndRedelegation, BackendError)))
  {
    hide Locks.Run, Locks.KeepsFailing, Locks.Turns, AfterStore;
    Locks.AcquireEnds(s.files, schedule, k, 0);
    FileRunKeepsThreads(s.files, schedule);
  }

  lemma {:induction false} FileRunKeepsThreads(files: Locks.System, schedule: seq<Locks.Action>)
    ensures |Locks.Run(files, schedule).threads| == |files.threads|
    decreases |schedule|
  {
    if schedule != [] {
      FileRunKeepsThreads(Locks.Next(files, schedule[0]), schedule[1..]);
    }
  }

  // ---------------------------------------------------------------- undisturbed, the steps are the pipeline

  function FiveSteps(s: Locks.System, k: nat, clock: Time): Locks.System {
    var a := Locks.Advance(k, clock);
    Locks.Next(Locks.Next(Locks.Next(Locks.Next(Locks.Next(s, a), a), a), a), a)
  }

  /** The thread waits for a call, nobody has the lock, and the clock has not passed. */
  predicate Ready(s: Locks.System, k: nat, clock: Time) {
    k < |s.threads| && s.threads[k].pc == Locks.Acquiring(0) && !s.lockFile && s.now <= clock
  }

  /** Five file operations carry a call through: lock, load, read the clock, save and unlock. */
  lemma FiveStepsMakeACall(s: Locks.System, k: nat, op: Op, clock: Time)
    requires Ready(s, k, clock) && s.threads[k].todo == [op]
    ensures var e := FiveSteps(s, k, clock);
            var (next, reply) := Step(File, s.Contents(), op, clock);
            Ready(e, k, clock) && |e.threads| == |s.threads| && e.Contents() == next
            && e.threads[k] == Locks.Thread([], Locks.Acquiring(0), s.threads[k].outcomes + [Locks.Replied(reply)])
  {
    hide Step;
    Locks.UnwrittenUnchanged(s.Contents(), op, clock);
  }

  lemma FiveStepsOfIdle(s: Locks.System, k: nat, clock: Time)
    requires Ready(s, k, clock) && s.threads[k].todo == []
    ensures FiveSteps(s, k, clock) == s
  {
  }

  function Turn(s: System, k: nat, clock: Time): System
    requires Fits(s)
  {
    var s1 := Next(s, Resume(k));
    s1.(files := FiveSteps(s1.files, k, clock))
  }

  function TurnActions(k: nat, clock: Time): seq<Action> {
    var a := FileStep(Locks.Advance(k, clock));
    [Resume(k), a, a, a, a, a]
  }

  lemma {:induction false} RunConcat(s: System, first: seq<Action>, second: seq<Action>)
    requires Fits(s)
    ensures Fits(Run(s, first)) && Run(s, first + second) == Run(Run(s, first), second)
    decreases |first|
  {
    if first == [] {
      assert first + second == second;
    } else {
      NextFits(s, first[0]);
      assert (first + second)[0] == first[0] && (first + second)[1..] == first[1..] + second;
      RunConcat(Next(s, first[0]), first[1..], second);
    }
  }

  lemma RunFileStep(s: System, a: Locks.Action, rest: seq<Action>)
    requires Fits(s)
    ensures Fits(s.(files := Locks.Next(s.files, a)))
    ensures Run(s, [FileStep(a)] + rest) == Run(s.(files := Locks.Next(s.files, a)), rest)
  {
    hide Locks.Next;
    NextFits(s, FileStep(a));
    assert ([FileStep(a)] + rest)[1..] == rest;
  }

  lemma TurnIsRun(s: System, k: nat, clock: Time)
    requires Fits(s)
    ensures Run(s, TurnActions(k, clock)) == Turn(s, k, clock) && Fits(Turn(s, k, clock))
  {
    hide Next, Locks.Next, Run;
    var a := Locks.Advance(k, clock);
    var f := FileStep(a);
    var s1 := Next(s, Resume(k));
    NextFits(s, Resume(k));
    var s2 := s1.(files := Locks.Next(s1.files, a));
    var s3 := s2.(files := Locks.Next(s2.files, a));
    var s4 := s3.(files := Locks.Next(s3.files, a));
    var s5 := s4.(files := Locks.Next(s4.files, a));
    RunFileStep(s1, a, [f, f, f, f]);
    RunFileStep(s2, a, [f, f, f]);
    RunFileStep(s3, a, [f, f]);
    RunFileStep(s4, a, [f]);
    RunFileStep(s5, a, []);
    assert [f] + [f, f, f, f] == [f, f, f, f, f] && [f] + [f, f, f] == [f, f, f, f] && [f] + [f, f] == [f, f, f];
    assert [f] + [f] == [f, f] && [f] + [] == [f];
    RunResume(s, k, [f, f, f, f, f]);
    RunNothing(s5.(files := Locks.Next(s5.files, a)));
    assert [Resume(k)] + [f, f, f, f, f] == TurnActions(k, clock);
  }

  lemma RunNothing(s: System)
    requires Fits(s)
    ensures Run(s, []) == s
  {
  }

  lemma RunResume(s: System, k: nat, rest: seq<Action>)
    requires Fits(s)
    ensures Fits(Next(s, Resume(k))) && Run(s, [Resume(k)] + rest) == Run(Next(s, Resume(k)), rest)
  {
    NextFits(s, Resume(k));
    assert ([Resume(k)] + rest)[1..] == rest;
  }

  /** One turn of an evaluation left alone: what it resumes with, and its next call carried through. */
  lemma TurnEffect(s: System, k: nat, clock: Time)
    requires Fits(s) && k < |s.evals| && Ready(s.files, k, clock) && s.files.threads[k].todo == []
    ensures var e := Turn(s, k, clock);
            var t := s.files.threads[k];
            var p := Resumed(s.evals[k], t);
            |e.evals| == |s.evals| && e.evals[k] == s.evals[k].(progress := p)
            && Ready(e.files, k, clock) && e.files.threads[k].todo == []
            && if Submitted(p).None? then e.files == s.files
               else
                 var (next, reply) := Step(File, s.files.Contents(), Submitted(p).value, clock);
                 e.files.Contents() == next && e.files.threads[k].outcomes == t.outcomes + [Locks.Replied(reply)]
  {
    hide Resumed, Step, FiveSteps;
    var s1 := Next(s, Resume(k));
    var op := Submitted(Resumed(s.evals[k], s.files.threads[k]));
    if op.Some? {
      FiveStepsMakeACall(s1.files, k, op.value, clock);
    } else {
      FiveStepsOfIdle(s1.files, k, clock);
    }
  }

  function Undisturbed(k: nat, clock: Time): seq<Action> {
    TurnActions(k, clock) + TurnActions(k, clock) + TurnActions(k, clock) + TurnActions(k, clock)
  }

  lemma FourTurns(s: System, k: nat, clock: Time)
    requires Fits(s)
    ensures var s1 := Turn(s, k, clock);
            Fits(s1) && var s2 := Turn(s1, k, clock);
            Fits(s2) && var s3 := Turn(s2, k, clock);
            Fits(s3) && Run(s, Undisturbed(k, clock)) == Turn(s3, k, clock)
  {
    hide Turn, Run, TurnActions;
    var turn := TurnActions(k, clock);
    TurnIsRun(s, k, clock);
    RunConcat(s, turn, turn);
    TurnIsRun(Turn(s, k, clock), k, clock);
    RunConcat(s, turn + turn, turn);
    TurnIsRun(Turn(Turn(s, k, clock), k, clock), k, clock);
    RunConcat(s, turn + turn + turn, turn);
    TurnIsRun(Turn(Turn(Turn(s, k, clock), k, clock), k, clock), k, clock);
  }

  /** An evaluation left alone on its thread, with the lock free, ends as the sequential evaluation on the
      state file's contents does, and leaves the contents that it leaves. */
  lemma StepsMakeEvaluate(s: System, k: nat, clock: Time)
    requires Fits(s) && k < |s.evals| && Ready(s.files, k, clock) && s.files.threads[k].todo == []
    requires s.evals[k].progress == Unstarted
    ensures var e := Run(s, Undisturbed(k, clock));
            var v := s.evals[k];
            var (after, outcome) := Evaluate(v.x, v.raw, Store(File, true, s.files.Contents()), clock);
            |e.evals| == |s.evals| && e.evals[k].progress == Finished(outcome) && e.files.Contents() == after.state
  {
    hide BeforeStore, AfterStore, Step, Turn, Undisturbed, Run;
    FourTurns(s, k, clock);
    var s1 := Turn(s, k, clock);
    TurnEffect(s, k, clock);
    var s2 := Turn(s1, k, clock);
    TurnEffect(s1, k, clock);
    var s3 := Turn(s2, k, clock);
    TurnEffect(s2, k, clock);
    TurnEffect(s3, k, clock);
  }
}
