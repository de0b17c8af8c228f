/** What the revocation, deny-list and nonce stores do, and the laws every run of them obeys. */
module TrustState {
  import opened Models

  datatype State = State(revoked: set<string>, denied: set<string>, nonces: map<string, Time>)

  const EMPTY: State := State({}, {}, map[])

  datatype Backend = Memory | File

  datatype Op =
    | IsTokenRevoked(tokenId: string)
    | IsAgentEmergencyDenied(agentId: string)
    | ConsumeNonce(nonce: string, validUntil: Time)
    | RevokeToken(tokenId: string)
    | EmergencyDenyAgent(agentId: string)
    | ClearEmergencyDenyList
    | FlushExpiredNonces(reference: Time)

  datatype Reply = Done | Answer(yes: bool) | Count(n: nat)

  function Min(a: int, b: int): int {
    if a <= b then a else b
  }

  function Retain(nonces: map<string, Time>, from: Time): map<string, Time> {
    map n | n in nonces && nonces[n] >= from :: nonces[n]
  }

  /** One store call. The backends part company on a replay only: the file store returns before
      it saves, so the pruning it did in memory is lost. */
  function Step(b: Backend, s: State, op: Op, clock: Time): (State, Reply) {
    match op
    case IsTokenRevoked(id) => (s, Answer(id in s.revoked))
    case IsAgentEmergencyDenied(id) => (s, Answer(id in s.denied))
    case ConsumeNonce(nonce, validUntil) =>
      var kept := Retain(s.nonces, Min(clock, validUntil));
      if nonce in kept then (if b.Memory? then s.(nonces := kept) else s, Answer(false))
      else (s.(nonces := kept[nonce := validUntil]), Answer(true))
    case RevokeToken(id) => (s.(revoked := s.revoked + {id}), Done)
    case EmergencyDenyAgent(id) => (s.(denied := s.denied + {id}), Done)
    case ClearEmergencyDenyList => (s.(denied := {}), Count(|s.denied|))
    case FlushExpiredNonces(reference) =>
      var kept := Retain(s.nonces, reference);
      RetainShrinks(s.nonces, reference);
      (s.(nonces := kept), Count(|s.nonces| - |kept|))
  }

  lemma RetainShrinks(nonces: map<string, Time>, from: Time)
    ensures |Retain(nonces, from)| <= |nonces|
    ensures |Retain(nonces, from)| == |nonces| ==> Retain(nonces, from) == nonces
  {
    var kept := Retain(nonces, from);
    assert kept.Keys <= nonces.Keys;
    SubsetSize(kept.Keys, nonces.Keys);
    assert |kept| == |kept.Keys| && |nonces| == |nonces.Keys|;
  }

  lemma SubsetSize<T>(a: set<T>, b: set<T>)
    requires a <= b
    ensures |a| <= |b| && (|a| == |b| ==> a == b)
  {
    assert b == a + (b - a);
  }

  // ---------------------------------------------------------------- runs

  /** A call and the reading of the store's own clock at it. */
  datatype Call = Call(op: Op, clock: Time)

  /** The store after a run of calls on an empty one. */
  function After(b: Backend, calls: seq<Call>): State {
    if calls == [] then EMPTY
    else Step(b, After(b, calls[..|calls| - 1]), calls[|calls| - 1].op, calls[|calls| - 1].clock).0
  }

  function ReplyAt(b: Backend, calls: seq<Call>, i: nat): Reply
    requires i < |calls|
  {
    Step(b, After(b, calls[..i]), calls[i].op, calls[i].clock).1
  }

  predicate ClockMonotone(calls: seq<Call>) {
    forall i, j | 0 <= i <= j < |calls| :: calls[i].clock <= calls[j].clock
  }

  predicate FlushesNotAhead(calls: seq<Call>) {
    forall i | 0 <= i < |calls| && calls[i].op.FlushExpiredNonces? :: calls[i].op.reference <= calls[i].clock
  }

  predicate AcceptedAt(b: Backend, calls: seq<Call>, i: int, nonce: string) {
    0 <= i < |calls| && calls[i].op.ConsumeNonce? && calls[i].op.nonce == nonce && ReplyAt(b, calls, i) == Answer(true)
  }

  /** Whether call i leaves an entry with this expiry in place as it prunes. */
  predicate Spares(call: Call, expiry: Time) {
    match call.op
    case ConsumeNonce(_, validUntil) => Min(call.clock, validUntil) <= expiry
    case FlushExpiredNonces(reference) => reference <= expiry
    case _ => true
  }

  /** Whether what call i prunes stays pruned. */
  predicate Persists(b: Backend, calls: seq<Call>, i: nat)
    requires i < |calls|
  {
    b.Memory? || ReplyAt(b, calls, i) != Answer(false)
  }

  /** Call i accepted the nonce and nothing since has pruned its entry for good. */
  predicate Live(b: Backend, calls: seq<Call>, i: int, nonce: string) {
    AcceptedAt(b, calls, i, nonce)
    && forall k | i < k < |calls| && Persists(b, calls, k) :: Spares(calls[k], calls[i].op.validUntil)
  }

  lemma PrefixReplies(b: Backend, calls: seq<Call>, m: nat, i: nat)
    requires i < m <= |calls|
    ensures ReplyAt(b, calls[..m], i) == ReplyAt(b, calls, i)
  {
    assert calls[..m][..i] == calls[..i];
  }

  lemma LiveExtends(b: Backend, calls: seq<Call>, i: int, nonce: string)
    requires calls != [] && 0 <= i < |calls| - 1
    ensures Live(b, calls, i, nonce)
            <==> Live(b, calls[..|calls| - 1], i, nonce)
                 && (Persists(b, calls, |calls| - 1) ==> Spares(calls[|calls| - 1], calls[i].op.validUntil))
  {
    hide ReplyAt, Spares;
    var m := |calls| - 1;
    var p := calls[..m];
    PrefixReplies(b, calls, m, i);
    forall k | i < k < m ensures Persists(b, p, k) == Persists(b, calls, k) && p[k] == calls[k] {
      PrefixReplies(b, calls, m, k);
    }
  }

  /** One call's effect on one nonce's entry. */
  lemma EntryAfterStep(b: Backend, s: State, call: Call, nonce: string)
    ensures var (s', reply) := Step(b, s, call.op, call.clock);
            var held := nonce in s.nonces;
            if call.op.ConsumeNonce? && call.op.nonce == nonce && reply == Answer(true) then
              nonce in s'.nonces && s'.nonces[nonce] == call.op.validUntil && (held ==> !Spares(call, s.nonces[nonce]))
            else
              (nonce in s'.nonces <==> held && (b.Memory? || reply != Answer(false) ==> Spares(call, s.nonces[nonce])))
              && (nonce in s'.nonces ==> s'.nonces[nonce] == s.nonces[nonce])
  {
  }

  /** The nonce map is exactly the live acceptances of the history, in any run at all: no
      assumption on clocks, expiries or flush references. */
  lemma {:induction false} NonceMapIsHistory(b: Backend, calls: seq<Call>, nonce: string)
    ensures nonce in After(b, calls).nonces <==> exists i :: Live(b, calls, i, nonce)
    ensures forall i | Live(b, calls, i, nonce) ::
              nonce in After(b, calls).nonces && After(b, calls).nonces[nonce] == calls[i].op.validUntil
    decreases |calls|
  {
    if calls != [] {
      var m := |calls| - 1;
      var p := calls[..m];
      NonceMapIsHistory(b, p, nonce);
      var before, after := After(b, p), After(b, calls);
      EntryAfterStep(b, before, calls[m], nonce);
      hide Step, Spares;
      var accepted := AcceptedAt(b, calls, m, nonce);
      assert Live(b, calls, m, nonce) <==> accepted;
      forall i | Live(b, calls, i, nonce)
        ensures nonce in after.nonces && after.nonces[nonce] == calls[i].op.validUntil
      {
        if i < m {
          LiveExtends(b, calls, i, nonce);
          assert Live(b, p, i, nonce);
          assert p[i] == calls[i];
        }
      }
      if nonce in after.nonces && !accepted {
        assert nonce in before.nonces && before.nonces[nonce] == after.nonces[nonce];
        var i :| Live(b, p, i, nonce);
        assert p[i] == calls[i];
        LiveExtends(b, calls, i, nonce);
        assert Live(b, calls, i, nonce);
      }
    }
  }

  /** Every refusal has one cause: an earlier acceptance whose entry is live and is spared by
      this call's own pruning. */
  lemma ReplayLaw(b: Backend, calls: seq<Call>, nonce: string, validUntil: Time, clock: Time)
    ensures var refused := Step(b, After(b, calls), ConsumeNonce(nonce, validUntil), clock).1 == Answer(false);
            refused <==> exists i :: Live(b, calls, i, nonce) && Min(clock, validUntil) <= calls[i].op.validUntil
  {
    NonceMapIsHistory(b, calls, nonce);
  }

  /** While the clock has not run backwards and the token is unexpired, either store follows the naive rule on the
      whole history: refuse exactly when an earlier acceptance of the nonce has not expired and
      no flush since named a later reference. */
  lemma HistoryRule(b: Backend, calls: seq<Call>, nonce: string, validUntil: Time, clock: Time)
    requires forall k | 0 <= k < |calls| :: calls[k].clock <= clock
    requires validUntil >= clock
    ensures var refused := Step(b, After(b, calls), ConsumeNonce(nonce, validUntil), clock).1 == Answer(false);
            refused <==> exists i :: AcceptedAt(b, calls, i, nonce) && calls[i].op.validUntil >= clock
                                     && NotFlushed(calls, i, calls[i].op.validUntil)
  {
    ReplayLaw(b, calls, nonce, validUntil, clock);
    forall i | AcceptedAt(b, calls, i, nonce) && calls[i].op.validUntil >= clock
      ensures Live(b, calls, i, nonce) <==> NotFlushed(calls, i, calls[i].op.validUntil)
    {
      LiveIffNotFlushed(b, calls, i, nonce, clock);
    }
  }

  lemma LiveIffNotFlushed(b: Backend, calls: seq<Call>, i: int, nonce: string, clock: Time)
    requires forall k | 0 <= k < |calls| :: calls[k].clock <= clock
    requires AcceptedAt(b, calls, i, nonce) && calls[i].op.validUntil >= clock
    ensures Live(b, calls, i, nonce) <==> NotFlushed(calls, i, calls[i].op.validUntil)
  {
    var expiry := calls[i].op.validUntil;
    forall k | i < k < |calls|
      ensures calls[k].op.FlushExpiredNonces? ==> Persists(b, calls, k) && (Spares(calls[k], expiry) <==> calls[k].op.reference <= expiry)
      ensures !calls[k].op.FlushExpiredNonces? ==> Spares(calls[k], expiry)
    {
      FlushPersists(b, calls, k);
    }
  }

  lemma FlushPersists(b: Backend, calls: seq<Call>, k: nat)
    requires k < |calls|
    ensures calls[k].op.FlushExpiredNonces? ==> Persists(b, calls, k)
  {
  }

  predicate NotFlushed(calls: seq<Call>, i: int, expiry: Time) {
    forall k | 0 <= k < |calls| && i < k && calls[k].op.FlushExpiredNonces? :: calls[k].op.reference <= expiry
  }

  /** With flushes never ahead of the clock the rule is the naive one. */
  lemma NaiveHistoryRule(b: Backend, calls: seq<Call>, nonce: string, validUntil: Time, clock: Time)
    requires forall k | 0 <= k < |calls| :: calls[k].clock <= clock
    requires FlushesNotAhead(calls) && validUntil >= clock
    ensures var accepted := Step(b, After(b, calls), ConsumeNonce(nonce, validUntil), clock).1 == Answer(true);
            accepted <==> !exists i :: AcceptedAt(b, calls, i, nonce) && calls[i].op.validUntil >= clock
  {
    HistoryRule(b, calls, nonce, validUntil, clock);
    forall i | AcceptedAt(b, calls, i, nonce) && calls[i].op.validUntil >= clock
      ensures NotFlushed(calls, i, calls[i].op.validUntil)
    {
    }
  }

  /** A nonce is accepted a second time only strictly after its first acceptance expired, even
      for a token that is itself past its expiry. */
  lemma SecondAcceptanceIsAfterExpiry(b: Backend, calls: seq<Call>, i: nat, j: nat, nonce: string)
    requires ClockMonotone(calls) && FlushesNotAhead(calls)
    requires i < j && AcceptedAt(b, calls, i, nonce) && AcceptedAt(b, calls, j, nonce)
    ensures calls[i].op.validUntil < calls[j].clock
  {
    var p := calls[..j];
    PrefixReplies(b, calls, j, i);
    assert forall k | i < k < |p| :: p[k] == calls[k] && p[k].clock <= calls[j].clock;
    assert calls[i].op.validUntil >= calls[j].clock ==> Live(b, p, i, nonce);
    ReplayLaw(b, p, nonce, calls[j].op.validUntil, calls[j].clock);
  }

  /** A flush ahead of the clock forgets an unexpired nonce, which is then accepted again. */
  lemma FlushAheadForgets(b: Backend, nonce: string, expiry: Time, clock: Time)
    requires clock <= expiry
    ensures var calls := [Call(ConsumeNonce(nonce, expiry), clock), Call(FlushExpiredNonces(expiry + 1), clock)];
            AcceptedAt(b, calls, 0, nonce)
            && Step(b, After(b, calls), ConsumeNonce(nonce, expiry), clock).1 == Answer(true)
  {
    var calls := [Call(ConsumeNonce(nonce, expiry), clock), Call(FlushExpiredNonces(expiry + 1), clock)];
    assert calls[..0] == [] && calls[..1] == [calls[0]];
    assert [calls[0]][..0] == [];
    ReplayLaw(b, calls, nonce, expiry, clock);
    forall i ensures !Live(b, calls, i, nonce) {
      assert calls[1].op.FlushExpiredNonces? && Persists(b, calls, 1);
    }
  }

  // ---------------------------------------------------------------- the two backends agree

  /** Memory forgets more, but not about nonces that are unexpired at `clock`. */
  ghost predicate Agree(m: State, f: State, clock: Time) {
    m.revoked == f.revoked && m.denied == f.denied
    && (forall n | n in m.nonces :: n in f.nonces && m.nonces[n] <= f.nonces[n])
    && (forall n | n in f.nonces && f.nonces[n] >= clock :: n in m.nonces && m.nonces[n] == f.nonces[n])
  }

  /** What the backends' replies have in common. A flush counts in memory at most what it counts in
      the file, unless its reference is behind the clock. */
  predicate SameAnswer(call: Call, fromMemory: Reply, fromFile: Reply) {
    match call.op
    case ConsumeNonce(_, validUntil) =>
      if validUntil >= call.clock then fromMemory == fromFile
      else fromMemory == Answer(false) ==> fromFile == Answer(false)
    case FlushExpiredNonces(reference) =>
      fromMemory.Count? && fromFile.Count? && (reference >= call.clock ==> fromMemory.n <= fromFile.n)
    case _ => fromMemory == fromFile
  }

  function Expired(nonces: map<string, Time>, reference: Time): set<string> {
    set n | n in nonces && nonces[n] < reference
  }

  lemma FlushedAre(nonces: map<string, Time>, reference: Time)
    ensures |nonces| - |Retain(nonces, reference)| == |Expired(nonces, reference)|
  {
    var gone, kept := Expired(nonces, reference), Retain(nonces, reference);
    assert nonces.Keys == gone + kept.Keys && gone !! kept.Keys;
    assert |nonces| == |nonces.Keys| && |kept| == |kept.Keys|;
  }

  lemma FlushCounts(m: State, f: State, clock: Time, reference: Time)
    requires Agree(m, f, clock) && clock <= reference
    ensures |m.nonces| - |Retain(m.nonces, reference)| <= |f.nonces| - |Retain(f.nonces, reference)|
  {
    FlushedAre(m.nonces, reference);
    FlushedAre(f.nonces, reference);
    SubsetSize(Expired(m.nonces, reference), Expired(f.nonces, reference));
  }

  lemma AgreeStep(m: State, f: State, clock: Time, call: Call)
    requires Agree(m, f, clock) && clock <= call.clock
    ensures Agree(Step(Memory, m, call.op, call.clock).0, Step(File, f, call.op, call.clock).0, call.clock)
    ensures SameAnswer(call, Step(Memory, m, call.op, call.clock).1, Step(File, f, call.op, call.clock).1)
  {
    if call.op.FlushExpiredNonces? && call.op.reference >= call.clock {
      FlushCounts(m, f, clock, call.op.reference);
    }
  }

  /** On any common run with a monotone clock the backends hold the same unexpired nonces and the
      same revocations and denials, and answer alike as far as SameAnswer goes; flush references are free. */
  lemma {:induction false} BackendsAgree(calls: seq<Call>, clock: Time)
    requires ClockMonotone(calls) && (forall k | 0 <= k < |calls| :: calls[k].clock <= clock)
    ensures Agree(After(Memory, calls), After(File, calls), clock)
    ensures forall i | 0 <= i < |calls| :: SameAnswer(calls[i], ReplyAt(Memory, calls, i), ReplyAt(File, calls, i))
    decreases |calls|
  {
    if calls != [] {
      var m := |calls| - 1;
      var p := calls[..m];
      BackendsAgree(p, calls[m].clock);
      AgreeStep(After(Memory, p), After(File, p), calls[m].clock, calls[m]);
      forall i | 0 <= i < |calls|
        ensures SameAnswer(calls[i], ReplyAt(Memory, calls, i), ReplyAt(File, calls, i))
      {
        if i < m {
          PrefixReplies(Memory, calls, m, i);
          PrefixReplies(File, calls, m, i);
          assert p[i] == calls[i];
        }
      }
    }
  }

  // ---------------------------------------------------------------- where the backends differ

  /** A run both backends can have had by then. */
  predicate CommonRun(calls: seq<Call>, clock: Time) {
    ClockMonotone(calls) && forall k | 0 <= k < |calls| :: calls[k].clock <= clock
  }

  function ReplyAfter(b: Backend, calls: seq<Call>, op: Op, clock: Time): Reply {
    Step(b, After(b, calls), op, clock).1
  }

  predicate RepliesDiffer(calls: seq<Call>, op: Op, clock: Time) {
    CommonRun(calls, clock) && ReplyAfter(Memory, calls, op, clock) != ReplyAfter(File, calls, op, clock)
  }

  /** Memory's flush counts more than the file's. */
  predicate MemoryCountsMore(calls: seq<Call>, reference: Time, clock: Time) {
    CommonRun(calls, clock)
    && |Expired(After(Memory, calls).nonces, reference)| > |Expired(After(File, calls).nonces, reference)|
  }

  predicate FileCountsMore(calls: seq<Call>, reference: Time, clock: Time) {
    CommonRun(calls, clock)
    && |Expired(After(Memory, calls).nonces, reference)| < |Expired(After(File, calls).nonces, reference)|
  }

  lemma FlushReply(b: Backend, s: State, reference: Time, clock: Time)
    ensures Step(b, s, FlushExpiredNonces(reference), clock).1 == Count(|Expired(s.nonces, reference)|)
  {
    FlushedAre(s.nonces, reference);
  }

  /** The run that tells the backends apart: a nonce expires, and a refused replay of another one
      prunes it from memory only. */
  function PartingRun(a: string, expiry: Time, b: string, clock: Time): seq<Call> {
    [Call(ConsumeNonce(a, expiry), expiry), Call(ConsumeNonce(b, clock), expiry), Call(ConsumeNonce(b, clock), clock)]
  }

  lemma AfterOneMore(b: Backend, calls: seq<Call>, call: Call)
    ensures After(b, calls + [call]) == Step(b, After(b, calls), call.op, call.clock).0
  {
    assert (calls + [call])[..|calls|] == calls;
  }

  lemma AfterParting(a: string, expiry: Time, b: string, clock: Time)
    requires a != b && expiry < clock
    ensures var calls := PartingRun(a, expiry, b, clock);
            CommonRun(calls, clock)
            && After(Memory, calls).nonces == map[b := clock] && After(File, calls).nonces == map[a := expiry, b := clock]
  {
    hide After;
    var first, second, third := Call(ConsumeNonce(a, expiry), expiry), Call(ConsumeNonce(b, clock), expiry), Call(ConsumeNonce(b, clock), clock);
    assert PartingRun(a, expiry, b, clock) == [] + [first] + [second] + [third];
    forall backend ensures After(backend, [] + [first] + [second]).nonces == map[a := expiry, b := clock] {
      EmptyRun(backend);
      AfterOneMore(backend, [], first);
      AfterOneMore(backend, [] + [first], second);
    }
    AfterOneMore(Memory, [] + [first] + [second], third);
    AfterOneMore(File, [] + [first] + [second], third);
  }

  lemma EmptyRun(b: Backend)
    ensures After(b, []) == EMPTY
  {
  }

  lemma AgreeAtCall(calls: seq<Call>, op: Op, clock: Time)
    requires CommonRun(calls, clock)
    ensures SameAnswer(Call(op, clock), ReplyAfter(Memory, calls, op, clock), ReplyAfter(File, calls, op, clock))
  {
    BackendsAgree(calls, clock);
    AgreeStep(After(Memory, calls), After(File, calls), clock, Call(op, clock));
  }

  /** For a call and a clock: some common run makes the backends answer it differently exactly when it
      is the nonce call of an expired token, or a flush. */
  lemma BackendsDifferIff(op: Op, clock: Time)
    ensures (exists calls :: RepliesDiffer(calls, op, clock))
            <==> op.FlushExpiredNonces? || (op.ConsumeNonce? && op.validUntil < clock)
  {
    forall calls | CommonRun(calls, clock)
      ensures SameAnswer(Call(op, clock), ReplyAfter(Memory, calls, op, clock), ReplyAfter(File, calls, op, clock))
    {
      AgreeAtCall(calls, op, clock);
    }
    if op.FlushExpiredNonces? {
      FileCanAlwaysCountMore(op.reference, clock);
      var calls :| FileCountsMore(calls, op.reference, clock);
      FlushReply(Memory, After(Memory, calls), op.reference, clock);
      FlushReply(File, After(File, calls), op.reference, clock);
      assert RepliesDiffer(calls, op, clock);
    } else if op.ConsumeNonce? && op.validUntil < clock {
      ExpiredTokenParts(op.nonce, op.validUntil, clock);
    }
  }

  /** The expired token is let in again by memory only. */
  lemma ExpiredTokenParts(nonce: string, validUntil: Time, clock: Time)
    requires validUntil < clock
    ensures exists calls :: RepliesDiffer(calls, ConsumeNonce(nonce, validUntil), clock)
                            && ReplyAfter(Memory, calls, ConsumeNonce(nonce, validUntil), clock) == Answer(true)
  {
    var other := nonce + "'";
    AfterParting(nonce, validUntil, other, clock);
    assert RepliesDiffer(PartingRun(nonce, validUntil, other, clock), ConsumeNonce(nonce, validUntil), clock);
  }

  /** Whatever its reference, the file's flush can count more: entries that memory has lost already. */
  lemma FileCanAlwaysCountMore(reference: Time, clock: Time)
    ensures exists calls :: FileCountsMore(calls, reference, clock)
  {
    hide After, PartingRun;
    var expiry := Min(reference, clock) - 1;
    var a, b := "a", "b";
    AfterParting(a, expiry, b, clock);
    OneMoreExpired(a, expiry, b, clock, reference);
    assert FileCountsMore(PartingRun(a, expiry, b, clock), reference, clock);
  }

  lemma OneMoreExpired(a: string, expiry: Time, b: string, later: Time, reference: Time)
    requires a != b && expiry < reference
    ensures |Expired(map[a := expiry, b := later], reference)| == |Expired(map[b := later], reference)| + 1
  {
    assert Expired(map[a := expiry, b := later], reference) == Expired(map[b := later], reference) + {a};
  }

  /** Memory's flush can count more exactly when its reference is behind the clock: entries that memory
      has let in again under an earlier expiry. */
  lemma MemoryCanCountMoreIff(reference: Time, clock: Time)
    ensures (exists calls :: MemoryCountsMore(calls, reference, clock)) <==> reference < clock
  {
    forall calls | MemoryCountsMore(calls, reference, clock) ensures reference < clock {
      AgreeAtCall(calls, FlushExpiredNonces(reference), clock);
      FlushReply(Memory, After(Memory, calls), reference, clock);
      FlushReply(File, After(File, calls), reference, clock);
    }
    if reference < clock {
      LetInAgain(reference, clock);
    }
  }

  function LettingRun(a: string, reference: Time, b: string, clock: Time): seq<Call> {
    PartingRun(a, reference, b, clock) + [Call(ConsumeNonce(a, reference - 1), clock)]
  }

  lemma AfterLetting(a: string, reference: Time, b: string, clock: Time)
    requires a != b && reference < clock
    ensures var calls := LettingRun(a, reference, b, clock);
            CommonRun(calls, clock)
            && After(Memory, calls).nonces == map[a := reference - 1, b := clock]
            && After(File, calls).nonces == map[a := reference, b := clock]
  {
    hide After;
    var parting := PartingRun(a, reference, b, clock);
    AfterParting(a, reference, b, clock);
    AfterOneMore(Memory, parting, Call(ConsumeNonce(a, reference - 1), clock));
    AfterOneMore(File, parting, Call(ConsumeNonce(a, reference - 1), clock));
  }

  lemma LetInAgain(reference: Time, clock: Time)
    requires reference < clock
    ensures exists calls :: MemoryCountsMore(calls, reference, clock)
  {
    hide After, LettingRun;
    var a, b := "a", "b";
    AfterLetting(a, reference, b, clock);
    ExpiredOfTwo(a, reference - 1, b, clock, reference);
    ExpiredOfTwo(a, reference, b, clock, reference);
    assert MemoryCountsMore(LettingRun(a, reference, b, clock), reference, clock);
  }

  lemma ExpiredOfTwo(a: string, expiry: Time, b: string, later: Time, reference: Time)
    requires a != b && reference <= later
    ensures |Expired(map[a := expiry, b := later], reference)| == if expiry < reference then 1 else 0
  {
    var m := map[a := expiry, b := later];
    assert Expired(m, reference) == if expiry < reference then {a} else {};
  }

  // ---------------------------------------------------------------- revocations and denials

  /** A revocation is never undone. */
  lemma {:induction false} RevocationIsPermanent(b: Backend, calls: seq<Call>, tokenId: string)
    ensures tokenId in After(b, calls).revoked <==> exists i | 0 <= i < |calls| :: calls[i].op == RevokeToken(tokenId)
    decreases |calls|
  {
    if calls != [] {
      var p := calls[..|calls| - 1];
      RevocationIsPermanent(b, p, tokenId);
      assert forall i | 0 <= i < |p| :: p[i] == calls[i];
      assert calls == p + [calls[|calls| - 1]];
    }
  }

  /** An agent is denied exactly while some denial of it has not been cleared. */
  lemma {:induction false} DenialLastsUntilCleared(b: Backend, calls: seq<Call>, agentId: string)
    ensures agentId in After(b, calls).denied
            <==> exists i :: DeniedSince(calls, i, agentId)
    decreases |calls|
  {
    if calls != [] {
      var m := |calls| - 1;
      var p := calls[..m];
      DenialLastsUntilCleared(b, p, agentId);
      forall i | 0 <= i < m
        ensures DeniedSince(calls, i, agentId) <==> DeniedSince(p, i, agentId) && calls[m].op != ClearEmergencyDenyList
      {
        assert forall k | i < k < m :: p[k] == calls[k];
      }
      assert DeniedSince(calls, m, agentId) <==> calls[m].op == EmergencyDenyAgent(agentId);
      if agentId in After(b, p).denied {
        var i :| DeniedSince(p, i, agentId);
        assert DeniedSince(calls, i, agentId) <==> calls[m].op != ClearEmergencyDenyList;
      }
    }
  }

  predicate DeniedSince(calls: seq<Call>, i: int, agentId: string) {
    0 <= i < |calls| && calls[i].op == EmergencyDenyAgent(agentId)
    && forall k | i < k < |calls| :: calls[k].op != ClearEmergencyDenyList
  }
}
