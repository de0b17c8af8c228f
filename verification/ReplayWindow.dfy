/** How long a token can be replayed: the lifetime checks grant a clock leeway that the nonce store,
    which forgets a nonce once the token has expired, does not know of. */
module ReplayWindow {
  import opened Wrappers
  import opened Text
  import opened Models
  import opened Payload
  import opened Signatures
  import opened Contracts
  import opened Policy
  import opened TrustState
  import opened Pipeline
  import opened ConcurrentEvaluation
  import opened Issuance
  import Json

  // ---------------------------------------------------------------- the property

  /** Evaluations i and j of one token are both allowed, j consuming its nonce later, at that reading
      of the store's clock, by a caller with that clock and leeway. */
  ghost predicate AllowedAgainIn(s: System, schedule: seq<Action>, i: nat, j: nat, now: Time, leewaySecs: nat, clock: Time) {
    Initial(s) && i < |s.evals| && j < |s.evals|
    && (var e := Run(s, schedule);
        Allowed(e, i) && Allowed(e, j) && FlushesNotAhead(Calls(e.log))
        && e.evals[i].raw.parsed.Some? && e.evals[j].raw.parsed.Some?
        && e.evals[i].raw.parsed.value.token == e.evals[j].raw.parsed.value.token
        && ConsumedBefore(e, e.evals[i].trail.consumedAt, e.evals[j].trail.consumedAt, clock)
        && e.evals[j].x.now == now && e.evals[j].x.host.clockLeewaySecs == leewaySecs)
  }

  predicate ConsumedBefore(e: System, a: Option<nat>, b: Option<nat>, clock: Time) {
    a.Some? && b.Some? && a.value < b.value < |e.log| && e.log[b.value].call.clock == clock
  }

  ghost predicate CanBeAllowedAgain(now: Time, leewaySecs: nat, clock: Time) {
    exists s, schedule, i, j :: AllowedAgainIn(s, schedule, i, j, now, leewaySecs, clock)
  }

  lemma AgainNeedsLeeway(s: System, schedule: seq<Action>, i: nat, j: nat, now: Time, leewaySecs: nat, clock: Time)
    requires AllowedAgainIn(s, schedule, i, j, now, leewaySecs, clock)
    ensures clock + leewaySecs * SECOND > now + 1
  {
    NonceAllowedOnce(s, schedule, i, j);
    AllowedHadThreeAnswers(s, schedule, j);
  }

  // ---------------------------------------------------------------- runs put together

  lemma {:induction false} RunFits(s: System, schedule: seq<Action>)
    requires Fits(s)
    ensures Fits(Run(s, schedule))
    decreases |schedule|
  {
    if schedule != [] {
      NextFits(s, schedule[0]);
      RunFits(Next(s, schedule[0]), schedule[1..]);
    }
  }

  lemma {:induction false} RunConcat(s: System, first: seq<Action>, second: seq<Action>)
    requires Fits(s) && Fits(Run(s, first))
    ensures Run(s, first + second) == Run(Run(s, first), second)
    decreases |first|
  {
    if first == [] {
      assert first + second == second;
    } else {
      NextFits(s, first[0]);
      assert (first + second)[0] == first[0] && (first + second)[1..] == first[1..] + second;
      RunConcat(Next(s, first[0]), first[1..], second);
    }
  }

  lemma RunOne(s: System, a: Action)
    requires Fits(s)
    ensures Fits(Next(s, a)) && Run(s, [a]) == Next(s, a)
  {
    NextFits(s, a);
    assert [a][1..] == [];
  }

  function Undisturbed(i: nat, clock: Time): seq<Action> {
    [Proceed(i, clock)] + [Proceed(i, clock)] + [Proceed(i, clock)]
  }

  /** What an allowed evaluation leaves when it is not interrupted: its three calls in the history. */
  ghost predicate LeftByAllowed(s: System, i: nat, clock: Time, e: System)
    requires Fits(s) && i < |s.evals|
  {
    var v := s.evals[i];
    var (after, outcome) := Evaluate(v.x, v.raw, s.store, clock);
    var n := |s.log|;
    e.store == after && e.now == clock
    && e.evals == s.evals[i := v.(pc := Finished(outcome), trail := Trail(Some(n), Some(n + 1), Some(n + 2)))]
    && |e.log| == n + 3 && e.log[..n] == s.log
    && forall k | n <= k < n + 3 :: e.log[k].call.clock == clock && !e.log[k].call.op.FlushExpiredNonces?
  }

  lemma ThreeSteps(s: System, i: nat, clock: Time)
    requires Fits(s) && i < |s.evals| && s.evals[i].pc == Unstarted && clock >= s.now
    requires Evaluate(s.evals[i].x, s.evals[i].raw, s.store, clock).1.Ok?
    ensures var a := Proceed(i, clock);
            Fits(Next(s, a)) && Fits(Next(Next(s, a), a)) && Fits(Next(Next(Next(s, a), a), a))
            && LeftByAllowed(s, i, clock, Next(Next(Next(s, a), a), a))
  {
    hide BeforeStore, AfterStore, Step;
    var a := Proceed(i, clock);
    NextFits(s, a);
    NextFits(Next(s, a), a);
    NextFits(Next(Next(s, a), a), a);
  }

  lemma UndisturbedRun(s: System, i: nat, clock: Time)
    requires Fits(s) && i < |s.evals| && s.evals[i].pc == Unstarted && clock >= s.now
    requires Evaluate(s.evals[i].x, s.evals[i].raw, s.store, clock).1.Ok?
    ensures Fits(Run(s, Undisturbed(i, clock))) && LeftByAllowed(s, i, clock, Run(s, Undisturbed(i, clock)))
  {
    hide Next, Run, LeftByAllowed, Evaluate;
    var a := Proceed(i, clock);
    ThreeSteps(s, i, clock);
    RunOne(s, a);
    RunOne(Next(s, a), a);
    RunConcat(s, [a], [a]);
    RunOne(Next(Next(s, a), a), a);
    RunConcat(s, [a] + [a], [a]);
  }

  // ---------------------------------------------------------------- a request like any other

  const TEXT: string := "a"

  /** Every field one visible letter; the token lives up to the given instant. */
  function SampleTokenDraft(issued: Time, expires: Time): TokenDraft {
    TokenDraft(Some(TEXT), Some(TEXT), Some(TEXT), Some(TEXT), Some(TEXT), [TEXT], [TEXT], None, None, None,
               Some(issued), Some(expires), None, None, Some(TEXT), Some(TEXT))
  }

  function SampleDocumentDraft(now: Time): IdentityDraft {
    IdentityDraft(Some(TEXT), None, Some(TEXT), Some(TEXT), Some(TEXT), Some(TEXT), Some(TEXT), [], [TEXT], [TEXT], None,
                  [AgentEndpoint(TEXT, TEXT)], Some(now), Some(now + 1), None)
  }

  function SampleToken(issued: Time, expires: Time): (t: DelegationToken) {
    var unsigned := DelegationToken(SPEC_VERSION_CURRENT, KIND_DELEGATION_TOKEN, TEXT, TEXT, TEXT, TEXT, TEXT, [TEXT], [TEXT],
                                    None, None, None, issued, expires, None, TEXT, TEXT, ED25519, "");
    unsigned.(signature := SignDelegationToken(ToyScheme(), unsigned, [], []))
  }

  function SampleDocument(now: Time): AgentIdentityDocument {
    var unsigned := AgentIdentityDocument(SPEC_VERSION_CURRENT, KIND_AGENT_IDENTITY_DOCUMENT, TEXT, None, TEXT, TEXT, TEXT, TEXT,
                                          [Published(ToyScheme(), TEXT, [])], [TEXT], [TEXT], None, [AgentEndpoint(TEXT, TEXT)],
                                          None, now, now + 1, "");
    unsigned.(signature := SignIdentityDocument(ToyScheme(), unsigned, []))
  }

  function SampleEnvelope(now: Time, issued: Time, expires: Time): RequestEnvelope {
    RequestEnvelope(SPEC_VERSION_CURRENT, KIND_TRUST_REQUEST_ENVELOPE, Some(TEXT), Developer, TEXT, TEXT, TEXT, TEXT, None,
                    NO_RUNTIME_CONTEXT, Some(SampleDocument(now)), SampleToken(issued, expires))
  }

  function SampleDrafts(now: Time, issued: Time, expires: Time): Drafts {
    Drafts(SampleTokenDraft(issued, expires), SampleDocumentDraft(now),
           EnvelopeDraft(Some(TEXT), None, None, None, Some(TEXT), Some(TEXT), None, None,
                         Some(SampleDocument(now)), Some(SampleToken(issued, expires))))
  }

  function SampleSetting(now: Time, leewaySecs: nat): Setting {
    Setting(ToyScheme(), SimulatePolicy, QUIET_HOST.(clockLeewaySecs := leewaySecs), now, [], _ => "")
  }

  function SampleRequest(now: Time, issued: Time, expires: Time): RawRequest {
    RawRequest(Json.Null, Some(SampleEnvelope(now, issued, expires)))
  }

  lemma SampleTokenIssued(issued: Time, expires: Time)
    requires issued < expires
    ensures TokenFrom(ToyScheme(), SampleTokenDraft(issued, expires), [], SampleToken(issued, expires))
  {
    hide SignDelegationToken;
    var t := SampleToken(issued, expires);
    TokenSignatureIsNotSigned(ToyScheme(), t.(signature := ""), t.signature, [], []);
    assert TokenIssued(ToyScheme(), SampleTokenDraft(issued, expires), [], [], 0, "", t);
  }

  lemma SampleDocumentIssued(now: Time)
    ensures DocumentFrom(ToyScheme(), SampleDocumentDraft(now), [], SampleDocument(now))
  {
    hide SignIdentityDocument;
    var doc := SampleDocument(now);
    DocumentSignatureIsNotSigned(ToyScheme(), doc.(signature := ""), doc.signature, []);
    assert DocumentIssued(ToyScheme(), SampleDocumentDraft(now), [], 0, doc);
  }

  lemma SampleIssued(now: Time, issued: Time, expires: Time)
    requires issued < expires
    ensures Issued(ToyScheme(), SampleDrafts(now, issued, expires), Keys([], []), SampleEnvelope(now, issued, expires))
    ensures Filled(SampleDrafts(now, issued, expires))
  {
    hide SampleToken, SampleDocument, Blank, TokenFrom, DocumentFrom;
    SampleTokenIssued(issued, expires);
    SampleDocumentIssued(now);
    TrimKeeps(TEXT);
    SampleFits(now, issued, expires);
    assert !Blank(TEXT) by {
      BlankIff(TEXT);
      assert TEXT[0] in TEXT;
    }
  }

  lemma SampleFits(now: Time, issued: Time, expires: Time)
    ensures EnvelopeFits(SampleDrafts(now, issued, expires).envelope, "", SampleEnvelope(now, issued, expires))
  {
    hide SignDelegationToken, SignIdentityDocument, Published;
  }

  /** The sample is allowed on an empty store throughout its lifetime, leeway included. */
  lemma SampleAllowed(now: Time, leewaySecs: nat, issued: Time, expires: Time, clock: Time)
    requires issued < expires && issued <= now < expires + leewaySecs * SECOND
    ensures Evaluate(SampleSetting(now, leewaySecs), SampleRequest(now, issued, expires), Store(Memory, true, EMPTY), clock).1.Ok?
  {
    hide SignDelegationToken, SignIdentityDocument, Evaluate, Issued, Filled, ToyScheme;
    var e := SampleEnvelope(now, issued, expires);
    var x := SampleSetting(now, leewaySecs);
    ToySchemeIsLawful();
    SampleIssued(now, issued, expires);
    PermitsUnfolded(e.token, e, x.host);
    assert e.(token := e.token) == e;
    IssuedRequestAllowedIff(x, SampleRequest(now, issued, expires), Store(Memory, true, EMPTY), clock,
                            SampleDrafts(now, issued, expires), Keys([], []));
  }

  // ---------------------------------------------------------------- the window, exactly

  lemma FlushOfOne(nonce: string, expires: Time, clock: Time)
    requires expires < clock
    ensures var (after, reply) := Store(Memory, true, State({}, {}, map[nonce := expires])).Ask(FlushExpiredNonces(clock), clock);
            after == Store(Memory, true, EMPTY) && reply.Some?
  {
    assert Retain(map[nonce := expires], clock) == map[];
  }

  /** A flush past the token's expiry empties the store that an allowed evaluation left. */
  lemma FlushEmpties(x: Setting, raw: RawRequest, clock: Time)
    requires raw.parsed.Some? && OrderFits(raw.parsed.value.token, x.order) && raw.parsed.value.token.expiresAt < clock
    requires Evaluate(x, raw, Store(Memory, true, EMPTY), clock).1.Ok?
    ensures var after := Evaluate(x, raw, Store(Memory, true, EMPTY), clock).0;
            after.Ask(FlushExpiredNonces(clock), clock).0 == Store(Memory, true, EMPTY)
            && after.Ask(FlushExpiredNonces(clock), clock).1.Some?
  {
    hide Evaluate, SpendsNonce, Store.Ask, OrderFits;
    var t := raw.parsed.value.token;
    var empty := Store(Memory, true, EMPTY);
    AllowedRecords(x, raw, empty, clock);
    NonceRecordedIff(x, raw, empty, clock);
    assert Retain(empty.state.nonces, Min(clock, t.expiresAt)) == map[];
    assert Evaluate(x, raw, empty, clock).0 == Store(Memory, true, State({}, {}, map[t.nonce := t.expiresAt]));
    FlushOfOne(t.nonce, t.expiresAt, clock);
  }

  lemma FlushStep(s: System, clock: Time)
    requires Fits(s) && s.now == clock && s.store.Ask(FlushExpiredNonces(clock), clock).1.Some?
    ensures var e := Run(s, [Administer(FlushExpiredNonces(clock), clock)]);
            Fits(e) && e.evals == s.evals && e.now == clock && e.store == s.store.Ask(FlushExpiredNonces(clock), clock).0
            && |e.log| == |s.log| + 1 && e.log[..|s.log|] == s.log
            && e.log[|s.log|].call == Call(FlushExpiredNonces(clock), clock)
  {
    hide Step;
    RunOne(s, Administer(FlushExpiredNonces(clock), clock));
  }

  /** Two evaluations of one request, and a flush between them. */
  lemma TwiceWithAFlush(x: Setting, raw: RawRequest, clock: Time)
    requires raw.parsed.Some? && OrderFits(raw.parsed.value.token, x.order) && raw.parsed.value.token.expiresAt < clock
    requires Evaluate(x, raw, Store(Memory, true, EMPTY), clock).1.Ok?
    ensures CanBeAllowedAgain(x.now, x.host.clockLeewaySecs, clock)
  {
    hide Evaluate, Store.Ask, Next, Run, OrderFits;
    var v := Evaluation(x, raw, Unstarted, Trail(None, None, None));
    var s := System([v, v], Store(Memory, true, EMPTY), [], clock);
    var flush := [Administer(FlushExpiredNonces(clock), clock)];
    UndisturbedRun(s, 0, clock);
    var s1 := Run(s, Undisturbed(0, clock));
    FlushEmpties(x, raw, clock);
    FlushStep(s1, clock);
    var s2 := Run(s1, flush);
    UndisturbedRun(s2, 1, clock);
    var s3 := Run(s2, Undisturbed(1, clock));
    RunConcat(s, Undisturbed(0, clock), flush);
    RunConcat(s, Undisturbed(0, clock) + flush, Undisturbed(1, clock));
    assert forall k | 0 <= k < 4 :: s3.log[k] == s2.log[k];
    assert forall k | 0 <= k < 3 :: s2.log[k] == s1.log[k];
    assert FlushesNotAhead(Calls(s3.log));
    assert AllowedAgainIn(s, Undisturbed(0, clock) + flush + Undisturbed(1, clock), 0, 1, x.now, x.host.clockLeewaySecs, clock);
  }

  /** For a caller's clock, a leeway and a reading of the store's clock: some run allows a token again
      there exactly when store clock and leeway together are ahead of the caller by more than the
      one tick that two strict comparisons leave. */
  lemma AllowedAgainIff(now: Time, leewaySecs: nat, clock: Time)
    ensures CanBeAllowedAgain(now, leewaySecs, clock) <==> clock + leewaySecs * SECOND > now + 1
  {
    if CanBeAllowedAgain(now, leewaySecs, clock) {
      var s, schedule, i, j :| AllowedAgainIn(s, schedule, i, j, now, leewaySecs, clock);
      AgainNeedsLeeway(s, schedule, i, j, now, leewaySecs, clock);
    }
    if clock + leewaySecs * SECOND > now + 1 {
      var expires := clock - 1;
      var issued := if now < expires then now else expires - 1;
      SampleAllowed(now, leewaySecs, issued, expires, clock);
      TwiceWithAFlush(SampleSetting(now, leewaySecs), SampleRequest(now, issued, expires), clock);
    }
  }
}
