/** From evaluations to the operational report: what is appended, read back and counted. */
module AuditTrail {
  import opened Wrappers
  import opened Utf8
  import opened Text
  import opened Json
  import opened Models
  import opened FieldNames
  import opened Payload
  import opened PayloadReading
  import opened AuditLog
  import opened Pipeline
  import opened TrustState
  import opened TrustStores

  // ---------------------------------------------------------------- one line per event

  function EventFields(fmt: TimeFormat, e: AuditEvent): (vs: seq<Value>)
    ensures |vs| == |EVENT_KEYS|
  {
    [Str(fmt(e.occurredAt)), Bool(e.allowed), Str(e.stage), Str(e.reason), OptionalStr(e.requestId), OptionalStr(e.agentId),
     OptionalStr(e.delegatorId), OptionalStr(e.audience), OptionalStr(e.action), OptionalStr(e.tokenId)]
  }

  function EventValue(fmt: TimeFormat, e: AuditEvent): Value {
    Record(EVENT_KEYS, EventFields(fmt, e))
  }

  function EventLine(fmt: TimeFormat, e: AuditEvent): string {
    Print(EventValue(fmt, e))
  }

  /** `write_event`: one line appended. */
  function Append(fmt: TimeFormat, file: seq<byte>, e: AuditEvent): seq<byte> {
    file + Encode(EventLine(fmt, e) + "\n")
  }

  /** The file after the events have been written to an empty one. */
  function Log(fmt: TimeFormat, events: seq<AuditEvent>): seq<byte> {
    if events == [] then [] else Append(fmt, Log(fmt, events[..|events| - 1]), events[|events| - 1])
  }

  /** Deserialising a line gives back the event it was serialised from. */
  ghost predicate Inverts(parse: LineParser, fmt: TimeFormat) {
    forall e :: parse(EventLine(fmt, e)) == Some(e)
  }

  function EventEntries(fmt: TimeFormat, e: AuditEvent): seq<Entry> {
    [Entry("occurred_at", Str(fmt(e.occurredAt))), Entry("allowed", Bool(e.allowed)), Entry("stage", Str(e.stage)),
     Entry("reason", Str(e.reason)), Entry("request_id", TextOrNull(e.requestId)), Entry("agent_id", TextOrNull(e.agentId)),
     Entry("delegator_id", TextOrNull(e.delegatorId)), Entry("audience", TextOrNull(e.audience)),
     Entry("action", TextOrNull(e.action)), Entry("token_id", TextOrNull(e.tokenId))]
  }

  lemma EventEntriesAreWritten(fmt: TimeFormat, e: AuditEvent)
    ensures EventValue(fmt, e) == Object(EventEntries(fmt, e))
  {
    var vs, es := EventValue(fmt, e).entries, EventEntries(fmt, e);
    assert vs[0] == es[0] && vs[1] == es[1] && vs[2] == es[2] && vs[3] == es[3] && vs[4] == es[4];
    assert vs[5] == es[5] && vs[6] == es[6] && vs[7] == es[7] && vs[8] == es[8] && vs[9] == es[9];
    assert |vs| == |EVENT_KEYS| == 10 == |es|;
    assert vs == es;
  }

  /** An event's line is one JSON object with exactly ten fields, each named and filled as written in
      EventEntries. */
  lemma EventLineSays(fmt: TimeFormat, e: AuditEvent)
    ensures ParseValue(EventLine(fmt, e)) == Accept(Object(EventEntries(fmt, e)), "")
  {
    hide Print, ParseValue, EventValue, EventEntries;
    EventEntriesAreWritten(fmt, e);
    ReadBack(EventValue(fmt, e), EventLine(fmt, e), "");
    assert EventLine(fmt, e) + "" == EventLine(fmt, e);
  }

  /** Different events are written differently, so there are parsers that invert the writer. */
  lemma SomeParserInverts(fmt: TimeFormat)
    requires Injective(fmt)
    ensures exists parse: LineParser :: Inverts(parse, fmt)
  {
    forall e, f | EventLine(fmt, e) == EventLine(fmt, f) ensures e == f {
      LineTellsEvent(fmt, e, f);
    }
    var parse: LineParser :=
      line => if exists e :: EventLine(fmt, e) == line then var e :| EventLine(fmt, e) == line; Some(e) else None;
    assert Inverts(parse, fmt);
  }

  lemma RecordTellsFields(keys: seq<string>, vs: seq<Value>, ws: seq<Value>)
    requires |keys| == |vs| == |ws| && Record(keys, vs) == Record(keys, ws)
    ensures vs == ws
  {
    var es, fs := RecordEntries(keys, vs), RecordEntries(keys, ws);
    assert forall i | 0 <= i < |keys| :: es[i].value == vs[i] && fs[i].value == ws[i];
  }

  lemma FieldsTellEvent(fmt: TimeFormat, e: AuditEvent, f: AuditEvent)
    requires Injective(fmt) && EventFields(fmt, e) == EventFields(fmt, f)
    ensures e == f
  {
    var vs, ws := EventFields(fmt, e), EventFields(fmt, f);
    assert vs[0] == ws[0] && vs[1] == ws[1] && vs[2] == ws[2] && vs[3] == ws[3] && vs[4] == ws[4];
    assert vs[5] == ws[5] && vs[6] == ws[6] && vs[7] == ws[7] && vs[8] == ws[8] && vs[9] == ws[9];
  }

  lemma LineTellsEvent(fmt: TimeFormat, e: AuditEvent, f: AuditEvent)
    requires Injective(fmt) && EventLine(fmt, e) == EventLine(fmt, f)
    ensures e == f
  {
    PrintInjective(EventValue(fmt, e), EventValue(fmt, f));
    hide Print, EventFields;
    RecordTellsFields(EVENT_KEYS, EventFields(fmt, e), EventFields(fmt, f));
    FieldsTellEvent(fmt, e, f);
  }

  lemma {:induction false} EncodedNewline(s: string)
    ensures NEWLINE in Encode(s) <==> 10 as char in s
  {
    if s != "" {
      EncodedNewline(s[1..]);
      assert s == [s[0]] + s[1..];
      assert NEWLINE in EncodeChar(s[0]) <==> s[0] == 10 as char;
    }
  }

  lemma {:induction false} SplitOneLine(line: seq<byte>)
    requires NEWLINE !in line
    ensures Split(line + [NEWLINE]) == [line, []]
    ensures Split(line) == [line]
  {
    var b := line + [NEWLINE];
    if line == [] {
      assert b[1..] == [];
      assert Split(b[1..]) == [[]];
    } else {
      assert b[1..] == line[1..] + [NEWLINE];
      SplitOneLine(line[1..]);
      assert line == [line[0]] + line[1..];
    }
  }

  /** A written line is on one line of the file and trimming leaves it alone. */
  lemma LineIsClean(fmt: TimeFormat, e: AuditEvent)
    ensures NEWLINE !in Encode(EventLine(fmt, e))
    ensures Encode(EventLine(fmt, e) + "\n") == Encode(EventLine(fmt, e)) + [NEWLINE]
    ensures Trim(EventLine(fmt, e)) == EventLine(fmt, e) && EventLine(fmt, e) != ""
    ensures Encode(EventLine(fmt, e)) != [] && Encode(EventLine(fmt, e))[|Encode(EventLine(fmt, e))| - 1] != CARRIAGE_RETURN
  {
    var line := EventLine(fmt, e);
    PrintOneLine(EventValue(fmt, e));
    EncodedNewline(line);
    EncodeConcat(line, "\n");
    assert Encode("\n") == [NEWLINE];
    var inner := PrintEntries(EventValue(fmt, e).entries);
    assert line == "{" + inner + "}";
    TrimKeeps(line);
    EncodeConcat("{" + inner, "}");
    assert Encode("}") == [125];
  }

  lemma LineReadsBack(parse: LineParser, fmt: TimeFormat, e: AuditEvent)
    requires Inverts(parse, fmt)
    ensures TrimmedEvent(parse, Encode(EventLine(fmt, e))) == Some(e)
  {
    LineIsClean(fmt, e);
    DecodeEncoded(EventLine(fmt, e));
  }

  function LineSegments(fmt: TimeFormat, events: seq<AuditEvent>): seq<seq<byte>> {
    seq(|events|, i requires 0 <= i < |events| => Encode(EventLine(fmt, events[i])))
  }

  lemma LineSegmentsExtend(fmt: TimeFormat, events: seq<AuditEvent>)
    requires events != []
    ensures LineSegments(fmt, events)
            == LineSegments(fmt, events[..|events| - 1]) + [Encode(EventLine(fmt, events[|events| - 1]))]
  {
    hide EventLine, Encode;
  }

  /** The log splits into its events' lines and an empty end. */
  lemma {:induction false} LogSplits(fmt: TimeFormat, events: seq<AuditEvent>)
    ensures Split(Log(fmt, events)) == LineSegments(fmt, events) + [[]]
  {
    if events == [] {
      assert LineSegments(fmt, events) == [];
    } else {
      var n := |events| - 1;
      var file, line := Log(fmt, events[..n]), Encode(EventLine(fmt, events[n]));
      LogSplits(fmt, events[..n]);
      LineIsClean(fmt, events[n]);
      LineSegmentsExtend(fmt, events);
      hide EventLine, Split, Encode, LineSegments;
      LogStep(file, LineSegments(fmt, events[..n]), line);
    }
  }

  lemma LogStep(file: seq<byte>, lines: seq<seq<byte>>, line: seq<byte>)
    requires Split(file) == lines + [[]] && NEWLINE !in line
    ensures Split(file + (line + [NEWLINE])) == lines + [line] + [[]]
  {
    SplitOneLine(line);
    SplitAppend(file, line + [NEWLINE]);
    assert Split(file)[..|Split(file)| - 1] == lines;
  }

  /** Appending to a file that ends a line adds the appended text's own lines. */
  lemma {:induction false} SplitAppend(file: seq<byte>, more: seq<byte>)
    requires Split(file)[|Split(file)| - 1] == []
    ensures Split(file + more) == Split(file)[..|Split(file)| - 1] + Split(more)
  {
    if file == [] {
      assert file + more == more;
    } else {
      var rest := Split(file[1..]);
      assert (file + more)[1..] == file[1..] + more;
      if |rest| > 1 {
        var init, last := rest[..|rest| - 1], rest[|rest| - 1];
        assert rest == init + [last];
        PutBeforeConcat(file[0], init, [last]);
        SplitAppend(file[1..], more);
        PutBeforeConcat(file[0], init, Split(more));
      } else if file[0] == NEWLINE {
        assert Split(file) == [[]] + rest;
        SplitAppend(file[1..], more);
      }
    }
  }

  function Since(events: seq<AuditEvent>, since: Option<Time>): seq<AuditEvent> {
    if events == [] then [] else IfWanted(Some(events[0]), since) + Since(events[1..], since)
  }

  lemma {:induction false} CollectLog(parse: LineParser, fmt: TimeFormat, events: seq<AuditEvent>, since: Option<Time>)
    requires Inverts(parse, fmt)
    ensures Collect(parse, since, LineSegments(fmt, events)) == Since(events, since)
  {
    if events != [] {
      LineReadsBack(parse, fmt, events[0]);
      assert LineSegments(fmt, events)[1..] == LineSegments(fmt, events[1..]);
      CollectLog(parse, fmt, events[1..], since);
    }
  }

  /** Reading a log back, newest first, returns the written events from the last one, those at or
      after `since`, up to the limit: none lost, none doubled, none out of order. */
  lemma LogReadsBack(parse: LineParser, fmt: TimeFormat, events: seq<AuditEvent>, since: Option<Time>, limit: nat)
    requires Inverts(parse, fmt)
    ensures NewestEvents(parse, Log(fmt, events), since, limit) == Take(Reverse(Since(events, since)), limit)
  {
    var lines := LineSegments(fmt, events);
    LogSplits(fmt, events);
    CollectBackwards(parse, since, lines, [[]]);
    EmptySegment(parse, since);
    CollectReversed(parse, since, lines);
    CollectLog(parse, fmt, events, since);
    assert Collect(parse, since, Reverse(lines + [[]])) == Reverse(Since(events, since));
  }

  lemma EmptySegment(parse: LineParser, since: Option<Time>)
    ensures Collect(parse, since, Reverse([[]])) == []
  {
    OneSegment(parse, since, []);
  }

  /** Both read orders agree on a log, and the forward one never fails on it. */
  lemma LogReadsBothWays(parse: LineParser, fmt: TimeFormat, events: seq<AuditEvent>, since: Option<Time>, limit: nat)
    requires Inverts(parse, fmt) && limit >= 1
    ensures CollectLines(parse, since, Lines(Log(fmt, events))) == Since(events, since)
    ensures forall i :: !StumblesAt(parse, since, Lines(Log(fmt, events)), limit, i)
  {
    LogLines(fmt, events);
    var lines := LineSegments(fmt, events);
    forall i | 0 <= i < |lines| ensures LineEvent(parse, lines[i]) == Some(events[i]) && Decode(lines[i]).Some? {
      DecodeEncoded(EventLine(fmt, events[i]));
    }
    CollectLogLines(parse, fmt, events, since);
    NeverStumbles(parse, since, lines, limit);
  }

  lemma {:induction false} LogLines(fmt: TimeFormat, events: seq<AuditEvent>)
    ensures Lines(Log(fmt, events)) == LineSegments(fmt, events)
  {
    LogSplits(fmt, events);
    LinesOfLog(fmt, events);
  }

  /** Terminated lines without a carriage return at their end are read as they are. */
  lemma {:induction false} TerminatedLines(lines: seq<seq<byte>>)
    requires forall line | line in lines && line != [] :: line[|line| - 1] != CARRIAGE_RETURN
    ensures LinesOf(lines + [[]]) == lines
  {
    if lines != [] {
      TerminatedLines(lines[1..]);
      assert (lines + [[]])[1..] == lines[1..] + [[]];
    }
  }

  lemma LinesOfLog(fmt: TimeFormat, events: seq<AuditEvent>)
    ensures LinesOf(LineSegments(fmt, events) + [[]]) == LineSegments(fmt, events)
  {
    hide EventLine, Encode;
    forall line | line in LineSegments(fmt, events) && line != [] ensures line[|line| - 1] != CARRIAGE_RETURN {
      var i :| 0 <= i < |events| && line == Encode(EventLine(fmt, events[i]));
      LineIsClean(fmt, events[i]);
    }
    TerminatedLines(LineSegments(fmt, events));
  }

  lemma {:induction false} CollectLogLines(parse: LineParser, fmt: TimeFormat, events: seq<AuditEvent>, since: Option<Time>)
    requires Inverts(parse, fmt)
    ensures CollectLines(parse, since, LineSegments(fmt, events)) == Since(events, since)
  {
    if events != [] {
      var line := Encode(EventLine(fmt, events[0]));
      DecodeEncoded(EventLine(fmt, events[0]));
      hide EventLine, Encode, Decode;
      assert LineSegments(fmt, events) == [line] + LineSegments(fmt, events[1..]);
      CollectLinesConcat(parse, since, [line], LineSegments(fmt, events[1..]));
      SingleLine(parse, since, line);
      CollectLogLines(parse, fmt, events[1..], since);
    }
  }

  // ---------------------------------------------------------------- the report

  datatype OperationalReport = OperationalReport(totalEvents: nat, allowedEvents: nat, deniedEvents: nat, stageCounts: map<string, nat>)

  function CountAllowed(events: seq<AuditEvent>): nat {
    if events == [] then 0 else CountAllowed(events[..|events| - 1]) + (if events[|events| - 1].allowed then 1 else 0)
  }

  function CountStage(events: seq<AuditEvent>, stage: string): nat {
    if events == [] then 0 else CountStage(events[..|events| - 1], stage) + (if events[|events| - 1].stage == stage then 1 else 0)
  }

  function CountOf(m: map<string, nat>, stage: string): nat {
    if stage in m then m[stage] else 0
  }

  /** The sum of a count map's values. */
  ghost function Total(m: map<string, nat>): nat
    decreases |m|
  {
    if m == map[] then 0
    else
      var k :| k in m;
      m[k] + Total(m - {k})
  }

  lemma {:induction false} TotalWithout(m: map<string, nat>, key: string)
    requires key in m
    ensures Total(m) == m[key] + Total(m - {key})
    decreases |m|
  {
    var k :| k in m && Total(m) == m[k] + Total(m - {k});
    if k != key {
      TotalWithout(m - {k}, key);
      TotalWithout(m - {key}, k);
      assert m - {k} - {key} == m - {key} - {k};
    }
  }

  lemma TotalIncremented(m: map<string, nat>, key: string)
    ensures Total(m[key := CountOf(m, key) + 1]) == Total(m) + 1
  {
    var m' := m[key := CountOf(m, key) + 1];
    TotalWithout(m', key);
    if key in m {
      TotalWithout(m, key);
      assert m' - {key} == m - {key};
    } else {
      assert m' - {key} == m;
    }
  }

  /** The counting loop of `build_operational_report`. */
  method BuildReport(events: seq<AuditEvent>) returns (r: OperationalReport)
    ensures r.totalEvents == |events| && r.allowedEvents == CountAllowed(events)
    ensures r.allowedEvents + r.deniedEvents == |events|
    ensures forall stage :: CountOf(r.stageCounts, stage) == CountStage(events, stage)
    ensures Total(r.stageCounts) == |events|
  {
    var stageCounts: map<string, nat> := map[];
    var allowedEvents, deniedEvents := 0, 0;
    for i := 0 to |events|
      invariant allowedEvents == CountAllowed(events[..i]) && allowedEvents + deniedEvents == i
      invariant forall stage :: CountOf(stageCounts, stage) == CountStage(events[..i], stage)
      invariant Total(stageCounts) == i
    {
      assert events[..i + 1][..i] == events[..i];
      if events[i].allowed {
        allowedEvents := allowedEvents + 1;
      } else {
        deniedEvents := deniedEvents + 1;
      }
      TotalIncremented(stageCounts, events[i].stage);
      stageCounts := stageCounts[events[i].stage := CountOf(stageCounts, events[i].stage) + 1];
    }
    assert events[..|events|] == events;
    return OperationalReport(|events|, allowedEvents, deniedEvents, stageCounts);
  }

  // ---------------------------------------------------------------- evaluating onto a log

  /** The JSONL sink: a file, absent until first written, and whether writes succeed. */
  class AuditSink {
    var file: Option<seq<byte>>
    var working: bool

    constructor ()
      ensures file == None && working
    {
      file := None;
      working := true;
    }

    method WriteEvent(fmt: TimeFormat, e: AuditEvent) returns (ok: bool)
      modifies this`file
      ensures ok == working
      ensures file == if ok then Some(Append(fmt, old(file).UnwrapOr([]), e)) else old(file)
    {
      if !working {
        return false;
      }
      file := Some(file.UnwrapOr([]) + Encode(EventLine(fmt, e) + "\n"));
      return true;
    }
  }

  function ToReply(r: Result<bool, StoreError>): Option<Reply> {
    if r.Ok? then Some(Answer(r.value)) else None
  }

  /** A store behind the interface the engine is given. */
  datatype TrustStore = InMemory(memory: InMemoryTrustState) | OnFile(file: FileBackedTrustState)
  {
    ghost function Footprint(): set<object> {
      match this
      case InMemory(memory) => {memory}
      case OnFile(file) => {file, file.disk}
    }

    /** The store as the pipeline sees it: a lock held by someone else is a backend that does not answer. */
    ghost function View(): Store
      reads Footprint()
    {
      match this
      case InMemory(memory) => Store(Memory, memory.backendAvailable, memory.Contents())
      case OnFile(file) => Store(File, file.Open(), file.Contents())
    }

    method IsTokenRevoked(tokenId: string, ghost clock: Time) returns (r: Result<bool, StoreError>)
      modifies Footprint()
      ensures (View(), ToReply(r)) == old(View()).Ask(TrustState.IsTokenRevoked(tokenId), clock)
    {
      match this {
        case InMemory(memory) => r := memory.IsTokenRevoked(tokenId, clock);
        case OnFile(file) => r := file.IsTokenRevoked(tokenId, clock);
      }
    }

    method IsAgentEmergencyDenied(agentId: string, ghost clock: Time) returns (r: Result<bool, StoreError>)
      modifies Footprint()
      ensures (View(), ToReply(r)) == old(View()).Ask(TrustState.IsAgentEmergencyDenied(agentId), clock)
    {
      match this {
        case InMemory(memory) => r := memory.IsAgentEmergencyDenied(agentId, clock);
        case OnFile(file) => r := file.IsAgentEmergencyDenied(agentId, clock);
      }
    }

    method ConsumeNonce(nonce: string, validUntil: Time, clock: Time) returns (r: Result<bool, StoreError>)
      modifies Footprint()
      ensures (View(), ToReply(r)) == old(View()).Ask(TrustState.ConsumeNonce(nonce, validUntil), clock)
    {
      match this {
        case InMemory(memory) => r := memory.ConsumeNonce(nonce, validUntil, clock);
        case OnFile(file) => r := file.ConsumeNonce(nonce, validUntil, clock);
      }
    }
  }

  /** `enforce_revocation_and_redelegation`: three store calls in order, each of which may end it. */
  method EnforceRevocationAndRedelegation(e: RequestEnvelope, state: TrustStore, host: HostContext, clock: Time)
    returns (r: Outcome)
    modifies state.Footprint()
    ensures (state.View(), r) == EnforceRevocation(old(state.View()), e, host, clock)
  {
    hide Step;
    var isRevoked := state.IsTokenRevoked(e.token.tokenId, clock);
    var refused := AfterRevocationReply(ToReply(isRevoked));
    if refused.Some? {
      return refused.value;
    }
    var isDenied := state.IsAgentEmergencyDenied(e.agentId, clock);
    refused := AfterDenyReply(ToReply(isDenied));
    if refused.Some? {
      return refused.value;
    }
    var nonceWasNew := state.ConsumeNonce(e.token.nonce, e.token.expiresAt, clock);
    return AfterNonceReply(ToReply(nonceWasNew), e, host);
  }

  /** `evaluate_and_audit_with_policy`: the decision is returned only once its event is written, but
      the evaluation has had its effect on the store by then. */
  method EvaluateAndAudit(x: Setting, raw: RawRequest, state: TrustStore, sink: AuditSink, clock: Time)
    returns (r: Result<Decision, IoError>)
    requires raw.parsed.Some? ==> OrderFits(raw.parsed.value.token, x.order)
    modifies state.Footprint(), sink`file
    ensures var (after, outcome) := Evaluate(x, raw, old(state.View()), clock);
            state.View() == after
            && (r.Ok? <==> old(sink.working))
            && (r.Ok? ==> r.value == DecisionOf(outcome, x.explain))
            && sink.file == if r.Ok? then Some(Append(x.scheme.fmt, old(sink.file).UnwrapOr([]), EventOf(outcome, raw, x.now, x.explain)))
                            else old(sink.file)
  {
    hide BeforeStore, AfterStore, EnforceRevocation, EventOf, DecisionOf, Append, TrustStore.View;
    var outcome := BeforeStore(x, raw);
    if outcome.Ok? {
      outcome := EnforceRevocationAndRedelegation(outcome.value, state, x.host, clock);
      if outcome.Ok? {
        outcome := AfterStore(x, outcome.value);
      }
    }
    var ok := sink.WriteEvent(x.scheme.fmt, EventOf(outcome, raw, x.now, x.explain));
    if !ok {
      return Err(WriteFailed);
    }
    return Ok(DecisionOf(outcome, x.explain));
  }

  /** One evaluation of a run: its setting, its request and the store clock at it. */
  datatype Task = Task(x: Setting, raw: RawRequest, clock: Time)

  predicate Runnable(tasks: seq<Task>) {
    forall i | 0 <= i < |tasks| ::
      tasks[i].raw.parsed.Some? ==> OrderFits(tasks[i].raw.parsed.value.token, tasks[i].x.order)
  }

  /** The outcomes of evaluating one task after the other. */
  function Outcomes(store: Store, tasks: seq<Task>): (r: (Store, seq<Outcome>))
    requires Runnable(tasks)
    ensures |r.1| == |tasks|
    decreases |tasks|
  {
    if tasks == [] then (store, [])
    else
      var (after, outcome) := Evaluate(tasks[0].x, tasks[0].raw, store, tasks[0].clock);
      var (end, rest) := Outcomes(after, tasks[1..]);
      (end, [outcome] + rest)
  }

  function Decisions(store: Store, tasks: seq<Task>): (r: seq<Decision>)
    requires Runnable(tasks)
    ensures |r| == |tasks|
  {
    seq(|tasks|, i requires 0 <= i < |tasks| => DecisionOf(Outcomes(store, tasks).1[i], tasks[i].x.explain))
  }

  function Events(store: Store, tasks: seq<Task>): (r: seq<AuditEvent>)
    requires Runnable(tasks)
    ensures |r| == |tasks|
  {
    seq(|tasks|, i requires 0 <= i < |tasks| =>
      EventOf(Outcomes(store, tasks).1[i], tasks[i].raw, tasks[i].x.now, tasks[i].x.explain))
  }

  function AllowedAmong(decisions: seq<Decision>): nat {
    if decisions == [] then 0 else AllowedAmong(decisions[..|decisions| - 1]) + (if decisions[|decisions| - 1].allowed then 1 else 0)
  }

  function DecidedAt(decisions: seq<Decision>, stage: string): nat {
    if decisions == [] then 0
    else DecidedAt(decisions[..|decisions| - 1], stage) + (if decisions[|decisions| - 1].stage == stage then 1 else 0)
  }

  lemma {:induction false} CountsMatch(events: seq<AuditEvent>, decisions: seq<Decision>, stage: string)
    requires |events| == |decisions|
    requires forall i | 0 <= i < |events| :: events[i].allowed == decisions[i].allowed && events[i].stage == decisions[i].stage
    ensures CountAllowed(events) == AllowedAmong(decisions) && CountStage(events, stage) == DecidedAt(decisions, stage)
  {
    if events != [] {
      CountsMatch(events[..|events| - 1], decisions[..|decisions| - 1], stage);
    }
  }

  lemma {:induction false} CountsConcat(a: seq<AuditEvent>, b: seq<AuditEvent>, stage: string)
    ensures CountAllowed(a + b) == CountAllowed(a) + CountAllowed(b)
    ensures CountStage(a + b, stage) == CountStage(a, stage) + CountStage(b, stage)
  {
    if b == [] {
      assert a + b == a;
    } else {
      assert (a + b)[..|a + b| - 1] == a + b[..|b| - 1];
      CountsConcat(a, b[..|b| - 1], stage);
    }
  }

  lemma {:induction false} CountsReversed(events: seq<AuditEvent>, stage: string)
    ensures CountAllowed(Reverse(events)) == CountAllowed(events) && CountStage(Reverse(events), stage) == CountStage(events, stage)
  {
    if events != [] {
      assert events == [events[0]] + events[1..];
      CountsReversed(events[1..], stage);
      CountsConcat([events[0]], events[1..], stage);
      CountsConcat(Reverse(events[1..]), [events[0]], stage);
    }
  }

  /** What is asked for from an instant on: exactly the events at or after it, as often and in the order
      they were written. */
  lemma {:induction false} SinceIsExact(events: seq<AuditEvent>, instant: Time, e: AuditEvent)
    ensures multiset(Since(events, Some(instant)))[e] == if e.occurredAt >= instant then multiset(events)[e] else 0
  {
    if events != [] {
      SinceIsExact(events[1..], instant, e);
      assert events == [events[0]] + events[1..];
    }
  }

  lemma {:induction false} SinceKeepsOrder(events: seq<AuditEvent>, more: seq<AuditEvent>, since: Option<Time>)
    ensures Since(events + more, since) == Since(events, since) + Since(more, since)
  {
    if events == [] {
      assert events + more == more;
    } else {
      assert (events + more)[1..] == events[1..] + more;
      SinceKeepsOrder(events[1..], more, since);
    }
  }

  lemma {:induction false} SinceAlways(events: seq<AuditEvent>)
    ensures Since(events, None) == events
  {
    if events != [] {
      SinceAlways(events[1..]);
    }
  }

  lemma {:induction false} OutcomesExtend(store: Store, tasks: seq<Task>, n: nat)
    requires n < |tasks| && Runnable(tasks)
    ensures Runnable(tasks[..n]) && Runnable(tasks[..n + 1])
    ensures var (after, before) := Outcomes(store, tasks[..n]);
            var (next, outcome) := Evaluate(tasks[n].x, tasks[n].raw, after, tasks[n].clock);
            Outcomes(store, tasks[..n + 1]) == (next, before + [outcome])
    decreases n
  {
    hide Evaluate;
    if n == 0 {
      OutcomesOfOne(store, tasks[0]);
      assert tasks[..0] == [] && tasks[..1] == [tasks[0]];
      assert Outcomes(store, []) == (store, []);
      var outcome := Evaluate(tasks[0].x, tasks[0].raw, store, tasks[0].clock).1;
      assert [] + [outcome] == [outcome];
    } else {
      var (after, first) := Evaluate(tasks[0].x, tasks[0].raw, store, tasks[0].clock);
      var p, q := tasks[..n], tasks[..n + 1];
      assert p[1..] == tasks[1..][..n - 1] && q[1..] == tasks[1..][..n];
      OutcomesExtend(after, tasks[1..], n - 1);
      OutcomesUnfold(store, p);
      OutcomesUnfold(store, q);
      var before := Outcomes(after, p[1..]).1;
      var outcome := Evaluate(tasks[n].x, tasks[n].raw, Outcomes(after, p[1..]).0, tasks[n].clock).1;
      assert [first] + (before + [outcome]) == [first] + before + [outcome];
    }
  }

  lemma OutcomesUnfold(store: Store, tasks: seq<Task>)
    requires Runnable(tasks) && tasks != []
    ensures var (after, first) := Evaluate(tasks[0].x, tasks[0].raw, store, tasks[0].clock);
            Outcomes(store, tasks) == (Outcomes(after, tasks[1..]).0, [first] + Outcomes(after, tasks[1..]).1)
  {
    hide Evaluate;
  }

  lemma OutcomesOfOne(store: Store, task: Task)
    requires task.raw.parsed.Some? ==> OrderFits(task.raw.parsed.value.token, task.x.order)
    ensures Runnable([task])
    ensures var (after, outcome) := Evaluate(task.x, task.raw, store, task.clock);
            Outcomes(store, [task]) == (after, [outcome])
  {
    hide Evaluate;
    assert [task][0] == task && [task][1..] == [];
    OutcomesUnfold(store, [task]);
    var (after, outcome) := Evaluate(task.x, task.raw, store, task.clock);
    assert Outcomes(after, []) == (after, []);
    assert [outcome] + [] == [outcome];
  }

  lemma DecisionsExtend(store: Store, tasks: seq<Task>, n: nat)
    requires n < |tasks| && Runnable(tasks)
    ensures Runnable(tasks[..n]) && Runnable(tasks[..n + 1])
    ensures var outcome := Evaluate(tasks[n].x, tasks[n].raw, Outcomes(store, tasks[..n]).0, tasks[n].clock).1;
            Decisions(store, tasks[..n + 1]) == Decisions(store, tasks[..n]) + [DecisionOf(outcome, tasks[n].x.explain)]
            && Events(store, tasks[..n + 1])
               == Events(store, tasks[..n]) + [EventOf(outcome, tasks[n].raw, tasks[n].x.now, tasks[n].x.explain)]
  {
    hide Evaluate, EventOf, DecisionOf;
    OutcomesExtend(store, tasks, n);
  }

  /** Evaluates the tasks one after the other onto a working sink. */
  method RunAudited(tasks: seq<Task>, fmt: TimeFormat, state: TrustStore, sink: AuditSink) returns (decisions: seq<Decision>)
    requires Runnable(tasks) && sink.working && sink.file.None?
    requires forall i | 0 <= i < |tasks| :: tasks[i].x.scheme.fmt == fmt
    modifies state.Footprint(), sink
    ensures decisions == Decisions(old(state.View()), tasks)
    ensures state.View() == Outcomes(old(state.View()), tasks).0
    ensures sink.file.UnwrapOr([]) == Log(fmt, Events(old(state.View()), tasks))
  {
    hide Evaluate, EventOf, DecisionOf, TrustStore.View;
    decisions := [];
    ghost var store := state.View();
    assert tasks[..0] == [];
    for i := 0 to |tasks|
      invariant Runnable(tasks[..i]) && sink.working
      invariant state.View() == Outcomes(store, tasks[..i]).0
      invariant decisions == Decisions(store, tasks[..i])
      invariant sink.file.UnwrapOr([]) == Log(fmt, Events(store, tasks[..i]))
    {
      OutcomesExtend(store, tasks, i);
      DecisionsExtend(store, tasks, i);
      ghost var events := Events(store, tasks[..i + 1]);
      assert events[..i] == Events(store, tasks[..i]);
      var r := EvaluateAndAudit(tasks[i].x, tasks[i].raw, state, sink, tasks[i].clock);
      assert sink.file.value == Append(fmt, Log(fmt, events[..i]), events[i]);
      decisions := decisions + [r.value];
    }
    assert tasks[..|tasks|] == tasks;
  }

  lemma RunCounts(store: Store, tasks: seq<Task>, stage: string)
    requires Runnable(tasks)
    ensures CountAllowed(Reverse(Events(store, tasks))) == AllowedAmong(Decisions(store, tasks))
    ensures CountStage(Reverse(Events(store, tasks)), stage) == DecidedAt(Decisions(store, tasks), stage)
  {
    EventsTellDecisions(store, tasks);
    CountsReversed(Events(store, tasks), stage);
    CountsMatch(Events(store, tasks), Decisions(store, tasks), stage);
  }

  lemma EventsTellDecisions(store: Store, tasks: seq<Task>)
    requires Runnable(tasks)
    ensures forall i | 0 <= i < |tasks| ::
              Events(store, tasks)[i].allowed == Decisions(store, tasks)[i].allowed
              && Events(store, tasks)[i].stage == Decisions(store, tasks)[i].stage
  {
    hide Evaluate;
  }

  /** Conservation: a report over a full read of the log of any run counts every decision the run
      returned once, under the stage it named, and nothing else. */
  method ReportOnRun(parse: LineParser, fmt: TimeFormat, ghost store: Store, ghost tasks: seq<Task>, file: seq<byte>, limit: nat)
    returns (r: OperationalReport)
    requires Inverts(parse, fmt) && Runnable(tasks) && limit >= |tasks|
    requires file == Log(fmt, Events(store, tasks))
    ensures r.totalEvents == |tasks| && r.allowedEvents == AllowedAmong(Decisions(store, tasks))
    ensures r.allowedEvents + r.deniedEvents == |tasks|
    ensures forall stage :: CountOf(r.stageCounts, stage) == DecidedAt(Decisions(store, tasks), stage)
    ensures Total(r.stageCounts) == |tasks|
  {
    ghost var written := Events(store, tasks);
    var read := ReadEvents(parse, Some(file), AuditQuery(None, limit, NewestFirst));
    LogReadsBack(parse, fmt, written, None, limit);
    SinceAlways(written);
    assert limit == 0 ==> Take(Reverse(written), limit) == [];
    assert read == Ok(Reverse(written));
    r := BuildReport(read.value);
    RunCounts(store, tasks, "");
    forall stage ensures CountStage(read.value, stage) == DecidedAt(Decisions(store, tasks), stage) {
      RunCounts(store, tasks, stage);
    }
  }
}
