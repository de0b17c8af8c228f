/** Writers at work on one audit file at the same time. `writeln!` on an unbuffered file appends the
    line and the newline in two writes, and another writer's append can fall between them. */
module AuditInterleaving {
  import opened Wrappers
  import opened Utf8
  import opened Text
  import opened Json
  import opened Models
  import opened Payload
  import opened AuditLog
  import opened AuditTrail

  /** An append: a writer's event as a line of text, or the newline after it. */
  datatype Piece = Line(writer: nat) | End(writer: nat)

  /** Every waiting writer appends its line and later its newline, and every open one its newline;
      nobody appends anything else. */
  predicate Complete(trace: seq<Piece>, waiting: set<nat>, open: set<nat>) {
    if trace == [] then waiting == {} && open == {}
    else
      match trace[0]
      case Line(i) => i in waiting && Complete(trace[1..], waiting - {i}, open + {i})
      case End(i) => i in open && Complete(trace[1..], waiting, open - {i})
  }

  function Writers(n: nat): (writers: set<nat>)
    ensures |writers| == n && forall i: nat :: i in writers <==> i < n
  {
    if n == 0 then {} else Writers(n - 1) + {n - 1}
  }

  /** Nobody's append falls between an event's two. */
  predicate Undivided(trace: seq<Piece>) {
    forall p | 0 <= p < |trace| && trace[p].Line? :: p + 1 < |trace| && trace[p + 1] == End(trace[p].writer)
  }

  function PieceBytes(fmt: TimeFormat, events: seq<AuditEvent>, piece: Piece): seq<byte> {
    match piece
    case Line(i) => if i < |events| then Encode(EventLine(fmt, events[i])) else []
    case End(_) => [NEWLINE]
  }

  /** The file after the appends of a run. */
  function Written(fmt: TimeFormat, events: seq<AuditEvent>, trace: seq<Piece>): seq<byte> {
    if trace == [] then [] else PieceBytes(fmt, events, trace[0]) + Written(fmt, events, trace[1..])
  }

  /** Undisturbed, the two appends are the sink's one. */
  lemma TwoAppendsAreOne(fmt: TimeFormat, events: seq<AuditEvent>, file: seq<byte>, i: nat)
    requires i < |events|
    ensures file + PieceBytes(fmt, events, Line(i)) + PieceBytes(fmt, events, End(i)) == Append(fmt, file, events[i])
  {
    hide EventLine;
    LineIsClean(fmt, events[i]);
  }

  // ---------------------------------------------------------------- which lines come to stand together

  /** The writers whose lines stand between two newlines, for every such stretch of the file. */
  function Groups(trace: seq<Piece>): (groups: seq<seq<nat>>)
    ensures groups != []
  {
    if trace == [] then [[]]
    else
      var rest := Groups(trace[1..]);
      match trace[0]
      case Line(i) => [[i] + rest[0]] + rest[1..]
      case End(_) => [[]] + rest
  }

  function LineText(fmt: TimeFormat, events: seq<AuditEvent>, i: nat): string {
    if i < |events| then EventLine(fmt, events[i]) else ""
  }

  function GroupText(fmt: TimeFormat, events: seq<AuditEvent>, group: seq<nat>): string {
    if group == [] then "" else LineText(fmt, events, group[0]) + GroupText(fmt, events, group[1..])
  }

  function Segments(fmt: TimeFormat, events: seq<AuditEvent>, groups: seq<seq<nat>>): (segments: seq<seq<byte>>)
    ensures |segments| == |groups|
    ensures forall k | 0 <= k < |groups| :: segments[k] == Encode(GroupText(fmt, events, groups[k]))
  {
    seq(|groups|, k requires 0 <= k < |groups| => Encode(GroupText(fmt, events, groups[k])))
  }

  lemma NoNewlineConcat(a: seq<byte>, b: seq<byte>)
    requires NEWLINE !in a && NEWLINE !in b
    ensures NEWLINE !in a + b
  {
  }

  lemma LineTextIsClean(fmt: TimeFormat, events: seq<AuditEvent>, i: nat)
    ensures NEWLINE !in Encode(LineText(fmt, events, i))
    ensures PieceBytes(fmt, events, Line(i)) == Encode(LineText(fmt, events, i))
  {
    hide EventLine;
    if i < |events| {
      LineIsClean(fmt, events[i]);
    }
  }

  lemma {:induction false} GroupTextIsClean(fmt: TimeFormat, events: seq<AuditEvent>, group: seq<nat>)
    ensures NEWLINE !in Encode(GroupText(fmt, events, group))
  {
    if group != [] {
      LineTextIsClean(fmt, events, group[0]);
      GroupTextIsClean(fmt, events, group[1..]);
      EncodeConcat(LineText(fmt, events, group[0]), GroupText(fmt, events, group[1..]));
    }
  }

  lemma LineInFront(fmt: TimeFormat, events: seq<AuditEvent>, i: nat, rest: seq<byte>, groups: seq<seq<nat>>)
    requires groups != [] && Split(rest) == Segments(fmt, events, groups)
    ensures Split(PieceBytes(fmt, events, Line(i)) + rest) == Segments(fmt, events, [[i] + groups[0]] + groups[1..])
  {
    hide Encode, EventLine, Split;
    var line, first := Encode(LineText(fmt, events, i)), Encode(GroupText(fmt, events, groups[0]));
    LineTextIsClean(fmt, events, i);
    GroupTextIsClean(fmt, events, groups[0]);
    NoNewlineConcat(line, first);
    SplitConcat(line, rest);
    SplitOneLine(line + first);
    EncodeConcat(LineText(fmt, events, i), GroupText(fmt, events, groups[0]));
    assert ([i] + groups[0])[1..] == groups[0];
    assert Split(line + rest) == [line + first] + Segments(fmt, events, groups)[1..];
  }

  lemma EndInFront(fmt: TimeFormat, events: seq<AuditEvent>, rest: seq<byte>, groups: seq<seq<nat>>)
    requires Split(rest) == Segments(fmt, events, groups)
    ensures Split([NEWLINE] + rest) == Segments(fmt, events, [[]] + groups)
  {
    assert ([NEWLINE] + rest)[1..] == rest;
    assert Encode(GroupText(fmt, events, [])) == [];
    hide Encode, EventLine;
  }

  /** The file splits into the groups' texts. */
  lemma {:induction false} WrittenSplits(fmt: TimeFormat, events: seq<AuditEvent>, trace: seq<Piece>)
    ensures Split(Written(fmt, events, trace)) == Segments(fmt, events, Groups(trace))
  {
    hide EventLine;
    if trace == [] {
      assert GroupText(fmt, events, []) == "" && Encode("") == [];
    } else {
      WrittenSplits(fmt, events, trace[1..]);
      var rest := Written(fmt, events, trace[1..]);
      match trace[0] {
        case Line(i) => LineInFront(fmt, events, i, rest, Groups(trace[1..]));
        case End(_) => EndInFront(fmt, events, rest, Groups(trace[1..]));
      }
    }
  }

  // ---------------------------------------------------------------- what is read back

  /** A line is one event or none: empty it is none, and going on after an event it is none. */
  ghost predicate OneEventALine(parse: LineParser, fmt: TimeFormat) {
    Inverts(parse, fmt) && parse("") == None
    && forall e, f, more :: parse(EventLine(fmt, e) + EventLine(fmt, f) + more) == None
  }

  /** There are such parsers: a line read from the front tells where its event ends. */
  lemma SomeParserReadsOneEvent(fmt: TimeFormat)
    requires Injective(fmt)
    ensures exists parse: LineParser :: OneEventALine(parse, fmt)
  {
    hide EventLine;
    forall e, f | EventLine(fmt, e) == EventLine(fmt, f) ensures e == f {
      LineTellsEvent(fmt, e, f);
    }
    var parse: LineParser :=
      line => if exists e :: EventLine(fmt, e) == line then var e :| EventLine(fmt, e) == line; Some(e) else None;
    assert Inverts(parse, fmt);
    forall e, f, more ensures parse(EventLine(fmt, e) + EventLine(fmt, f) + more) == None {
      forall g ensures EventLine(fmt, e) + EventLine(fmt, f) + more != EventLine(fmt, g) {
        TwoEventsAreNotOne(fmt, e, f, more, g);
      }
    }
    forall g ensures EventLine(fmt, g) != "" {
      TwoEventsAreNotOne(fmt, g, g, "", g);
    }
    assert OneEventALine(parse, fmt);
  }

  lemma TwoEventsAreNotOne(fmt: TimeFormat, e: AuditEvent, f: AuditEvent, more: string, g: AuditEvent)
    ensures EventLine(fmt, e) + EventLine(fmt, f) + more != EventLine(fmt, g) && EventLine(fmt, g) != ""
  {
    hide Print, ParseValue;
    var line, rest := EventLine(fmt, g), EventLine(fmt, f) + more;
    FirstCharacter(EventValue(fmt, f));
    FirstCharacter(EventValue(fmt, g));
    assert EventLine(fmt, e) + EventLine(fmt, f) + more == EventLine(fmt, e) + rest;
    ReadBack(EventValue(fmt, e), EventLine(fmt, e) + rest, rest);
    assert line == line + "";
    ReadBack(EventValue(fmt, g), line, "");
  }

  /** The events of the writers whose line stands alone, in the file's order. */
  function Alone(events: seq<AuditEvent>, groups: seq<seq<nat>>): seq<AuditEvent> {
    if groups == [] then []
    else (if |groups[0]| == 1 && groups[0][0] < |events| then [events[groups[0][0]]] else []) + Alone(events, groups[1..])
  }

  predicate Within(groups: seq<seq<nat>>, n: nat) {
    forall k, j | 0 <= k < |groups| && 0 <= j < |groups[k]| :: groups[k][j] < n
  }

  lemma {:induction false} GroupTextEdges(fmt: TimeFormat, events: seq<AuditEvent>, group: seq<nat>)
    requires group != [] && forall j | 0 <= j < |group| :: group[j] < |events|
    ensures var t := GroupText(fmt, events, group); t != "" && t[0] == '{' && t[|t| - 1] == '}'
  {
    hide PrintEntries;
    if |group| == 1 {
      assert GroupText(fmt, events, group[1..]) == "";
      assert GroupText(fmt, events, group) == EventLine(fmt, events[group[0]]);
    } else {
      GroupTextEdges(fmt, events, group[1..]);
    }
  }

  lemma GroupParses(parse: LineParser, fmt: TimeFormat, events: seq<AuditEvent>, group: seq<nat>)
    requires OneEventALine(parse, fmt) && forall j | 0 <= j < |group| :: group[j] < |events|
    ensures parse(GroupText(fmt, events, group)) == if |group| == 1 then Some(events[group[0]]) else None
  {
    hide EventLine;
    var t := GroupText(fmt, events, group);
    if |group| == 1 {
      assert GroupText(fmt, events, group[1..]) == "";
      assert t == EventLine(fmt, events[group[0]]);
    } else if |group| > 1 {
      var more := GroupText(fmt, events, group[2..]);
      assert group[1..][1..] == group[2..];
      assert t == EventLine(fmt, events[group[0]]) + EventLine(fmt, events[group[1]]) + more;
    }
  }

  /** Both readers find on a stretch of the file its one event, or none. */
  lemma GroupReads(parse: LineParser, fmt: TimeFormat, events: seq<AuditEvent>, group: seq<nat>)
    requires OneEventALine(parse, fmt) && forall j | 0 <= j < |group| :: group[j] < |events|
    ensures var segment := Encode(GroupText(fmt, events, group));
            Decode(segment).Some?
            && LineEvent(parse, segment) == (if |group| == 1 then Some(events[group[0]]) else None)
            && TrimmedEvent(parse, segment) == (if |group| == 1 then Some(events[group[0]]) else None)
            && (group == [] ==> segment == []) && (group != [] ==> segment != [])
            && (segment != [] ==> segment[|segment| - 1] != CARRIAGE_RETURN)
  {
    hide Encode, Decode, GroupText, OneEventALine, Trim;
    var t := GroupText(fmt, events, group);
    GroupParses(parse, fmt, events, group);
    DecodeEncoded(t);
    if group == [] {
      EmptyGroup(fmt, events);
    } else {
      GroupTextEdges(fmt, events, group);
      TrimKeeps(t);
      EndsInBrace(t);
    }
  }

  lemma EmptyGroup(fmt: TimeFormat, events: seq<AuditEvent>)
    ensures GroupText(fmt, events, []) == "" && Encode("") == [] && Trim("") == ""
  {
  }

  lemma EndsInBrace(t: string)
    requires t != "" && t[|t| - 1] == '}'
    ensures Encode(t) != [] && Encode(t)[|Encode(t)| - 1] != CARRIAGE_RETURN
  {
    EncodeConcat(t[..|t| - 1], "}");
    assert t == t[..|t| - 1] + "}";
    assert Encode("}") == [125];
  }

  lemma {:induction false} SegmentsRead(parse: LineParser, fmt: TimeFormat, events: seq<AuditEvent>, groups: seq<seq<nat>>)
    requires OneEventALine(parse, fmt) && Within(groups, |events|)
    ensures Collect(parse, None, Segments(fmt, events, groups)) == Alone(events, groups)
  {
    hide Encode, TrimmedEvent, GroupText, OneEventALine;
    if groups != [] {
      GroupReads(parse, fmt, events, groups[0]);
      SegmentsRead(parse, fmt, events, groups[1..]);
      assert Segments(fmt, events, groups)[1..] == Segments(fmt, events, groups[1..]);
    }
  }

  lemma {:induction false} GroupsWithin(trace: seq<Piece>, n: nat, waiting: set<nat>, open: set<nat>)
    requires Complete(trace, waiting, open) && forall i | i in waiting :: i < n
    ensures Within(Groups(trace), n)
  {
    if trace != [] {
      match trace[0] {
        case Line(i) => GroupsWithin(trace[1..], n, waiting - {i}, open + {i});
        case End(i) => GroupsWithin(trace[1..], n, waiting, open - {i});
      }
    }
  }

  lemma NoLines(parse: LineParser)
    ensures CollectLines(parse, None, []) == []
  {
  }

  lemma ForwardLines(parse: LineParser, fmt: TimeFormat, events: seq<AuditEvent>, groups: seq<seq<nat>>)
    requires OneEventALine(parse, fmt) && Within(groups, |events|) && groups != []
    ensures CollectLines(parse, None, LinesOf(Segments(fmt, events, groups))) == Alone(events, groups)
    ensures AllText(LinesOf(Segments(fmt, events, groups)))
    decreases |groups|
  {
    hide Encode, Decode, LineEvent, TrimmedEvent, GroupText, OneEventALine, CollectLines;
    var segments := Segments(fmt, events, groups);
    GroupReads(parse, fmt, events, groups[0]);
    if |groups| == 1 {
      NoLines(parse);
      SingleLine(parse, None, segments[0]);
      assert groups[1..] == [];
      assert segments == [segments[0]];
    } else {
      ForwardLines(parse, fmt, events, groups[1..]);
      assert segments[1..] == Segments(fmt, events, groups[1..]);
      assert StripReturn(segments[0]) == segments[0];
      SingleLine(parse, None, segments[0]);
      CollectLinesConcat(parse, None, [segments[0]], LinesOf(segments[1..]));
    }
  }

  /** Exactly the events that stand alone on a line are read back, by either reader, and neither fails. */
  lemma ReadBackExactly(parse: LineParser, fmt: TimeFormat, events: seq<AuditEvent>, trace: seq<Piece>, limit: nat)
    requires OneEventALine(parse, fmt) && Complete(trace, Writers(|events|), {})
    ensures var file := Written(fmt, events, trace);
            NewestEvents(parse, file, None, limit) == Take(Reverse(Alone(events, Groups(trace))), limit)
            && CollectLines(parse, None, Lines(file)) == Alone(events, Groups(trace))
            && forall i :: !StumblesAt(parse, None, Lines(file), limit, i)
  {
    hide OneEventALine, Written, Groups;
    var groups := Groups(trace);
    WrittenSplits(fmt, events, trace);
    GroupsWithin(trace, |events|, Writers(|events|), {});
    SegmentsRead(parse, fmt, events, groups);
    CollectReversed(parse, None, Segments(fmt, events, groups));
    ForwardLines(parse, fmt, events, groups);
    NeverStumbles(parse, None, LinesOf(Segments(fmt, events, groups)), limit);
  }

  // ---------------------------------------------------------------- when all are read back

  /** The writers' events, as a bag. */
  ghost function Bag(events: seq<AuditEvent>, writers: set<nat>): multiset<AuditEvent>
    requires forall i | i in writers :: i < |events|
  {
    if writers == {} then multiset{}
    else
      var i :| i in writers;
      multiset{events[i]} + Bag(events, writers - {i})
  }

  lemma {:induction false} BagWithout(events: seq<AuditEvent>, writers: set<nat>, j: nat)
    requires (forall i | i in writers :: i < |events|) && j in writers
    ensures Bag(events, writers) == multiset{events[j]} + Bag(events, writers - {j})
    decreases |writers|
  {
    var i :| i in writers && Bag(events, writers) == multiset{events[i]} + Bag(events, writers - {i});
    if i != j {
      BagWithout(events, writers - {i}, j);
      BagWithout(events, writers - {j}, i);
      assert writers - {i} - {j} == writers - {j} - {i};
    }
  }

  lemma OneWriterMore(n: nat)
    requires n > 0
    ensures n - 1 in Writers(n) && Writers(n) - {n - 1} == Writers(n - 1)
  {
  }

  lemma OneEventMore(events: seq<AuditEvent>, n: nat)
    requires 0 < n <= |events|
    ensures multiset(events[..n]) == multiset{events[n - 1]} + multiset(events[..n - 1])
  {
    assert events[..n] == events[..n - 1] + [events[n - 1]];
  }

  lemma {:induction false} BagOfAll(events: seq<AuditEvent>, n: nat)
    requires n <= |events|
    ensures Bag(events, Writers(n)) == multiset(events[..n])
  {
    if n == 0 {
      assert events[..0] == [];
    } else {
      hide Bag, Writers;
      BagOfAll(events, n - 1);
      OneWriterMore(n);
      BagWithout(events, Writers(n), n - 1);
      OneEventMore(events, n);
    }
  }

  /** All alone on their lines: no stretch of the file holds two. */
  predicate AllAlone(groups: seq<seq<nat>>) {
    forall k | 0 <= k < |groups| :: |groups[k]| <= 1
  }

  function Held(groups: seq<seq<nat>>): nat {
    if groups == [] then 0 else |groups[0]| + Held(groups[1..])
  }

  /** As many events as lines are alone exactly if all are. */
  lemma {:induction false} AloneCount(events: seq<AuditEvent>, groups: seq<seq<nat>>)
    requires Within(groups, |events|)
    ensures |Alone(events, groups)| <= Held(groups)
    ensures |Alone(events, groups)| == Held(groups) <==> AllAlone(groups)
  {
    if groups != [] {
      AloneCount(events, groups[1..]);
      assert AllAlone(groups) <==> |groups[0]| <= 1 && AllAlone(groups[1..]) by {
        assert forall k | 0 < k < |groups| :: groups[k] == groups[1..][k - 1];
      }
    }
  }

  lemma {:induction false} HeldCount(trace: seq<Piece>, waiting: set<nat>, open: set<nat>)
    requires Complete(trace, waiting, open)
    ensures Held(Groups(trace)) == |waiting|
  {
    if trace != [] {
      var rest := Groups(trace[1..]);
      match trace[0] {
        case Line(i) =>
          HeldCount(trace[1..], waiting - {i}, open + {i});
          assert Groups(trace)[1..] == rest[1..];
        case End(i) =>
          HeldCount(trace[1..], waiting, open - {i});
          assert Groups(trace)[1..] == rest;
      }
    }
  }

  lemma GroupsRest(trace: seq<Piece>, i: nat)
    requires |trace| >= 2 && trace[0] == Line(i) && trace[1] == End(i)
    ensures Groups(trace) == [[i]] + Groups(trace[2..])
  {
    var rest := Groups(trace[2..]);
    assert trace[1..][1..] == trace[2..] && trace[1..][0] == trace[1];
    assert Groups(trace[1..]) == [[]] + rest;
    var none: seq<nat> := [];
    assert [i] + none == [i] && ([none] + rest)[1..] == rest;
  }

  lemma AllAloneRest(group: seq<nat>, rest: seq<seq<nat>>)
    ensures AllAlone([group] + rest) <==> |group| <= 1 && AllAlone(rest)
  {
    var groups := [group] + rest;
    assert groups[0] == group;
    forall k | 0 <= k < |rest| ensures groups[k + 1] == rest[k] {
    }
    if AllAlone(groups) {
      forall k | 0 <= k < |rest| ensures |rest[k]| <= 1 {
        assert |groups[k + 1]| <= 1;
      }
    }
  }

  lemma UndividedRest(trace: seq<Piece>, i: nat)
    requires |trace| >= 2 && trace[0] == Line(i) && trace[1] == End(i)
    ensures Undivided(trace) <==> Undivided(trace[2..])
  {
    var rest := trace[2..];
    assert forall p | 2 <= p < |trace| :: trace[p] == rest[p - 2];
    assert forall p | 0 <= p < |rest| :: rest[p] == trace[p + 2];
  }

  /** With nobody's line open, the next two appends are one event's, or two lines in a row. */
  lemma FirstTwo(trace: seq<Piece>, waiting: set<nat>)
    requires Complete(trace, waiting, {}) && trace != []
    ensures |trace| >= 2 && trace[0].Line? && trace[0].writer in waiting
    ensures trace[1].Line? || (trace[1] == End(trace[0].writer) && Complete(trace[2..], waiting - {trace[0].writer}, {}))
  {
    var i := trace[0].writer;
    var open: set<nat> := {};
    assert Complete(trace[1..], waiting - {i}, open + {i});
    assert i in open + {i};
    assert trace[1..][0] == trace[1] && trace[1..][1..] == trace[2..];
    assert open + {i} - {i} == {};
  }

  /** Lines all stand alone exactly if no append falls between an event's two, as each writer ends its
      own line. */
  lemma {:induction false} AloneIffUndivided(trace: seq<Piece>, waiting: set<nat>)
    requires Complete(trace, waiting, {})
    ensures AllAlone(Groups(trace)) <==> Undivided(trace)
    decreases |trace|
  {
    if trace != [] {
      var i := trace[0].writer;
      FirstTwo(trace, waiting);
      if trace[1].Line? {
        assert trace[1..][0] == trace[1];
        assert |Groups(trace[1..])[0]| >= 1 && |Groups(trace)[0]| >= 2;
        assert trace[1] != End(i);
      } else {
        GroupsRest(trace, i);
        AllAloneRest([i], Groups(trace[2..]));
        UndividedRest(trace, i);
        AloneIffUndivided(trace[2..], waiting - {i});
      }
    }
  }

  lemma {:induction false} AloneBag(events: seq<AuditEvent>, trace: seq<Piece>, waiting: set<nat>)
    requires Complete(trace, waiting, {}) && (forall i | i in waiting :: i < |events|) && AllAlone(Groups(trace))
    ensures multiset(Alone(events, Groups(trace))) == Bag(events, waiting)
    decreases |trace|
  {
    if trace != [] {
      var i := trace[0].writer;
      FirstTwo(trace, waiting);
      AloneIffUndivided(trace, waiting);
      GroupsRest(trace, i);
      AllAloneRest([i], Groups(trace[2..]));
      hide Groups, Complete;
      AloneBag(events, trace[2..], waiting - {i});
      BagWithout(events, waiting, i);
      var groups := Groups(trace);
      assert groups[0] == [i] && groups[1..] == Groups(trace[2..]);
      assert Alone(events, groups) == [events[i]] + Alone(events, Groups(trace[2..]));
    }
  }

  lemma ReversedBag<T>(xs: seq<T>)
    ensures multiset(Reverse(xs)) == multiset(xs)
  {
    if xs != [] {
      ReversedBag(xs[1..]);
      assert xs == [xs[0]] + xs[1..];
    }
  }

  /** Writers at work at the same time lose no event, and none twice, exactly when no append of one falls
      between the two of another. */
  lemma AllReadBackIff(parse: LineParser, fmt: TimeFormat, events: seq<AuditEvent>, trace: seq<Piece>, limit: nat)
    requires OneEventALine(parse, fmt) && Complete(trace, Writers(|events|), {}) && limit >= |events|
    ensures multiset(NewestEvents(parse, Written(fmt, events, trace), None, limit)) == multiset(events) <==> Undivided(trace)
  {
    hide OneEventALine, Written, Groups, Alone, NewestEvents, Undivided;
    var groups := Groups(trace);
    var alone := Alone(events, groups);
    ReadBackExactly(parse, fmt, events, trace, limit);
    GroupsWithin(trace, |events|, Writers(|events|), {});
    AloneCount(events, groups);
    HeldCount(trace, Writers(|events|), {});
    AloneIffUndivided(trace, Writers(|events|));
    ReversedBag(alone);
    assert multiset(NewestEvents(parse, Written(fmt, events, trace), None, limit)) == multiset(alone);
    assert |multiset(alone)| == |alone| && |multiset(events)| == |events|;
    if AllAlone(groups) {
      AloneBag(events, trace, Writers(|events|));
      BagOfAll(events, |events|);
      assert events[..|events|] == events;
    }
  }
}
