/** The JSONL audit file: appending an event, reading it forwards line by line, and reading it
    backwards in chunks. */
module AuditLog {
  import opened Wrappers
  import opened Utf8
  import opened Text
  import opened Models

  const NEWLINE: byte := 10
  const CARRIAGE_RETURN: byte := 13
  const CHUNK: nat := 65_536

  /** How one line of text becomes an event; lines that do not are skipped. */
  type LineParser = string -> Option<AuditEvent>

  datatype IoError = InvalidData | WriteFailed

  datatype AuditOrder = NewestFirst | OldestFirst

  datatype AuditQuery = AuditQuery(since: Option<Time>, limit: nat, order: AuditOrder)

  // ---------------------------------------------------------------- splitting

  /** `split` on newline: always at least one segment, the last one unterminated. */
  function Split(b: seq<byte>): (segments: seq<seq<byte>>)
    ensures segments != []
  {
    if b == [] then [[]] else PutBefore(b[0], Split(b[1..]))
  }

  function PutBefore(c: byte, segments: seq<seq<byte>>): (r: seq<seq<byte>>)
    requires segments != []
    ensures r != []
  {
    if c == NEWLINE then [[]] + segments else [[c] + segments[0]] + segments[1..]
  }

  lemma PutBeforeConcat(c: byte, xs: seq<seq<byte>>, ys: seq<seq<byte>>)
    requires xs != []
    ensures PutBefore(c, xs + ys) == PutBefore(c, xs) + ys
  {
    assert (xs + ys)[0] == xs[0] && (xs + ys)[1..] == xs[1..] + ys;
  }

  /** Text in front of a file only changes the file's first segment. */
  lemma {:induction false} SplitConcat(front: seq<byte>, rest: seq<byte>)
    ensures Split(front + rest) == Split(front + Split(rest)[0]) + Split(rest)[1..]
  {
    var fragment, more := Split(rest)[0], Split(rest)[1..];
    if front == [] {
      assert front + rest == rest && front + fragment == fragment;
      FirstSegmentWhole(rest);
      assert Split(rest) == [fragment] + more;
    } else {
      assert (front + rest)[1..] == front[1..] + rest && (front + fragment)[1..] == front[1..] + fragment;
      SplitConcat(front[1..], rest);
      PutBeforeConcat(front[0], Split(front[1..] + fragment), more);
    }
  }

  lemma {:induction false} FirstSegmentWhole(b: seq<byte>)
    ensures Split(Split(b)[0]) == [Split(b)[0]]
  {
    if b != [] && b[0] != NEWLINE {
      FirstSegmentWhole(b[1..]);
      var first := Split(b)[0];
      assert first[1..] == Split(b[1..])[0];
    }
  }

  /** The segments with a newline between any two. */
  function Joined(segments: seq<seq<byte>>): seq<byte> {
    if segments == [] then [] else if |segments| == 1 then segments[0] else segments[0] + [10] + Joined(segments[1..])
  }

  predicate FreeOfNewlines(segments: seq<seq<byte>>) {
    forall i | 0 <= i < |segments| :: 10 !in segments[i]
  }

  /** Splitting cuts at every newline, there only, and loses nothing else. */
  lemma {:induction false} SplitIsExact(b: seq<byte>)
    ensures Joined(Split(b)) == b && FreeOfNewlines(Split(b))
  {
    if b != [] {
      SplitIsExact(b[1..]);
      var rest := Split(b[1..]);
      assert b == [b[0]] + b[1..];
      assert ([[b[0]] + rest[0]] + rest[1..])[1..] == rest[1..] && ([[]] + rest)[1..] == rest;
    }
  }

  // ---------------------------------------------------------------- what the readers are to return

  function Reverse<T>(xs: seq<T>): (r: seq<T>)
    ensures |r| == |xs|
  {
    if xs == [] then [] else Reverse(xs[1..]) + [xs[0]]
  }

  function Take<T>(xs: seq<T>, n: nat): seq<T> {
    if |xs| <= n then xs else xs[..n]
  }

  predicate Wanted(event: AuditEvent, since: Option<Time>) {
    since.None? || event.occurredAt >= since.value
  }

  /** No event before the instant asked for. */
  predicate NoneBefore(events: seq<AuditEvent>, since: Option<Time>) {
    since.Some? ==> forall i | 0 <= i < |events| :: events[i].occurredAt >= since.value
  }

  /** The event on a line for the backward reader: trimmed, and skipped when not UTF-8 or blank. */
  function TrimmedEvent(parse: LineParser, segment: seq<byte>): Option<AuditEvent> {
    match Decode(segment)
    case None => None
    case Some(text) => if Trim(text) == "" then None else parse(Trim(text))
  }

  /** The wanted events of some lines, in the lines' order. */
  function Collect(parse: LineParser, since: Option<Time>, segments: seq<seq<byte>>): seq<AuditEvent> {
    if segments == [] then []
    else IfWanted(TrimmedEvent(parse, segments[0]), since) + Collect(parse, since, segments[1..])
  }

  function IfWanted(event: Option<AuditEvent>, since: Option<Time>): seq<AuditEvent> {
    if event.Some? && Wanted(event.value, since) then [event.value] else []
  }

  /** The whole file split, reversed, filtered and cut off. */
  function NewestEvents(parse: LineParser, file: seq<byte>, since: Option<Time>, limit: nat): seq<AuditEvent> {
    Take(Collect(parse, since, Reverse(Split(file))), limit)
  }

  lemma {:induction false} CollectNoneBefore(parse: LineParser, since: Option<Time>, segments: seq<seq<byte>>)
    ensures NoneBefore(Collect(parse, since, segments), since)
  {
    if segments != [] {
      CollectNoneBefore(parse, since, segments[1..]);
    }
  }

  lemma {:induction false} CollectLinesNoneBefore(parse: LineParser, since: Option<Time>, lines: seq<seq<byte>>)
    ensures NoneBefore(CollectLines(parse, since, lines), since)
  {
    if lines != [] {
      CollectLinesNoneBefore(parse, since, lines[..|lines| - 1]);
    }
  }

  lemma {:induction false} ReverseConcat<T>(xs: seq<T>, ys: seq<T>)
    ensures Reverse(xs + ys) == Reverse(ys) + Reverse(xs)
  {
    if xs == [] {
      assert xs + ys == ys;
    } else {
      assert (xs + ys)[1..] == xs[1..] + ys;
      ReverseConcat(xs[1..], ys);
    }
  }

  lemma {:induction false} CollectConcat(parse: LineParser, since: Option<Time>, xs: seq<seq<byte>>, ys: seq<seq<byte>>)
    ensures Collect(parse, since, xs + ys) == Collect(parse, since, xs) + Collect(parse, since, ys)
  {
    if xs == [] {
      assert xs + ys == ys;
    } else {
      assert (xs + ys)[1..] == xs[1..] + ys;
      CollectConcat(parse, since, xs[1..], ys);
    }
  }

  lemma CollectBackwards(parse: LineParser, since: Option<Time>, xs: seq<seq<byte>>, ys: seq<seq<byte>>)
    ensures Collect(parse, since, Reverse(xs + ys))
         == Collect(parse, since, Reverse(ys)) + Collect(parse, since, Reverse(xs))
  {
    ReverseConcat(xs, ys);
    CollectConcat(parse, since, Reverse(ys), Reverse(xs));
  }

  // ---------------------------------------------------------------- the backward reader

  /** `read_newest_first`, for any chunk size: seeks backwards a chunk at a time and carries the
      piece of a line that starts further left. */
  method ReadNewestFirst(parse: LineParser, file: seq<byte>, chunk: nat, limit: nat, since: Option<Time>)
    returns (events: seq<AuditEvent>)
    requires chunk >= 1 && limit >= 1
    ensures events == NewestEvents(parse, file, since, limit)
    ensures |events| <= limit && NoneBefore(events, since)
  {
    CollectNoneBefore(parse, since, Reverse(Split(file)));
    events := [];
    if |file| == 0 {
      EmptyFile(parse, since);
      return;
    }
    var leftFragment: seq<byte> := [];
    var pos := |file|;
    ghost var done: seq<seq<byte>> := [];
    assert file[pos..] == [];
    assert Split([]) == [[]] && Collect(parse, since, Reverse(done)) == [];
    hide Split, Collect, Reverse, NewestEvents;
    while true
      invariant 0 < pos <= |file|
      invariant Split(file[pos..]) == [leftFragment] + done
      invariant events == Collect(parse, since, Reverse(done)) && |events| < limit
      decreases pos
    {
      var segments;
      pos, leftFragment, segments := ReadChunk(file, pos, chunk, leftFragment, done);
      var full;
      events, full := TakeSegments(parse, segments, done, events, limit, since);
      if full {
        EnoughCollected(parse, file, pos, if pos > 0 then [leftFragment] else [], segments + done, since, limit, events);
        return;
      }
      done := segments + done;
      if pos == 0 {
        assert [] + done == done;
        break;
      }
    }
    assert file[0..] == file;
  }

  /** One turn's reading: the chunk to the left of `right`, split together with the fragment carried so
      far; the first piece is carried on unless it begins the file. */
  method ReadChunk(file: seq<byte>, right: nat, chunk: nat, carried: seq<byte>, ghost done: seq<seq<byte>>)
    returns (pos: nat, leftFragment: seq<byte>, segments: seq<seq<byte>>)
    requires 0 < right <= |file| && chunk >= 1 && Split(file[right..]) == [carried] + done
    ensures pos == if chunk < right then right - chunk else 0
    ensures Split(file[pos..]) == (if pos > 0 then [leftFragment] else []) + (segments + done)
  {
    hide Split;
    var readSize := if chunk < right then chunk else right;
    pos := right - readSize;
    var working := file[pos..pos + readSize] + carried;
    segments := Split(working);
    leftFragment := [];
    WindowSplit(file, pos, right, carried, done);
    FirstApart(segments, done);
    if pos > 0 {
      leftFragment := segments[0];
      segments := segments[1..];
    }
  }

  /** A chunk and the fragment carried from its right split into the file's own lines there. */
  lemma WindowSplit(file: seq<byte>, pos: nat, right: nat, leftFragment: seq<byte>, done: seq<seq<byte>>)
    requires pos <= right <= |file| && Split(file[right..]) == [leftFragment] + done
    ensures Split(file[pos..]) == Split(file[pos..right] + leftFragment) + done
  {
    assert file[pos..] == file[pos..right] + file[right..];
    SplitConcat(file[pos..right], file[right..]);
  }

  lemma FirstApart(segments: seq<seq<byte>>, done: seq<seq<byte>>)
    requires segments != []
    ensures segments + done == [segments[0]] + (segments[1..] + done)
    ensures segments + done == [] + (segments + done)
  {
  }

  /** The walk over a window's segments from right to left, which stops when the limit is reached. */
  method TakeSegments(parse: LineParser, segments: seq<seq<byte>>, ghost done: seq<seq<byte>>,
                      before: seq<AuditEvent>, limit: nat, since: Option<Time>)
    returns (events: seq<AuditEvent>, full: bool)
    requires before == Collect(parse, since, Reverse(done)) && |before| < limit
    ensures !full ==> events == Collect(parse, since, Reverse(segments + done)) && |events| < limit
    ensures full ==> |events| == limit && events <= Collect(parse, since, Reverse(segments + done))
  {
    events := before;
    full := false;
    var i := |segments|;
    WalkStart(parse, since, segments, done);
    while i > 0
      invariant 0 <= i <= |segments|
      invariant events == Walked(parse, since, segments, done, i) && |events| < limit
    {
      i := i - 1;
      WalkStep(parse, since, segments, done, i);
      var event := TrimmedEvent(parse, segments[i]);
      if event.Some? && Wanted(event.value, since) {
        events := events + [event.value];
        if |events| >= limit {
          full := true;
          WalkIsPrefix(parse, since, segments, done, i);
          return;
        }
      }
    }
    WalkIsPrefix(parse, since, segments, done, 0);
  }

  /** What has been collected when the walk has come down to segment i. */
  ghost function Walked(parse: LineParser, since: Option<Time>, segments: seq<seq<byte>>, done: seq<seq<byte>>, i: nat): seq<AuditEvent>
    requires i <= |segments|
  {
    Collect(parse, since, Reverse(segments[i..] + done))
  }

  lemma WalkStart(parse: LineParser, since: Option<Time>, segments: seq<seq<byte>>, done: seq<seq<byte>>)
    ensures Walked(parse, since, segments, done, |segments|) == Collect(parse, since, Reverse(done))
  {
    assert segments[|segments|..] + done == done;
  }

  lemma WalkIsPrefix(parse: LineParser, since: Option<Time>, segments: seq<seq<byte>>, done: seq<seq<byte>>, i: nat)
    requires i <= |segments|
    ensures Walked(parse, since, segments, done, i) <= Collect(parse, since, Reverse(segments + done))
    ensures i == 0 ==> Walked(parse, since, segments, done, i) == Collect(parse, since, Reverse(segments + done))
  {
    assert segments + done == segments[..i] + (segments[i..] + done);
    CollectBackwards(parse, since, segments[..i], segments[i..] + done);
  }

  lemma WalkStep(parse: LineParser, since: Option<Time>, segments: seq<seq<byte>>, done: seq<seq<byte>>, i: nat)
    requires i < |segments|
    ensures Walked(parse, since, segments, done, i)
         == Walked(parse, since, segments, done, i + 1) + IfWanted(TrimmedEvent(parse, segments[i]), since)
  {
    assert segments[i..] + done == [segments[i]] + (segments[i + 1..] + done);
    CollectBackwards(parse, since, [segments[i]], segments[i + 1..] + done);
    OneSegment(parse, since, segments[i]);
  }

  lemma OneSegment(parse: LineParser, since: Option<Time>, segment: seq<byte>)
    ensures Collect(parse, since, [segment]) == IfWanted(TrimmedEvent(parse, segment), since)
    ensures Reverse([segment]) == [segment]
  {
    assert [segment][1..] == [];
  }

  lemma EmptyFile(parse: LineParser, since: Option<Time>)
    ensures Collect(parse, since, Reverse(Split([]))) == []
  {
    OneSegment(parse, since, []);
  }

  /** Once the limit is reached, what lies further left cannot change the answer. */
  lemma EnoughCollected(parse: LineParser, file: seq<byte>, pos: nat, skipped: seq<seq<byte>>, seen: seq<seq<byte>>,
                        since: Option<Time>, limit: nat, events: seq<AuditEvent>)
    requires pos <= |file| && Split(file[pos..]) == skipped + seen && |skipped| == (if pos > 0 then 1 else 0)
    requires |events| == limit && events <= Collect(parse, since, Reverse(seen))
    ensures events == NewestEvents(parse, file, since, limit)
  {
    if pos > 0 {
      var left := Split(file[..pos] + skipped[0]);
      SplitConcat(file[..pos], file[pos..]);
      assert file == file[..pos] + file[pos..];
      assert Split(file[pos..])[0] == skipped[0] && Split(file[pos..])[1..] == seen;
      CollectBackwards(parse, since, left, seen);
    } else {
      assert file[pos..] == file && skipped + seen == seen;
    }
  }

  /** The backward reader sees an event on a segment exactly when the segment is UTF-8 and its text,
      without the whitespace around it, is not empty and parses. */
  lemma TrimmedEventIff(parse: LineParser, segment: seq<byte>, event: AuditEvent)
    ensures TrimmedEvent(parse, segment) == Some(event)
            <==> exists text :: segment == Encode(text) && Visible(text) && parse(Trim(text)) == Some(event)
  {
    hide Visible, Encode, Trim;
    forall text ensures Decode(segment) == Some(text) <==> Encode(text) == segment {
      DecodeIff(segment, text);
    }
    if Decode(segment).Some? {
      VisibleIff(Decode(segment).value);
    }
  }

  // ---------------------------------------------------------------- the forward reader

  /** `BufRead::lines`: a terminated line loses its newline and one carriage return before it; what
      follows the last newline is a line of its own unless empty. */
  function Lines(file: seq<byte>): seq<seq<byte>> {
    LinesOf(Split(file))
  }

  function LinesOf(segments: seq<seq<byte>>): seq<seq<byte>>
    requires segments != []
  {
    if |segments| == 1 then (if segments[0] == [] then [] else segments)
    else [StripReturn(segments[0])] + LinesOf(segments[1..])
  }

  function StripReturn(b: seq<byte>): seq<byte> {
    if b != [] && b[|b| - 1] == CARRIAGE_RETURN then b[..|b| - 1] else b
  }

  /** The lines of a file whose first newline follows `line`: its own, less a carriage return at its
      end, and those of the rest. */
  lemma LinesAre(line: seq<byte>, rest: seq<byte>)
    requires 10 !in line
    ensures forall stripped | line == stripped + [13] :: Lines(line + [10] + rest) == [stripped] + Lines(rest)
    ensures (forall stripped :: line != stripped + [13]) ==> Lines(line + [10] + rest) == [line] + Lines(rest)
    ensures Lines(line) == if line == [] then [] else [line]
  {
    SplitFirst(line, rest);
    SplitWhole(line);
    var segments := Split(line + [10] + rest);
    assert segments[0] == line && segments[1..] == Split(rest);
    assert Lines(line + [10] + rest) == [StripReturn(line)] + Lines(rest);
    if line != [] {
      assert line == line[..|line| - 1] + [line[|line| - 1]];
    }
  }

  lemma {:induction false} SplitFirst(line: seq<byte>, rest: seq<byte>)
    requires 10 !in line
    ensures Split(line + [10] + rest) == [line] + Split(rest)
  {
    if line == [] {
      assert (line + [10] + rest)[1..] == rest;
    } else {
      assert (line + [10] + rest)[1..] == line[1..] + [10] + rest;
      SplitFirst(line[1..], rest);
      assert [line[0]] + line[1..] == line;
      assert ([line[1..]] + Split(rest))[1..] == Split(rest);
    }
  }

  lemma {:induction false} SplitWhole(line: seq<byte>)
    requires 10 !in line
    ensures Split(line) == [line]
  {
    if line != [] {
      SplitWhole(line[1..]);
      assert [line[0]] + line[1..] == line;
    }
  }

  /** The wanted events of whole, untrimmed lines. */
  function CollectLines(parse: LineParser, since: Option<Time>, lines: seq<seq<byte>>): seq<AuditEvent> {
    if lines == [] then []
    else
      var n := |lines| - 1;
      CollectLines(parse, since, lines[..n]) + IfWanted(LineEvent(parse, lines[n]), since)
  }

  function LineEvent(parse: LineParser, line: seq<byte>): Option<AuditEvent> {
    match Decode(line)
    case None => None
    case Some(text) => parse(text)
  }

  lemma LineEventIff(parse: LineParser, line: seq<byte>, event: AuditEvent)
    ensures LineEvent(parse, line) == Some(event) <==> exists text :: line == Encode(text) && parse(text) == Some(event)
  {
    hide Encode;
    forall text ensures Decode(line) == Some(text) <==> Encode(text) == line {
      DecodeIff(line, text);
    }
  }

  predicate AllText(lines: seq<seq<byte>>) {
    forall i | 0 <= i < |lines| :: Decode(lines[i]).Some?
  }

  /** Line i is not UTF-8 and is reached before the limit. */
  predicate StumblesAt(parse: LineParser, since: Option<Time>, lines: seq<seq<byte>>, limit: nat, i: int) {
    0 <= i < |lines| && Decode(lines[i]).None? && |CollectLines(parse, since, lines[..i])| < limit
  }

  lemma {:induction false} CollectLinesGrows(parse: LineParser, since: Option<Time>, lines: seq<seq<byte>>, i: nat)
    requires i <= |lines|
    ensures CollectLines(parse, since, lines[..i]) <= CollectLines(parse, since, lines)
  {
    if i < |lines| {
      var init := lines[..|lines| - 1];
      assert init[..i] == lines[..i];
      CollectLinesGrows(parse, since, init, i);
    } else {
      assert lines[..i] == lines;
    }
  }

  /** The `OldestFirst` branch of `read_events`: an ill-formed line is an error, not skipped. */
  method ReadOldestFirst(parse: LineParser, file: seq<byte>, limit: nat, since: Option<Time>)
    returns (r: Result<seq<AuditEvent>, IoError>)
    requires limit >= 1
    ensures r.Err? <==> exists i :: StumblesAt(parse, since, Lines(file), limit, i)
    ensures r.Ok? ==> r.value == Take(CollectLines(parse, since, Lines(file)), limit)
    ensures r.Ok? ==> |r.value| <= limit && NoneBefore(r.value, since)
  {
    var lines := Lines(file);
    CollectLinesNoneBefore(parse, since, lines);
    var events: seq<AuditEvent> := [];
    assert lines[..0] == [];
    for i := 0 to |lines|
      invariant events == CollectLines(parse, since, lines[..i]) && |events| < limit
      invariant AllText(lines[..i])
    {
      LineStep(parse, since, lines, i);
      var text := Decode(lines[i]);
      if text.None? {
        assert StumblesAt(parse, since, lines, limit, i);
        return Err(InvalidData);
      }
      var event := parse(text.value);
      if event.Some? && Wanted(event.value, since) {
        events := events + [event.value];
        if |events| >= limit {
          LimitReached(parse, since, lines, limit, i + 1);
          return Ok(events);
        }
      }
    }
    assert lines[..|lines|] == lines;
    NeverStumbles(parse, since, lines, limit);
    return Ok(events);
  }

  lemma NeverStumbles(parse: LineParser, since: Option<Time>, lines: seq<seq<byte>>, limit: nat)
    requires AllText(lines)
    ensures forall i :: !StumblesAt(parse, since, lines, limit, i)
  {
  }

  lemma LineStep(parse: LineParser, since: Option<Time>, lines: seq<seq<byte>>, i: nat)
    requires i < |lines| && AllText(lines[..i])
    ensures var text := Decode(lines[i]);
            text.Some? ==>
              AllText(lines[..i + 1])
              && CollectLines(parse, since, lines[..i + 1])
                 == CollectLines(parse, since, lines[..i]) + IfWanted(parse(text.value), since)
  {
    assert lines[..i + 1] == lines[..i] + [lines[i]];
    assert lines[..i + 1][..i] == lines[..i];
  }

  lemma LimitReached(parse: LineParser, since: Option<Time>, lines: seq<seq<byte>>, limit: nat, n: nat)
    requires n <= |lines| && |CollectLines(parse, since, lines[..n])| == limit
    requires AllText(lines[..n])
    ensures CollectLines(parse, since, lines[..n]) == Take(CollectLines(parse, since, lines), limit)
    ensures forall i :: !StumblesAt(parse, since, lines, limit, i)
  {
    CollectLinesGrows(parse, since, lines, n);
    assert forall i | 0 <= i < n :: lines[..n][i] == lines[i];
    forall i | n <= i < |lines| ensures |CollectLines(parse, since, lines[..i])| >= limit {
      assert lines[..i][..n] == lines[..n];
      CollectLinesGrows(parse, since, lines[..i], n);
    }
  }

  /** `read_events`: a missing file and a zero limit both read as empty. */
  method ReadEvents(parse: LineParser, file: Option<seq<byte>>, query: AuditQuery)
    returns (r: Result<seq<AuditEvent>, IoError>)
    ensures file.None? || query.limit == 0 ==> r == Ok([])
    ensures file.Some? && query.order.NewestFirst? ==> r == Ok(NewestEvents(parse, file.value, query.since, query.limit))
    ensures file.Some? && query.order.OldestFirst? ==>
              (r.Err? <==> exists i :: StumblesAt(parse, query.since, Lines(file.value), query.limit, i))
              && (r.Ok? ==> r.value == Take(CollectLines(parse, query.since, Lines(file.value)), query.limit))
    ensures r.Ok? ==> |r.value| <= query.limit && NoneBefore(r.value, query.since)
  {
    if file.None? {
      return Ok([]);
    }
    if query.limit == 0 {
      return Ok([]);
    }
    match query.order {
      case OldestFirst =>
        r := ReadOldestFirst(parse, file.value, query.limit, query.since);
      case NewestFirst =>
        var events := ReadNewestFirst(parse, file.value, CHUNK, query.limit, query.since);
        r := Ok(events);
    }
  }

  // ---------------------------------------------------------------- the two orders

  const RETURN: char := 13 as char

  predicate IsJsonSpace(c: char) {
    c == ' ' || c == 9 as char || c == 10 as char || c == RETURN
  }

  /** What a line parser owes to JSON: the four JSON whitespace characters around a value do not
      matter, any other whitespace there is an error, and the empty text is not a value. */
  ghost predicate JsonParser(parse: LineParser) {
    parse("") == None
    && (forall c, t | IsJsonSpace(c) :: parse([c] + t) == parse(t) && parse(t + [c]) == parse(t))
    && (forall c, t | IsWhitespace(c) && !IsJsonSpace(c) :: parse([c] + t) == None && parse(t + [c]) == None)
  }

  /** The whitespace around the text is JSON's. */
  predicate PlainlyPadded(t: string) {
    if t != "" && IsWhitespace(t[0]) then IsJsonSpace(t[0]) && PlainlyPadded(t[1..])
    else PlainlyEnded(t)
  }

  predicate PlainlyEnded(t: string) {
    t != "" && IsWhitespace(t[|t| - 1]) ==> IsJsonSpace(t[|t| - 1]) && PlainlyEnded(t[..|t| - 1])
  }

  lemma {:induction false} ParsedAsTrimmedEnd(parse: LineParser, t: string)
    requires JsonParser(parse)
    ensures parse(t) == if PlainlyEnded(t) then parse(TrimEnd(t)) else None
  {
    if t != "" && IsWhitespace(t[|t| - 1]) {
      ParsedAsTrimmedEnd(parse, t[..|t| - 1]);
      assert t == t[..|t| - 1] + [t[|t| - 1]];
    }
  }

  lemma {:induction false} ParsedAsTrimmed(parse: LineParser, t: string)
    requires JsonParser(parse)
    ensures parse(t) == if PlainlyPadded(t) then parse(Trim(t)) else None
  {
    if t != "" && IsWhitespace(t[0]) {
      ParsedAsTrimmed(parse, t[1..]);
      assert t == [t[0]] + t[1..];
    } else {
      ParsedAsTrimmedEnd(parse, t);
    }
  }

  lemma {:induction false} TrimStartBeforeReturn(t: string)
    ensures TrimStart(t + [RETURN]) == if TrimStart(t) == "" then "" else TrimStart(t) + [RETURN]
  {
    var u := t + [RETURN];
    if t == "" {
      assert u == [RETURN] && u[1..] == "";
    } else {
      assert u[0] == t[0] && u[1..] == t[1..] + [RETURN];
      if IsWhitespace(t[0]) {
        TrimStartBeforeReturn(t[1..]);
      }
    }
  }

  lemma TrimIgnoresReturn(t: string)
    ensures Trim(t + [RETURN]) == Trim(t)
  {
    TrimStartBeforeReturn(t);
    var u := TrimStart(t) + [RETURN];
    assert u[..|u| - 1] == TrimStart(t);
  }

  lemma EncodedReturn(s: string)
    ensures Encode(s + [RETURN]) == Encode(s) + [CARRIAGE_RETURN]
  {
    EncodeConcat(s, [RETURN]);
    assert [RETURN][1..] == "";
    assert Encode([RETURN]) == EncodeChar(RETURN) + Encode("");
  }

  lemma {:induction false} LastByteIsReturn(s: string)
    requires Encode(s) != [] && Encode(s)[|Encode(s)| - 1] == CARRIAGE_RETURN
    ensures s != "" && s[|s| - 1] == RETURN
  {
    if |s| == 1 {
      assert Encode(s) == EncodeChar(s[0]) + Encode("");
    } else {
      var rest := Encode(s[1..]);
      assert Encode(s) == EncodeChar(s[0]) + rest;
      LastByteIsReturn(s[1..]);
    }
  }

  /** A line with a carriage return at its end is UTF-8 exactly if it is so without, and says the
      same but for that character. */
  lemma ReturnDecodes(line: seq<byte>)
    ensures Decode(line + [CARRIAGE_RETURN])
            == if Decode(line).Some? then Some(Decode(line).value + [RETURN]) else None
  {
    hide Decode, Encode;
    var b := line + [CARRIAGE_RETURN];
    if Decode(line).Some? {
      var t := Decode(line).value;
      DecodeIff(line, t);
      EncodedReturn(t);
      DecodeEncoded(t + [RETURN]);
    } else if Decode(b).Some? {
      var u := Decode(b).value;
      DecodeIff(b, u);
      LastByteIsReturn(u);
      var t := u[..|u| - 1];
      assert u == t + [RETURN];
      EncodedReturn(t);
      assert line == b[..|b| - 1] == Encode(t);
      DecodeEncoded(t);
    }
  }

  /** Stripping a carriage return makes no difference to the backward reader. */
  lemma StrippedReadsAlike(parse: LineParser, segment: seq<byte>)
    ensures TrimmedEvent(parse, StripReturn(segment)) == TrimmedEvent(parse, segment)
  {
    var line := StripReturn(segment);
    if line != segment {
      assert segment == line + [CARRIAGE_RETURN];
      ReturnDecodes(line);
      if Decode(line).Some? {
        TrimIgnoresReturn(Decode(line).value);
      }
    }
  }

  lemma {:induction false} SegmentsAsLines(parse: LineParser, since: Option<Time>, segments: seq<seq<byte>>)
    requires segments != []
    ensures Collect(parse, since, LinesOf(segments)) == Collect(parse, since, segments)
  {
    StrippedReadsAlike(parse, segments[0]);
    if |segments| == 1 {
      OneSegment(parse, since, segments[0]);
      assert segments == [segments[0]];
    } else {
      SegmentsAsLines(parse, since, segments[1..]);
      var line, rest := StripReturn(segments[0]), LinesOf(segments[1..]);
      assert ([line] + rest)[1..] == rest;
    }
  }

  /** What the backward reader returns, in terms of the forward reader's lines. */
  lemma NewestOfLines(parse: LineParser, file: seq<byte>, since: Option<Time>, limit: nat)
    ensures NewestEvents(parse, file, since, limit) == Take(Reverse(Collect(parse, since, Lines(file))), limit)
  {
    SegmentsAsLines(parse, since, Split(file));
    CollectReversed(parse, since, Split(file));
  }

  /** A line with a wanted event and, around it, whitespace that JSON does not know. */
  predicate OddlyPadded(parse: LineParser, since: Option<Time>, line: seq<byte>) {
    Decode(line).Some? && !PlainlyPadded(Decode(line).value)
    && TrimmedEvent(parse, line).Some? && Wanted(TrimmedEvent(parse, line).value, since)
  }

  predicate NoneOddlyPadded(parse: LineParser, since: Option<Time>, lines: seq<seq<byte>>) {
    forall i | 0 <= i < |lines| :: !OddlyPadded(parse, since, lines[i])
  }

  /** The forward reader finds on a line what the backward one finds, except on an oddly padded one. */
  lemma LineComparison(parse: LineParser, since: Option<Time>, line: seq<byte>)
    requires JsonParser(parse) && Decode(line).Some?
    ensures var forward, backward := IfWanted(LineEvent(parse, line), since), IfWanted(TrimmedEvent(parse, line), since);
            if OddlyPadded(parse, since, line) then forward == [] && |backward| == 1 else forward == backward
  {
    ParsedAsTrimmed(parse, Decode(line).value);
  }

  /** There are such lines: an event behind a no-break space is found by the backward reader only. */
  lemma NoBreakSpaceSplitsReaders(parse: LineParser, since: Option<Time>, text: string)
    requires JsonParser(parse) && Trim(text) == text
    requires parse(text).Some? && Wanted(parse(text).value, since)
    ensures var line := Encode([0xA0 as char] + text);
            OddlyPadded(parse, since, line) && LineEvent(parse, line) == None && TrimmedEvent(parse, line) == parse(text)
  {
    var padded := [0xA0 as char] + text;
    DecodeEncoded(padded);
    assert padded[0] == 0xA0 as char && padded[1..] == text;
    TrimKept(text);
  }

  lemma TrimKept(text: string)
    requires Trim(text) == text
    ensures TrimStart(text) == text
  {
    TrimShortens(TrimStart(text));
    TrimStartShortens(text);
  }

  lemma TrimShortens(s: string)
    ensures |TrimEnd(s)| <= |s|
  {
  }

  lemma TrimStartShortens(s: string)
    ensures |TrimStart(s)| <= |s| && (|TrimStart(s)| == |s| ==> TrimStart(s) == s)
  {
  }

  lemma {:induction false} LinesComparison(parse: LineParser, since: Option<Time>, lines: seq<seq<byte>>)
    requires JsonParser(parse) && AllText(lines)
    ensures |CollectLines(parse, since, lines)| <= |Collect(parse, since, lines)|
    ensures if NoneOddlyPadded(parse, since, lines) then CollectLines(parse, since, lines) == Collect(parse, since, lines)
            else |CollectLines(parse, since, lines)| < |Collect(parse, since, lines)|
  {
    hide LineEvent, TrimmedEvent, OddlyPadded, JsonParser;
    if lines != [] {
      var n := |lines| - 1;
      var init, last := lines[..n], lines[n];
      assert lines == init + [last];
      LinesComparison(parse, since, init);
      LineComparison(parse, since, last);
      CollectConcat(parse, since, init, [last]);
      OneSegment(parse, since, last);
      assert NoneOddlyPadded(parse, since, lines) <==> NoneOddlyPadded(parse, since, init) && !OddlyPadded(parse, since, last);
    }
  }

  /** Read in full, a log comes out the same both ways round, and the forward reader does not fail,
      exactly when all its lines are UTF-8 and none with a wanted event has whitespace around it
      that JSON does not know. */
  lemma ReadersAgreeIff(parse: LineParser, file: seq<byte>, since: Option<Time>, limit: nat)
    requires JsonParser(parse) && limit > |CollectLines(parse, since, Lines(file))|
    ensures (forall i :: !StumblesAt(parse, since, Lines(file), limit, i))
            && NewestEvents(parse, file, since, limit) == Reverse(CollectLines(parse, since, Lines(file)))
            <==> AllText(Lines(file)) && NoneOddlyPadded(parse, since, Lines(file))
  {
    var lines := Lines(file);
    NewestOfLines(parse, file, since, limit);
    if AllText(lines) {
      NeverStumbles(parse, since, lines, limit);
      LinesComparison(parse, since, lines);
    } else {
      var i :| 0 <= i < |lines| && Decode(lines[i]).None?;
      CollectLinesGrows(parse, since, lines, i);
      assert StumblesAt(parse, since, lines, limit, i);
    }
  }

  lemma SingleLine(parse: LineParser, since: Option<Time>, line: seq<byte>)
    ensures CollectLines(parse, since, [line]) == IfWanted(LineEvent(parse, line), since)
  {
    assert [line][..0] == [];
  }

  lemma {:induction false} CollectLinesConcat(parse: LineParser, since: Option<Time>, xs: seq<seq<byte>>, ys: seq<seq<byte>>)
    ensures CollectLines(parse, since, xs + ys) == CollectLines(parse, since, xs) + CollectLines(parse, since, ys)
  {
    if ys == [] {
      assert xs + ys == xs;
    } else {
      var n := |ys| - 1;
      var last := IfWanted(LineEvent(parse, ys[n]), since);
      CollectLinesConcat(parse, since, xs, ys[..n]);
      assert (xs + ys)[..|xs + ys| - 1] == xs + ys[..n] && (xs + ys)[|xs + ys| - 1] == ys[n];
      assert CollectLines(parse, since, xs + ys) == CollectLines(parse, since, xs + ys[..n]) + last;
      assert CollectLines(parse, since, ys) == CollectLines(parse, since, ys[..n]) + last;
    }
  }

  lemma {:induction false} CollectReversed(parse: LineParser, since: Option<Time>, segments: seq<seq<byte>>)
    ensures Collect(parse, since, Reverse(segments)) == Reverse(Collect(parse, since, segments))
  {
    if segments != [] {
      CollectReversed(parse, since, segments[1..]);
      CollectConcat(parse, since, Reverse(segments[1..]), [segments[0]]);
      OneSegment(parse, since, segments[0]);
      assert Reverse([segments[0]]) == [segments[0]];
      var head := Collect(parse, since, [segments[0]]);
      ReverseConcat(head, Collect(parse, since, segments[1..]));
      assert Reverse(head) == head;
      assert Collect(parse, since, segments) == head + Collect(parse, since, segments[1..]) by {
        assert segments == [segments[0]] + segments[1..];
        CollectConcat(parse, since, [segments[0]], segments[1..]);
      }
    }
  }

  /** Contrary to the backward reader's comment, the two do not skip ill-formed lines alike: on
      such a line the forward reader fails where the backward one carries on. */
  lemma IllFormedLineSplitsReaders(parse: LineParser, limit: nat)
    requires limit >= 1
    ensures StumblesAt(parse, None, Lines([0xFF, NEWLINE]), limit, 0)
    ensures NewestEvents(parse, [0xFF, NEWLINE], None, limit) == []
  {
    var file: seq<byte> := [0xFF, NEWLINE];
    var bad: seq<byte> := [0xFF];
    var none: seq<byte> := [];
    assert file[1..] == [NEWLINE] && file[1..][1..] == [];
    assert Split(file[1..]) == [none, none];
    assert Split(file) == PutBefore(file[0], Split(file[1..]));
    assert bad == [file[0]] + none;
    assert Split(file) == [bad, none];
    assert Split(file)[1..] == [none];
    assert Lines(file) == [StripReturn(bad)] + LinesOf([none]) == [bad];
    assert Lines(file)[..0] == [];
    assert Decode(bad).None?;
    CollectBackwards(parse, None, [bad], [none]);
    assert [bad, none] == [bad] + [none];
    OneSegment(parse, None, bad);
    OneSegment(parse, None, none);
  }
}
