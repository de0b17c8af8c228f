/** The JSON value tree and its compact printing (serde_json's `to_string`), with a parser
    that inverts it. Numbers are integers: the signed structs hold no other kind. */
module Json {
  import opened Wrappers

  datatype Value =
    | Null
    | Bool(b: bool)
    | Num(n: int)
    | Str(s: string)
    | Array(elems: seq<Value>)
    | Object(entries: seq<Entry>)

  datatype Entry = Entry(key: string, value: Value)

  // ---------------------------------------------------------------- printing

  function Digit(d: int): char
    requires 0 <= d < 16
  {
    "0123456789abcdef"[d]
  }

  function PrintNat(n: nat): (s: string)
    ensures s != "" && IsDigit(s[0])
  {
    if n < 10 then [Digit(n)] else PrintNat(n / 10) + [Digit(n % 10)]
  }

  function PrintInt(n: int): string {
    if n < 0 then "-" + PrintNat(-n) else PrintNat(n)
  }

  /** Section 7 of RFC 8259: the quotation mark, the backslash and the control characters
      are escaped, the last ones by their short form where there is one. */
  function EscapeChar(c: char): (s: string)
    ensures s != "" && s[0] != '"'
  {
    if c == '"' then "\\\""
    else if c == '\\' then "\\\\"
    else if c == 8 as char then "\\b"
    else if c == 9 as char then "\\t"
    else if c == 10 as char then "\\n"
    else if c == 12 as char then "\\f"
    else if c == 13 as char then "\\r"
    else if c < 32 as char then "\\u00" + [Digit(c as int / 16), Digit(c as int % 16)]
    else [c]
  }

  function Escape(s: string): string {
    if s == "" then "" else EscapeChar(s[0]) + Escape(s[1..])
  }

  function Quote(s: string): string {
    "\"" + Escape(s) + "\""
  }

  function Print(v: Value): string
    decreases v, 1
  {
    match v
    case Null => "null"
    case Bool(b) => if b then "true" else "false"
    case Num(n) => PrintInt(n)
    case Str(s) => Quote(s)
    case Array(xs) => "[" + PrintElems(xs) + "]"
    case Object(es) => "{" + PrintEntries(es) + "}"
  }

  function PrintElems(xs: seq<Value>): string
    decreases xs, 0
  {
    if xs == [] then ""
    else if |xs| == 1 then Print(xs[0])
    else Print(xs[0]) + "," + PrintElems(xs[1..])
  }

  function PrintEntry(e: Entry): string
    decreases e, 2
  {
    Quote(e.key) + ":" + Print(e.value)
  }

  function PrintEntries(es: seq<Entry>): string
    decreases es, 0
  {
    if es == [] then ""
    else if |es| == 1 then PrintEntry(es[0])
    else PrintEntry(es[0]) + "," + PrintEntries(es[1..])
  }

  /** Only what must be escaped is, and by the short form where there is one. */
  lemma EscapedIff(c: char)
    ensures EscapeChar(c) == [c] <==> c != '"' && c != '\\' && c as int >= 32
    ensures |EscapeChar(c)| == 2 <==> c in ['"', '\\'] || c as int in [8, 9, 10, 12, 13]
    ensures |EscapeChar(c)| in [1, 2, 6]
  {
  }

  /** An integer is printed in the shortest way: a sign only before a negative one, no leading zero. */
  lemma {:induction false} NoLeadingZero(n: nat)
    ensures PrintNat(n)[0] == '0' <==> n == 0
    ensures n == 0 ==> PrintNat(n) == "0"
  {
    if n >= 10 {
      NoLeadingZero(n / 10);
    }
  }

  lemma IntIsShortest(n: int)
    ensures PrintInt(n)[0] == '-' <==> n < 0
    ensures var digits := if n < 0 then PrintInt(n)[1..] else PrintInt(n);
            digits != "" && (digits[0] == '0' ==> digits == "0" && n == 0)
  {
    NoLeadingZero(if n < 0 then -n else n);
  }

  // ---------------------------------------------------------------- parsing

  /** A value read off the front of a text, and the text after it. */
  datatype Parsed<+T> = Reject | Accept(value: T, rest: string)

  predicate IsDigit(c: char) {
    '0' <= c <= '9'
  }

  predicate StartsWithDigit(s: string) {
    s != "" && IsDigit(s[0])
  }

  function HexValue(c: char): Option<int> {
    if '0' <= c <= '9' then Some(c as int - '0' as int)
    else if 'a' <= c <= 'f' then Some(c as int - 'a' as int + 10)
    else None
  }

  /** Reads digits to the end of their run, most significant first. */
  function ParseNat(s: string, acc: nat): (nat, string) {
    if StartsWithDigit(s) then ParseNat(s[1..], acc * 10 + (s[0] as int - '0' as int)) else (acc, s)
  }

  function ParseInt(s: string): (r: Parsed<int>)
    ensures r.Accept? ==> |r.rest| < |s|
  {
    if s != "" && s[0] == '-' && StartsWithDigit(s[1..]) then
      ParseNatShrinks(s[1..], 0);
      var (n, rest) := ParseNat(s[1..], 0);
      Accept(-(n as int), rest)
    else if StartsWithDigit(s) then
      ParseNatShrinks(s, 0);
      var (n, rest) := ParseNat(s, 0);
      Accept(n, rest)
    else Reject
  }

  lemma ParseNatShrinks(s: string, acc: nat)
    ensures |ParseNat(s, acc).1| <= |s| && (StartsWithDigit(s) ==> |ParseNat(s, acc).1| < |s|)
  {
  }

  function ParseEscape(s: string): (r: Parsed<char>)
    ensures r.Accept? ==> |r.rest| < |s|
  {
    if s == "" then Reject
    else if s[0] in ['"', '\\', '/'] then Accept(s[0], s[1..])
    else if s[0] == 'b' then Accept(8 as char, s[1..])
    else if s[0] == 't' then Accept(9 as char, s[1..])
    else if s[0] == 'n' then Accept(10 as char, s[1..])
    else if s[0] == 'f' then Accept(12 as char, s[1..])
    else if s[0] == 'r' then Accept(13 as char, s[1..])
    else if |s| >= 5 && s[..3] == "u00" && HexValue(s[3]).Some? && HexValue(s[4]).Some? then
      Accept((HexValue(s[3]).value * 16 + HexValue(s[4]).value) as char, s[5..])
    else Reject
  }

  /** The text up to the closing quotation mark; the opening one has been read. */
  function ParseString(s: string): (r: Parsed<string>)
    ensures r.Accept? ==> |r.rest| < |s|
    decreases |s|
  {
    if s == "" then Reject
    else if s[0] == '"' then Accept("", s[1..])
    else if s[0] == '\\' then
      match ParseEscape(s[1..])
      case Reject => Reject
      case Accept(c, rest) => Prepend(c, ParseString(rest))
    else Prepend(s[0], ParseString(s[1..]))
  }

  function Prepend(c: char, r: Parsed<string>): Parsed<string> {
    if r.Reject? then Reject else Accept([c] + r.value, r.rest)
  }

  function ParseLiteral(s: string, literal: string, v: Value): (r: Parsed<Value>)
    requires literal != ""
    ensures r.Accept? ==> |r.rest| < |s|
  {
    if literal <= s then Accept(v, s[|literal|..]) else Reject
  }

  function ParseValue(s: string): (r: Parsed<Value>)
    ensures r.Accept? ==> |r.rest| < |s|
    decreases |s|, 0
  {
    if s == "" then Reject
    else if s[0] == 'n' then ParseLiteral(s, "null", Null)
    else if s[0] == 't' then ParseLiteral(s, "true", Bool(true))
    else if s[0] == 'f' then ParseLiteral(s, "false", Bool(false))
    else if s[0] == '"' then
      match ParseString(s[1..])
      case Reject => Reject
      case Accept(t, rest) => Accept(Str(t), rest)
    else if s[0] == '[' then
      if "[]" <= s then Accept(Array([]), s[2..])
      else
        match ParseElems(s[1..])
        case Reject => Reject
        case Accept(xs, rest) => Accept(Array(xs), rest)
    else if s[0] == '{' then
      if "{}" <= s then Accept(Object([]), s[2..])
      else
        match ParseEntries(s[1..])
        case Reject => Reject
        case Accept(es, rest) => Accept(Object(es), rest)
    else
      match ParseInt(s)
      case Reject => Reject
      case Accept(n, rest) => Accept(Num(n), rest)
  }

  /** One or more elements and the closing bracket. */
  function ParseElems(s: string): (r: Parsed<seq<Value>>)
    ensures r.Accept? ==> |r.rest| < |s|
    decreases |s|, 1
  {
    match ParseValue(s)
    case Reject => Reject
    case Accept(v, rest) =>
      if rest != "" && rest[0] == ']' then Accept([v], rest[1..])
      else if rest != "" && rest[0] == ',' then
        match ParseElems(rest[1..])
        case Reject => Reject
        case Accept(vs, tail) => Accept([v] + vs, tail)
      else Reject
  }

  function ParseEntry(s: string): (r: Parsed<Entry>)
    ensures r.Accept? ==> |r.rest| < |s|
    decreases |s|, 1
  {
    if s == "" || s[0] != '"' then Reject
    else
      match ParseString(s[1..])
      case Reject => Reject
      case Accept(key, rest) =>
        if rest == "" || rest[0] != ':' then Reject
        else
          match ParseValue(rest[1..])
          case Reject => Reject
          case Accept(v, tail) => Accept(Entry(key, v), tail)
  }

  /** One or more entries and the closing brace. */
  function ParseEntries(s: string): (r: Parsed<seq<Entry>>)
    ensures r.Accept? ==> |r.rest| < |s|
    decreases |s|, 2
  {
    match ParseEntry(s)
    case Reject => Reject
    case Accept(e, rest) =>
      if rest != "" && rest[0] == '}' then Accept([e], rest[1..])
      else if rest != "" && rest[0] == ',' then
        match ParseEntries(rest[1..])
        case Reject => Reject
        case Accept(es, tail) => Accept([e] + es, tail)
      else Reject
  }

  // ---------------------------------------------------------------- printing is uniquely readable

  lemma {:induction false} NatReadBack(n: nat, rest: string)
    ensures ParseNat(PrintNat(n) + rest, 0) == ParseNat(rest, n)
  {
    var s := PrintNat(n) + rest;
    if n < 10 {
      assert s[1..] == rest;
    } else {
      var t := [Digit(n % 10)] + rest;
      assert s == PrintNat(n / 10) + t;
      NatReadBack(n / 10, t);
      assert t[1..] == rest;
    }
  }

  lemma DigitsReadBack(n: nat, rest: string)
    requires !StartsWithDigit(rest)
    ensures StartsWithDigit(PrintNat(n) + rest)
    ensures ParseNat(PrintNat(n) + rest, 0) == (n, rest)
  {
    NatReadBack(n, rest);
  }

  lemma IntReadBack(n: int, rest: string)
    requires !StartsWithDigit(rest)
    ensures ParseInt(PrintInt(n) + rest) == Accept(n, rest)
  {
    var m: nat := if n < 0 then -n else n;
    var digits := PrintNat(m);
    DigitsReadBack(m, rest);
    if n < 0 {
      var s := "-" + digits + rest;
      assert s[1..] == digits + rest;
    } else {
      assert (digits + rest)[0] != '-';
    }
  }

  lemma EscapeReadBack(c: char, rest: string)
    ensures EscapeChar(c)[0] == '\\' ==> ParseEscape((EscapeChar(c) + rest)[1..]) == Accept(c, rest)
    ensures EscapeChar(c)[0] != '\\' ==> EscapeChar(c) == [c]
  {
    var s := (EscapeChar(c) + rest)[1..];
    if c < 32 as char && c !in [8 as char, 9 as char, 10 as char, 12 as char, 13 as char] {
      assert s[..3] == "u00";
      assert s[5..] == rest;
    } else if EscapeChar(c)[0] == '\\' {
      assert s[1..] == rest;
    }
  }

  lemma ParseStringStep(c: char, tail: string)
    ensures ParseString(EscapeChar(c) + tail) == Prepend(c, ParseString(tail))
  {
    EscapeReadBack(c, tail);
    var text := EscapeChar(c) + tail;
    assert text[0] == EscapeChar(c)[0];
    assert EscapeChar(c) == [c] ==> text[1..] == tail;
    hide EscapeChar, ParseEscape;
  }

  lemma {:induction false} StringReadBack(s: string, rest: string)
    ensures ParseString(Escape(s) + "\"" + rest) == Accept(s, rest)
  {
    if s == "" {
      assert ("\"" + rest)[1..] == rest;
      assert Escape(s) + "\"" + rest == "\"" + rest;
    } else {
      hide ParseString, EscapeChar;
      var tail := Escape(s[1..]) + "\"" + rest;
      assert Escape(s) + "\"" + rest == EscapeChar(s[0]) + tail;
      ParseStringStep(s[0], tail);
      StringReadBack(s[1..], rest);
      assert s == [s[0]] + s[1..];
    }
  }

  lemma FirstCharacter(v: Value)
    ensures Print(v) != ""
    ensures Print(v)[0] !in [']', '}', ',', ':']
    ensures v.Array? || v.Object? || v.Str? ==> Print(v)[0] == (if v.Array? then '[' else if v.Object? then '{' else '"')
    ensures v.Num? ==> Print(v)[0] == '-' || IsDigit(Print(v)[0])
  {
  }

  lemma ParseArrayStep(s: string, xs: seq<Value>, rest: string)
    requires |s| >= 2 && s[0] == '[' && s[1] != ']' && ParseElems(s[1..]) == Accept(xs, rest)
    ensures ParseValue(s) == Accept(Array(xs), rest)
  {
    hide ParseElems;
    assert "[]"[1] == ']';
  }

  lemma ParseObjectStep(s: string, es: seq<Entry>, rest: string)
    requires |s| >= 2 && s[0] == '{' && s[1] != '}' && ParseEntries(s[1..]) == Accept(es, rest)
    ensures ParseValue(s) == Accept(Object(es), rest)
  {
    hide ParseEntries;
    assert "{}"[1] == '}';
  }

  /** Literals, numbers and texts, and the two empty collections. */
  lemma SimpleReadBack(v: Value, s: string, rest: string)
    requires s == Print(v) + rest
    requires v.Null? || v.Bool? || (v.Num? && !StartsWithDigit(rest)) || v.Str? || v == Array([]) || v == Object([])
    ensures ParseValue(s) == Accept(v, rest)
  {
    FirstCharacter(v);
    assert s[0] == Print(v)[0];
    hide ParseString, ParseInt, Escape, ParseElems, ParseEntries;
    match v {
      case Null => assert s[..4] == "null";
      case Bool(b) => assert s[..|Print(v)|] == Print(v);
      case Num(n) => IntReadBack(n, rest);
      case Str(t) =>
        assert s[1..] == Escape(t) + "\"" + rest;
        StringReadBack(t, rest);
      case Array(xs) => assert s == "[]" + rest;
      case Object(es) => assert s == "{}" + rest;
    }
  }

  /** A printed value is read back whole, whatever follows it, unless digits run on. */
  lemma {:induction false} ReadBack(v: Value, s: string, rest: string)
    requires s == Print(v) + rest
    requires v.Num? ==> !StartsWithDigit(rest)
    ensures ParseValue(s) == Accept(v, rest)
    decreases v, 1
  {
    if v.Array? && v.elems != [] {
      hide ParseValue, ParseElems;
      var xs := v.elems;
      FirstCharacter(xs[0]);
      assert s[1..] == PrintElems(xs) + "]" + rest;
      assert s[1] == Print(xs[0])[0];
      ElemsReadBack(xs, s[1..], rest);
      ParseArrayStep(s, xs, rest);
    } else if v.Object? && v.entries != [] {
      hide ParseValue, ParseEntries;
      var es := v.entries;
      assert s[1..] == PrintEntries(es) + "}" + rest;
      assert s[1] == '"';
      EntriesReadBack(es, s[1..], rest);
      ParseObjectStep(s, es, rest);
    } else {
      SimpleReadBack(v, s, rest);
    }
  }

  lemma ParseElemsStep(s: string, x: Value, more: string)
    requires ParseValue(s) == Accept(x, "," + more)
    ensures var r := ParseElems(more);
            ParseElems(s) == if r.Accept? then Accept([x] + r.value, r.rest) else Reject
  {
    hide ParseValue;
    assert ("," + more)[1..] == more;
  }

  lemma ParseLastElem(s: string, x: Value, rest: string)
    requires ParseValue(s) == Accept(x, "]" + rest)
    ensures ParseElems(s) == Accept([x], rest)
  {
    hide ParseValue;
    assert ("]" + rest)[1..] == rest;
  }

  lemma {:induction false} ElemsReadBack(xs: seq<Value>, s: string, rest: string)
    requires xs != [] && s == PrintElems(xs) + "]" + rest
    ensures ParseElems(s) == Accept(xs, rest)
    decreases xs, 0
  {
    hide ParseValue, ParseElems, Print;
    if |xs| == 1 {
      assert s == Print(xs[0]) + ("]" + rest);
      ReadBack(xs[0], s, "]" + rest);
      ParseLastElem(s, xs[0], rest);
      assert xs == [xs[0]];
    } else {
      var more := PrintElems(xs[1..]) + "]" + rest;
      Regroup(Print(xs[0]), PrintElems(xs[1..]), "]", rest);
      ReadBack(xs[0], s, "," + more);
      ElemsReadBack(xs[1..], more, rest);
      ParseElemsStep(s, xs[0], more);
      assert xs == [xs[0]] + xs[1..];
    }
  }

  lemma {:induction false} EntryReadBack(e: Entry, s: string, rest: string)
    requires s == PrintEntry(e) + rest && !StartsWithDigit(rest)
    ensures ParseEntry(s) == Accept(e, rest)
    decreases e, 2
  {
    var value := Print(e.value) + rest;
    EntryPieces(e, rest);
    StringReadBack(e.key, ":" + value);
    ReadBack(e.value, value, rest);
    ParseEntryStep(s, e.key, value);
  }

  lemma EntryPieces(e: Entry, rest: string)
    ensures var s := PrintEntry(e) + rest;
            s[0] == '"' && s[1..] == Escape(e.key) + "\"" + (":" + (Print(e.value) + rest))
  {
    hide Escape, Print;
  }

  lemma ParseEntryStep(s: string, key: string, value: string)
    requires s != "" && s[0] == '"' && ParseString(s[1..]) == Accept(key, ":" + value)
    ensures var v := ParseValue(value);
            ParseEntry(s) == if v.Accept? then Accept(Entry(key, v.value), v.rest) else Reject
  {
    hide ParseString, ParseValue;
    assert (":" + value)[1..] == value;
  }

  lemma PrintEntriesSplit(es: seq<Entry>, rest: string, more: string)
    requires |es| > 1 && more == PrintEntries(es[1..]) + "}" + rest
    ensures PrintEntries(es) + "}" + rest == PrintEntry(es[0]) + ("," + more)
  {
    Regroup(PrintEntry(es[0]), PrintEntries(es[1..]), "}", rest);
  }

  lemma Regroup(a: string, b: string, c: string, d: string)
    ensures a + "," + b + c + d == a + ("," + (b + c + d))
  {
  }

  lemma ParseEntriesStep(s: string, e: Entry, more: string, es: seq<Entry>, rest: string)
    requires ParseEntry(s) == Accept(e, "," + more)
    requires ParseEntries(more) == Accept(es, rest)
    ensures ParseEntries(s) == Accept([e] + es, rest)
  {
    hide ParseEntry;
    assert ("," + more)[1..] == more;
  }

  lemma ParseLastEntry(s: string, e: Entry, rest: string)
    requires ParseEntry(s) == Accept(e, "}" + rest)
    ensures ParseEntries(s) == Accept([e], rest)
  {
    hide ParseEntry;
    assert ("}" + rest)[1..] == rest;
  }

  lemma {:induction false} EntriesReadBack(es: seq<Entry>, s: string, rest: string)
    requires es != [] && s == PrintEntries(es) + "}" + rest
    ensures ParseEntries(s) == Accept(es, rest)
    decreases es, 0
  {
    hide ParseEntry, ParseEntries, PrintEntry;
    if |es| == 1 {
      assert s == PrintEntry(es[0]) + ("}" + rest);
      EntryReadBack(es[0], s, "}" + rest);
      ParseLastEntry(s, es[0], rest);
      assert es == [es[0]];
    } else {
      var more := PrintEntries(es[1..]) + "}" + rest;
      EntriesReadBack(es[1..], more, rest);
      PrintEntriesSplit(es, rest, more);
      EntryReadBack(es[0], s, "," + more);
      ParseEntriesStep(s, es[0], more, es[1..], rest);
      assert es == [es[0]] + es[1..];
    }
  }

  lemma PrintInjective(v: Value, w: Value)
    requires Print(v) == Print(w)
    ensures v == w
  {
    assert Print(v) == Print(v) + "" && Print(w) == Print(w) + "";
    ReadBack(v, Print(v), "");
    ReadBack(w, Print(w), "");
  }

  // ---------------------------------------------------------------- printing stays on one line

  predicate OneLine(s: string) {
    10 as char !in s
  }

  lemma {:induction false} EscapeOneLine(s: string)
    ensures OneLine(Escape(s))
  {
    if s != "" {
      EscapeOneLine(s[1..]);
      assert OneLine(EscapeChar(s[0]));
    }
  }

  lemma {:induction false} NatOneLine(n: nat)
    ensures OneLine(PrintNat(n))
  {
    if n >= 10 {
      NatOneLine(n / 10);
    }
  }

  /** Newlines inside strings are escaped, so a printed value is one line of a JSONL file. */
  lemma {:induction false} PrintOneLine(v: Value)
    ensures OneLine(Print(v))
    decreases v, 1
  {
    match v {
      case Null =>
      case Bool(b) =>
      case Num(n) => NatOneLine(if n < 0 then -n else n);
      case Str(s) => EscapeOneLine(s);
      case Array(xs) => ElemsOneLine(xs);
      case Object(es) => EntriesOneLine(es);
    }
  }

  lemma {:induction false} ElemsOneLine(xs: seq<Value>)
    ensures OneLine(PrintElems(xs))
    decreases xs, 0
  {
    if xs != [] {
      PrintOneLine(xs[0]);
      ElemsOneLine(xs[1..]);
    }
  }

  lemma {:induction false} EntriesOneLine(es: seq<Entry>)
    ensures OneLine(PrintEntries(es))
    decreases es, 0
  {
    if es != [] {
      EscapeOneLine(es[0].key);
      PrintOneLine(es[0].value);
      EntriesOneLine(es[1..]);
    }
  }
}
