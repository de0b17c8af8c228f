/** Canonical JSON: the bytes that identity documents and delegation tokens are signed over. */
module Canonical {
  import opened Utf8
  import opened Json

  // ---------------------------------------------------------------- sorting entries by key

  /** Puts e before the first entry whose key is not smaller, which keeps equal keys in order. */
  function Insert(e: Entry, es: seq<Entry>): seq<Entry> {
    if es != [] && TextLess(es[0].key, e.key) then [es[0]] + Insert(e, es[1..]) else [e] + es
  }

  /** What the standard library's stable sort by key returns. */
  function SortByKey(es: seq<Entry>): seq<Entry> {
    if es == [] then [] else Insert(es[0], SortByKey(es[1..]))
  }

  predicate UniqueKeys(es: seq<Entry>) {
    forall i, j | 0 <= i < j < |es| :: es[i].key != es[j].key
  }

  predicate StrictlySorted(es: seq<Entry>) {
    forall i, j | 0 <= i < j < |es| :: TextLess(es[i].key, es[j].key)
  }

  ghost predicate SameElements(es: seq<Entry>, fs: seq<Entry>) {
    forall e :: e in es <==> e in fs
  }

  lemma {:induction false} InsertMultiset(e: Entry, es: seq<Entry>)
    ensures multiset(Insert(e, es)) == multiset(es) + multiset{e}
  {
    if es != [] && TextLess(es[0].key, e.key) {
      InsertMultiset(e, es[1..]);
      assert es == [es[0]] + es[1..];
    }
  }

  lemma InsertElements(e: Entry, es: seq<Entry>, f: Entry)
    ensures f in Insert(e, es) <==> f == e || f in es
  {
    InsertMultiset(e, es);
    assert f in Insert(e, es) <==> f in multiset(Insert(e, es));
  }

  lemma PrependSorted(e: Entry, es: seq<Entry>)
    requires StrictlySorted(es) && forall f | f in es :: TextLess(e.key, f.key)
    ensures StrictlySorted([e] + es)
  {
    var r := [e] + es;
    forall i, j | 0 <= i < j < |r| ensures TextLess(r[i].key, r[j].key) {
      assert r[j] == es[j - 1] && es[j - 1] in es;
      assert i > 0 ==> r[i] == es[i - 1];
    }
  }

  lemma {:induction false} InsertSorted(e: Entry, es: seq<Entry>)
    requires StrictlySorted(es) && forall f | f in es :: f.key != e.key
    ensures StrictlySorted(Insert(e, es))
  {
    if es != [] && TextLess(es[0].key, e.key) {
      InsertSorted(e, es[1..]);
      forall f | f in Insert(e, es[1..]) ensures TextLess(es[0].key, f.key) {
        InsertElements(e, es[1..], f);
      }
      PrependSorted(es[0], Insert(e, es[1..]));
    } else {
      forall f | f in es ensures TextLess(e.key, f.key) {
        TextTrichotomy(e.key, es[0].key);
        var k :| 0 <= k < |es| && es[k] == f;
        if k > 0 {
          TextLessTransitive(e.key, es[0].key, f.key);
        }
      }
      PrependSorted(e, es);
    }
  }

  lemma {:induction false} SortMultiset(es: seq<Entry>)
    ensures multiset(SortByKey(es)) == multiset(es)
  {
    if es != [] {
      SortMultiset(es[1..]);
      InsertMultiset(es[0], SortByKey(es[1..]));
      assert es == [es[0]] + es[1..];
    }
  }

  lemma SortElements(es: seq<Entry>)
    ensures |SortByKey(es)| == |es|
    ensures SameElements(SortByKey(es), es)
  {
    SortMultiset(es);
    assert |multiset(SortByKey(es))| == |SortByKey(es)|;
    forall e ensures e in SortByKey(es) <==> e in es {
      assert e in SortByKey(es) <==> e in multiset(SortByKey(es));
    }
  }

  lemma {:induction false} SortSorted(es: seq<Entry>)
    requires UniqueKeys(es)
    ensures StrictlySorted(SortByKey(es))
  {
    if es != [] {
      SortSorted(es[1..]);
      SortElements(es[1..]);
      forall f | f in SortByKey(es[1..]) ensures f.key != es[0].key {
        var j :| 0 <= j < |es[1..]| && es[1..][j] == f;
        assert es[j + 1] == f;
      }
      InsertSorted(es[0], SortByKey(es[1..]));
    }
  }

  /** Sorting by unique keys has one result, so any correct sort could stand in for this one. */
  lemma {:induction false} SortedIsUnique(es: seq<Entry>, fs: seq<Entry>)
    requires StrictlySorted(es) && StrictlySorted(fs) && SameElements(es, fs)
    ensures es == fs
  {
    HeadIsMember(es);
    HeadIsMember(fs);
    if es != [] && fs != [] {
      HeadsAgree(es, fs);
      forall e ensures e in es[1..] <==> e in fs[1..] {
        TailMembership(es, e);
        TailMembership(fs, e);
      }
      SortedIsUnique(es[1..], fs[1..]);
      assert es == [es[0]] + es[1..] && fs == [fs[0]] + fs[1..];
    }
  }

  lemma HeadIsMember(es: seq<Entry>)
    ensures es == [] || es[0] in es
  {
  }

  lemma HeadsAgree(es: seq<Entry>, fs: seq<Entry>)
    requires StrictlySorted(es) && StrictlySorted(fs) && SameElements(es, fs) && es != [] && fs != []
    ensures es[0] == fs[0]
  {
    assert es[0] in es && fs[0] in fs;
    var j :| 0 <= j < |fs| && fs[j] == es[0];
    var i :| 0 <= i < |es| && es[i] == fs[0];
    TextTrichotomy(es[0].key, fs[0].key);
  }

  lemma TailMembership(es: seq<Entry>, e: Entry)
    requires StrictlySorted(es) && es != []
    ensures e in es[1..] <==> e in es && e != es[0]
  {
    TextTrichotomy(es[0].key, es[0].key);
    assert es == [es[0]] + es[1..];
  }

  lemma SortedSameIffSameElements(es: seq<Entry>, fs: seq<Entry>)
    requires UniqueKeys(es) && UniqueKeys(fs)
    ensures SortByKey(es) == SortByKey(fs) <==> SameElements(es, fs)
  {
    SortElements(es);
    SortElements(fs);
    if SameElements(es, fs) {
      SortSorted(es);
      SortSorted(fs);
      SortedIsUnique(SortByKey(es), SortByKey(fs));
    }
  }

  // ---------------------------------------------------------------- the canonical value

  /** Objects hold each key once, at every depth: what a serde_json map guarantees. */
  predicate WellFormed(v: Value)
    decreases v
  {
    match v
    case Array(xs) => forall x | x in xs :: WellFormed(x)
    case Object(es) => UniqueKeys(es) && forall i | 0 <= i < |es| :: WellFormed(es[i].value)
    case _ => true
  }

  /** The value with the entries of every object sorted by key. */
  function Canon(v: Value): Value
    decreases v, 1
  {
    match v
    case Array(xs) => Array(seq(|xs|, i requires 0 <= i < |xs| => Canon(xs[i])))
    case Object(es) => Object(SortByKey(CanonEntries(es)))
    case _ => v
  }

  function CanonEntries(es: seq<Entry>): (r: seq<Entry>)
    ensures |r| == |es|
    ensures forall i | 0 <= i < |es| :: r[i] == Entry(es[i].key, Canon(es[i].value))
    decreases es, 0
  {
    seq(|es|, i requires 0 <= i < |es| => Entry(es[i].key, Canon(es[i].value)))
  }

  /** The same JSON value: arrays in order, objects as unordered maps, at every depth. */
  predicate Equivalent(v: Value, w: Value)
    decreases v, 2
  {
    if v.Array? && w.Array? then
      |v.elems| == |w.elems|
      && forall i | 0 <= i < |v.elems| :: Equivalent(v.elems[i], w.elems[i])
    else if v.Object? && w.Object? then
      SameEntries(v.entries, w.entries)
    else v == w
  }

  predicate SameEntries(es: seq<Entry>, fs: seq<Entry>)
    decreases es, 2
  {
    Within(es, fs) && Covers(es, fs)
  }

  predicate Within(es: seq<Entry>, fs: seq<Entry>)
    decreases es, 0
  {
    forall i | 0 <= i < |es| :: HasMatch(es[i], fs)
  }

  predicate HasMatch(e: Entry, fs: seq<Entry>)
    decreases e, 4
  {
    exists j | 0 <= j < |fs| :: SameEntry(e, fs[j])
  }

  predicate Covers(es: seq<Entry>, fs: seq<Entry>)
    decreases es, 1
  {
    forall j | 0 <= j < |fs| :: MatchedBy(es, fs[j])
  }

  predicate MatchedBy(es: seq<Entry>, f: Entry)
    decreases es, 0
  {
    exists i | 0 <= i < |es| :: SameEntry(es[i], f)
  }

  predicate SameEntry(e: Entry, f: Entry)
    decreases e, 3
  {
    e.key == f.key && Equivalent(e.value, f.value)
  }

  /** Two values have one canonical form exactly when they are the same JSON value. */
  lemma {:induction false} CanonIffEquivalent(v: Value, w: Value)
    requires WellFormed(v) && WellFormed(w)
    ensures Canon(v) == Canon(w) <==> Equivalent(v, w)
    decreases v
  {
    if v.Array? && w.Array? {
      var xs, ys := v.elems, w.elems;
      forall i | 0 <= i < |xs| && i < |ys|
        ensures Canon(xs[i]) == Canon(ys[i]) <==> Equivalent(xs[i], ys[i])
      {
        CanonIffEquivalent(xs[i], ys[i]);
      }
      var cx, cy := Canon(v).elems, Canon(w).elems;
      if Equivalent(v, w) {
        assert cx == cy;
      }
      if cx == cy {
        assert |xs| == |cx| == |ys|;
        forall i | 0 <= i < |xs| ensures Equivalent(xs[i], ys[i]) {
          assert cx[i] == Canon(xs[i]) && cy[i] == Canon(ys[i]);
        }
      }
    } else if v.Object? && w.Object? {
      var es, fs := v.entries, w.entries;
      forall i, j | 0 <= i < |es| && 0 <= j < |fs|
        ensures CanonEntries(es)[i] == CanonEntries(fs)[j] <==> SameEntry(es[i], fs[j])
      {
        CanonIffEquivalent(es[i].value, fs[j].value);
      }
      MatchIffSameElements(es, fs, CanonEntries(es), CanonEntries(fs));
      SortedSameIffSameElements(CanonEntries(es), CanonEntries(fs));
    }
  }

  ghost predicate Mirrors(es: seq<Entry>, fs: seq<Entry>, a: seq<Entry>, b: seq<Entry>) {
    |a| == |es| && |b| == |fs|
    && forall i, j | 0 <= i < |es| && 0 <= j < |fs| :: a[i] == b[j] <==> SameEntry(es[i], fs[j])
  }

  lemma MatchIffSameElements(es: seq<Entry>, fs: seq<Entry>, a: seq<Entry>, b: seq<Entry>)
    requires Mirrors(es, fs, a, b)
    ensures SameEntries(es, fs) <==> SameElements(a, b)
  {
    if SameElements(a, b) {
      forall i | 0 <= i < |es| ensures HasMatch(es[i], fs) {
        assert a[i] in b;
        var j :| 0 <= j < |b| && b[j] == a[i];
        assert SameEntry(es[i], fs[j]);
      }
      forall j | 0 <= j < |fs| ensures MatchedBy(es, fs[j]) {
        assert b[j] in a;
        var i :| 0 <= i < |a| && a[i] == b[j];
        assert SameEntry(es[i], fs[j]);
      }
    }
    if SameEntries(es, fs) {
      forall e ensures e in a <==> e in b {
        if e in a {
          WithinKeeps(es, fs, a, b, e);
        }
        if e in b {
          CoversKeeps(es, fs, a, b, e);
        }
      }
      assert SameElements(a, b);
    }
  }

  lemma WithinKeeps(es: seq<Entry>, fs: seq<Entry>, a: seq<Entry>, b: seq<Entry>, e: Entry)
    requires Mirrors(es, fs, a, b) && Within(es, fs) && e in a
    ensures e in b
  {
    var i :| 0 <= i < |a| && a[i] == e;
    assert HasMatch(es[i], fs);
    var j :| 0 <= j < |fs| && SameEntry(es[i], fs[j]);
    assert b[j] == e;
  }

  lemma CoversKeeps(es: seq<Entry>, fs: seq<Entry>, a: seq<Entry>, b: seq<Entry>, e: Entry)
    requires Mirrors(es, fs, a, b) && Covers(es, fs) && e in b
    ensures e in a
  {
    var j :| 0 <= j < |b| && b[j] == e;
    assert MatchedBy(es, fs[j]);
    var i :| 0 <= i < |es| && SameEntry(es[i], fs[j]);
    assert a[i] == e;
  }

  // ---------------------------------------------------------------- canonical bytes

  function CanonicalJson(v: Value): seq<byte> {
    Encode(Print(Canon(v)))
  }

  /** Equal bytes exactly for equal values: the bytes depend on no map's iteration order,
      at any depth, and no two different values share them. */
  lemma CanonicalBytesIffEquivalent(v: Value, w: Value)
    requires WellFormed(v) && WellFormed(w)
    ensures CanonicalJson(v) == CanonicalJson(w) <==> Equivalent(v, w)
  {
    CanonIffEquivalent(v, w);
    if CanonicalJson(v) == CanonicalJson(w) {
      EncodeInjective(Print(Canon(v)), Print(Canon(w)));
      PrintInjective(Canon(v), Canon(w));
    }
  }

  /** A canonical text can be read off the front of any longer one, to the value it came from
      and the exact rest. */
  lemma CanonicalIsUniquelyReadable(v: Value, rest: string)
    requires WellFormed(v)
    requires v.Num? ==> !StartsWithDigit(rest)
    ensures var r := ParseValue(Print(Canon(v)) + rest);
            r.Accept? && r.rest == rest && r.value == Canon(v) && Equivalent(v, r.value)
  {
    ReadBack(Canon(v), Print(Canon(v)) + rest, rest);
    CanonWellFormed(v);
    CanonIdempotent(v);
    CanonIffEquivalent(v, Canon(v));
  }

  lemma {:induction false} CanonWellFormed(v: Value)
    requires WellFormed(v)
    ensures WellFormed(Canon(v))
    decreases v
  {
    if v.Array? {
      forall x | x in Canon(v).elems ensures WellFormed(x) {
        var i :| 0 <= i < |v.elems| && x == Canon(v.elems[i]);
        CanonWellFormed(v.elems[i]);
      }
    } else if v.Object? {
      var a := CanonEntries(v.entries);
      SortSorted(a);
      SortElements(a);
      StrictIsUnique(SortByKey(a));
      forall k | 0 <= k < |SortByKey(a)| ensures WellFormed(SortByKey(a)[k].value) {
        assert SortByKey(a)[k] in a;
        var i :| 0 <= i < |a| && a[i] == SortByKey(a)[k];
        CanonWellFormed(v.entries[i].value);
      }
    }
  }

  lemma StrictIsUnique(es: seq<Entry>)
    requires StrictlySorted(es)
    ensures UniqueKeys(es)
  {
    forall i, j | 0 <= i < j < |es| ensures es[i].key != es[j].key {
      TextTrichotomy(es[i].key, es[j].key);
    }
  }

  lemma {:induction false} CanonIdempotent(v: Value)
    requires WellFormed(v)
    ensures Canon(Canon(v)) == Canon(v)
    decreases v
  {
    if v.Array? {
      forall i | 0 <= i < |v.elems| ensures Canon(Canon(v).elems[i]) == Canon(v).elems[i] {
        CanonIdempotent(v.elems[i]);
      }
      assert Canon(Canon(v)).elems == Canon(v).elems;
    } else if v.Object? {
      var a := CanonEntries(v.entries);
      var s := SortByKey(a);
      SortSorted(a);
      SortElements(a);
      forall k | 0 <= k < |s| ensures Canon(s[k].value) == s[k].value {
        assert s[k] in a;
        var i :| 0 <= i < |a| && a[i] == s[k];
        CanonIdempotent(v.entries[i].value);
      }
      assert CanonEntries(s) == s;
      StrictIsUnique(s);
      SortSorted(s);
      SortElements(s);
      SortedIsUnique(SortByKey(s), s);
    }
  }

  // ---------------------------------------------------------------- the writer

  /** A growable byte buffer (Rust's `Vec<u8>`). */
  class Buffer {
    var bytes: seq<byte>

    constructor ()
      ensures bytes == []
    {
      bytes := [];
    }

    method Push(c: char)
      modifies this
      ensures bytes == old(bytes) + Encode([c])
    {
      bytes := bytes + Encode([c]);
    }

    method Extend(s: string)
      modifies this
      ensures bytes == old(bytes) + Encode(s)
    {
      bytes := bytes + Encode(s);
    }
  }

  /** Sorting looks at keys only, so it may come before or after the values are made canonical. */
  lemma SortThenCanon(es: seq<Entry>)
    requires UniqueKeys(es)
    ensures CanonEntries(SortByKey(es)) == SortByKey(CanonEntries(es))
  {
    var s, a := SortByKey(es), CanonEntries(es);
    var t := CanonEntries(s);
    SortSorted(es);
    SortSorted(a);
    CanonSameElements(es, s);
    SortElements(a);
    SortedIsUnique(t, SortByKey(a));
  }

  lemma CanonSameElements(es: seq<Entry>, s: seq<Entry>)
    requires s == SortByKey(es)
    ensures SameElements(CanonEntries(s), CanonEntries(es))
  {
    var t, a := CanonEntries(s), CanonEntries(es);
    SortElements(es);
    forall e ensures e in t <==> e in a {
      if e in t {
        var k :| 0 <= k < |t| && t[k] == e;
        assert s[k] in es;
        var i :| 0 <= i < |es| && es[i] == s[k];
        assert a[i] == e;
      }
      if e in a {
        var i :| 0 <= i < |a| && a[i] == e;
        assert es[i] in s;
        var k :| 0 <= k < |s| && s[k] == es[i];
        assert t[k] == e;
      }
    }
  }

  /** `write_canonical`: appends the canonical bytes of v, and nothing else, to the buffer. */
  method WriteCanonical(buf: Buffer, v: Value)
    requires WellFormed(v)
    modifies buf
    ensures buf.bytes == old(buf.bytes) + CanonicalJson(v)
    decreases v, 1
  {
    match v {
      case Object(es) => WriteObject(buf, es);
      case Array(xs) => WriteArray(buf, xs);
      case _ => buf.Extend(Print(v));
    }
  }

  method WriteObject(buf: Buffer, es: seq<Entry>)
    requires WellFormed(Object(es))
    modifies buf
    ensures buf.bytes == old(buf.bytes) + CanonicalJson(Object(es))
    decreases es, 0
  {
    ghost var start := buf.bytes;
    buf.Push('{');
    var entries := SortByKey(es);
    SortElements(es);
    ghost var t := CanonEntries(entries);
    for i := 0 to |entries|
      invariant buf.bytes == start + Encode("{" + EntriesPrefix(t, i))
    {
      assert entries[i] in es;
      EntryStep(start, t, i);
      if i > 0 {
        buf.Push(',');
      }
      buf.Extend(Quote(entries[i].key));
      buf.Push(':');
      WriteCanonical(buf, entries[i].value);
    }
    buf.Push('}');
    ObjectDone(start, es, t);
  }

  method WriteArray(buf: Buffer, xs: seq<Value>)
    requires WellFormed(Array(xs))
    modifies buf
    ensures buf.bytes == old(buf.bytes) + CanonicalJson(Array(xs))
    decreases xs, 0
  {
    ghost var start := buf.bytes;
    buf.Push('[');
    ghost var t := Canon(Array(xs)).elems;
    for i := 0 to |xs|
      invariant buf.bytes == start + Encode("[" + ElemsPrefix(t, i))
    {
      ElemStep(start, t, i);
      if i > 0 {
        buf.Push(',');
      }
      WriteCanonical(buf, xs[i]);
    }
    buf.Push(']');
    ArrayDone(start, xs, t);
  }

  /** The bytes one turn of the object loop appends. */
  lemma EntryStep(start: seq<byte>, t: seq<Entry>, i: nat)
    requires i < |t|
    ensures var before := start + Encode("{" + EntriesPrefix(t, i));
            (if i > 0 then before + Encode([',']) else before)
              + Encode(Quote(t[i].key)) + Encode([':']) + Encode(Print(t[i].value))
            == start + Encode("{" + EntriesPrefix(t, i + 1))
  {
    var done, comma := "{" + EntriesPrefix(t, i), if i > 0 then "," else "";
    Reassociate("{", EntriesPrefix(t, i), comma, Quote(t[i].key), ":", Print(t[i].value));
    EncodePieces(done, comma, Quote(t[i].key), ":", Print(t[i].value));
    JoinPieces(start, Encode(done), Encode(comma), Encode(Quote(t[i].key)), Encode(":"), Encode(Print(t[i].value)));
  }

  lemma ElemStep(start: seq<byte>, t: seq<Value>, i: nat)
    requires i < |t|
    ensures var before := start + Encode("[" + ElemsPrefix(t, i));
            (if i > 0 then before + Encode([',']) else before) + Encode(Print(t[i]))
            == start + Encode("[" + ElemsPrefix(t, i + 1))
  {
    var done, comma := "[" + ElemsPrefix(t, i), if i > 0 then "," else "";
    assert done + comma + Print(t[i]) + "" + "" == "[" + ElemsPrefix(t, i + 1);
    EncodePieces(done, comma, Print(t[i]), "", "");
    JoinPieces(start, Encode(done), Encode(comma), Encode(Print(t[i])), [], []);
  }

  lemma JoinPieces(start: seq<byte>, a: seq<byte>, b: seq<byte>, c: seq<byte>, d: seq<byte>, e: seq<byte>)
    ensures start + (a + b + c + d + e) == start + a + b + c + d + e
    ensures b == [] ==> start + a + b == start + a
    ensures d == [] && e == [] ==> start + a + b + c + d + e == start + a + b + c
  {
  }

  lemma ObjectDone(start: seq<byte>, es: seq<Entry>, t: seq<Entry>)
    requires UniqueKeys(es) && t == CanonEntries(SortByKey(es))
    ensures start + Encode("{" + EntriesPrefix(t, |t|)) + Encode(['}']) == start + CanonicalJson(Object(es))
  {
    EntriesPrefixIsAll(t);
    EncodeConcat("{" + EntriesPrefix(t, |t|), "}");
    SortThenCanon(es);
  }

  lemma ArrayDone(start: seq<byte>, xs: seq<Value>, t: seq<Value>)
    requires t == Canon(Array(xs)).elems
    ensures start + Encode("[" + ElemsPrefix(t, |t|)) + Encode([']']) == start + CanonicalJson(Array(xs))
  {
    ElemsPrefixIsAll(t);
    EncodeConcat("[" + ElemsPrefix(t, |t|), "]");
  }

  /** `canonical_json`. */
  method ComputeCanonicalJson(v: Value) returns (bytes: seq<byte>)
    requires WellFormed(v)
    ensures bytes == CanonicalJson(v)
  {
    var buf := new Buffer();
    WriteCanonical(buf, v);
    bytes := buf.bytes;
  }

  lemma EncodePieces(a: string, b: string, c: string, d: string, e: string)
    ensures Encode(a + b + c + d + e) == Encode(a) + Encode(b) + Encode(c) + Encode(d) + Encode(e)
  {
    EncodeConcat(a, b);
    EncodeConcat(a + b, c);
    EncodeConcat(a + b + c, d);
    EncodeConcat(a + b + c + d, e);
  }

  /** The first n elements with the commas between them: what the writer's loop has put out. */
  function ElemsPrefix(xs: seq<Value>, n: nat): string
    requires n <= |xs|
  {
    if n == 0 then "" else ElemsPrefix(xs, n - 1) + (if n > 1 then "," else "") + Print(xs[n - 1])
  }

  function EntriesPrefix(es: seq<Entry>, n: nat): string
    requires n <= |es|
  {
    if n == 0 then "" else EntriesPrefix(es, n - 1) + (if n > 1 then "," else "") + PrintEntry(es[n - 1])
  }

  lemma Reassociate(a: string, b: string, c: string, d: string, e: string, f: string)
    ensures a + (b + c + (d + e + f)) == a + b + c + d + e + f
  {
  }

  lemma {:induction false} ElemsPrefixSplit(xs: seq<Value>, n: nat)
    requires 0 < n < |xs|
    ensures ElemsPrefix(xs, n + 1) == Print(xs[0]) + "," + ElemsPrefix(xs[1..], n)
  {
    hide Print;
    if n == 1 {
      assert ElemsPrefix(xs, 1) == Print(xs[0]) && ElemsPrefix(xs[1..], 1) == Print(xs[1]);
    } else {
      ElemsPrefixSplit(xs, n - 1);
      Regroup(Print(xs[0]), ElemsPrefix(xs[1..], n - 1), ",", Print(xs[n]));
    }
  }

  lemma {:induction false} ElemsPrefixIsAll(xs: seq<Value>)
    ensures ElemsPrefix(xs, |xs|) == PrintElems(xs)
  {
    if |xs| > 1 {
      ElemsPrefixSplit(xs, |xs| - 1);
      ElemsPrefixIsAll(xs[1..]);
    } else if |xs| == 1 {
      assert ElemsPrefix(xs, 1) == Print(xs[0]);
    }
  }

  lemma {:induction false} EntriesPrefixSplit(es: seq<Entry>, n: nat)
    requires 0 < n < |es|
    ensures EntriesPrefix(es, n + 1) == PrintEntry(es[0]) + "," + EntriesPrefix(es[1..], n)
  {
    hide PrintEntry;
    if n == 1 {
      assert EntriesPrefix(es, 1) == PrintEntry(es[0]) && EntriesPrefix(es[1..], 1) == PrintEntry(es[1]);
    } else {
      EntriesPrefixSplit(es, n - 1);
      Regroup(PrintEntry(es[0]), EntriesPrefix(es[1..], n - 1), ",", PrintEntry(es[n]));
    }
  }

  lemma {:induction false} EntriesPrefixIsAll(es: seq<Entry>)
    ensures EntriesPrefix(es, |es|) == PrintEntries(es)
  {
    if |es| > 1 {
      EntriesPrefixSplit(es, |es| - 1);
      EntriesPrefixIsAll(es[1..]);
    } else if |es| == 1 {
      assert EntriesPrefix(es, 1) == PrintEntry(es[0]);
    }
  }
}
