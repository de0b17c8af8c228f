/** The string operations of Rust's standard library that the checks use. */
module Text {
  import opened Wrappers

  /** Unicode White_Space, the set `char::is_whitespace` and `str::trim` go by. */
  predicate IsWhitespace(c: char) {
    var n := c as int;
    9 <= n <= 13 || n == 0x20 || n == 0x85 || n == 0xA0 || n == 0x1680 || 0x2000 <= n <= 0x200A
    || n == 0x2028 || n == 0x2029 || n == 0x202F || n == 0x205F || n == 0x3000
  }

  function TrimStart(s: string): string {
    if s != "" && IsWhitespace(s[0]) then TrimStart(s[1..]) else s
  }

  function TrimEnd(s: string): string {
    if s != "" && IsWhitespace(s[|s| - 1]) then TrimEnd(s[..|s| - 1]) else s
  }

  function Trim(s: string): string {
    TrimEnd(TrimStart(s))
  }

  /** `s.trim().is_empty()`. */
  predicate Blank(s: string) {
    Trim(s) == ""
  }

  lemma {:induction false} TrimEndEmptyIff(s: string)
    ensures TrimEnd(s) == "" <==> forall c | c in s :: IsWhitespace(c)
  {
    if s != "" && IsWhitespace(s[|s| - 1]) {
      TrimEndEmptyIff(s[..|s| - 1]);
      assert s == s[..|s| - 1] + [s[|s| - 1]];
    } else if s != "" {
      assert s[|s| - 1] in s;
    }
  }

  /** A string is blank exactly when it holds nothing but whitespace. */
  lemma {:induction false} BlankIff(s: string)
    ensures Blank(s) <==> forall c | c in s :: IsWhitespace(c)
  {
    if s != "" && IsWhitespace(s[0]) {
      BlankIff(s[1..]);
      assert s == [s[0]] + s[1..];
    } else {
      TrimEndEmptyIff(s);
    }
  }

  lemma TrimKeeps(s: string)
    requires s != "" && !IsWhitespace(s[0]) && !IsWhitespace(s[|s| - 1])
    ensures Trim(s) == s
  {
  }

  /** Some character is not whitespace. */
  predicate Visible(s: string) {
    exists c :: c in s && !IsWhitespace(c)
  }

  /** The twenty-five characters of the Unicode property. */
  lemma WhitespaceListed(c: char)
    ensures IsWhitespace(c)
            <==> c as int in [9, 10, 11, 12, 13, 32, 133, 160, 5760, 8192, 8193, 8194, 8195, 8196, 8197, 8198, 8199,
                              8200, 8201, 8202, 8232, 8233, 8239, 8287, 12288]
  {
  }

  predicate AllWhitespace(s: string) {
    forall k | 0 <= k < |s| :: IsWhitespace(s[k])
  }

  /** t is s without the whitespace at its two ends. */
  ghost predicate Trimmed(s: string, t: string) {
    exists before: string, after: string :: IsTrimmedOf(s, before, t, after)
  }

  ghost predicate IsTrimmedOf(s: string, before: string, t: string, after: string) {
    s == before + t + after && AllWhitespace(before) && AllWhitespace(after)
    && (t != "" ==> !IsWhitespace(t[0]) && !IsWhitespace(t[|t| - 1]))
  }

  lemma {:induction false} TrimStartIsExact(s: string) returns (before: string)
    ensures s == before + TrimStart(s) && AllWhitespace(before)
    ensures TrimStart(s) != "" ==> !IsWhitespace(TrimStart(s)[0])
  {
    before := "";
    if s != "" && IsWhitespace(s[0]) {
      before := TrimStartIsExact(s[1..]);
      before := [s[0]] + before;
      assert s == [s[0]] + s[1..];
    }
  }

  lemma {:induction false} TrimEndIsExact(s: string) returns (after: string)
    ensures s == TrimEnd(s) + after && AllWhitespace(after)
    ensures TrimEnd(s) != "" ==> !IsWhitespace(TrimEnd(s)[|TrimEnd(s)| - 1])
  {
    after := "";
    if s != "" && IsWhitespace(s[|s| - 1]) {
      after := TrimEndIsExact(s[..|s| - 1]);
      after := after + [s[|s| - 1]];
      assert s == s[..|s| - 1] + [s[|s| - 1]];
    }
  }

  /** Trimming takes off the whitespace at the ends and nothing else. */
  lemma TrimIsExact(s: string)
    ensures Trimmed(s, Trim(s))
  {
    var before := TrimStartIsExact(s);
    var after := TrimEndIsExact(TrimStart(s));
    assert IsTrimmedOf(s, before, Trim(s), after);
  }

  lemma VisibleIff(s: string)
    ensures Visible(s) <==> !Blank(s)
  {
    BlankIff(s);
  }

  /** `rsplit_once`: the part after the last occurrence of c. */
  function AfterLast(s: string, c: char): (r: Option<string>)
    ensures r.None? <==> c !in s
    ensures r.Some? ==> |r.value| < |s| && s[|s| - |r.value| - 1] == c && s[|s| - |r.value|..] == r.value && c !in r.value
  {
    if s == "" then None
    else if s[|s| - 1] == c then Some("")
    else
      var r := AfterLast(s[..|s| - 1], c);
      if r.None? then None else Some(r.value + [s[|s| - 1]])
  }

  lemma {:induction false} AfterLastAt(s: string, c: char, k: nat)
    requires k < |s| && s[k] == c && c !in s[k + 1..]
    ensures AfterLast(s, c) == Some(s[k + 1..])
  {
    var n := |s| - 1;
    if k < n {
      assert s[k + 1..][n - k - 1] == s[n];
      assert s[k + 1..] == s[..n][k + 1..] + [s[n]];
      AfterLastAt(s[..n], c, k);
    }
  }
}
