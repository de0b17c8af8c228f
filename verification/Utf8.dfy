/** UTF-8 text. Signing payloads and audit logs are bytes, and Rust compares strings
    byte by byte, so the canonical key order is the byte order of the encodings. */
module Utf8 {
  import opened Wrappers

  type byte = x: int | 0 <= x < 256

  function EncodeChar(c: char): (b: seq<byte>)
    ensures 1 <= |b| <= 4
  {
    var n := c as int;
    if n < 0x80 then [n]
    else if n < 0x800 then [0xC0 + n / 64, 0x80 + n % 64]
    else if n < 0x1_0000 then [0xE0 + n / 4096, 0x80 + n / 64 % 64, 0x80 + n % 64]
    else [0xF0 + n / 262144, 0x80 + n / 4096 % 64, 0x80 + n / 64 % 64, 0x80 + n % 64]
  }

  function Encode(s: string): (b: seq<byte>) {
    if s == [] then [] else EncodeChar(s[0]) + Encode(s[1..])
  }

  lemma {:induction false} EncodeConcat(s: string, t: string)
    ensures Encode(s + t) == Encode(s) + Encode(t)
  {
    if s == [] {
      assert s + t == t;
    } else {
      assert (s + t)[1..] == s[1..] + t;
      EncodeConcat(s[1..], t);
    }
  }

  // ---------------------------------------------------------------- order

  /** Lexicographic order of byte strings: Rust's order on `&str`. */
  predicate BytesLess(a: seq<byte>, b: seq<byte>) {
    b != [] && (a == [] || a[0] < b[0] || (a[0] == b[0] && BytesLess(a[1..], b[1..])))
  }

  /** Lexicographic order of the scalar values. */
  predicate TextLess(a: string, b: string) {
    b != [] && (a == [] || a[0] < b[0] || (a[0] == b[0] && TextLess(a[1..], b[1..])))
  }

  lemma {:induction false} CommonPrefix(p: seq<byte>, a: seq<byte>, b: seq<byte>)
    ensures BytesLess(p + a, p + b) <==> BytesLess(a, b)
  {
    if p == [] {
      assert p + a == a && p + b == b;
    } else {
      assert (p + a)[1..] == p[1..] + a && (p + b)[1..] == p[1..] + b;
      CommonPrefix(p[1..], a, b);
    }
  }

  lemma {:induction false} BytesLessAsymmetric(a: seq<byte>, b: seq<byte>)
    requires BytesLess(a, b)
    ensures !BytesLess(b, a)
  {
    if a != [] && a[0] == b[0] {
      BytesLessAsymmetric(a[1..], b[1..]);
    }
  }

  lemma {:induction false} TextLessTransitive(a: string, b: string, c: string)
    requires TextLess(a, b) && TextLess(b, c)
    ensures TextLess(a, c)
  {
    if a != [] && a[0] == b[0] && b[0] == c[0] {
      TextLessTransitive(a[1..], b[1..], c[1..]);
    }
  }

  lemma {:induction false} TextTrichotomy(a: string, b: string)
    ensures TextLess(a, b) || a == b || TextLess(b, a)
    ensures !(TextLess(a, b) && TextLess(b, a))
    ensures a == b ==> !TextLess(a, b)
  {
    if a != [] && b != [] {
      TextTrichotomy(a[1..], b[1..]);
      assert a == [a[0]] + a[1..] && b == [b[0]] + b[1..];
    }
  }

  /** Encodings of different scalars differ at the first byte where they disagree, whatever follows. */
  lemma CharOrder(c: char, d: char, x: seq<byte>, y: seq<byte>)
    requires c < d
    ensures BytesLess(EncodeChar(c) + x, EncodeChar(d) + y)
  {
    var p, q := EncodeChar(c), EncodeChar(d);
    var k := FirstDifference(c, d);
    assert p + x == p[..k] + (p[k..] + x) && q + y == p[..k] + (q[k..] + y);
    CommonPrefix(p[..k], p[k..] + x, q[k..] + y);
    assert (p[k..] + x)[0] == p[k] && (q[k..] + y)[0] == q[k];
  }

  /** The two quotients by 64 order n and m, and tell them apart unless the last digits do. */
  lemma Base64Digits(n: nat, m: nat)
    requires n < m
    ensures n / 64 < m / 64 || (n / 64 == m / 64 && n % 64 < m % 64)
  {
  }

  lemma Quotients(n: nat)
    ensures n / 4096 == n / 64 / 64 && n / 262144 == n / 64 / 64 / 64
  {
  }

  lemma FirstDifference(c: char, d: char) returns (k: nat)
    requires c < d
    ensures k < |EncodeChar(c)| && k < |EncodeChar(d)|
    ensures EncodeChar(c)[..k] == EncodeChar(d)[..k] && EncodeChar(c)[k] < EncodeChar(d)[k]
  {
    if |EncodeChar(c)| == |EncodeChar(d)| {
      k := FirstDifferenceSameLength(c, d);
    } else {
      k := 0;
    }
  }

  /** The digits of n in base 64 from the last one, the fourth taking all that is left. */
  function Place(n: nat, j: nat): nat
    requires j <= 3
  {
    if j == 0 then n % 64 else if j == 1 then n / 64 % 64 else if j == 2 then n / 4096 % 64 else n / 262144
  }

  lemma DifferingPlace(n: nat, m: nat) returns (j: nat)
    requires n < m
    ensures j <= 3 && Place(n, j) < Place(m, j)
    ensures forall i | j < i <= 3 :: Place(n, i) == Place(m, i)
  {
    Base64Digits(n, m);
    Quotients(n);
    Quotients(m);
    if n / 64 == m / 64 {
      return 0;
    }
    Base64Digits(n / 64, m / 64);
    if n / 64 / 64 == m / 64 / 64 {
      return 1;
    }
    Base64Digits(n / 64 / 64, m / 64 / 64);
    return if n / 64 / 64 / 64 == m / 64 / 64 / 64 then 2 else 3;
  }

  function LeadMark(length: nat): int {
    if length == 2 then 0xC0 else if length == 3 then 0xE0 else 0xF0
  }

  /** In a longer form every byte holds one digit above its mark, and no digits are left out. */
  lemma BytesAreDigits(c: char)
    requires |EncodeChar(c)| > 1
    ensures forall i | 0 <= i < |EncodeChar(c)| ::
              EncodeChar(c)[i] == (if i > 0 then 0x80 else LeadMark(|EncodeChar(c)|)) + Place(c as int, |EncodeChar(c)| - 1 - i)
    ensures var n: nat := c as int; forall j | |EncodeChar(c)| <= j <= 3 :: Place(n, j) == 0
  {
  }

  lemma FirstDifferenceSameLength(c: char, d: char) returns (k: nat)
    requires c < d && |EncodeChar(c)| == |EncodeChar(d)|
    ensures k < |EncodeChar(c)|
    ensures EncodeChar(c)[..k] == EncodeChar(d)[..k] && EncodeChar(c)[k] < EncodeChar(d)[k]
  {
    var l := |EncodeChar(c)|;
    if l == 1 {
      return 0;
    }
    hide EncodeChar, Place;
    BytesAreDigits(c);
    BytesAreDigits(d);
    var j := DifferingPlace(c as int, d as int);
    k := l - 1 - j;
  }

  lemma {:induction false} EncodePreservesLess(a: string, b: string)
    requires TextLess(a, b)
    ensures BytesLess(Encode(a), Encode(b))
  {
    if a == [] {
    } else if a[0] < b[0] {
      CharOrder(a[0], b[0], Encode(a[1..]), Encode(b[1..]));
    } else {
      EncodePreservesLess(a[1..], b[1..]);
      CommonPrefix(EncodeChar(a[0]), Encode(a[1..]), Encode(b[1..]));
    }
  }

  /** Sorting keys by bytes is sorting them by scalar values. */
  lemma ByteOrderIsTextOrder(a: string, b: string)
    ensures BytesLess(Encode(a), Encode(b)) <==> TextLess(a, b)
  {
    TextTrichotomy(a, b);
    if TextLess(a, b) {
      EncodePreservesLess(a, b);
    } else if TextLess(b, a) {
      EncodePreservesLess(b, a);
      BytesLessAsymmetric(Encode(b), Encode(a));
    } else {
      if BytesLess(Encode(a), Encode(b)) {
        BytesLessAsymmetric(Encode(a), Encode(b));
      }
    }
  }

  lemma EncodeInjective(a: string, b: string)
    requires Encode(a) == Encode(b)
    ensures a == b
  {
    TextTrichotomy(a, b);
    ByteOrderIsTextOrder(a, b);
    ByteOrderIsTextOrder(b, a);
    if BytesLess(Encode(a), Encode(b)) {
      BytesLessAsymmetric(Encode(a), Encode(b));
    }
  }

  // ---------------------------------------------------------------- decoding

  predicate IsScalar(n: int) {
    0 <= n < 0xD800 || 0xE000 <= n < 0x11_0000
  }

  function SequenceLength(lead: byte): (k: nat) {
    if lead < 0x80 then 1
    else if lead < 0xC0 then 0
    else if lead < 0xE0 then 2
    else if lead < 0xF0 then 3
    else if lead < 0xF8 then 4
    else 0
  }

  function CodePoint(b: seq<byte>): int
    requires 1 <= |b| <= 4
  {
    if |b| == 1 then b[0] as int
    else if |b| == 2 then (b[0] as int - 0xC0) * 64 + (b[1] as int - 0x80)
    else if |b| == 3 then (b[0] as int - 0xE0) * 4096 + (b[1] as int - 0x80) * 64 + (b[2] as int - 0x80)
    else (b[0] as int - 0xF0) * 262144 + (b[1] as int - 0x80) * 4096 + (b[2] as int - 0x80) * 64 + (b[3] as int - 0x80)
  }

  /** The scalar at the front of `b`, unless `b` starts with an ill-formed, overlong or surrogate form. */
  function DecodeHead(b: seq<byte>): (c: Option<char>)
    requires b != []
  {
    var k := SequenceLength(b[0]);
    if k == 0 || |b| < k then None
    else
      var n := CodePoint(b[..k]);
      if IsScalar(n) && EncodeChar(n as char) == b[..k] then Some(n as char) else None
  }

  /** `std::str::from_utf8`: the text, or None when the bytes are not well-formed UTF-8. */
  function Decode(b: seq<byte>): (s: Option<string>)
    decreases |b|
  {
    if b == [] then Some("")
    else
      match DecodeHead(b)
      case None => None
      case Some(c) =>
        var rest := Decode(b[|EncodeChar(c)|..]);
        if rest.None? then None else Some([c] + rest.value)
  }

  lemma LengthOfEncoded(c: char)
    ensures SequenceLength(EncodeChar(c)[0]) == |EncodeChar(c)|
  {
  }

  lemma CodePointOfEncoded(c: char)
    ensures CodePoint(EncodeChar(c)) == c as int
  {
    var n := c as int;
    assert n == n / 64 * 64 + n % 64;
    if n >= 0x800 {
      assert n / 64 == n / 4096 * 64 + n / 64 % 64;
    }
    if n >= 0x10000 {
      assert n / 4096 == n / 262144 * 64 + n / 4096 % 64;
    }
  }

  lemma HeadOfEncoded(c: char, rest: seq<byte>)
    ensures DecodeHead(EncodeChar(c) + rest) == Some(c)
  {
    LengthOfEncoded(c);
    CodePointOfEncoded(c);
    hide EncodeChar, CodePoint, SequenceLength;
    var p := EncodeChar(c);
    var b := p + rest;
    assert b[0] == p[0];
    assert b[..|p|] == p;
  }

  lemma {:induction false} DecodeEncoded(s: string)
    ensures Decode(Encode(s)) == Some(s)
  {
    if s != [] {
      HeadOfEncoded(s[0], Encode(s[1..]));
      assert Encode(s)[|EncodeChar(s[0])|..] == Encode(s[1..]);
      DecodeEncoded(s[1..]);
      assert s == [s[0]] + s[1..];
    }
  }

  /** Decoding succeeds on the encodings and on nothing else. */
  lemma {:induction false} DecodeIff(b: seq<byte>, s: string)
    ensures Decode(b) == Some(s) <==> b == Encode(s)
    decreases |b|
  {
    DecodeEncoded(s);
    if Decode(b) == Some(s) && b != [] {
      var c := DecodeHead(b).value;
      var k := |EncodeChar(c)|;
      assert s[0] == c && s[1..] == Decode(b[k..]).value;
      DecodeIff(b[k..], s[1..]);
      assert b == b[..k] + b[k..];
    }
  }
}
