/**
 * The part of JavaScript's string semantics the script relies on: the
 * whitespace class `\s` of its regular expressions and `String.prototype.trim`,
 * which strips exactly the same characters (WhiteSpace and LineTerminator of
 * ECMAScript).
 */
module JsText {

  /** A character of ECMAScript's WhiteSpace or LineTerminator productions. */
  predicate IsWhitespace(c: char) {
    c == '\t' || c == '\n' || c == '\U{000B}' || c == '\U{000C}' || c == '\r' ||
    c == ' ' || c == '\U{00A0}' || c == '\U{1680}' ||
    ('\U{2000}' <= c <= '\U{200A}') ||
    c == '\U{2028}' || c == '\U{2029}' || c == '\U{202F}' || c == '\U{205F}' ||
    c == '\U{3000}' || c == '\U{FEFF}'
  }

  predicate AllWhitespace(s: string) {
    forall k :: 0 <= k < |s| ==> IsWhitespace(s[k])
  }

  /** Number of whitespace characters at the front of `s`. */
  function LeadingWhitespace(s: string): (n: nat)
    ensures n <= |s|
    ensures AllWhitespace(s[..n])
    ensures n < |s| ==> !IsWhitespace(s[n])
  {
    if s == [] || !IsWhitespace(s[0]) then 0
    else
      var n := 1 + LeadingWhitespace(s[1..]);
      assert s[..n] == [s[0]] + s[1..][..n - 1];
      n
  }

  /** Number of whitespace characters at the end of `s`. */
  function TrailingWhitespace(s: string): (n: nat)
    ensures n <= |s|
    ensures AllWhitespace(s[|s| - n..])
    ensures n < |s| ==> !IsWhitespace(s[|s| - n - 1])
  {
    if s == [] || !IsWhitespace(s[|s| - 1]) then 0
    else
      var init := s[..|s| - 1];
      var n := 1 + TrailingWhitespace(init);
      assert s[|s| - n..] == init[|init| - (n - 1)..] + [s[|s| - 1]];
      n
  }

  /** `s` with its surrounding whitespace removed, as `s.trim()` returns it. */
  function Trim(s: string): (r: string)
    ensures |r| <= |s|
    ensures r != [] ==> !IsWhitespace(r[0]) && !IsWhitespace(r[|r| - 1])
    ensures r == [] <==> AllWhitespace(s)
  {
    var lead := LeadingWhitespace(s);
    var rest := s[lead..];
    rest[..|rest| - TrailingWhitespace(rest)]
  }

  /**
   * `Trim(s)` is the slice of `s` that starts and ends on a non-whitespace
   * character, and everything cut off on either side is whitespace.
   */
  lemma TrimIsMaximalInnerSlice(s: string) returns (start: nat)
    ensures start + |Trim(s)| <= |s|
    ensures Trim(s) == s[start..start + |Trim(s)|]
    ensures AllWhitespace(s[..start]) && AllWhitespace(s[start + |Trim(s)|..])
  {
    start := LeadingWhitespace(s);
    var rest := s[start..];
    var trail := TrailingWhitespace(rest);
    var r := Trim(s);
    assert r == rest[..|rest| - trail];
    assert s[start + |r|..] == rest[|rest| - trail..];
    if r == [] {
      assert rest[|rest| - trail..] == rest;
      assert s[..start] == s;
    }
  }

  /** A UTF-16 code unit: JavaScript strings are sequences of these. */
  type CodeUnit = x: int | 0 <= x < 0x1_0000

  /**
   * The code units of one character: the character itself below U+10000,
   * otherwise a high surrogate and a low surrogate that decode back to it.
   */
  function CharUnits(c: char): (r: seq<CodeUnit>)
    ensures |r| == 1 || |r| == 2
    ensures |r| == 1 <==> c as int < 0x1_0000
    ensures |r| == 1 ==> r[0] == c as int
    ensures |r| == 2 ==>
      0xD800 <= r[0] < 0xDC00 <= r[1] < 0xE000 &&
      (r[0] as int - 0xD800) * 0x400 + (r[1] as int - 0xDC00) + 0x1_0000 == c as int
  {
    var v := c as int;
    if v < 0x1_0000 then [v]
    else [0xD800 + (v - 0x1_0000) / 0x400, 0xDC00 + (v - 0x1_0000) % 0x400]
  }

  /**
   * The JavaScript string holding the characters `s`: its `length` is
   * `|Utf16(s)|`, one unit per character, two for a character outside the
   * Basic Multilingual Plane.
   */
  function Utf16(s: string): (r: seq<CodeUnit>)
    ensures |s| <= |r| <= 2 * |s|
    ensures (forall k :: 0 <= k < |s| ==> s[k] as int < 0x1_0000) ==> |r| == |s|
    ensures (forall k :: 0 <= k < |s| ==> s[k] as int < 0x1_0000) ==>
      forall k :: 0 <= k < |s| ==> r[k] == s[k] as int
  {
    if s == [] then [] else CharUnits(s[0]) + Utf16(s[1..])
  }

  /**
   * Encoding distributes over concatenation: the code units of `a + b` are
   * those of `a` followed by those of `b`, so with `CharUnits` the encoding
   * is fixed character by character.
   */
  lemma {:induction false} Utf16Append(a: string, b: string)
    ensures Utf16(a + b) == Utf16(a) + Utf16(b)
  {
    if a == [] {
      assert a + b == b;
    } else {
      assert (a + b)[0] == a[0] && (a + b)[1..] == a[1..] + b;
      Utf16Append(a[1..], b);
    }
  }
}
