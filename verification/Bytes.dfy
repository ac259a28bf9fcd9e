/** Octets, the ASCII character classes of the server, and the few sequence facts shared by every module. */
module Bytes {

  // An octet.  C's `char` buffers are sequences of these, so '\r' and "GET" can be written as in the source.
  type Byte = c: char | c as int < 256 witness 'A'
  type Bytes = seq<Byte>

  const NUL: Byte := '\0'
  const CRLF: Bytes := ['\r', '\n']

  predicate IsUpper(c: Byte) { 'A' <= c <= 'Z' }

  predicate IsDigit(c: Byte) { '0' <= c <= '9' }

  predicate IsBlank(c: Byte) { c == ' ' || c == '\t' }

  function DigitChar(d: int): Byte
    requires 0 <= d <= 9
  { ('0' as int + d) as char }

  // tolower() in the C locale.
  function Lower(c: Byte): Byte {
    if IsUpper(c) then (c as int + 32) as char else c
  }

  // strncasecmp(a, b, len) == 0 for two texts of length len.
  predicate SameIgnoringCase(a: Bytes, b: Bytes) {
    |a| == |b| && forall i :: 0 <= i < |a| ==> Lower(a[i]) == Lower(b[i])
  }

  // A word of small letters, written with any of them capital.
  predicate AnyCase(s: Bytes, word: Bytes) {
    |s| == |word| &&
    forall i :: 0 <= i < |s| ==>
      s[i] == word[i] || (0x61 <= word[i] as int <= 0x7A && s[i] as int + 0x20 == word[i] as int)
  }

  lemma WordIgnoresCase(s: Bytes, text: Bytes, word: Bytes)
    requires |text| == |word| && forall i :: 0 <= i < |word| ==> !IsUpper(word[i]) && Lower(text[i]) == word[i]
    ensures SameIgnoringCase(s, text) == AnyCase(s, word)
  {}

  function Concat(parts: seq<Bytes>): Bytes {
    if parts == [] then [] else parts[0] + Concat(parts[1..])
  }

  lemma Associate(a: Bytes, b: Bytes, c: Bytes)
    ensures a + b + c == a + (b + c)
  {}

  // The pieces of a text between its delimiters; always at least one piece.
  function Split(s: Bytes, d: Byte): (pieces: seq<Bytes>)
    ensures |pieces| >= 1
  {
    if s == [] then [[]]
    else
      var rest := Split(s[1..], d);
      if s[0] == d then [[]] + rest else [[s[0]] + rest[0]] + rest[1..]
  }

  lemma {:induction false} FirstPiece(s: Bytes, n: nat, d: Byte)
    requires n <= |s| && d !in s[..n]
    requires n < |s| ==> s[n] == d
    ensures Split(s, d) == [s[..n]] + (if n < |s| then Split(s[n + 1..], d) else [])
  {
    if n > 0 {
      assert s[1..][..n - 1] == s[..n][1..];
      FirstPiece(s[1..], n - 1, d);
      assert s[..n] == [s[0]] + s[1..][..n - 1];
      if n < |s| { assert s[1..][n..] == s[n + 1..]; }
    }
  }

  // Cutting at the first occurrence of a delimiter is unambiguous.
  lemma CutUnique(a: Bytes, x: Bytes, b: Bytes, y: Bytes, d: Byte)
    requires d !in a && d !in b
    requires a + [d] + x <= b + [d] + y
    ensures a == b && x <= y
  {
    var s, t := a + [d] + x, b + [d] + y;
    assert t[..|s|] == s;
    assert forall i :: 0 <= i < |s| ==> s[i] == t[i];
    assert s[|a|] == d && t[|b|] == d;
    assert a == s[..|a|] && b == t[..|b|];
    assert x == s[|a| + 1..] && y == t[|b| + 1..];
  }
}
