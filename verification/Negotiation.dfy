/** The Connection header as a list of options (sections 6.1 and 6.3 of RFC 7230). */
module Negotiation {
  import opened Bytes

  datatype Directive = Unspecified | Close | KeepAlive

  const CONNECTION: Bytes := "Connection"
  const CLOSE: Bytes := "close"
  const KEEP_ALIVE: Bytes := "keep-alive"

  function TrimLeft(s: Bytes): Bytes {
    if s != [] && IsBlank(s[0]) then TrimLeft(s[1..]) else s
  }

  function TrimRight(s: Bytes): Bytes {
    if s != [] && IsBlank(s[|s| - 1]) then TrimRight(s[..|s| - 1]) else s
  }

  function Trim(s: Bytes): Bytes { TrimRight(TrimLeft(s)) }

  // What one option asks for, if it is one of the two the server knows.
  function Recognise(option: Bytes): Directive {
    if SameIgnoringCase(option, CLOSE) then Close
    else if SameIgnoringCase(option, KEEP_ALIVE) then KeepAlive
    else Unspecified
  }

  // What the options of one Connection header ask for, in order.
  function Options(value: Bytes): seq<Directive> {
    var pieces := Split(value, ',');
    seq(|pieces|, i requires 0 <= i < |pieces| => Recognise(Trim(pieces[i])))
  }

  // The last recognised option, or `d` when there is none.
  function LastOf(d: Directive, options: seq<Directive>): Directive {
    if options == [] then d
    else if options[|options| - 1] != Unspecified then options[|options| - 1]
    else LastOf(d, options[..|options| - 1])
  }

  predicate KeepsAlive(d: Directive, major: int, minor: int) {
    match d
    case Close => false
    case KeepAlive => true
    case Unspecified => major == 1 && minor >= 1
  }

  // The documented rule: HTTP/1.1 and later persist by default, and an explicit directive wins either way.
  predicate Documented(d: Directive, major: int, minor: int) {
    d.KeepAlive? || (d.Unspecified? && (major > 1 || (major == 1 && minor >= 1)))
  }

  // The code follows it, except for later major versions without a directive.
  lemma DefaultIsDocumented(d: Directive, major: int, minor: int)
    ensures KeepsAlive(d, major, minor) == Documented(d, major, minor) <==> !(d.Unspecified? && major >= 2)
  {}

  lemma {:induction false} LastOfAppend(d: Directive, a: seq<Directive>, b: seq<Directive>)
    ensures LastOf(d, a + b) == LastOf(LastOf(d, a), b)
  {
    if b == [] {
      assert a + b == a;
    } else {
      var n := |b| - 1;
      LastOfAppend(d, a, b[..n]);
      assert (a + b)[..|a + b| - 1] == a + b[..n];
    }
  }

  // The steps of the header scanner, as laws of the meaning it computes.

  lemma SkipBlank(d: Directive, value: Bytes)
    requires value != [] && IsBlank(value[0])
    ensures LastOf(d, Options(value)) == LastOf(d, Options(value[1..]))
  {
    var pieces, rest := Split(value, ','), Split(value[1..], ',');
    assert pieces[0][1..] == rest[0];
    assert Trim(pieces[0]) == Trim(rest[0]);
    assert Options(value) == Options(value[1..]);
  }

  lemma SkipComma(d: Directive, value: Bytes)
    requires value != [] && value[0] == ','
    ensures LastOf(d, Options(value)) == LastOf(d, Options(value[1..]))
  {
    var rest := Split(value[1..], ',');
    assert Options(value) == [Recognise([])] + Options(value[1..]);
    LastOfAppend(d, [Recognise([])], Options(value[1..]));
  }

  lemma TakeToken(d: Directive, value: Bytes, n: nat)
    requires n <= |value| && ',' !in value[..n]
    requires n < |value| ==> value[n] == ','
    requires value != [] && !IsBlank(value[0])
    ensures LastOf(d, Options(value))
         == LastOf(LastOf(d, [Recognise(TrimRight(value[..n]))]), Options(value[n..]))
  {
    FirstPiece(value, n, ',');
    var first := [Recognise(TrimRight(value[..n]))];
    assert Trim(value[..n]) == TrimRight(value[..n]);
    if n < |value| {
      assert Options(value) == first + Options(value[n + 1..]);
      LastOfAppend(d, first, Options(value[n + 1..]));
      SkipComma(LastOf(d, first), value[n..]);
      assert value[n..][1..] == value[n + 1..];
    } else {
      assert Options(value) == first;
      assert Split([], ',') == [[]];
      assert Options(value[n..]) == [Unspecified];
    }
  }
}
