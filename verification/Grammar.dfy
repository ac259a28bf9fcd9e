/** The request grammar (sections 3.1.1, 3.2 and 3.2.3 of RFC 7230 with this server's stricter rules and limits),
    and the proof that the byte machine of ParserSpec recognises exactly this grammar. */
module Grammar {
  import opened Bytes
  import opened Negotiation
  import opened ParserSpec

  datatype Header = Header(name: Bytes, ows: Bytes, value: Bytes)

  datatype Request = Request(verb: Bytes, target: Bytes, major: int, minor: int, headers: seq<Header>)

  // ---- Byte classes, from the core rules of RFC 5234 (appendix B.1) and the token rule of RFC 7230 (section 3.2.6).
  // Each is shown to be the class of bytes that the machine accepts in its place.

  predicate IsAlpha(c: Byte) { 0x41 <= c as int <= 0x5A || 0x61 <= c as int <= 0x7A }

  predicate IsVchar(c: Byte) { 0x21 <= c as int <= 0x7E }

  predicate IsObsText(c: Byte) { 0x80 <= c as int <= 0xFF }

  // SP / HTAB
  predicate IsWsp(c: Byte)
    ensures IsWsp(c) == IsBlank(c)
  { c as int == 0x20 || c as int == 0x09 }

  // The delimiters of RFC 7230 are the visible bytes outside tokens.
  predicate IsDelimiter(c: Byte) { c in "\"(),/:;<=>?@[\\]{}" }

  predicate IsTchar(c: Byte) { IsVchar(c) && !IsDelimiter(c) }

  // The punctuation that tokens may hold and this server's header names may not.
  predicate IsExcluded(c: Byte) { c in "!#$%&'*+.^`|~" }

  predicate IsVerbByte(c: Byte)
    ensures IsVerbByte(c) == IsUpper(c)
  { IsAlpha(c) && c as int < 0x61 }

  predicate IsTargetByte(c: Byte)
    ensures IsTargetByte(c) == IsPathChar(c)
  { IsVchar(c) || IsObsText(c) }

  predicate IsNameByte(c: Byte)
    ensures IsNameByte(c) == IsNameChar(c)
  { IsTchar(c) && !IsExcluded(c) }

  predicate IsValueByte(c: Byte)
    ensures IsValueByte(c) == IsValueChar(c)
  { IsWsp(c) || IsVchar(c) || IsObsText(c) }

  predicate IsVersionByte(c: Byte)
    ensures IsVersionByte(c) == IsVersionChar(c)
  { IsVchar(c) }

  predicate AllUpper(s: Bytes) { forall c :: c in s ==> IsVerbByte(c) }
  predicate AllPath(s: Bytes) { forall c :: c in s ==> IsTargetByte(c) }
  predicate AllName(s: Bytes) { forall c :: c in s ==> IsNameByte(c) }
  predicate AllBlank(s: Bytes) { forall c :: c in s ==> IsWsp(c) }
  predicate AllValue(s: Bytes) { forall c :: c in s ==> IsValueByte(c) }
  predicate AllVersion(s: Bytes) { forall c :: c in s ==> IsVersionByte(c) }

  // A value starts where the optional white space stops.
  predicate ValueText(s: Bytes) { AllValue(s) && (s != [] ==> !IsWsp(s[0])) }

  // ---- Requests, within the server's limits ------------------------------------------------------------------------

  predicate HeaderOk(h: Header) {
    h.name != [] && AllName(h.name) && AllBlank(h.ows) && ValueText(h.value) && |h.name| + |h.value| <= 8191
  }

  predicate HeadersOk(hs: seq<Header>) { |hs| <= 64 && forall i :: 0 <= i < |hs| ==> HeaderOk(hs[i]) }

  predicate VerbOk(v: Bytes) { 1 <= |v| <= 15 && AllUpper(v) }

  predicate TargetOk(t: Bytes) { 1 <= |t| <= 2047 && AllPath(t) }

  predicate WellFormed(r: Request) {
    VerbOk(r.verb) && TargetOk(r.target) && 0 <= r.major <= 9 && 0 <= r.minor <= 9 && HeadersOk(r.headers)
  }

  function VersionText(major: int, minor: int): Bytes
    requires 0 <= major <= 9 && 0 <= minor <= 9
  { ['H', 'T', 'T', 'P', '/', DigitChar(major), '.', DigitChar(minor)] }

  function HeaderText(h: Header): Bytes { h.name + [':'] + h.ows + h.value }

  function PrintHeader(h: Header): Bytes { HeaderText(h) + CRLF }

  function PrintHeaders(hs: seq<Header>): Bytes {
    if hs == [] then [] else PrintHeaders(hs[..|hs| - 1]) + PrintHeader(hs[|hs| - 1])
  }

  function PrintRequestLine(r: Request): Bytes
    requires WellFormed(r)
  { r.verb + [' '] + r.target + [' '] + VersionText(r.major, r.minor) + CRLF }

  function Print(r: Request): Bytes
    requires WellFormed(r)
  { PrintRequestLine(r) + PrintHeaders(r.headers) + CRLF }

  // The directive the grammar assigns: the last recognised option of all Connection headers, in order.
  function AllOptions(hs: seq<Header>): seq<Directive> {
    if hs == [] then []
    else
      var h := hs[|hs| - 1];
      AllOptions(hs[..|hs| - 1]) + (if SameIgnoringCase(h.name, CONNECTION) then Options(h.value) else [])
  }

  function DirectiveOf(hs: seq<Header>): Directive { LastOf(Unspecified, AllOptions(hs)) }

  // The parser has stored what the grammar says the request is.
  predicate Holds(p: Parser, r: Request) {
    p.verb == r.verb && p.methodId == Classify(r.verb) && p.path == r.target &&
    p.major == r.major && p.minor == r.minor &&
    p.headerCount == |r.headers| && p.directive == DirectiveOf(r.headers)
  }

  // ---- The machine with its history -----------------------------------------------------------------------

  // The parser together with what it has read and forgotten: finished headers and the current white space.
  datatype Trace = Trace(p: Parser, past: seq<Header>, ows: Bytes)

  const START := Trace(INIT, [], [])

  function Advance(t: Trace, c: Byte): Trace {
    Trace(Consume(t.p, c),
          if t.p.state.HeaderLf? && c == '\n' then t.past + [CurrentHeader(t)] else t.past,
          if t.p.state.HeaderLineStart? || t.p.state.HeaderName? then []
          else if t.p.state.HeaderValueSp? && IsBlank(c) then t.ows + [c]
          else t.ows)
  }

  function CurrentHeader(t: Trace): Header {
    if t.p.nameLen <= |t.p.line|
    then Header(t.p.line[..t.p.nameLen], t.ows, t.p.line[t.p.nameLen..])
    else Header([], [], [])
  }

  function Feed(t: Trace, s: Bytes): Trace
    decreases s
  {
    if s == [] then t else Feed(Advance(t, s[0]), s[1..])
  }

  function Line(p: Parser): Bytes { p.verb + [' '] + p.path + [' '] + p.version }

  // The text a trace has consumed, read off the trace.
  function Spelled(t: Trace): Bytes {
    var p := t.p;
    var front := Line(p) + CRLF + PrintHeaders(t.past);
    match p.state
    case InMethod => p.verb
    case InPath => p.verb + [' '] + p.path
    case InVersion => Line(p)
    case RequestLineLf => Line(p) + ['\r']
    case HeaderLineStart => front
    case HeaderName => front + p.line
    case HeaderValueSp | HeaderValue => front + HeaderText(CurrentHeader(t))
    case HeaderLf => front + HeaderText(CurrentHeader(t)) + ['\r']
    case HeadersEndLf => front + ['\r']
    case Done => front + CRLF
    case Failed => []
  }

  predicate VersionKnown(p: Parser) {
    IsValidVersion(p.version) && p.major == Digit(p.version[5]) && p.minor == Digit(p.version[7])
  }

  predicate PastOk(t: Trace) {
    HeadersOk(t.past) && t.p.headerCount == |t.past| && t.p.directive == DirectiveOf(t.past)
  }

  predicate LineOk(t: Trace) {
    |t.past| < MAX_HEADERS && 0 < |t.p.line| < HEADER_LINE_MAX
  }

  // Everything a non-failed parser knows about the text behind it.
  predicate Coherent(t: Trace) {
    var p := t.p;
    |p.verb| < METHOD_MAX && AllUpper(p.verb) && PastOk(t) &&
    (if p.state.InMethod? then p == INIT.(verb := p.verb) && t.past == []
     else
       VerbOk(p.verb) && p.methodId == Classify(p.verb) &&
       |p.path| < TARGET_MAX && AllPath(p.path) &&
       (if p.state.InPath? then p.version == [] && t.past == []
        else
          TargetOk(p.path) && |p.version| < VERSION_MAX && AllVersion(p.version) &&
          (if p.state.InVersion? then t.past == []
           else VersionKnown(p) && (p.state.RequestLineLf? ==> t.past == []) && CoherentHeader(t))))
  }

  predicate CoherentHeader(t: Trace) {
    var p := t.p;
    match p.state
    case HeaderName => LineOk(t) && AllName(p.line)
    case HeaderValueSp =>
      LineOk(t) && p.nameLen == |p.line| && AllName(p.line) && AllBlank(t.ows)
    case HeaderValue | HeaderLf =>
      LineOk(t) && 0 < p.nameLen <= |p.line| && HeaderOk(CurrentHeader(t)) &&
      (p.state.HeaderValue? ==> CurrentHeader(t).value != [])
    case Failed => false
    case _ => true
  }

  // One byte: either the machine fails, or the byte extends the spelling.
  lemma AdvanceRequestLine(t: Trace, c: Byte)
    requires Coherent(t) && (t.p.state.InMethod? || t.p.state.InPath? || t.p.state.InVersion? ||
             t.p.state.RequestLineLf?)
    requires !Advance(t, c).p.state.Failed?
    ensures Coherent(Advance(t, c)) && Spelled(Advance(t, c)) == Spelled(t) + [c]
  {
    hide HeaderText;
    assert PrintHeaders([]) == [];
  }

  // The line buffer grows by one byte, after the name or inside it.
  lemma AdvanceName(t: Trace, c: Byte)
    requires Coherent(t) && (t.p.state.HeaderLineStart? || t.p.state.HeaderName? || t.p.state.HeadersEndLf?)
    requires !Advance(t, c).p.state.Failed?
    ensures Coherent(Advance(t, c)) && Spelled(Advance(t, c)) == Spelled(t) + [c]
  {
    var p := t.p;
    if p.state.HeaderName? && c == ':' {
      assert p.line[..|p.line|] == p.line;
    }
  }

  lemma AdvanceBlank(t: Trace, c: Byte)
    requires Coherent(t) && t.p.state.HeaderValueSp? && IsBlank(c)
    ensures Coherent(Advance(t, c)) && Spelled(Advance(t, c)) == Spelled(t) + [c]
  {
    var h := CurrentHeader(t);
    assert h.value == [];
    var h' := CurrentHeader(Advance(t, c));
    assert h' == h.(ows := h.ows + [c]);
    assert HeaderText(h') == HeaderText(h) + [c];
  }

  lemma AdvanceValueByte(t: Trace, c: Byte)
    requires Coherent(t) && (t.p.state.HeaderValueSp? || t.p.state.HeaderValue?) && c != '\r'
    requires t.p.state.HeaderValueSp? ==> !IsBlank(c)
    requires !Advance(t, c).p.state.Failed?
    ensures Coherent(Advance(t, c)) && Spelled(Advance(t, c)) == Spelled(t) + [c]
  {
    var t' := t.(p := t.p.(line := t.p.line + [c], state := HeaderValue));
    assert Advance(t, c) == t' && IsValueChar(c) && |t.p.line| < HEADER_LINE_MAX - 1;
    hide Advance;
    GrowValue(t, c);
  }

  lemma GrowValue(t: Trace, c: Byte)
    requires Coherent(t) && (t.p.state.HeaderValueSp? || t.p.state.HeaderValue?)
    requires IsValueChar(c) && |t.p.line| < HEADER_LINE_MAX - 1 && (t.p.state.HeaderValueSp? ==> !IsBlank(c))
    ensures var t' := t.(p := t.p.(line := t.p.line + [c], state := HeaderValue));
            Coherent(t') && Spelled(t') == Spelled(t) + [c]
  {
    hide PrintHeaders;
    hide DirectiveOf;
    var h := CurrentHeader(t);
    var h' := CurrentHeader(t.(p := t.p.(line := t.p.line + [c], state := HeaderValue)));
    assert h.value == [] ==> t.p.state.HeaderValueSp?;
    assert h' == h.(value := h.value + [c]);
    assert HeaderText(h') == HeaderText(h) + [c];
  }

  lemma AdvanceValueEnd(t: Trace)
    requires Coherent(t) && (t.p.state.HeaderValueSp? || t.p.state.HeaderValue?)
    ensures Coherent(Advance(t, '\r')) && Spelled(Advance(t, '\r')) == Spelled(t) + ['\r']
  {
    var h := CurrentHeader(t);
    assert t.p.state.HeaderValueSp? ==> h == Header(t.p.line, t.ows, []);
    assert CurrentHeader(Advance(t, '\r')) == h;
  }

  lemma PastGrows(past: seq<Header>, h: Header)
    ensures PrintHeaders(past + [h]) == PrintHeaders(past) + PrintHeader(h)
    ensures DirectiveOf(past + [h]) ==
            if SameIgnoringCase(h.name, CONNECTION) then LastOf(DirectiveOf(past), Options(h.value))
            else DirectiveOf(past)
  {
    assert (past + [h])[..|past + [h]| - 1] == past;
    LastOfAppend(Unspecified, AllOptions(past),
                 if SameIgnoringCase(h.name, CONNECTION) then Options(h.value) else []);
  }

  lemma AdvanceLf(t: Trace, c: Byte)
    requires Coherent(t) && t.p.state.HeaderLf?
    requires !Advance(t, c).p.state.Failed?
    ensures Coherent(Advance(t, c)) && Spelled(Advance(t, c)) == Spelled(t) + [c]
  {
    var h := CurrentHeader(t);
    PastGrows(t.past, h);
    hide PrintHeaders;
    hide DirectiveOf;
    assert PrintHeader(h) == HeaderText(h) + ['\r'] + ['\n'];
    assert HeadersOk(t.past + [h]);
  }

  lemma AdvanceSpells(t: Trace, c: Byte)
    requires Coherent(t) && !t.p.Terminal() && !Advance(t, c).p.state.Failed?
    ensures Coherent(Advance(t, c)) && Spelled(Advance(t, c)) == Spelled(t) + [c]
  {
    match t.p.state
    case InMethod | InPath | InVersion | RequestLineLf => AdvanceRequestLine(t, c);
    case HeaderLineStart | HeaderName | HeadersEndLf => AdvanceName(t, c);
    case HeaderValueSp | HeaderValue =>
      if t.p.state.HeaderValueSp? && IsBlank(c) { AdvanceBlank(t, c); }
      else if c == '\r' { AdvanceValueEnd(t); }
      else { AdvanceValueByte(t, c); }
    case HeaderLf => AdvanceLf(t, c);
  }

  // ---- Soundness: what was consumed is what the trace spells ------------------------------------------------

  lemma {:induction false} FeedAppend(t: Trace, a: Bytes, b: Bytes)
    ensures Feed(t, a + b) == Feed(Feed(t, a), b)
    decreases a
  {
    hide Advance;
    if a == [] {
      assert a + b == b;
    } else {
      FeedAppend(Advance(t, a[0]), a[1..], b);
      assert (a + b)[1..] == a[1..] + b;
    }
  }

  lemma FeedOne(t: Trace, a: Bytes, c: Byte)
    ensures Feed(t, a + [c]) == Advance(Feed(t, a), c)
  {
    FeedAppend(t, a, [c]);
    assert Feed(Feed(t, a), [c]) == Feed(Advance(Feed(t, a), c), []);
  }

  lemma {:induction false} FeedTerminal(t: Trace, s: Bytes)
    requires t.p.Terminal()
    ensures Feed(t, s).p == t.p
    decreases s
  {
    if s != [] { FeedTerminal(Advance(t, s[0]), s[1..]); }
  }

  lemma {:induction false} FeedRunning(t: Trace, s: Bytes)
    requires !Feed(t, s).p.Terminal()
    ensures Execute(t.p, s) == Outcome(Incomplete, |s|, Feed(t, s).p)
    decreases s
  {
    if t.p.Terminal() { FeedTerminal(t, s); }
    if s != [] { FeedRunning(Advance(t, s[0]), s[1..]); }
  }

  lemma {:induction false} FeedConsumed(t: Trace, s: Bytes)
    ensures Feed(t, s[..Execute(t.p, s).consumed]).p == Execute(t.p, s).parser
    decreases s
  {
    if !t.p.Terminal() && s != [] {
      var n := Execute(t.p, s).consumed;
      assert s[..n][1..] == s[1..][..n - 1];
      FeedConsumed(Advance(t, s[0]), s[1..]);
    }
  }

  lemma {:induction false} RunningUntilConsumed(t: Trace, s: Bytes, k: nat)
    requires k < Execute(t.p, s).consumed
    ensures !Feed(t, s[..k]).p.Terminal()
    decreases s
  {
    if k > 0 {
      RunningUntilConsumed(Advance(t, s[0]), s[1..], k - 1);
      assert s[..k][1..] == s[1..][..k - 1];
    }
  }

  lemma {:induction false} FeedSpells(t: Trace, s: Bytes)
    requires Coherent(t) && !Feed(t, s).p.state.Failed?
    requires s != [] ==> !Feed(t, s[..|s| - 1]).p.Terminal()
    ensures Coherent(Feed(t, s)) && Spelled(Feed(t, s)) == Spelled(t) + s
    decreases |s|, 0
  {
    if s == [] {
      assert Spelled(t) + s == Spelled(t);
    } else {
      assert s == s[..|s| - 1] + [s[|s| - 1]];
      SpellsStep(t, s[..|s| - 1], s[|s| - 1]);
    }
  }

  lemma {:induction false} SpellsStep(t: Trace, a: Bytes, c: Byte)
    requires Coherent(t) && !Feed(t, a).p.Terminal() && !Feed(t, a + [c]).p.state.Failed?
    ensures Coherent(Feed(t, a + [c])) && Spelled(Feed(t, a + [c])) == Spelled(t) + (a + [c])
    decreases |a|, 1
  {
    hide Coherent;
    hide Spelled;
    hide Advance;
    if a != [] { RunningBefore(t, a); }
    FeedSpells(t, a);
    FeedOne(t, a, c);
    AdvanceSpells(Feed(t, a), c);
    assert Spelled(t) + a + [c] == Spelled(t) + (a + [c]);
  }

  lemma RunningBefore(t: Trace, a: Bytes)
    requires a != [] && !Feed(t, a).p.Terminal()
    ensures !Feed(t, a[..|a| - 1]).p.Terminal()
  {
    var n := |a| - 1;
    assert a == a[..n] + [a[n]];
    FeedAppend(t, a[..n], [a[n]]);
    if Feed(t, a[..n]).p.Terminal() { FeedTerminal(Feed(t, a[..n]), [a[n]]); }
  }

  lemma StartIsCoherent()
    ensures Coherent(START) && Spelled(START) == []
  {}

  // From a fresh parser, unless it fails, the trace spells exactly the consumed bytes.
  lemma ConsumedIsSpelled(s: Bytes) returns (t: Trace)
    requires !Execute(INIT, s).result.Error?
    ensures t == Feed(START, s[..Execute(INIT, s).consumed])
    ensures t.p == Execute(INIT, s).parser && Coherent(t) && Spelled(t) == s[..Execute(INIT, s).consumed]
  {
    hide Execute;
    hide Feed;
    hide Coherent;
    hide Spelled;
    StartIsCoherent();
    var a := s[..Execute(INIT, s).consumed];
    t := Feed(START, a);
    FeedConsumed(START, s);
    if a != [] {
      RunningUntilConsumed(START, s, |a| - 1);
      assert a[..|a| - 1] == s[..|a| - 1];
    }
    FeedSpells(START, a);
    assert [] + a == a;
  }

  function RequestOf(t: Trace): Request { Request(t.p.verb, t.p.path, t.p.major, t.p.minor, t.past) }

  lemma DoneSpellsRequest(t: Trace)
    requires Coherent(t) && t.p.state.Done?
    ensures WellFormed(RequestOf(t)) && Spelled(t) == Print(RequestOf(t)) && Holds(t.p, RequestOf(t))
  {
    assert t.p.version == VersionText(t.p.major, t.p.minor);
  }

  lemma CompleteIsWellFormed(s: Bytes) returns (r: Request)
    requires Execute(INIT, s).result.Complete?
    ensures WellFormed(r) && Print(r) == s[..Execute(INIT, s).consumed] && Holds(Execute(INIT, s).parser, r)
  {
    var t := ConsumedIsSpelled(s);
    DoneSpellsRequest(t);
    r := RequestOf(t);
  }

  // ---- Completeness: the text of a request drives the machine to Done ----------------------------------------

  lemma FeedStops(t: Trace, a: Bytes, c: Byte)
    requires !Feed(t, a).p.Terminal() && Feed(t, a + [c]).p.state.Done?
    ensures Execute(t.p, a + [c]) == Outcome(Complete, |a| + 1, Feed(t, a + [c]).p)
  {
    hide Feed;
    var p := Feed(t, a).p;
    FeedRunning(t, a);
    FeedOne(t, a, c);
    ChunkingInvariance(t.p, a, [c]);
    assert Execute(p, [c]) == Execute(Consume(p, c), []).(consumed := 1);
  }

  lemma {:induction false} FeedVerb(t: Trace, s: Bytes)
    requires t.p.state.InMethod? && AllUpper(s) && |t.p.verb| + |s| < METHOD_MAX
    ensures Feed(t, s) == t.(p := t.p.(verb := t.p.verb + s))
    decreases s
  {
    if s == [] { assert t.p.verb + s == t.p.verb; }
    else {
      assert s[0] in s;
      FeedVerb(Advance(t, s[0]), s[1..]);
      assert t.p.verb + [s[0]] + s[1..] == t.p.verb + s;
    }
  }

  lemma {:induction false} FeedPath(t: Trace, s: Bytes)
    requires t.p.state.InPath? && AllPath(s) && |t.p.path| + |s| < TARGET_MAX
    ensures Feed(t, s) == t.(p := t.p.(path := t.p.path + s))
    decreases s
  {
    if s == [] { assert t.p.path + s == t.p.path; }
    else {
      assert s[0] in s;
      FeedPath(Advance(t, s[0]), s[1..]);
      assert t.p.path + [s[0]] + s[1..] == t.p.path + s;
    }
  }

  lemma {:induction false} FeedVersion(t: Trace, s: Bytes)
    requires t.p.state.InVersion? && AllVersion(s) && |t.p.version| + |s| < VERSION_MAX
    ensures Feed(t, s) == t.(p := t.p.(version := t.p.version + s))
    decreases s
  {
    if s == [] { assert t.p.version + s == t.p.version; }
    else {
      assert s[0] in s;
      FeedVersion(Advance(t, s[0]), s[1..]);
      assert t.p.version + [s[0]] + s[1..] == t.p.version + s;
    }
  }

  lemma {:induction false} FeedName(t: Trace, s: Bytes)
    requires t.p.state.HeaderName? && t.ows == [] && AllName(s) && |t.p.line| + |s| < HEADER_LINE_MAX
    ensures Feed(t, s) == t.(p := t.p.(line := t.p.line + s))
    decreases s
  {
    if s == [] { assert t.p.line + s == t.p.line; }
    else {
      assert s[0] in s;
      FeedName(Advance(t, s[0]), s[1..]);
      assert t.p.line + [s[0]] + s[1..] == t.p.line + s;
    }
  }

  lemma {:induction false} FeedBlanks(t: Trace, s: Bytes)
    requires t.p.state.HeaderValueSp? && AllBlank(s)
    ensures Feed(t, s) == t.(ows := t.ows + s)
    decreases s
  {
    if s == [] { assert t.ows + s == t.ows; }
    else {
      assert s[0] in s;
      FeedBlanks(Advance(t, s[0]), s[1..]);
      assert t.ows + [s[0]] + s[1..] == t.ows + s;
    }
  }

  lemma {:induction false} FeedRestOfValue(t: Trace, s: Bytes)
    requires t.p.state.HeaderValue? && AllValue(s) && |t.p.line| + |s| < HEADER_LINE_MAX
    ensures Feed(t, s) == t.(p := t.p.(line := t.p.line + s))
    decreases s
  {
    if s == [] { assert t.p.line + s == t.p.line; }
    else {
      assert s[0] in s;
      FeedRestOfValue(Advance(t, s[0]), s[1..]);
      assert t.p.line + [s[0]] + s[1..] == t.p.line + s;
    }
  }

  // The machine stands at the start of a header line after the request line of `r` and the headers `hs`.
  predicate AtLineStart(t: Trace, r: Request, hs: seq<Header>)
    requires WellFormed(r)
  {
    t.p.state.HeaderLineStart? && t.p.verb == r.verb && t.p.methodId == Classify(r.verb) && t.p.path == r.target &&
    t.p.major == r.major && t.p.minor == r.minor && t.past == hs &&
    t.p.headerCount == |hs| && t.p.directive == DirectiveOf(hs)
  }

  lemma FeedRequestLine(r: Request)
    requires WellFormed(r)
    ensures AtLineStart(Feed(START, PrintRequestLine(r)), r, [])
  {
    hide Feed;
    var v := VersionText(r.major, r.minor);
    var t1 := Feed(START, r.verb);
    FeedVerb(START, r.verb);
    assert [] + r.verb == r.verb;
    var t2 := Feed(START, r.verb + [' ']);
    FeedOne(START, r.verb, ' ');
    FeedAppend(START, r.verb + [' '], r.target);
    FeedPath(t2, r.target);
    assert [] + r.target == r.target;
    FeedOne(START, r.verb + [' '] + r.target, ' ');
    var t3 := Feed(START, r.verb + [' '] + r.target + [' ']);
    FeedAppend(START, r.verb + [' '] + r.target + [' '], v);
    FeedVersion(t3, v);
    assert [] + v == v;
    FeedCrLf(START, r.verb + [' '] + r.target + [' '] + v);
  }

  lemma FeedCrLf(t: Trace, s: Bytes)
    ensures Feed(t, s + CRLF) == Advance(Advance(Feed(t, s), '\r'), '\n')
  {
    assert s + CRLF == s + ['\r'] + ['\n'];
    FeedOne(t, s, '\r');
    FeedOne(t, s + ['\r'], '\n');
  }

  lemma FeedHeader(t: Trace, r: Request, h: Header)
    requires WellFormed(r) && AtLineStart(t, r, t.past) && |t.past| < MAX_HEADERS && HeaderOk(h)
    ensures AtLineStart(Feed(t, PrintHeader(h)), r, t.past + [h])
  {
    hide Feed;
    hide Advance;
    FeedHeaderName(t, h.name);
    var t1 := Feed(t, h.name + [':']);
    FeedAppend(t, h.name + [':'], h.ows);
    FeedBlanks(t1, h.ows);
    assert [] + h.ows == h.ows;
    var t2 := Feed(t, h.name + [':'] + h.ows);
    FeedAppend(t, h.name + [':'] + h.ows, h.value);
    FeedValueCr(t2, h.value);
    FeedCrLf(t, HeaderText(h));
    var t3 := Advance(Feed(t, HeaderText(h)), '\r');
    EndOfHeader(t3, r, h);
  }

  lemma EndOfHeader(t: Trace, r: Request, h: Header)
    requires WellFormed(r) && t.p.state.HeaderLf? && AtLineStart(t.(p := t.p.(state := HeaderLineStart)), r, t.past)
    requires t.p.line == h.name + h.value && t.p.nameLen == |h.name| && t.ows == h.ows
    ensures AtLineStart(Advance(t, '\n'), r, t.past + [h])
  {
    assert CurrentHeader(t) == h;
    PastGrows(t.past, h);
  }

  lemma FeedHeaderName(t: Trace, name: Bytes)
    requires t.p.state.HeaderLineStart? && t.p.headerCount < MAX_HEADERS
    requires name != [] && AllName(name) && |name| < HEADER_LINE_MAX
    ensures Feed(t, name + [':']) == Trace(t.p.(line := name, nameLen := |name|, state := HeaderValueSp), t.past, [])
  {
    var rest := name[1..];
    assert name == [name[0]] + rest && name[0] in name;
    FeedAppend(t, [name[0]], rest);
    var t1 := Advance(t, name[0]);
    assert Feed(t, [name[0]]) == Feed(t1, []);
    FeedName(t1, rest);
    FeedOne(t, name, ':');
  }

  lemma FeedValueCr(t: Trace, value: Bytes)
    requires t.p.state.HeaderValueSp? && ValueText(value) && |t.p.line| + |value| < HEADER_LINE_MAX
    ensures Advance(Feed(t, value), '\r') == t.(p := t.p.(line := t.p.line + value, state := HeaderLf))
  {
    hide Advance;
    if value == [] {
      assert t.p.line + value == t.p.line;
      EndOfValue(t);
    } else {
      var rest := value[1..];
      assert IsValueByte(value[0]);
      var t1 := FirstOfValue(t, value[0]);
      FeedRestOfValue(t1, rest);
      assert t.p.line + [value[0]] + rest == t.p.line + value;
      EndOfValue(Feed(t, value));
    }
  }

  lemma EndOfValue(t: Trace)
    requires t.p.state.HeaderValueSp? || t.p.state.HeaderValue?
    ensures Advance(t, '\r') == t.(p := t.p.(state := HeaderLf))
  {}

  lemma FirstOfValue(t: Trace, c: Byte) returns (t1: Trace)
    requires t.p.state.HeaderValueSp? && IsValueChar(c) && !IsBlank(c) && |t.p.line| + 1 < HEADER_LINE_MAX
    ensures t1 == Advance(t, c) == t.(p := t.p.(line := t.p.line + [c], state := HeaderValue))
  {
    t1 := Advance(t, c);
  }

  lemma {:induction false} FeedHeaders(t: Trace, r: Request, hs: seq<Header>)
    requires WellFormed(r) && HeadersOk(hs) && AtLineStart(t, r, [])
    ensures AtLineStart(Feed(t, PrintHeaders(hs)), r, hs)
    decreases |hs|
  {
    hide Feed;
    hide PrintHeader;
    hide DirectiveOf;
    if hs == [] {
      FeedNothing(t);
    } else {
      var n := |hs| - 1;
      FeedHeaders(t, r, hs[..n]);
      FeedAppend(t, PrintHeaders(hs[..n]), PrintHeader(hs[n]));
      FeedHeader(Feed(t, PrintHeaders(hs[..n])), r, hs[n]);
      assert hs == hs[..n] + [hs[n]];
    }
  }

  lemma FeedNothing(t: Trace)
    ensures Feed(t, []) == t
  {}

  // The printed request, and not less, completes the parser, which then holds the request.
  lemma FeedRequest(r: Request)
    requires WellFormed(r)
    ensures var text := Print(r); var all := Feed(START, text);
            all.p.state.Done? && RequestOf(all) == r && Holds(all.p, r) &&
            text != [] && Feed(START, text[..|text| - 1]).p.state.HeadersEndLf?
  {
    hide Feed;
    var front := PrintRequestLine(r) + PrintHeaders(r.headers);
    FeedRequestLine(r);
    FeedAppend(START, PrintRequestLine(r), PrintHeaders(r.headers));
    FeedHeaders(Feed(START, PrintRequestLine(r)), r, r.headers);
    FeedCrLf(START, front);
    FeedOne(START, front, '\r');
    assert Print(r)[..|Print(r)| - 1] == front + ['\r'];
  }

  // ---- The theorems -------------------------------------------------------------------------------------------

  lemma PrintedIsComplete(r: Request, rest: Bytes)
    requires WellFormed(r)
    ensures var o := Execute(INIT, Print(r) + rest);
            o.result.Complete? && o.consumed == |Print(r)| && Holds(o.parser, r)
  {
    hide Feed;
    hide Print;
    var text := Print(r);
    FeedRequest(r);
    var n := |text| - 1;
    assert text == text[..n] + [text[n]];
    FeedStops(START, text[..n], text[n]);
    TerminalIgnoresRest(INIT, text, rest);
  }

  // COMPLETE exactly on inputs that start with a well-formed request; that start is the only one, its length is
  // what was consumed, and the parser holds what the grammar assigns to it.
  lemma ParserEqualsGrammar(s: Bytes)
    ensures Execute(INIT, s).result.Complete? <==> exists r :: WellFormed(r) && Print(r) <= s
    ensures forall r :: WellFormed(r) && Print(r) <= s ==>
              Execute(INIT, s).consumed == |Print(r)| && Holds(Execute(INIT, s).parser, r)
  {
    if Execute(INIT, s).result.Complete? {
      var r := CompleteIsWellFormed(s);
      assert WellFormed(r) && Print(r) <= s;
    }
    forall r | WellFormed(r) && Print(r) <= s
      ensures Execute(INIT, s).result.Complete?
      ensures Execute(INIT, s).consumed == |Print(r)| && Holds(Execute(INIT, s).parser, r)
    {
      assert s == Print(r) + s[|Print(r)|..];
      PrintedIsComplete(r, s[|Print(r)|..]);
    }
  }

  const GET_HOME: Bytes := "GET / HTTP/1.1\r\n"
  const USER_AGENT: Bytes := "User-Agent"

  function AgentRequest(agent: Bytes): Request {
    Request(['G', 'E', 'T'], ['/'], 1, 1, [Header(USER_AGENT, [' '], agent)])
  }

  lemma AgentRequestOk(agent: Bytes)
    requires ValueText(agent) && |agent| <= 8181
    ensures WellFormed(AgentRequest(agent))
  {
    hide ValueText;
    var letters: Bytes := USER_AGENT;
    assert forall i :: 0 <= i < 10 ==> IsNameChar(letters[i]);
  }

  lemma AgentRequestLine(r: Request)
    requires WellFormed(r) && r.verb == ['G', 'E', 'T'] && r.target == ['/'] && r.major == 1 && r.minor == 1
    ensures PrintRequestLine(r) == GET_HOME
  {
    hide WellFormed;
    assert VersionText(1, 1) == ['H', 'T', 'T', 'P', '/', '1', '.', '1'];
  }

  lemma AgentRequestText(agent: Bytes)
    requires WellFormed(AgentRequest(agent))
    ensures Print(AgentRequest(agent)) == GET_HOME + (USER_AGENT + [':', ' '] + agent + CRLF) + CRLF
  {
    hide WellFormed;
    hide PrintRequestLine;
    AgentRequestLine(AgentRequest(agent));
    var h := Header(USER_AGENT, [' '], agent);
    assert PrintHeaders([h]) == PrintHeaders([]) + PrintHeader(h) == PrintHeader(h);
    assert USER_AGENT + [':'] + [' '] == USER_AGENT + [':', ' '];
  }

  // Header names may hold a hyphen: whatever it announces, a client that names itself is understood.
  lemma UserAgentIsAccepted(agent: Bytes, rest: Bytes)
    requires ValueText(agent) && |agent| <= 8181
    ensures var text := GET_HOME + (USER_AGENT + [':', ' '] + agent + CRLF) + CRLF;
            var o := Execute(INIT, text + rest);
            o.result.Complete? && o.consumed == |text| && o.parser.headerCount == 1
  {
    hide Execute;
    hide Print;
    hide WellFormed;
    AgentRequestOk(agent);
    AgentRequestText(agent);
    PrintedIsComplete(AgentRequest(agent), rest);
  }

  // Request texts are prefix-free and determine the request.
  lemma PrintIsUnambiguous(r1: Request, r2: Request)
    requires WellFormed(r1) && WellFormed(r2) && Print(r1) <= Print(r2)
    ensures r1 == r2
  {
    var s := Print(r2);
    ParserEqualsGrammar(s);
    assert Print(r1) == Print(r2);
    FeedRequest(r1);
    FeedRequest(r2);
  }
}
