/** When the parser reports an error, how much it can swallow before it must decide, and pipelined round trips. */
module Recognition {
  import opened Bytes
  import opened ParserSpec
  import opened Grammar

  // The bytes read so far start, or can still be continued to start, with a well-formed request.
  ghost predicate Extendable(s: Bytes) {
    exists r :: WellFormed(r) && (Print(r) <= s || s <= Print(r))
  }

  predicate VersionPrefix(v: Bytes) {
    exists major: int, minor: int :: 0 <= major <= 9 && 0 <= minor <= 9 && v <= VersionText(major, minor)
  }

  predicate StalledParts(s: Bytes, m: Bytes, t: Bytes, v: Bytes) {
    s == m + [' '] + t + [' '] + v && VerbOk(m) && TargetOk(t) &&
    AllVersion(v) && |v| <= 15 && !VersionPrefix(v)
  }

  // The version token is already wrong, but neither finished by CR nor longer than its buffer.
  ghost predicate StalledVersion(s: Bytes) {
    exists m: Bytes, t: Bytes, v: Bytes :: StalledParts(s, m, t, v)
  }

  lemma ErrorIsHopeless(s: Bytes)
    requires Execute(INIT, s).result.Error?
    ensures !Extendable(s)
  {
    hide Execute;
    hide Print;
    forall r | WellFormed(r) ensures !(Print(r) <= s || s <= Print(r)) {
      if Print(r) <= s { ParserEqualsGrammar(s); }
      if s <= Print(r) {
        assert Print(r) == s + Print(r)[|s|..];
        TerminalIgnoresRest(INIT, s, Print(r)[|s|..]);
        ParserEqualsGrammar(Print(r));
      }
    }
  }

  // A running machine can be driven to Done, unless its version token is beyond repair.
  lemma FinishRequestLine(t: Trace) returns (r: Request)
    requires Coherent(t) && (t.p.state.InMethod? || t.p.state.InPath? || t.p.state.InVersion? ||
             t.p.state.RequestLineLf?)
    requires t.p.state.InVersion? ==> VersionPrefix(t.p.version)
    ensures WellFormed(r) && Spelled(t) <= Print(r)
  {
    var p := t.p;
    var verb: Bytes := if p.verb == [] then ['A'] else p.verb;
    var path: Bytes := if p.state.InMethod? || p.path == [] then ['/'] else p.path;
    var major: int, minor: int := 1, 1;
    if p.state.RequestLineLf? {
      major, minor := p.major, p.minor;
      assert p.version == VersionText(major, minor);
    } else if p.state.InVersion? {
      major, minor :| 0 <= major <= 9 && 0 <= minor <= 9 && p.version <= VersionText(major, minor);
    }
    r := Request(verb, path, major, minor, []);
    FinishLineText(t, r);
  }

  lemma FinishLineText(t: Trace, r: Request)
    requires Coherent(t) && WellFormed(r) && r.headers == []
    requires t.p.verb == [] || t.p.verb == r.verb
    requires match t.p.state
             case InMethod => true
             case InPath => t.p.verb == r.verb && t.p.path <= r.target
             case InVersion =>
               t.p.verb == r.verb && t.p.path == r.target && t.p.version <= VersionText(r.major, r.minor)
             case RequestLineLf =>
               t.p.verb == r.verb && t.p.path == r.target && t.p.version == VersionText(r.major, r.minor)
             case _ => false
    ensures Spelled(t) <= Print(r)
  {
    var v := VersionText(r.major, r.minor);
    assert Print(r) == r.verb + [' '] + r.target + [' '] + v + CRLF + [] + CRLF;
  }

  lemma FinishHeaders(t: Trace) returns (r: Request)
    requires Coherent(t) && !t.p.Terminal()
    requires !(t.p.state.InMethod? || t.p.state.InPath? || t.p.state.InVersion? || t.p.state.RequestLineLf?)
    ensures WellFormed(r) && Spelled(t) <= Print(r)
  {
    var p := t.p;
    assert p.version == VersionText(p.major, p.minor);
    r := Request(p.verb, p.path, p.major, p.minor, t.past);
    if p.state.HeaderLineStart? || p.state.HeadersEndLf? {
      assert Print(r) == Line(p) + CRLF + PrintHeaders(t.past) + ['\r'] + ['\n'];
    } else {
      r := FinishHeader(t, r);
    }
  }

  predicate InHeader(s: State) { s.HeaderName? || s.HeaderValueSp? || s.HeaderValue? || s.HeaderLf? }

  // The header being read, as it stands.
  function OpenHeader(t: Trace): Header { if t.p.state.HeaderName? then Header(t.p.line, [], []) else CurrentHeader(t) }

  lemma OpenHeaderIsOk(t: Trace)
    requires Coherent(t) && InHeader(t.p.state)
    ensures HeaderOk(OpenHeader(t)) && |t.past| < MAX_HEADERS
  {}

  lemma FinishHeader(t: Trace, r: Request) returns (r': Request)
    requires Coherent(t) && InHeader(t.p.state) && WellFormed(r) && PrintRequestLine(r) == Line(t.p) + CRLF &&
             r.headers == t.past
    ensures WellFormed(r') && Spelled(t) <= Print(r')
  {
    hide Coherent;
    hide WellFormed;
    hide HeaderOk;
    hide PrintRequestLine;
    hide PrintHeaders;
    hide HeaderText;
    hide Print;
    hide Line;
    OpenHeaderIsOk(t);
    FinishHeaderText(r, OpenHeader(t));
    r' := r.(headers := t.past + [OpenHeader(t)]);
  }

  lemma FinishHeaderText(r: Request, h: Header)
    requires WellFormed(r) && |r.headers| < MAX_HEADERS && HeaderOk(h)
    ensures var r' := r.(headers := r.headers + [h]);
            var front := PrintRequestLine(r) + PrintHeaders(r.headers);
            WellFormed(r') && front + h.name <= Print(r') && front + HeaderText(h) + ['\r'] <= Print(r')
  {
    var r' := r.(headers := r.headers + [h]);
    PastGrows(r.headers, h);
    hide PrintHeaders;
    assert PrintRequestLine(r') == PrintRequestLine(r);
    hide PrintRequestLine;
    HeaderPrefixes(PrintRequestLine(r), PrintHeaders(r.headers), h);
  }

  lemma HeaderPrefixes(a: Bytes, b: Bytes, h: Header)
    ensures a + b + h.name <= a + (b + PrintHeader(h)) + CRLF
    ensures a + b + HeaderText(h) + ['\r'] <= a + (b + PrintHeader(h)) + CRLF
  {
    var all := a + (b + PrintHeader(h)) + CRLF;
    assert all == a + b + h.name + ([':'] + h.ows + h.value + CRLF + CRLF);
    assert all == a + b + HeaderText(h) + ['\r'] + (['\n'] + CRLF);
  }

  lemma StalledIsIncomplete(s: Bytes, m: Bytes, t: Bytes, v: Bytes)
    requires StalledParts(s, m, t, v)
    ensures Execute(INIT, s).result.Incomplete? && !Extendable(s)
  {
    FeedStalled(s, m, t, v);
    FeedRunning(START, s);
    forall r | WellFormed(r) ensures !(Print(r) <= s || s <= Print(r)) {
      if Print(r) <= s { ParserEqualsGrammar(s); }
      if s <= Print(r) { OpenVersionIsPrefix(m, t, v, r); }
    }
  }

  lemma FeedStalled(s: Bytes, m: Bytes, t: Bytes, v: Bytes)
    requires StalledParts(s, m, t, v)
    ensures Feed(START, s).p.state.InVersion?
  {
    hide Feed;
    FeedVerb(START, m);
    FeedOne(START, m, ' ');
    FeedAppend(START, m + [' '], t);
    FeedPath(Feed(START, m + [' ']), t);
    FeedOne(START, m + [' '] + t, ' ');
    FeedAppend(START, m + [' '] + t + [' '], v);
    FeedVersion(Feed(START, m + [' '] + t + [' ']), v);
  }

  // Cut both texts at their spaces: an open version token is a prefix of the request's version.
  lemma OpenVersionIsPrefix(m: Bytes, t: Bytes, v: Bytes, r: Request)
    requires VerbOk(m) && TargetOk(t) && AllVersion(v) && WellFormed(r)
    requires m + [' '] + t + [' '] + v <= Print(r)
    ensures v <= VersionText(r.major, r.minor)
  {
    var ver := VersionText(r.major, r.minor);
    var tail := CRLF + PrintHeaders(r.headers) + CRLF;
    assert m + [' '] + t + [' '] + v == m + [' '] + (t + [' '] + v);
    assert Print(r) == r.verb + [' '] + (r.target + [' '] + (ver + tail));
    CutUnique(m, t + [' '] + v, r.verb, r.target + [' '] + (ver + tail), ' ');
    CutUnique(t, v, r.target, ver + tail, ' ');
    assert (ver + tail)[|ver|] == '\r';
    forall i | 0 <= i < |v| ensures v[i] == (ver + tail)[i] && v[i] != '\r' {
      assert v[i] in v;
    }
  }

  // ERROR is reported exactly on the inputs no continuation can save, except while a wrong version token is open.
  lemma ErrorIffHopeless(s: Bytes)
    ensures Execute(INIT, s).result.Error? ==> !Extendable(s)
    ensures (Execute(INIT, s).result.Error? <==> !Extendable(s)) <==> !StalledVersion(s)
  {
    hide Feed;
    hide Print;
    hide WellFormed;
    if Execute(INIT, s).result.Error? {
      ErrorIsHopeless(s);
      if StalledVersion(s) {
        var m: Bytes, t: Bytes, v: Bytes :| StalledParts(s, m, t, v);
        StalledIsIncomplete(s, m, t, v);
      }
    } else if StalledVersion(s) {
      var m: Bytes, t: Bytes, v: Bytes :| StalledParts(s, m, t, v);
      StalledIsIncomplete(s, m, t, v);
    } else if Execute(INIT, s).result.Complete? {
      ParserEqualsGrammar(s);
    } else {
      IncompleteIsExtendable(s);
    }
  }

  lemma IncompleteIsExtendable(s: Bytes)
    requires Execute(INIT, s).result.Incomplete? && !StalledVersion(s)
    ensures Extendable(s)
  {
    hide Feed;
    hide Print;
    var t := ConsumedIsSpelled(s);
    assert s[..Execute(INIT, s).consumed] == s;
    var r;
    match t.p.state {
      case InMethod | InPath | InVersion | RequestLineLf =>
        assert t.p.state.InVersion? ==>
            VersionPrefix(t.p.version) || StalledParts(s, t.p.verb, t.p.path, t.p.version);
        r := FinishRequestLine(t);
      case _ => r := FinishHeaders(t);
    }
    assert WellFormed(r) && s <= Print(r);
  }

  // The exception is real: this input cannot be saved, and the parser still asks for more.
  lemma WrongVersionIsUndecided()
    ensures Execute(INIT, "GET / X").result.Incomplete? && !Extendable("GET / X")
  {
    var v: Bytes := "X";
    assert forall major, minor | 0 <= major <= 9 && 0 <= minor <= 9 :: VersionText(major, minor)[0] == 'H';
    assert StalledParts("GET / X", "GET", "/", v);
    StalledIsIncomplete("GET / X", "GET", "/", v);
  }

  // ---- How much an undecided parser can have swallowed ---------------------------------------------------------

  // Bytes skipped as white space before a header value, the only ones no limit applies to.
  function Skipped(p: Parser, s: Bytes): nat
    decreases s
  {
    if s == [] then 0
    else (if p.state.HeaderValueSp? && IsBlank(s[0]) then 1 else 0) + Skipped(Consume(p, s[0]), s[1..])
  }

  const MOST_BYTES := 526_491

  function OwsTotal(hs: seq<Header>): nat {
    if hs == [] then 0 else OwsTotal(hs[..|hs| - 1]) + |hs[|hs| - 1].ows|
  }

  function Blanks(t: Trace): nat {
    OwsTotal(t.past) +
    if t.p.state.HeaderValueSp? || t.p.state.HeaderValue? || t.p.state.HeaderLf? then |t.ows| else 0
  }

  lemma {:induction false} SkippedAppend(p: Parser, a: Bytes, c: Byte)
    ensures var t := Feed(Trace(p, [], []), a);
            Skipped(p, a + [c]) == Skipped(p, a) + (if t.p.state.HeaderValueSp? && IsBlank(c) then 1 else 0)
    decreases a
  {
    if a == [] {
      assert a + [c] == [c];
    } else {
      SkippedAppend(Consume(p, a[0]), a[1..], c);
      assert (a + [c])[1..] == a[1..] + [c];
      FeedIgnoresPast(Advance(Trace(p, [], []), a[0]), Trace(Consume(p, a[0]), [], []), a[1..]);
    }
  }

  lemma {:induction false} FeedIgnoresPast(t: Trace, u: Trace, s: Bytes)
    requires t.p == u.p
    ensures Feed(t, s).p == Feed(u, s).p
    decreases s
  {
    if s != [] { FeedIgnoresPast(Advance(t, s[0]), Advance(u, s[0]), s[1..]); }
  }

  lemma AdvanceBlanks(t: Trace, c: Byte)
    requires Coherent(t) && !t.p.Terminal() && !Advance(t, c).p.state.Failed?
    ensures Blanks(Advance(t, c)) == Blanks(t) + if t.p.state.HeaderValueSp? && IsBlank(c) then 1 else 0
  {
    if t.p.state.HeaderLf? {
      assert (t.past + [CurrentHeader(t)])[..|t.past|] == t.past;
    }
  }

  lemma {:induction false} BlanksAreSkipped(s: Bytes)
    requires !Feed(START, s).p.Terminal()
    ensures Coherent(Feed(START, s)) && Spelled(Feed(START, s)) == s
    ensures Blanks(Feed(START, s)) == Skipped(INIT, s)
    decreases |s|
  {
    if s != [] {
      var n := |s| - 1;
      assert s == s[..n] + [s[n]];
      RunningBefore(START, s);
      BlanksAreSkipped(s[..n]);
      FeedOne(START, s[..n], s[n]);
      SkippedAppend(INIT, s[..n], s[n]);
      BlanksStep(Feed(START, s[..n]), s[n]);
    }
  }

  lemma BlanksStep(t: Trace, c: Byte)
    requires Coherent(t) && !t.p.Terminal() && !Advance(t, c).p.Terminal()
    ensures Coherent(Advance(t, c)) && Spelled(Advance(t, c)) == Spelled(t) + [c]
    ensures Blanks(Advance(t, c)) == Blanks(t) + if t.p.state.HeaderValueSp? && IsBlank(c) then 1 else 0
  {
    hide Blanks;
    AdvanceSpells(t, c);
    AdvanceBlanks(t, c);
  }

  lemma {:induction false} HeadersLength(hs: seq<Header>)
    requires HeadersOk(hs)
    ensures |PrintHeaders(hs)| <= |hs| * (HEADER_LINE_MAX + 2) + OwsTotal(hs)
    decreases |hs|
  {
    if hs != [] {
      HeadersLength(hs[..|hs| - 1]);
    }
  }

  lemma SpelledLength(t: Trace)
    requires Coherent(t) && !t.p.Terminal()
    ensures |Spelled(t)| <= MOST_BYTES + Blanks(t)
  {
    HeadersLength(t.past);
  }

  // A parser that has not decided has consumed at most 526,491 bytes besides skipped white space.
  lemma BoundedWork(s: Bytes)
    requires Execute(INIT, s).result.Incomplete?
    ensures |s| <= MOST_BYTES + Skipped(INIT, s)
  {
    hide Feed;
    hide Coherent;
    hide Spelled;
    hide Blanks;
    hide Execute;
    hide Skipped;
    FeedConsumed(START, s);
    assert s[..|s|] == s;
    BlanksAreSkipped(s);
    SpelledLength(Feed(START, s));
  }

  lemma {:induction false} RepeatedHeaders(h: Header, hs: seq<Header>)
    requires forall i :: 0 <= i < |hs| ==> hs[i] == h
    ensures |PrintHeaders(hs)| == |hs| * |PrintHeader(h)| && OwsTotal(hs) == |hs| * |h.ows|
    decreases |hs|
  {
    hide PrintHeader;
    if hs != [] {
      var n := |hs| - 1;
      RepeatedHeaders(h, hs[..n]);
      Distribute(n, |PrintHeader(h)|);
      Distribute(n, |h.ows|);
    }
  }

  lemma Distribute(n: nat, k: nat)
    ensures (n + 1) * k == n * k + k
  {}

  lemma LastByteKeepsPast(t: Trace, c: Byte)
    requires t.p.state.HeadersEndLf?
    ensures Advance(t, c).past == t.past
  {}

  // Every limit used up.
  lemma LongestRequest() returns (r: Request)
    ensures WellFormed(r) && |Print(r)| == MOST_BYTES + 1 && OwsTotal(r.headers) == 0
  {
    var h := Header(seq(HEADER_LINE_MAX - 1, _ => 'A'), [], []);
    r := Request(seq(METHOD_MAX - 1, _ => 'A'), seq(TARGET_MAX - 1, _ => '/'), 1, 1, seq(MAX_HEADERS, _ => h));
    RepeatedHeaders(h, r.headers);
  }

  // The bound is exact: some input of this length, with nothing skipped, leaves the parser undecided.
  lemma BoundIsAttained() returns (s: Bytes)
    ensures Execute(INIT, s).result.Incomplete? && |s| == MOST_BYTES && Skipped(INIT, s) == 0
  {
    hide WellFormed;
    hide Print;
    hide Feed;
    var r := LongestRequest();
    FeedRequest(r);
    var text, n := Print(r), MOST_BYTES;
    s := text[..n];
    assert text == s + [text[n]];
    FeedOne(START, s, text[n]);
    LastByteKeepsPast(Feed(START, s), text[n]);
    FeedRunning(START, s);
    BlanksAreSkipped(s);
  }

  // Without that exception there is no bound: arbitrarily long inputs leave the parser undecided.
  lemma WhiteSpaceIsUnlimited(n: nat) returns (s: Bytes)
    ensures Execute(INIT, s).result.Incomplete? && |s| >= n
  {
    var r := Request(['G'], ['/'], 1, 1, []);
    assert WellFormed(r);
    var line, name, blanks := PrintRequestLine(r), ['A', ':'], seq(n, _ => ' ');
    FeedRequestLine(r);
    var t := Feed(START, line);
    FeedHeaderName(t, ['A']);
    assert ['A'] + [':'] == name;
    var u := Feed(t, name);
    FeedBlanks(u, blanks);
    FeedAppend(START, line, name);
    FeedAppend(START, line + name, blanks);
    s := line + name + blanks;
    FeedRunning(START, s);
  }

  // ---- Pipelining ----------------------------------------------------------------------------------------------

  // Parse, reset, and go on with the unconsumed rest, for as long as requests complete.
  function ParseAll(s: Bytes): seq<Parser>
    decreases |s|
  {
    var o := Execute(INIT, s);
    if o.result.Complete? && o.consumed > 0 then [o.parser] + ParseAll(s[o.consumed..]) else []
  }

  predicate AllWellFormed(rs: seq<Request>) { forall i :: 0 <= i < |rs| ==> WellFormed(rs[i]) }

  function PrintAll(rs: seq<Request>): Bytes
    requires AllWellFormed(rs)
  {
    if rs == [] then [] else Print(rs[0]) + PrintAll(rs[1..])
  }

  lemma PrintIsNotEmpty(r: Request)
    requires WellFormed(r)
    ensures |Print(r)| > 0
  {}

  // Printing any list of requests back to back and parsing recovers exactly that list, then goes on with the rest.
  lemma {:induction false} PipelineRoundTrip(rs: seq<Request>, rest: Bytes)
    requires AllWellFormed(rs)
    ensures var ps := ParseAll(PrintAll(rs) + rest);
            |ps| == |rs| + |ParseAll(rest)| &&
            (forall i :: 0 <= i < |rs| ==> Holds(ps[i], rs[i])) && ps[|rs|..] == ParseAll(rest)
    decreases rs
  {
    hide Execute;
    hide Print;
    hide Holds;
    hide WellFormed;
    if rs == [] {
      assert PrintAll(rs) + rest == rest;
    } else {
      var tail := PrintAll(rs[1..]) + rest;
      var s := PrintAll(rs) + rest;
      assert s == Print(rs[0]) + tail;
      PrintedIsComplete(rs[0], tail);
      assert s[|Print(rs[0])|..] == tail;
      PrintIsNotEmpty(rs[0]);
      PipelineRoundTrip(rs[1..], rest);
      var ps := ParseAll(s);
      assert ps[1..] == ParseAll(tail);
      forall i | 0 <= i < |rs| ensures Holds(ps[i], rs[i]) {
        if i > 0 { assert ps[i] == ps[1..][i - 1] && rs[i] == rs[1..][i - 1]; }
      }
      assert ps[|rs|..] == ps[1..][|rs| - 1..];
    }
  }
}
