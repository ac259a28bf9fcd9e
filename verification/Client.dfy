/** A client that frames responses by the first blank line and Content-Length (sections 3.3.2 and 6.3.2 of RFC 7230,
    as tests/http_test_utils.py does), and the proof that it recovers the server's responses one by one. */
module Client {
  import opened Bytes
  import opened Negotiation
  import opened ParserSpec
  import opened Decimals
  import opened Files
  import opened Responses

  const BLANK_LINE: Bytes := CRLF + CRLF

  datatype Option<T> = None | Some(value: T)

  // The part in front of the first blank line, if there is one.
  function HeadEnd(buf: Bytes): Option<nat> {
    if |buf| < 4 then None
    else if buf[..4] == BLANK_LINE then Some(0)
    else match HeadEnd(buf[1..])
      case None => None
      case Some(n) => Some(n + 1)
  }

  // The lines of a text, cut at every CRLF.
  function Lines(s: Bytes): (lines: seq<Bytes>)
    ensures |lines| >= 1
  {
    if s == [] then [[]]
    else if |s| >= 2 && s[..2] == CRLF then [[]] + Lines(s[2..])
    else var rest := Lines(s[1..]); [[s[0]] + rest[0]] + rest[1..]
  }

  function BeforeColon(line: Bytes): Bytes {
    if line == [] || line[0] == ':' then [] else [line[0]] + BeforeColon(line[1..])
  }

  // The value of the first header line with this name.
  function FieldValue(lines: seq<Bytes>, name: Bytes): Option<Bytes> {
    if lines == [] then None
    else
      var key := BeforeColon(lines[0]);
      if |key| < |lines[0]| && SameIgnoringCase(Trim(key), name) then Some(Trim(lines[0][|key| + 1..]))
      else FieldValue(lines[1..], name)
  }

  // The announced body length; no header counts as zero, and a value that is not a numeral is refused.
  function ContentLength(head: Bytes): Option<nat> {
    match FieldValue(Lines(head)[1..], CONTENT_LENGTH)
    case None => Some(0)
    case Some(v) => if IsNumeral(v) then Some(ReadDecimal(v)) else None
  }

  // How long the first response in the buffer is, once all of it has arrived.
  function FirstResponse(buf: Bytes): Option<nat> {
    match HeadEnd(buf)
    case None => None
    case Some(n) =>
      match ContentLength(if n <= |buf| then buf[..n] else [])
      case None => None
      case Some(len) => if n + 4 + len <= |buf| then Some(n + 4 + len) else None
  }

  // Read responses for as long as complete ones are there.
  function ReadAll(buf: Bytes): (seq<Bytes>, Bytes)
    decreases |buf|
  {
    match FirstResponse(buf)
    case None => ([], buf)
    case Some(n) =>
      if 0 < n <= |buf| then
        var (more, rest) := ReadAll(buf[n..]); ([buf[..n]] + more, rest)
      else ([], buf)
  }

  // ---- Why the framing is right ------------------------------------------------------------------------------------

  predicate PlainLines(lines: seq<Bytes>) {
    forall i :: 0 <= i < |lines| ==> lines[i] != [] && '\r' !in lines[i]
  }

  lemma {:induction false} HeadEndSkips(line: Bytes, rest: Bytes)
    requires '\r' !in line
    ensures HeadEnd(line + rest) ==
            match HeadEnd(rest) case None => None case Some(n) => Some(|line| + n)
    decreases line
  {
    if line == [] {
      assert line + rest == rest;
    } else {
      var s := line + rest;
      assert s[1..] == line[1..] + rest;
      HeadEndSkips(line[1..], rest);
      if |s| >= 4 { assert s[..4][0] == line[0]; }
      else { NoHeadEnd(line[1..] + rest); }
    }
  }

  lemma NoHeadEnd(s: Bytes)
    requires |s| < 4
    ensures HeadEnd(s).None?
  {}

  // A line end in front of a text that does not itself start with a line end is no blank line.
  lemma HeadEndSkipsCrLf(rest: Bytes)
    requires |rest| >= 2 && rest[0] != '\r'
    ensures HeadEnd(CRLF + rest) == match HeadEnd(rest) case None => None case Some(n) => Some(n + 2)
  {
    var s: Bytes := ['\r', '\n'] + rest;
    assert s[..4][2] == rest[0] && BLANK_LINE[2] == '\r';
    var t: Bytes := ['\n'] + rest;
    assert s[1..] == t && t[1..] == rest;
    if |t| >= 4 {
      assert t[..4][0] == '\n' && BLANK_LINE[0] == '\r';
    } else {
      NoHeadEnd(t);
      NoHeadEnd(rest);
    }
  }

  lemma {:induction false} HeadEndOfLines(lines: seq<Bytes>, body: Bytes)
    requires lines != [] && PlainLines(lines)
    ensures HeadEnd(JoinLines(lines) + CRLF + body) == Some(|JoinLines(lines)| - 2)
    decreases lines
  {
    var rest := JoinLines(lines[1..]) + CRLF + body;
    var s := JoinLines(lines) + CRLF + body;
    assert s == lines[0] + (CRLF + rest);
    HeadEndSkips(lines[0], CRLF + rest);
    if |lines| == 1 {
      assert rest == CRLF + body;
      assert (CRLF + rest)[..4] == BLANK_LINE;
    } else {
      assert rest[0] == lines[1][0];
      HeadEndOfLines(lines[1..], body);
      HeadEndSkipsCrLf(rest);
    }
  }

  lemma {:induction false} LinesOfLine(line: Bytes, rest: Bytes)
    requires '\r' !in line
    ensures Lines(line + CRLF + rest) == [line] + Lines(rest)
    decreases line
  {
    var s := line + CRLF + rest;
    if line == [] {
      assert s[..2] == CRLF && s[2..] == rest;
    } else {
      assert s[..2][0] == line[0];
      assert s[1..] == line[1..] + CRLF + rest;
      LinesOfLine(line[1..], rest);
      assert [s[0]] + line[1..] == line;
    }
  }

  lemma {:induction false} LinesOfLast(line: Bytes)
    requires '\r' !in line
    ensures Lines(line) == [line]
  {
    if line != [] {
      if |line| >= 2 { assert line[..2][0] == line[0]; }
      LinesOfLast(line[1..]);
      assert [line[0]] + line[1..] == line;
    }
  }

  // Cutting the head recovers its lines.
  lemma {:induction false} LinesOfHead(lines: seq<Bytes>)
    requires lines != [] && PlainLines(lines)
    ensures |JoinLines(lines)| >= 2
    ensures Lines(JoinLines(lines)[..|JoinLines(lines)| - 2]) == lines
    decreases lines
  {
    var s := JoinLines(lines);
    if |lines| == 1 {
      assert s == lines[0] + CRLF && s[..|s| - 2] == lines[0];
      LinesOfLast(lines[0]);
      assert lines == [lines[0]];
    } else {
      var rest := JoinLines(lines[1..]);
      LinesOfHead(lines[1..]);
      assert s[..|s| - 2] == lines[0] + CRLF + rest[..|rest| - 2];
      LinesOfLine(lines[0], rest[..|rest| - 2]);
      assert lines == [lines[0]] + lines[1..];
    }
  }

  lemma {:induction false} KeyOfField(name: Bytes, rest: Bytes)
    requires ':' !in name
    ensures BeforeColon(name + [':'] + rest) == name
    decreases name
  {
    var s := name + [':'] + rest;
    if name != [] {
      assert s[1..] == name[1..] + [':'] + rest;
      KeyOfField(name[1..], rest);
    }
  }

  lemma ValueOfField(name: Bytes, value: Bytes)
    requires ':' !in name
    requires value != [] && !IsBlank(value[0]) && !IsBlank(value[|value| - 1])
    ensures BeforeColon(Field(name, value)) == name && |name| < |Field(name, value)|
    ensures Trim(Field(name, value)[|name| + 1..]) == value
  {
    assert Field(name, value) == name + [':'] + ([' '] + value);
    KeyOfField(name, [' '] + value);
    var v: Bytes := [' '] + value;
    assert Field(name, value)[|name| + 1..] == v;
    assert v[1..] == value;
    assert TrimLeft(v) == TrimLeft(value) == value;
  }

  // The announced length is found behind the content type.
  lemma AnnouncedLength(lines: seq<Bytes>, contentType: Bytes, n: nat)
    requires |lines| >= 3 && lines[1] == Field(CONTENT_TYPE, contentType) && lines[2] == LengthLine(n)
    ensures FieldValue(lines[1..], CONTENT_LENGTH) == Some(Decimal(n))
  {
    DecimalRoundTrip(n);
    hide Decimal;
    assert Field(CONTENT_TYPE, contentType) == CONTENT_TYPE + [':'] + ([' '] + contentType);
    KeyOfField(CONTENT_TYPE, [' '] + contentType);
    assert |Trim(CONTENT_TYPE)| <= 12 by { TrimShrinks(CONTENT_TYPE); }
    ValueOfField(CONTENT_LENGTH, Decimal(n));
    assert Trim(CONTENT_LENGTH) == CONTENT_LENGTH;
    assert lines[1..][1..] == lines[2..];
  }

  lemma {:induction false} TrimLeftShrinks(s: Bytes)
    ensures |TrimLeft(s)| <= |s|
  {
    if s != [] && IsBlank(s[0]) { TrimLeftShrinks(s[1..]); }
  }

  lemma {:induction false} TrimRightShrinks(s: Bytes)
    ensures |TrimRight(s)| <= |s|
  {
    if s != [] && IsBlank(s[|s| - 1]) { TrimRightShrinks(s[..|s| - 1]); }
  }

  lemma TrimShrinks(s: Bytes)
    ensures |Trim(s)| <= |s|
  {
    TrimLeftShrinks(s);
    TrimRightShrinks(TrimLeft(s));
  }

  // One framed response in front of anything.
  lemma FirstIsFramed(lines: seq<Bytes>, contentType: Bytes, body: Bytes, rest: Bytes)
    requires |lines| >= 3 && PlainLines(lines)
    requires lines[1] == Field(CONTENT_TYPE, contentType) && lines[2] == LengthLine(|body|)
    ensures var wire := JoinLines(lines) + CRLF + body;
            FirstResponse(wire + rest) == Some(|wire|) && |wire| > 0
  {
    hide Decimal;
    hide Lines;
    hide FieldValue;
    hide PlainLines;
    hide Field;
    var wire := JoinLines(lines) + CRLF + body;
    assert wire + rest == JoinLines(lines) + CRLF + (body + rest);
    HeadEndOfLines(lines, body + rest);
    LinesOfHead(lines);
    var n := |JoinLines(lines)| - 2;
    assert (wire + rest)[..n] == JoinLines(lines)[..n];
    AnnouncedLength(lines, contentType, |body|);
    DecimalRoundTrip(|body|);
  }

  // ---- The server's responses are framed ---------------------------------------------------------------------------

  lemma {:induction false} DecimalIsPlain(n: nat)
    ensures Decimal(n) != [] && '\r' !in Decimal(n)
  {
    if n >= 10 { DecimalIsPlain(n / 10); }
  }

  lemma LinesArePlain(r: Routed, keepAlive: bool, worker: int)
    requires Ordinary(r)
    ensures PlainLines(HeadLines(r, keepAlive, worker))
  {
    DecimalIsPlain(r.status);
    DecimalIsPlain(BodyLength(r.body));
    DecimalIsPlain(if worker < 0 then -worker else worker);
    hide Decimal;
    assert '\r' !in StatusLine(r.status, r.reason);
    assert '\r' !in WorkerLine(worker);
    assert '\r' !in LengthLine(BodyLength(r.body));
  }

  // Frames(r): a client finds exactly this response in front of anything that follows it.
  ghost predicate Frames(r: Response) {
    |r.Wire()| > 0 && forall rest: Bytes :: FirstResponse(r.Wire() + rest) == Some(|r.Wire()|)
  }

  lemma OrdinaryFrames(r: Routed, keepAlive: bool, worker: int)
    requires Ordinary(r)
    ensures Frames(Response(RenderHead(r, keepAlive, worker), BodyBytes(r.body), keepAlive))
  {
    var resp := Response(RenderHead(r, keepAlive, worker), BodyBytes(r.body), keepAlive);
    var lines := HeadLines(r, keepAlive, worker);
    LinesArePlain(r, keepAlive, worker);
    assert lines[1] == Field(CONTENT_TYPE, r.contentType) && lines[2] == LengthLine(|BodyBytes(r.body)|);
    hide HeadLines;
    forall rest: Bytes ensures FirstResponse(resp.Wire() + rest) == Some(|resp.Wire()|) && |resp.Wire()| > 0 {
      FirstIsFramed(lines, r.contentType, BodyBytes(r.body), rest);
    }
    assert FirstResponse(resp.Wire() + []) == Some(|resp.Wire()|) && |resp.Wire()| > 0;
  }

  lemma AnswersFrame(cfg: Config, p: Parser)
    requires cfg.Valid()
    ensures Frames(Answer(cfg, p)) && Frames(AnswerMalformed(cfg))
  {
    hide Frames;
    hide Route;
    FallbackIsUnreachable(cfg, p);
    RouteIsOrdinary(cfg, p);
    OrdinaryFrames(Route(cfg, p), p.KeepAlive(), cfg.worker);
    OrdinaryFrames(BadRequest(), false, cfg.worker);
  }

  lemma InternalErrorIsPlain()
    ensures PlainLines(InternalErrorLines())
  {
    DecimalIsPlain(500);
    DecimalIsPlain(21);
    hide Decimal;
    assert '\r' !in StatusLine(500, INTERNAL_ERROR) && '\r' !in LengthLine(21);
  }

  // The fixed answer to a response that does not fit is framed as well.
  lemma InternalErrorFrames()
    ensures Frames(INTERNAL_ERROR_RESPONSE) && !INTERNAL_ERROR_RESPONSE.keepAlive
  {
    var lines := InternalErrorLines();
    InternalErrorIsPlain();
    hide PlainLines;
    assert |lines| == 4 && lines[1] == Field(CONTENT_TYPE, TEXT_PLAIN) && lines[2] == LengthLine(|INTERNAL_ERROR|);
    hide InternalErrorLines;
    hide LengthLine;
    hide FirstResponse;
    hide JoinLines;
    var wire := INTERNAL_ERROR_RESPONSE.Wire();
    forall rest: Bytes ensures FirstResponse(wire + rest) == Some(|wire|) && |wire| > 0 {
      FirstIsFramed(lines, TEXT_PLAIN, INTERNAL_ERROR, rest);
    }
    assert FirstResponse(wire + []) == Some(|wire|) && |wire| > 0;
  }

  function WireOf(rs: seq<Response>): Bytes {
    if rs == [] then [] else rs[0].Wire() + WireOf(rs[1..])
  }

  lemma {:induction false} WireOfConcat(a: seq<Response>, b: seq<Response>)
    ensures WireOf(a + b) == WireOf(a) + WireOf(b)
    decreases a
  {
    if a == [] {
      assert a + b == b;
    } else {
      hide Response.Wire;
      WireOfConcat(a[1..], b);
      assert (a + b)[1..] == a[1..] + b && (a + b)[0] == a[0];
      Associate(a[0].Wire(), WireOf(a[1..]), WireOf(b));
    }
  }

  lemma WireOfPrefix(a: seq<Response>, b: seq<Response>)
    requires a <= b
    ensures WireOf(a) <= WireOf(b)
  {
    assert b == a + b[|a|..];
    WireOfConcat(a, b[|a|..]);
  }

  lemma WireOfMore(rs: seq<Response>, r: Response)
    ensures WireOf(rs + [r]) == WireOf(rs) + r.Wire()
  {
    WireOfConcat(rs, [r]);
    OneWire(r);
  }

  lemma OneWire(r: Response)
    ensures WireOf([r]) == r.Wire()
  {
    assert WireOf([r]) == r.Wire() + WireOf([]);
  }

  function Wires(rs: seq<Response>): seq<Bytes> { seq(|rs|, i requires 0 <= i < |rs| => rs[i].Wire()) }

  // The stream is self-delimiting: the client recovers the responses, in order, and nothing else.
  lemma {:induction false} StreamIsSelfDelimiting(rs: seq<Response>, rest: Bytes)
    requires forall i :: 0 <= i < |rs| ==> Frames(rs[i])
    requires FirstResponse(rest).None?
    ensures ReadAll(WireOf(rs) + rest) == (Wires(rs), rest)
    decreases rs
  {
    hide FirstResponse;
    var buf := WireOf(rs) + rest;
    if rs == [] {
      assert buf == rest;
    } else {
      var tail := WireOf(rs[1..]) + rest;
      var w := rs[0].Wire();
      assert Frames(rs[0]);
      assert buf == w + tail;
      assert FirstResponse(w + tail) == Some(|w|);
      StreamIsSelfDelimiting(rs[1..], rest);
      assert buf[..|w|] == w && buf[|w|..] == tail;
      assert Wires(rs) == [w] + Wires(rs[1..]);
    }
  }

  // ---- What the head says ------------------------------------------------------------------------------------------

  // A status line: the version, the status and the rest of the line.
  function BeforeSpace(s: Bytes): Bytes {
    if s == [] || s[0] == ' ' then [] else [s[0]] + BeforeSpace(s[1..])
  }

  function AfterSpace(s: Bytes): Bytes {
    if s == [] then [] else if s[0] == ' ' then s[1..] else AfterSpace(s[1..])
  }

  // A response as a client takes it apart.
  datatype Reply = Reply(version: Bytes, status: Bytes, reason: Bytes, fields: seq<Bytes>, body: Bytes)

  function ReadReply(wire: Bytes): Reply {
    match HeadEnd(wire)
    case None => Reply([], [], [], [], wire)
    case Some(n) =>
      if n + 4 > |wire| then Reply([], [], [], [], wire)
      else
        var lines := Lines(wire[..n]);
        var line := lines[0];
        Reply(BeforeSpace(line), BeforeSpace(AfterSpace(line)), AfterSpace(AfterSpace(line)), lines[1..], wire[n + 4..])
  }

  lemma {:induction false} CutAtSpace(a: Bytes, b: Bytes)
    requires ' ' !in a
    ensures BeforeSpace(a + [' '] + b) == a && AfterSpace(a + [' '] + b) == b
    decreases a
  {
    var s := a + [' '] + b;
    if a == [] {
      assert s[1..] == b;
    } else {
      assert s[1..] == a[1..] + [' '] + b;
      CutAtSpace(a[1..], b);
    }
  }

  lemma StatusIsReadable(status: nat, reason: Bytes)
    ensures var line := StatusLine(status, reason);
            BeforeSpace(line) == "HTTP/1.1" && BeforeSpace(AfterSpace(line)) == Decimal(status) &&
            AfterSpace(AfterSpace(line)) == reason
  {
    DecimalRoundTrip(status);
    var d := Decimal(status);
    hide Decimal;
    assert forall i :: 0 <= i < |d| ==> d[i] != ' ';
    var line := StatusLine(status, reason);
    var version: Bytes := "HTTP/1.1";
    assert line == version + [' '] + (d + [' '] + reason);
    CutAtSpace(version, d + [' '] + reason);
    CutAtSpace(d, reason);
  }

  lemma OtherFieldIsSkipped(line: Bytes, rest: seq<Bytes>, key: Bytes, name: Bytes)
    requires ':' !in key && |key| < |line| && line[..|key|] == key && line[|key|] == ':'
    requires !SameIgnoringCase(Trim(key), name)
    ensures FieldValue([line] + rest, name) == FieldValue(rest, name)
  {
    assert line == key + [':'] + line[|key| + 1..];
    KeyOfField(key, line[|key| + 1..]);
    assert ([line] + rest)[1..] == rest;
  }

  lemma FieldIsFound(name: Bytes, value: Bytes, rest: seq<Bytes>)
    requires ':' !in name && Trim(name) == name
    requires value != [] && !IsBlank(value[0]) && !IsBlank(value[|value| - 1])
    ensures FieldValue([Field(name, value)] + rest, name) == Some(value)
  {
    ValueOfField(name, value);
  }

  lemma FieldIsSkipped(name: Bytes, value: Bytes, rest: seq<Bytes>, wanted: Bytes)
    requires ':' !in name && Trim(name) == name && |name| != |wanted|
    ensures FieldValue([Field(name, value)] + rest, wanted) == FieldValue(rest, wanted)
  {
    OtherFieldIsSkipped(Field(name, value), rest, name, wanted);
  }

  lemma NamesAreTrim()
    ensures Trim(CONTENT_TYPE) == CONTENT_TYPE && Trim(CONTENT_LENGTH) == CONTENT_LENGTH
    ensures Trim(X_WORKER) == X_WORKER && Trim(CONNECTION) == CONNECTION
    ensures Trim(ALLOW) == ALLOW && ':' !in ALLOW
    ensures ':' !in CONTENT_TYPE && ':' !in CONTENT_LENGTH && ':' !in X_WORKER && ':' !in CONNECTION
  {}

  lemma NumeralsArePlain(worker: int)
    ensures var v := SignedDecimal(worker); v != [] && !IsBlank(v[0]) && !IsBlank(v[|v| - 1])
  {
    DecimalRoundTrip(if worker < 0 then -worker else worker);
    hide Decimal;
  }

  const ALLOW: Bytes := "Allow"

  // What a client reads: everything the response was built from, and that GET is allowed exactly behind a 405.
  predicate Announces(reply: Reply, r: Routed, keepAlive: bool, worker: int) {
    reply.version == "HTTP/1.1" && reply.status == Decimal(r.status) && reply.reason == r.reason &&
    HasFields(reply.fields, r, keepAlive, worker) && reply.body == BodyBytes(r.body)
  }

  predicate HasFields(fields: seq<Bytes>, r: Routed, keepAlive: bool, worker: int) {
    FieldValue(fields, CONTENT_TYPE) == Some(r.contentType) &&
    FieldValue(fields, CONTENT_LENGTH) == Some(Decimal(BodyLength(r.body))) &&
    FieldValue(fields, X_WORKER) == Some(SignedDecimal(worker)) &&
    FieldValue(fields, ALLOW) == (if r.status == 405 then Some(['G', 'E', 'T']) else None) &&
    FieldValue(fields, CONNECTION) == Some(if keepAlive then KEEP_ALIVE else CLOSE)
  }

  lemma ReplyIsReadable(r: Routed, keepAlive: bool, worker: int)
    requires Ordinary(r)
    ensures Announces(ReadReply(RenderHead(r, keepAlive, worker) + BodyBytes(r.body)), r, keepAlive, worker)
  {
    var lines, body := HeadLines(r, keepAlive, worker), BodyBytes(r.body);
    LinesArePlain(r, keepAlive, worker);
    FieldsAreReadable(r, keepAlive, worker);
    StatusIsReadable(r.status, r.reason);
    assert lines[0] == StatusLine(r.status, r.reason);
    hide HeadLines;
    hide HasFields;
    hide Ordinary;
    hide StatusLine;
    hide Decimal;
    hide HeadEnd;
    hide Lines;
    hide BeforeSpace;
    hide AfterSpace;
    LinesOfHead(lines);
    HeadEndOfLines(lines, body);
    var joined := JoinLines(lines);
    hide JoinLines;
    var wire := RenderHead(r, keepAlive, worker) + body;
    var n := |joined| - 2;
    assert wire == joined + CRLF + body;
    assert wire[..n] == joined[..n] && wire[n + 4..] == body;
  }

  lemma FieldsAreReadable(r: Routed, keepAlive: bool, worker: int)
    requires Ordinary(r)
    ensures HasFields(HeadLines(r, keepAlive, worker)[1..], r, keepAlive, worker)
  {
    NamesAreTrim();
    hide Decimal;
    hide FieldValue;
    hide Trim;
    hide PlainValue;
    var last := [ConnectionLine(keepAlive)];
    var fourth := r.extra + last;
    var third := [WorkerLine(worker)] + fourth;
    var second := [LengthLine(BodyLength(r.body))] + third;
    var lines := HeadLines(r, keepAlive, worker);
    assert lines[1..] == [Field(CONTENT_TYPE, r.contentType)] + second;
    FixedFields(r, worker, second, third, fourth);
    LastFields(r, keepAlive, worker, second, third, fourth, last);
  }

  lemma FixedFields(r: Routed, worker: int, second: seq<Bytes>, third: seq<Bytes>, fourth: seq<Bytes>)
    requires PlainValue(r.contentType)
    requires third == [WorkerLine(worker)] + fourth && second == [LengthLine(BodyLength(r.body))] + third
    ensures var all := [Field(CONTENT_TYPE, r.contentType)] + second;
            FieldValue(all, CONTENT_TYPE) == Some(r.contentType) &&
            FieldValue(all, CONTENT_LENGTH) == Some(Decimal(BodyLength(r.body))) &&
            FieldValue(all, X_WORKER) == Some(SignedDecimal(worker))
  {
    NamesAreTrim();
    NumeralsArePlain(worker);
    NumeralsArePlain(BodyLength(r.body));
    hide Decimal;
    hide FieldValue;
    hide Trim;
    var length := Decimal(BodyLength(r.body));
    FieldIsFound(CONTENT_TYPE, r.contentType, second);
    FieldIsSkipped(CONTENT_TYPE, r.contentType, second, CONTENT_LENGTH);
    FieldIsFound(CONTENT_LENGTH, length, third);
    FieldIsSkipped(CONTENT_TYPE, r.contentType, second, X_WORKER);
    FieldIsSkipped(CONTENT_LENGTH, length, third, X_WORKER);
    FieldIsFound(X_WORKER, SignedDecimal(worker), fourth);
  }

  lemma LastFields(r: Routed, keepAlive: bool, worker: int,
                   second: seq<Bytes>, third: seq<Bytes>, fourth: seq<Bytes>, last: seq<Bytes>)
    requires Ordinary(r) && last == [ConnectionLine(keepAlive)] && fourth == r.extra + last
    requires third == [WorkerLine(worker)] + fourth && second == [LengthLine(BodyLength(r.body))] + third
    ensures var all := [Field(CONTENT_TYPE, r.contentType)] + second;
            FieldValue(all, ALLOW) == (if r.status == 405 then Some(['G', 'E', 'T']) else None) &&
            FieldValue(all, CONNECTION) == Some(if keepAlive then KEEP_ALIVE else CLOSE)
  {
    NamesAreTrim();
    AllowAndConnection(r.extra, keepAlive);
    hide Decimal;
    hide FieldValue;
    hide Trim;
    hide SameIgnoringCase;
    var length := Decimal(BodyLength(r.body));
    FieldIsSkipped(CONTENT_TYPE, r.contentType, second, CONNECTION);
    FieldIsSkipped(CONTENT_LENGTH, length, third, CONNECTION);
    FieldIsSkipped(X_WORKER, SignedDecimal(worker), fourth, CONNECTION);
    FieldIsSkipped(CONTENT_TYPE, r.contentType, second, ALLOW);
    FieldIsSkipped(CONTENT_LENGTH, length, third, ALLOW);
    FieldIsSkipped(X_WORKER, SignedDecimal(worker), fourth, ALLOW);
  }

  lemma AllowAndConnection(extra: seq<Bytes>, keepAlive: bool)
    requires extra == [] || extra == [ALLOW_GET]
    ensures var all := extra + [ConnectionLine(keepAlive)];
            FieldValue(all, ALLOW) == (if extra == [] then None else Some(['G', 'E', 'T'])) &&
            FieldValue(all, CONNECTION) == Some(if keepAlive then KEEP_ALIVE else CLOSE)
  {
    NamesAreTrim();
    hide Trim;
    var value := if keepAlive then KEEP_ALIVE else CLOSE;
    var last := [ConnectionLine(keepAlive)];
    FieldIsFound(CONNECTION, value, []);
    FieldIsSkipped(CONNECTION, value, [], ALLOW);
    assert [Field(CONNECTION, value)] + [] == last && FieldValue([], ALLOW).None?;
    hide FieldValue;
    if extra == [] {
      assert extra + last == last;
    } else {
      assert ALLOW_GET == Field(ALLOW, ['G', 'E', 'T']);
      FieldIsFound(ALLOW, ['G', 'E', 'T'], last);
      FieldIsSkipped(ALLOW, ['G', 'E', 'T'], last, CONNECTION);
    }
  }

  // ---- A client that knows its methods -----------------------------------------------------------------------------

  // By section 3.3.3 of RFC 7230 a response to HEAD ends with its head.
  function KnownResponse(buf: Bytes, verb: Bytes): Option<nat> {
    if verb != "HEAD" then FirstResponse(buf)
    else match HeadEnd(buf)
      case None => None
      case Some(n) => Some(n + 4)
  }

  // Read the responses to requests with these verbs.
  function ReadKnowing(buf: Bytes, verbs: seq<Bytes>): (seq<Bytes>, Bytes)
    decreases verbs
  {
    if verbs == [] then ([], buf)
    else
      match KnownResponse(buf, verbs[0])
      case None => ([], buf)
      case Some(n) =>
        if n <= |buf| then
          var (more, rest) := ReadKnowing(buf[n..], verbs[1..]); ([buf[..n]] + more, rest)
        else ([], buf)
  }

  // A client that stops at the head, whatever follows, would stop short of this response.
  ghost predicate HasBody(r: Response) {
    forall rest: Bytes :: HeadEnd(r.Wire() + rest).Some? && HeadEnd(r.Wire() + rest).value + 4 < |r.Wire()|
  }

  // Such a client reads the responses as they were meant if and only if none of them answers a HEAD.
  lemma {:induction false} KnowingClientAgrees(rs: seq<Response>, verbs: seq<Bytes>)
    requires |rs| == |verbs| && (forall i :: 0 <= i < |rs| ==> Frames(rs[i]))
    requires forall i :: 0 <= i < |rs| && verbs[i] == "HEAD" ==> HasBody(rs[i])
    ensures ReadKnowing(WireOf(rs), verbs) == (Wires(rs), []) <==> "HEAD" !in verbs
    decreases rs
  {
    hide FirstResponse;
    hide HeadEnd;
    if rs != [] {
      var w, tail, buf := rs[0].Wire(), WireOf(rs[1..]), WireOf(rs);
      assert Frames(rs[0]) && buf == w + tail;
      if verbs[0] == "HEAD" {
        assert HasBody(rs[0]);
        var n := HeadEnd(w + tail).value + 4;
        assert |buf[..n]| == n < |w| && Wires(rs)[0] == w;
      } else {
        KnowingClientAgrees(rs[1..], verbs[1..]);
        assert FirstResponse(w + tail) == Some(|w|);
        assert buf[..|w|] == w && buf[|w|..] == tail;
        assert Wires(rs) == [w] + Wires(rs[1..]) && verbs == [verbs[0]] + verbs[1..];
        var (more, rest) := ReadKnowing(tail, verbs[1..]);
        assert [w] + more == Wires(rs) <==> more == Wires(rs[1..]) by {
          assert ([w] + more)[1..] == more && Wires(rs)[1..] == Wires(rs[1..]);
        }
      }
    }
  }

  lemma OrdinaryHasBody(r: Routed, keepAlive: bool, worker: int)
    requires Ordinary(r) && BodyBytes(r.body) != []
    ensures HasBody(Response(RenderHead(r, keepAlive, worker), BodyBytes(r.body), keepAlive))
  {
    var resp := Response(RenderHead(r, keepAlive, worker), BodyBytes(r.body), keepAlive);
    var lines := HeadLines(r, keepAlive, worker);
    LinesArePlain(r, keepAlive, worker);
    assert lines != [];
    hide HeadLines;
    hide HeadEnd;
    forall rest: Bytes
      ensures HeadEnd(resp.Wire() + rest).Some? && HeadEnd(resp.Wire() + rest).value + 4 < |resp.Wire()|
    {
      assert resp.Wire() + rest == JoinLines(lines) + CRLF + (resp.body + rest);
      HeadEndOfLines(lines, resp.body + rest);
    }
  }

  lemma HeadIsAnsweredWithBody(cfg: Config, p: Parser)
    requires cfg.Valid()
    ensures HasBody(AnswerMalformed(cfg))
    ensures p.methodId == Classify(p.verb) && p.verb == "HEAD" ==> HasBody(Answer(cfg, p))
  {
    hide HasBody;
    hide Route;
    FallbackIsUnreachable(cfg, p);
    RouteIsOrdinary(cfg, p);
    OthersHaveBodies(cfg, p);
    OrdinaryHasBody(BadRequest(), false, cfg.worker);
    if !p.methodId.GET? { OrdinaryHasBody(Route(cfg, p), p.KeepAlive(), cfg.worker); }
  }

  // ---- What a client can make of a partial stream ------------------------------------------------------------------

  lemma {:induction false} HeadEndIsStable(u: Bytes, x: Bytes)
    requires HeadEnd(u).Some?
    ensures HeadEnd(u + x) == HeadEnd(u) && HeadEnd(u).value + 4 <= |u|
    decreases |u|
  {
    assert (u + x)[..4] == u[..4];
    if u[..4] != BLANK_LINE {
      assert (u + x)[1..] == u[1..] + x;
      HeadEndIsStable(u[1..], x);
    }
  }

  lemma FirstResponseIsStable(u: Bytes, x: Bytes)
    requires FirstResponse(u).Some?
    ensures FirstResponse(u + x) == FirstResponse(u) && FirstResponse(u).value <= |u|
  {
    HeadEndIsStable(u, x);
    var n := HeadEnd(u).value;
    assert (u + x)[..n] == u[..n];
  }

  lemma PartialResponse(w: Bytes, s: Bytes)
    requires FirstResponse(w) == Some(|w|) && s < w
    ensures FirstResponse(s).None?
  {
    hide FirstResponse;
    assert s + w[|s|..] == w;
    if FirstResponse(s).Some? { FirstResponseIsStable(s, w[|s|..]); }
  }

  // From any prefix of the stream, cut anywhere, the client takes whole responses only, the right ones, in order.
  lemma {:induction false} PartialStreamIsSafe(rs: seq<Response>, s: Bytes)
    requires forall i :: 0 <= i < |rs| ==> Frames(rs[i])
    requires s <= WireOf(rs)
    ensures ReadAll(s).0 <= Wires(rs)
    decreases rs
  {
    hide FirstResponse;
    if rs == [] {
      NothingToRead();
      assert s == [];
    } else {
      var w := rs[0].Wire();
      var all := WireOf(rs);
      assert Frames(rs[0]) && all == w + WireOf(rs[1..]);
      if |s| < |w| {
        assert w + [] == w && FirstResponse(w + []) == Some(|w|);
        assert s == all[..|s|] == w[..|s|];
        PartialResponse(w, s);
      } else {
        var rest := s[|w|..];
        assert s == w + rest;
        assert FirstResponse(w + rest) == Some(|w|);
        assert s[..|w|] == w && rest <= WireOf(rs[1..]);
        PartialStreamIsSafe(rs[1..], rest);
        assert Wires(rs) == [w] + Wires(rs[1..]);
      }
    }
  }

  lemma NothingToRead()
    ensures ReadAll([]) == ([], [])
  {
    NoHeadEnd([]);
  }
}
