/** Routing a parsed request and rendering the response (src/event_loop.c). */
module Responses {
  import opened Bytes
  import opened Negotiation
  import opened ParserSpec
  import opened Files
  import opened Decimals

  const RESPONSE_BUF_SIZE := 512

  // worker_id is a C int.
  datatype Config = Config(root: Bytes, fs: FileSystem, worker: int)
  {
    predicate Valid() { -0x8000_0000 <= worker < 0x8000_0000 }
  }

  datatype Body = Memory(text: Bytes) | File(content: Content)

  datatype Routed = Routed(status: nat, reason: Bytes, contentType: Bytes, extra: seq<Bytes>, body: Body)

  // A response as it goes on the wire.
  datatype Response = Response(head: Bytes, body: Bytes, keepAlive: bool)
  {
    function Wire(): Bytes { head + body }
  }

  // ---- Routing -----------------------------------------------------------------------------------------------------

  // Constant texts; an extra header is a line of its own, without its line end.
  const TEXT_PLAIN: Bytes := "text/plain"
  const ALLOW_GET: Bytes := "Allow: GET"
  const OK_REASON: Bytes := "OK"
  const BAD_REQUEST: Bytes := "Bad Request"
  const NOT_FOUND: Bytes := "Not Found"
  const NOT_ALLOWED: Bytes := "Method Not Allowed"
  const HOME_TEXT: Bytes := "Hello from my C server!"
  const HELLO_TEXT: Bytes := "Hello, hello!"

  function Simple(status: nat, reason: Bytes, body: Bytes, extra: seq<Bytes>): Routed {
    Routed(status, reason, TEXT_PLAIN, extra, Memory(body))
  }

  function BadRequest(): Routed { Simple(400, BAD_REQUEST, BAD_REQUEST, []) }

  function MethodNotAllowed(): Routed {
    Simple(405, NOT_ALLOWED, NOT_ALLOWED, [ALLOW_GET])
  }

  // The target in front of its first '?'.
  function BeforeQuery(target: Bytes): Bytes {
    if target == [] || target[0] == '?' then [] else [target[0]] + BeforeQuery(target[1..])
  }

  const HOME: Bytes := "/"
  const HELLO: Bytes := "/hello"

  function RouteFile(cfg: Config, methodId: Method, target: Bytes): Routed {
    match LookUp(cfg.root, cfg.fs, target)
    case InvalidPath => BadRequest()
    case NotFound => Simple(404, NOT_FOUND, NOT_FOUND, [])
    case Found(content, contentType) =>
      if methodId.GET? then Routed(200, OK_REASON, contentType, [], File(content)) else MethodNotAllowed()
  }

  function Route(cfg: Config, p: Parser): Routed {
    var path := BeforeQuery(p.path);
    if path == HOME || path == HELLO then
      if !p.methodId.GET? then MethodNotAllowed()
      else if path == HOME then Simple(200, OK_REASON, HOME_TEXT, [])
      else Simple(200, OK_REASON, HELLO_TEXT, [])
    else RouteFile(cfg, p.methodId, p.path)
  }

  // ---- Rendering ---------------------------------------------------------------------------------------------------

  function BodyLength(b: Body): nat {
    match b
    case Memory(text) => |text|
    case File(content) => |content|
  }

  function BodyBytes(b: Body): Bytes {
    match b
    case Memory(text) => text
    case File(content) => content
  }

  const HTTP_11: Bytes := "HTTP/1.1 "
  const SPACE: Bytes := " "
  const CONTENT_TYPE: Bytes := "Content-Type"
  const CONTENT_LENGTH: Bytes := "Content-Length"
  const X_WORKER: Bytes := "X-Worker"
  const COLON_SPACE: Bytes := ": "

  function StatusLine(status: nat, reason: Bytes): Bytes { HTTP_11 + Decimal(status) + SPACE + reason }

  function Field(name: Bytes, value: Bytes): Bytes { name + COLON_SPACE + value }

  function LengthLine(n: nat): Bytes { Field(CONTENT_LENGTH, Decimal(n)) }

  function WorkerLine(worker: int): Bytes { Field(X_WORKER, SignedDecimal(worker)) }

  function ConnectionLine(keepAlive: bool): Bytes {
    Field(CONNECTION, if keepAlive then KEEP_ALIVE else CLOSE)
  }

  // The lines both response builders print.
  function HeadLinesOf(status: nat, reason: Bytes, contentType: Bytes, length: nat, extra: seq<Bytes>,
                       keepAlive: bool, worker: int)
    : seq<Bytes>
  {
    [StatusLine(status, reason), Field(CONTENT_TYPE, contentType), LengthLine(length), WorkerLine(worker)] +
    extra + [ConnectionLine(keepAlive)]
  }

  function HeadLines(r: Routed, keepAlive: bool, worker: int): seq<Bytes> {
    HeadLinesOf(r.status, r.reason, r.contentType, BodyLength(r.body), r.extra, keepAlive, worker)
  }

  function JoinLines(lines: seq<Bytes>): Bytes {
    if lines == [] then [] else lines[0] + CRLF + JoinLines(lines[1..])
  }

  function HeadText(lines: seq<Bytes>): Bytes { JoinLines(lines) + CRLF }

  function RenderHead(r: Routed, keepAlive: bool, worker: int): Bytes { HeadText(HeadLines(r, keepAlive, worker)) }

  // What snprintf() is asked to print: the head, and an in-memory body behind it.
  function Rendered(r: Routed, keepAlive: bool, worker: int): Bytes {
    RenderHead(r, keepAlive, worker) + (if r.body.Memory? then r.body.text else [])
  }

  const INTERNAL_ERROR: Bytes := "Internal Server Error"

  function InternalErrorLines(): seq<Bytes> {
    [StatusLine(500, INTERNAL_ERROR), Field(CONTENT_TYPE, TEXT_PLAIN), LengthLine(21), ConnectionLine(false)]
  }

  const INTERNAL_ERROR_RESPONSE: Response := Response(HeadText(InternalErrorLines()), INTERNAL_ERROR, false)

  // The response for a routed request, or the fixed 500 when it does not fit the buffer.
  function Finish(r: Routed, keepAlive: bool, worker: int): Response {
    if |Rendered(r, keepAlive, worker)| >= RESPONSE_BUF_SIZE then INTERNAL_ERROR_RESPONSE
    else Response(RenderHead(r, keepAlive, worker), BodyBytes(r.body), keepAlive)
  }

  function Answer(cfg: Config, p: Parser): Response { Finish(Route(cfg, p), p.KeepAlive(), cfg.worker) }

  function AnswerMalformed(cfg: Config): Response { Finish(BadRequest(), false, cfg.worker) }

  predicate BuiltIn(target: Bytes) { BeforeQuery(target) == HOME || BeforeQuery(target) == HELLO }

  lemma {:induction false} BeforeQueryIs(target: Bytes, path: Bytes)
    requires '?' !in path
    ensures BeforeQuery(target) == path <==> target == path || path + ['?'] <= target
    decreases path
  {
    if target != [] && target[0] != '?' && path != [] {
      BeforeQueryIs(target[1..], path[1..]);
      assert path == [path[0]] + path[1..] && target == [target[0]] + target[1..];
      assert path + ['?'] == [path[0]] + (path[1..] + ['?']);
    }
  }

  // The two targets that need no file: "/" and "/hello", with or without a query.
  predicate AsksHome(target: Bytes) { target == "/" || "/?" <= target }

  predicate AsksHello(target: Bytes) { target == "/hello" || "/hello?" <= target }

  lemma BuiltInExactly(target: Bytes)
    ensures BeforeQuery(target) == HOME <==> AsksHome(target)
    ensures BeforeQuery(target) == HELLO <==> AsksHello(target)
  {
    hide BeforeQuery;
    BeforeQueryIs(target, HOME);
    BeforeQueryIs(target, HELLO);
    assert HOME + ['?'] == "/?" && HELLO + ['?'] == "/hello?";
  }

  // The method is judged only after the target: a missing resource is 404 and a bad path 400 whatever the method, and
  // 405 (with its Allow header) claims that the resource exists.
  lemma StatusTable(cfg: Config, p: Parser)
    ensures var r := Route(cfg, p);
            var lookup := LookUp(cfg.root, cfg.fs, p.path);
            (r.status == 200 <==> p.methodId.GET? && (BuiltIn(p.path) || lookup.Found?)) &&
            (r.status == 405 <==> !p.methodId.GET? && (BuiltIn(p.path) || lookup.Found?)) &&
            (r.status == 404 <==> !BuiltIn(p.path) && lookup.NotFound?) &&
            (r.status == 400 <==> !BuiltIn(p.path) && lookup.InvalidPath?) &&
            (r.extra == [ALLOW_GET] <==> r.status == 405) &&
            (r.status == 200 && BuiltIn(p.path) ==>
               r.body == Memory(if BeforeQuery(p.path) == HOME then HOME_TEXT else HELLO_TEXT)) &&
            (r.body.File? <==> r.status == 200 && !BuiltIn(p.path)) &&
            (r.body.File? ==> r.body.content == lookup.content && r.contentType == lookup.contentType)
  {
    hide LookUp;
    hide BeforeQuery;
  }

  // Whatever is not a GET is answered with a body.
  lemma OthersHaveBodies(cfg: Config, p: Parser)
    ensures !p.methodId.GET? ==> BodyBytes(Route(cfg, p).body) != []
  {
    hide LookUp;
    hide BeforeQuery;
  }

  // ---- The fallback is unreachable ---------------------------------------------------------------------------------

  // Bounds that every response the router builds meets.
  predicate Ordinary(r: Routed) {
    100 <= r.status <= 999 && |r.reason| <= 18 && '\r' !in r.reason && PlainValue(r.contentType) &&
    r.extra == (if r.status == 405 then [ALLOW_GET] else []) && (r.body.Memory? ==> |r.body.text| <= 23)
  }

  lemma RouteIsOrdinary(cfg: Config, p: Parser)
    ensures Ordinary(Route(cfg, p)) && Ordinary(BadRequest())
  {
    hide LookUp;
    ErrorsAreOrdinary();
    hide Ordinary;
    FilesAreOrdinary(cfg, p.methodId, p.path);
  }

  lemma ErrorsAreOrdinary()
    ensures Ordinary(BadRequest()) && Ordinary(MethodNotAllowed()) && Ordinary(Simple(404, NOT_FOUND, NOT_FOUND, []))
    ensures Ordinary(Simple(200, OK_REASON, HOME_TEXT, [])) && Ordinary(Simple(200, OK_REASON, HELLO_TEXT, []))
  {}

  lemma FilesAreOrdinary(cfg: Config, methodId: Method, target: Bytes)
    ensures Ordinary(RouteFile(cfg, methodId, target))
  {
    hide LookUp;
    ErrorsAreOrdinary();
    hide MethodNotAllowed;
    hide BadRequest;
    hide Simple;
  }

  lemma {:induction false} LinesLength(lines: seq<Bytes>, most: nat)
    requires forall i :: 0 <= i < |lines| ==> |lines[i]| <= most
    ensures |JoinLines(lines)| <= |lines| * (most + 2)
    decreases lines
  {
    if lines != [] {
      LinesLength(lines[1..], most);
      assert |lines| * (most + 2) == (|lines| - 1) * (most + 2) + (most + 2);
    }
  }

  // Every line of an ordinary head is at most 44 bytes.
  lemma HeadLinesAreShort(r: Routed, keepAlive: bool, worker: int)
    requires Ordinary(r) && -0x8000_0000 <= worker < 0x8000_0000
    ensures forall i :: 0 <= i < |HeadLines(r, keepAlive, worker)| ==> |HeadLines(r, keepAlive, worker)[i]| <= 44
  {
    PowerFacts();
    hide Decimal;
    hide Power10;
    DecimalLength(r.status, 3);
    DecimalLength(BodyLength(r.body), 19);
    DecimalLength(if worker < 0 then -worker else worker, 10);
  }

  lemma OrdinaryFits(r: Routed, keepAlive: bool, worker: int)
    requires Ordinary(r) && -0x8000_0000 <= worker < 0x8000_0000
    ensures |Rendered(r, keepAlive, worker)| < RESPONSE_BUF_SIZE
  {
    HeadLinesAreShort(r, keepAlive, worker);
    LinesLength(HeadLines(r, keepAlive, worker), 44);
  }

  // No request, no file size and no worker id ever makes a response too long for the buffer.
  lemma FallbackIsUnreachable(cfg: Config, p: Parser)
    requires cfg.Valid()
    ensures Answer(cfg, p) ==
            Response(RenderHead(Route(cfg, p), p.KeepAlive(), cfg.worker), BodyBytes(Route(cfg, p).body), p.KeepAlive())
    ensures AnswerMalformed(cfg) == Response(RenderHead(BadRequest(), false, cfg.worker), BAD_REQUEST, false)
  {
    hide Route;
    hide Rendered;
    RouteIsOrdinary(cfg, p);
    OrdinaryFits(Route(cfg, p), p.KeepAlive(), cfg.worker);
    OrdinaryFits(BadRequest(), false, cfg.worker);
  }

  lemma InternalErrorFits()
    ensures |INTERNAL_ERROR_RESPONSE.Wire()| < RESPONSE_BUF_SIZE
  {
    var lines := InternalErrorLines();
    PowerFacts();
    hide Decimal;
    hide Power10;
    DecimalLength(500, 3);
    DecimalLength(21, 3);
    LinesLength(lines, 44);
  }
}
