/** The incremental request parser as a byte machine (src/http_parser.c), and its insensitivity to chunking. */
module ParserSpec {
  import opened Bytes
  import opened Negotiation

  const METHOD_MAX := 16
  const TARGET_MAX := 2048
  const VERSION_MAX := 16
  const HEADER_LINE_MAX := 8192
  const MAX_HEADERS := 64

  datatype Method = GET | POST | PUT | DELETE | HEAD | OPTIONS | PATCH | OTHER

  datatype State =
    | InMethod | InPath | InVersion | RequestLineLf
    | HeaderLineStart | HeaderName | HeaderValueSp | HeaderValue | HeaderLf | HeadersEndLf
    | Done | Failed

  datatype Parser = Parser(
    state: State,
    verb: Bytes, methodId: Method,
    path: Bytes,
    version: Bytes, major: int, minor: int,
    line: Bytes, nameLen: nat, headerCount: nat,
    directive: Directive)
  {
    predicate Terminal() { state.Done? || state.Failed? }

    predicate KeepAlive() { KeepsAlive(directive, major, minor) }
  }

  const INIT := Parser(InMethod, [], GET, [], [], 0, 0, [], 0, 0, Unspecified)

  datatype Result = Incomplete | Complete | Error

  datatype Outcome = Outcome(result: Result, consumed: nat, parser: Parser)

  predicate IsPathChar(c: Byte) { c as int > 0x20 && c as int != 0x7F }

  predicate IsNameChar(c: Byte) {
    'A' <= c <= 'Z' || 'a' <= c <= 'z' || '0' <= c <= '9' || c == '-' || c == '_'
  }

  predicate IsValueChar(c: Byte) { c == '\t' || (c as int >= 0x20 && c as int != 0x7F) }

  predicate IsVersionChar(c: Byte) { 0x21 <= c as int <= 0x7E }

  predicate IsValidVersion(v: Bytes) {
    |v| == 8 && v[0] == 'H' && v[1] == 'T' && v[2] == 'T' && v[3] == 'P' && v[4] == '/' &&
    IsDigit(v[5]) && v[6] == '.' && IsDigit(v[7])
  }

  function Classify(m: Bytes): Method {
    if m == "GET" then GET
    else if m == "POST" then POST
    else if m == "PUT" then PUT
    else if m == "DELETE" then DELETE
    else if m == "HEAD" then HEAD
    else if m == "OPTIONS" then OPTIONS
    else if m == "PATCH" then PATCH
    else OTHER
  }

  // The token of a method that has one.
  function NameOf(m: Method): Bytes
    requires !m.OTHER?
  {
    match m
    case GET => ['G', 'E', 'T']
    case POST => ['P', 'O', 'S', 'T']
    case PUT => ['P', 'U', 'T']
    case DELETE => ['D', 'E', 'L', 'E', 'T', 'E']
    case HEAD => ['H', 'E', 'A', 'D']
    case OPTIONS => ['O', 'P', 'T', 'I', 'O', 'N', 'S']
    case PATCH => ['P', 'A', 'T', 'C', 'H']
  }

  // Methods are told apart by their whole name, and by its case.
  lemma MethodsAreNamed(m: Method, verb: Bytes)
    ensures !m.OTHER? ==> (Classify(verb) == m <==> verb == NameOf(m))
    ensures Classify(verb).OTHER? <==> forall k: Method :: k.OTHER? || NameOf(k) != verb
  {
  }

  function Digit(c: Byte): int { c as int - '0' as int }

  // The directive in force once the buffered header line is complete.
  function NoteHeader(d: Directive, line: Bytes, nameLen: nat): Directive {
    if nameLen <= |line| && SameIgnoringCase(line[..nameLen], CONNECTION)
    then LastOf(d, Options(line[nameLen..]))
    else d
  }

  function Fail(p: Parser): Parser { p.(state := Failed) }

  function StepMethod(p: Parser, c: Byte): Parser {
    if c == ' ' then
      if p.verb == [] then Fail(p) else p.(methodId := Classify(p.verb), state := InPath)
    else if IsUpper(c) && |p.verb| < METHOD_MAX - 1 then p.(verb := p.verb + [c])
    else Fail(p)
  }

  function StepPath(p: Parser, c: Byte): Parser {
    if c == ' ' then
      if p.path == [] then Fail(p) else p.(state := InVersion)
    else if IsPathChar(c) && |p.path| < TARGET_MAX - 1 then p.(path := p.path + [c])
    else Fail(p)
  }

  function StepVersion(p: Parser, c: Byte): Parser {
    if c == '\r' then
      if IsValidVersion(p.version)
      then p.(major := Digit(p.version[5]), minor := Digit(p.version[7]), state := RequestLineLf)
      else Fail(p)
    else if IsVersionChar(c) && |p.version| < VERSION_MAX - 1 then p.(version := p.version + [c])
    else Fail(p)
  }

  function StepLineStart(p: Parser, c: Byte): Parser {
    if c == '\r' then p.(state := HeadersEndLf)
    else if IsNameChar(c) && p.headerCount < MAX_HEADERS then p.(line := [c], state := HeaderName)
    else Fail(p)
  }

  function StepName(p: Parser, c: Byte): Parser {
    if c == ':' then p.(nameLen := |p.line|, state := HeaderValueSp)
    else if IsNameChar(c) && |p.line| < HEADER_LINE_MAX - 1 then p.(line := p.line + [c])
    else Fail(p)
  }

  function StepValue(p: Parser, c: Byte): Parser {
    if c == '\r' then p.(state := HeaderLf)
    else if IsValueChar(c) && |p.line| < HEADER_LINE_MAX - 1 then p.(line := p.line + [c])
    else Fail(p)
  }

  function StepHeaderLf(p: Parser, c: Byte): Parser {
    if c == '\n'
    then p.(directive := NoteHeader(p.directive, p.line, p.nameLen),
            headerCount := p.headerCount + 1, state := HeaderLineStart)
    else Fail(p)
  }

  // One turn of the parser's loop; false when the byte has to be looked at again in the new state.
  function Transition(p: Parser, c: Byte): (Parser, bool) {
    match p.state
    case InMethod => (StepMethod(p, c), true)
    case InPath => (StepPath(p, c), true)
    case InVersion => (StepVersion(p, c), true)
    case RequestLineLf => (p.(state := if c == '\n' then HeaderLineStart else Failed), true)
    case HeaderLineStart => (StepLineStart(p, c), true)
    case HeaderName => (StepName(p, c), true)
    case HeaderValueSp => if IsBlank(c) then (p, true) else (p.(state := HeaderValue), false)
    case HeaderValue => (StepValue(p, c), true)
    case HeaderLf => (StepHeaderLf(p, c), true)
    case HeadersEndLf => (p.(state := if c == '\n' then Done else Failed), true)
    case Done => (p, true)
    case Failed => (p, true)
  }

  // All turns spent on one byte.
  function Consume(p: Parser, c: Byte): Parser {
    var (q, advance) := Transition(p, c);
    if advance then q else Transition(q, c).0
  }

  // Feed bytes until a terminal state is reached or the bytes run out.
  function Execute(p: Parser, data: Bytes): (o: Outcome)
    ensures o.consumed <= |data|
    ensures o.result.Complete? <==> o.parser.state.Done?
    ensures o.result.Error? <==> o.parser.state.Failed?
    ensures o.result.Incomplete? ==> o.consumed == |data|
    ensures !p.Terminal() && data != [] ==> o.consumed > 0
    decreases data
  {
    if p.state.Done? then Outcome(Complete, 0, p)
    else if p.state.Failed? then Outcome(Error, 0, p)
    else if data == [] then Outcome(Incomplete, 0, p)
    else
      var o := Execute(Consume(p, data[0]), data[1..]);
      o.(consumed := o.consumed + 1)
  }

  // A second call continues where an incomplete first one stopped.
  function Resume(o: Outcome, data: Bytes): Outcome {
    if o.result.Incomplete? then
      var next := Execute(o.parser, data);
      next.(consumed := o.consumed + next.consumed)
    else o
  }

  // Successive calls on successive reads.
  function ExecuteChunks(o: Outcome, chunks: seq<Bytes>): Outcome
    decreases chunks
  {
    if chunks == [] then o else ExecuteChunks(Resume(o, chunks[0]), chunks[1..])
  }

  // A byte is never looked at more than twice: the second look always moves on.
  lemma SecondLookAdvances(p: Parser, c: Byte)
    ensures var (q, advance) := Transition(p, c);
            !advance ==> p.state.HeaderValueSp? && q.state.HeaderValue? && Transition(q, c).1
  {}

  // Splitting the input changes nothing: same result, same total, same parser, from every parser state.
  lemma {:induction false} ChunkingInvariance(p: Parser, a: Bytes, b: Bytes)
    ensures Execute(p, a + b) == Resume(Execute(p, a), b)
    decreases a
  {
    if p.Terminal() {
    } else if a == [] {
      assert a + b == b;
    } else {
      assert (a + b)[1..] == a[1..] + b;
      ChunkingInvariance(Consume(p, a[0]), a[1..], b);
    }
  }

  lemma {:induction false} AnyPartition(p: Parser, first: Bytes, chunks: seq<Bytes>)
    ensures ExecuteChunks(Execute(p, first), chunks) == Execute(p, first + Concat(chunks))
    decreases chunks
  {
    if chunks == [] {
      assert first + Concat(chunks) == first;
    } else {
      ChunkingInvariance(p, first, chunks[0]);
      AnyPartition(p, first + chunks[0], chunks[1..]);
      assert first + chunks[0] + Concat(chunks[1..]) == first + Concat(chunks);
    }
  }

  // Behind the request line the method is that of the verb.
  predicate Classified(p: Parser) {
    p.state.InMethod? || p.state.Failed? || p.methodId == Classify(p.verb)
  }

  lemma ConsumeClassifies(p: Parser, c: Byte)
    requires Classified(p)
    ensures Classified(Consume(p, c))
  {
    hide Classify;
    hide NoteHeader;
    hide IsValidVersion;
  }

  lemma {:induction false} ExecuteClassifies(p: Parser, data: Bytes)
    requires Classified(p)
    ensures Classified(Execute(p, data).parser)
    decreases data
  {
    hide Classified;
    hide Consume;
    if !p.Terminal() && data != [] {
      ConsumeClassifies(p, data[0]);
      ExecuteClassifies(Consume(p, data[0]), data[1..]);
    }
  }

  // Once an outcome is terminal, the bytes behind it do not matter.
  lemma TerminalIgnoresRest(p: Parser, a: Bytes, b: Bytes)
    requires !Execute(p, a).result.Incomplete?
    ensures Execute(p, a + b) == Execute(p, a)
  {
    ChunkingInvariance(p, a, b);
  }
}
