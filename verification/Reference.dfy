/** The trivial sequential server: parse one request, answer it, repeat.  The event loop is measured against it. */
module Reference {
  import opened Bytes
  import opened ParserSpec
  import opened Negotiation
  import opened Grammar
  import opened Recognition
  import opened Responses

  // The responses to an input stream whose first request is partly parsed.
  function ServeFrom(cfg: Config, p: Parser, input: Bytes): seq<Response>
    requires !p.Terminal()
    decreases |input|
  {
    if input == [] then []
    else
      var o := Execute(p, input);
      match o.result
      case Incomplete => []
      case Error => [AnswerMalformed(cfg)]
      case Complete =>
        var r := Answer(cfg, o.parser);
        if r.keepAlive then [r] + ServeFrom(cfg, INIT, input[o.consumed..]) else [r]
  }

  // The verbs of the requests those responses answer, as far as they were read.
  function AskedFrom(cfg: Config, p: Parser, input: Bytes): (verbs: seq<Bytes>)
    requires !p.Terminal()
    ensures |verbs| == |ServeFrom(cfg, p, input)|
    decreases |input|
  {
    if input == [] then []
    else
      var o := Execute(p, input);
      if o.result.Incomplete? then []
      else if o.result.Complete? && Answer(cfg, o.parser).keepAlive
      then [o.parser.verb] + AskedFrom(cfg, INIT, input[o.consumed..])
      else [o.parser.verb]
  }

  function Asked(cfg: Config, input: Bytes): seq<Bytes> { AskedFrom(cfg, INIT, input) }

  function Serve(cfg: Config, input: Bytes): seq<Response> { ServeFrom(cfg, INIT, input) }

  // ---- How an implementation that has seen only part of the stream stands ------------------------------------------

  // Having read `recv` and started the responses `log`, an implementation whose parser is `p` and whose unparsed
  // bytes are `pend` owes, whatever still arrives, exactly the responses the reference server owes.
  ghost predicate Tracks(cfg: Config, recv: Bytes, log: seq<Response>, p: Parser, pend: Bytes) {
    !p.Terminal() && forall rest: Bytes :: Serve(cfg, recv + rest) == log + ServeFrom(cfg, p, pend + rest)
  }

  // Nothing is owed beyond `log`, whatever still arrives.
  ghost predicate Final(cfg: Config, recv: Bytes, log: seq<Response>) {
    forall rest: Bytes :: Serve(cfg, recv + rest) == log
  }

  // What is owed behind a response that either keeps the connection, `rest` being read but not parsed, or ends it.
  ghost predicate Owed(cfg: Config, recv: Bytes, log: seq<Response>, keepAlive: bool, rest: Bytes) {
    if keepAlive then Tracks(cfg, recv, log, INIT, rest) else Final(cfg, recv, log)
  }

  lemma OwedPrefix(cfg: Config, recv: Bytes, log: seq<Response>, keepAlive: bool, rest: Bytes)
    requires Owed(cfg, recv, log, keepAlive, rest)
    ensures log <= Serve(cfg, recv)
  {
    hide ServeFrom;
    if keepAlive { TracksPrefix(cfg, recv, log, INIT, rest); } else { FinalPrefix(cfg, recv, log); }
  }

  lemma TracksStart(cfg: Config)
    ensures Tracks(cfg, [], [], INIT, [])
  {
    forall rest: Bytes ensures Serve(cfg, [] + rest) == [] + ServeFrom(cfg, INIT, [] + rest) {
      assert [] + rest == rest;
    }
  }

  lemma TracksRead(cfg: Config, recv: Bytes, log: seq<Response>, p: Parser, chunk: Bytes)
    requires Tracks(cfg, recv, log, p, [])
    ensures Tracks(cfg, recv + chunk, log, p, chunk)
  {
    hide ServeFrom;
    forall rest: Bytes ensures Serve(cfg, recv + chunk + rest) == log + ServeFrom(cfg, p, chunk + rest) {
      assert recv + chunk + rest == recv + (chunk + rest);
      assert Serve(cfg, recv + (chunk + rest)) == log + ServeFrom(cfg, p, [] + (chunk + rest));
      assert [] + (chunk + rest) == chunk + rest;
    }
  }

  // What one call of the parser means for the stream as a whole, whatever follows.
  lemma ServeIncomplete(cfg: Config, p: Parser, data: Bytes, rest: Bytes)
    requires !p.Terminal() && Execute(p, data).result.Incomplete?
    ensures ServeFrom(cfg, p, data + rest) == ServeFrom(cfg, Execute(p, data).parser, rest)
  {
    hide Answer;
    hide AnswerMalformed;
    ChunkingInvariance(p, data, rest);
    var o := Execute(p, data);
    if rest == [] {
      assert data + rest == data;
    } else {
      var next := Execute(o.parser, rest);
      assert (data + rest)[|data| + next.consumed..] == rest[next.consumed..];
    }
  }

  lemma ServeDecided(cfg: Config, p: Parser, data: Bytes, rest: Bytes)
    requires !p.Terminal() && data != [] && !Execute(p, data).result.Incomplete?
    ensures var o := Execute(p, data);
            ServeFrom(cfg, p, data + rest) ==
            if o.result.Error? then [AnswerMalformed(cfg)]
            else if Answer(cfg, o.parser).keepAlive
                 then [Answer(cfg, o.parser)] + ServeFrom(cfg, INIT, data[o.consumed..] + rest)
            else [Answer(cfg, o.parser)]
  {
    hide Answer;
    hide AnswerMalformed;
    TerminalIgnoresRest(p, data, rest);
    var o := Execute(p, data);
    assert (data + rest)[o.consumed..] == data[o.consumed..] + rest;
  }

  lemma TracksIncomplete(cfg: Config, recv: Bytes, log: seq<Response>, p: Parser, pend: Bytes)
    requires Tracks(cfg, recv, log, p, pend) && Execute(p, pend).result.Incomplete?
    ensures Tracks(cfg, recv, log, Execute(p, pend).parser, [])
  {
    hide ServeFrom;
    hide Execute;
    var q := Execute(p, pend).parser;
    forall rest: Bytes ensures Serve(cfg, recv + rest) == log + ServeFrom(cfg, q, [] + rest) {
      ServeIncomplete(cfg, p, pend, rest);
      assert [] + rest == rest;
    }
  }

  lemma TracksDecided(cfg: Config, recv: Bytes, log: seq<Response>, p: Parser, pend: Bytes)
    requires Tracks(cfg, recv, log, p, pend) && pend != [] && !Execute(p, pend).result.Incomplete?
    ensures var o := Execute(p, pend);
            var r := if o.result.Error? then AnswerMalformed(cfg) else Answer(cfg, o.parser);
            if o.result.Complete? && r.keepAlive then Tracks(cfg, recv, log + [r], INIT, pend[o.consumed..])
            else Final(cfg, recv, log + [r])
  {
    hide ServeFrom;
    hide Execute;
    hide Answer;
    hide AnswerMalformed;
    var o := Execute(p, pend);
    var r := if o.result.Error? then AnswerMalformed(cfg) else Answer(cfg, o.parser);
    forall rest: Bytes
      ensures Serve(cfg, recv + rest) ==
              if o.result.Complete? && r.keepAlive then log + [r] + ServeFrom(cfg, INIT, pend[o.consumed..] + rest)
              else log + [r]
    {
      ServeDecided(cfg, p, pend, rest);
      assert Serve(cfg, recv + rest) == log + ServeFrom(cfg, p, pend + rest);
      var more := ServeFrom(cfg, INIT, pend[o.consumed..] + rest);
      assert log + ([r] + more) == log + [r] + more;
    }
  }

  // The response to a decided request, as the reference server gives it.
  function ResponseTo(cfg: Config, o: Outcome): Response {
    if o.result.Error? then AnswerMalformed(cfg) else Answer(cfg, o.parser)
  }

  lemma OwedDecided(cfg: Config, recv: Bytes, log: seq<Response>, p: Parser, pend: Bytes)
    requires Tracks(cfg, recv, log, p, pend) && pend != [] && !Execute(p, pend).result.Incomplete?
    ensures var o := Execute(p, pend);
            var r := ResponseTo(cfg, o);
            Owed(cfg, recv, log + [r], r.keepAlive, pend[o.consumed..])
  {
    hide Tracks;
    hide Final;
    hide Execute;
    TracksDecided(cfg, recv, log, p, pend);
    hide Answer;
  }

  // Whatever was started is what the reference server owes for the bytes read.
  lemma TracksPrefix(cfg: Config, recv: Bytes, log: seq<Response>, p: Parser, pend: Bytes)
    requires Tracks(cfg, recv, log, p, pend)
    ensures Serve(cfg, recv) == log + ServeFrom(cfg, p, pend) && log <= Serve(cfg, recv)
  {
    assert recv + [] == recv && pend + [] == pend;
    assert Serve(cfg, recv + []) == log + ServeFrom(cfg, p, pend + []);
  }

  lemma FinalPrefix(cfg: Config, recv: Bytes, log: seq<Response>)
    requires Final(cfg, recv, log)
    ensures Serve(cfg, recv) == log
  {
    assert recv + [] == recv;
    assert Serve(cfg, recv + []) == log;
  }

  // ---- The reference server itself ---------------------------------------------------------------------------------

  // More input never takes a response back.
  lemma {:induction false} ServeIsMonotone(cfg: Config, p: Parser, a: Bytes, b: Bytes)
    requires !p.Terminal()
    ensures ServeFrom(cfg, p, a) <= ServeFrom(cfg, p, a + b)
    decreases |a|
  {
    hide Answer;
    hide AnswerMalformed;
    if a != [] {
      var o := Execute(p, a);
      if o.result.Incomplete? {
        assert ServeFrom(cfg, p, a) == [];
      } else {
        ServeDecided(cfg, p, a, b);
        ServeDecided(cfg, p, a, []);
        assert a + [] == a;
        if o.result.Complete? && Answer(cfg, o.parser).keepAlive {
          assert a[o.consumed..] + [] == a[o.consumed..];
          ServeIsMonotone(cfg, INIT, a[o.consumed..], b);
        }
      }
    }
  }

  // The answer depends on nothing but what the grammar assigns to the request.
  predicate KeepsAliveRequest(r: Request) { KeepsAlive(DirectiveOf(r.headers), r.major, r.minor) }

  // A parser that holds just what the answer depends on.
  function ParserFor(r: Request): Parser {
    INIT.(path := r.target, methodId := Classify(r.verb), major := r.major, minor := r.minor,
          directive := DirectiveOf(r.headers))
  }

  function AnswerRequest(cfg: Config, r: Request): Response {
    Answer(cfg, ParserFor(r))
  }

  lemma AnswerDependsOnRequest(cfg: Config, p: Parser, r: Request)
    requires Holds(p, r)
    ensures Answer(cfg, p) == AnswerRequest(cfg, r) && p.KeepAlive() == KeepsAliveRequest(r)
  {
  }

  function Answers(cfg: Config, rs: seq<Request>): seq<Response> {
    seq(|rs|, i requires 0 <= i < |rs| => AnswerRequest(cfg, rs[i]))
  }

  // Printed requests that keep the connection are answered one for one, in order; then service goes on.
  lemma {:induction false} ServesPrintedRequests(cfg: Config, rs: seq<Request>, rest: Bytes)
    requires AllWellFormed(rs)
    requires forall i :: 0 <= i < |rs| ==> AnswerRequest(cfg, rs[i]).keepAlive
    ensures Serve(cfg, PrintAll(rs) + rest) == Answers(cfg, rs) + Serve(cfg, rest)
    decreases rs
  {
    hide ServeFrom;
    hide AnswerRequest;
    hide Print;
    hide WellFormed;
    if rs == [] {
      assert PrintAll(rs) + rest == rest && Answers(cfg, rs) + Serve(cfg, rest) == Serve(cfg, rest);
    } else {
      ServesOneRequest(cfg, rs[0], PrintAll(rs[1..]) + rest);
      ServesPrintedRequests(cfg, rs[1..], rest);
      var others := Answers(cfg, rs[1..]);
      assert Answers(cfg, rs) == [AnswerRequest(cfg, rs[0])] + others;
      assert PrintAll(rs) + rest == Print(rs[0]) + (PrintAll(rs[1..]) + rest);
      assert [AnswerRequest(cfg, rs[0])] + (others + Serve(cfg, rest)) == Answers(cfg, rs) + Serve(cfg, rest);
    }
  }

  // One printed request in front of anything: answered, and served on exactly if its answer keeps the connection.
  lemma ServesOneRequest(cfg: Config, r: Request, rest: Bytes)
    requires WellFormed(r)
    ensures Serve(cfg, Print(r) + rest) ==
            [AnswerRequest(cfg, r)] + if AnswerRequest(cfg, r).keepAlive then Serve(cfg, rest) else []
  {
    hide AnswerRequest;
    hide Answer;
    var text := Print(r);
    hide Print;
    PrintedIsComplete(r, []);
    assert text + [] == text;
    AnswerDependsOnRequest(cfg, Execute(INIT, text).parser, r);
    assert text != [];
    ServeDecided(cfg, INIT, text, rest);
    assert text[|text|..] + rest == rest;
  }

  lemma AskedDecided(cfg: Config, p: Parser, data: Bytes, rest: Bytes)
    requires !p.Terminal() && data != [] && Execute(p, data).result.Complete?
    ensures var o := Execute(p, data);
            AskedFrom(cfg, p, data + rest) ==
            [o.parser.verb] +
            if Answer(cfg, o.parser).keepAlive then AskedFrom(cfg, INIT, data[o.consumed..] + rest) else []
  {
    hide Answer;
    TerminalIgnoresRest(p, data, rest);
    var o := Execute(p, data);
    assert (data + rest)[o.consumed..] == data[o.consumed..] + rest;
  }

  lemma AsksOneRequest(cfg: Config, r: Request, rest: Bytes)
    requires WellFormed(r)
    ensures Asked(cfg, Print(r) + rest) ==
            [r.verb] + if AnswerRequest(cfg, r).keepAlive then Asked(cfg, rest) else []
  {
    hide AnswerRequest;
    hide Answer;
    hide AskedFrom;
    var text := Print(r);
    hide Print;
    PrintedIsComplete(r, []);
    assert text + [] == text;
    AnswerDependsOnRequest(cfg, Execute(INIT, text).parser, r);
    assert text != [];
    AskedDecided(cfg, INIT, text, rest);
    assert text[|text|..] + rest == rest;
  }

  function Verbs(rs: seq<Request>): seq<Bytes> { seq(|rs|, i requires 0 <= i < |rs| => rs[i].verb) }

  lemma {:induction false} AsksPrintedRequests(cfg: Config, rs: seq<Request>, rest: Bytes)
    requires AllWellFormed(rs)
    requires forall i :: 0 <= i < |rs| ==> AnswerRequest(cfg, rs[i]).keepAlive
    ensures Asked(cfg, PrintAll(rs) + rest) == Verbs(rs) + Asked(cfg, rest)
    decreases rs
  {
    hide Asked;
    hide AnswerRequest;
    hide Print;
    hide WellFormed;
    if rs == [] {
      assert PrintAll(rs) + rest == rest && Verbs(rs) + Asked(cfg, rest) == Asked(cfg, rest);
    } else {
      AsksOneRequest(cfg, rs[0], PrintAll(rs[1..]) + rest);
      AsksPrintedRequests(cfg, rs[1..], rest);
      assert Verbs(rs) == [rs[0].verb] + Verbs(rs[1..]);
      assert PrintAll(rs) + rest == Print(rs[0]) + (PrintAll(rs[1..]) + rest);
    }
  }

  predicate DocumentedFor(r: Request) { Documented(DirectiveOf(r.headers), r.major, r.minor) }

  // Service goes on behind a request as documented, except behind one of a later major version without a directive.
  lemma ServedOnAsDocumented(cfg: Config, r: Request, rest: Bytes)
    requires cfg.Valid() && WellFormed(r)
    ensures Serve(cfg, Print(r) + rest) ==
            [AnswerRequest(cfg, r)] + if KeepsAliveRequest(r) then Serve(cfg, rest) else []
    ensures KeepsAliveRequest(r) == DocumentedFor(r) <==> !(DirectiveOf(r.headers).Unspecified? && r.major >= 2)
  {
    ServesOneRequest(cfg, r, rest);
    DefaultIsDocumented(DirectiveOf(r.headers), r.major, r.minor);
    AnswerKeepsAlive(cfg, r);
    hide Serve;
    hide Print;
    hide AnswerRequest;
  }

  lemma AnswerKeepsAlive(cfg: Config, r: Request)
    requires cfg.Valid()
    ensures AnswerRequest(cfg, r).keepAlive == KeepsAliveRequest(r)
  {
    hide Route;
    hide Answer;
    FallbackIsUnreachable(cfg, ParserFor(r));
  }

  lemma LaterVersion() returns (r: Request)
    ensures WellFormed(r) && r.major == 2 && r.minor == 0 && r.headers == []
    ensures Print(r) == "GET / HTTP/2.0\r\n\r\n"
  {
    r := Request(['G', 'E', 'T'], ['/'], 2, 0, []);
    assert VersionText(2, 0) == "HTTP/2.0";
  }

  // The exception is real: this request is documented to persist, and nothing behind it is ever answered.
  lemma LaterVersionCloses(cfg: Config, rest: Bytes) returns (r: Request)
    requires cfg.Valid()
    ensures WellFormed(r) && Print(r) == "GET / HTTP/2.0\r\n\r\n" && DocumentedFor(r)
    ensures Serve(cfg, Print(r) + rest) == [AnswerRequest(cfg, r)]
  {
    hide AnswerRequest;
    hide Serve;
    r := LaterVersion();
    hide Print;
    hide WellFormed;
    ServedOnAsDocumented(cfg, r, rest);
  }
}
