/** What the connection's invariants mean: the whole-connection refinement, finality of close, and the client's view. */
module Refinement {
  import opened Bytes
  import opened Spec = ParserSpec
  import opened HttpParser
  import opened Negotiation
  import opened Grammar
  import opened Recognition
  import opened Decimals
  import opened Resolver
  import opened Files
  import opened Responses
  import opened Reference
  import opened Client
  import opened Connections

  // ---- What a history of serving means -----------------------------------------------------------------------------

  lemma ServesMore(cfg: Config, input: Bytes, more: Bytes)
    ensures Serve(cfg, input) <= Serve(cfg, input + more)
    ensures WireOf(Serve(cfg, input)) <= WireOf(Serve(cfg, input + more))
  {
    ServeIsMonotone(cfg, INIT, input, more);
    hide ServeFrom;
    WireOfPrefix(Serve(cfg, input), Serve(cfg, input + more));
  }

  // Measured against all that the peer sends: what was read is a prefix of it, what was sent is a prefix of what the
  // sequential server sends for it, and all of that once nothing is stuck and nothing is left to read.
  lemma FaithfulRefines(cfg: Config, h: History)
    requires h.Faithful(cfg)
    ensures h.received <= h.stream
    ensures h.sent <= WireOf(Serve(cfg, h.received)) <= WireOf(Serve(cfg, h.stream))
    ensures h.open && !h.stuck ==> h.sent == WireOf(Serve(cfg, h.received))
    ensures h.open && !h.stuck && h.port.script == [] && !h.port.Readable() ==>
              h.received == h.stream && h.sent == WireOf(Serve(cfg, h.stream))
  {
    hide Serve;
    hide Final;
    ServesMore(cfg, h.received, h.port.ToCome());
    WireOfPrefix(h.log, Serve(cfg, h.received));
    hide WireOf;
    assert h.received + [] == h.received;
  }

  // A handler closes a connection whose system calls all succeeded only when everything is sent that the peer's whole
  // stream is owed; and, unless that stream was read to its end, nothing that could be added to it is owed more.
  lemma ClosedOnlyWhenDone(cfg: Config, h: History, later: Bytes)
    requires h.Faithful(cfg) && h.Excused(cfg) && !h.broken
    ensures h.sent == WireOf(Serve(cfg, h.stream))
    ensures h.received == h.stream || h.sent == WireOf(Serve(cfg, h.received + later))
  {
    hide ServeFrom;
    hide WireOf;
    hide Serve;
    if Final(cfg, h.received, h.log) {
      assert Serve(cfg, h.received + h.port.ToCome()) == h.log;
      assert Serve(cfg, h.received + later) == h.log;
    }
  }

  // Such a history can go on as it is, drift or end, and none of that restarts the idle clock.
  lemma FaithfulIsSteady(cfg: Config, h: History)
    requires h.Faithful(cfg)
    ensures h.LeadsTo(h) && !h.Touched(h)
    ensures h.open ==> h.LeadsTo(h.Closed()) && !h.Touched(h.Closed())
    ensures h.open ==> h.LeadsTo(h.Drifted()) && !h.Touched(h.Drifted())
  {
    hide Serve;
    hide Final;
    hide WireOf;
  }

  // ---- Connections have such histories -----------------------------------------------------------------------------

  lemma GoneIsFaithful(c: Connection)
    requires c.Gone()
    ensures c.Past().Faithful(c.cfg) && c.Past().Alert()
  {
    hide Serve;
    hide WireOf;
  }

  lemma LiveIsFaithful(c: Connection)
    requires c.LiveCore() && c.sock.port.Armed()
    ensures c.Past().Faithful(c.cfg) && c.Past().Alert() && c.Past().open
  {
    hide ServeFrom;
    hide Serve;
    hide WireOf;
    hide Tracks;
    hide Final;
    hide RequestParser.Valid;
    if c.awaitingWritable {
      c.SendingPrefix(c.pendingInput[..c.pendingLen]);
    } else {
      c.SettledPrefix([]);
      c.ReadyIsComplete();
    }
  }

  // At every event boundary of a live connection: every byte read was parsed or is stashed, in order; a response is
  // stuck exactly while some of it is unsent, and only then is anything stashed.
  lemma LiveIsTidy(c: Connection)
    requires c.Live()
    ensures c.pendingLen <= c.pendingInput.Length && c.sock.received == c.taken + c.pendingInput[..c.pendingLen]
    ensures c.awaitingWritable <==> c.unsent != []
    ensures c.pendingLen > 0 ==> c.awaitingWritable
    ensures !c.awaitingWritable ==> !c.parser.value.Terminal() && c.writeLen == 0 && c.fileFd == -1
  {
    hide ServeFrom;
    hide Serve;
    hide WireOf;
    hide RequestParser.Valid;
    assert c.pendingInput[..0] == [];
  }

  // ---- The client's view -------------------------------------------------------------------------------------------

  lemma {:induction false} ServedResponsesFrame(cfg: Config, p: Parser, input: Bytes)
    requires cfg.Valid() && !p.Terminal()
    ensures forall i :: 0 <= i < |ServeFrom(cfg, p, input)| ==> Frames(ServeFrom(cfg, p, input)[i])
    decreases |input|
  {
    hide Frames;
    hide Answer;
    hide AnswerMalformed;
    if input != [] {
      var o := Execute(p, input);
      AnswersFrame(cfg, o.parser);
      if o.result.Complete? && Answer(cfg, o.parser).keepAlive {
        ServedResponsesFrame(cfg, INIT, input[o.consumed..]);
      }
    }
  }

  // A stream that is complete reads back as exactly the responses to the requests in the input.
  lemma StreamReadsBack(cfg: Config, input: Bytes)
    requires cfg.Valid()
    ensures ReadAll(WireOf(Serve(cfg, input))) == (Wires(Serve(cfg, input)), [])
  {
    hide Serve;
    ServeFrames(cfg, input);
    var rs := Serve(cfg, input);
    NoHeadEnd([]);
    StreamIsSelfDelimiting(rs, []);
    assert WireOf(rs) + [] == WireOf(rs);
  }

  // A client whose connection has nothing stuck and nothing left to read, or was closed by its handler with no failed
  // call, reads exactly the responses to all it sent.
  lemma ClientReadsResponses(cfg: Config, h: History)
    requires cfg.Valid() && h.Faithful(cfg)
    requires (h.open && !h.stuck && h.port.script == [] && !h.port.Readable()) || (h.Excused(cfg) && !h.broken)
    ensures ReadAll(h.sent) == (Wires(Serve(cfg, h.stream)), [])
  {
    hide Serve;
    StreamReadsBack(cfg, h.stream);
    hide History.Faithful;
    if h.open && !h.stuck && h.port.script == [] && !h.port.Readable() {
      FaithfulRefines(cfg, h);
    } else {
      ClosedOnlyWhenDone(cfg, h, []);
    }
  }

  lemma ServeFrames(cfg: Config, input: Bytes)
    requires cfg.Valid()
    ensures forall i :: 0 <= i < |Serve(cfg, input)| ==> Frames(Serve(cfg, input)[i])
  {
    hide Frames;
    hide ServeFrom;
    ServedResponsesFrame(cfg, INIT, input);
  }

  // Whatever a connection has sent so far, a client finds whole responses only, the right ones, in order.
  lemma FaithfulIsReadable(cfg: Config, h: History)
    requires cfg.Valid() && h.Faithful(cfg)
    ensures ReadAll(h.sent).0 <= Wires(Serve(cfg, h.stream))
  {
    hide Serve;
    hide Frames;
    hide History.Faithful;
    ServeFrames(cfg, h.stream);
    FaithfulRefines(cfg, h);
    PartialStreamIsSafe(Serve(cfg, h.stream), h.sent);
  }

  // The responses to HEAD requests, as a client meets them.
  ghost predicate HeadsHaveBodies(rs: seq<Response>, verbs: seq<Bytes>) {
    |rs| == |verbs| && forall i :: 0 <= i < |rs| && verbs[i] == "HEAD" ==> HasBody(rs[i])
  }

  lemma OneMoreHead(r: Response, verb: Bytes, rs: seq<Response>, verbs: seq<Bytes>)
    requires HeadsHaveBodies(rs, verbs) && (verb == "HEAD" ==> HasBody(r))
    ensures HeadsHaveBodies([r] + rs, [verb] + verbs)
  {
    hide HasBody;
  }

  lemma {:induction false} ServedHeadsHaveBodies(cfg: Config, p: Parser, input: Bytes)
    requires cfg.Valid() && !p.Terminal() && Classified(p)
    ensures HeadsHaveBodies(ServeFrom(cfg, p, input), AskedFrom(cfg, p, input))
    decreases |input|
  {
    hide HeadsHaveBodies;
    hide HasBody;
    hide Answer;
    hide AnswerMalformed;
    hide Classify;
    NoHeads();
    if input != [] {
      var o := Execute(p, input);
      ExecuteClassifies(p, input);
      HeadIsAnsweredWithBody(cfg, o.parser);
      var verb := o.parser.verb;
      if o.result.Complete? && Answer(cfg, o.parser).keepAlive {
        var rest := input[o.consumed..];
        ServedHeadsHaveBodies(cfg, INIT, rest);
        OneMoreHead(Answer(cfg, o.parser), verb, ServeFrom(cfg, INIT, rest), AskedFrom(cfg, INIT, rest));
      } else if o.result.Complete? {
        OneMoreHead(Answer(cfg, o.parser), verb, [], []);
        assert [verb] + [] == [verb] && [Answer(cfg, o.parser)] + [] == [Answer(cfg, o.parser)];
      } else {
        OneMoreHead(AnswerMalformed(cfg), verb, [], []);
        assert [verb] + [] == [verb] && [AnswerMalformed(cfg)] + [] == [AnswerMalformed(cfg)];
      }
    }
  }

  lemma NoHeads()
    ensures HeadsHaveBodies([], [])
  {}

  // A client that expects no body behind the head of a response to HEAD reads the server's stream as it was meant if
  // and only if no request with the verb HEAD was answered.
  lemma KnowingClientReadsAll(cfg: Config, input: Bytes)
    requires cfg.Valid()
    ensures ReadKnowing(WireOf(Serve(cfg, input)), Asked(cfg, input)) == (Wires(Serve(cfg, input)), []) <==>
            "HEAD" !in Asked(cfg, input)
  {
    hide Frames;
    hide HasBody;
    hide ServeFrom;
    hide AskedFrom;
    hide ReadKnowing;
    hide WireOf;
    ServeFrames(cfg, input);
    ServedHeadsHaveBodies(cfg, INIT, input);
    KnowingClientAgrees(Serve(cfg, input), Asked(cfg, input));
  }

  // For requests as a client prints them, one behind the other: it reads the answers right if and only if none of the
  // requests is a HEAD.
  lemma KnowingClientReadsPrinted(cfg: Config, rs: seq<Request>)
    requires cfg.Valid() && AllWellFormed(rs) && forall i :: 0 <= i < |rs| ==> AnswerRequest(cfg, rs[i]).keepAlive
    ensures ReadKnowing(WireOf(Answers(cfg, rs)), Verbs(rs)) == (Wires(Answers(cfg, rs)), []) <==>
            forall i :: 0 <= i < |rs| ==> rs[i].verb != "HEAD"
  {
    hide AnswerRequest;
    hide Answers;
    hide PrintAll;
    hide Serve;
    hide Asked;
    hide ReadKnowing;
    hide WireOf;
    hide Wires;
    hide WellFormed;
    var answers, text := Answers(cfg, rs), PrintAll(rs);
    assert text + [] == text;
    ServesPrintedRequests(cfg, rs, []);
    AsksPrintedRequests(cfg, rs, []);
    NothingServed(cfg);
    assert answers + [] == answers && Verbs(rs) + [] == Verbs(rs);
    KnowingClientReadsAll(cfg, text);
    assert forall i :: 0 <= i < |rs| ==> Verbs(rs)[i] == rs[i].verb;
  }

  // ---- From the text of a request to what its client reads ---------------------------------------------------------

  // The first response to an input, as the client cuts it out of the stream and takes it apart.
  function FirstReply(cfg: Config, input: Bytes): Reply {
    var wires := ReadAll(WireOf(Serve(cfg, input))).0;
    ReadReply(if wires == [] then [] else wires[0])
  }

  // The methods that the reply says are allowed.
  function AllowedBy(reply: Reply): Option<Bytes> { FieldValue(reply.fields, "Allow") }

  lemma FirstReplyIs(cfg: Config, input: Bytes, r: Response)
    requires cfg.Valid() && Serve(cfg, input) != [] && Serve(cfg, input)[0] == r
    ensures FirstReply(cfg, input) == ReadReply(r.Wire())
  {
    hide Serve;
    hide ReadAll;
    hide WireOf;
    hide ReadReply;
    StreamReadsBack(cfg, input);
    assert Wires(Serve(cfg, input))[0] == r.Wire();
  }

  // Whatever follows a request, the first thing the client reads announces the routed response and its body.
  lemma ClientSeesAnswer(cfg: Config, r: Request, rest: Bytes)
    requires cfg.Valid() && WellFormed(r)
    ensures Announces(FirstReply(cfg, Print(r) + rest), Route(cfg, ParserFor(r)), KeepsAliveRequest(r), cfg.worker)
  {
    hide Route;
    hide Print;
    hide WellFormed;
    hide Announces;
    hide RenderHead;
    hide Serve;
    hide FirstReply;
    hide ReadReply;
    var p := ParserFor(r);
    ServesOneRequest(cfg, r, rest);
    FirstReplyIs(cfg, Print(r) + rest, AnswerRequest(cfg, r));
    FallbackIsUnreachable(cfg, p);
    RouteIsOrdinary(cfg, p);
    ReplyIsReadable(Route(cfg, p), KeepsAliveRequest(r), cfg.worker);
  }

  lemma StatusesDiffer(status: nat)
    ensures Decimal(status) == "200" <==> status == 200
    ensures Decimal(status) == "400" <==> status == 400
    ensures Decimal(status) == "404" <==> status == 404
    ensures Decimal(status) == "405" <==> status == 405
  {
    StatusNumerals();
    DecimalRoundTrip(status);
    DecimalRoundTrip(200);
    DecimalRoundTrip(400);
    DecimalRoundTrip(404);
    DecimalRoundTrip(405);
    hide Decimal;
  }

  predicate AsksBuiltIn(target: Bytes) { AsksHome(target) || AsksHello(target) }

  // The target's escapes are malformed, or it is relative, or it climbs before the text in front of that overflows.
  predicate IsBadTarget(root: Bytes, target: Bytes) {
    var (text, ok) := Decode(PathPart(target));
    !ok || !IsAbsolute(text) ||
    (['.', '.'] in Segments(text) && |Base(root)| + |Render(Kept(Front(Segments(text))))| < 4096)
  }

  // What a client can tell from the status: 200 or 405 exactly if there is such a resource, by whether the verb is GET,
  // and only a 405 says what is allowed; 400 exactly if the target names no built-in route and is bad; 404 otherwise.
  lemma ClientLearns(cfg: Config, r: Request, rest: Bytes)
    requires cfg.Valid() && WellFormed(r)
    ensures var reply := FirstReply(cfg, Print(r) + rest);
            var there := AsksBuiltIn(r.target) || LookUp(cfg.root, cfg.fs, r.target).Found?;
            var bad := !AsksBuiltIn(r.target) && cfg.root != [] && IsBadTarget(cfg.root, r.target);
            reply.version == "HTTP/1.1" &&
            (reply.status == "200" <==> there && r.verb == "GET") &&
            (reply.status == "405" <==> there && r.verb != "GET") &&
            (reply.status == "400" <==> bad) &&
            (reply.status == "404" <==> !there && !bad) &&
            (AllowedBy(reply) == Some("GET") <==> reply.status == "405") &&
            (AllowedBy(reply).None? <==> reply.status != "405")
  {
    TargetsAreJudged(cfg, r.target);
    hide FirstReply;
    hide Route;
    hide LookUp;
    hide IsBadTarget;
    hide BuiltIn;
    hide FieldValue;
    hide AsksBuiltIn;
    hide WellFormed;
    hide Print;
    ClientSeesAnswer(cfg, r, rest);
    StatusTable(cfg, ParserFor(r));
    MethodsAreNamed(GET, r.verb);
    hide Classify;
    StatusesDiffer(Route(cfg, ParserFor(r)).status);
    hide Decimal;
  }

  lemma TargetsAreJudged(cfg: Config, target: Bytes)
    requires TargetOk(target)
    ensures BuiltIn(target) <==> AsksBuiltIn(target)
    ensures LookUp(cfg.root, cfg.fs, target).InvalidPath? <==> cfg.root != [] && IsBadTarget(cfg.root, target)
  {
    hide Decode;
    hide PathPart;
    hide Segments;
    hide BeforeQuery;
    BuiltInExactly(target);
    if cfg.root != [] {
      InvalidExactly(cfg.root, cfg.fs, target);
    }
  }

  // And what it reads behind the status: the reason, the type and length of the body, and the body itself, which is
  // the file if there is one.
  lemma ClientReads(cfg: Config, r: Request, rest: Bytes)
    requires cfg.Valid() && WellFormed(r)
    ensures var reply := FirstReply(cfg, Print(r) + rest);
            var file := LookUp(cfg.root, cfg.fs, r.target);
            (reply.status == "400" ==> reply.reason == reply.body == "Bad Request") &&
            (reply.status == "404" ==> reply.reason == reply.body == "Not Found") &&
            (reply.status == "405" ==> reply.reason == reply.body == "Method Not Allowed") &&
            (reply.status == "200" ==> reply.reason == "OK") &&
            (reply.status == "200" && AsksHome(r.target) ==> reply.body == "Hello from my C server!") &&
            (reply.status == "200" && AsksHello(r.target) ==> reply.body == "Hello, hello!") &&
            FieldValue(reply.fields, "Content-Length") == Some(Decimal(|reply.body|)) &&
            (if reply.status == "200" && !AsksBuiltIn(r.target)
             then file.Found? && reply.body == file.content &&
                  FieldValue(reply.fields, "Content-Type") == Some(file.contentType)
             else FieldValue(reply.fields, "Content-Type") == Some("text/plain"))
  {
    hide FirstReply;
    hide Route;
    hide LookUp;
    hide FieldValue;
    hide AsksHome;
    hide AsksHello;
    hide BeforeQuery;
    hide WellFormed;
    hide Print;
    ClientSeesAnswer(cfg, r, rest);
    BuiltInExactly(r.target);
    RoutedTexts(cfg, ParserFor(r));
    StatusTable(cfg, ParserFor(r));
    hide Classify;
    StatusesDiffer(Route(cfg, ParserFor(r)).status);
    hide Decimal;
  }

  lemma RoutedTexts(cfg: Config, p: Parser)
    ensures var r := Route(cfg, p);
            (r.status == 400 ==> r.reason == "Bad Request" && r.body == Memory("Bad Request")) &&
            (r.status == 404 ==> r.reason == "Not Found" && r.body == Memory("Not Found")) &&
            (r.status == 405 ==> r.reason == "Method Not Allowed" && r.body == Memory("Method Not Allowed")) &&
            (r.status == 200 ==> r.reason == "OK") &&
            (r.body.Memory? ==> r.contentType == "text/plain")
  {
    hide LookUp;
    hide BeforeQuery;
  }

  // The reply says who answered, and says truly whether the connection is kept.
  lemma ClientReadsConnection(cfg: Config, r: Request, rest: Bytes)
    requires cfg.Valid() && WellFormed(r)
    ensures var reply := FirstReply(cfg, Print(r) + rest);
            var worker := FieldValue(reply.fields, "X-Worker");
            worker.Some? && worker.value != [] &&
            IsNumeral(if worker.value[0] == '-' then worker.value[1..] else worker.value) &&
            ReadSigned(worker.value) == cfg.worker &&
            FieldValue(reply.fields, "Connection") == Some(if KeepsAliveRequest(r) then "keep-alive" else "close")
    ensures Serve(cfg, Print(r) + rest) ==
            [AnswerRequest(cfg, r)] + if KeepsAliveRequest(r) then Serve(cfg, rest) else []
  {
    hide FirstReply;
    hide Route;
    hide FieldValue;
    hide WellFormed;
    hide Print;
    hide Serve;
    hide AnswerRequest;
    hide KeepsAliveRequest;
    ClientSeesAnswer(cfg, r, rest);
    SignedRoundTrip(cfg.worker);
    ServedOnAsDocumented(cfg, r, rest);
    hide SignedDecimal;
    hide Decimal;
  }

  // Whatever is no request is refused, once, and ends the connection.
  lemma MalformedIsRefused(cfg: Config, input: Bytes, rest: Bytes)
    requires cfg.Valid() && Execute(INIT, input).result.Error?
    ensures Serve(cfg, input + rest) == [AnswerMalformed(cfg)]
    ensures var reply := FirstReply(cfg, input + rest);
            reply.status == "400" && reply.reason == "Bad Request" && reply.body == "Bad Request" &&
            FieldValue(reply.fields, "Connection") == Some("close") && AllowedBy(reply).None?
  {
    hide Execute;
    hide FirstReply;
    hide FieldValue;
    hide ServeFrom;
    hide RenderHead;
    NothingIsIncomplete();
    ServeDecided(cfg, INIT, input, rest);
    FirstReplyIs(cfg, input + rest, AnswerMalformed(cfg));
    FallbackIsUnreachable(cfg, INIT);
    hide AnswerMalformed;
    RouteIsOrdinary(cfg, INIT);
    ReplyIsReadable(BadRequest(), false, cfg.worker);
    StatusNumerals();
    hide Decimal;
  }

  lemma NothingIsIncomplete()
    ensures Execute(INIT, []).result.Incomplete?
  {}

  lemma NothingServed(cfg: Config)
    ensures Serve(cfg, []) == [] && Asked(cfg, []) == []
  {}
}
