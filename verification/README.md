# An HTTP/1.1 server, modelled and proved

The server is a single-threaded, edge-triggered event loop. It parses requests incrementally, answers two built-in
routes and files under a document root, keeps connections alive, and streams file bodies with `sendfile`. This project
models its three core files and proves what they are for: whatever the kernel does, every connection sends exactly what
a trivial sequential server would send for the same bytes.

## What is proved

1. **Whole-connection refinement.** A script says what the peer sends and when, how much each call moves, and when calls
   are interrupted, refused or fail. No byte of that stream is lost, invented or reordered on its way into the server.
   At every moment of every run, what a connection has sent is a prefix of `WireOf(Serve(cfg, stream))`, where `Serve`
   parses a request, answers it and repeats. It is all of it once nothing is stuck and nothing is left to read
   (`EveryConnectionRefines`, `FaithfulRefines`).
2. **Whole runs.** A moment is the clock, the list and the history of every connection. `Effect` says exactly what each
   event does to a moment, and `Run` that any sequence of events goes through such moments. Nothing read, sent or
   answered is taken back; an event changes the history of one connection, or ends some by their idle time, or adds
   empty ones (`Step`, `RunContinues`).
3. **Close is final.** From the moment a response that ends the connection is stuck, that connection reads nothing more,
   answers nothing more and sends no more than that response, at every later moment (`CloseIsFinal`,
   `ClosedStaysClosed`). A handler closes only after a failed call, or when all is sent that the peer's whole stream is
   owed (`HandlersFinish`, `ClosedOnlyWhenDone`).
4. **Progress.** No wakeup is lost. Once the script is used up and there is room, each wakeup of a connection brings it
   closer, one is due until it is there, and after two the connection is closed or has answered its whole stream
   (`NoLostWakeup`, `CalmStep`, `TwoWakeupsSettle`).
5. **The idle clock.** A connection leaves by time if and only if a sweep finds that within the timeout it was not
   accepted, did not read and did not finish a stuck kept-alive response; and none stays longer than the timeout plus
   five seconds plus the timer's lag (`ClockIsLastTouch`, `LeavesByTime`, `IdleBound`).
6. **The parser is the grammar.** COMPLETE exactly on inputs that start with a well-formed request; the consumed length
   is that request's; the parser holds its fields; splitting the input changes nothing (`ParserEqualsGrammar`,
   `AnyPartition`, `PipelineRoundTrip`). The grammar has byte classes and limits of its own, from the core rules of
   RFC 5234 and the token rule of RFC 7230.
7. **ERROR and hopelessness.** The parser reports ERROR only when no continuation can help. The converse is false:
   `WrongVersionIsUndecided` shows the input. `ErrorIffHopeless` proves that the two agree exactly when no wrong version
   token is open.
8. **The stream is self-delimiting.** A client that finds `CRLF CRLF`, reads `Content-Length` and cuts recovers exactly
   the responses, and never a wrong one from a partial stream. A client that expects no body behind the answer to a HEAD
   agrees if and only if no HEAD was answered (`StreamIsSelfDelimiting`, `KnowingClientReadsAll`).
9. **From text to text.** From the bytes of a request to the status, reason, header fields and body that its client cuts
   out of the stream: which of 200, 400, 404 and 405 it reads, by verb and target, and that `Allow: GET` stands exactly
   behind a 405 (`ClientLearns`, `ClientReads`, `ClientReadsConnection`, `MalformedIsRefused`). The last `close` or
   `keep-alive` in the Connection headers decides whether what follows is served (`ConnectionHeaderDecides`).
10. **Descriptors are conserved.** Every open file belongs to exactly one live connection, and after shutdown as many
    files were closed as opened (`FilesAreConserved`, `Run`).
11. **The resolver.** Decoding inverts every percent-spelling; joining equals its specification over segments; a target
    is served if and only if it names a regular file strictly below the root, and by every spelling of its path
    (`DecodeInvertsSpelling`, `JoinUnderRoot`, `FoundExactly`, `EverySpellingIsServed`).

## How it is organised

| file | holds |
|---|---|
| `Bytes.dfy`, `Decimals.dfy`, `Negotiation.dfy` | octets, decimal numerals, the Connection header as a list of options |
| `ParserSpec.dfy`, `Grammar.dfy`, `Recognition.dfy` | the parser as a byte machine, the request grammar, what the machine recognises |
| `HttpParser.dfy` | the parser with its four buffers, updated in place |
| `Resolver.dfy`, `Files.dfy` | decoding, joining and containment; lookup, content types, descriptors |
| `Responses.dfy`, `Client.dfy`, `Reference.dfy` | routing and rendering, the client that reads responses, the sequential server |
| `Persistence.dfy` | what the text of the Connection headers means for the service behind a request |
| `Kernel.dfy`, `Connection.dfy` | sockets and epoll; one connection, its handlers and its history |
| `Refinement.dfy` | what a history of serving means, and what its client sees |
| `Lists.dfy`, `Runs.dfy`, `EventLoop.dfy` | the linked list and the sweep; events, moments and what holds over any run; the loop itself |

Bodies that work step by step in the C code are methods over arrays and fields, proved against the functions of the
specification. Ghost fields hold the abstract values (`value`, `unsent`, `log`, `taken`, `received`, `sent`).

## Where the code and its comments differ

The model follows the code. Each difference has an exact condition and an input that shows it.

- The limits are there so that a client cannot make the parser grow without bound by never sending a CRLF. They bound
  what is stored, not what is read: `BoundedWork` bounds the input of an undecided parser besides white space in front of
  header values, and `WhiteSpaceIsUnlimited` gives undecided inputs of any length.
- The header comment promises persistence for "HTTP/1.1 and later". The code asks for major version exactly 1.
  `ServedOnAsDocumented` proves that the two agree except for a later major version without a directive;
  `LaterVersionCloses` is such a request.
- A `..` segment is said to be answered with 400. Behind a text that already overflows the path buffer it is 404:
  `InvalidExactly` states when, `ClimbBehindOverflow` shows it.
- The field's comment and the sweep's name reads as what restarts the idle clock. A stuck response that goes out on a
  kept-alive connection restarts it too: `LeavesByTime` states exactly which connections a sweep closes, and
  `SlowReaderExists` runs a loop, event by event, to a sweep that its open connection survives although its last read is
  a whole timeout ago.
- A wrong version token is rejected only at its CR, at a byte that no version can hold, or when its buffer is full
  (`ErrorIffHopeless`, `WrongVersionIsUndecided`).

The built-in routes cut the target only at `?` and do not decode it; the file resolver cuts at `?` or `#` and decodes.

## Modelling choices

- A tick per system call says what arrives, what drains and how the call turns out. The peer's stream is all that the
  script brings before a hang-up. `EAGAIN` on a write means the buffer is full at that moment. A successful
  `EPOLL_CTL_MOD` polls the registration afresh.
- The clock is read once per handler. The timer event may come at any moment, but no later than five seconds and a
  given lag after the last sweep. The idle timeout is positive, as `src/main.c:93-106` guarantees.
- The file system is a function from paths to what the kernel reports for them. It does not change, except that a file
  being sent may shrink.
- `close_connection` takes the connection off the list before closing it. Here the dispatcher unhooks it right after the
  handler has closed it. The list links live in an object of their own, and the embedded parser is an object.
- The loop handles one reported event at a time; a run is any sequence of events. `Elapse` lets time pass with the
  timer as late as it may be; an earlier expiry is an event of its own.
- The output buffers must have room for the terminating NUL: one byte in `DecodePath`, two in `JoinUnderRoot` (for `/`).
- The client trims space and tab, a subset of what the test client strips.
- `broken` records that a system call failed.

## Model

| member | source | states |
|---|---|---|
| ParserSpec.Execute | src/http_parser.h:95-110 | INCOMPLETE consumes everything; a call on a running parser with input consumes something; the result is COMPLETE or ERROR exactly in the matching terminal state |
| ParserSpec.SecondLookAdvances | src/http_parser.c:231-238 | only the optional white space state looks at a byte twice, and the second look moves on |
| ParserSpec.ChunkingInvariance | src/http_parser.h:95-98 | from every parser state, two calls on two pieces give the result, total and parser of one call on both |
| ParserSpec.AnyPartition | src/http_parser.h:95-98 | the same for any division of the input into reads |
| ParserSpec.TerminalIgnoresRest | src/http_parser.h:108-110 | once an outcome is terminal the bytes behind it change nothing |
| ParserSpec.MethodsAreNamed | src/http_parser.c:42-57 | a verb is classified as a method if and only if it is that method's name, in its case, and as other if it is nobody's |
| ParserSpec.ExecuteClassifies | src/http_parser.c:121-139 | behind the request line the stored method is that of the stored verb, whatever follows |
| Negotiation.LastOfAppend | src/http_parser.c:64-98 | the directive of two lists of options is the second's, with the first's as default |
| Negotiation.SkipBlank | src/http_parser.c:77-79 | skipping a blank in front of an option does not change what the list means |
| Negotiation.SkipComma | src/http_parser.c:77-79 | nor does skipping an empty option |
| Negotiation.TakeToken | src/http_parser.c:83-96 | a token that ends at a comma or the end contributes its trimmed option, then the rest follows |
| Negotiation.DefaultIsDocumented | src/http_parser.h:113-120 | the code's keep-alive rule is the documented one if and only if it is not a later major version without a directive |
| Grammar.IsVerbByte | src/http_parser.c:6-13 | the capital ALPHA bytes are those the machine takes in a method |
| Grammar.IsTargetByte | src/http_parser.c:15-20 | VCHAR and obs-text are the bytes it takes in a target |
| Grammar.IsNameByte | src/http_parser.c:22-24 | the token bytes without the excluded punctuation are those it takes in a header name |
| Grammar.IsValueByte | src/http_parser.c:26-30 | VCHAR, obs-text, SP and HTAB are those it takes in a header value |
| Grammar.AdvanceSpells | src/http_parser.c:116-296 | every byte either fails the machine or extends the text that the machine's history spells |
| Grammar.ConsumedIsSpelled | src/http_parser.c:105-300 | unless it fails, what a fresh parser consumed is exactly what its history spells |
| Grammar.CompleteIsWellFormed | src/http_parser.c:267-269 | COMPLETE yields a well-formed request whose text is the consumed bytes and whose fields the parser holds |
| Grammar.FeedRequestLine | src/http_parser.c:121-190 | the text of any legal request line drives the machine to the first header line with the fields stored |
| Grammar.FeedHeader | src/http_parser.c:192-265 | the text of any legal header drives it to the next line, with the Connection directive updated as the grammar says |
| Grammar.PrintedIsComplete | src/http_parser.c:105-300 | a printed request with anything behind it completes, consuming exactly the request |
| Grammar.ParserEqualsGrammar | src/http_parser.c:105-300 | COMPLETE if and only if the input starts with a well-formed request, in the grammar's own byte classes and limits; that request gives the consumed length and the stored fields |
| Grammar.UserAgentIsAccepted | src/http_parser.c:22-24 | a request with a `User-Agent` header of any legal value completes, with anything behind it |
| Grammar.PrintIsUnambiguous | src/http_parser.c:105-300 | request texts are prefix-free and determine the request |
| Recognition.ErrorIsHopeless | src/http_parser.c:282-285 | after ERROR no continuation of the input starts with a well-formed request |
| Recognition.IncompleteIsExtendable | src/http_parser.c:105-300 | INCOMPLETE with no wrong version token open can still be continued to a request |
| Recognition.StalledIsIncomplete | src/http_parser.c:160-181 | while a wrong version token is open the parser asks for more although nothing can help |
| Recognition.ErrorIffHopeless | src/http_parser.c:105-300 | ERROR implies hopeless for every input; ERROR and hopeless agree if and only if no wrong version token is open |
| Recognition.WrongVersionIsUndecided | src/http_parser.c:160-181 | a concrete input on which they disagree |
| Recognition.BoundedWork | src/http_parser.h:12-15 | an undecided parser has consumed at most 526,491 bytes besides skipped white space |
| Recognition.BoundIsAttained | src/http_parser.h:12-15 | some input of exactly that length, with nothing skipped, leaves it undecided |
| Recognition.WhiteSpaceIsUnlimited | src/http_parser.c:231-238 | for every length there is an undecided input at least that long |
| Recognition.PipelineRoundTrip | src/http_parser.h:100-106 | printing any list of requests back to back and parsing with a fresh parser each time recovers that list, then goes on with the rest |
| HttpParser.RequestParser.constructor | src/http_parser.c:100-103 | a new parser is in the initial state |
| HttpParser.RequestParser.Reset | src/http_parser.c:100-103 | zeroing leaves every buffer NUL-terminated and the initial state |
| HttpParser.RequestParser.OnMethod | src/http_parser.c:121-139 | one byte of the method, in the buffer and in the specification alike |
| HttpParser.RequestParser.OnPath | src/http_parser.c:141-158 | one byte of the target |
| HttpParser.RequestParser.OnVersion | src/http_parser.c:160-181 | one byte of the version |
| HttpParser.RequestParser.OnLineStart | src/http_parser.c:192-213 | the first byte of a header line, or the end of the headers |
| HttpParser.RequestParser.OnName | src/http_parser.c:215-229 | one byte of a header name |
| HttpParser.RequestParser.OnValue | src/http_parser.c:240-253 | one byte of a header value |
| HttpParser.RequestParser.OnHeaderLf | src/http_parser.c:255-265 | the end of a header line: the header is counted and a Connection header noted |
| HttpParser.RequestParser.NoteConnectionHeader | src/http_parser.c:64-98 | walking the value in the buffer yields the last recognised option of the comma separated list |
| HttpParser.RequestParser.SkipSeparators | src/http_parser.c:77-82 | stops at the first byte of an option or the NUL, leaving the meaning of the rest unchanged |
| HttpParser.RequestParser.TrimEnd | src/http_parser.c:87-90 | cuts the blanks behind an option |
| HttpParser.RequestParser.Turn | src/http_parser.c:116-280 | one turn of the switch is one transition of the machine, including whether the byte is looked at again |
| HttpParser.RequestParser.Execute | src/http_parser.c:105-300 | result, consumed count and the whole new parser equal the specification's, in bounds of every buffer |
| Resolver.DecodeInvertsSpelling | src/static_files.c:58-109 | decoding succeeds with a text if and only if the input spells that text |
| Resolver.EscapesReadBack | src/static_files.c:45-56 | a text begins with an escape that stands for a byte if and only if it is `%` and the byte's two hexadecimal digits, each in either case, and the byte is not NUL |
| Resolver.EscapedSpells | src/static_files.c:45-56 | escaping every byte, high digit first and in either letter case, spells the text |
| Resolver.SpellingRoundTrip | src/static_files.c:58-109 | any spelling of a text that fits, with or without a query or fragment, decodes to that text |
| Resolver.DecodePath | src/static_files.c:74-109 | the loop's code, text and terminating NUL are the specification's, for every buffer size |
| Resolver.WalkIsJoin | src/static_files.c:111-171 | one left-to-right walk over the segments is the join of the naming segments, with the first failure decided by what stands in front of it |
| Resolver.JoinUnderRoot | src/static_files.c:123-171 | the loop's code, text and terminating NUL are those of the join over segments |
| Resolver.JoinFits | src/static_files.c:156-158 | when root and path fit together, the only failures are a relative path and a climbing segment |
| Resolver.WithinRootIsBelow | src/static_files.c:173-183 | the prefix test on canonical paths is exactly "strictly below" on lists of segments |
| Resolver.KeptInside | src/static_files.c:139-154 | an empty segment or "." is dropped wherever it stands, and everything else is kept in order |
| Resolver.JoinStaysInside | src/static_files.c:111-122 | a successful join is the root's segments followed by ordinary segments, never climbing |
| Files.TypeFollowsExtension | src/static_files.c:217-245 | only what follows the last dot of the last segment decides the content type, whatever its case; without a dot it is the default |
| Files.TypeByExtension | src/static_files.c:217-245 | the type of a file for each of the twelve extensions, in any case, and for every other name |
| Files.ServedIsUnderRoot | src/static_files.c:274-368 | whatever is served was opened by a path that extends the root without climbing and ends in a name; the file is regular and lies strictly below the root |
| Files.FoundExactly | src/static_files.c:274-368 | a target is served if and only if it decodes to an absolute path without "..", ending in a name, that fits and leads to a regular file with a canonical path strictly below the root; then with that file's content and type |
| Files.EverySpellingIsServed | src/static_files.c:274-368 | every spelling of a path of ordinary names below the root, with or without a query, is found exactly if the file there can be served, with its content and type |
| Files.ParsedTargetDecodes | src/static_files.c:58-109 | a target the grammar admits is never too long to decode, and never decodes to a NUL |
| Files.InvalidExactly | src/static_files.c:283-310 | a parsed target is refused as invalid if and only if an escape is malformed, it is not absolute, or it climbs before the text overflows |
| Files.ClimbBehindOverflow | src/static_files.c:155-160 | under a root of many one-letter names a climbing target is reported as not found |
| Files.StaticFileOpen | src/static_files.c:274-368 | result, size and type are the lookup's; the caller owns one new descriptor exactly on success, and otherwise the table is unchanged |
| Files.ResolveTarget | src/static_files.c:283-323 | decoding and joining in two buffers give the specified code, path and trailing-slash test |
| Files.StaticFileClose | src/static_files.c:370-375 | closes the descriptor if there is one, and nothing otherwise |
| Decimals.DecimalRoundTrip | src/event_loop.c:334-362 | a printed number consists of digits and reads back as itself |
| Decimals.SignedRoundTrip | src/event_loop.c:334-362 | a printed worker id reads back as itself, negative or not |
| Responses.BuiltInExactly | src/event_loop.c:245-255 | the built-in routes are exactly "/" and "/hello", alone or with a query |
| Responses.RouteIsOrdinary | src/event_loop.c:260-319 | every routed response has a three-digit status, a short plain reason and type, and a short in-memory body |
| Responses.FallbackIsUnreachable | src/event_loop.c:534-548 | no request, file size or worker id makes a response too long for the buffer, so every answer is the rendered one |
| Responses.InternalErrorFits | src/event_loop.c:553-558 | the fixed 500 fits the buffer |
| Client.InternalErrorFrames | src/event_loop.c:553-558 | the fixed 500 is found whole at the front of any stream, and closes |
| Client.ReplyIsReadable | src/event_loop.c:334-362 | from the rendered response a client reads back version, status, reason, content type, length, worker id, connection value and body, and an Allow header exactly behind a 405 |
| Client.AnswersFrame | src/event_loop.c:321-362 | every answer's wire text is found whole at the front of any stream |
| Client.StreamIsSelfDelimiting | tests/http_test_utils.py:53-64 | reading a concatenation of framed responses yields exactly those responses, then whatever is left |
| Client.PartialStreamIsSafe | tests/http_test_utils.py:53-64 | reading any prefix of such a stream yields a prefix of those responses |
| Client.KnowingClientAgrees | src/event_loop.c:271-296 | a client that stops at the head of an answer to HEAD reads framed responses as meant if and only if none of them answers a HEAD |
| Reference.ServeIsMonotone | src/event_loop.c:585-629 | more input never takes a response back |
| Reference.ServeIncomplete | src/event_loop.c:599-601 | an undecided parser may be kept across reads: serving goes on from it as if the bytes came at once |
| Reference.ServeDecided | src/event_loop.c:603-628 | a decided request is answered once; what follows is served exactly if the answer keeps the connection |
| Reference.ServesPrintedRequests | src/event_loop.c:585-629 | printed requests that keep the connection are answered one for one and in order, then service goes on |
| Reference.ServesOneRequest | src/event_loop.c:585-629 | one printed request is answered, and service goes on exactly if its answer keeps the connection |
| Reference.ServedOnAsDocumented | src/http_parser.h:113-120 | service goes on behind a request by its directive and version, and as documented if and only if it is not a later major version without a directive |
| Reference.LaterVersionCloses | src/http_parser.c:302-310 | an HTTP/2.0 request is documented to persist, and nothing behind it is ever answered |
| Reference.AsksPrintedRequests | src/event_loop.c:585-629 | the requests that are answered are those that were printed, verb by verb |
| Persistence.WordsIgnoreCase | src/http_parser.c:92-95 | the comparison without case is equality up to capital letters, for the header's name and for both words |
| Persistence.ValueDecides | src/http_parser.c:64-98 | the scanner ends on `close`, on `keep-alive` or on neither if and only if the last piece between commas that is one of the words, with white space around it, is that word, or there is none |
| Persistence.HeadersDecide | src/http_parser.c:255-265 | the stored directive is the last of the two words in all Connection headers |
| Persistence.ConnectionHeaderDecides | src/http_parser.c:92-95 | behind a request whose Connection headers end on `close` nothing is served, behind `keep-alive` everything is, and behind neither exactly for HTTP/1.1 to HTTP/1.9 |
| Kernel.MovingLosesNothing | src/event_loop.c:631-635 | when the world moves, no byte of the peer's stream and no due event is lost |
| Kernel.Socket.Read | src/event_loop.c:640 | hands over the next bytes that arrived, as many as the verdict says, or reports what the verdict says; read bytes and bytes to come stay the peer's stream |
| Kernel.Socket.Write | src/event_loop.c:372 | takes the prefix the verdict says or nothing; refused means that there is no room; the peer's stream is untouched |
| Kernel.Socket.SendFile | src/event_loop.c:413 | moves the piece of the file at the offset that the verdict says, or nothing; the peer's stream is untouched |
| Kernel.Socket.Modify | src/event_loop.c:473-479 | success registers the direction and reports it again if it is ready |
| Connections.Connection.constructor | src/event_loop.c:745-749 | a fresh connection: parser reset, no file, nothing pending, reading registered, the peer's stream ahead |
| Connections.Connection.AcceptedIsLive | src/event_loop.c:745-749 | a fresh connection meets the invariant |
| Connections.Connection.TryFlushWriteBuffer | src/event_loop.c:369-388 | sent plus unsent is conserved; done means the head is out; blocked means some is left and there is no room; closed means a call failed |
| Connections.Connection.TrySendfileBody | src/event_loop.c:406-444 | the same for the file, whose offset always says where to resume |
| Connections.Connection.TryFlushResponse | src/event_loop.c:446-458 | the head goes out completely before the file; done means nothing is left, and is certain with a kernel that takes all it is given; a refused call leaves everything unsent |
| Connections.Connection.ReleaseFileBody | src/event_loop.c:225-232 | gives this connection's descriptor back and no other |
| Connections.Connection.FinishAfterResponseSent | src/event_loop.c:460-486 | a closing response closes; otherwise the parser is fresh and reading is armed without losing an event; the idle clock restarts exactly in the second case |
| Connections.Connection.SendResponse | src/event_loop.c:488-524 | sent at once and ready for the next request, or stuck with an armed write event, or closed with a reason |
| Connections.Connection.StashPendingInput | src/event_loop.c:526-532 | the stash holds the given bytes, even when they come from the stash itself |
| Connections.Connection.PathIs | src/event_loop.c:245-255 | compares the target in front of its first question mark |
| Connections.Connection.RouteStaticFile | src/event_loop.c:277-306 | the specified response; a descriptor is left open exactly when the response carries it |
| Connections.Connection.RouteRequest | src/event_loop.c:308-319 | the specified response for every request |
| Connections.Connection.PrepareResponse | src/event_loop.c:550-583 | what is to be sent is the specified response, head and file; a response that does not fit becomes the 500 and its file is closed |
| Connections.Connection.ShouldKeepAlive | src/http_parser.c:302-310 | the decision on the parser's fields is the rule that DefaultIsDocumented compares with the documented one |
| Connections.Connection.Parse | src/event_loop.c:594-601 | one call of the parser leaves the rest in order, and either the connection between requests or exactly one response owed |
| Connections.Connection.ServeNext | src/event_loop.c:594-623 | one request is parsed, answered and sent as far as the socket allows, consuming input every time |
| Connections.Connection.ProcessInput | src/event_loop.c:585-629 | every complete request of the chunk is answered in order; a stuck response stops it with the rest stashed; it closes only with a reason |
| Connections.Connection.ReadAndServe | src/event_loop.c:639-671 | one turn of the read loop: goes on only with progress, stops only when dry, stuck or closed with a reason; a refused write leaves its response stuck |
| Connections.Connection.HandleReadable | src/event_loop.c:631-672 | reads until the socket is dry, every byte in its place in the peer's stream; restarts the idle clock if and only if anything was read; keeps the invariant and the due event; what was sent only grows |
| Connections.Connection.FlushPendingWrite | src/event_loop.c:674-701 | resumes the stuck response, then the stashed input; a closing response is followed by nothing; the idle clock restarts if and only if the response went out and the connection goes on |
| Connections.Connection.Close | src/event_loop.c:234-243 | closing gives up the file and nothing else, and leaves a prefix of what was owed |
| Connections.Connection.HandleEvent | src/event_loop.c:956-961 | the registered direction picks the handler; what it does to the history: continued, exact idle clock, progress, a reason for closing, what a refusing and what a calm kernel lead to |
| Connections.LeadsToIsTransitive | src/event_loop.c:956-961 | a history that continues one that continues a third continues that one, closing promises included |
| Refinement.FaithfulRefines | src/event_loop.c:53-85 | what was read is a prefix of the peer's stream; what was sent is a prefix of what the sequential server sends for it, and all of it with nothing stuck and nothing left to read |
| Refinement.ClosedOnlyWhenDone | src/event_loop.c:500-505 | a connection closed by a handler without a failed call has sent all that the peer's whole stream is owed and, unless it read that to its end, all that any continuation could be owed |
| Refinement.LiveIsFaithful | src/event_loop.c:53-85 | a live connection's history is one of serving its peer's stream, and an event is due whenever its direction is ready |
| Refinement.GoneIsFaithful | src/event_loop.c:234-243 | a closed connection's history is one of serving its peer's stream |
| Refinement.LiveIsTidy | src/event_loop.c:59-84 | every byte read is parsed or stashed, in order; stuck exactly while something is unsent; stashed only while stuck |
| Refinement.ClientReadsResponses | tests/http_test_utils.py:53-64 | with nothing stuck and nothing left to read, or after a handler's close without a failed call, the client reads exactly the responses to all it sent |
| Refinement.FaithfulIsReadable | tests/http_test_utils.py:53-64 | whatever such a history has sent, the whole responses a client finds are the right ones, in order |
| Refinement.KnowingClientReadsAll | src/event_loop.c:271-319 | for every input: a client that expects no body behind the answer to a HEAD reads the stream as meant if and only if no request with the verb HEAD was answered |
| Refinement.KnowingClientReadsPrinted | src/event_loop.c:271-319 | the same for requests printed one behind the other: if and only if none of their verbs is HEAD |
| Refinement.ClientSeesAnswer | src/event_loop.c:585-629 | the first response that a client cuts out of the stream behind a request reads as the routed one, head and body, whatever follows the request |
| Refinement.ClientLearns | src/event_loop.c:271-319 | the client reads 200 exactly if the resource exists and the verb is GET, 405 exactly if it exists and the verb is another, 400 exactly for a malformed, relative or climbing target, 404 otherwise; it finds `Allow: GET` exactly behind a 405 |
| Refinement.ClientReads | src/event_loop.c:260-319 | the reason, type, length and body behind each status: fixed texts for errors and built-in routes, the file's content and type for files |
| Refinement.ClientReadsConnection | src/event_loop.c:334-362 | the worker id reads back, and the connection value says whether service goes on behind the request |
| Refinement.MalformedIsRefused | src/event_loop.c:603-611 | once the parser reports an error, there is one answer, 400 with `Connection: close`, whatever follows |
| Lists.ConnectionList.Insert | src/event_loop.c:201-208 | the new link goes to the front, both directions consistent |
| Lists.ConnectionList.Remove | src/event_loop.c:210-219 | the link disappears from wherever it stands, the others keep their order |
| EventLoops.ExactStep | src/event_loop.c:221-232 | when one connection's step leaves the other open files alone, every descriptor is still held by exactly one connection |
| Lists.SweptStep | src/event_loop.c:773-783 | looking at one more connection removes it or not, and the next link stands where the walk looks for it |
| Lists.SurvivorsAreRecent | src/event_loop.c:773-783 | exactly those active after the limit survive the sweep |
| Lists.SurvivorsOfSurvivors | src/event_loop.c:773-783 | sweeping twice leaves what the later sweep alone leaves |
| Runs.EveryEventContinues | src/event_loop.c:903-964 | whatever the event, every history continues, and its clock says when it was last accepted, read or finished a stuck kept-alive response |
| Runs.RunContinues | src/event_loop.c:903-966 | over any distance in a run, histories continue and time does not go back |
| Runs.CloseIsFinal | src/event_loop.c:460-466 | once a closing response is stuck, that connection reads, answers and sends nothing beyond it at any later moment, and nothing that could arrive is owed more |
| Runs.ClosedStaysClosed | src/event_loop.c:234-243 | a closed connection's history never changes again |
| Runs.EveryConnectionRefines | src/event_loop.c:903-966 | at every moment of every run each connection, live or closed, refines the sequential server on its peer's fixed stream, and its client finds only whole responses, the right ones, in order |
| Runs.ClockIsLastTouch | src/event_loop.c:84 | over any run the idle clock is the last moment at which the connection was accepted, read or finished a stuck kept-alive response |
| Runs.LeavesByTime | src/event_loop.c:767-783 | time closes an open connection if and only if that moment is a whole timeout before the sweep, and otherwise leaves it as it is |
| Runs.LastTouchIsRecent | src/event_loop.c:767-783 | in a run from an empty loop, that moment is within a limit if and only if some such event is |
| Runs.IdleBound | src/event_loop.c:767-783 | no open connection goes without such an event for the timeout plus five seconds plus the lag |
| Runs.CalmStep | src/event_loop.c:903-964 | with the script used up and room to send, only its own wakeups move a connection, each closer to the end, and one is due until then |
| Runs.TwoWakeupsSettle | src/event_loop.c:631-701 | two wakeups later it is closed, or it has read its peer's whole stream and sent all the responses to it |
| Runs.HandlersFinish | src/event_loop.c:500-505 | a handler closes a connection only after a failed call or with all sent that the peer's whole stream is owed |
| Runs.SlowReaderSurvives | src/event_loop.c:470-471 | in a run where a response meets a full buffer that drains when the timeout has passed, the connection survives the sweep, its last read a whole timeout ago |
| EventLoops.EventLoop.constructor | src/event_loop.c:818-826 | an empty loop meets the invariant |
| EventLoops.EventLoop.Dispatch | src/event_loop.c:956-961 | this connection's history goes on as its handler says; every other one, clock included, stays; a closed connection leaves the list |
| EventLoops.EventLoop.Close | src/event_loop.c:234-243 | one connection leaves the list, gives up its file and ends its history as it is; the others are untouched |
| EventLoops.EventLoop.AcceptNewConnections | src/event_loop.c:713-765 | drains the backlog past aborted and interrupted calls and clients without memory, up to the first other error; exactly the registered ones are in front of the old list, last one first, with empty histories; the old ones are untouched |
| EventLoops.EventLoop.Accept | src/event_loop.c:745-764 | a new connection with an empty history at the front; one that cannot be registered is closed again |
| EventLoops.EventLoop.SweepOne | src/event_loop.c:776-782 | the next link is read before this one may be unhooked; it is closed exactly when idle for the timeout |
| EventLoops.EventLoop.Sweep | src/event_loop.c:773-783 | the list becomes exactly its recent connections, in order; exactly the others end, and nothing else changes |
| EventLoops.EventLoop.TimePasses | src/event_loop.c:861-865 | however much time passes, exactly those idle at the last sweep are gone, no sweep comes before the timer is due, and none is longer ago than five seconds and the lag |
| EventLoops.EventLoop.CloseAll | src/event_loop.c:796-800 | every open connection ends as it is and every file that was opened is closed |
| EventLoops.EventLoop.Step | src/event_loop.c:903-964 | any event keeps the invariant and has exactly its specified effect on the clock, the list and all histories; a due event is always handled |
| EventLoops.EventLoop.ValidIsOrderly | src/event_loop.c:903-966 | the invariant makes every moment orderly: punctual, histories of serving, events due when ready, clocks within bounds |
| EventLoops.EventLoop.Run | src/event_loop.c:903-966 | any sequence of events is a run, moment by moment; after shutdown nothing is open, and opens equal closes |
| EventLoops.SlowReaderExists | src/event_loop.c:767-783 | a loop that, event by event, gets to a sweep which its open connection survives although its last read is a whole timeout ago |
| EventLoops.EventLoop.NoLostWakeup | src/event_loop.c:631-635 | the registered direction matches the state, and a ready direction has an event due |
| EventLoops.EventLoop.FilesAreConserved | src/event_loop.c:221-224 | every open file is held by exactly one live connection, and opens equal closes plus open files |

## Left out

- `src/worker_pool.c`, threads and shutdown signalling: each worker runs its own loop over its own connections.
- `src/main.c` and `src/event_loop.h`: configuration and start-up, including `static_files_init`.
- The batch that `epoll_wait` returns, and errors on the listening socket, the timer or the shutdown descriptor.
- Socket descriptors are not in the table of open files; each socket is closed at most once by its own contract.
- Symbolic links and changes of the file system between calls; the canonical name the kernel reports is an input.
- Logging, `TCP_NODELAY` and request bodies, which the server does not read.
- EventLoops.EventLoop.TimePasses: takes the lag with which the timer event is handled as given.
- Kernel.Socket.Modify: assumes the re-arming behaviour of `EPOLL_CTL_MOD`, which belongs to the kernel.
