/** One connection: its in-place state machine (src/event_loop.c), and the proof that whatever the kernel does, it sends
    what the sequential server of Reference sends. */
module Connections {
  import opened Bytes
  import opened Spec = ParserSpec
  import opened HttpParser
  import opened Files
  import opened Responses
  import opened Reference
  import opened Client
  import opened Kernel

  // sendfile(2) moves no more than this in one call.
  function SendfileMaxChunk(): (m: nat)
    ensures m > 0
  { 0x7FFF_F000 }

  // How much of the remaining file one call may hand over.
  method ChunkOf(remaining: nat) returns (count: nat)
    requires remaining > 0
    ensures 0 < count <= remaining && count <= SendfileMaxChunk()
  {
    count := if remaining > SendfileMaxChunk() then SendfileMaxChunk() else remaining;
  }

  // A routed response as the server holds it: the body in memory, or a descriptor it owns.
  datatype RoutedResponse = RoutedResponse(
    status: nat, reason: Bytes, body: Bytes, contentType: Bytes, extra: seq<Bytes>, file: StaticFile)

  // It stands for `r`; a file body is behind an open descriptor.
  ghost predicate Carries(rr: RoutedResponse, r: Routed, open: map<int, Content>) {
    rr.status == r.status && rr.reason == r.reason && rr.contentType == r.contentType && rr.extra == r.extra &&
    match r.body
    case Memory(text) => rr.file.fd == -1 && rr.body == text
    case File(content) =>
      rr.file.fd >= 0 && rr.file.fd in open && open[rr.file.fd] == content && rr.file.size == |content|
  }

  function Held(r: Routed): RoutedResponse
    requires r.body.Memory?
  { RoutedResponse(r.status, r.reason, r.body.text, r.contentType, r.extra, NO_FILE) }

  lemma NotTheQuery(path: Bytes, n: nat)
    requires n < |path| && path[n] != '?'
    ensures path[..n] + BeforeQuery(path[n..]) == path[..n + 1] + BeforeQuery(path[n + 1..])
  {
    var rest := BeforeQuery(path[n + 1..]);
    assert path[n..][1..] == path[n + 1..] && path[..n + 1] == path[..n] + [path[n]];
    assert path[..n] + ([path[n]] + rest) == path[..n] + [path[n]] + rest;
  }

  lemma TheQuery(path: Bytes, n: nat)
    requires n <= |path| && (n < |path| ==> path[n] == '?')
    ensures path[..n] + BeforeQuery(path[n..]) == path[..n]
  {
    assert BeforeQuery(path[n..]) == [];
  }

  // Why a handler may close: a system call failed, or all that will ever be owed has been sent, because the last
  // response says so or because the peer's stream has ended.
  ghost predicate Justified(
    cfg: Config, stream: Bytes, received: Bytes, sent: Bytes, log: seq<Response>, broken: bool)
  {
    broken || (sent == WireOf(log) && (Final(cfg, received, log) || (received == stream && log == Serve(cfg, stream))))
  }

  // What one event achieves: the socket was read dry, or the stuck response met a full buffer again, unless the
  // connection changed direction or a further response was started.
  predicate Progress(stuck: bool, log: seq<Response>, stuck': bool, log': seq<Response>, port: Port) {
    stuck == stuck' ==> if stuck then !port.room || log < log' else !port.Readable()
  }

  // One read delivers the bytes at hand; they complete a request, and the write of its response is refused.
  ghost predicate ToBeRefused(cfg: Config, port: Port, received: Bytes, log: seq<Response>) {
    Quiet(port) && Balks(port.script[1..]) && |Serve(cfg, received + port.incoming)| > |log|
  }

  // What the kernel's side is then.
  predicate RefusedPort(before: Port, after: Port) {
    |before.script| >= 3 && after.script == before.script[3..] && after.interest.Out? &&
    after.room == before.script[2].drained
  }

  // What has happened on a connection so far.  `stuck`: a response waits for room; then `keepAlive` says whether the
  // connection goes on behind it, and `promised` is all that will have been sent once that response is out.
  datatype History = History(
    stream: Bytes, received: Bytes, sent: Bytes, log: seq<Response>, open: bool, broken: bool,
    stuck: bool, keepAlive: bool, promised: Bytes, last: int, port: Port)
  {
    // A response that ends the connection is stuck.
    predicate Closing() { stuck && !keepAlive }

    // Nothing is ever taken back; a closed connection stays as it is; and behind a response that ends the connection
    // nothing more is read, nothing more is answered, and no more than that response is sent.
    predicate LeadsTo(next: History) {
      next.stream == stream && received <= next.received && sent <= next.sent && log <= next.log && last <= next.last &&
      (broken ==> next.broken) && (!open ==> next == this) &&
      (Closing() ==>
         next.received == received && next.log == log && next.sent <= promised &&
         (next.open ==> next.Closing() && next.promised == promised))
    }

    function Closed(): History { this.(open := false, stuck := false, keepAlive := false, promised := sent) }

    // The world moves on, and the server does nothing.
    function Drifted(): History { this.(port := port.Moved()) }

    // It is a history of serving the peer's stream: read in order, answered by a prefix of the responses the sequential
    // server gives; what is under way completes the responses started, and a closing connection has started all of
    // them, whatever still arrives.
    ghost predicate Faithful(cfg: Config) {
      received + port.ToCome() == stream && sent <= WireOf(log) && log <= Serve(cfg, received) &&
      (open ==> promised == WireOf(log)) && (open && !stuck ==> sent == promised && log == Serve(cfg, received)) &&
      (stuck ==> open && sent < promised && log != [] && keepAlive == log[|log| - 1].keepAlive) &&
      (Closing() ==> Final(cfg, received, log))
    }

    // An event is due whenever the direction waited for is ready.
    predicate Alert() { open ==> if stuck then port.room ==> port.due else port.Readable() ==> port.due }

    ghost predicate Excused(cfg: Config) { Justified(cfg, stream, received, sent, log, broken) }

    // What restarts the idle clock: bytes were read or, with a stuck response, it went out and the connection goes on.
    predicate Touched(next: History) {
      if stuck then keepAlive && promised <= next.sent else next.received != received
    }

    predicate Progresses(next: History) { Progress(stuck, log, next.stuck, next.log, next.port) }

    // A kernel that takes all it is given, a stuck response that keeps the connection, and no complete request read
    // behind it.
    ghost predicate Resumable(cfg: Config) { port.Calm() && stuck && keepAlive && Serve(cfg, received) == log }

    ghost predicate Refusable(cfg: Config) { open && !stuck && ToBeRefused(cfg, port, received, log) }

    // That response is stuck.
    predicate RefusedInto(next: History) {
      next.open && next.stuck && next.sent == sent && |next.log| == |log| + 1 &&
      next.received == received + port.incoming && RefusedPort(port, next.port)
    }
  }

  // What handling an event does to a connection.
  ghost predicate Handled(cfg: Config, before: History, after: History, now: int) {
    before.LeadsTo(after) && after.last == (if before.Touched(after) then now else before.last) &&
    (if after.open then before.Progresses(after) else after.Excused(cfg)) &&
    (before.stuck ==> after.received == before.received) &&
    (before.port.Calm() ==> after.port.Calm() && !after.stuck) &&
    (before.Resumable(cfg) ==> after.open && after.sent == before.promised) &&
    (before.Refusable(cfg) ==> before.RefusedInto(after))
  }

  lemma HandledWhenReported(cfg: Config, before: History, reported: History, after: History, now: int)
    requires before.open && reported == before.(port := before.port.(due := false))
    requires Handled(cfg, reported, after, now)
    ensures Handled(cfg, before, after, now)
  {
    hide Serve;
    hide Final;
    hide WireOf;
  }

  // A connection that has just been accepted.
  function Fresh(script: seq<Tick>, now: int): History {
    var port := Port(script, [], false, true, In, false);
    History(Arriving(script, false), [], [], [], true, false, false, false, [], now, port)
  }

  lemma LeadsToIsTransitive(a: History, b: History, c: History)
    requires a.LeadsTo(b) && b.LeadsTo(c)
    ensures a.LeadsTo(c)
  {}

  lemma FramesAreNotEmpty(r: Response)
    requires Frames(r)
    ensures |r.Wire()| > 0
  {}

  lemma ResponsesAreNotEmpty(cfg: Config, o: Outcome)
    requires cfg.Valid()
    ensures ResponseTo(cfg, o).Wire() != []
  {
    hide Frames;
    hide Answer;
    hide AnswerMalformed;
    hide Response.Wire;
    AnswersFrame(cfg, o.parser);
    FramesAreNotEmpty(ResponseTo(cfg, o));
  }

  lemma NothingOwed(cfg: Config, p: Parser)
    requires !p.Terminal()
    ensures ServeFrom(cfg, p, []) == []
  {}

  // One call that sends.
  predicate Sent(before: Port, after: Port, r: WriteResult) {
    Later(before, after) && (before.Armed() ==> after.Armed()) && (before.Calm() ==> r.Took?) &&
    after.script == (if before.script == [] then [] else before.script[1..]) &&
    (r.WriteInterrupted? ==> before.script != []) && (r.WriteWouldBlock? ==> !after.room) &&
    (Refuses(before.script) ==> r.WriteWouldBlock?) && after.interest == before.interest
  }

  // What the kernel does in such a call.
  lemma KernelSends(before: Port, most: nat, r: WriteResult)
    requires most > 0
    requires var t := Transferred(before.NextVerdict(), before.Moved().room, most);
             r == t || (t.EndOfFile? && r.WriteFailed?)
    ensures var p := before.Moved();
            Sent(before, p.(room := p.room && !before.NextVerdict().Refuse?), r) && (r.Took? ==> 0 < r.n <= most)
  {
    MovingLosesNothing(before);
  }

  // Sending as much as goes; `some`: there was something to send.
  predicate Flushed(before: Port, after: Port, done: bool, closed: bool, some: bool) {
    Later(before, after) && (before.Armed() ==> after.Armed()) && (before.Calm() ==> done) &&
    (!done && !closed ==> !after.room) && (!some ==> done && after == before) && after.interest == before.interest &&
    (some && Refuses(before.script) ==> !done && !closed && after.script == before.script[1..])
  }

  // The write was refused, and the connection waits for room.
  predicate Balked(before: Port, after: Port)
    requires Balks(before.script)
  { after.script == before.script[2..] && after.interest.Out? && after.room == before.script[1].drained }

  lemma DeliveredMeans(before: Port, after: Port, r: ReadResult, len: nat)
    requires Delivers(before, after, r, len) && len > 0
    ensures r.Got? ==> 0 < r.n <= len && r.n <= |before.Moved().incoming|
    ensures after.script == before.Moved().script && after.interest == before.interest
    ensures before.Calm() ==> after.Calm()
    ensures before.script == [] ==> !r.ReadInterrupted? && (r.Got? ==> |after.incoming| < |before.incoming|)
    ensures r.ReadWouldBlock? ==> !after.Readable() && (after.interest.In? ==> after.Armed())
    ensures r.PeerClosed? ==> after.incoming == [] && after.hungUp
    ensures Quiet(before) && len == READ_CHUNK_SIZE ==> r.Got? && before.Moved().incoming[..r.n] == before.incoming
  {
    if Quiet(before) && len == READ_CHUNK_SIZE {
      assert before.Moved().incoming == before.incoming;
    }
  }

  lemma FlushedMeans(before: Port, after: Port, done: bool, closed: bool, some: bool)
    requires Flushed(before, after, done, closed, some)
    ensures Later(before, after) && (before.Armed() ==> after.Armed()) && (before.Calm() ==> done)
    ensures after.interest == before.interest
    ensures some && Balks(before.script) ==>
              !done && !closed && !after.room && after.script == before.script[1..] && Refuses(before.script)
  {}

  lemma LaterIsTransitive(a: Port, b: Port, c: Port)
    requires Later(a, b) && Later(b, c)
    ensures Later(a, c)
  {}

  lemma RegistersAfterRefusal(before: Port, flushed: Port, after: Port)
    requires Balks(before.script) && flushed.script == before.script[1..] && !flushed.room
    requires after.script == flushed.Moved().script && after.room == flushed.Moved().room
    ensures !flushed.NextVerdict().Fail? && (after.interest.Out? ==> Balked(before, after))
  {}

  class Connection {
    const cfg: Config
    const sock: Socket
    const fds: Descriptors
    const parser: RequestParser

    const writeBuf: array<Byte>
    var writeLen: nat
    var writeSent: nat
    var keepAliveAfterWrite: bool
    var awaitingWritable: bool

    var fileFd: int
    var fileOffset: nat
    var fileSize: nat

    const pendingInput: array<Byte>
    var pendingLen: nat

    var lastActivity: int

    ghost const repr: set<object>    // the objects only this connection uses
    ghost var fileContent: Content   // what the open file holds
    ghost var unsent: Bytes          // what is left of the current response, head and file
    ghost var log: seq<Response>     // the responses started so far
    ghost var taken: Bytes           // the bytes the parser has consumed so far

    // ---- What the fields and buffers amount to ---------------------------------------------------------------------

    ghost predicate Shape() {
      cfg.Valid() && parser.Shape() && writeBuf.Length == RESPONSE_BUF_SIZE && pendingInput.Length == READ_CHUNK_SIZE &&
      repr == {this, sock, parser, parser.verb, parser.path, parser.version, parser.line, writeBuf, pendingInput}
    }

    ghost function FileTail(): Bytes
      reads this
    { if fileFd >= 0 && fileOffset <= |fileContent| then fileContent[fileOffset..] else [] }

    ghost predicate Outbox()
      reads this, writeBuf
    {
      writeSent <= writeLen <= writeBuf.Length &&
      (if fileFd < 0 then fileFd == -1 && fileOffset == 0 && fileSize == 0
       else fileSize == |fileContent| && fileOffset <= fileSize) &&
      unsent == writeBuf[writeSent..writeLen] + FileTail()
    }

    // The descriptor in hand is open and reads what it should.
    ghost predicate Owns()
      reads this, fds
    { fds.Valid() && (fileFd >= 0 ==> fileFd in fds.open && fds.open[fileFd] == fileContent) }

    // The open files that are not this connection's.
    ghost function Others(): map<int, Content>
      reads this, fds
    { if fileFd < 0 then fds.open else fds.open - {fileFd} }

    // Everything but the ownership of the file.
    ghost predicate Sound()
      reads this, parser, parser.verb, parser.path, parser.version, parser.line, writeBuf
    { Shape() && parser.Valid() && Outbox() && pendingLen <= READ_CHUNK_SIZE }

    ghost predicate Valid()
      reads this, fds, parser, parser.verb, parser.path, parser.version, parser.line, writeBuf
    { Sound() && Owns() }

    // ---- The protocol states ---------------------------------------------------------------------------------------

    // Nothing to send; the parser stands inside the next request, `rest` behind it.
    ghost predicate Settled(rest: Bytes)
      reads this, sock, parser
    {
      sock.open && sock.Intact() && writeLen == 0 && fileFd == -1 && sock.sent == WireOf(log) &&
      sock.received == taken + rest &&
      Tracks(cfg, sock.received, log, parser.value, rest)
    }

    // Settled, and registered for reading.
    ghost predicate Ready(rest: Bytes)
      reads this, sock, parser
    { Settled(rest) && !awaitingWritable && sock.port.interest.In? && !sock.broken }

    // A response is on its way, `rest` behind it.
    ghost predicate Sending(rest: Bytes)
      reads this, sock
    {
      sock.open && sock.Intact() && sock.sent + unsent == WireOf(log) && sock.received == taken + rest &&
      log != [] && keepAliveAfterWrite == log[|log| - 1].keepAlive &&
      Owed(cfg, sock.received, log, keepAliveAfterWrite, rest)
    }

    // A response is stuck: bytes remain unsent, and the unparsed input is stashed.
    ghost predicate Blocked()
      requires pendingLen <= pendingInput.Length
      reads this, sock, pendingInput
    {
      awaitingWritable && sock.port.interest.Out? && !sock.broken && unsent != [] &&
      Sending(pendingInput[..pendingLen])
    }

    // At every event boundary: stuck exactly while bytes remain unsent, otherwise between requests, nothing stashed.
    ghost predicate Live()
      reads this, sock, fds, parser, parser.verb, parser.path, parser.version, parser.line, writeBuf, pendingInput
    { Valid() && if awaitingWritable then Blocked() else Ready([]) && pendingLen == 0 }

    // The same without the ownership of the file, which lies in the shared table.
    ghost predicate LiveCore()
      reads this, sock, parser, parser.verb, parser.path, parser.version, parser.line, writeBuf, pendingInput
    { Sound() && if awaitingWritable then Blocked() else Ready([]) && pendingLen == 0 }

    // A closed connection has sent a prefix of what the sequential server sends, and holds no file.
    ghost predicate Gone()
      reads this, sock
    {
      !sock.open && sock.Intact() && fileFd == -1 && sock.sent <= WireOf(log) && log <= Serve(cfg, sock.received)
    }

    ghost predicate Excused()
      reads this, sock
    { Justified(cfg, sock.stream, sock.received, sock.sent, log, sock.broken) }

    ghost predicate Progressed(stuck: bool, before: seq<Response>)
      reads this, sock
    { Progress(stuck, before, awaitingWritable, log, sock.port) }

    ghost predicate Refusable()
      reads this, sock
    { ToBeRefused(cfg, sock.port, sock.received, log) }

    ghost predicate Refused(port: Port, received: Bytes, sent: Bytes, before: seq<Response>)
      reads this, sock
    {
      sock.open && awaitingWritable && sock.sent == sent && |log| == |before| + 1 &&
      sock.received == received + port.incoming && RefusedPort(port, sock.port)
    }

    ghost function Past(): History
      reads this, sock
    {
      var stuck := sock.open && awaitingWritable;
      History(sock.stream, sock.received, sock.sent, log, sock.open, sock.broken, stuck, stuck && keepAliveAfterWrite,
              if stuck then sock.sent + unsent else sock.sent, lastActivity, sock.port)
    }

    // Fields of a freshly accepted connection.
    ghost predicate Accepted()
      reads this, sock, parser
    {
      sock.open && sock.Intact() && !sock.broken && sock.port.interest.In? && sock.received == [] && sock.sent == [] &&
      log == [] && taken == [] && parser.value == INIT &&
      writeLen == 0 && writeSent == 0 && unsent == [] && pendingLen == 0 && !awaitingWritable &&
      fileFd == -1 && fileOffset == 0 && fileSize == 0
    }

    constructor (cfg: Config, fds: Descriptors, script: seq<Tick>, now: int)
      requires cfg.Valid() && fds.Valid()
      ensures Shape() && parser.Valid() && Accepted() && sock.port.Armed() && this.cfg == cfg && this.fds == fds &&
              lastActivity == now
      ensures fresh(repr) && sock.stream == Arriving(script, false)
      ensures sock.port == Port(script, [], false, true, In, false)
    {
      hide RequestParser.Valid;
      this.cfg, this.fds := cfg, fds;
      sock := new Socket(script);
      var p := new RequestParser();
      parser := p;
      writeBuf := new Byte[RESPONSE_BUF_SIZE](_ => NUL);
      pendingInput := new Byte[READ_CHUNK_SIZE](_ => NUL);
      writeLen, writeSent, pendingLen, keepAliveAfterWrite, awaitingWritable := 0, 0, 0, false, false;
      fileFd, fileOffset, fileSize := -1, 0, 0;
      lastActivity := now;
      log, unsent, fileContent, taken := [], [], [], [];
      repr := {this, sock, p, p.verb, p.path, p.version, p.line, writeBuf, pendingInput};
    }

    lemma AcceptedIsFresh(script: seq<Tick>)
      requires Accepted()
      requires sock.stream == Arriving(script, false) && sock.port == Port(script, [], false, true, In, false)
      ensures Past() == Fresh(script, lastActivity)
    {}

    lemma AcceptedIsLive()
      requires Shape() && parser.Valid() && Accepted() && fds.Valid()
      ensures Live()
    {
      hide ServeFrom;
      hide Serve;
      hide RequestParser.Valid;
      TracksStart(cfg);
      hide Tracks;
    }

    // ---- Sending ---------------------------------------------------------------------------------------------------

    // One write() of the head.
    method WriteSome() returns (r: WriteResult)
      requires Outbox() && writeSent < writeLen
      modifies this`writeSent, this`unsent, sock`port, sock`sent, sock`broken
      ensures Outbox() && sock.sent + unsent == old(sock.sent + unsent)
      ensures if r.Took? then writeSent > old(writeSent) else writeSent == old(writeSent)
      ensures old(sock.sent) <= sock.sent && (old(sock.Intact()) ==> sock.Intact())
      ensures sock.broken == (old(sock.broken) || r.WriteFailed? || r.EndOfFile?)
      ensures Sent(old(sock.port), sock.port, r)
    {
      hide Port.Moved;
      hide Transferred;
      hide Sent;
      r := sock.Write(writeBuf[writeSent..writeLen]);
      KernelSends(old(sock.port), writeLen - writeSent, r);
      if r.Took? {
        ghost var moved := writeBuf[writeSent..writeLen][..r.n];
        AdvanceHead(r.n);
        Associate(old(sock.sent), moved, unsent);
      }
    }

    method AdvanceHead(n: nat)
      requires Outbox() && writeSent + n <= writeLen
      modifies this`writeSent, this`unsent
      ensures Outbox() && writeSent == old(writeSent) + n
      ensures old(unsent) == writeBuf[old(writeSent)..writeLen][..n] + unsent
    {
      ghost var head := writeBuf[writeSent..writeLen];
      assert writeBuf[writeSent + n..writeLen] == head[n..] && head == head[..n] + head[n..];
      Associate(head[..n], head[n..], FileTail());
      writeSent, unsent := writeSent + n, head[n..] + FileTail();
    }

    method TryFlushWriteBuffer() returns (done: bool, closed: bool)
      requires Outbox()
      modifies this`writeSent, this`unsent, sock`port, sock`sent, sock`broken
      ensures Outbox() && sock.sent + unsent == old(sock.sent + unsent)
      ensures if done then writeSent == writeLen && !closed else writeSent < writeLen
      ensures old(sock.sent) <= sock.sent && (old(sock.Intact()) ==> sock.Intact())
      ensures sock.broken == (old(sock.broken) || closed)
      ensures Flushed(old(sock.port), sock.port, done, closed, old(writeSent < writeLen))
      ensures old(writeSent < writeLen) && Refuses(old(sock.port.script)) ==> sock.sent == old(sock.sent)
    {
      while writeSent < writeLen
        invariant Outbox() && sock.sent + unsent == old(sock.sent + unsent)
        invariant Later(old(sock.port), sock.port) && (old(sock.port.Armed()) ==> sock.port.Armed())
        invariant sock.broken == old(sock.broken) && (old(sock.Intact()) ==> sock.Intact())
        invariant old(sock.sent) <= sock.sent && sock.port.interest == old(sock.port.interest)
        invariant Refuses(old(sock.port.script)) || old(writeSent == writeLen) ==>
                    sock.port == old(sock.port) && writeSent == old(writeSent) && sock.sent == old(sock.sent)
        decreases |sock.port.script|, writeLen - writeSent
      {
        var r := WriteSome();
        match r {
          case Took(_) =>
          case WriteInterrupted =>
          case WriteWouldBlock => return false, false;
          case _ => return false, true;
        }
      }
      return true, false;
    }

    // One sendfile() of the body.
    method SendSome() returns (r: WriteResult)
      requires Outbox() && Owns() && fileFd >= 0 && writeSent == writeLen && fileOffset < fileSize
      modifies this`fileOffset, this`unsent, sock`port, sock`sent, sock`broken
      ensures Outbox() && sock.sent + unsent == old(sock.sent + unsent)
      ensures if r.Took? then fileOffset > old(fileOffset) else fileOffset == old(fileOffset)
      ensures old(sock.sent) <= sock.sent && (old(sock.Intact()) ==> sock.Intact())
      ensures sock.broken == (old(sock.broken) || r.WriteFailed? || r.EndOfFile?)
      ensures Sent(old(sock.port), sock.port, r)
    {
      hide SendfileMaxChunk;
      hide MaxFileSize;
      hide Port.Moved;
      hide Transferred;
      hide Sent;
      hide Outbox;
      hide FileTail;
      hide Socket.Intact;
      FileFits();
      var count := ChunkOf(fileSize - fileOffset);
      r := sock.SendFile(fds.open[fileFd], fileOffset, count);
      KernelSends(old(sock.port), count, r);
      if r.Took? {
        ghost var moved := fileContent[fileOffset..fileOffset + r.n];
        AdvanceFile(r.n);
        Associate(old(sock.sent), moved, unsent);
      }
    }

    lemma FileFits()
      requires Outbox() && fileFd >= 0
      ensures fileSize == |fileContent| && fileOffset <= fileSize
    {}

    // The kernel moves the offset by what it took.
    method AdvanceFile(n: nat)
      requires Outbox() && fileFd >= 0 && writeSent == writeLen && fileOffset + n <= fileSize
      modifies this`fileOffset, this`unsent
      ensures Outbox() && fileOffset == old(fileOffset) + n
      ensures old(unsent) == fileContent[old(fileOffset)..fileOffset] + unsent
    {
      assert writeBuf[writeSent..writeLen] == [] && unsent == fileContent[fileOffset..];
      fileOffset, unsent := fileOffset + n, fileContent[fileOffset + n..];
    }

    method TrySendfileBody() returns (done: bool, closed: bool)
      requires Outbox() && Owns() && fileFd >= 0 && writeSent == writeLen
      modifies this`fileOffset, this`unsent, sock`port, sock`sent, sock`broken
      ensures Outbox() && sock.sent + unsent == old(sock.sent + unsent)
      ensures if done then fileOffset == fileSize && !closed else fileOffset < fileSize
      ensures old(sock.sent) <= sock.sent && (old(sock.Intact()) ==> sock.Intact())
      ensures sock.broken == (old(sock.broken) || closed)
      ensures Flushed(old(sock.port), sock.port, done, closed, old(fileOffset < fileSize))
      ensures old(fileOffset < fileSize) && Refuses(old(sock.port.script)) ==> sock.sent == old(sock.sent)
    {
      while fileOffset < fileSize
        invariant Outbox() && sock.sent + unsent == old(sock.sent + unsent)
        invariant Later(old(sock.port), sock.port) && (old(sock.port.Armed()) ==> sock.port.Armed())
        invariant sock.broken == old(sock.broken) && (old(sock.Intact()) ==> sock.Intact())
        invariant old(sock.sent) <= sock.sent && sock.port.interest == old(sock.port.interest)
        invariant Refuses(old(sock.port.script)) || old(fileOffset == fileSize) ==>
                    sock.port == old(sock.port) && fileOffset == old(fileOffset) && sock.sent == old(sock.sent)
        decreases |sock.port.script|, fileSize - fileOffset
      {
        var r := SendSome();
        match r {
          case Took(_) =>
          case WriteInterrupted =>
          case WriteWouldBlock => return false, false;
          case _ => return false, true;
        }
      }
      return true, false;
    }

    // Head first, then the file; `done` means nothing of the response is left.
    method TryFlushResponse() returns (done: bool, closed: bool)
      requires Valid()
      modifies this`writeSent, this`fileOffset, this`unsent,
               sock`port, sock`sent, sock`broken
      ensures Valid() && fds.Valid() && sock.sent + unsent == old(sock.sent + unsent)
      ensures if done then unsent == [] && !closed else unsent != []
      ensures old(sock.sent) <= sock.sent && (old(sock.Intact()) ==> sock.Intact())
      ensures sock.broken == (old(sock.broken) || closed)
      ensures Flushed(old(sock.port), sock.port, done, closed, old(unsent != []))
      ensures old(unsent != []) && Refuses(old(sock.port.script)) ==> sock.sent == old(sock.sent)
    {
      hide RequestParser.Valid;
      done, closed := TryFlushWriteBuffer();
      if !done {
        return false, closed;
      }
      if fileFd < 0 {
        return true, closed;
      }
      done, closed := TrySendfileBody();
    }

    // ---- Ending a response -----------------------------------------------------------------------------------------

    // Gives the file back, if there is one.
    method ReleaseFileBody()
      requires Outbox() && Owns()
      modifies this`fileFd, this`fileOffset, this`fileSize, this`unsent, fds
      ensures Outbox() && Owns() && fileFd == -1 && fds.open == old(Others())
      ensures old(unsent) == [] ==> unsent == []
    {
      if fileFd >= 0 {
        fds.Close(fileFd);
        fileFd := -1;
      }
      fileOffset, fileSize := 0, 0;
      unsent := writeBuf[writeSent..writeLen];
    }

    // The part of close_connection() that concerns the connection itself.
    method Shut()
      requires Outbox() && Owns() && sock.open && sock.Intact() && sock.sent <= WireOf(log) &&
               log <= Serve(cfg, sock.received)
      modifies this`fileFd, this`fileOffset, this`fileSize, this`unsent, fds, sock`open
      ensures Gone() && fds.Valid() && fds.open == old(Others())
    {
      hide WireOf;
      hide Serve;
      ReleaseFileBody();
      sock.Close();
    }

    // A fresh parser for the next request.
    method StartOver(now: int, ghost rest: Bytes)
      requires Valid() && Sending(rest) && unsent == [] && keepAliveAfterWrite && fileFd == -1
      modifies this`writeLen, this`writeSent, this`unsent, this`lastActivity,
               parser, parser.verb, parser.path, parser.version, parser.line
      ensures Valid() && Settled(rest) && lastActivity == now
    {
      hide WireOf;
      hide Tracks;
      hide Final;
      hide RequestParser.Valid;
      assert sock.sent + unsent == sock.sent;
      parser.Reset();
      writeLen, writeSent, unsent, lastActivity := 0, 0, [], now;
    }

    // Back to waiting for input; re-registering re-arms the event.
    method AwaitInput(ghost rest: Bytes) returns (ok: bool)
      requires Valid() && Settled(rest) && !sock.broken
      modifies this`awaitingWritable, sock`port, sock`broken
      ensures Valid() && Settled(rest) && (if ok then Ready(rest) && sock.port.Armed() else sock.broken)
      ensures old(sock.port.Calm()) ==> ok
      ensures Later(old(sock.port), sock.port)
    {
      hide WireOf;
      hide Tracks;
      hide RequestParser.Valid;
      ok := sock.Modify(In);
      if ok { awaitingWritable := false; }
    }

    lemma SettledPrefix(rest: Bytes)
      requires Settled(rest)
      ensures sock.open && sock.Intact() && sock.sent <= WireOf(log) && log <= Serve(cfg, sock.received)
    {
      hide ServeFrom;
      TracksPrefix(cfg, sock.received, log, parser.value, rest);
    }

    lemma SendingPrefix(rest: Bytes)
      requires Sending(rest)
      ensures sock.open && sock.Intact() && sock.sent <= WireOf(log) && log <= Serve(cfg, sock.received)
    {
      hide Serve;
      hide Owed;
      hide WireOf;
      OwedPrefix(cfg, sock.received, log, keepAliveAfterWrite, rest);
    }

    // A connection is given up in the middle of a response.
    method Abandon(ghost rest: Bytes)
      requires Valid() && Sending(rest)
      modifies this`fileFd, this`fileOffset, this`fileSize, this`unsent, fds, sock`open
      ensures Gone() && fds.Valid() && Others() == old(Others())
    {
      hide WireOf;
      hide Serve;
      hide Owed;
      hide RequestParser.Valid;
      SendingPrefix(rest);
      Shut();
    }

    // The same between two responses.
    method AbandonSettled(ghost rest: Bytes)
      requires Valid() && Settled(rest)
      modifies this`fileFd, this`fileOffset, this`fileSize, this`unsent, fds, sock`open
      ensures Gone() && fds.Valid() && Others() == old(Others())
    {
      hide WireOf;
      hide Serve;
      hide Tracks;
      hide RequestParser.Valid;
      SettledPrefix(rest);
      Shut();
    }

    // Gives the file of a fully sent response back.
    method ReleaseSent(ghost rest: Bytes)
      requires Valid() && Sending(rest) && unsent == []
      modifies this`fileFd, this`fileOffset, this`fileSize, this`unsent, fds
      ensures Valid() && fds.Valid() && Sending(rest) && unsent == [] && fileFd == -1 && Others() == old(Others())
    {
      hide WireOf;
      hide Owed;
      hide RequestParser.Valid;
      hide Socket.Intact;
      hide Shape;
      hide Outbox;
      hide Owns;
      ReleaseFileBody();
    }

    lemma LastResponseExcuses(rest: Bytes)
      requires Sending(rest) && unsent == [] && !keepAliveAfterWrite
      ensures Excused()
    {
      hide WireOf;
      hide Final;
      assert sock.sent + [] == sock.sent;
    }

    // The response is out: close, or start over with a fresh parser and the reading direction armed.
    method FinishAfterResponseSent(now: int, ghost rest: Bytes) returns (alive: bool)
      requires Valid() && Sending(rest) && unsent == [] && !sock.broken && (awaitingWritable || sock.port.interest.In?)
      modifies this, sock, fds, parser, parser.verb, parser.path, parser.version, parser.line
      ensures fds.Valid() && Others() == old(Others()) && sock.received == old(sock.received)
      ensures log == old(log) && pendingLen == old(pendingLen)
      ensures Later(old(sock.port), sock.port)
      ensures sock.sent == old(sock.sent) && (old(sock.port.Calm()) ==> alive == old(keepAliveAfterWrite))
      ensures lastActivity == if old(keepAliveAfterWrite) then now else old(lastActivity)
      ensures alive ==> Valid() && Ready(rest) && !awaitingWritable && old(keepAliveAfterWrite)
      ensures alive && old(awaitingWritable || sock.port.Armed()) ==> sock.port.Armed()
      ensures !alive ==> Gone() && Excused()
    {
      hide Settled;
      hide Sending;
      hide Gone;
      hide Valid;
      hide Excused;
      ReleaseSent(rest);
      if !keepAliveAfterWrite {
        CloseForGood(rest);
        return false;
      }
      StartOver(now, rest);
      if awaitingWritable {
        var ok := AwaitInput(rest);
        if !ok {
          GiveUpSettled(rest);
          return false;
        }
      }
      return true;
    }

    // The last response is out.
    method CloseForGood(ghost rest: Bytes)
      requires Valid() && Sending(rest) && unsent == [] && !keepAliveAfterWrite
      modifies this`fileFd, this`fileOffset, this`fileSize, this`unsent, fds, sock`open
      ensures Gone() && Excused() && fds.Valid() && Others() == old(Others())
    {
      hide Sending;
      hide Gone;
      hide Valid;
      hide Final;
      hide WireOf;
      hide Serve;
      LastResponseExcuses(rest);
      Abandon(rest);
    }

    // A system call failed.
    method GiveUp(ghost rest: Bytes)
      requires Valid() && Sending(rest) && sock.broken
      modifies this`fileFd, this`fileOffset, this`fileSize, this`unsent, fds, sock`open
      ensures Gone() && Excused() && fds.Valid() && Others() == old(Others())
    {
      hide Sending;
      hide Gone;
      hide Valid;
      hide Final;
      hide WireOf;
      hide Serve;
      Abandon(rest);
    }

    method GiveUpSettled(ghost rest: Bytes)
      requires Valid() && Settled(rest) && sock.broken
      modifies this`fileFd, this`fileOffset, this`fileSize, this`unsent, fds, sock`open
      ensures Gone() && Excused() && fds.Valid() && Others() == old(Others())
    {
      hide Settled;
      hide Gone;
      hide Valid;
      hide Final;
      hide WireOf;
      hide Serve;
      AbandonSettled(rest);
    }

    // Ask to be woken when there is room again.
    method AwaitRoom(ghost rest: Bytes) returns (ok: bool)
      requires Valid() && Sending(rest) && !sock.broken
      modifies this`awaitingWritable, sock`port, sock`broken
      ensures Valid() && Sending(rest)
      ensures sock.broken == !ok && (ok ==> awaitingWritable && sock.port.interest.Out? && sock.port.Armed())
      ensures ok == !old(sock.port).NextVerdict().Fail? && Later(old(sock.port), sock.port)
      ensures sock.port.script == old(sock.port).Moved().script && sock.port.room == old(sock.port).Moved().room
    {
      hide WireOf;
      hide Owed;
      hide RequestParser.Valid;
      ok := sock.Modify(Out);
      if ok { awaitingWritable := true; }
    }

    // Flushes a response on its way, `rest` behind it.
    method FlushSending(ghost rest: Bytes) returns (done: bool, closed: bool)
      requires Valid() && Sending(rest)
      modifies this`writeSent, this`fileOffset, this`unsent, sock`port, sock`sent, sock`broken
      ensures Valid() && fds.Valid() && Sending(rest) && sock.sent + unsent == old(sock.sent + unsent)
      ensures if done then unsent == [] && !closed else unsent != []
      ensures old(sock.sent) <= sock.sent && sock.broken == (old(sock.broken) || closed)
      ensures Flushed(old(sock.port), sock.port, done, closed, old(unsent != []))
      ensures old(unsent != []) && Refuses(old(sock.port.script)) ==> sock.sent == old(sock.sent)
    {
      hide WireOf;
      hide Owed;
      hide Valid;
      hide Socket.Intact;
      hide Flushed;
      hide Refuses;
      done, closed := TryFlushResponse();
    }

    // Flush what the socket takes now; if that is not all, switch to waiting for room.
    method SendResponse(now: int, ghost rest: Bytes) returns (alive: bool)
      requires Valid() && Sending(rest) && !awaitingWritable && sock.port.interest.In? && !sock.broken
      modifies this, sock, fds, parser, parser.verb, parser.path, parser.version, parser.line
      ensures fds.Valid() && Others() == old(Others()) && sock.received == old(sock.received)
      ensures log == old(log) && pendingLen == old(pendingLen)
      ensures Later(old(sock.port), sock.port)
      ensures alive && awaitingWritable ==>
                Valid() && sock.port.interest.Out? && !sock.broken && unsent != [] && Sending(rest) &&
                sock.port.Armed() && lastActivity == old(lastActivity)
      ensures alive && !awaitingWritable ==>
                Valid() && Ready(rest) && lastActivity == now && (old(sock.port.Armed()) ==> sock.port.Armed())
      ensures old(sock.sent) <= sock.sent && (old(sock.port.Calm()) ==> alive ==> !awaitingWritable)
      ensures !alive ==> Gone() && Excused() && (lastActivity == now || lastActivity == old(lastActivity))
      ensures old(unsent) != [] && Balks(old(sock.port.script)) ==>
                alive && awaitingWritable && sock.sent == old(sock.sent) && Balked(old(sock.port), sock.port)
    {
      hide Sending;
      hide Ready;
      hide Gone;
      hide Valid;
      hide Excused;
      hide Balked;
      hide Port.Moved;
      hide Later;
      hide Flushed;
      hide Balks;
      hide Port.Armed;
      hide Port.Calm;
      ghost var before, some := sock.port, unsent != [];
      var done, closed := FlushSending(rest);
      ghost var flushed := sock.port;
      FlushedMeans(before, flushed, done, closed, some);
      if closed {
        GiveUp(rest);
        return false;
      }
      if !done {
        alive := GetStuck(rest);
        if some && Balks(before.script) { RegistersAfterRefusal(before, flushed, sock.port); }
      } else {
        alive := FinishAfterResponseSent(now, rest);
      }
      LaterIsTransitive(before, flushed, sock.port);
    }

    // Wait for room, or give up.
    method GetStuck(ghost rest: Bytes) returns (alive: bool)
      requires Valid() && Sending(rest) && !sock.broken
      modifies this`awaitingWritable, this`fileFd, this`fileOffset, this`fileSize, this`unsent, fds,
               sock`port, sock`broken, sock`open
      ensures fds.Valid() && Others() == old(Others()) && Later(old(sock.port), sock.port)
      ensures alive == !old(sock.port).NextVerdict().Fail?
      ensures sock.port.script == old(sock.port).Moved().script && sock.port.room == old(sock.port).Moved().room
      ensures alive ==> Valid() && Sending(rest) && awaitingWritable && sock.port.interest.Out? && sock.port.Armed()
      ensures alive ==> !sock.broken && unsent == old(unsent)
      ensures !alive ==> Gone() && Excused()
    {
      hide Sending;
      hide Gone;
      hide Valid;
      hide Excused;
      hide Port.Moved;
      OwnsAtRest();
      alive := AwaitRoom(rest);
      if !alive {
        GiveUp(rest);
      }
    }

    // memmove: the source may be the stash itself.
    method StashPendingInput(data: array<Byte>, offset: nat, len: nat)
      requires offset + len <= data.Length && len <= pendingInput.Length
      modifies this`pendingLen, pendingInput
      ensures pendingLen == len && pendingInput[..len] == old(data[offset..offset + len])
    {
      forall i | 0 <= i < len { pendingInput[i] := data[offset + i]; }
      pendingLen := len;
    }

    // ---- Answering -------------------------------------------------------------------------------------------------

    // The target up to its first '?' is this one.
    method PathIs(target: Bytes) returns (b: bool)
      requires parser.Valid()
      ensures b <==> BeforeQuery(parser.value.path) == target
    {
      hide BeforeQuery;
      var len := 0;
      ghost var path := parser.value.path;
      assert path[0..] == path && path[..0] + BeforeQuery(path) == BeforeQuery(path);
      while len < parser.pathLen && parser.path[len] != '?'
        invariant len <= parser.pathLen && BeforeQuery(path) == path[..len] + BeforeQuery(path[len..])
      {
        NotTheQuery(path, len);
        len := len + 1;
      }
      TheQuery(path, len);
      b := parser.path[..len] == target;
    }

    method RouteStaticFile() returns (rr: RoutedResponse)
      requires parser.Valid() && fds.Valid()
      modifies fds
      ensures fds.Valid() && Carries(rr, RouteFile(cfg, parser.value.methodId, parser.value.path), fds.open)
      ensures (if rr.file.fd < 0 then fds.open else fds.open - {rr.file.fd}) == old(fds.open)
    {
      hide LookUp;
      var result, file := StaticFileOpen(cfg.root, cfg.fs, fds, parser.path[..parser.pathLen]);
      match result {
        case FileInvalidPath => return Held(BadRequest());
        case FileNotFound => return Held(Simple(404, NOT_FOUND, NOT_FOUND, []));
        case FileOk =>
      }
      if !parser.methodId.GET? {
        var _ := StaticFileClose(fds, file);
        return Held(MethodNotAllowed());
      }
      return RoutedResponse(200, OK_REASON, [], file.contentType, [], file);
    }

    method RouteRequest() returns (rr: RoutedResponse)
      requires parser.Valid() && fds.Valid()
      modifies fds
      ensures fds.Valid() && Carries(rr, Route(cfg, parser.value), fds.open)
      ensures (if rr.file.fd < 0 then fds.open else fds.open - {rr.file.fd}) == old(fds.open)
    {
      hide RouteFile;
      hide RequestParser.Buffered;
      var home := PathIs(HOME);
      var hello := PathIs(HELLO);
      if home || hello {
        if !parser.methodId.GET? {
          return Held(MethodNotAllowed());
        }
        if home {
          return Held(Simple(200, OK_REASON, HOME_TEXT, []));
        }
        return Held(Simple(200, OK_REASON, HELLO_TEXT, []));
      }
      rr := RouteStaticFile();
    }

    // snprintf: as much as fits in front of the NUL, and the length the text would have had.
    method PrintToBuffer(text: Bytes) returns (written: nat)
      requires writeBuf.Length == RESPONSE_BUF_SIZE
      modifies writeBuf
      ensures written == |text|
      ensures written < writeBuf.Length ==> writeBuf[..written] == text
    {
      var n := if |text| < writeBuf.Length then |text| else writeBuf.Length - 1;
      forall i | 0 <= i < n { writeBuf[i] := text[i]; }
      writeBuf[n] := NUL;
      written := |text|;
    }

    // Fills the buffer with the response for `rr`, taking over its file; a response that does not fit is replaced by
    // the fixed 500, and its file is closed.
    method PrepareResponse(rr: RoutedResponse, keepAlive: bool, ghost r: Routed)
      requires Shape() && Outbox() && fds.Valid() && fileFd == -1 && Carries(rr, r, fds.open)
      modifies this`writeLen, this`writeSent, this`keepAliveAfterWrite, this`fileFd, this`fileOffset, this`fileSize,
               this`fileContent, this`unsent, writeBuf, fds
      ensures Outbox() && Owns() && (rr.file.fd < 0 ==> fileFd == -1)
      ensures Others() == old(if rr.file.fd < 0 then fds.open else fds.open - {rr.file.fd})
      ensures unsent == Finish(r, keepAlive, cfg.worker).Wire()
      ensures keepAliveAfterWrite == Finish(r, keepAlive, cfg.worker).keepAlive
    {
      hide HeadText;
      hide HeadLinesOf;
      hide INTERNAL_ERROR_RESPONSE;
      keepAliveAfterWrite := keepAlive;
      var length := if rr.file.fd >= 0 then rr.file.size else |rr.body|;
      var head := HeadText(HeadLinesOf(rr.status, rr.reason, rr.contentType, length, rr.extra, keepAlive, cfg.worker));
      var text := if rr.file.fd >= 0 then head else head + rr.body;
      assert head + [] == head;
      assert text == Rendered(r, keepAlive, cfg.worker);
      var written := PrintToBuffer(text);
      if written >= writeBuf.Length {
        var _ := StaticFileClose(fds, rr.file);
        AnswerInternalError();
        return;
      }
      AdoptResponse(written, rr.file);
    }

    // Takes over what was printed, and the file behind it.
    method AdoptResponse(written: nat, file: StaticFile)
      requires written <= writeBuf.Length && fds.Valid() && fileFd == -1 && fileOffset == 0 && fileSize == 0
      requires file.fd >= 0 ==> file.fd in fds.open && file.size == |fds.open[file.fd]|
      requires file.fd < 0 ==> file.fd == -1
      modifies this`writeLen, this`writeSent, this`fileFd, this`fileOffset, this`fileSize, this`fileContent, this`unsent
      ensures Outbox() && Owns() && fileFd == file.fd
      ensures unsent == writeBuf[..written] + (if file.fd >= 0 then fds.open[file.fd] else [])
    {
      writeLen, writeSent := written, 0;
      if file.fd >= 0 {
        fileFd, fileOffset, fileSize, fileContent := file.fd, 0, file.size, fds.open[file.fd];
      }
      unsent := writeBuf[..written] + FileTail();
      assert writeBuf[0..written] == writeBuf[..written];
    }

    method AnswerInternalError()
      requires Shape() && fileFd == -1 && fileOffset == 0 && fileSize == 0
      modifies this`writeLen, this`writeSent, this`keepAliveAfterWrite, this`unsent, writeBuf
      ensures Outbox() && unsent == INTERNAL_ERROR_RESPONSE.Wire() &&
              keepAliveAfterWrite == INTERNAL_ERROR_RESPONSE.keepAlive
    {
      InternalErrorFits();
      assert !INTERNAL_ERROR_RESPONSE.keepAlive;
      hide INTERNAL_ERROR_RESPONSE;
      var text := INTERNAL_ERROR_RESPONSE.Wire();
      forall i | 0 <= i < |text| { writeBuf[i] := text[i]; }
      writeLen, writeSent, keepAliveAfterWrite := |text|, 0, false;
      unsent := text;
      assert writeBuf[0..writeLen] == text && text + [] == text;
    }

    // Routes a decided request and renders its response.
    method Compose(malformed: bool)
      requires Shape() && parser.Valid() && Outbox() && Owns() && fileFd == -1
      modifies this`writeLen, this`writeSent, this`keepAliveAfterWrite, this`fileFd, this`fileOffset, this`fileSize,
               this`fileContent, this`unsent, writeBuf, fds
      ensures Outbox() && Owns() && Others() == old(Others())
      ensures var r := if malformed then AnswerMalformed(cfg) else Answer(cfg, parser.value);
              unsent == r.Wire() && keepAliveAfterWrite == r.keepAlive
    {
      hide Finish;
      hide Route;
      hide BadRequest;
      hide RequestParser.Valid;
      var rr, keepAlive := RouteOutcome(malformed);
      PrepareResponse(rr, keepAlive, if malformed then BadRequest() else Route(cfg, parser.value));
    }

    // Puts the response to a decided request on the way, `rest` behind it.
    method Respond(malformed: bool, ghost o: Outcome, ghost rest: Bytes)
      requires Valid() && sock.open && sock.Intact() && writeLen == 0 && fileFd == -1 && sock.sent == WireOf(log)
      requires parser.value == o.parser && o.result == (if malformed then Error else Complete)
      requires sock.received == taken + rest
      requires Owed(cfg, sock.received, log + [ResponseTo(cfg, o)], ResponseTo(cfg, o).keepAlive, rest)
      modifies this`writeLen, this`writeSent, this`keepAliveAfterWrite, this`fileFd, this`fileOffset, this`fileSize,
               this`fileContent, this`unsent, this`log, writeBuf, fds
      ensures Valid() && Sending(rest) && Others() == old(Others())
      ensures log == old(log) + [ResponseTo(cfg, o)] && unsent != []
    {
      hide Owed;
      hide Answer;
      hide AnswerMalformed;
      hide RequestParser.Valid;
      hide WireOf;
      Compose(malformed);
      log := log + [ResponseTo(cfg, o)];
      WireOfMore(old(log), ResponseTo(cfg, o));
      ResponsesAreNotEmpty(cfg, o);
    }

    method RouteOutcome(malformed: bool) returns (rr: RoutedResponse, keepAlive: bool)
      requires parser.Valid() && fds.Valid()
      modifies fds
      ensures fds.Valid() && Carries(rr, if malformed then BadRequest() else Route(cfg, parser.value), fds.open)
      ensures (if rr.file.fd < 0 then fds.open else fds.open - {rr.file.fd}) == old(fds.open)
      ensures keepAlive == (!malformed && parser.value.KeepAlive())
    {
      if malformed {
        rr, keepAlive := Held(BadRequest()), false;
      } else {
        hide Route;
        rr := RouteRequest();
        keepAlive := ShouldKeepAlive();
      }
    }

    method ShouldKeepAlive() returns (b: bool)
      requires parser.Valid()
      ensures b == parser.value.KeepAlive()
    {
      match parser.directive
      case Close => b := false;
      case KeepAlive => b := true;
      case Unspecified => b := parser.major == 1 && parser.minor >= 1;
    }

    // ---- Input -----------------------------------------------------------------------------------------------------

    // One call of the parser on the bytes at hand.
    method Parse(data: array<Byte>, offset: nat, len: nat) returns (result: Result, consumed: nat, ghost o: Outcome)
      requires offset < len <= data.Length && data !in parser.Buffers() && Valid() && Ready(data[offset..len])
      modifies this`taken, parser, parser.verb, parser.path, parser.version, parser.line
      ensures Valid() && sock.open && sock.Intact() && writeLen == 0 && fileFd == -1 && sock.sent == WireOf(log)
      ensures 0 < consumed <= len - offset && o == Outcome(result, consumed, parser.value)
      ensures !awaitingWritable && sock.port.interest.In? && !sock.broken
      ensures sock.received == taken + data[offset + consumed..len]
      ensures result.Incomplete? ==> consumed == len - offset && Ready([])
      ensures !result.Incomplete? ==>
                Owed(cfg, sock.received, log + [ResponseTo(cfg, o)], ResponseTo(cfg, o).keepAlive,
                     data[offset + consumed..len])
    {
      hide WireOf;
      hide Tracks;
      hide Owed;
      hide ResponseTo;
      hide RequestParser.Valid;
      hide Spec.Execute;
      ghost var pend, before := data[offset..len], parser.value;
      NotTerminal(pend);
      result, consumed := parser.Execute(data, offset, len - offset);
      o := Outcome(result, consumed, parser.value);
      assert pend == pend[..consumed] + data[offset + consumed..len];
      assert taken + pend == taken + pend[..consumed] + data[offset + consumed..len];
      taken := taken + pend[..consumed];
      if result.Incomplete? {
        TracksIncomplete(cfg, sock.received, log, before, pend);
      } else {
        OwedDecided(cfg, sock.received, log, before, pend);
        assert pend[consumed..] == data[offset + consumed..len];
      }
    }

    lemma NotTerminal(rest: Bytes)
      requires Settled(rest)
      ensures !parser.value.Terminal()
    {
      hide Serve;
      hide ServeFrom;
    }

    // Parse, answer and send one request, as far as it is there.
    method ServeNext(data: array<Byte>, offset: nat, len: nat, now: int)
      returns (alive: bool, consumed: nat, more: bool)
      requires offset < len <= data.Length && Valid() && Ready(data[offset..len])
      requires data !in parser.Buffers() && data != writeBuf
      modifies this, sock, fds, parser, parser.verb, parser.path, parser.version, parser.line, writeBuf
      ensures fds.Valid() && Others() == old(Others()) && sock.received == old(sock.received) &&
              pendingLen == old(pendingLen)
      ensures Later(old(sock.port), sock.port) && old(log) <= log && (!alive ==> old(log) < log)
      ensures old(sock.sent) <= sock.sent && (old(sock.port.Calm()) ==> alive ==> !awaitingWritable)
      ensures 0 < consumed <= len - offset
      ensures if more then |log| == |old(log)| + 1
              else alive && consumed == len - offset && log == old(log) && sock.port == old(sock.port) &&
                   sock.sent == old(sock.sent)
      ensures more && Balks(old(sock.port.script)) ==>
                alive && awaitingWritable && sock.sent == old(sock.sent) && Balked(old(sock.port), sock.port)
      ensures lastActivity == now || lastActivity == old(lastActivity)
      ensures if alive then Valid() else Gone() && Excused()
      ensures alive && awaitingWritable ==>
                more && sock.port.interest.Out? && !sock.broken && unsent != [] && old(log) < log &&
                Sending(data[offset + consumed..len]) && sock.port.Armed()
      ensures alive && !awaitingWritable ==> old(sock.port.Armed()) ==> sock.port.Armed()
      ensures alive && !awaitingWritable ==> Ready(if more then data[offset + consumed..len] else [])
    {
      hide WireOf;
      hide Owed;
      hide ResponseTo;
      hide Gone;
      hide Ready;
      hide Sending;
      hide Valid;
      hide Excused;
      hide Balked;
      var result;
      ghost var o;
      result, consumed, o := Parse(data, offset, len);
      more := !result.Incomplete?;
      if !more {
        OwnsAtRest();
        return true, consumed, false;
      }
      ghost var rest := data[offset + consumed..len];
      Respond(result.Error?, o, rest);
      alive := SendResponse(now, rest);
    }

    lemma OwnsAtRest()
      requires Valid()
      ensures fds.Valid()
    {}

    // Answers every complete request in data[..len]; stops, with the rest stashed, when a response gets stuck.
    method ProcessInput(data: array<Byte>, len: nat, now: int) returns (alive: bool)
      requires len <= data.Length && len <= READ_CHUNK_SIZE && Valid() && Ready(data[..len]) && pendingLen == 0
      requires data !in parser.Buffers() && data != writeBuf
      modifies this, sock, fds, parser, parser.verb, parser.path, parser.version, parser.line, writeBuf, pendingInput
      ensures fds.Valid() && Others() == old(Others()) && sock.received == old(sock.received)
      ensures Later(old(sock.port), sock.port) && old(log) <= log && (!alive ==> old(log) < log)
      ensures old(sock.sent) <= sock.sent && (old(sock.port.Calm()) ==> alive ==> !awaitingWritable)
      ensures !alive ==> Gone() && Excused()
      ensures lastActivity == now || lastActivity == old(lastActivity)
      ensures alive ==> Live() && (awaitingWritable ==> old(log) < log)
      ensures Balks(old(sock.port.script)) && |Serve(cfg, sock.received)| > |old(log)| ==>
                alive && awaitingWritable && sock.sent == old(sock.sent) && |log| == |old(log)| + 1 &&
                Balked(old(sock.port), sock.port)
      ensures alive && (awaitingWritable || old(sock.port.Armed())) ==> sock.port.Armed()
    {
      hide Settled;
      hide Sending;
      hide Gone;
      hide Valid;
      var offset := 0;
      assert data[0..len] == data[..len];
      OwnsAtRest();
      while offset < len
        invariant offset <= len && Valid() && fds.Valid() && Ready(data[offset..len]) && pendingLen == 0
        invariant Others() == old(Others()) && sock.received == old(sock.received) && old(log) <= log
        invariant Later(old(sock.port), sock.port)
        invariant lastActivity == now || lastActivity == old(lastActivity)
        invariant old(sock.port.Armed()) ==> sock.port.Armed()
        invariant old(sock.sent) <= sock.sent
        invariant Balks(old(sock.port.script)) && |Serve(cfg, sock.received)| > |old(log)| ==>
                    sock.port == old(sock.port) && sock.sent == old(sock.sent) && log == old(log)
      {
        var consumed, more;
        alive, consumed, more := ServeNext(data, offset, len, now);
        if !alive {
          return false;
        }
        offset := offset + consumed;
        if awaitingWritable {
          StashRest(data, offset, len - offset);
          return true;
        }
        assert !more ==> data[offset..len] == [];
      }
      assert data[offset..len] == [];
      ReadyIsComplete();
      return true;
    }

    lemma ReadyIsComplete()
      requires Settled([])
      ensures log == Serve(cfg, sock.received) && sock.sent == WireOf(log)
    {
      hide ServeFrom;
      TracksPrefix(cfg, sock.received, log, parser.value, []);
      NothingOwed(cfg, parser.value);
      assert log + [] == log;
    }

    method StashRest(data: array<Byte>, offset: nat, len: nat)
      requires Valid() && offset + len <= data.Length && len <= READ_CHUNK_SIZE
      requires data !in parser.Buffers() && data != writeBuf
      requires awaitingWritable && sock.port.interest.Out? && !sock.broken && unsent != [] &&
               Sending(data[offset..offset + len])
      modifies this`pendingLen, pendingInput
      ensures Live() && pendingLen == len
    {
      hide WireOf;
      hide Owed;
      hide RequestParser.Valid;
      ghost var rest := data[offset..offset + len];
      StashPendingInput(data, offset, len);
    }

    // ---- Events ----------------------------------------------------------------------------------------------------

    // One read(); what it delivers stands behind the parser.
    method ReadChunk(buf: array<Byte>, now: int) returns (r: ReadResult)
      requires Valid() && Ready([]) && buf.Length > 0 && buf !in parser.Buffers() && buf != writeBuf &&
               buf != pendingInput
      modifies this`lastActivity, buf, sock`port, sock`received, sock`broken
      ensures Valid() && if r.Got? then 0 < r.n <= buf.Length && Ready(buf[..r.n]) else Settled([])
      ensures if r.ReadFailed? then sock.broken else r.Got? || Ready([])
      ensures r.PeerClosed? ==> sock.received == sock.stream
      ensures lastActivity == (if r.Got? then now else old(lastActivity)) && old(sock.received) <= sock.received
      ensures (sock.received == old(sock.received) <==> !r.Got?) && (old(sock.port.Calm()) ==> sock.port.Calm())
      ensures sock.port.script == old(sock.port).Moved().script
      ensures old(sock.port.script) == [] ==>
                !r.ReadInterrupted? && (r.Got? ==> |sock.port.incoming| < |old(sock.port.incoming)|)
      ensures r.ReadWouldBlock? ==> sock.port.Armed() && !sock.port.Readable()
      ensures Quiet(old(sock.port)) && buf.Length == READ_CHUNK_SIZE ==>
                r.Got? && sock.received == old(sock.received) + old(sock.port.incoming)
    {
      hide WireOf;
      hide Tracks;
      hide RequestParser.Valid;
      hide Socket.Intact;
      hide Delivers;
      hide Quiet;
      hide Port.Moved;
      r := sock.Read(buf);
      DeliveredMeans(old(sock.port), sock.port, r, buf.Length);
      if r.PeerClosed? { StreamEnded(); }
      assert old(sock.received) + [] == old(sock.received);
      if r.Got? {
        lastActivity := now;
        TracksRead(cfg, old(sock.received), log, parser.value, buf[..r.n]);
        assert taken + [] == taken;
      }
    }

    lemma StreamEnded()
      requires sock.Intact() && sock.port.incoming == [] && sock.port.hungUp
      ensures sock.received == sock.stream
    {}

    // Ends a connection at an event boundary: end of input, error, hang-up, idleness, or shutdown.
    method Close()
      requires Live()
      modifies this`fileFd, this`fileOffset, this`fileSize, this`unsent, fds, sock`open
      ensures Gone() && fds.Valid() && Others() == old(Others())
    {
      hide WireOf;
      hide Serve;
      hide Tracks;
      hide Owed;
      hide RequestParser.Valid;
      if awaitingWritable {
        SendingPrefix(pendingInput[..pendingLen]);
      } else {
        SettledPrefix([]);
      }
      Shut();
    }

    // The peer's stream has ended, and all of it is answered.
    method CloseAtEnd()
      requires Valid() && Settled([]) && sock.received == sock.stream
      modifies this`fileFd, this`fileOffset, this`fileSize, this`unsent, fds, sock`open
      ensures Gone() && Excused() && fds.Valid() && Others() == old(Others())
    {
      hide Settled;
      hide Gone;
      hide Valid;
      hide Final;
      hide WireOf;
      hide Serve;
      ReadyIsComplete();
      AbandonSettled([]);
    }

    // One turn of the read loop.
    method ReadAndServe(buf: array<Byte>, now: int) returns (again: bool)
      requires Valid() && Ready([]) && pendingLen == 0
      requires buf.Length == READ_CHUNK_SIZE && buf !in parser.Buffers() && buf != writeBuf && buf != pendingInput
      modifies this, sock, fds, parser, parser.verb, parser.path, parser.version, parser.line, writeBuf, pendingInput,
               buf
      ensures fds.Valid() && Others() == old(Others()) && old(sock.received) <= sock.received && old(log) <= log
      ensures old(sock.sent) <= sock.sent
      ensures old(sock.port.Calm()) ==> sock.port.Calm() && (sock.open ==> !awaitingWritable)
      ensures lastActivity == if sock.received == old(sock.received) then old(lastActivity) else now
      ensures again ==> Valid() && Ready([]) && pendingLen == 0
      ensures again ==>
                |sock.port.script| < old(|sock.port.script|) ||
                (|sock.port.script| == old(|sock.port.script|) && |sock.port.incoming| < old(|sock.port.incoming|))
      ensures !again ==> (Live() && sock.port.Armed() && Progressed(false, log)) || (Gone() && Excused())
      ensures old(Refusable()) ==> !again && Refused(old(sock.port), old(sock.received), old(sock.sent), old(log))
    {
      hide Settled;
      hide Blocked;
      hide Valid;
      hide Gone;
      hide Excused;
      hide Serve;
      OwnsAtRest();
      var r := ReadChunk(buf, now);
      match r {
        case Got(n) =>
          var alive := ProcessInput(buf, n, now);
          OpenOrGone();
          return alive && !awaitingWritable;
        case ReadInterrupted => return true;
        case ReadWouldBlock => return false;
        case PeerClosed =>
          CloseAtEnd();
          return false;
        case ReadFailed =>
          GiveUpSettled([]);
          return false;
      }
    }

    // EPOLLIN: read until the socket is dry, serving every chunk as it comes.
    method HandleReadable(now: int)
      requires Live() && !awaitingWritable
      modifies this, sock, fds, parser, parser.verb, parser.path, parser.version, parser.line, writeBuf, pendingInput
      ensures fds.Valid() && Others() == old(Others()) && old(sock.received) <= sock.received && old(log) <= log
      ensures old(sock.sent) <= sock.sent
      ensures old(sock.port.Calm()) ==> sock.port.Calm() && (sock.open ==> !awaitingWritable)
      ensures lastActivity == if sock.received == old(sock.received) then old(lastActivity) else now
      ensures if sock.open then Live() && sock.port.Armed() else Gone()
      ensures if sock.open then Progressed(false, old(log)) else Excused()
      ensures old(Refusable()) ==> Refused(old(sock.port), old(sock.received), old(sock.sent), old(log))
    {
      hide Ready;
      hide Valid;
      hide Blocked;
      hide Gone;
      var buf := new Byte[READ_CHUNK_SIZE](_ => NUL);
      var again := true;
      OwnsAtRest();
      while again
        invariant again ==> Valid() && Ready([]) && pendingLen == 0
        invariant !again ==> (Live() && sock.port.Armed() && Progressed(false, log)) || (Gone() && Excused())
        invariant old(sock.sent) <= sock.sent
        invariant old(sock.port.Calm()) ==> sock.port.Calm() && (sock.open ==> !awaitingWritable)
        invariant lastActivity == if sock.received == old(sock.received) then old(lastActivity) else now
        invariant fds.Valid() && Others() == old(Others()) && old(sock.received) <= sock.received && old(log) <= log
        invariant old(Refusable()) ==>
                    if again
                    then sock.port == old(sock.port) && sock.received == old(sock.received) &&
                         sock.sent == old(sock.sent) && log == old(log)
                    else Refused(old(sock.port), old(sock.received), old(sock.sent), old(log))
        decreases again, |sock.port.script|, |sock.port.incoming|
      {
        again := ReadAndServe(buf, now);
      }
      OpenOrGone();
    }

    lemma OpenOrGone()
      requires Live() || Gone()
      ensures Live() ==> sock.open && !sock.broken
      ensures Gone() ==> !sock.open && fileFd == -1
    {
      hide Tracks;
      hide Owed;
      hide WireOf;
      hide Serve;
    }

    // EPOLLOUT: resume the response that got stuck, then the stashed input.
    method FlushPendingWrite(now: int)
      requires Live() && awaitingWritable
      modifies this, sock, fds, parser, parser.verb, parser.path, parser.version, parser.line, writeBuf, pendingInput
      ensures fds.Valid() && Others() == old(Others()) && sock.received == old(sock.received) && old(log) <= log
      ensures old(sock.sent) <= sock.sent
      ensures old(sock.port.Calm()) ==> sock.port.Calm() && (sock.open ==> !awaitingWritable)
      ensures lastActivity ==
              if old(keepAliveAfterWrite) && old(sock.sent + unsent) <= sock.sent then now else old(lastActivity)
      ensures if sock.open then Live() && sock.port.Armed() else Gone()
      ensures if sock.open then Progressed(true, old(log)) else Excused()
      ensures !old(keepAliveAfterWrite) ==>
                log == old(log) && sock.sent <= old(sock.sent + unsent) &&
                (sock.open ==>
                   awaitingWritable && !keepAliveAfterWrite && sock.sent + unsent == old(sock.sent + unsent))
      ensures old(sock.port.Calm() && keepAliveAfterWrite && Serve(cfg, sock.received) == log) ==>
                sock.open && sock.sent == old(sock.sent + unsent)
    {
      hide Sending;
      hide Settled;
      hide Gone;
      hide Sound;
      hide Owns;
      hide Final;
      hide WireOf;
      hide Serve;
      StashFits();
      ghost var rest := pendingInput[..pendingLen];
      var done, closed := FlushSending(rest);
      if closed {
        GiveUp(rest);
        OpenOrGone();
        return;
      }
      if !done {
        OpenOrGone();
        return;
      }
      var alive := FinishAfterResponseSent(now, rest);
      if alive {
        ResumeInput(now);
      }
      OpenOrGone();
    }

    lemma StashFits()
      requires Valid()
      ensures pendingLen <= pendingInput.Length && fds.Valid() && pendingInput !in parser.Buffers()
    {
      hide RequestParser.Valid;
    }

    // Goes on with the stashed input, if there is any.
    method ResumeInput(now: int)
      requires pendingLen <= pendingInput.Length && Valid() && Ready(pendingInput[..pendingLen]) && sock.port.Armed()
      modifies this, sock, fds, parser, parser.verb, parser.path, parser.version, parser.line, writeBuf, pendingInput
      ensures fds.Valid() && Others() == old(Others()) && sock.received == old(sock.received) && old(log) <= log
      ensures old(sock.sent) <= sock.sent && Later(old(sock.port), sock.port)
      ensures old(sock.port.Calm()) ==> sock.open ==> !awaitingWritable
      ensures lastActivity == now || lastActivity == old(lastActivity)
      ensures (Live() && sock.port.Armed() && (awaitingWritable ==> old(log) < log)) || (Gone() && Excused())
      ensures old(log) == Serve(cfg, sock.received) ==> sock.open && sock.sent == old(sock.sent)
    {
      hide Settled;
      hide Blocked;
      hide Valid;
      hide Gone;
      hide Final;
      hide WireOf;
      hide Serve;
      hide Balks;
      hide Balked;
      OwnsAtRest();
      SettledSent(pendingInput[..pendingLen]);
      if pendingLen > 0 {
        var len := ClearStash();
        var alive := ProcessInput(pendingInput, len, now);
        NoMoreThanOwed();
        OpenOrGone();
        assert old(log) == Serve(cfg, sock.received) ==> log == old(log);
      } else {
        assert pendingInput[..pendingLen] == [];
      }
    }

    // The stash is cleared first, because it may be needed again.
    method ClearStash() returns (len: nat)
      requires pendingLen <= pendingInput.Length && Valid() && Ready(pendingInput[..pendingLen])
      modifies this`pendingLen
      ensures len == old(pendingLen) <= READ_CHUNK_SIZE == pendingInput.Length && pendingLen == 0
      ensures Valid() && Ready(pendingInput[..len]) && pendingInput !in parser.Buffers() && pendingInput != writeBuf
    {
      hide Tracks;
      hide WireOf;
      hide RequestParser.Valid;
      len := pendingLen;
      pendingLen := 0;
    }

    lemma SettledSent(rest: Bytes)
      requires Settled(rest)
      ensures sock.open && sock.sent == WireOf(log)
    {
      hide Tracks;
      hide WireOf;
    }

    lemma NoMoreThanOwed()
      requires Live() || Gone()
      ensures log <= Serve(cfg, sock.received) && (Live() && !awaitingWritable ==> sock.sent == WireOf(log))
    {
      hide ServeFrom;
      hide Tracks;
      hide Owed;
      hide WireOf;
      hide Serve;
      hide RequestParser.Valid;
      if Live() {
        if awaitingWritable { SendingPrefix(pendingInput[..pendingLen]); } else { SettledPrefix([]); }
      }
    }

    // ---- What the loop does with a connection ----------------------------------------------------------------------

    // epoll_wait() reported this connection: the registered direction decides which handler runs.
    method HandleEvent(now: int)
      requires LiveCore() && Owns() && sock.port.due && lastActivity <= now
      modifies this, sock, fds, parser, parser.verb, parser.path, parser.version, parser.line, writeBuf, pendingInput
      ensures fds.Valid() && Others() == old(Others()) && Handled(cfg, old(Past()), Past(), now)
      ensures fileFd >= -1 && (!sock.open ==> Gone() && fileFd == -1)
      ensures sock.open ==> LiveCore() && Owns() && sock.port.Armed()
    {
      hide Handled;
      hide Live;
      hide LiveCore;
      hide Gone;
      hide Past;
      ghost var before := Past();
      TakeEvent();
      ghost var reported := Past();
      if awaitingWritable {
        HandleOut(now);
      } else {
        HandleIn(now);
      }
      HandledWhenReported(cfg, before, reported, Past(), now);
      CoreOfLive();
    }

    // The event is taken off the kernel's hands.
    method TakeEvent()
      requires LiveCore() && Owns() && sock.port.due
      modifies sock`port
      ensures Live() && Past().open && Past() == old(Past()).(port := old(Past()).port.(due := false))
    {
      hide Tracks;
      hide WireOf;
      hide Owed;
      hide Serve;
      hide RequestParser.Valid;
      sock.Report();
    }

    lemma CoreOfLive()
      requires Live() || Gone()
      ensures Live() ==> LiveCore() && Owns() && fileFd >= -1
      ensures (Live() <==> sock.open) && (Gone() ==> fileFd == -1)
    {
      hide Tracks;
      hide WireOf;
      hide Owed;
      hide Serve;
      hide RequestParser.Valid;
    }

    // What each of the two handlers does, in terms of histories.
    method HandleIn(now: int)
      requires Live() && !awaitingWritable && lastActivity <= now
      modifies this, sock, fds, parser, parser.verb, parser.path, parser.version, parser.line, writeBuf, pendingInput
      ensures fds.Valid() && Others() == old(Others()) && Handled(cfg, old(Past()), Past(), now)
      ensures if sock.open then Live() && sock.port.Armed() else Gone()
    {
      hide Live;
      hide Gone;
      hide Final;
      hide WireOf;
      hide Serve;
      OpenOrGone();
      HandleReadable(now);
    }

    method HandleOut(now: int)
      requires Live() && awaitingWritable && lastActivity <= now
      modifies this, sock, fds, parser, parser.verb, parser.path, parser.version, parser.line, writeBuf, pendingInput
      ensures fds.Valid() && Others() == old(Others()) && Handled(cfg, old(Past()), Past(), now)
      ensures if sock.open then Live() && sock.port.Armed() else Gone()
    {
      hide Live;
      hide Gone;
      hide Final;
      hide WireOf;
      hide Serve;
      OpenOrGone();
      FlushPendingWrite(now);
    }

    // The connection is closed by the loop: hang-up, idleness, or shutdown.
    method CloseByLoop()
      requires LiveCore() && Owns()
      modifies this`fileFd, this`fileOffset, this`fileSize, this`unsent, fds, sock`open
      ensures Gone() && !sock.open && fileFd == -1 && fds.Valid() && Others() == old(Others())
      ensures old(Past()).open && Past() == old(Past()).Closed()
    {
      hide Gone;
      hide Sound;
      hide Blocked;
      hide Ready;
      OpenOrGone();
      Close();
      OpenOrGone();
    }

    // The world moves between two events.
    method WorldMoves()
      requires LiveCore() && sock.port.Armed()
      modifies sock`port
      ensures LiveCore() && sock.port.Armed() && Past() == old(Past()).Drifted()
    {
      hide Tracks;
      hide WireOf;
      hide Owed;
      hide RequestParser.Valid;
      var _ := sock.World();
    }
  }
}
