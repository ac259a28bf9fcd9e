/** One connected socket as the kernel keeps it: what has arrived, whether there is room to send, and the
    edge-triggered epoll registration.  A script of ticks, one per system call, says what the world does meanwhile. */
module Kernel {
  import opened Bytes

  const READ_CHUNK_SIZE := 4096

  // How a system call turns out; Proceed carries how many bytes the kernel is willing to move.
  datatype Verdict = Proceed(n: nat) | Interrupt | Refuse | Fail | Shrink

  // Before the call, bytes may arrive, the peer may hang up, and the send buffer may drain.
  datatype Tick = Tick(arriving: Bytes, hangup: bool, drained: bool, verdict: Verdict)

  datatype Interest = In | Out

  datatype ReadResult = Got(n: nat) | PeerClosed | ReadInterrupted | ReadWouldBlock | ReadFailed

  datatype WriteResult = Took(n: nat) | WriteInterrupted | WriteWouldBlock | WriteFailed | EndOfFile

  // All that still arrives; nothing follows a hang-up.
  function Arriving(script: seq<Tick>, hungUp: bool): Bytes {
    if script == [] || hungUp then [] else script[0].arriving + Arriving(script[1..], script[0].hangup)
  }

  // The kernel's side of a connection.
  datatype Port = Port(script: seq<Tick>, incoming: Bytes, hungUp: bool, room: bool, interest: Interest, due: bool)
  {
    predicate Readable() { incoming != [] || hungUp }

    // The world holds no more surprises, and there is room to send.
    predicate Calm() { script == [] && room }

    // No wakeup is lost: whenever the registered direction is ready, an event is still to be reported.
    predicate Armed() { (interest.In? && Readable() ==> due) && (interest.Out? && room ==> due) }

    // What the peer has sent and the server has not read, arrived or not.
    function ToCome(): Bytes { incoming + Arriving(script, hungUp) }

    // The world moves: arrivals and drained buffers raise an event in the registered direction.
    function Moved(): Port {
      if script == [] then this
      else
        var t := script[0];
        var arrived := if hungUp then incoming else incoming + t.arriving;
        var ended := hungUp || t.hangup;
        var news := if interest.In? then (arrived != [] || ended) && (t.arriving != [] || t.hangup) else t.drained;
        Port(script[1..], arrived, ended, room || t.drained, interest, due || news)
    }

    // How the next system call turns out.
    function NextVerdict(): Verdict { if script == [] then Proceed(READ_CHUNK_SIZE) else script[0].verdict }
  }

  // Moving loses no byte and no wakeup.
  lemma MovingLosesNothing(p: Port)
    ensures p.Moved().ToCome() == p.ToCome() && (p.Armed() ==> p.Moved().Armed())
  {
    if p.script != [] && !p.hungUp {
      Associate(p.incoming, p.script[0].arriving, Arriving(p.script[1..], p.script[0].hangup));
    }
  }

  // How many of `most` bytes a call moves.
  function Clamp(v: Verdict, most: nat): nat { if v.Proceed? && 0 < v.n <= most then v.n else most }

  // What a call that sends `most` bytes reports.
  function Transferred(v: Verdict, room: bool, most: nat): WriteResult {
    match v
    case Interrupt => WriteInterrupted
    case Fail => WriteFailed
    case Shrink => EndOfFile
    case Refuse => WriteWouldBlock
    case Proceed(_) => if room then Took(Clamp(v, most)) else WriteWouldBlock
  }

  // Some system calls later, none of them a read: without a tick nothing has arrived, and calm stays calm.
  predicate Later(before: Port, after: Port) {
    |after.script| <= |before.script| && (|after.script| == |before.script| ==> after.incoming == before.incoming) &&
    (before.Calm() ==> after.Calm())
  }

  // The next write is refused.
  predicate Refuses(script: seq<Tick>) { script != [] && script[0].verdict.Refuse? }

  // The next write is refused, and the registration behind it succeeds.
  predicate Balks(script: seq<Tick>) { |script| >= 2 && Refuses(script) && !script[1].verdict.Fail? }

  // The next read delivers the bytes at hand, all of them and nothing else.
  predicate Quiet(p: Port) {
    !p.hungUp && 0 < |p.incoming| <= READ_CHUNK_SIZE && p.script != [] && p.script[0].arriving == [] &&
    !p.script[0].hangup && p.script[0].verdict == Proceed(0)
  }

  // What a read of at most `len` bytes reports, and what it leaves.
  predicate Delivers(before: Port, after: Port, r: ReadResult, len: nat) {
    var p, v := before.Moved(), before.NextVerdict();
    match r
    case Got(n) =>
      !v.Interrupt? && !v.Fail? && p.incoming != [] &&
      n == Clamp(v, if |p.incoming| < len then |p.incoming| else len) &&
      n <= |p.incoming| && after == p.(incoming := p.incoming[n..])
    case ReadInterrupted => v.Interrupt? && after == p
    case ReadFailed => v.Fail? && after == p
    case PeerClosed => !v.Interrupt? && !v.Fail? && p.incoming == [] && p.hungUp && after == p
    case ReadWouldBlock => !v.Interrupt? && !v.Fail? && !p.Readable() && after == p
  }

  class Socket {
    var port: Port
    var open: bool
    ghost const stream: Bytes  // all that the peer sends
    ghost var received: Bytes
    ghost var sent: Bytes
    ghost var broken: bool     // a call failed

    constructor (script: seq<Tick>)
      ensures port == Port(script, [], false, true, In, false) && stream == Arriving(script, false)
      ensures open && received == [] && sent == [] && !broken && Intact()
    {
      port, open := Port(script, [], false, true, In, false), true;
      stream, received, sent, broken := Arriving(script, false), [], [], false;
    }

    // What was read and what is still to be read make up what the peer sends.
    ghost predicate Intact()
      reads this
    { received + port.ToCome() == stream }

    method World() returns (v: Verdict)
      modifies this`port
      ensures port == old(port).Moved() && v == old(port).NextVerdict()
      ensures old(Intact()) ==> Intact()
    {
      MovingLosesNothing(port);
      v := port.NextVerdict();
      port := port.Moved();
    }

    // read(fd, buf, sizeof(buf)): the next bytes that arrived, as many as the kernel is willing to hand over.
    method Read(buf: array<Byte>) returns (r: ReadResult)
      requires buf.Length > 0
      modifies this`port, this`received, this`broken, buf
      ensures Delivers(old(port), port, r, buf.Length)
      ensures r.Got? ==> r.n <= buf.Length && buf[..r.n] == old(port).Moved().incoming[..r.n]
      ensures received == old(received) + (if r.Got? then buf[..r.n] else [])
      ensures broken == (old(broken) || r.ReadFailed?)
      ensures old(Intact()) ==> Intact()
    {
      var v := World();
      if v.Interrupt? {
        return ReadInterrupted;
      }
      if v.Fail? {
        broken := true;
        return ReadFailed;
      }
      ghost var here, ahead := port.incoming, Arriving(port.script, port.hungUp);
      if port.incoming != [] {
        var n := Clamp(v, if |port.incoming| < buf.Length then |port.incoming| else buf.Length);
        forall i | 0 <= i < n { buf[i] := port.incoming[i]; }
        assert buf[..n] == here[..n] && here == here[..n] + here[n..];
        received := received + here[..n];
        port := port.(incoming := port.incoming[n..]);
        Associate(here[..n], here[n..], ahead);
        Associate(old(received), here[..n], here[n..] + ahead);
        return Got(n);
      }
      return if port.hungUp then PeerClosed else ReadWouldBlock;
    }

    // write(fd, data, |data|); EAGAIN means the send buffer is full at that moment.
    method Write(data: Bytes) returns (r: WriteResult)
      requires data != []
      modifies this`port, this`sent, this`broken
      ensures var p, v := old(port).Moved(), old(port).NextVerdict();
              var t := Transferred(v, p.room, |data|);
              r == (if t.EndOfFile? then WriteFailed else t) && port == p.(room := p.room && !v.Refuse?)
      ensures sent == old(sent) + (if r.Took? then data[..r.n] else [])
      ensures broken == (old(broken) || r.WriteFailed?)
      ensures old(Intact()) ==> Intact()
    {
      var v := World();
      r := Transferred(v, port.room, |data|);
      port := port.(room := port.room && !v.Refuse?);
      if r.Took? {
        sent := sent + data[..r.n];
      } else if r.EndOfFile? {
        r := WriteFailed;
      }
      broken := broken || r.WriteFailed?;
    }

    // sendfile(fd, file, &offset, count) on a file with this content; a shrunken file yields end of file.
    method SendFile(content: Bytes, offset: nat, count: nat) returns (r: WriteResult)
      requires 0 < count && offset + count <= |content|
      modifies this`port, this`sent, this`broken
      ensures var p, v := old(port).Moved(), old(port).NextVerdict();
              r == Transferred(v, p.room, count) && port == p.(room := p.room && !v.Refuse?)
      ensures sent == old(sent) + (if r.Took? then content[offset..offset + r.n] else [])
      ensures broken == (old(broken) || r.WriteFailed? || r.EndOfFile?)
      ensures old(Intact()) ==> Intact()
    {
      var v := World();
      r := Transferred(v, port.room, count);
      port := port.(room := port.room && !v.Refuse?);
      if r.Took? {
        sent := sent + content[offset..offset + r.n];
      }
      broken := broken || r.WriteFailed? || r.EndOfFile?;
    }

    // epoll_ctl(EPOLL_CTL_MOD): on success the registration is polled afresh, so a direction that is already ready
    // is reported again.
    method Modify(to: Interest) returns (ok: bool)
      modifies this`port, this`broken
      ensures ok == !old(port).NextVerdict().Fail? && broken == (old(broken) || !ok)
      ensures var p := old(port).Moved();
              port == if ok then p.(interest := to, due := if to.In? then p.Readable() else p.room) else p
      ensures old(Intact()) ==> Intact()
    {
      var v := World();
      ok := !v.Fail?;
      if ok {
        port := port.(interest := to, due := if to.In? then port.Readable() else port.room);
      }
      broken := broken || !ok;
    }

    // epoll_wait() hands the event out; it will not be reported again unless something new happens.
    method Report()
      requires port.due
      modifies this`port
      ensures port == old(port).(due := false) && (old(Intact()) ==> Intact())
    {
      port := port.(due := false);
    }

    method Close()
      requires open
      modifies this`open
      ensures !open
    {
      open := false;
    }
  }
}
