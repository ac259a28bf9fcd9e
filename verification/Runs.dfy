/** Whole runs of the loop as sequences of moments: what each event does, and what holds over any run. */
module Runs {
  import opened Bytes
  import opened Grammar
  import opened Responses
  import opened Kernel
  import opened Connections
  import opened Reference
  import opened Client
  import opened Refinement
  import opened Lists

  const IDLE_SWEEP_INTERVAL_SECONDS := 5

  // What can happen next; `which` counts from the front of the list, and names nothing when it is too large.
  datatype Event =
    | Arrivals(backlog: seq<Pending>)
    | Wakeup(which: nat)
    | Elsewhere(which: nat)
    | HangUp(which: nat)
    | Expiry
    | Elapse(dt: nat)

  // What accept4() delivers next: a client, which may fail to be allocated or registered; an aborted or interrupted
  // call; or an error that ends the drain.  Behind the last one the backlog is empty.
  datatype Pending = Peer(script: seq<Tick>, memory: bool, registered: bool) | Aborted | Trouble

  // The clients that draining a backlog leaves on the list, the last one in front.
  function Admitted(backlog: seq<Pending>): seq<seq<Tick>> {
    if backlog == [] || backlog[0].Trouble? then []
    else
      var p := backlog[0];
      Admitted(backlog[1..]) + (if p.Peer? && p.memory && p.registered then [p.script] else [])
  }

  // The loop at one moment: the clock, the list, and the history of every connection it ever accepted.
  datatype Moment = Moment(now: int, lastSweep: int, links: seq<Link>, histories: Histories)

  ghost predicate SameTimes(a: Moment, b: Moment) { b.now == a.now && b.lastSweep == a.lastSweep }

  // ---- Changes of histories ----------------------------------------------------------------------------------------

  // Time passes between the two: every connection is still there, with a history that continues its earlier one.
  ghost predicate Follows(a: Histories, b: Histories) {
    a.Keys <= b.Keys && forall c :: c in a ==> a[c].LeadsTo(b[c])
  }

  // The same histories, and perhaps further ones.
  ghost predicate Keeps(a: Histories, b: Histories) { a.Keys <= b.Keys && forall c :: c in a ==> b[c] == a[c] }

  // Only this connection's history changes.
  ghost predicate OnlyMoves(a: Histories, b: Histories, c: Connection) {
    c in a && a.Keys == b.Keys && forall x :: x in a && x != c ==> b[x] == a[x]
  }

  // Exactly these histories end.
  ghost predicate Ends(a: Histories, b: Histories, dead: set<Connection>) {
    a.Keys == b.Keys && forall c :: c in a ==> b[c] == if c in dead then a[c].Closed() else a[c]
  }

  ghost predicate Newborn(h: History, now: int) {
    h.received == [] && h.sent == [] && h.log == [] && !h.broken && h.last == now
  }

  // New connections in front of the list, with empty histories; whatever else is new was closed at once.
  ghost predicate Admits(scripts: seq<seq<Tick>>, a: Moment, b: Moment) {
    SameTimes(a, b) && |b.links| == |scripts| + |a.links| && b.links[|scripts|..] == a.links &&
    Keeps(a.histories, b.histories) &&
    (forall i :: 0 <= i < |scripts| ==>
       b.links[i].conn in b.histories && b.links[i].conn !in a.histories &&
       b.histories[b.links[i].conn] == Fresh(scripts[i], a.now)) &&
    (forall c :: c in b.histories && c !in a.histories ==> Newborn(b.histories[c], a.now))
  }

  // Every connection last active at the limit or before is closed and off the list; the others are as they were.
  ghost predicate Sweeps(a: Moment, b: Moment, limit: int) {
    b.links == Survivors(a.links, a.histories, limit) &&
    Ends(a.histories, b.histories, Idle(a.links, a.histories, limit))
  }

  lemma AdmitsNothing(a: Moment)
    ensures Admits([], a, a)
  {}

  lemma AdmitsMore(first: seq<seq<Tick>>, more: seq<seq<Tick>>, a: Moment, b: Moment, c: Moment)
    requires Admits(first, a, b) && Admits(more, b, c)
    ensures Admits(more + first, a, c)
  {
    var all, m := more + first, |more|;
    forall i | 0 <= i < |all|
      ensures c.links[i].conn in c.histories && c.links[i].conn !in a.histories
      ensures c.histories[c.links[i].conn] == Fresh(all[i], a.now)
    {
      if i >= m { assert c.links[i] == c.links[m..][i - m] == b.links[i - m]; }
    }
    assert c.links[|all|..] == c.links[m..][|first|..];
  }

  lemma AdmitsOne(a: Moment, b: Moment, l: Link, script: seq<Tick>)
    requires SameTimes(a, b) && b.links == [l] + a.links && Keeps(a.histories, b.histories)
    requires b.histories.Keys == a.histories.Keys + {l.conn} && l.conn !in a.histories
    requires b.histories[l.conn] == Fresh(script, a.now)
    ensures Admits([script], a, b)
  {}

  // A connection that cannot be registered leaves again.
  lemma AdmitsNone(a: Moment, b: Moment, c: Moment, l: Link, script: seq<Tick>)
    requires Admits([script], a, b) && b.links == [l] + a.links && Names(b, 0) && Loses(b, c, 0)
    ensures Admits([], a, c)
  {
    assert Without(b.links, 0) == a.links;
  }

  lemma EndsMore(a: Histories, b: Histories, dead: set<Connection>, c: Histories, x: Connection)
    requires Ends(a, b, dead) && OnlyMoves(b, c, x) && b[x].open && c[x] == b[x].Closed()
    ensures Ends(a, c, dead + {x})
  {}

  lemma SweepsNothing(a: Moment, limit: int)
    requires forall l :: l in a.links ==> Last(a.histories, l) > limit
    ensures Sweeps(a, a, limit)
  {
    NobodyIsIdle(a.links, a.histories, limit);
  }

  lemma EndsBoth(a: Histories, b: Histories, c: Histories, one: set<Connection>, two: set<Connection>)
    requires Ends(a, b, one) && Ends(b, c, two)
    ensures Ends(a, c, one + two)
  {}

  lemma IdleAgain(links: seq<Link>, h: Histories, left: seq<Link>, h': Histories, first: int, limit: int)
    requires first <= limit && (forall l :: l in links ==> Last(h', l) == Last(h, l))
    requires forall l :: l in left <==> l in links && Last(h, l) > first
    ensures Idle(links, h, first) + Idle(left, h', limit) == Idle(links, h, limit)
  {
    var one, two, all := Idle(links, h, first), Idle(left, h', limit), Idle(links, h, limit);
    forall x | x in all ensures x in one + two {
      var l :| l in links && Last(h, l) <= limit && l.conn == x;
      if Last(h, l) > first { assert l in left; }
    }
  }

  lemma SweepsAgain(a: Moment, b: Moment, c: Moment, first: int, limit: int)
    requires first <= limit && Sweeps(a, b, first) && Sweeps(b, c, limit)
    requires forall l :: l in a.links ==> l.conn in a.histories
    ensures Sweeps(a, c, limit)
  {
    hide Survivors;
    hide Idle;
    var h, h' := a.histories, b.histories;
    forall l | l in a.links ensures Last(h', l) == Last(h, l) {}
    hide Ends;
    hide Last;
    SurvivorsAreRecent(a.links, h, first);
    SurvivorsOfSurvivors(a.links, h, h', first, limit);
    IdleAgain(a.links, h, b.links, h', first, limit);
    EndsBoth(h, h', c.histories, Idle(a.links, h, first), Idle(b.links, h', limit));
  }

  // ---- Settings, events and runs -----------------------------------------------------------------------------------

  // How a loop is configured; `lag` is how late the timer event may be handled.
  datatype Setting = Setting(cfg: Config, idleTimeout: int, lag: nat)
  {
    // What an event does.
    ghost predicate Effect(e: Event, a: Moment, b: Moment) {
      match e
      case Arrivals(backlog) => Admits(Admitted(backlog), a, b)
      case Wakeup(which) =>
        if Names(a, which) && a.histories[a.links[which].conn].port.due
        then
          var c := a.links[which].conn;
          SameTimes(a, b) && OnlyMoves(a.histories, b.histories, c) &&
          Handled(cfg, a.histories[c], b.histories[c], a.now) &&
          b.links == if b.histories[c].open then a.links else Without(a.links, which)
        else b == a
      case Elsewhere(which) =>
        if Names(a, which)
        then
          var c := a.links[which].conn;
          SameTimes(a, b) && OnlyMoves(a.histories, b.histories, c) && b.links == a.links &&
          b.histories[c] == a.histories[c].Drifted()
        else b == a
      case HangUp(which) => if Names(a, which) then Loses(a, b, which) else b == a
      case Expiry => b.now == b.lastSweep == a.now && Sweeps(a, b, b.lastSweep - idleTimeout)
      case Elapse(dt) =>
        b.now == a.now + dt && Sweeps(a, b, b.lastSweep - idleTimeout) &&
        (b.lastSweep == a.lastSweep || a.lastSweep + Period() <= b.lastSweep <= b.now)
    }

    // The longest time between two sweeps.
    function Period(): int { IDLE_SWEEP_INTERVAL_SECONDS + lag }

    // What holds at every moment of every run.
    ghost predicate Orderly(m: Moment) {
      m.lastSweep <= m.now <= m.lastSweep + Period() &&
      (forall l :: l in m.links ==> l.conn in m.histories && m.histories[l.conn].open) &&
      (forall c :: c in m.histories && m.histories[c].open ==> c in ConnectionsOf(m.links)) &&
      (forall c :: c in m.histories ==> m.histories[c].Faithful(cfg)) &&
      (forall c :: c in m.histories ==> m.histories[c].Alert()) &&
      (forall c :: c in m.histories && m.histories[c].open ==>
         m.histories[c].last <= m.now && m.lastSweep - m.histories[c].last < idleTimeout)
    }

    // A run: a moment before the first event and one behind each.
    ghost predicate IsRun(events: seq<Event>, moments: seq<Moment>) {
      |moments| == |events| + 1 && (forall i :: 0 <= i < |moments| ==> Orderly(moments[i])) &&
      (forall i :: 0 <= i < |events| ==> Effect(events[i], moments[i], moments[i + 1]))
    }
  }

  ghost predicate Names(a: Moment, which: nat) { which < |a.links| && a.links[which].conn in a.histories }

  // The connection at this place is closed and taken off the list.
  ghost predicate Loses(a: Moment, b: Moment, which: nat)
    requires Names(a, which)
  {
    var c := a.links[which].conn;
    SameTimes(a, b) && OnlyMoves(a.histories, b.histories, c) && a.histories[c].open &&
    b.histories[c] == a.histories[c].Closed() && b.links == Without(a.links, which)
  }

  // Everything that is open ends.
  ghost predicate Shuts(a: Moment, b: Moment) {
    b.links == [] && a.histories.Keys == b.histories.Keys &&
    forall c :: c in a.histories ==>
                  b.histories[c] == if a.histories[c].open then a.histories[c].Closed() else a.histories[c]
  }

  // ---- Histories over a run ----------------------------------------------------------------------------------------

  // Where each history goes in one event, and what the idle clock then says.
  ghost predicate Continues(a: Moment, b: Moment) {
    Follows(a.histories, b.histories) &&
    forall c :: c in b.histories ==>
                  b.histories[c].last ==
                  if c !in a.histories || a.histories[c].Touched(b.histories[c]) then b.now else a.histories[c].last
  }

  lemma EveryEventContinues(s: Setting, e: Event, a: Moment, b: Moment)
    requires s.Orderly(a) && s.Effect(e, a, b)
    ensures Continues(a, b) && a.now <= b.now
  {
    hide History.Faithful;
    hide History.Alert;
    hide History.LeadsTo;
    hide History.Touched;
    hide Survivors;
    hide History.Excused;
    hide History.Resumable;
    hide History.Refusable;
    hide History.RefusedInto;
    hide History.Progresses;
    forall c | c in a.histories
      ensures var h := a.histories[c];
              h.LeadsTo(h) && !h.Touched(h) &&
              (h.open ==> h.LeadsTo(h.Closed()) && !h.Touched(h.Closed())) &&
              (h.open ==> h.LeadsTo(h.Drifted()) && !h.Touched(h.Drifted()))
    {
      FaithfulIsSteady(s.cfg, a.histories[c]);
    }
  }

  lemma {:induction false} RunContinues(s: Setting, events: seq<Event>, moments: seq<Moment>, i: nat, j: nat)
    requires s.IsRun(events, moments) && i <= j < |moments|
    ensures Follows(moments[i].histories, moments[j].histories) && moments[i].now <= moments[j].now
    decreases j
  {
    hide Setting.Effect;
    hide Setting.Orderly;
    hide Follows;
    if i < j {
      RunContinues(s, events, moments, i, j - 1);
      EveryEventContinues(s, events[j - 1], moments[j - 1], moments[j]);
      FollowsIsTransitive(moments[i].histories, moments[j - 1].histories, moments[j].histories);
    } else {
      OrderlyFollowsItself(s, moments[i]);
    }
  }

  lemma OrderlyFollowsItself(s: Setting, m: Moment)
    requires s.Orderly(m)
    ensures Follows(m.histories, m.histories)
  {
    hide History.LeadsTo;
    hide History.Faithful;
    forall c | c in m.histories ensures m.histories[c].LeadsTo(m.histories[c]) {
      FaithfulIsSteady(s.cfg, m.histories[c]);
    }
  }

  lemma FollowsIsTransitive(a: Histories, b: Histories, c: Histories)
    requires Follows(a, b) && Follows(b, c)
    ensures Follows(a, c)
  {
    hide History.LeadsTo;
    forall x | x in a ensures a[x].LeadsTo(c[x]) { LeadsToIsTransitive(a[x], b[x], c[x]); }
  }

  // Finality: from the moment a response that ends the connection is stuck, the connection reads nothing more, answers
  // nothing more and sends no more than that response; and nothing that could still arrive is owed more.
  lemma CloseIsFinal(s: Setting, events: seq<Event>, moments: seq<Moment>, i: nat, j: nat, c: Connection)
    requires s.IsRun(events, moments) && i <= j < |moments| && c in moments[i].histories
    requires moments[i].histories[c].Closing()
    ensures c in moments[j].histories
    ensures var before, after := moments[i].histories[c], moments[j].histories[c];
            after.received == before.received && after.log == before.log &&
            before.sent <= after.sent <= WireOf(before.log) &&
            forall later: Bytes :: Serve(s.cfg, after.received + later) == before.log
  {
    hide Serve;
    hide WireOf;
    RunContinues(s, events, moments, i, j);
    assert s.Orderly(moments[i]);
    assert moments[i].histories[c].Faithful(s.cfg);
  }

  // And a closed connection never changes again.
  lemma ClosedStaysClosed(s: Setting, events: seq<Event>, moments: seq<Moment>, i: nat, j: nat, c: Connection)
    requires s.IsRun(events, moments) && i <= j < |moments| && c in moments[i].histories
    requires !moments[i].histories[c].open
    ensures c in moments[j].histories && moments[j].histories[c] == moments[i].histories[c]
  {
    RunContinues(s, events, moments, i, j);
  }

  // Every connection, live or closed, refines the sequential server on the stream of its own peer, which never changes;
  // and its client finds only whole responses, the right ones, in order.
  lemma EveryConnectionRefines(s: Setting, events: seq<Event>, moments: seq<Moment>, j: nat, c: Connection)
    requires s.cfg.Valid() && s.IsRun(events, moments) && j < |moments| && c in moments[j].histories
    ensures var h := moments[j].histories[c];
            h.received <= h.stream && h.sent <= WireOf(Serve(s.cfg, h.stream)) &&
            (h.open && !h.stuck ==> h.sent == WireOf(Serve(s.cfg, h.received))) &&
            (h.open && !h.stuck && h.port.script == [] && !h.port.Readable() ==>
               h.sent == WireOf(Serve(s.cfg, h.stream))) &&
            ReadAll(h.sent).0 <= Wires(Serve(s.cfg, h.stream))
    ensures forall i :: 0 <= i < j && c in moments[i].histories ==>
                          moments[i].histories[c].stream == moments[j].histories[c].stream
  {
    hide Serve;
    hide WireOf;
    hide ReadAll;
    var h := moments[j].histories[c];
    assert s.Orderly(moments[j]);
    assert h.Faithful(s.cfg);
    FaithfulRefines(s.cfg, h);
    FaithfulIsReadable(s.cfg, h);
    hide History.Faithful;
    forall i | 0 <= i < j && c in moments[i].histories
      ensures moments[i].histories[c].stream == moments[j].histories[c].stream
    {
      RunContinues(s, events, moments, i, j);
    }
  }

  // ---- The idle clock over a run -----------------------------------------------------------------------------------

  // Between the moment before and this one the connection was accepted, or read, or finished a stuck response.
  ghost predicate TouchedAt(moments: seq<Moment>, k: nat, c: Connection)
    requires 0 < k < |moments| && c in moments[k].histories
  {
    c !in moments[k - 1].histories || moments[k - 1].histories[c].Touched(moments[k].histories[c])
  }

  // When that happened last; before the run began, the clock says so.
  ghost function LastTouch(moments: seq<Moment>, j: nat, c: Connection): int
    requires j < |moments| && c in moments[j].histories
  {
    if j == 0 then moments[0].histories[c].last
    else if TouchedAt(moments, j, c) then moments[j].now
    else LastTouch(moments, j - 1, c)
  }

  lemma {:induction false} ClockIsLastTouch(s: Setting, events: seq<Event>, moments: seq<Moment>, j: nat, c: Connection)
    requires s.IsRun(events, moments) && j < |moments| && c in moments[j].histories
    ensures moments[j].histories[c].last == LastTouch(moments, j, c)
    decreases j
  {
    hide Setting.Effect;
    hide Setting.Orderly;
    hide History.Touched;
    hide Follows;
    if j > 0 {
      EveryEventContinues(s, events[j - 1], moments[j - 1], moments[j]);
      if !TouchedAt(moments, j, c) { ClockIsLastTouch(s, events, moments, j - 1, c); }
    }
  }

  // Time closes a connection if and only if a sweep finds that it was not accepted, did not read and did not finish a
  // stuck kept-alive response within the timeout.
  lemma LeavesByTime(s: Setting, events: seq<Event>, moments: seq<Moment>, i: nat, c: Connection)
    requires s.IsRun(events, moments) && i < |events| && (events[i].Elapse? || events[i].Expiry?)
    requires c in moments[i].histories && moments[i].histories[c].open
    ensures c in moments[i + 1].histories
    ensures var idle := moments[i + 1].lastSweep - LastTouch(moments, i, c);
            moments[i + 1].histories[c] ==
            if idle >= s.idleTimeout then moments[i].histories[c].Closed() else moments[i].histories[c]
  {
    hide History.Faithful;
    hide History.Alert;
    ClockIsLastTouch(s, events, moments, i, c);
    hide LastTouch;
    var a, b := moments[i], moments[i + 1];
    assert s.Orderly(a) && s.Effect(events[i], a, b);
    var l :| l in a.links && l.conn == c;
    var limit := b.lastSweep - s.idleTimeout;
    assert c in Idle(a.links, a.histories, limit) <==> Last(a.histories, l) <= limit;
  }

  // The same, read off the run: in a run from an empty loop, being touched within the timeout means that some moment
  // within it is one of a touch.
  lemma {:induction false} LastTouchIsRecent(
    s: Setting, events: seq<Event>, moments: seq<Moment>, j: nat, c: Connection, limit: int)
    requires s.IsRun(events, moments) && moments[0].histories == map[] && j < |moments| && c in moments[j].histories
    ensures LastTouch(moments, j, c) > limit <==>
            exists k :: 0 < k <= j && c in moments[k].histories && TouchedAt(moments, k, c) && moments[k].now > limit
    decreases j
  {
    hide History.Touched;
    hide Setting.Effect;
    hide Setting.Orderly;
    if TouchedAt(moments, j, c) {
      forall k | 0 < k <= j ensures moments[k].now <= moments[j].now { RunContinues(s, events, moments, k, j); }
    } else {
      LastTouchIsRecent(s, events, moments, j - 1, c, limit);
    }
  }

  // No open connection goes untouched for the timeout plus five seconds plus the lag.
  lemma IdleBound(s: Setting, events: seq<Event>, moments: seq<Moment>, j: nat, c: Connection)
    requires s.IsRun(events, moments) && j < |moments| && c in moments[j].histories && moments[j].histories[c].open
    ensures moments[j].now - LastTouch(moments, j, c) < s.idleTimeout + 5 + s.lag
  {
    hide History.Faithful;
    ClockIsLastTouch(s, events, moments, j, c);
    assert s.Orderly(moments[j]);
  }

  // ---- Progress over a run -----------------------------------------------------------------------------------------

  // How many events a connection in a calm world needs: one to send what is stuck, one to read what is there.
  ghost function Rank(h: History): nat {
    if !h.open then 0 else if h.stuck then 2 else if h.port.Readable() then 1 else 0
  }

  ghost predicate Wakes(e: Event, a: Moment, c: Connection) {
    e.Wakeup? && Names(a, e.which) && a.links[e.which].conn == c
  }

  // Nothing but its own wakeups moves such a connection, and each brings it closer; one is due until it is there.
  lemma CalmStep(s: Setting, e: Event, a: Moment, b: Moment, c: Connection)
    requires s.Orderly(a) && s.Orderly(b) && s.Effect(e, a, b) && c in a.histories && a.histories[c].port.Calm()
    ensures Rank(a.histories[c]) > 0 ==> a.histories[c].port.due
    ensures c in b.histories && b.histories[c].port.Calm() && Rank(b.histories[c]) <= Rank(a.histories[c])
    ensures Wakes(e, a, c) && Rank(a.histories[c]) > 0 ==> Rank(b.histories[c]) < Rank(a.histories[c])
  {
    hide History.Faithful;
    hide Survivors;
    hide History.Excused;
    hide History.Resumable;
    hide History.Refusable;
    hide History.RefusedInto;
    hide History.Touched;
    assert a.histories[c].Alert();
  }

  // How often a connection is woken between two moments.
  ghost function Wakeups(events: seq<Event>, moments: seq<Moment>, c: Connection, i: nat, j: nat): nat
    requires i <= j < |moments| == |events| + 1
    decreases j
  {
    if i == j then 0
    else Wakeups(events, moments, c, i, j - 1) + (if Wakes(events[j - 1], moments[j - 1], c) then 1 else 0)
  }

  lemma {:induction false} CalmRun(s: Setting, events: seq<Event>, moments: seq<Moment>, i: nat, j: nat, c: Connection)
    requires s.IsRun(events, moments) && i <= j < |moments|
    requires c in moments[i].histories && moments[i].histories[c].port.Calm()
    ensures c in moments[j].histories && moments[j].histories[c].port.Calm()
    ensures var left := Rank(moments[j].histories[c]);
            left == 0 || left + Wakeups(events, moments, c, i, j) <= Rank(moments[i].histories[c])
    decreases j
  {
    hide Setting.Effect;
    hide Setting.Orderly;
    hide Rank;
    if i < j {
      CalmRun(s, events, moments, i, j - 1, c);
      CalmStep(s, events[j - 1], moments[j - 1], moments[j], c);
    }
  }

  // Once the script is used up and there is room, two wakeups later the connection is closed, or it has read the peer's
  // whole stream and sent all the responses to it.
  lemma TwoWakeupsSettle(s: Setting, events: seq<Event>, moments: seq<Moment>, i: nat, j: nat, c: Connection)
    requires s.IsRun(events, moments) && i <= j < |moments|
    requires c in moments[i].histories && moments[i].histories[c].port.Calm()
    requires Wakeups(events, moments, c, i, j) >= 2
    ensures c in moments[j].histories
    ensures var h := moments[j].histories[c];
            h.open ==> !h.stuck && h.received == h.stream && h.sent == WireOf(Serve(s.cfg, h.stream))
  {
    hide Setting.Effect;
    hide Serve;
    hide WireOf;
    CalmRun(s, events, moments, i, j, c);
    hide Wakeups;
    assert s.Orderly(moments[j]);
    FaithfulRefines(s.cfg, moments[j].histories[c]);
  }

  // A handler closes a connection only when a call failed, or when all is sent that the peer's whole stream is owed.
  lemma HandlersFinish(s: Setting, events: seq<Event>, moments: seq<Moment>, i: nat, c: Connection)
    requires s.IsRun(events, moments) && i < |events| && Wakes(events[i], moments[i], c)
    requires c in moments[i].histories && c in moments[i + 1].histories && !moments[i + 1].histories[c].open
    ensures var h := moments[i + 1].histories[c]; h.broken || h.sent == WireOf(Serve(s.cfg, h.stream))
  {
    hide Serve;
    hide WireOf;
    var a, b := moments[i], moments[i + 1];
    assert s.Orderly(a) && s.Orderly(b) && s.Effect(events[i], a, b);
    var h := b.histories[c];
    assert h.Faithful(s.cfg) && a.links[events[i].which] in a.links;
    hide History.Faithful;
    if !h.broken {
      assert h.Excused(s.cfg);
      ClosedOnlyWhenDone(s.cfg, h, []);
    }
  }

  // ---- A run that the documented idle rule does not describe -------------------------------------------------------

  // A client sends one request, its response meets a full buffer, and the buffer drains when the timeout has passed.
  function SlowScript(text: Bytes): seq<Tick> {
    [Tick(text, false, false, Proceed(0)), Tick([], false, false, Proceed(0)), Tick([], false, false, Refuse),
     Tick([], false, false, Proceed(0)), Tick([], false, true, Proceed(0))]
  }

  function SlowEvents(text: Bytes, timeout: nat): seq<Event>
    requires timeout > 0
  {
    [Arrivals([Peer(SlowScript(text), true, true)]), Elsewhere(0), Wakeup(0), Elapse(timeout - 1), Expiry, Elapse(1),
     Elsewhere(0), Wakeup(0), Expiry]
  }

  // The loop holds this one connection.
  ghost predicate Alone(m: Moment, l: Link, h: History) {
    m.links == [l] && l.conn in m.histories && m.histories[l.conn] == h
  }

  lemma SlowArrival(s: Setting, text: Bytes, a: Moment, b: Moment) returns (l: Link)
    requires s.Effect(Arrivals([Peer(SlowScript(text), true, true)]), a, b) && a.links == [] && a.histories == map[]
    ensures SameTimes(a, b) && Alone(b, l, Fresh(SlowScript(text), a.now))
  {
    hide SlowScript;
    var p := Peer(SlowScript(text), true, true);
    assert [p][1..] == [] && Admitted([p]) == [p.script];
    l := b.links[0];
    assert b.links == [l] + b.links[1..];
  }

  // A sweep that comes too early leaves the connection alone.
  lemma SweptTooEarly(s: Setting, e: Event, a: Moment, b: Moment, l: Link, h: History)
    requires (e.Elapse? || e.Expiry?) && s.Effect(e, a, b) && Alone(a, l, h) && h.last > b.lastSweep - s.idleTimeout
    ensures Alone(b, l, h)
  {
    var limit := b.lastSweep - s.idleTimeout;
    forall m | m in a.links ensures Last(a.histories, m) > limit {}
    NobodyIsIdle(a.links, a.histories, limit);
    hide Survivors;
  }

  lemma SlowDrift(s: Setting, a: Moment, b: Moment, l: Link, h: History)
    requires s.Effect(Elsewhere(0), a, b) && Alone(a, l, h)
    ensures SameTimes(a, b) && Alone(b, l, h.Drifted())
  {
    hide Port.Moved;
  }

  lemma SlowIsRefused(cfg: Config, text: Bytes, r: Response, now: int)
    requires 0 < |text| <= READ_CHUNK_SIZE && Serve(cfg, text) == [r]
    ensures var h := Fresh(SlowScript(text), now).Drifted();
            h.Refusable(cfg) && h.port.due && h.received == [] && h.log == [] && !h.stuck && h.port.incoming == text &&
            |SlowScript(text)| == 5 && h.port.script == SlowScript(text)[1..]
  {
    hide Serve;
    assert [] + text == text;
  }

  // The request is read and answered, and the response is stuck.
  lemma SlowRequest(s: Setting, text: Bytes, r: Response, a: Moment, b: Moment, l: Link) returns (h: History)
    requires 0 < |text| <= READ_CHUNK_SIZE && Serve(s.cfg, text) == [r] && r.keepAlive
    requires s.Orderly(b) && s.Effect(Wakeup(0), a, b) && Alone(a, l, Fresh(SlowScript(text), a.now).Drifted())
    ensures SameTimes(a, b) && Alone(b, l, h) && h.open && h.stuck && h.keepAlive && h.received == text && h.log == [r]
    ensures h.last == a.now && h.port.script == SlowScript(text)[4..] && h.port.interest.Out?
  {
    hide Serve;
    hide WireOf;
    hide Final;
    hide Survivors;
    hide Port.Moved;
    hide SlowScript;
    hide History.Refusable;
    SlowIsRefused(s.cfg, text, r, a.now);
    assert SlowScript(text)[1..][3..] == SlowScript(text)[4..] && [] + text == text;
    h := b.histories[l.conn];
    assert h.Faithful(s.cfg);
    assert h.log == [r];
  }

  // The buffer drains, and the response goes out.
  lemma SlowResponse(s: Setting, a: Moment, b: Moment, c: Moment, l: Link, h: History) returns (h': History)
    requires s.Effect(Elsewhere(0), a, b) && s.Effect(Wakeup(0), b, c) && Alone(a, l, h)
    requires h.stuck && h.keepAlive && Serve(s.cfg, h.received) == h.log && h.port.interest.Out?
    requires |h.port.script| == 1 && h.port.script[0].drained
    ensures SameTimes(a, b) && SameTimes(b, c) && Alone(b, l, h.Drifted())
    ensures Alone(c, l, h') && h'.open && h'.received == h.received && h'.last == a.now
  {
    hide Serve;
    hide WireOf;
    hide Final;
    hide Survivors;
    SlowDrift(s, a, b, l, h);
    assert h.Drifted().port.Calm() && h.Drifted().port.due && h.Drifted().Resumable(s.cfg);
    h' := c.histories[l.conn];
  }

  // The last read is a whole timeout ago at the last sweep of such a run, and the connection survives it.
  lemma SlowReaderSurvives(s: Setting, text: Bytes, r: Response, moments: seq<Moment>) returns (c: Connection)
    requires s.idleTimeout > 0 && 0 < |text| <= READ_CHUNK_SIZE && Serve(s.cfg, text) == [r] && r.keepAlive
    requires s.IsRun(SlowEvents(text, s.idleTimeout), moments) && moments[0] == Moment(0, 0, [], map[])
    ensures moments[3].now == 0 && moments[9].now == moments[9].lastSweep == s.idleTimeout
    ensures forall k :: 3 <= k <= 9 ==> c in moments[k].histories && moments[k].histories[c].received == text
    ensures moments[9].histories[c].open
  {
    hide Setting.Effect;
    hide Setting.Orderly;
    hide SlowScript;
    hide Serve;
    var es := SlowEvents(text, s.idleTimeout);
    assert s.Orderly(moments[3]);
    assert s.Effect(es[0], moments[0], moments[1]) && s.Effect(es[1], moments[1], moments[2]);
    assert s.Effect(es[2], moments[2], moments[3]) && s.Effect(es[3], moments[3], moments[4]);
    assert s.Effect(es[4], moments[4], moments[5]) && s.Effect(es[5], moments[5], moments[6]);
    assert s.Effect(es[6], moments[6], moments[7]) && s.Effect(es[7], moments[7], moments[8]);
    assert s.Effect(es[8], moments[8], moments[9]);
    hide Setting.IsRun;
    var l, h := SlowBegins(s, text, r, moments[0], moments[1], moments[2], moments[3]);
    SlowWaits(s, moments[3], moments[4], moments[5], moments[6], l, h);
    DrainsLast(text);
    SlowEnds(s, moments[6], moments[7], moments[8], moments[9], l, h);
    c := l.conn;
  }

  lemma SlowBegins(s: Setting, text: Bytes, r: Response, a: Moment, b: Moment, c: Moment, d: Moment)
    returns (l: Link, h: History)
    requires 0 < |text| <= READ_CHUNK_SIZE && Serve(s.cfg, text) == [r] && r.keepAlive
    requires a == Moment(0, 0, [], map[]) && s.Orderly(d)
    requires s.Effect(Arrivals([Peer(SlowScript(text), true, true)]), a, b)
    requires s.Effect(Elsewhere(0), b, c) && s.Effect(Wakeup(0), c, d)
    ensures SameTimes(a, d) && Alone(d, l, h) && h.open && h.stuck && h.keepAlive && h.received == text && h.log == [r]
    ensures h.last == 0 && h.port.script == SlowScript(text)[4..] && h.port.interest.Out?
  {
    hide Setting.Effect;
    hide Setting.Orderly;
    hide SlowScript;
    hide Serve;
    l := SlowArrival(s, text, a, b);
    SlowDrift(s, b, c, l, Fresh(SlowScript(text), 0));
    h := SlowRequest(s, text, r, c, d, l);
  }

  lemma SlowWaits(s: Setting, a: Moment, b: Moment, c: Moment, d: Moment, l: Link, h: History)
    requires s.idleTimeout > 0 && a.now == a.lastSweep == 0 && Alone(a, l, h) && h.last == 0
    requires s.Effect(Elapse(s.idleTimeout - 1), a, b) && s.Effect(Expiry, b, c) && s.Effect(Elapse(1), c, d)
    ensures Alone(b, l, h) && Alone(c, l, h) && Alone(d, l, h) && d.now == s.idleTimeout
  {
    hide Setting.Effect;
    SlowTimes(s, Elapse(s.idleTimeout - 1), Expiry, Elapse(1), a, b, c, d);
    SweptTooEarly(s, Elapse(s.idleTimeout - 1), a, b, l, h);
    SweptTooEarly(s, Expiry, b, c, l, h);
    SweptTooEarly(s, Elapse(1), c, d, l, h);
  }

  lemma SlowEnds(s: Setting, a: Moment, b: Moment, c: Moment, d: Moment, l: Link, h: History)
    requires s.idleTimeout > 0 && Alone(a, l, h)
    requires h.stuck && h.keepAlive && Serve(s.cfg, h.received) == h.log && h.port.interest.Out?
    requires |h.port.script| == 1 && h.port.script[0].drained
    requires s.Effect(Elsewhere(0), a, b) && s.Effect(Wakeup(0), b, c) && s.Effect(Expiry, c, d)
    ensures d.now == d.lastSweep == a.now
    ensures l.conn in b.histories && l.conn in c.histories && l.conn in d.histories && d.histories[l.conn].open
    ensures b.histories[l.conn].received == c.histories[l.conn].received == d.histories[l.conn].received == h.received
  {
    hide Setting.Effect;
    hide Serve;
    var h' := SlowResponse(s, a, b, c, l, h);
    LastSweepTime(s, c, d);
    SweptTooEarly(s, Expiry, c, d, l, h');
  }

  lemma DrainsLast(text: Bytes)
    ensures var rest := SlowScript(text)[4..]; |rest| == 1 && rest[0].drained
  {}

  lemma SlowTimes(s: Setting, e: Event, f: Event, g: Event, a: Moment, b: Moment, c: Moment, d: Moment)
    requires s.idleTimeout > 0 && a.now == a.lastSweep == 0
    requires e == Elapse(s.idleTimeout - 1) && f == Expiry && g == Elapse(1)
    requires s.Effect(e, a, b) && s.Effect(f, b, c) && s.Effect(g, c, d)
    ensures b.lastSweep <= s.idleTimeout - 1 && c.lastSweep == d.lastSweep == s.idleTimeout - 1
    ensures d.now == s.idleTimeout
  {
    hide Sweeps;
  }

  lemma LastSweepTime(s: Setting, a: Moment, b: Moment)
    requires s.Effect(Expiry, a, b)
    ensures b.now == b.lastSweep == a.now
  {
    hide Sweeps;
  }

  // There is such a request.
  const SLOW_TEXT: Bytes := "GET / HTTP/1.1\r\n\r\n"

  lemma SlowTextIsServed(cfg: Config) returns (r: Response)
    requires cfg.Valid()
    ensures 0 < |SLOW_TEXT| <= READ_CHUNK_SIZE && Serve(cfg, SLOW_TEXT) == [r] && r.keepAlive
  {
    hide Serve;
    var request := ShortRequest();
    hide Print;
    hide WellFormed;
    r := AnswerRequest(cfg, request);
    ServesOneRequest(cfg, request, []);
    AnswerKeepsAlive(cfg, request);
    NothingServed(cfg);
    assert SLOW_TEXT + [] == SLOW_TEXT;
  }

  lemma ShortRequest() returns (r: Request)
    ensures WellFormed(r) && Print(r) == SLOW_TEXT && KeepsAliveRequest(r)
  {
    r := Request(['G', 'E', 'T'], ['/'], 1, 1, []);
    assert VersionText(1, 1) == "HTTP/1.1";
  }
}
