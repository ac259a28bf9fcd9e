/** The loop: one shared table of descriptors, the list of connections, the idle sweep, and the proof that it runs as
    Runs says (src/event_loop.c). */
module EventLoops {
  import opened HttpParser
  import opened Files
  import opened Responses
  import opened Kernel
  import opened Connections
  import opened Reference
  import opened Client
  import opened Refinement
  import opened Lists
  import opened Runs

  // ---- Who holds which descriptor ----------------------------------------------------------------------------------

  // Every open file is held by exactly one connection, and every held number is open.
  ghost predicate Exact(held: seq<int>, open: map<int, Content>) {
    (forall i :: 0 <= i < |held| ==> held[i] == -1 || held[i] in open) &&
    (forall i, j :: 0 <= i < j < |held| && held[i] == held[j] ==> held[i] == -1) &&
    (forall fd :: fd in open ==> fd >= 0 && fd in held)
  }

  ghost function Except(open: map<int, Content>, fd: int): map<int, Content> { if fd < 0 then open else open - {fd} }

  // One connection's step changes what it holds and nothing else.
  lemma ExactStep(held: seq<int>, open: map<int, Content>, k: nat, fd: int, open': map<int, Content>)
    requires Exact(held, open) && k < |held|
    requires Except(open', fd) == Except(open, held[k])
    requires fd == -1 || fd in open'
    requires forall f :: f in open' ==> f >= 0
    ensures Exact(held[k := fd], open')
    ensures forall i :: 0 <= i < |held| && i != k && held[i] >= 0 ==>
                          held[i] in open' && open'[held[i]] == open[held[i]]
  {
    var rest := Except(open, held[k]);
    var held' := held[k := fd];
    forall i | 0 <= i < |held| && i != k && held[i] >= 0
      ensures held[i] in open' && open'[held[i]] == open[held[i]] && held[i] != fd
    {
      assert held[i] in rest && rest[held[i]] == open[held[i]];
      assert held[i] in Except(open', fd);
    }
    forall f | f in open' ensures f in held' {
      if f != fd {
        assert f in rest;
        var i :| 0 <= i < |held| && held[i] == f;
        assert held'[i] == f;
      } else {
        assert held'[k] == f;
      }
    }
  }

  lemma ExactWithout(held: seq<int>, open: map<int, Content>, k: nat)
    requires Exact(held, open) && k < |held| && held[k] == -1
    ensures Exact(held[..k] + held[k + 1..], open)
  {
    var rest := held[..k] + held[k + 1..];
    forall fd | fd in open ensures fd in rest {
      var i :| 0 <= i < |held| && held[i] == fd;
      assert rest[if i < k then i else i - 1] == fd;
    }
  }

  lemma ExactMore(held: seq<int>, open: map<int, Content>)
    requires Exact(held, open)
    ensures Exact([-1] + held, open)
  {
    var more := [-1] + held;
    forall fd | fd in open ensures fd in more {
      var i :| 0 <= i < |held| && held[i] == fd;
      assert more[i + 1] == fd;
    }
  }

  // ---- The loop ----------------------------------------------------------------------------------------------------

  class EventLoop {
    const cfg: Config
    const fds: Descriptors
    const list: ConnectionList
    const idleTimeout: int
    const lag: nat  // how late the timer event may be handled

    var now: int
    var lastSweep: int
    ghost var accepted: set<Connection>
    ghost var gone: set<Connection>  // the accepted connections that were closed
    ghost var repr: set<object>      // the objects of the live connections and their links

    ghost predicate Ours(c: Connection) {
      c.cfg == cfg && c.fds == fds && c.Shape() && c in c.repr && this !in c.repr && list !in c.repr &&
      fds !in c.repr &&
      (forall o: object :: o in c.repr ==> !(o is Link))
    }

    // No two connections share an object, and none reaches the loop's own.
    ghost predicate Apart(links: seq<Link>, gone: set<Connection>) {
      (forall l :: l in links ==> Ours(l.conn)) && (forall c :: c in gone ==> Ours(c)) &&
      (forall l, m :: l in links && m in links && l != m ==> l.conn.repr !! m.conn.repr) &&
      (forall l, c :: l in links && c in gone ==> l.conn.repr !! c.repr)
    }

    // Shares nothing with the connections there are.
    ghost predicate Stranger(c: Connection, links: seq<Link>, gone: set<Connection>) {
      (forall l :: l in links ==> c.repr !! l.conn.repr) && (forall g :: g in gone ==> c.repr !! g.repr)
    }

    ghost predicate Enclosed(links: seq<Link>, repr: set<object>) {
      (forall l :: l in links ==> l in repr && l.conn.repr <= repr) && this !in repr && list !in repr && fds !in repr
    }

    // Every connection that was ever accepted is either on the list or closed.
    ghost predicate Accounted(links: seq<Link>, gone: set<Connection>, accepted: set<Connection>) {
      accepted == gone + ConnectionsOf(links)
    }

    ghost predicate Serving(l: Link)
      reads *
    { l.conn.LiveCore() && l.conn.Owns() && l.conn.sock.port.Armed() }

    ghost predicate Timely(l: Link)
      reads *
    { l.conn.lastActivity <= now && lastSweep - l.conn.lastActivity < idleTimeout }

    ghost function Held(links: seq<Link>): seq<int>
      reads *
    { seq(|links|, i requires 0 <= i < |links| reads * => links[i].conn.fileFd) }

    // The loop's invariant, with at most one link whose connection was just closed.
    ghost predicate ValidBut(dead: Link?)
      reads *
    {
      cfg.Valid() && idleTimeout > 0 && lastSweep <= now &&
      list.Valid() && Apart(list.links, gone) &&
      (forall l :: l in list.links && l != dead ==> Serving(l)) &&
      (forall l :: l in list.links && l != dead ==> Timely(l)) &&
      (forall c :: c in gone ==> c.Gone()) &&
      (dead != null ==> dead in list.links && dead.conn.Gone()) &&
      Enclosed(list.links, repr) && Accounted(list.links, gone, accepted) &&
      fds.Valid() && Exact(Held(list.links), fds.open)
    }

    ghost predicate Valid()
      reads *
    { ValidBut(null) }

    function Env(): Setting { Setting(cfg, idleTimeout, lag) }

    // The timer fires every five seconds, and its event is handled no later than `lag` seconds after that.
    ghost predicate Punctual()
      reads this
    { lastSweep <= now <= lastSweep + Env().Period() }

    ghost function Pasts(): Histories
      reads *
    { map c | c in accepted :: c.Past() }

    // The loop as it stands.
    ghost function Snapshot(): Moment
      reads *
    { Moment(now, lastSweep, list.links, Pasts()) }

    constructor (cfg: Config, idleTimeout: int, lag: nat, now: int)
      requires cfg.Valid() && idleTimeout > 0
      ensures Valid() && list.links == [] && accepted == gone == {} && fds.opens == 0 && lastSweep == this.now == now
      ensures this.cfg == cfg && this.idleTimeout == idleTimeout && this.lag == lag
      ensures fresh(list) && fresh(fds) && repr == {}
    {
      this.cfg, this.idleTimeout, this.lag, this.now, lastSweep := cfg, idleTimeout, lag, now, now;
      fds := new Descriptors();
      list := new ConnectionList();
      accepted, gone, repr := {}, {}, {};
    }

    // One event of one connection: its history goes on and no other changes; if its handler closed it, it leaves the
    // list.
    method Dispatch(l: Link, ghost k: nat)
      requires Valid() && k < |list.links| && list.links[k] == l && l.conn.sock.port.due
      modifies this`gone, list, fds, repr
      ensures Valid() && repr == old(repr) && now == old(now) && lastSweep == old(lastSweep)
      ensures accepted == old(accepted) && OnlyMoves(old(Pasts()), Pasts(), l.conn)
      ensures Handled(cfg, old(l.conn.Past()), l.conn.Past(), now)
      ensures list.links == if l.conn.sock.open then old(list.links) else Without(old(list.links), k)
    {
      hide ValidBut;
      hide Handled;
      hide Pasts;
      hide Connection.Past;
      hide OnlyMoves;
      WithinRepr(k);
      Separated(k);
      HandleOnly(l, k);
      InPastsAlways(l.conn);
      ghost var past, pasts := l.conn.Past(), Pasts();
      if !l.conn.sock.open {
        Drop(l, k);
        Looked(l.conn, past, pasts);
      }
    }

    lemma Looked(c: Connection, past: History, pasts: Histories)
      requires c in accepted && c in pasts && pasts[c] == past && Pasts() == pasts
      ensures c.Past() == past
    {
      hide Connection.Past;
    }

    // Runs the handler; no other history changes.
    method HandleOnly(l: Link, ghost k: nat)
      requires Valid() && k < |list.links| && list.links[k] == l && l.conn.sock.port.due
      modifies fds, l.conn.repr
      ensures ValidBut(if l.conn.sock.open then null else l) && list.links == old(list.links)
      ensures !l.conn.sock.open ==> l.conn.fileFd == -1
      ensures OnlyMoves(old(Pasts()), Pasts(), l.conn) && Pasts()[l.conn] == l.conn.Past()
      ensures Handled(cfg, old(l.conn.Past()), l.conn.Past(), now)
    {
      hide ValidBut;
      hide Connection.Shape;
      hide Handled;
      hide Connection.Past;
      WithinRepr(k);
      Separated(k);
      Handle(l, k);
      forall c | c in accepted && c != l.conn ensures c.Past() == old(c.Past()) { PastStays(c); }
    }

    // The connections other than this one share no object with it.
    lemma Separated(k: nat)
      requires Valid() && k < |list.links|
      ensures list.links[k].conn in accepted
      ensures forall c :: c in accepted ==> Ours(c)
      ensures forall c :: c in accepted && c != list.links[k].conn ==> c.repr !! list.links[k].conn.repr
    {
      hide Connection.LiveCore;
      hide Connection.Gone;
      hide Connection.Shape;
      hide Exact;
      assert list.links[k] in list.links;
    }

    lemma AcceptedAreOurs(dead: Link?)
      requires ValidBut(dead)
      ensures forall c :: c in accepted ==> Ours(c)
    {
      hide Connection.LiveCore;
      hide Connection.Gone;
      hide Connection.Shape;
      hide Exact;
    }

    lemma WithinRepr(k: nat)
      requires Valid() && k < |list.links|
      ensures list.links[k].conn.repr <= repr && (forall l :: l in list.links ==> l in repr)
      ensures this !in repr && list !in repr && fds !in repr
    {
      hide Connection.LiveCore;
      hide Connection.Gone;
      hide Exact;
      assert list.links[k] in list.links;
    }

    method Handle(l: Link, ghost k: nat)
      requires Valid() && k < |list.links| && list.links[k] == l && l.conn.sock.port.due
      modifies fds, l.conn.repr
      ensures ValidBut(if l.conn.sock.open then null else l) && list.links == old(list.links)
      ensures !l.conn.sock.open ==> l.conn.fileFd == -1
      ensures Handled(cfg, old(l.conn.Past()), l.conn.Past(), now)
    {
      hide Handled;
      hide Connection.Past;
      hide Connection.LiveCore;
      hide Connection.Gone;
      hide Connection.Shape;
      hide Exact;
      ghost var links, held, open := list.links, Held(list.links), fds.open;
      assert l in links;
      assert Serving(l);
      var c := l.conn;
      RunHandler(c);
      ExactStep(held, open, k, c.fileFd, fds.open);
      hide Serving;
      forall i | 0 <= i < |links| && i != k
        ensures Serving(links[i]) && Timely(links[i]) && links[i].conn.fileFd == held[i]
      {
        assert links[i] in links && links[i] != l;
        assert links[i].conn.fileFd == held[i];
        OtherServes(links[i]);
      }
      forall g | g in gone ensures g.Gone() { StaysGone(g); }
      assert Held(links) == held[k := c.fileFd];
    }

    // The handler, with everything it may touch named by the connection's own set of objects.
    method RunHandler(c: Connection)
      requires Ours(c) && c.LiveCore() && c.Owns() && c.sock.port.due && c.lastActivity <= now
      modifies fds, c.repr
      ensures fds.Valid() && c.Others() == old(c.Others()) && c.fileFd >= -1
      ensures !c.sock.open ==> c.Gone() && c.fileFd == -1
      ensures Handled(cfg, old(c.Past()), c.Past(), now)
      ensures c.lastActivity == now || c.lastActivity == old(c.lastActivity)
      ensures c.sock.open ==> c.LiveCore() && c.Owns() && c.sock.port.Armed()
    {
      hide Connection.LiveCore;
      hide Connection.Gone;
      hide Handled;
      c.HandleEvent(now);
      ClockOfHandled(cfg, old(c.Past()), c.Past(), now);
    }

    lemma ClockOfHandled(cfg: Config, before: History, after: History, now: int)
      requires Handled(cfg, before, after, now)
      ensures after.last == now || after.last == before.last
    {
      hide History.LeadsTo;
      hide History.Excused;
      hide History.Resumable;
      hide History.Refusable;
    }

    // Takes a closed connection off the list; no history changes.
    method Drop(l: Link, ghost k: nat)
      requires ValidBut(l) && k < |list.links| && list.links[k] == l && l.conn.fileFd == -1
      modifies this`gone, list, list.links
      ensures Valid() && list.links == Without(old(list.links), k) && Pasts() == old(Pasts())
    {
      hide ValidBut;
      hide Connection.Shape;
      hide Connection.Past;
      AcceptedAreOurs(l);
      Forget(l, k);
      forall c | c in accepted ensures c.Past() == old(c.Past()) { PastStays(c); }
    }

    method Forget(l: Link, ghost k: nat)
      requires ValidBut(l) && k < |list.links| && list.links[k] == l && l.conn.fileFd == -1
      modifies this`gone, list, list.links
      ensures Valid() && list.links == Without(old(list.links), k)
    {
      hide Connection.LiveCore;
      hide Connection.Gone;
      hide Connection.Shape;
      hide Exact;
      hide ConnectionList.Valid;
      ghost var links, held := list.links, Held(list.links);
      DistinctLinks();
      ApartMoves(links, k, gone);
      ForgetHeld(links, k);
      hide Accounted;
      hide Enclosed;
      list.Remove(l, k);
      gone := gone + {l.conn};
      forall m | m in links && m != l ensures Serving(m) && Timely(m) { OtherServes(m); }
      forall g | g in gone ensures g.Gone() { StaysGone(g); }
      assert Held(links) == held;
      hide Serving;
      hide Timely;
      hide Apart;
      ForgetHeld(links, k);
    }

    lemma DistinctLinks()
      requires list.Valid()
      ensures Distinct(list.links)
    {}

    lemma ForgetHeld(links: seq<Link>, k: nat)
      requires k < |links| && Distinct(links) && Exact(Held(links), fds.open) && links[k].conn.fileFd == -1
      ensures Exact(Held(Without(links, k)), fds.open)
      ensures forall m :: m in Without(links, k) ==> m in links && m != links[k]
      ensures Enclosed(links, repr) ==> Enclosed(Without(links, k), repr)
      ensures Accounted(links, gone, accepted) ==> Accounted(Without(links, k), gone + {links[k].conn}, accepted)
    {
      hide Exact;
      ExactWithout(Held(links), fds.open, k);
      assert Held(Without(links, k)) == Held(links)[..k] + Held(links)[k + 1..];
      forall m | m in links && m != links[k] ensures m in Without(links, k) {
        var i :| 0 <= i < |links| && links[i] == m;
        assert Without(links, k)[if i < k then i else i - 1] == m;
      }
    }

    lemma ApartMoves(links: seq<Link>, k: nat, gone: set<Connection>)
      requires Apart(links, gone) && Distinct(links) && k < |links|
      ensures Apart(Without(links, k), gone + {links[k].conn})
    {
      hide Connection.Shape;
      var rest := Without(links, k);
      forall m | m in rest ensures m in links && m != links[k] {}
      assert links[k] in links;
    }

    // Closes one connection and takes it off the list: hang-up, idleness, or shutdown.
    method Close(l: Link, ghost k: nat)
      requires Valid() && k < |list.links| && list.links[k] == l
      modifies this`gone, list, fds, repr
      ensures Valid() && repr == old(repr) && accepted == old(accepted)
      ensures old(Names(Snapshot(), k)) && Loses(old(Snapshot()), Snapshot(), k)
    {
      hide ValidBut;
      hide Pasts;
      hide OnlyMoves;
      WithinRepr(k);
      InPasts(k);
      ShutOnly(l, k);
      Drop(l, k);
    }

    // Closes the connection; no other history changes.
    method ShutOnly(l: Link, ghost k: nat)
      requires Valid() && k < |list.links| && list.links[k] == l
      modifies fds, l.conn.repr
      ensures ValidBut(l) && l.conn.fileFd == -1 && list.links == old(list.links)
      ensures OnlyMoves(old(Pasts()), Pasts(), l.conn)
      ensures old(Pasts())[l.conn].open && Pasts()[l.conn] == old(Pasts())[l.conn].Closed()
    {
      hide ValidBut;
      hide Connection.Shape;
      hide Connection.Past;
      WithinRepr(k);
      Separated(k);
      ShutOne(l, k);
      forall c | c in accepted && c != l.conn ensures c.Past() == old(c.Past()) { PastStays(c); }
    }

    method ShutOne(l: Link, ghost k: nat)
      requires Valid() && k < |list.links| && list.links[k] == l
      modifies fds, l.conn.repr
      ensures ValidBut(l) && l.conn.fileFd == -1 && list.links == old(list.links)
      ensures old(l.conn.Past()).open && l.conn.Past() == old(l.conn.Past()).Closed()
    {
      hide Connection.LiveCore;
      hide Connection.Gone;
      hide Connection.Shape;
      hide Exact;
      ghost var links, held, open := list.links, Held(list.links), fds.open;
      assert l in links;
      assert Serving(l);
      var c := l.conn;
      RunClose(c);
      ExactStep(held, open, k, c.fileFd, fds.open);
      hide Serving;
      forall i | 0 <= i < |links| && i != k
        ensures Serving(links[i]) && Timely(links[i]) && links[i].conn.fileFd == held[i]
      {
        assert links[i] in links && links[i] != l;
        assert links[i].conn.fileFd == held[i];
        OtherServes(links[i]);
      }
      forall g | g in gone ensures g.Gone() { StaysGone(g); }
      assert Held(links) == held[k := c.fileFd];
    }

    method RunClose(c: Connection)
      requires Ours(c) && c.LiveCore() && c.Owns()
      modifies fds, c.repr
      ensures fds.Valid() && c.Others() == old(c.Others()) && c.fileFd == -1 && c.Gone()
      ensures old(c.Past()).open && c.Past() == old(c.Past()).Closed()
    {
      hide Connection.LiveCore;
      hide Connection.Gone;
      c.CloseByLoop();
    }

    // The kernel's side of one connection moves on its own.
    method Drift(l: Link, ghost k: nat)
      requires Valid() && k < |list.links| && list.links[k] == l
      modifies l.conn.repr
      ensures Valid() && list.links == old(list.links) && OnlyMoves(old(Pasts()), Pasts(), l.conn)
      ensures Pasts()[l.conn] == old(Pasts())[l.conn].Drifted()
    {
      hide ValidBut;
      hide Connection.Shape;
      hide Connection.Past;
      WithinRepr(k);
      Separated(k);
      World(l, k);
      forall c | c in accepted && c != l.conn ensures c.Past() == old(c.Past()) { PastStays(c); }
    }

    method World(l: Link, ghost k: nat)
      requires Valid() && k < |list.links| && list.links[k] == l
      modifies l.conn.repr
      ensures Valid() && list.links == old(list.links) && l.conn.Past() == old(l.conn.Past()).Drifted()
    {
      hide Connection.LiveCore;
      hide Connection.Gone;
      hide Connection.Shape;
      hide Exact;
      ghost var links, held := list.links, Held(list.links);
      assert l in links;
      assert Serving(l);
      RunWorld(l.conn);
      assert Serving(l);
      forall m | m in links && m != l ensures Serving(m) && Timely(m) { OtherServes(m); }
      forall g | g in gone ensures g.Gone() { StaysGone(g); }
      assert Held(links) == held;
    }

    method RunWorld(c: Connection)
      requires Ours(c) && c.LiveCore() && c.sock.port.Armed()
      modifies c.repr
      ensures c.LiveCore() && c.sock.port.Armed() && c.fileFd == old(c.fileFd) && c.fileContent == old(c.fileContent)
      ensures c.lastActivity == old(c.lastActivity) && c.Past() == old(c.Past()).Drifted()
    {
      hide Connection.LiveCore;
      hide Connection.Past;
      c.WorldMoves();
    }

    // accept_new_connections(): drains the backlog, up to the first error.
    method AcceptNewConnections(backlog: seq<Pending>)
      requires Valid()
      modifies this`accepted, this`gone, this`repr, list, fds, repr
      ensures Valid() && fresh(repr - old(repr)) && Admits(Admitted(backlog), old(Snapshot()), Snapshot())
    {
      hide ValidBut;
      hide Pasts;
      hide Admits;
      var rest := backlog;
      ghost var done: seq<seq<Tick>> := [];
      Separate();
      AdmitsNothing(Snapshot());
      assert Admitted(rest) + [] == Admitted(rest);
      while rest != [] && !rest[0].Trouble?
        invariant Valid() && fresh(repr - old(repr)) && now == old(now) && lastSweep == old(lastSweep)
        invariant Admitted(backlog) == Admitted(rest) + done && Admits(done, old(Snapshot()), Snapshot())
        decreases |rest|
      {
        Separate();
        ghost var before := Snapshot();
        if rest[0].Peer? && rest[0].memory {
          ghost var one := if rest[0].registered then [rest[0].script] else [];
          Accept(rest[0].script, rest[0].registered);
          AdmitsMore(done, one, old(Snapshot()), before, Snapshot());
          assert Admitted(rest[1..]) + one + done == Admitted(rest[1..]) + (one + done);
          done := one + done;
        }
        rest := rest[1..];
      }
      assert [] + done == done;
    }

    // The new connection goes to the front; one that cannot be registered is closed at once.
    method Accept(script: seq<Tick>, registered: bool)
      requires Valid()
      modifies this`accepted, this`gone, this`repr, list, fds, repr
      ensures Valid() && fresh(repr - old(repr)) && now == old(now) && lastSweep == old(lastSweep)
      ensures Admits(if registered then [script] else [], old(Snapshot()), Snapshot())
    {
      hide ValidBut;
      hide Pasts;
      hide Admits;
      hide Keeps;
      hide OnlyMoves;
      Separate();
      ghost var before := Snapshot();
      var l := Enlist(script);
      ghost var between := Snapshot();
      AdmitsOne(before, between, l, script);
      if !registered {
        Close(l, 0);
        AdmitsNone(before, between, Snapshot(), l, script);
      }
    }

    method Enlist(script: seq<Tick>) returns (l: Link)
      requires Valid()
      modifies this`accepted, this`repr, list, list.links
      ensures Valid() && fresh(repr - old(repr)) && list.links == [l] + old(list.links)
      ensures Keeps(old(Pasts()), Pasts()) && Pasts().Keys == old(Pasts()).Keys + {l.conn}
      ensures l.conn !in old(Pasts()) && Pasts()[l.conn] == Fresh(script, now)
    {
      hide ValidBut;
      hide Config.Valid;
      hide Descriptors.Valid;
      hide Connection.Shape;
      hide Connection.Past;
      hide Connection.LiveCore;
      hide Connection.Owns;
      hide Port.Armed;
      Separate();
      AcceptedAreOurs(null);
      var c := Open(script);
      l := new Link(c);
      label AfterOpen:
      Admit(l);
      forall g | g in old(accepted) ensures g.Past() == old(g.Past()) { PastStays(g); }
      PastStays@AfterOpen(c);
    }

    method Open(script: seq<Tick>) returns (c: Connection)
      requires cfg.Valid() && fds.Valid()
      ensures Ours(c) && fresh(c) && fresh(c.repr) && c.LiveCore() && c.Owns() && c.sock.port.Armed()
      ensures c.fileFd == -1 && c.lastActivity == now && c.Past() == Fresh(script, now)
    {
      c := new Connection(cfg, fds, script, now);
      FreshIsOurs(c);
      c.AcceptedIsFresh(script);
      c.AcceptedIsLive();
      hide Connection.LiveCore;
    }

    lemma ApartGrows(links: seq<Link>, gone: set<Connection>, l: Link)
      requires Apart(links, gone) && Ours(l.conn)
      requires Stranger(l.conn, links, gone)
      ensures Apart([l] + links, gone)
    {
      hide Connection.Shape;
    }

    lemma AccountGrows(links: seq<Link>, l: Link)
      requires Ours(l.conn) && Enclosed(links, repr) && Accounted(links, gone, accepted)
      ensures Enclosed([l] + links, repr + l.conn.repr + {l})
      ensures Accounted([l] + links, gone, accepted + {l.conn})
    {
      hide Connection.Shape;
    }

    // Puts a serving connection on the list.
    method Admit(l: Link)
      requires Valid() && Ours(l.conn) && Serving(l) && l.conn.fileFd == -1 && l.conn.lastActivity == now
      requires l !in list.links && Stranger(l.conn, list.links, gone)
      modifies this`accepted, this`repr, list, list.links, l
      ensures Valid() && list.links == [l] + old(list.links) && repr == old(repr) + l.conn.repr + {l}
      ensures accepted == old(accepted) + {l.conn}
    {
      hide Connection.LiveCore;
      hide Connection.Gone;
      hide Connection.Shape;
      hide Exact;
      hide ConnectionList.Valid;
      hide Accounted;
      hide Enclosed;
      hide Stranger;
      hide Apart;
      ghost var links, held := list.links, Held(list.links);
      ApartOurs(links, gone);
      ApartGrows(links, gone, l);
      AccountGrows(links, l);
      list.Insert(l);
      repr, accepted := repr + l.conn.repr + {l}, accepted + {l.conn};
      OtherServes(l);
      forall m | m in links ensures Serving(m) && Timely(m) { OtherServes(m); }
      forall g | g in gone ensures g.Gone() { StaysGone(g); }
      assert Held(links) == held;
      hide Serving;
      AdmitHeld(links, l);
    }

    lemma ApartOurs(links: seq<Link>, gone: set<Connection>)
      requires Apart(links, gone)
      ensures (forall l :: l in links ==> Ours(l.conn)) && (forall c :: c in gone ==> Ours(c))
    {
      hide Ours;
    }

    lemma AdmitHeld(links: seq<Link>, l: Link)
      requires Exact(Held(links), fds.open) && l.conn.fileFd == -1
      ensures Exact(Held([l] + links), fds.open)
      ensures forall m :: m in [l] + links ==> m == l || m in links
    {
      hide Exact;
      ExactMore(Held(links), fds.open);
      assert Held([l] + links) == [-1] + Held(links);
    }

    lemma FreshIsOurs(c: Connection)
      requires c.cfg == cfg && c.fds == fds && c.Shape()
      ensures Ours(c)
    {}

    // ---- Idle connections ------------------------------------------------------------------------------------------

    // Looks at one connection and says which comes next; the next one is read off before anything is unhooked.
    method SweepOne(l: Link, ghost k: nat) returns (next: Link?)
      requires Valid() && k < |list.links| && list.links[k] == l
      modifies this`gone, list, fds, repr
      ensures Valid() && repr == old(repr) && accepted == old(accepted)
      ensures next == if k + 1 < |old(list.links)| then old(list.links)[k + 1] else null
      ensures old(Names(Snapshot(), k)) &&
              if old(Last(Pasts(), l)) <= now - idleTimeout then Loses(old(Snapshot()), Snapshot(), k)
              else Snapshot() == old(Snapshot())
    {
      hide ValidBut;
      hide Loses;
      NextLink(k);
      WithinRepr(k);
      Separated(k);
      next := l.next;
      if now - l.conn.lastActivity >= idleTimeout {
        Close(l, k);
      }
    }

    lemma NextLink(k: nat)
      requires Valid() && k < |list.links|
      ensures list.links[k].next == if k + 1 < |list.links| then list.links[k + 1] else null
      ensures list.first == if list.links == [] then null else list.links[0]
    {
      hide Connection.LiveCore;
      hide Connection.Gone;
      hide Exact;
    }

    // Closes every connection whose last activity is at least the timeout ago; the others keep their order.
    method Sweep()
      requires Valid()
      modifies this`gone, this`lastSweep, list, fds, repr
      ensures Valid() && lastSweep == now == old(now) && repr == old(repr) && accepted == old(accepted)
      ensures Sweeps(old(Snapshot()), Snapshot(), now - idleTimeout)
    {
      hide ValidBut;
      hide Pasts;
      hide Ends;
      hide Swept;
      hide Place;
      hide Survivors;
      hide Idle;
      ghost var all, h, limit := list.links, Pasts(), now - idleTimeout;
      var l := list.first;
      ghost var i := 0;
      FirstLink();
      SweptEnds(all, h, limit);
      SweepBegins(all, h, limit);
      while l != null
        invariant Valid() && repr == old(repr) && now == old(now) && accepted == old(accepted)
        invariant 0 <= i <= |all| && l == (if i < |all| then all[i] else null)
        invariant list.links == Swept(all, h, limit, i) && Ends(h, Pasts(), Idle(all[..i], h, limit))
        decreases |all| - i
      {
        SweptStep(all, h, limit, i);
        ghost var k, before := Place(all, h, limit, i), Snapshot();
        l := SweepOne(l, k);
        SweepGoesOn(all, h, limit, i, before, Snapshot(), k);
        i := i + 1;
      }
      assert all[..i] == all;
      SweepLeavesRecent(all, h, limit);
      MarkSwept();
    }

    // The accounting of one sweep.
    lemma SweepBegins(all: seq<Link>, h: Histories, limit: int)
      ensures Idle(all[..0], h, limit) == {} && Ends(h, h, {})
    {}

    lemma SweepGoesOn(all: seq<Link>, h: Histories, limit: int, i: nat, a: Moment, b: Moment, k: nat)
      requires i < |all| && Names(a, k) && a.links[k] == all[i] && Ends(h, a.histories, Idle(all[..i], h, limit))
      requires if Last(a.histories, all[i]) <= limit then Loses(a, b, k) else b == a
      ensures Ends(h, b.histories, Idle(all[..i + 1], h, limit))
      ensures b.links == if Last(h, all[i]) > limit then a.links else Without(a.links, k)
    {
      var l, dead := all[i], Idle(all[..i], h, limit);
      assert all[..i + 1] == all[..i] + [l];
      assert Last(a.histories, l) == Last(h, l);
      assert Idle(all[..i + 1], h, limit) == if Last(h, l) <= limit then dead + {l.conn} else dead;
      if Last(h, l) <= limit { EndsMore(h, a.histories, dead, b.histories, l.conn); }
    }

    lemma SweepLeavesRecent(all: seq<Link>, h: Histories, limit: int)
      requires Valid() && list.links == Survivors(all, h, limit) && Ends(h, Pasts(), Idle(all, h, limit))
      ensures forall l :: l in list.links ==> l.conn.lastActivity > limit
    {
      hide ValidBut;
      hide Survivors;
      SurvivorsAreRecent(all, h, limit);
      forall l | l in list.links ensures l.conn.lastActivity > limit {
        LinkIsAccepted(l);
        assert Last(h, l) == Last(Pasts(), l);
      }
    }

    lemma LinkIsAccepted(l: Link)
      requires Valid() && l in list.links
      ensures l.conn in accepted
    {
      hide Connection.LiveCore;
      hide Connection.Gone;
      hide Exact;
    }

    method MarkSwept()
      requires Valid() && forall l :: l in list.links ==> l.conn.lastActivity > now - idleTimeout
      modifies this`lastSweep
      ensures Valid() && lastSweep == now && Pasts() == old(Pasts())
    {
      hide Connection.LiveCore;
      hide Connection.Gone;
      hide Connection.Shape;
      hide Exact;
      lastSweep := now;
      forall m | m in list.links ensures Serving(m) { OtherServes(m); }
      forall g | g in gone ensures g.Gone() { StaysGone(g); }
      assert Held(list.links) == old(Held(list.links));
    }

    // Time moves; however it does, the next sweep comes within five seconds and the lag.
    method TimePasses(dt: nat)
      requires Valid() && Punctual()
      modifies this`now, this`gone, this`lastSweep, list, fds, repr
      ensures Valid() && Punctual() && repr == old(repr) && Env().Effect(Elapse(dt), old(Snapshot()), Snapshot())
    {
      hide ValidBut;
      hide Sweeps;
      hide Pasts;
      Separate();
      NobodyOverdue();
      LinksAreAccepted();
      var until := now + dt;
      while now < until
        invariant Valid() && Punctual() && repr == old(repr) && now <= until && accepted == old(accepted)
        invariant Sweeps(old(Snapshot()), Snapshot(), lastSweep - idleTimeout)
        invariant lastSweep == old(lastSweep) || old(lastSweep) + Env().Period() <= lastSweep
        decreases until - now, now - lastSweep
      {
        var deadline := lastSweep + IDLE_SWEEP_INTERVAL_SECONDS + lag;
        ghost var first := lastSweep - idleTimeout;
        if until < deadline {
          ghost var before := Snapshot();
          SetClock(until);
          SweepsRegardless(old(Snapshot()), before, Snapshot(), first);
        } else {
          ghost var early := Snapshot();
          SetClock(deadline);
          SweepsRegardless(old(Snapshot()), early, Snapshot(), first);
          ghost var before := Snapshot();
          Sweep();
          SweepsAgain(old(Snapshot()), before, Snapshot(), first, lastSweep - idleTimeout);
        }
      }
    }

    // The clock itself does not matter to what was swept.
    lemma SweepsRegardless(a: Moment, b: Moment, c: Moment, limit: int)
      requires Sweeps(a, b, limit) && c == b.(now := c.now)
      ensures Sweeps(a, c, limit)
    {
      hide Survivors;
    }

    lemma NobodyOverdue()
      requires Valid()
      ensures Sweeps(Snapshot(), Snapshot(), lastSweep - idleTimeout)
    {
      hide Connection.LiveCore;
      hide Connection.Gone;
      hide Exact;
      hide Sweeps;
      forall l | l in list.links ensures Last(Pasts(), l) > lastSweep - idleTimeout {
        LinkIsAccepted(l);
        assert Timely(l);
      }
      SweepsNothing(Snapshot(), lastSweep - idleTimeout);
    }

    lemma LinksAreAccepted()
      requires Valid()
      ensures forall l :: l in list.links ==> l.conn in Pasts()
    {
      hide ValidBut;
      forall l | l in list.links ensures l.conn in Pasts() { LinkIsAccepted(l); }
    }

    method SetClock(at: int)
      requires Valid() && now <= at
      modifies this`now
      ensures Valid() && now == at && Pasts() == old(Pasts())
    {
      hide Connection.LiveCore;
      hide Connection.Gone;
      hide Connection.Shape;
      hide Exact;
      now := at;
      forall m | m in list.links ensures Serving(m) && Timely(m) { OtherServes(m); }
      forall g | g in gone ensures g.Gone() { StaysGone(g); }
      assert Held(list.links) == old(Held(list.links));
    }

    // ---- Shutdown --------------------------------------------------------------------------------------------------

    // Closes every connection; every file that was ever opened is closed again.
    method CloseAll()
      requires Valid()
      modifies this`gone, list, fds, repr
      ensures Valid() && repr == old(repr) && list.links == [] && fds.open == map[] && fds.opens == fds.closes
      ensures accepted == old(accepted) && forall c :: c in accepted ==> c.Gone()
      ensures Shuts(old(Snapshot()), Snapshot())
    {
      hide ValidBut;
      hide Pasts;
      hide Shutting;
      hide OnlyMoves;
      hide Connection.Gone;
      FirstLink();
      Separate();
      ghost var first := Snapshot();
      ShuttingBegins(first);
      while list.first != null
        invariant Valid() && repr == old(repr) && accepted == old(accepted) && Shutting(first, Snapshot())
        invariant list.first == if list.links == [] then null else list.links[0]
        decreases |list.links|
      {
        ghost var before := Snapshot();
        Close(list.first, 0);
        ShuttingGoesOn(first, before, Snapshot());
        FirstLink();
      }
      AllClosed();
      NoneIsOpen();
      ShutWhenNoneIsOpen(first, Snapshot());
    }

    // Some histories have ended, the others are as they were.
    ghost predicate Shutting(a: Moment, b: Moment) {
      a.histories.Keys == b.histories.Keys &&
      forall c :: c in a.histories ==>
                    b.histories[c] == a.histories[c] ||
                    (a.histories[c].open && b.histories[c] == a.histories[c].Closed())
    }

    lemma ShuttingGoesOn(a: Moment, b: Moment, c: Moment)
      requires Shutting(a, b) && Names(b, 0) && Loses(b, c, 0)
      ensures Shutting(a, c)
    {}

    lemma ShuttingBegins(a: Moment)
      ensures Shutting(a, a)
    {}

    lemma NoneIsOpen()
      requires forall c :: c in accepted ==> c.Gone()
      ensures forall c :: c in Pasts() ==> !Pasts()[c].open
    {
      hide Connection.Past;
      hide Connection.Gone;
      forall c | c in accepted ensures !c.Past().open { GoneIsClosed(c); }
    }

    lemma ShutWhenNoneIsOpen(a: Moment, b: Moment)
      requires Shutting(a, b) && b.links == [] && forall c :: c in b.histories ==> !b.histories[c].open
      ensures Shuts(a, b)
    {}

    lemma AllClosed()
      requires Valid() && list.links == []
      ensures fds.open == map[] && fds.opens == fds.closes && forall c :: c in accepted ==> c.Gone()
    {
      hide Connection.LiveCore;
      hide Connection.Gone;
      assert Held(list.links) == [];
      assert forall fd :: fd !in fds.open;
    }

    lemma Separate()
      requires Valid()
      ensures cfg.Valid() && fds.Valid() && this !in repr && list !in repr && fds !in repr
      ensures forall l :: l in list.links ==> l in repr
    {
      hide Connection.LiveCore;
      hide Connection.Gone;
      hide Exact;
    }

    lemma FirstLink()
      requires Valid()
      ensures list.first == if list.links == [] then null else list.links[0]
    {
      hide Connection.LiveCore;
      hide Connection.Gone;
      hide Exact;
    }

    // ---- Whole runs ------------------------------------------------------------------------------------------------

    // Walks to the given place of the list.
    method Find(which: nat) returns (l: Link?)
      requires Valid()
      ensures l == if which < |list.links| then list.links[which] else null
    {
      hide ValidBut;
      l := list.first;
      FirstLink();
      var i := 0;
      while l != null && i < which
        invariant i <= which && l == if i < |list.links| then list.links[i] else null
      {
        NextLink(i);
        l := l.next;
        i := i + 1;
      }
    }

    // One event, whatever it is.
    method Step(e: Event)
      requires Valid() && Punctual()
      modifies this, list, fds, repr
      ensures Valid() && Punctual() && fresh(repr - old(repr)) && Env().Effect(e, old(Snapshot()), Snapshot())
    {
      hide ValidBut;
      hide Pasts;
      hide Handled;
      hide Admits;
      hide Sweeps;
      hide Loses;
      Separate();
      match e {
        case Arrivals(backlog) => AcceptNewConnections(backlog);
        case Elapse(dt) => TimePasses(dt);
        case Expiry => Sweep();
        case Wakeup(which) =>
          var l := Find(which);
          if l != null {
            InPasts(which);
            if l.conn.sock.port.due {
              ghost var before := Snapshot();
              Dispatch(l, which);
              InPastsAlways(l.conn);
            }
          }
        case Elsewhere(which) =>
          var l := Find(which);
          if l != null {
            WithinRepr(which);
            InPasts(which);
            Drift(l, which);
          }
        case HangUp(which) =>
          var l := Find(which);
          if l != null {
            Close(l, which);
          }
      }
    }

    lemma InPasts(k: nat)
      requires Valid() && k < |list.links|
      ensures var c := list.links[k].conn;
              c in accepted && c in Pasts() && Pasts()[c] == c.Past() && c.Past().port == c.sock.port
    {
      hide ValidBut;
      LinkIsAccepted(list.links[k]);
    }

    lemma InPastsAlways(c: Connection)
      requires c in accepted
      ensures c in Pasts() && Pasts()[c] == c.Past() && c.Past().open == c.sock.open
    {}

    // The invariant, said of the moment.
    lemma ValidIsOrderly()
      requires Valid() && Punctual()
      ensures Env().Orderly(Snapshot())
    {
      hide Connection.LiveCore;
      hide Connection.Gone;
      hide Connection.Past;
      hide History.Faithful;
      hide History.Alert;
      hide Exact;
      forall l | l in list.links
        ensures l.conn in accepted && l.conn.Past().open && l.conn.Past().Faithful(cfg) && l.conn.Past().Alert()
        ensures l.conn.Past().last <= now && lastSweep - l.conn.Past().last < idleTimeout
      {
        assert Serving(l) && Timely(l);
        LiveIsFaithful(l.conn);
        ClockOfPast(l.conn);
      }
      forall c | c in gone ensures !c.Past().open && c.Past().Faithful(cfg) && c.Past().Alert() {
        GoneIsFaithful(c);
        GoneIsClosed(c);
      }
    }

    lemma ClockOfPast(c: Connection)
      ensures c.Past().last == c.lastActivity
    {}

    lemma GoneIsClosed(c: Connection)
      requires c.Gone()
      ensures !c.Past().open
    {
      hide WireOf;
      hide Serve;
    }

    // Any events, recorded moment by moment.
    method Proceed(events: seq<Event>) returns (ghost moments: seq<Moment>)
      requires Valid() && Punctual()
      modifies this, list, fds, repr
      ensures Valid() && Punctual() && fresh(repr - old(repr))
      ensures Env().IsRun(events, moments) && moments[0] == old(Snapshot()) && moments[|events|] == Snapshot()
    {
      hide ValidBut;
      hide Snapshot;
      hide Setting.Effect;
      hide Setting.Orderly;
      moments := [Snapshot()];
      ValidIsOrderly();
      for i := 0 to |events|
        invariant Valid() && Punctual() && fresh(repr - old(repr))
        invariant |moments| == i + 1 && moments[0] == old(Snapshot()) && moments[i] == Snapshot()
        invariant Env().IsRun(events[..i], moments)
      {
        Step(events[i]);
        ValidIsOrderly();
        moments := moments + [Snapshot()];
        assert forall k :: 0 <= k < i ==> events[..i + 1][k] == events[..i][k];
      }
      assert events[..|events|] == events;
    }

    // Any run of the loop, to its shutdown: in the end nothing is open.
    method Run(events: seq<Event>) returns (ghost moments: seq<Moment>)
      requires Valid() && Punctual()
      modifies this, list, fds, repr
      ensures Valid() && list.links == [] && fds.open == map[] && fds.opens == fds.closes
      ensures Env().IsRun(events, moments) && moments[0] == old(Snapshot()) && Shuts(moments[|events|], Snapshot())
      ensures forall c :: c in accepted ==> c.Gone()
    {
      hide ValidBut;
      hide Snapshot;
      hide Setting.IsRun;
      hide Shuts;
      hide Connection.Gone;
      moments := Proceed(events);
      CloseAll();
    }

    // ---- What the invariant says of the objects --------------------------------------------------------------------

    // No wakeup is lost: a live connection whose registered direction is ready has an event due.
    lemma NoLostWakeup(l: Link)
      requires Valid() && l in list.links
      ensures l.conn.sock.open
      ensures l.conn.sock.port.interest == if l.conn.awaitingWritable then Out else In
      ensures !l.conn.awaitingWritable && l.conn.sock.port.Readable() ==> l.conn.sock.port.due
      ensures l.conn.awaitingWritable && l.conn.sock.port.room ==> l.conn.sock.port.due
    {
      hide Tracks;
      hide Owed;
      hide WireOf;
      hide Serve;
      hide Exact;
      hide RequestParser.Valid;
      hide Connection.Gone;
      assert Serving(l);
    }

    // Every open file belongs to exactly one live connection, and as many files were opened as closed or still open.
    lemma FilesAreConserved(fd: int)
      requires Valid() && fd in fds.open
      ensures exists l :: l in list.links && l.conn.fileFd == fd
      ensures forall l, m :: l in list.links && m in list.links && l.conn.fileFd == fd && m.conn.fileFd == fd ==> l == m
      ensures fds.opens == fds.closes + |fds.open|
    {
      hide Connection.LiveCore;
      hide Connection.Gone;
      hide Connection.Shape;
      var held := Held(list.links);
      var i :| 0 <= i < |held| && held[i] == fd;
      assert list.links[i] in list.links && list.links[i].conn.fileFd == fd;
      forall l, m | l in list.links && m in list.links && l.conn.fileFd == fd && m.conn.fileFd == fd ensures l == m {
        var a :| 0 <= a < |held| && list.links[a] == l;
        var b :| 0 <= b < |held| && list.links[b] == m;
        assert held[a] == held[b] == fd;
      }
    }

    // A connection none of whose objects changed, and whose file is still open, serves as before.
    twostate lemma OtherServes(l: Link)
      requires Ours(l.conn) && unchanged(l.conn.repr) && old(Serving(l)) && fds.Valid()
      requires l.conn.fileFd >= 0 ==>
                 l.conn.fileFd in old(fds.open) && l.conn.fileFd in fds.open &&
                 fds.open[l.conn.fileFd] == old(fds.open[l.conn.fileFd])
      ensures Serving(l)
    {
      hide Connection.LiveCore;
    }
  }

  // A loop that got there by its own steps: at the last sweep, the last read of its open connection is a whole timeout
  // ago.
  method SlowReaderExists(cfg: Config, idleTimeout: nat, lag: nat)
    returns (loop: EventLoop, ghost moments: seq<Moment>, ghost c: Connection)
    requires cfg.Valid() && idleTimeout > 0
    ensures loop.Valid() && loop.Env() == Setting(cfg, idleTimeout, lag)
    ensures loop.Env().IsRun(SlowEvents(SLOW_TEXT, idleTimeout), moments)
    ensures moments[0] == Moment(0, 0, [], map[]) && moments[9] == loop.Snapshot()
    ensures moments[3].now == 0 && moments[9].now == moments[9].lastSweep == idleTimeout
    ensures forall k :: 3 <= k <= 9 ==> c in moments[k].histories && moments[k].histories[c].received == SLOW_TEXT
    ensures moments[9].histories[c].open
  {
    hide EventLoop.ValidBut;
    hide Setting.IsRun;
    hide Serve;
    var r := SlowTextIsServed(cfg);
    loop := new EventLoop(cfg, idleTimeout, lag, 0);
    assert loop.Pasts() == map[];
    moments := loop.Proceed(SlowEvents(SLOW_TEXT, idleTimeout));
    c := SlowReaderSurvives(loop.Env(), SLOW_TEXT, r, moments);
  }

  twostate lemma PastStays(c: Connection)
    requires c.Shape() && unchanged(c.repr)
    ensures c.Past() == old(c.Past())
  {}

  twostate lemma StaysGone(c: Connection)
    requires c.Shape() && unchanged(c.repr) && old(c.Gone())
    ensures c.Gone()
  {
    hide Connection.Gone;
  }
}
