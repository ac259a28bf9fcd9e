/** The loop's intrusive doubly linked list of connections (src/event_loop.c), as the sequence it stands for. */
module Lists {
  import opened Connections

  // The list links of one connection.
  class Link {
    const conn: Connection
    var prev: Link?
    var next: Link?

    constructor (conn: Connection)
      ensures this.conn == conn && prev == null && next == null
    {
      this.conn := conn;
      prev, next := null, null;
    }
  }

  ghost predicate Distinct(links: seq<Link>) { forall i, j :: 0 <= i < j < |links| ==> links[i] != links[j] }

  // The links spell exactly this sequence, in both directions.
  ghost predicate Linked(first: Link?, links: seq<Link>)
    reads links
  {
    first == (if links == [] then null else links[0]) &&
    (forall i {:trigger links[i].prev} :: 0 <= i < |links| ==>
        links[i].prev == if i == 0 then null else links[i - 1]) &&
    (forall i {:trigger links[i].next} :: 0 <= i < |links| ==>
        links[i].next == if i == |links| - 1 then null else links[i + 1])
  }

  ghost function ConnectionsOf(links: seq<Link>): set<Connection> { set l | l in links :: l.conn }

  ghost function Without(links: seq<Link>, k: nat): seq<Link>
    requires k < |links|
  { links[..k] + links[k + 1..] }

  class ConnectionList {
    var first: Link?
    ghost var links: seq<Link>

    ghost predicate Valid()
      reads this, links
    { Distinct(links) && Linked(first, links) }

    constructor ()
      ensures Valid() && links == []
    {
      first, links := null, [];
    }

    // list_insert: the new connection goes to the front.
    method Insert(l: Link)
      requires Valid() && l !in links
      modifies this, l, links
      ensures Valid() && links == [l] + old(links)
    {
      l.prev, l.next := null, first;
      if first != null {
        first.prev := l;
      }
      first := l;
      links := [l] + links;
    }

    // list_remove: unhooks a link that is somewhere in the list.
    method Remove(l: Link, ghost k: nat)
      requires Valid() && k < |links| && links[k] == l
      modifies this, links
      ensures Valid() && links == Without(old(links), k)
      ensures l.next == old(l.next)
    {
      if l.prev != null {
        l.prev.next := l.next;
      } else {
        first := l.next;
      }
      if l.next != null {
        l.next.prev := l.prev;
      }
      links := Without(links, k);
    }
  }

  // ---- The idle sweep ----------------------------------------------------------------------------------------------

  type Histories = map<Connection, History>

  ghost function Last(h: Histories, l: Link): int { if l.conn in h then h[l.conn].last else 0 }

  // The links last active after the limit, in order.
  ghost function Survivors(links: seq<Link>, h: Histories, limit: int): seq<Link>
    decreases |links|
  {
    if links == [] then []
    else
      var n := |links| - 1;
      Survivors(links[..n], h, limit) + (if Last(h, links[n]) > limit then [links[n]] else [])
  }

  // The connections of the others.
  ghost function Idle(links: seq<Link>, h: Histories, limit: int): set<Connection> {
    set l | l in links && Last(h, l) <= limit :: l.conn
  }

  // The list when the first i connections have been looked at, and where the next one stands in it.
  ghost function Swept(links: seq<Link>, h: Histories, limit: int, i: nat): seq<Link>
    requires i <= |links|
  { Survivors(links[..i], h, limit) + links[i..] }

  ghost function Place(links: seq<Link>, h: Histories, limit: int, i: nat): nat
    requires i <= |links|
  { |Survivors(links[..i], h, limit)| }

  lemma SweptEnds(links: seq<Link>, h: Histories, limit: int)
    ensures Swept(links, h, limit, 0) == links
    ensures Swept(links, h, limit, |links|) == Survivors(links, h, limit)
  {
    assert links[..|links|] == links;
  }

  lemma SweptStep(links: seq<Link>, h: Histories, limit: int, i: nat)
    requires i < |links|
    ensures var before, k := Swept(links, h, limit, i), Place(links, h, limit, i);
            k < |before| && before[k] == links[i] &&
            (k + 1 < |before| <==> i + 1 < |links|) && (i + 1 < |links| ==> before[k + 1] == links[i + 1]) &&
            Swept(links, h, limit, i + 1) == if Last(h, links[i]) > limit then before else Without(before, k)
  {
    assert links[..i + 1][..i] == links[..i];
  }

  // Exactly the recent ones survive.
  lemma {:induction false} SurvivorsAreRecent(links: seq<Link>, h: Histories, limit: int)
    ensures forall l :: l in Survivors(links, h, limit) <==> l in links && Last(h, l) > limit
    decreases |links|
  {
    if links != [] {
      var n := |links| - 1;
      SurvivorsAreRecent(links[..n], h, limit);
      assert links == links[..n] + [links[n]];
    }
  }

  lemma {:induction false} SurvivorsAppend(a: seq<Link>, b: seq<Link>, h: Histories, limit: int)
    ensures Survivors(a + b, h, limit) == Survivors(a, h, limit) + Survivors(b, h, limit)
    decreases |b|
  {
    if b == [] {
      assert a + b == a;
    } else {
      var n := |b| - 1;
      SurvivorsAppend(a, b[..n], h, limit);
      assert (a + b)[..|a + b| - 1] == a + b[..n];
    }
  }

  lemma SurvivorsOfOne(links: seq<Link>, h: Histories, limit: int)
    requires |links| <= 1
    ensures Survivors(links, h, limit) == if links != [] && Last(h, links[0]) > limit then links else []
  {
    if links != [] { assert links[..0] == [] && links == [links[0]]; }
  }

  // Sweeping with an earlier limit first changes nothing.
  lemma {:induction false} SurvivorsOfSurvivors(links: seq<Link>, h: Histories, h': Histories, first: int, limit: int)
    requires first <= limit && forall l :: l in links ==> Last(h', l) == Last(h, l)
    ensures Survivors(Survivors(links, h, first), h', limit) == Survivors(links, h, limit)
    decreases |links|
  {
    hide Survivors;
    if |links| <= 1 {
      SurvivorsOfOne(links, h, first);
      SurvivorsOfOne(links, h, limit);
      SurvivorsOfOne(Survivors(links, h, first), h', limit);
    } else {
      var n := |links| - 1;
      var front, back := links[..n], links[n..];
      assert links == front + back;
      SurvivorsOfSurvivors(front, h, h', first, limit);
      SurvivorsOfSurvivors(back, h, h', first, limit);
      SurvivorsAppend(front, back, h, first);
      SurvivorsAppend(front, back, h, limit);
      SurvivorsAppend(Survivors(front, h, first), Survivors(back, h, first), h', limit);
    }
  }

  lemma {:induction false} NobodyIsIdle(links: seq<Link>, h: Histories, limit: int)
    requires forall l :: l in links ==> Last(h, l) > limit
    ensures Survivors(links, h, limit) == links && Idle(links, h, limit) == {}
    decreases |links|
  {
    if links != [] {
      var n := |links| - 1;
      NobodyIsIdle(links[..n], h, limit);
      assert links == links[..n] + [links[n]];
    }
  }
}
