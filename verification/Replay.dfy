/** What a link burst does to the receiver's table. */
module Replay {
  import opened BotTree
  import opened Announcement
  import opened Protocol
  import opened Abort

  // ----- replaying a burst

  function Burst(a: Name, bots: seq<Bot>, idx: int): seq<Event> {
    seq(|bots|, i requires 0 <= i < |bots| => Announced(idx, LineFor(a, bots[i]), false))
  }

  /** The same entry as a bot sees it that reaches `a` through its neighbour `v`. */
  function Grafted(v: Name, a: Name, b: Bot): Bot {
    Bot(b.name, Some(v), Node(if b.uplink.Node? then b.uplink.name else a), if b.share == '!' then '-' else b.share, b.ver)
  }

  function Graft(v: Name, a: Name, bots: seq<Bot>): seq<Bot> {
    seq(|bots|, i requires 0 <= i < |bots| => Grafted(v, a, bots[i]))
  }

  /** `a` is listed, and the running link that leads to it is `idx`. */
  predicate Behind(z: Name, s: State, idx: int, a: Name) {
    && Inv(z, s)
    && LinkedAt(s, idx)
    && FirstLink(s.dcc, s.dcc[idx].nick) == idx
    && Listed(s.bots, a)
    && Find(s.bots, a).value.via == Some(s.dcc[idx].nick)
  }

  lemma FindGraft(v: Name, a: Name, bots: seq<Bot>, who: Name)
    ensures Listed(Graft(v, a, bots), who) <==> Listed(bots, who)
    ensures Listed(Graft(v, a, bots), who) ==> Find(Graft(v, a, bots), who).value.via == Some(v)
  {
    var g := Graft(v, a, bots);
    if Listed(bots, who) {
      var i :| 0 <= i < |bots| && bots[i] == Find(bots, who).value;
      assert g[i] in g;
    }
    if Listed(g, who) {
      var i :| 0 <= i < |g| && g[i] == Find(g, who).value;
      assert bots[i] in bots;
    }
  }

  /** A name `a` may announce to `z`: well-formed, nonempty, and unknown to `z`. */
  predicate NewTo(z: Name, s: State, name: Name) {
    name != "" && GoodName(name) && !InChain(z, s.bots, name)
  }

  function Replayed(s: State, v: Name, a: Name, bots: seq<Bot>): State {
    s.(bots := s.bots + Graft(v, a, bots), tands := s.tands + |bots|)
  }

  /** The parent named in a line leads back to `a`. */
  lemma ParentRoute(z: Name, s: State, idx: int, v: Name, a: Name, bots: seq<Bot>, b: Bot)
    requires Behind(z, s, idx, a) && s.dcc[idx].nick == v
    requires Fits(a, bots, b) && a != ""
    requires forall x | x in bots :: NewTo(z, s, x.name)
    ensures var next := LineFor(a, b).next;
      next != "" && NextBot(s.bots + Graft(v, a, bots), s.dcc, next) == idx
  {
    var next := LineFor(a, b).next;
    FindConcat(s.bots, Graft(v, a, bots), next);
    if b.uplink.Node? {
      FindGraft(v, a, bots, next);
      assert NewTo(z, s, Find(bots, next).value.name);
    }
  }

  lemma ReplayAccepts(z: Name, s: State, idx: int, v: Name, a: Name, bots: seq<Bot>, b: Bot)
    requires Behind(z, s, idx, a) && s.dcc[idx].nick == v
    requires Fits(a, bots, b) && a != ""
    requires forall x | x in bots :: NewTo(z, s, x.name)
    requires NewTo(z, s, b.name)
    ensures Acceptable(z, Replayed(s, v, a, bots), idx, LineFor(a, b), false)
  {
    ParentRoute(z, s, idx, v, a, bots, b);
    FindConcat(s.bots, Graft(v, a, bots), b.name);
    FindGraft(v, a, bots, b.name);
  }

  /** One line of the burst is accepted once all earlier lines have been. */
  lemma ReplayOne(z: Name, s: State, idx: int, v: Name, a: Name, bots: seq<Bot>, b: Bot)
    requires Behind(z, s, idx, a) && s.dcc[idx].nick == v
    requires Fits(a, bots, b) && a != ""
    requires forall x | x in bots :: NewTo(z, s, x.name)
    requires NewTo(z, s, b.name)
    requires Inv(z, Replayed(s, v, a, bots))
    ensures var t := Replayed(s, v, a, bots);
      Step(z, t, Announced(idx, LineFor(a, b), false)) ==
        t.(bots := t.bots + [Grafted(v, a, b)], tands := t.tands + 1)
  {
    ReplayAccepts(z, s, idx, v, a, bots, b);
    AcceptedStep(z, Replayed(s, v, a, bots), idx, LineFor(a, b));
  }

  lemma AcceptedStep(z: Name, t: State, idx: int, line: Announce)
    requires Inv(z, t) && LinkedAt(t, idx) && line.flag != '\0' && Acceptable(z, t, idx, line, false)
    ensures Step(z, t, Announced(idx, line, false)) ==
      t.(bots := t.bots + [Bot(line.newbot, Some(t.dcc[idx].nick), Node(line.next),
                               if line.flag == '!' then '-' else line.flag, line.ver)],
         tands := t.tands + 1)
  {
    AcceptedFits(z, t, idx, line, false);
  }

  /** Replaying the whole burst, line by line, grafts the sender's table below the sender. */
  lemma {:induction false} BurstReplay(z: Name, s: State, idx: int, v: Name, a: Name, bots: seq<Bot>)
    requires Behind(z, s, idx, a) && s.dcc[idx].nick == v && a != ""
    requires WellFormed(a, bots)
    requires forall x | x in bots :: NewTo(z, s, x.name)
    ensures Run(z, s, Burst(a, bots, idx)) == Replayed(s, v, a, bots)
    decreases |bots|
  {
    if bots == [] {
      ReplayNothing(s, v, a);
    } else {
      var n := |bots| - 1;
      var init, last := bots[..n], bots[n];
      assert bots == init + [last];
      WellFormedSnoc(a, init, last);
      BurstReplay(z, s, idx, v, a, init);
      RunKeeps(z, s, Burst(a, init, idx));
      assert last in bots && forall x | x in init :: x in bots;
      ReplayOne(z, s, idx, v, a, init, last);
      BurstSnoc(z, s, v, a, init, last, idx);
    }
  }

  lemma ReplayNothing(s: State, v: Name, a: Name)
    ensures Replayed(s, v, a, []) == s
  {
  }

  lemma BurstSnoc(z: Name, s: State, v: Name, a: Name, init: seq<Bot>, last: Bot, idx: int)
    ensures Run(z, s, Burst(a, init + [last], idx)) ==
      Step(z, Run(z, s, Burst(a, init, idx)), Announced(idx, LineFor(a, last), false))
    ensures var t := Replayed(s, v, a, init);
      Replayed(s, v, a, init + [last]) == t.(bots := t.bots + [Grafted(v, a, last)], tands := t.tands + 1)
  {
    var e := Announced(idx, LineFor(a, last), false);
    var t := Run(z, s, Burst(a, init, idx));
    assert Burst(a, init + [last], idx) == Burst(a, init, idx) + [e];
    RunAppend(z, s, Burst(a, init, idx), [e]);
    assert Run(z, t, [e]) == Step(z, t, e);
    assert Graft(v, a, init + [last]) == Graft(v, a, init) + [Grafted(v, a, last)];
    assert s.bots + Graft(v, a, init + [last]) == (s.bots + Graft(v, a, init)) + [Grafted(v, a, last)];
  }

  /** The bot of connection `idx` is unknown, and so are the bots it knows. */
  predicate MayReplay(z: Name, s: State, idx: int, bots: seq<Bot>)
    requires 0 <= idx < |s.dcc|
  {
    var a := s.dcc[idx].nick;
    && a != "" && !InChain(z, s.bots, a)
    && WellFormed(a, bots)
    && forall x | x in bots :: NewTo(z, s, x.name) && x.name != a
  }

  /** The old table, the neighbour, and the neighbour's table with its routes and roots renamed. */
  function LinkedWith(s: State, idx: int, numver: int, bots: seq<Bot>): State
    requires 0 <= idx < |s.dcc|
  {
    var a := s.dcc[idx].nick;
    State(s.bots + [Bot(a, Some(a), Me, '-', numver)] + Graft(a, a, bots), s.tands + 1 + |bots|, s.users,
          s.dcc[idx := Link(a, Linked)])
  }

  /** No older connection to the same bot stands before this one. */
  predicate FirstOfItsBot(s: State, idx: int)
    requires 0 <= idx < |s.dcc|
  {
    Link(s.dcc[idx].nick, Linked) !in s.dcc[..idx]
  }

  lemma FirstIsFound(dcc: seq<Link>, idx: int)
    requires 0 <= idx < |dcc| && dcc[idx].kind == Linked
    ensures FirstLink(dcc, dcc[idx].nick) == idx <==> dcc[idx] !in dcc[..idx]
  {
  }

  /** The handshake on connection `idx` lists the neighbour. */
  lemma HandshakeDone(z: Name, s: State, idx: int, numver: int, bots: seq<Bot>)
    requires Inv(z, s) && 0 <= idx < |s.dcc| && s.dcc[idx].kind == BotNew && MayReplay(z, s, idx, bots)
    ensures var a, t := s.dcc[idx].nick, LinkUp(z, s, idx, numver, HANDLEN);
      && t == State(s.bots + [Bot(a, Some(a), Me, '-', numver)], s.tands + 1, s.users, s.dcc[idx := Link(a, Linked)])
      && Inv(z, t) && Listed(t.bots, a) && Find(t.bots, a).value.via == Some(a)
      && (forall x | x in bots :: NewTo(z, t, x.name))
      && (FirstLink(t.dcc, a) == idx <==> FirstOfItsBot(s, idx))
  {
    var a := s.dcc[idx].nick;
    var self := Bot(a, Some(a), Me, '-', numver);
    LinkUpKeeps(z, s, idx, numver, HANDLEN);
    assert s.dcc[idx] in s.dcc;
    var t := LinkUp(z, s, idx, numver, HANDLEN);
    FindSnoc(s.bots, self, a);
    forall x | x in bots ensures NewTo(z, t, x.name) {
      FindSnoc(s.bots, self, x.name);
    }
    assert t.dcc[..idx] == s.dcc[..idx];
    FirstIsFound(t.dcc, idx);
  }

  /** Nothing more is heard on a dead connection. */
  lemma {:induction false} Deaf(z: Name, s: State, idx: int, a: Name, bots: seq<Bot>)
    requires !LinkedAt(s, idx)
    ensures Run(z, s, Burst(a, bots, idx)) == s
    decreases |bots|
  {
    if bots != [] {
      Deaf(z, s, idx, a, bots[1..]);
      assert Burst(a, bots, idx)[1..] == Burst(a, bots[1..], idx);
    }
  }

  /** The first line of a burst names the neighbour as parent. */
  lemma FirstLine(a: Name, bots: seq<Bot>)
    requires WellFormed(a, bots) && bots != []
    ensures LineFor(a, bots[0]).next == a && bots[0].share != '\0'
  {
    EntryFits(a, bots, 0);
  }

  /** With an older running connection to the same bot in front, the first line comes from the wrong direction. */
  lemma FirstLineRefused(z: Name, s: State, idx: int, numver: int, bots: seq<Bot>)
    requires Inv(z, s) && 0 <= idx < |s.dcc| && s.dcc[idx].kind == BotNew && MayReplay(z, s, idx, bots)
    requires bots != [] && !FirstOfItsBot(s, idx)
    ensures Run(z, s, [Version(idx, numver, HANDLEN)] + Burst(s.dcc[idx].nick, bots, idx)) ==
      s.(dcc := s.dcc[idx := Link("", Lost)])
  {
    hide *;
    var a, v := s.dcc[idx].nick, [Version(idx, numver, HANDLEN)];
    var first := Announced(idx, LineFor(a, bots[0]), false);
    RefusedAtOnce(z, s, idx, numver, bots);
    var u := Run(z, s, v + [first]);
    assert !LinkedAt(u, idx) by { assert u.dcc[idx].kind == Lost; LostIsDeaf(u, idx); }
    Deaf(z, u, idx, a, bots[1..]);
    BurstHead(a, bots, idx);
    assert v + Burst(a, bots, idx) == v + [first] + Burst(a, bots[1..], idx);
    RunAppend(z, s, v + [first], Burst(a, bots[1..], idx));
  }

  lemma LostIsDeaf(u: State, idx: int)
    requires 0 <= idx < |u.dcc| && u.dcc[idx].kind == Lost
    ensures !LinkedAt(u, idx)
  {
  }

  lemma BurstHead(a: Name, bots: seq<Bot>, idx: int)
    requires bots != []
    ensures Burst(a, bots, idx) == [Announced(idx, LineFor(a, bots[0]), false)] + Burst(a, bots[1..], idx)
  {
  }

  lemma RefusedAtOnce(z: Name, s: State, idx: int, numver: int, bots: seq<Bot>)
    requires Inv(z, s) && 0 <= idx < |s.dcc| && s.dcc[idx].kind == BotNew && MayReplay(z, s, idx, bots)
    requires bots != [] && !FirstOfItsBot(s, idx)
    ensures Run(z, s, [Version(idx, numver, HANDLEN)] + [Announced(idx, LineFor(s.dcc[idx].nick, bots[0]), false)]) ==
      s.(dcc := s.dcc[idx := Link("", Lost)])
  {
    hide Inv, WellFormed, Find, Acceptable;
    var a, v := s.dcc[idx].nick, [Version(idx, numver, HANDLEN)];
    HandshakeDone(z, s, idx, numver, bots);
    FirstLine(a, bots);
    var t := LinkUp(z, s, idx, numver, HANDLEN);
    var first := Announced(idx, LineFor(a, bots[0]), false);
    WrongWay(z, t, idx, first.what);
    assert v + [] == v && v[1..] == [];
    AbortedBurst(z, s, idx, numver, [], first);
    assert PartedKeys(z, t, idx, []) == {} && s.users - {} == s.users;
    assert UpdatedBy(z, t, idx, [], s.bots) == s.bots;
  }

  lemma WrongWay(z: Name, t: State, idx: int, line: Announce)
    requires NextBot(t.bots, t.dcc, line.next) != idx
    ensures !Acceptable(z, t, idx, line, false)
  {
  }

  /** A whole link: the handshake finishes on connection `idx`, then the neighbour's burst arrives. The table is
      replayed exactly when there is nothing to replay or no older running connection to the same bot stands before
      this one; otherwise the first line is refused and the state is the one before the link. */
  lemma LinkAndReplay(z: Name, s: State, idx: int, numver: int, bots: seq<Bot>)
    requires Inv(z, s) && 0 <= idx < |s.dcc| && s.dcc[idx].kind == BotNew && MayReplay(z, s, idx, bots)
    ensures var end := Run(z, s, [Version(idx, numver, HANDLEN)] + Burst(s.dcc[idx].nick, bots, idx));
      && (end == LinkedWith(s, idx, numver, bots) <==> bots == [] || FirstOfItsBot(s, idx))
      && (end != LinkedWith(s, idx, numver, bots) ==> end == s.(dcc := s.dcc[idx := Link("", Lost)]))
  {
    var a, v := s.dcc[idx].nick, Version(idx, numver, HANDLEN);
    HandshakeDone(z, s, idx, numver, bots);
    var t := LinkUp(z, s, idx, numver, HANDLEN);
    assert ([v] + Burst(a, bots, idx))[1..] == Burst(a, bots, idx);
    if bots == [] {
      assert Burst(a, bots, idx) == [] && Graft(a, a, bots) == [];
    } else if FirstOfItsBot(s, idx) {
      BurstReplay(z, t, idx, a, a, bots);
    } else {
      FirstLineRefused(z, s, idx, numver, bots);
    }
  }
}
