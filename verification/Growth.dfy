/** Two networks become one: the announcements the link protocol sends leave every bot's table drawing the
    links of the joined network. */
module Growth {
  import opened BotTree
  import opened Protocol
  import opened Replay
  import opened Network

  /** A table after a link between `a` (on this side) and `b` (on the other) and `b`'s burst: `v` is the neighbour
      that leads to `b`. */
  function JoinedTable(r: Name, mine: seq<Bot>, v: Name, a: Name, b: Name, ver: int, theirs: seq<Bot>): seq<Bot> {
    mine + [Bot(b, Some(v), if r == a then Me else Node(a), '-', ver)] + Graft(v, b, theirs)
  }

  /** The neighbour of `r` on the way to `a` and on to the other side; `b` itself for the bot that links it. */
  function Toward(net: Net, r: Name, a: Name, b: Name): Name {
    if r == a then b else NextHop(net, r, a).GetOr(b)
  }

  /** The joined network after a link between `a` of `x` and `b` of `y`. */
  function Joined(x: Net, y: Net, a: Name, b: Name, verA: int, verB: int): Net
    requires a in x.tables && b in y.tables
  {
    Net(map r | r in x.tables.Keys + y.tables.Keys ::
          if r in x.tables then JoinedTable(r, x.tables[r], Toward(x, r, a, b), a, b, verB, y.tables[b])
          else JoinedTable(r, y.tables[r], Toward(y, r, b, a), b, a, verA, x.tables[a]),
        x.links + y.links + {(a, b), (b, a)})
  }

  // ----- what a joined table says

  lemma {:induction false} GraftWellFormed(r: Name, base: seq<Bot>, v: Name, b: Name, theirs: seq<Bot>)
    requires WellFormed(r, base) && Listed(base, b) && Find(base, b).value.via == Some(v)
    requires WellFormed(b, theirs)
    requires forall t | t in theirs :: t.name != r && !Listed(base, t.name)
    ensures WellFormed(r, base + Graft(v, b, theirs))
  {
    hide WellFormed, Find, Fits;
    if theirs == [] {
      assert base + Graft(v, b, theirs) == base;
    } else {
      var n := |theirs| - 1;
      var init, last := theirs[..n], theirs[n];
      assert theirs == init + [last];
      WellFormedSnoc(b, init, last);
      assert last in theirs && forall t | t in init :: t in theirs;
      GraftWellFormed(r, base, v, b, init);
      GraftFits(r, base, v, b, init, last);
      GraftSnoc(base, v, b, init, last);
      WellFormedSnoc(r, base + Graft(v, b, init), Grafted(v, b, last));
    }
  }

  lemma GraftSnoc(base: seq<Bot>, v: Name, b: Name, init: seq<Bot>, last: Bot)
    ensures base + Graft(v, b, init + [last]) == (base + Graft(v, b, init)) + [Grafted(v, b, last)]
  {
  }

  lemma GraftFits(r: Name, base: seq<Bot>, v: Name, b: Name, init: seq<Bot>, last: Bot)
    requires Listed(base, b) && Find(base, b).value.via == Some(v)
    requires Fits(b, init, last) && last.name != r && !Listed(base, last.name)
    requires forall t | t in init :: !Listed(base, t.name)
    ensures Fits(r, base + Graft(v, b, init), Grafted(v, b, last))
  {
    FindConcat(base, Graft(v, b, init), last.name);
    FindGraft(v, b, init, last.name);
    var up := Grafted(v, b, last).uplink.name;
    FindConcat(base, Graft(v, b, init), up);
    if last.uplink.Node? {
      FindGraft(v, b, init, up);
      assert Find(init, up).value in init;
    }
  }

  /** The parent of a grafted bot is the one it has at home. */
  lemma {:induction false} ParentInGraft(v: Name, b: Name, theirs: seq<Bot>, y: Name, r: Name)
    requires Listed(theirs, y)
    ensures Listed(Graft(v, b, theirs), y) && Parent(Graft(v, b, theirs), r, y) == Parent(theirs, b, y)
  {
    var n := |theirs| - 1;
    assert Graft(v, b, theirs)[..n] == Graft(v, b, theirs[..n]);
    FindGraft(v, b, theirs, y);
    FindGraft(v, b, theirs[..n], y);
    if Listed(theirs[..n], y) {
      ParentInGraft(v, b, theirs[..n], y, r);
    }
  }

  /** The two sides of a link about to be made, seen from `r` on the first side. */
  ghost predicate Facing(x: Net, y: Net, r: Name, a: Name, b: Name) {
    && Agrees(x) && Agrees(y) && x.tables.Keys !! y.tables.Keys
    && r in x.tables && a in x.tables && b in y.tables
  }

  /** `r`'s table once `b` is in it, before the burst. */
  lemma FirstEntry(x: Net, y: Net, r: Name, a: Name, b: Name, ver: int)
    requires Facing(x, y, r, a, b)
    ensures var v := Toward(x, r, a, b);
      var base := x.tables[r] + [Bot(b, Some(v), if r == a then Me else Node(a), '-', ver)];
      && WellFormed(r, base)
      && (forall z :: Listed(base, z) <==> Listed(x.tables[r], z) || z == b)
      && (forall z | Listed(x.tables[r], z) :: Find(base, z) == Find(x.tables[r], z))
      && Find(base, b) == Some(Bot(b, Some(v), if r == a then Me else Node(a), '-', ver))
  {
    var v := Toward(x, r, a, b);
    var e := Bot(b, Some(v), if r == a then Me else Node(a), '-', ver);
    assert !Listed(x.tables[r], b) && b != r;
    if r != a {
      assert Listed(x.tables[r], a);
      ViaIsDirect(r, x.tables[r], Find(x.tables[r], a).value);
    }
    forall z ensures Find(x.tables[r] + [e], z) ==
      if Listed(x.tables[r], z) then Find(x.tables[r], z) else if z == b then Some(e) else None {
      FindSnoc(x.tables[r], e, z);
    }
    WellFormedSnoc(r, x.tables[r], e);
  }

  lemma JoinedTableSays(x: Net, y: Net, r: Name, a: Name, b: Name, ver: int)
    requires Facing(x, y, r, a, b)
    ensures var t := JoinedTable(r, x.tables[r], Toward(x, r, a, b), a, b, ver, y.tables[b]);
      && WellFormed(r, t)
      && (forall z :: Listed(t, z) <==> (z in x.tables && z != r) || z in y.tables)
      && (forall z | z in x.tables && z != r :: Parent(t, r, z) == Parent(x.tables[r], r, z))
      && Parent(t, r, b) == a
      && (forall z | z in y.tables && z != b :: Listed(y.tables[b], z) && Parent(t, r, z) == Parent(y.tables[b], b, z))
  {
    hide WellFormed, Find;
    var v := Toward(x, r, a, b);
    var base := x.tables[r] + [Bot(b, Some(v), if r == a then Me else Node(a), '-', ver)];
    var theirs := y.tables[b];
    FirstEntry(x, y, r, a, b, ver);
    forall t | t in theirs ensures t.name != r && !Listed(base, t.name) {
      FindListed(b, theirs, t);
      assert Listed(theirs, t.name) && t.name in y.tables && t.name != b;
      assert !Listed(x.tables[r], t.name);
    }
    GraftWellFormed(r, base, v, b, theirs);
    forall z
      ensures Listed(base + Graft(v, b, theirs), z) <==> Listed(base, z) || Listed(theirs, z)
      ensures Listed(base, z) ==> Find(base + Graft(v, b, theirs), z) == Find(base, z)
      ensures !Listed(base, z) ==> Find(base + Graft(v, b, theirs), z) == Find(Graft(v, b, theirs), z)
    {
      FindConcat(base, Graft(v, b, theirs), z);
      FindGraft(v, b, theirs, z);
    }
    forall z | z in y.tables && z != b
      ensures Listed(theirs, z) && Parent(base + Graft(v, b, theirs), r, z) == Parent(theirs, b, z)
    {
      ParentInGraft(v, b, theirs, z, r);
    }
  }

  /** Every table of the first side draws the links of both sides and the new one, and nothing else. */
  lemma JoinedTableDraws(x: Net, y: Net, r: Name, a: Name, b: Name, ver: int, p: Name, q: Name)
    requires Facing(x, y, r, a, b)
    ensures var t := JoinedTable(r, x.tables[r], Toward(x, r, a, b), a, b, ver, y.tables[b]);
      Draws(t, r, p, q) <==> (p, q) in x.links || (p, q) in y.links || (p, q) == (a, b) || (p, q) == (b, a)
  {
    hide WellFormed, Find, JoinedTable, Toward;
    JoinedTableSays(x, y, r, a, b, ver);
    assert (p, q) in x.links <==> Draws(x.tables[r], r, p, q);
    assert (p, q) in y.links <==> Draws(y.tables[b], b, p, q);
  }

  /** One table of a network agrees with its bots and links. */
  ghost predicate RowAgrees(bots: seq<Bot>, r: Name, names: set<Name>, links: set<(Name, Name)>) {
    && WellFormed(r, bots)
    && (forall z :: Listed(bots, z) <==> z in names && z != r)
    && forall p, q :: Draws(bots, r, p, q) <==> (p, q) in links
  }

  lemma AgreesByRow(net: Net)
    requires forall r | r in net.tables :: RowAgrees(net.tables[r], r, net.tables.Keys, net.links)
    ensures Agrees(net)
  {
  }

  lemma JoinedRow(x: Net, y: Net, r: Name, a: Name, b: Name, ver: int)
    requires Facing(x, y, r, a, b)
    ensures RowAgrees(JoinedTable(r, x.tables[r], Toward(x, r, a, b), a, b, ver, y.tables[b]), r,
                      x.tables.Keys + y.tables.Keys, x.links + y.links + {(a, b), (b, a)})
  {
    hide WellFormed, Find, Draws, JoinedTable, Toward, Agrees;
    JoinedTableSays(x, y, r, a, b, ver);
    forall p, q
      ensures Draws(JoinedTable(r, x.tables[r], Toward(x, r, a, b), a, b, ver, y.tables[b]), r, p, q) <==>
              (p, q) in x.links + y.links + {(a, b), (b, a)}
    {
      JoinedTableDraws(x, y, r, a, b, ver, p, q);
    }
  }

  /** Linking one bot of a network to one of another gives a network whose tables agree again. */
  lemma JoinAgrees(x: Net, y: Net, a: Name, b: Name, verA: int, verB: int)
    requires Agrees(x) && Agrees(y) && x.tables.Keys !! y.tables.Keys
    requires a in x.tables && b in y.tables
    ensures Agrees(Joined(x, y, a, b, verA, verB))
  {
    hide JoinedTable, Toward, Agrees, RowAgrees;
    var net := Joined(x, y, a, b, verA, verB);
    assert net.tables.Keys == x.tables.Keys + y.tables.Keys;
    forall r | r in net.tables ensures RowAgrees(net.tables[r], r, net.tables.Keys, net.links) {
      if r in x.tables {
        JoinedRow(x, y, r, a, b, verB);
      } else {
        JoinedRow(y, x, r, b, a, verA);
        assert y.tables.Keys + x.tables.Keys == net.tables.Keys;
        assert y.links + x.links + {(b, a), (a, b)} == net.links;
      }
    }
    AgreesByRow(net);
  }

  // ----- and the protocol computes those tables

  /** A bot of the first side hears of the new link, and of every bot behind it, through the neighbour that leads
      to `a`: its table becomes the joined one. */
  lemma HearsOfLink(x: Net, y: Net, r: Name, a: Name, b: Name, ver: int, s: State, idx: int)
    requires Facing(x, y, r, a, b) && r != a && a != ""
    requires forall z | z in y.tables :: z != "" && GoodName(z)
    requires s.bots == x.tables[r] && Behind(r, s, idx, a)
    ensures Run(r, s, [Announced(idx, Announce(b, a, '!', ver), false)] + Burst(b, y.tables[b], idx)).bots ==
      JoinedTable(r, x.tables[r], Toward(x, r, a, b), a, b, ver, y.tables[b])
  {
    hide WellFormed, Find, Step, Inv;
    var v, theirs := s.dcc[idx].nick, y.tables[b];
    var line := Announce(b, a, '!', ver);
    var e := Announced(idx, line, false);
    AnnounceAccepted(x, y, r, a, b, ver, s, idx);
    StepKeeps(r, s, e);
    var t := Step(r, s, e);
    FirstEntry(x, y, r, a, b, ver);
    forall z | z in theirs ensures NewTo(r, t, z.name) {
      FindListed(b, theirs, z);
      assert Listed(theirs, z.name) && z.name in y.tables && z.name != b;
      assert !Listed(x.tables[r], z.name);
    }
    BurstReplay(r, t, idx, v, b, theirs);
    assert ([e] + Burst(b, theirs, idx))[1..] == Burst(b, theirs, idx);
  }

  lemma AnnounceAccepted(x: Net, y: Net, r: Name, a: Name, b: Name, ver: int, s: State, idx: int)
    requires Facing(x, y, r, a, b) && r != a && a != "" && b != "" && GoodName(b)
    requires s.bots == x.tables[r] && Behind(r, s, idx, a)
    ensures Toward(x, r, a, b) == s.dcc[idx].nick
    ensures Step(r, s, Announced(idx, Announce(b, a, '!', ver), false)) ==
      s.(bots := s.bots + [Bot(b, Some(s.dcc[idx].nick), Node(a), '-', ver)], tands := s.tands + 1)
  {
    hide WellFormed, Find;
    assert !Listed(x.tables[r], b);
    AcceptedStep(r, s, idx, Announce(b, a, '!', ver));
  }

  /** The bot that makes the link gets its joined table from the handshake and the burst, exactly when there is no
      burst or no older running connection to the same bot stands before this one. */
  lemma MakesLink(x: Net, y: Net, a: Name, b: Name, ver: int, s: State, idx: int)
    requires Facing(x, y, a, a, b)
    requires forall z | z in y.tables :: z != "" && GoodName(z)
    requires Inv(a, s) && s.bots == x.tables[a]
    requires 0 <= idx < |s.dcc| && s.dcc[idx] == Link(b, BotNew)
    ensures Run(a, s, [Version(idx, ver, HANDLEN)] + Burst(b, y.tables[b], idx)).bots ==
      JoinedTable(a, x.tables[a], Toward(x, a, a, b), a, b, ver, y.tables[b])
      <==> y.tables[b] == [] || FirstOfItsBot(s, idx)
  {
    hide WellFormed, Find, Step, Inv, Run;
    var theirs := y.tables[b];
    assert !Listed(x.tables[a], b);
    forall z | z in theirs ensures NewTo(a, s, z.name) && z.name != b {
      FindListed(b, theirs, z);
      assert Listed(theirs, z.name) && z.name in y.tables && z.name != b;
      assert !Listed(x.tables[a], z.name);
    }
    LinkAndReplay(a, s, idx, ver, theirs);
  }

  /** A bot on its own is a network whose table agrees. */
  lemma AloneAgrees(r: Name)
    ensures Agrees(Net(map[r := []], {}))
  {
  }
}
