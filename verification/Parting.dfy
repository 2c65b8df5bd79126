/** One network becomes two: what the loss of a link leaves in every bot's table are the tables of the two halves,
    and joining two networks and losing the link again gives back the two. */
module Parting {
  import opened BotTree
  import opened Protocol
  import opened Replay
  import opened Network
  import opened Growth

  /** The bots that see `b` hanging below `a`: those on `a`'s side of the link. */
  ghost predicate OnSide(net: Net, a: Name, b: Name, r: Name) {
    r in net.tables && Listed(net.tables[r], b) && Parent(net.tables[r], r, b) == a
  }

  ghost function Side(net: Net, a: Name, b: Name): set<Name> {
    set r | r in net.tables && OnSide(net, a, b, r)
  }

  /** `a`'s side once the link to `b` is gone: every bot drops `b` and what is below it. */
  ghost function Half(net: Net, a: Name, b: Name): Net {
    Net(map r | r in Side(net, a, b) :: Drop(net.tables[r], b),
        set l | l in net.links && OnSide(net, a, b, l.0) && OnSide(net, a, b, l.1))
  }

  lemma OneSide(net: Net, a: Name, b: Name, r: Name)
    requires Agrees(net) && (a, b) in net.links && r in net.tables
    ensures (b, a) in net.links && a in net.tables && b in net.tables && a != b
    ensures OnSide(net, a, b, r) <==> !OnSide(net, b, a, r)
    ensures (r == a ==> OnSide(net, a, b, r)) && (r == b ==> OnSide(net, b, a, r))
  {
    LinkIsParent(net, r, a, b);
    if a != r { Entry(net, r, a); }
    if b != r { Entry(net, r, b); }
  }

  /** Every bot is on one side of a link, and no bot is on both. */
  lemma TwoSides(net: Net, a: Name, b: Name)
    requires Agrees(net) && (a, b) in net.links && a in net.tables
    ensures Side(net, a, b) + Side(net, b, a) == net.tables.Keys && Side(net, a, b) !! Side(net, b, a)
    ensures a in Side(net, a, b) && b in Side(net, b, a)
  {
    hide Agrees, OnSide;
    OneSide(net, a, b, a);
    forall r | r in net.tables
      ensures OnSide(net, a, b, r) <==> !OnSide(net, b, a, r)
      ensures r == b ==> OnSide(net, b, a, r) {
      OneSide(net, a, b, r);
    }
  }

  /** Bots joined by any other link are on the same side. */
  lemma SameSide(net: Net, a: Name, b: Name, p: Name, z: Name)
    requires Agrees(net) && p in net.tables && (p, z) in net.links && b in net.tables
    requires (p, z) != (a, b) && (z, p) != (a, b)
    requires OnSide(net, a, b, p)
    ensures OnSide(net, a, b, z)
  {
    hide Agrees, Find, WellFormed;
    LinkIsParent(net, p, p, z);
    NotOwn(net, p, b);
    var path := WalkTo(net, p, b);
    OnwardParents(net, path, |path| - 1);
    if path[1] == z {
      if z == b {
        assert false;
      }
      Stretch(net, path, 1, |path|);
      var rest := path[1..];
      OnwardParents(net, rest, |rest| - 1);
    } else {
      var longer := [z] + path;
      assert Onward(net, longer) by {
        forall k | 0 <= k < |longer| - 1 ensures (longer[k], longer[k + 1]) in net.links {
          if k > 0 { assert (path[k - 1], path[k]) in net.links; }
        }
        forall k | 0 <= k < |longer| - 2 ensures longer[k] != longer[k + 2] {
          if k > 0 { assert path[k - 1] != path[k + 1]; }
        }
      }
      OnwardParents(net, longer, |longer| - 1);
    }
  }

  lemma NotOwn(net: Net, r: Name, b: Name)
    requires Agrees(net) && r in net.tables && Listed(net.tables[r], b)
    ensures r != b
  {
  }

  /** Seen from `a`'s side, what hangs at `b` is exactly the other side. */
  lemma {:induction false} BehindLink(net: Net, a: Name, b: Name, r: Name, z: Name)
    requires Agrees(net) && (a, b) in net.links && OnSide(net, a, b, r) && z in net.tables && z != r
    ensures z in Closure(net.tables[r], {b}) <==> !OnSide(net, a, b, z)
    decreases Dist(net, r, z)
  {
    hide Agrees, WellFormed, Dist;
    var bots := net.tables[r];
    OneSide(net, a, b, r);
    Entry(net, r, z);
    TableFormed(net, r);
    var p := Parent(bots, r, z);
    ClosureStep(r, bots, {b}, Find(bots, z).value);
    if z == b {
      OneSide(net, a, b, b);
    } else {
      LinkIsParent(net, r, p, z);
      NotUnder(net, a, b, r);
      if p == r {
        NotInOwnTable(net, r, {b});
        SameSide(net, a, b, p, z);
      } else {
        BehindLink(net, a, b, r, p);
        if OnSide(net, a, b, p) { SameSide(net, a, b, p, z); }
        if OnSide(net, a, b, z) { SameSide(net, a, b, z, p); }
      }
    }
  }

  lemma TableFormed(net: Net, r: Name)
    requires Agrees(net) && r in net.tables
    ensures WellFormed(r, net.tables[r])
  {
  }

  lemma NotInOwnTable(net: Net, r: Name, roots: set<Name>)
    requires Agrees(net) && r in net.tables
    ensures r !in Closure(net.tables[r], roots)
  {
    if r in Closure(net.tables[r], roots) { ClosureListed(net.tables[r], roots, r); }
  }

  /** `a` does not hang below `b` where `b` hangs below `a`. */
  lemma NotUnder(net: Net, a: Name, b: Name, r: Name)
    requires Agrees(net) && OnSide(net, a, b, r)
    ensures Listed(net.tables[r], a) ==> Parent(net.tables[r], r, a) != b
  {
    if Listed(net.tables[r], a) {
      Entry(net, r, b);
      Entry(net, r, a);
    }
  }

  /** What the bot `r` is left with. */
  lemma HalfTable(net: Net, a: Name, b: Name, r: Name)
    requires Agrees(net) && (a, b) in net.links && OnSide(net, a, b, r)
    ensures var t := Drop(net.tables[r], b);
      && WellFormed(r, t)
      && (forall z :: Listed(t, z) <==> OnSide(net, a, b, z) && z != r)
      && forall z | Listed(t, z) :: Listed(net.tables[r], z) && Parent(t, r, z) == Parent(net.tables[r], r, z)
  {
    hide OnSide, WellFormed, Closure;
    SideBots(net, a, b, r);
    var bots := net.tables[r];
    PruneWellFormed(r, bots, {b});
    forall z ensures Find(Drop(bots, b), z) == if z in Closure(bots, {b}) then None else Find(bots, z) {
      FindWithout(bots, Closure(bots, {b}), z);
    }
    forall z ensures Listed(Drop(bots, b), z) <==> OnSide(net, a, b, z) && z != r {
      if z in net.tables && z != r { BehindLink(net, a, b, r, z); }
      SideBots(net, a, b, z);
    }
  }

  lemma SideBots(net: Net, a: Name, b: Name, z: Name)
    ensures OnSide(net, a, b, z) ==> z in net.tables
  {
  }

  lemma HalfDraws(net: Net, a: Name, b: Name, r: Name, p: Name, q: Name)
    requires Agrees(net) && (a, b) in net.links && OnSide(net, a, b, r)
    ensures Draws(Drop(net.tables[r], b), r, p, q) <==>
      (p, q) in net.links && OnSide(net, a, b, p) && OnSide(net, a, b, q)
  {
    SideBots(net, a, b, r);
    hide OnSide, WellFormed, Drop, Find, Parent;
    HalfTable(net, a, b, r);
    OneSide(net, a, b, r);
    ParentStays(net, a, b, r, p);
    ParentStays(net, a, b, r, q);
    assert Draws(net.tables[r], r, p, q) <==> (p, q) in net.links;
  }

  /** The parent of a bot that stays also stays. */
  lemma ParentStays(net: Net, a: Name, b: Name, r: Name, p: Name)
    requires Agrees(net) && (a, b) in net.links && OnSide(net, a, b, r)
    ensures OnSide(net, a, b, p) && Listed(net.tables[r], p) ==> OnSide(net, a, b, Parent(net.tables[r], r, p))
  {
    hide Agrees, WellFormed, Find;
    if OnSide(net, a, b, p) && Listed(net.tables[r], p) {
      var q := Parent(net.tables[r], r, p);
      NotOwn(net, r, p);
      Entry(net, r, p);
      LinkIsParent(net, r, q, p);
      NotUnder(net, a, b, r);
      OneSide(net, a, b, r);
      OneSide(net, a, b, b);
      SameSide(net, a, b, p, q);
    }
  }

  /** The half of a network that agreed agrees. */
  lemma HalfAgrees(net: Net, a: Name, b: Name)
    requires Agrees(net) && (a, b) in net.links
    ensures Agrees(Half(net, a, b))
  {
    hide OnSide, WellFormed, Agrees, RowAgrees, Drop;
    var half := Half(net, a, b);
    forall r | r in half.tables ensures RowAgrees(half.tables[r], r, half.tables.Keys, half.links) {
      HalfRow(net, a, b, r);
    }
    AgreesByRow(half);
  }

  lemma HalfRow(net: Net, a: Name, b: Name, r: Name)
    requires Agrees(net) && (a, b) in net.links && OnSide(net, a, b, r)
    ensures RowAgrees(Drop(net.tables[r], b), r, Half(net, a, b).tables.Keys, Half(net, a, b).links)
  {
    hide OnSide, WellFormed, Agrees, Drop, Draws;
    HalfTable(net, a, b, r);
    forall z ensures z in Half(net, a, b).tables <==> OnSide(net, a, b, z) { SideBots(net, a, b, z); }
    forall p, q ensures Draws(Drop(net.tables[r], b), r, p, q) <==> (p, q) in Half(net, a, b).links {
      HalfDraws(net, a, b, r, p, q);
    }
  }

  // ----- the protocol computes the halves

  /** The bot that loses the link drops what was behind it. */
  lemma LosesLink(net: Net, a: Name, b: Name, s: State, idx: int)
    requires Agrees(net) && (a, b) in net.links && a in net.tables
    requires s.bots == net.tables[a] && 0 <= idx < |s.dcc| && s.dcc[idx] == Link(b, Linked)
    ensures a in Side(net, a, b) && Step(a, s, Hangup(idx)).bots == Half(net, a, b).tables[a]
  {
    hide Agrees, OnSide, Closure, Without;
    TwoSides(net, a, b);
  }

  /** Every other bot on that side drops the same bots when it hears that `b` is gone. */
  lemma HearsOfLoss(net: Net, a: Name, b: Name, r: Name, s: State, idx: int)
    requires Agrees(net) && (a, b) in net.links && r in Side(net, a, b)
    requires s.bots == net.tables[r] && Behind(r, s, idx, b)
    ensures Step(r, s, Gone(idx, b)).bots == Half(net, a, b).tables[r]
  {
    hide Inv, Agrees, WellFormed;
  }

  // ----- losing a link undoes making it

  lemma JoinedSides(x: Net, y: Net, a: Name, b: Name, verA: int, verB: int, r: Name)
    requires Facing(x, y, a, a, b)
    ensures OnSide(Growth.Joined(x, y, a, b, verA, verB), a, b, r) <==> r in x.tables
  {
    hide Agrees, WellFormed, JoinedTable, Find;
    var net := Growth.Joined(x, y, a, b, verA, verB);
    JoinAgrees(x, y, a, b, verA, verB);
    if r in x.tables {
      JoinedTableSays(x, y, r, a, b, verB);
    } else if r in y.tables {
      JoinedTableSays(y, x, r, b, a, verA);
      assert OnSide(net, b, a, r);
      OneSide(net, a, b, r);
    }
  }

  lemma JoinedDrop(x: Net, y: Net, a: Name, b: Name, verA: int, verB: int, r: Name)
    requires Facing(x, y, r, a, b)
    ensures Drop(JoinedTable(r, x.tables[r], Toward(x, r, a, b), a, b, verB, y.tables[b]), b) == x.tables[r]
  {
    hide Agrees, WellFormed, Find, Toward, OnSide, Closure;
    var mine := x.tables[r];
    var v := Toward(x, r, a, b);
    var self := Bot(b, Some(v), if r == a then Me else Node(a), '-', verB);
    var rest := [self] + Graft(v, b, y.tables[b]);
    var gone := Closure(JoinedTable(r, mine, v, a, b, verB, y.tables[b]), {b});
    JoinedBehind(x, y, a, b, verA, verB, r);
    TableNames(x, r);
    TableNames(y, b);
    assert forall e | e in rest :: e.name in y.tables;
    WithoutNothing(mine, gone);
    WithoutAll(rest, gone);
    WithoutAppend(mine, rest, gone);
    assert JoinedTable(r, mine, v, a, b, verB, y.tables[b]) == mine + rest;
    assert mine + [] == mine;
  }

  lemma JoinedBehind(x: Net, y: Net, a: Name, b: Name, verA: int, verB: int, r: Name)
    requires Facing(x, y, r, a, b)
    ensures var t := JoinedTable(r, x.tables[r], Toward(x, r, a, b), a, b, verB, y.tables[b]);
      forall z | (z in x.tables || z in y.tables) && z != r :: z in Closure(t, {b}) <==> z !in x.tables
  {
    hide Agrees, WellFormed, Find, Toward, OnSide, Closure, JoinedTable;
    var net := Growth.Joined(x, y, a, b, verA, verB);
    JoinAgrees(x, y, a, b, verA, verB);
    JoinedSides(x, y, a, b, verA, verB, r);
    forall z | z in net.tables && z != r ensures z in Closure(net.tables[r], {b}) <==> z !in x.tables {
      JoinedSides(x, y, a, b, verA, verB, z);
      BehindLink(net, a, b, r, z);
    }
  }

  lemma TableNames(net: Net, r: Name)
    requires Agrees(net) && r in net.tables
    ensures forall e | e in net.tables[r] :: e.name in net.tables && e.name != r
  {
  }

  lemma LinksInside(net: Net, l: (Name, Name))
    requires Agrees(net) && net.tables != map[] && l in net.links
    ensures l.0 in net.tables && l.1 in net.tables
  {
    var r :| r in net.tables;
    LinkIsParent(net, r, l.0, l.1);
  }

  /** Joining two networks and losing the link again leaves the first as it was; by symmetry the second too. */
  lemma PartAfterJoin(x: Net, y: Net, a: Name, b: Name, verA: int, verB: int)
    requires Facing(x, y, a, a, b)
    ensures Half(Growth.Joined(x, y, a, b, verA, verB), a, b) == x
  {
    hide Agrees, OnSide, Drop, JoinedTable, Toward;
    var net := Growth.Joined(x, y, a, b, verA, verB);
    var half := Half(net, a, b);
    forall r ensures OnSide(net, a, b, r) <==> r in x.tables {
      JoinedSides(x, y, a, b, verA, verB, r);
    }
    assert half.tables.Keys == x.tables.Keys;
    forall r | r in x.tables ensures half.tables[r] == x.tables[r] {
      JoinedDrop(x, y, a, b, verA, verB, r);
    }
    assert half.tables == x.tables;
    forall l ensures l in half.links <==> l in x.links {
      if l in x.links { LinksInside(x, l); }
      if l in y.links { LinksInside(y, l); }
    }
  }
}
