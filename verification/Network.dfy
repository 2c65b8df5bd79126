/** A whole network of bots whose tables all draw the same links, and two messages crossing it: one addressed
    to a single bot, one flooded to every bot. */
module Network {
  import opened BotTree
  import opened TreeWalk

  /** The running links, and every bot's own table. */
  datatype Net = Net(tables: map<Name, seq<Bot>>, links: set<(Name, Name)>)

  /** The parent of `y` as the bot `r` sees it. */
  function Parent(bots: seq<Bot>, r: Name, y: Name): Name
    requires Listed(bots, y)
  {
    var b := Find(bots, y).value;
    if b.uplink.Node? then b.uplink.name else r
  }

  /** The table of `r` draws a line between `a` and `b`. */
  predicate Draws(bots: seq<Bot>, r: Name, a: Name, b: Name) {
    (Listed(bots, a) && Parent(bots, r, a) == b) || (Listed(bots, b) && Parent(bots, r, b) == a)
  }

  /** Every bot's table lists all the others and draws exactly the links there are. (A table is a tree, so the
      links are one.) */
  ghost predicate Agrees(net: Net) {
    && (forall r | r in net.tables :: WellFormed(r, net.tables[r]))
    && (forall r, y | r in net.tables :: Listed(net.tables[r], y) <==> y in net.tables && y != r)
    && (forall r, a, b | r in net.tables :: Draws(net.tables[r], r, a, b) <==> (a, b) in net.links)
  }

  /** The neighbour that leads from `x` to `y`, as `nextbot` answers. */
  function NextHop(net: Net, x: Name, y: Name): Option<Name> {
    if x !in net.tables then None else
    var b := Find(net.tables[x], y);
    if b.Some? then b.value.via else None
  }

  function Dist(net: Net, x: Name, y: Name): nat
    requires x in net.tables
  {
    if x == y then 0 else Depth(net.tables[x], Node(y))
  }

  // ----- paths

  /** A walk along links that never turns straight back. */
  predicate Onward(net: Net, path: seq<Name>) {
    && path != []
    && (forall k | 0 <= k < |path| :: path[k] in net.tables)
    && (forall k | 0 <= k < |path| - 1 :: (path[k], path[k + 1]) in net.links)
    && forall k | 0 <= k < |path| - 2 :: path[k] != path[k + 2]
  }

  /** What a table says about one entry. */
  lemma Entry(net: Net, r: Name, y: Name)
    requires Agrees(net) && r in net.tables && y in net.tables && y != r
    ensures Listed(net.tables[r], y)
    ensures var p := Parent(net.tables[r], r, y);
      && p in net.tables && p != y
      && Dist(net, r, y) == 1 + Dist(net, r, p)
      && NextHop(net, r, y) == (if p == r then Some(y) else NextHop(net, r, p))
      && (p, y) in net.links
  {
    var bots := net.tables[r];
    assert Listed(bots, y);
    var b := Find(bots, y).value;
    var i :| 0 <= i < |bots| && bots[i] == b;
    EntryFits(r, bots, i);
    DepthStep(r, bots, i);
    assert Draws(bots, r, Parent(bots, r, y), y);
    if b.uplink.Node? {
      assert Listed(bots, b.uplink.name);
    }
  }

  lemma LinkIsParent(net: Net, r: Name, a: Name, b: Name)
    requires Agrees(net) && r in net.tables && (a, b) in net.links
    ensures (b, a) in net.links && a in net.tables && b in net.tables && a != b
    ensures (a != r && Parent(net.tables[r], r, a) == b) || (b != r && Parent(net.tables[r], r, b) == a)
  {
    var bots := net.tables[r];
    assert Draws(bots, r, a, b) && Draws(bots, r, b, a);
    if Listed(bots, a) { Entry(net, r, a); }
    if Listed(bots, b) { Entry(net, r, b); }
  }

  /** Along an onward walk from `r`, each step is a parent step in `r`'s own table. */
  lemma {:induction false} OnwardParents(net: Net, path: seq<Name>, k: nat)
    requires Agrees(net) && Onward(net, path) && 0 < k < |path|
    ensures path[k] != path[0] && Listed(net.tables[path[0]], path[k])
    ensures Parent(net.tables[path[0]], path[0], path[k]) == path[k - 1]
  {
    var r := path[0];
    assert (path[k - 1], path[k]) in net.links;
    LinkIsParent(net, r, path[k - 1], path[k]);
    if k > 1 {
      OnwardParents(net, path, k - 1);
      assert path[k - 2] != path[k];
    }
  }

  /** So the distance is the number of steps, and the first step is the route. */
  lemma {:induction false} OnwardRoute(net: Net, path: seq<Name>, k: nat)
    requires Agrees(net) && Onward(net, path) && k < |path|
    ensures Dist(net, path[0], path[k]) == k
    ensures k > 0 ==> NextHop(net, path[0], path[k]) == Some(path[1])
  {
    if k > 0 {
      OnwardParents(net, path, k);
      Entry(net, path[0], path[k]);
      OnwardRoute(net, path, k - 1);
    }
  }

  /** Every bot is at the end of an onward walk. */
  lemma {:induction false} WalkTo(net: Net, r: Name, y: Name) returns (path: seq<Name>)
    requires Agrees(net) && r in net.tables && y in net.tables
    ensures Onward(net, path) && path[0] == r && path[|path| - 1] == y
    ensures |path| == Dist(net, r, y) + 1
    ensures r != y ==> |path| >= 2
    decreases Dist(net, r, y)
  {
    hide Agrees, Find, WellFormed, Depth, NextHop;
    if r == y {
      return [r];
    }
    Entry(net, r, y);
    var up := WalkTo(net, r, Parent(net.tables[r], r, y));
    path := up + [y];
    var n := |up|;
    if n >= 2 {
      OnwardRoute(net, up, n - 2);
    }
    WalkOn(net, up, y);
  }

  lemma WalkOn(net: Net, up: seq<Name>, y: Name)
    requires Onward(net, up) && y in net.tables && (up[|up| - 1], y) in net.links
    requires |up| >= 2 ==> up[|up| - 2] != y
    ensures Onward(net, up + [y])
  {
  }

  /** Links run both ways, so a walk can be walked back. */
  lemma LinkBack(net: Net, path: seq<Name>, k: nat)
    requires Agrees(net) && Onward(net, path) && k + 1 < |path|
    ensures (path[k + 1], path[k]) in net.links
  {
  }

  lemma NoTurn(net: Net, path: seq<Name>, k: nat)
    requires Onward(net, path) && k + 2 < |path|
    ensures path[k] != path[k + 2]
  {
  }

  lemma Backwards(net: Net, path: seq<Name>) returns (back: seq<Name>)
    requires Agrees(net) && Onward(net, path)
    ensures Onward(net, back) && |back| == |path| && forall k | 0 <= k < |path| :: back[k] == path[|path| - 1 - k]
  {
    hide Agrees;
    var n := |path|;
    back := seq(n, k requires 0 <= k < n => path[n - 1 - k]);
    forall k | 0 <= k < n - 1 ensures (back[k], back[k + 1]) in net.links {
      LinkBack(net, path, n - 2 - k);
    }
    forall k | 0 <= k < n - 2 ensures back[k] != back[k + 2] {
      NoTurn(net, path, n - 3 - k);
    }
  }

  /** Any stretch of an onward walk is one. */
  lemma Stretch(net: Net, path: seq<Name>, i: nat, j: nat)
    requires Onward(net, path) && i < j <= |path|
    ensures Onward(net, path[i..j])
  {
  }

  /** On a walk, the bot at position `k` reaches the end through `k + 1` and the start through `k - 1`. */
  lemma RoutesOnWalk(net: Net, path: seq<Name>, k: nat)
    requires Agrees(net) && Onward(net, path) && k < |path|
    ensures Dist(net, path[k], path[|path| - 1]) == |path| - 1 - k
    ensures Dist(net, path[k], path[0]) == k
    ensures k < |path| - 1 ==> NextHop(net, path[k], path[|path| - 1]) == Some(path[k + 1])
    ensures k > 0 ==> NextHop(net, path[k], path[0]) == Some(path[k - 1])
  {
    hide Agrees, Onward, Dist, NextHop;
    var n := |path|;
    Stretch(net, path, k, n);
    OnwardRoute(net, path[k..n], n - 1 - k);
    var back := Backwards(net, path);
    Stretch(net, back, n - 1 - k, n);
    OnwardRoute(net, back[n - 1 - k..n], k);
  }

  // ----- a message to one bot

  datatype Zapf =
    | Travelling(prev: Name, at: Name, hops: nat)
    | Handled(at: Name, hops: nat)
    | WrongDirection(at: Name)
    | NoRoute(at: Name)

  /** What the receiving bot does: check the direction, keep it, or pass it on. */
  function ZapfStep(net: Net, from: Name, to: Name, m: Zapf): Zapf
  {
    if !m.Travelling? then m
    else if NextHop(net, m.at, from) != Some(m.prev) then WrongDirection(m.at)
    else if to == m.at then Handled(m.at, m.hops)
    else match NextHop(net, m.at, to)
         case None => NoRoute(m.at)
         case Some(next) => Travelling(m.at, next, m.hops + 1)
  }

  function Send(net: Net, from: Name, to: Name): Zapf {
    match NextHop(net, from, to)
    case None => NoRoute(from)
    case Some(next) => Travelling(from, next, 1)
  }

  function ZapfAfter(net: Net, from: Name, to: Name, steps: nat): Zapf {
    if steps == 0 then Send(net, from, to) else ZapfStep(net, from, to, ZapfAfter(net, from, to, steps - 1))
  }

  lemma {:induction false} ZapfOnWalk(net: Net, path: seq<Name>, k: nat)
    requires Agrees(net) && Onward(net, path) && k < |path| - 1
    ensures ZapfAfter(net, path[0], path[|path| - 1], k) == Travelling(path[k], path[k + 1], k + 1)
  {
    hide Agrees, Dist, NextHop, Find;
    RoutesOnWalk(net, path, k);
    if k > 0 {
      ZapfOnWalk(net, path, k - 1);
      NotYetThere(net, path, k);
    }
  }

  lemma NotYetThere(net: Net, path: seq<Name>, k: nat)
    requires Agrees(net) && Onward(net, path) && k < |path| - 1
    ensures path[k] != path[|path| - 1]
  {
    hide Agrees, Onward, NextHop;
    AllThere(net, path, k);
    RoutesOnWalk(net, path, k);
    RoutesOnWalk(net, path, |path| - 1);
  }

  lemma AllThere(net: Net, path: seq<Name>, k: nat)
    requires Onward(net, path) && k < |path|
    ensures path[k] in net.tables
    ensures k < |path| - 1 ==> path[k + 1] in net.tables && (path[k], path[k + 1]) in net.links
  {
  }

  /** The message on its way: on a link, with the right number of hops behind it and the rest ahead. */
  ghost predicate EnRoute(net: Net, m: Zapf, k: nat, to: Name, d: nat) {
    && m.Travelling? && m.hops == k + 1
    && m.at in net.tables && m.prev in net.tables && (m.prev, m.at) in net.links
    && m.hops + Dist(net, m.at, to) == d
  }

  /** A message to another bot passes every direction check, gets one link closer with every hop, and is handled
      by its addressee, and by no one else, after exactly as many hops as the distance. */
  lemma Routing(net: Net, from: Name, to: Name)
    requires Agrees(net) && from in net.tables && to in net.tables && from != to
    ensures var d := Dist(net, from, to);
      && ZapfAfter(net, from, to, d) == Handled(to, d)
      && forall k: nat | k < d :: EnRoute(net, ZapfAfter(net, from, to, k), k, to, d)
  {
    hide Agrees, Onward, Dist, NextHop, ZapfAfter;
    var path := WalkTo(net, from, to);
    var d := Dist(net, from, to);
    forall k: nat | k < d ensures EnRoute(net, ZapfAfter(net, from, to, k), k, to, d) {
      ZapfOnWalk(net, path, k);
      AllThere(net, path, k);
      RoutesOnWalk(net, path, k + 1);
    }
    Arrival(net, path);
  }

  lemma Arrival(net: Net, path: seq<Name>)
    requires Agrees(net) && Onward(net, path)
    requires |path| >= 2
    ensures var d := |path| - 1;
      ZapfAfter(net, path[0], path[d], d) == Handled(path[d], d)
  {
    hide Agrees, Onward, Dist, NextHop;
    var d := |path| - 1;
    ZapfOnWalk(net, path, d - 1);
    RoutesOnWalk(net, path, d);
    AllThere(net, path, d);
  }

  // ----- a message to every bot

  /** Copies under way, as (sender, receiver), and the bots that have handled the message, latest last. */
  datatype Flood = Flood(inflight: multiset<(Name, Name)>, handled: seq<Name>, refused: nat)

  function Neighbours(net: Net, x: Name, except: Option<Name>): set<Name> {
    set z | z in net.tables && (x, z) in net.links && Some(z) != except
  }

  function Copies(x: Name, to: set<Name>): multiset<(Name, Name)> {
    multiset(set z | z in to :: (x, z))
  }

  /** The origin sends to every neighbour. */
  function Start(net: Net, origin: Name): Flood {
    Flood(Copies(origin, Neighbours(net, origin, None)), [], 0)
  }

  /** One copy is delivered: handled and passed on to every other neighbour if it came the right way. */
  function Deliver(net: Net, origin: Name, s: Flood, copy: (Name, Name)): Flood
    requires copy in s.inflight
  {
    var rest := s.inflight - multiset{copy};
    if NextHop(net, copy.1, origin) != Some(copy.0) then Flood(rest, s.handled, s.refused + 1)
    else Flood(rest + Copies(copy.1, Neighbours(net, copy.1, Some(copy.0))), s.handled + [copy.1], s.refused)
  }

  /** A run delivers copies that are under way, in any order. */
  predicate CanRun(net: Net, origin: Name, s: Flood, order: seq<(Name, Name)>)
    decreases |order|
  {
    order != [] ==>
      && order[0] in s.inflight
      && CanRun(net, origin, Deliver(net, origin, s, order[0]), order[1..])
  }

  function RunFlood(net: Net, origin: Name, s: Flood, order: seq<(Name, Name)>): Flood
    requires CanRun(net, origin, s, order)
    decreases |order|
  {
    if order == [] then s else RunFlood(net, origin, Deliver(net, origin, s, order[0]), order[1..])
  }

  /** The links from a bot that has the message down to a bot that has not, in the origin's table. */
  function Frontier(net: Net, origin: Name, have: set<Name>): set<(Name, Name)>
    requires origin in net.tables
  {
    set y | y in net.tables && y !in have && Listed(net.tables[origin], y) && Parent(net.tables[origin], origin, y) in have
      :: (Parent(net.tables[origin], origin, y), y)
  }

  function Have(origin: Name, handled: seq<Name>): set<Name> {
    {origin} + set y | y in handled
  }

  /** The copies under way are exactly the frontier; nothing is handled twice or refused. */
  ghost predicate Flooding(net: Net, origin: Name, s: Flood) {
    && origin in net.tables && s.refused == 0
    && s.inflight == multiset(Frontier(net, origin, Have(origin, s.handled)))
    && (forall i, j | 0 <= i < j < |s.handled| :: s.handled[i] != s.handled[j])
    && (forall y | y in s.handled :: y in net.tables && y != origin && Listed(net.tables[origin], y) &&
          Parent(net.tables[origin], origin, y) in Have(origin, s.handled))
  }

  /** A bot's route back to the origin is its parent in the origin's table. */
  lemma RouteBack(net: Net, origin: Name, y: Name)
    requires Agrees(net) && origin in net.tables && y in net.tables && y != origin
    ensures Listed(net.tables[origin], y)
    ensures NextHop(net, y, origin) == Some(Parent(net.tables[origin], origin, y))
  {
    hide Agrees, Onward, NextHop, Dist, Find, Depth;
    var path := WalkTo(net, origin, y);
    var n := |path|;
    AllThere(net, path, n - 1);
    RoutesOnWalk(net, path, n - 1);
    OnwardParents(net, path, n - 1);
  }

  /** Passing a message on from `x` reaches exactly `x`'s children in the origin's table. */
  lemma PassedTo(net: Net, origin: Name, x: Name, z: Name)
    requires Agrees(net) && origin in net.tables && x in net.tables && x != origin
    ensures Listed(net.tables[origin], x)
    ensures z in Neighbours(net, x, Some(Parent(net.tables[origin], origin, x))) <==>
      z in net.tables && z != origin && Listed(net.tables[origin], z) && Parent(net.tables[origin], origin, z) == x
  {
    hide Find;
    Entry(net, origin, x);
    if (x, z) in net.links {
      LinkIsParent(net, origin, x, z);
    }
    if z in net.tables && z != origin {
      Entry(net, origin, z);
    }
  }

  /** The frontier after one more bot has the message: its own link is crossed, its children's links open. */
  lemma FrontierMoves(net: Net, origin: Name, have: set<Name>, x: Name)
    requires Agrees(net) && origin in have && origin in net.tables && x in net.tables && x !in have
    requires forall y | y in have && y != origin ::
      Listed(net.tables[origin], y) && Parent(net.tables[origin], origin, y) in have
    ensures Listed(net.tables[origin], x)
    ensures var p := Parent(net.tables[origin], origin, x);
      multiset(Frontier(net, origin, have)) - multiset{(p, x)} + Copies(x, Neighbours(net, x, Some(p))) ==
        multiset(Frontier(net, origin, have + {x}))
      || p !in have
  {
    hide Agrees, Find, Neighbours;
    PassedTo(net, origin, x, x);
    var p := Parent(net.tables[origin], origin, x);
    var to := Neighbours(net, x, Some(p));
    var old_, new_ := Frontier(net, origin, have), Frontier(net, origin, have + {x});
    if p in have {
      var below := set z | z in to :: (x, z);
      forall c ensures c in new_ <==> (c in old_ && c != (p, x)) || c in below {
        PassedTo(net, origin, x, c.1);
      }
      assert new_ == (old_ - {(p, x)}) + below;
      assert (p, x) in old_;
      assert (old_ - {(p, x)}) !! below;
      SplitSum(old_, (p, x), below);
    }
  }

  lemma SplitSum<T>(a: set<T>, x: T, b: set<T>)
    requires x in a && (a - {x}) !! b
    ensures multiset(a) - multiset{x} + multiset(b) == multiset((a - {x}) + b)
  {
  }

  lemma DeliverKeeps(net: Net, origin: Name, s: Flood, copy: (Name, Name))
    requires Agrees(net) && Flooding(net, origin, s) && copy in s.inflight
    ensures Flooding(net, origin, Deliver(net, origin, s, copy))
    ensures Deliver(net, origin, s, copy).handled == s.handled + [copy.1]
  {
    hide Agrees, Find, NextHop, Parent, Neighbours;
    var have, x := Have(origin, s.handled), copy.1;
    assert copy in Frontier(net, origin, have);
    RouteBack(net, origin, x);
    FrontierMoves(net, origin, have, x);
    assert Have(origin, s.handled + [x]) == have + {x};
  }

  lemma StartFloods(net: Net, origin: Name)
    requires Agrees(net) && origin in net.tables
    ensures Flooding(net, origin, Start(net, origin))
  {
    hide Find;
    var below := set z | z in Neighbours(net, origin, None) :: (origin, z);
    assert Have(origin, []) == {origin};
    forall c ensures c in below <==> c in Frontier(net, origin, {origin}) {
      var z := c.1;
      if (origin, z) in net.links { LinkIsParent(net, origin, origin, z); }
      if z in net.tables && z != origin { Entry(net, origin, z); }
    }
    assert below == Frontier(net, origin, {origin});
  }

  /** As long as someone lacks the message, a copy is under way. */
  lemma {:induction false} SomeoneLacks(net: Net, origin: Name, have: set<Name>, y: Name)
    requires Agrees(net) && origin in net.tables && origin in have && y in net.tables && y !in have
    ensures Frontier(net, origin, have) != {}
    decreases Dist(net, origin, y)
  {
    hide Agrees, Find, Depth, NextHop;
    Entry(net, origin, y);
    var p := Parent(net.tables[origin], origin, y);
    if p in have {
      assert (p, y) in Frontier(net, origin, have);
    } else {
      SomeoneLacks(net, origin, have, p);
    }
  }

  lemma {:induction false} DistinctCount(s: seq<Name>)
    requires forall i, j | 0 <= i < j < |s| :: s[i] != s[j]
    ensures |set y | y in s| == |s|
  {
    if s != [] {
      var n := |s| - 1;
      assert s == s[..n] + [s[n]];
      DistinctCount(s[..n]);
      assert (set y | y in s) == (set y | y in s[..n]) + {s[n]};
      assert s[n] !in s[..n];
    }
  }

  lemma {:induction false} FloodKeeps(net: Net, origin: Name, s: Flood, order: seq<(Name, Name)>)
    requires Agrees(net) && Flooding(net, origin, s) && CanRun(net, origin, s, order)
    ensures Flooding(net, origin, RunFlood(net, origin, s, order))
    ensures |RunFlood(net, origin, s, order).handled| == |s.handled| + |order|
    decreases |order|
  {
    hide Agrees, Flooding, Deliver;
    if order != [] {
      DeliverKeeps(net, origin, s, order[0]);
      FloodKeeps(net, origin, Deliver(net, origin, s, order[0]), order[1..]);
    }
  }

  /** Nothing is under way exactly when all the others have handled the message. */
  lemma Quiet(net: Net, origin: Name, s: Flood)
    requires Agrees(net) && Flooding(net, origin, s)
    ensures |s.handled| <= |net.tables| - 1
    ensures s.inflight == multiset{} <==> |s.handled| == |net.tables| - 1
    ensures s.inflight == multiset{} ==> forall y | y in net.tables && y != origin :: y in s.handled
  {
    hide Agrees, Find, Parent;
    var got := set y | y in s.handled;
    var others := net.tables.Keys - {origin};
    var have := Have(origin, s.handled);
    DistinctCount(s.handled);
    assert got <= others;
    SubsetSize(got, others);
    assert have == got + {origin};
    var front := Frontier(net, origin, have);
    assert s.inflight == multiset{} <==> front == {} by {
      if c :| c in front { assert c in s.inflight; }
    }
    if y :| y in others && y !in got {
      SomeoneLacks(net, origin, have, y);
    } else {
      assert got == others;
      assert front == {};
    }
  }

  /** Whatever the order of delivery, a flooded message is never refused and never handled twice, never comes back
      to its origin, and has nothing left under way exactly when all the other bots have handled it, after one
      delivery for each of them. */
  lemma Flooded(net: Net, origin: Name, order: seq<(Name, Name)>)
    requires Agrees(net) && origin in net.tables && CanRun(net, origin, Start(net, origin), order)
    ensures var end := RunFlood(net, origin, Start(net, origin), order);
      && end.refused == 0
      && |end.handled| == |order| <= |net.tables| - 1
      && (forall i, j | 0 <= i < j < |end.handled| :: end.handled[i] != end.handled[j])
      && (forall y | y in end.handled :: y in net.tables && y != origin)
      && (end.inflight == multiset{} <==> |order| == |net.tables| - 1)
      && (end.inflight == multiset{} ==> forall y | y in net.tables && y != origin :: y in end.handled)
  {
    hide Agrees, Find, Deliver, Parent, Frontier;
    StartFloods(net, origin);
    FloodKeeps(net, origin, Start(net, origin), order);
    Quiet(net, origin, RunFlood(net, origin, Start(net, origin), order));
  }

  lemma {:induction false} SubsetSize(a: set<Name>, b: set<Name>)
    requires a <= b
    ensures |a| <= |b| && (|a| == |b| ==> a == b)
  {
    assert b == a + (b - a);
  }
}
