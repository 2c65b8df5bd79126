/** Messages that come the wrong way, on any network whatever its tables say. */
module WrongWay {
  import opened BotTree
  import opened Network

  /** `x` reaches `from` through its neighbour `prev`. */
  predicate LeadsBack(net: Net, x: Name, from: Name, prev: Name) {
    x in net.tables && exists b | b in net.tables[x] :: Find(net.tables[x], from) == Some(b) && b.via == Some(prev)
  }

  lemma HopIsVia(net: Net, x: Name, from: Name, prev: Name)
    ensures NextHop(net, x, from) == Some(prev) <==> LeadsBack(net, x, from, prev)
  {
  }

  // ----- one message

  /** A routed message is dropped where it comes the wrong way. */
  lemma WrongWayDropped(net: Net, from: Name, to: Name, prev: Name, at: Name, hops: nat)
    requires !LeadsBack(net, at, from, prev)
    ensures ZapfStep(net, from, to, Travelling(prev, at, hops)) == WrongDirection(at)
  {
    HopIsVia(net, at, from, prev);
  }

  /** The bots a message has come to, each with the neighbour it came from. */
  function Visits(net: Net, from: Name, to: Name, steps: nat): seq<(Name, Name)> {
    if steps == 0 then [] else
    var m := ZapfAfter(net, from, to, steps - 1);
    Visits(net, from, to, steps - 1) + if m.Travelling? then [(m.at, m.prev)] else []
  }

  /** A message still travelling or handled has come the right way at every bot it came to, has made one hop for each,
      and is handled at the bot it is for. */
  lemma {:induction false} RightWayThroughout(net: Net, from: Name, to: Name, steps: nat)
    requires var m := ZapfAfter(net, from, to, steps); m.Travelling? || m.Handled?
    ensures var m, seen := ZapfAfter(net, from, to, steps), Visits(net, from, to, steps);
      && (forall k | 0 <= k < |seen| :: LeadsBack(net, seen[k].0, from, seen[k].1))
      && (m.Handled? ==> m.at == to && |seen| == m.hops > 0 && seen[|seen| - 1].0 == to)
      && (m.Travelling? ==> |seen| + 1 == m.hops)
  {
    hide NextHop, LeadsBack;
    if steps > 0 {
      var was := ZapfAfter(net, from, to, steps - 1);
      RightWayThroughout(net, from, to, steps - 1);
      if was.Travelling? { HopIsVia(net, was.at, from, was.prev); }
    }
  }

  // ----- flooding

  /** The receivers of the copies that come the right way, in order of delivery. */
  function RightWay(net: Net, origin: Name, order: seq<(Name, Name)>): seq<Name> {
    if order == [] then [] else
    (if LeadsBack(net, order[0].1, origin, order[0].0) then [order[0].1] else []) + RightWay(net, origin, order[1..])
  }

  /** Exactly those handle the message; every other copy is refused, and is passed on to nobody. */
  lemma {:induction false} FloodHandles(net: Net, origin: Name, s: Flood, order: seq<(Name, Name)>)
    requires CanRun(net, origin, s, order)
    ensures var t, right := RunFlood(net, origin, s, order), RightWay(net, origin, order);
      t.handled == s.handled + right && t.refused + |right| == s.refused + |order|
    decreases |order|
  {
    hide Deliver, LeadsBack;
    if order != [] {
      DeliveredOnce(net, origin, s, order[0]);
      FloodHandles(net, origin, Deliver(net, origin, s, order[0]), order[1..]);
    }
  }

  lemma DeliveredOnce(net: Net, origin: Name, s: Flood, copy: (Name, Name))
    requires copy in s.inflight
    ensures var t := Deliver(net, origin, s, copy);
      if LeadsBack(net, copy.1, origin, copy.0) then t.handled == s.handled + [copy.1] && t.refused == s.refused
      else t.handled == s.handled && t.refused == s.refused + 1
  {
    hide NextHop, LeadsBack, Neighbours, Copies;
    HopIsVia(net, copy.1, origin, copy.0);
  }

  lemma WrongCopy(net: Net, origin: Name, s: Flood, copy: (Name, Name))
    requires copy in s.inflight && !LeadsBack(net, copy.1, origin, copy.0)
    ensures Deliver(net, origin, s, copy) == Flood(s.inflight - multiset{copy}, s.handled, s.refused + 1)
  {
    HopIsVia(net, copy.1, origin, copy.0);
  }
}
