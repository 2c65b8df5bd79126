/** Losing a link undoes what came through it, except what the code lets a neighbour do to others. */
module Abort {
  import opened BotTree
  import opened Protocol

  /** A message or hang-up that comes from connection `idx`. */
  predicate FromPeer(e: Event, idx: int) {
    match e
    case Announced(i, _, _) => i == idx
    case Gone(i, _) => i == idx
    case Hangup(i) => i == idx
    case Joined(i, _, _, _, _, _, _) => i == idx
    case Parted(i, _, _) => i == idx
    case Updated(i, _, _, _) => i == idx
    case Renamed(i, _, _, _) => i == idx
    case _ => false
  }

  /** While the peer's link is up its messages only ever touch entries routed through it. */
  predicate LinkStillUp(s0: State, s: State, idx: int, a: Name, extra: seq<Bot>) {
    && 0 <= idx < |s0.dcc|
    && s.dcc == s0.dcc[idx := Link(a, Linked)]
    && s.bots == s0.bots + extra
    && (forall b | b in extra :: b.via == Some(a))
  }

  predicate LinkUndone(s0: State, s: State, idx: int) {
    && 0 <= idx < |s0.dcc|
    && s.dcc == s0.dcc[idx := Link("", Lost)]
    && s.bots == s0.bots
  }

  /** Everything below a bot shares its route. */
  lemma {:induction false} ClosureVia(me: Name, bots: seq<Bot>, top: Name, i: nat)
    requires WellFormed(me, bots) && i < |bots|
    requires Listed(bots, top) && bots[i].name in Closure(bots, {top})
    ensures bots[i].via == Find(bots, top).value.via
  {
    var b := bots[i];
    EntryFits(me, bots, i);
    ClosureStep(me, bots, {top}, b);
    if b.name != top {
      var p := Find(bots[..i], b.uplink.name).value;
      var j :| 0 <= j < i && bots[j] == p;
      FindPrefix(bots, i, b.uplink.name);
      ClosureVia(me, bots, top, j);
    }
  }

  /** Losing a bot behind the link leaves the old table alone. */
  lemma LoseBehind(z: Name, s0: State, s: State, idx: int, a: Name, extra: seq<Bot>, who: Name)
    requires Inv(z, s0) && Inv(z, s) && !Listed(s0.bots, a)
    requires LinkStillUp(s0, s, idx, a, extra)
    requires Listed(s.bots, who) ==> Find(s.bots, who).value.via == Some(a)
    ensures var gone := Closure(s.bots, {who});
      && LoseBot(s, who).bots == s0.bots + Without(extra, gone)
      && forall k | k in s0.users :: k.0 !in gone
  {
    var gone := Closure(s.bots, {who});
    WithoutAppend(s0.bots, extra, gone);
    forall b | b in s0.bots ensures b.name !in gone {
      if b.name in gone {
        if !Listed(s.bots, who) {
          ClosureUnlisted(s.bots, {who});
        } else {
          var i :| 0 <= i < |s0.bots| && s0.bots[i] == b;
          assert s.bots[i] == b;
          ClosureVia(z, s.bots, who, i);
        }
        ViaIsDirect(z, s0.bots, b);
      }
    }
    WithoutNothing(s0.bots, gone);
  }

  /** Losing the link itself removes everything that came through it. */
  lemma HangupUndoes(z: Name, s0: State, s: State, idx: int, a: Name, extra: seq<Bot>)
    requires Inv(z, s0) && Inv(z, s) && !Listed(s0.bots, a)
    requires LinkStillUp(s0, s, idx, a, extra)
    ensures LinkUndone(s0, LoseLink(s, idx), idx)
    ensures forall k | k in s0.users :: k.0 !in Closure(s.bots, {a})
    ensures forall b | b in extra :: b.name in Closure(s.bots, {a})
  {
    var gone := Closure(s.bots, {a});
    if Listed(s.bots, a) {
      var d := Find(s.bots, a).value;
      assert d.via == Some(a);
      ViaIsDirect(z, s.bots, d);
    }
    LoseBehind(z, s0, s, idx, a, extra, a);
    forall b | b in extra ensures b.name in gone {
      assert b in s.bots;
      ViaIsDirect(z, s.bots, b);
      SubtreeIsVia(z, s.bots, a, b);
    }
    WithoutAll(extra, gone);
  }

  /** The key a part message from the peer names while its link is up. */
  function PartedKey(s: State, idx: int, e: Event): set<(Name, int)> {
    if LinkedAt(s, idx) && e.Parted? then {(e.bot, e.sock)} else {}
  }

  function PartedKeys(me: Name, s: State, idx: int, es: seq<Event>): set<(Name, int)>
    decreases |es|
  {
    if es == [] then {} else PartedKey(s, idx, es[0]) + PartedKeys(me, Step(me, s, es[0]), idx, es[1..])
  }

  /** On old bots, the users are the old ones except those parted. */
  predicate OldUsersKept(s0: State, s: State, parted: set<(Name, int)>) {
    && (forall k | k in s.users && Listed(s0.bots, k.0) :: k in s0.users && k !in parted && s.users[k] == s0.users[k])
    && (forall k | k in s0.users && k !in parted :: k in s.users)
  }

  /** Where a peer's messages can leave us: its link up with some entries behind it, or everything undone. */
  ghost predicate PeerPhase(s0: State, s: State, idx: int, a: Name, parted: set<(Name, int)>) {
    || (OldUsersKept(s0, s, parted) && exists extra :: LinkStillUp(s0, s, idx, a, extra))
    || (LinkUndone(s0, s, idx) && s.users == s0.users - parted)
  }

  lemma PeerLost(z: Name, s0: State, s: State, idx: int, a: Name, extra: seq<Bot>, parted: set<(Name, int)>)
    requires Inv(z, s0) && Inv(z, s) && !Listed(s0.bots, a)
    requires LinkStillUp(s0, s, idx, a, extra) && OldUsersKept(s0, s, parted)
    ensures var t := LoseLink(s, idx);
      LinkUndone(s0, t, idx) && t.users == s0.users - parted
  {
    HangupUndoes(z, s0, s, idx, a, extra);
    UsersAfterLoss(z, s0, s, extra, Closure(s.bots, {a}), parted);
  }

  lemma UsersAfterLoss(z: Name, s0: State, s: State, extra: seq<Bot>, gone: set<Name>, parted: set<(Name, int)>)
    requires Inv(z, s0) && Inv(z, s) && s.bots == s0.bots + extra && OldUsersKept(s0, s, parted)
    requires forall k | k in s0.users :: k.0 !in gone
    requires forall b | b in extra :: b.name in gone
    ensures DropUsers(s.users, gone) == s0.users - parted
  {
  }

  lemma PeerGone(z: Name, s0: State, s: State, idx: int, a: Name, extra: seq<Bot>, parted: set<(Name, int)>, who: Name)
    requires Inv(z, s0) && Inv(z, s) && !Listed(s0.bots, a)
    requires LinkStillUp(s0, s, idx, a, extra) && OldUsersKept(s0, s, parted)
    ensures PeerPhase(s0, Unlinked(s, idx, who), idx, a, parted)
  {
    hide Inv, Find, Closure, LinkStillUp, OldUsersKept;
    if NextBot(s.bots, s.dcc, who) == idx {
      LostBehind(z, s0, s, idx, a, extra, parted, who);
    }
  }

  /** The rest of what came through the link stays, and so do the old users. */
  lemma LostBehind(z: Name, s0: State, s: State, idx: int, a: Name, extra: seq<Bot>, parted: set<(Name, int)>, who: Name)
    requires Inv(z, s0) && Inv(z, s) && !Listed(s0.bots, a)
    requires LinkStillUp(s0, s, idx, a, extra) && OldUsersKept(s0, s, parted)
    requires NextBot(s.bots, s.dcc, who) == idx
    ensures var t, left := LoseBot(s, who), Without(extra, Closure(s.bots, {who}));
      LinkStillUp(s0, t, idx, a, left) && OldUsersKept(s0, t, parted)
  {
    hide Closure, WellFormed;
    RouteExists(z, s, who);
    LoseBehind(z, s0, s, idx, a, extra, who);
  }

  lemma PeerJoined(z: Name, s0: State, s: State, idx: int, a: Name, extra: seq<Bot>, parted: set<(Name, int)>, e: Event)
    requires Inv(z, s0) && Inv(z, s) && !Listed(s0.bots, a) && e.Joined? && e.idx == idx
    requires LinkStillUp(s0, s, idx, a, extra) && OldUsersKept(s0, s, parted)
    ensures PeerPhase(s0, Step(z, s, e), idx, a, parted)
  {
    var t := Step(z, s, e);
    if t != s {
      JoinStep(z, s, e);
      NotOld(z, s0, s, idx, a, extra, e.bot);
      JoinKeepsOld(s0, s.users, parted, e);
    }
    SameTable(s0, s, t, idx, a, extra, parted);
  }

  lemma JoinStep(z: Name, s: State, e: Event)
    requires e.Joined? && Step(z, s, e) != s
    ensures NextBot(s.bots, s.dcc, e.bot) == e.idx
    ensures Step(z, s, e) == s.(users := JoinUser(s.users, e.bot, e.nick, e.chan, e.flag, e.sock, e.from))
  {
  }

  lemma SameTable(s0: State, s: State, t: State, idx: int, a: Name, extra: seq<Bot>, parted: set<(Name, int)>)
    requires LinkStillUp(s0, s, idx, a, extra) && t.bots == s.bots && t.dcc == s.dcc && OldUsersKept(s0, t, parted)
    ensures PeerPhase(s0, t, idx, a, parted)
  {
    assert LinkStillUp(s0, t, idx, a, extra);
  }

  lemma JoinKeepsOld(s0: State, users: Users, parted: set<(Name, int)>, e: Event)
    requires e.Joined? && !Listed(s0.bots, e.bot) && |e.bot| <= HANDLEN
    requires forall k | k in s0.users :: Listed(s0.bots, k.0)
    requires OldUsersKept(s0, s0.(users := users), parted)
    ensures OldUsersKept(s0, s0.(users := JoinUser(users, e.bot, e.nick, e.chan, e.flag, e.sock, e.from)), parted)
  {
  }

  /** A bot behind the link is not an old one. */
  lemma NotOld(z: Name, s0: State, s: State, idx: int, a: Name, extra: seq<Bot>, bot: Name)
    requires Inv(z, s0) && Inv(z, s) && !Listed(s0.bots, a)
    requires LinkStillUp(s0, s, idx, a, extra) && NextBot(s.bots, s.dcc, bot) == idx
    ensures !Listed(s0.bots, bot) && |bot| <= HANDLEN
  {
    RouteExists(z, s, bot);
    var b := Find(s.bots, bot).value;
    FindConcat(s0.bots, extra, bot);
    if Listed(s0.bots, bot) { ViaIsDirect(z, s0.bots, b); }
  }

  lemma PeerAnnounced(z: Name, s0: State, s: State, idx: int, a: Name, extra: seq<Bot>, parted: set<(Name, int)>, e: Event)
    requires Inv(z, s0) && Inv(z, s) && !Listed(s0.bots, a) && e.Announced? && e.idx == idx
    requires LinkStillUp(s0, s, idx, a, extra) && OldUsersKept(s0, s, parted)
    ensures PeerPhase(s0, Step(z, s, e), idx, a, parted)
  {
    hide Find, WellFormed, GoodName;
    if e.what.flag != '\0' {
      if Acceptable(z, s, idx, e.what, e.leaf) {
        AcceptedFits(z, s, idx, e.what, e.leaf);
        var t := Step(z, s, e);
        var b := t.bots[|s.bots|];
        assert t.bots == s0.bots + (extra + [b]);
        assert LinkStillUp(s0, t, idx, a, extra + [b]);
      } else {
        PeerLost(z, s0, s, idx, a, extra, parted);
      }
    } else {
      assert LinkStillUp(s0, Step(z, s, e), idx, a, extra);
    }
  }

  lemma PeerParted(z: Name, s0: State, s: State, idx: int, a: Name, extra: seq<Bot>, parted: set<(Name, int)>, e: Event)
    requires e.Parted? && e.idx == idx
    requires LinkStillUp(s0, s, idx, a, extra) && OldUsersKept(s0, s, parted)
    ensures PeerPhase(s0, Step(z, s, e), idx, a, parted + PartedKey(s, idx, e))
  {
    var t := Step(z, s, e);
    assert LinkStillUp(s0, t, idx, a, extra);
    assert OldUsersKept(s0, t, parted + {(e.bot, e.sock)});
  }

  /** A list of bots after the updates the peer sends while its link is up, in order. */
  function UpdatedBy(me: Name, s: State, idx: int, es: seq<Event>, bots: seq<Bot>): seq<Bot>
    decreases |es|
  {
    if es == [] then bots
    else UpdatedBy(me, Step(me, s, es[0]), idx, es[1..], UpdatedOnce(s, idx, es[0], bots))
  }

  function UpdatedOnce(s: State, idx: int, e: Event, bots: seq<Bot>): seq<Bot> {
    if LinkedAt(s, idx) && e.Updated? then Touched(bots, e.bot, e.flag, e.ver) else bots
  }

  /** Some update the peer sends while its link is up names the bot. */
  predicate Named(me: Name, s: State, idx: int, es: seq<Event>, bot: Name)
    decreases |es|
  {
    es != [] &&
    ((LinkedAt(s, idx) && es[0].Updated? && es[0].bot == bot) || Named(me, Step(me, s, es[0]), idx, es[1..], bot))
  }

  /** Updates change nothing but share and version, and those only of bots they name. */
  lemma {:induction false} UpdatesKeep(me: Name, s: State, idx: int, es: seq<Event>, bots: seq<Bot>)
    ensures var r := UpdatedBy(me, s, idx, es, bots);
      && |r| == |bots|
      && forall i | 0 <= i < |bots| ::
           && r[i] == bots[i].(share := r[i].share, ver := r[i].ver)
           && (!Named(me, s, idx, es, bots[i].name) ==> r[i] == bots[i])
    decreases |es|
  {
    hide Step;
    if es != [] {
      UpdatesKeep(me, Step(me, s, es[0]), idx, es[1..], UpdatedOnce(s, idx, es[0], bots));
    }
  }

  lemma PeerUndone(z: Name, s0: State, s: State, idx: int, e: Event)
    requires LinkUndone(s0, s, idx) && FromPeer(e, idx)
    ensures Step(z, s, e) == s && PartedKey(s, idx, e) == {} && UpdatedOnce(s, idx, e, s0.bots) == s0.bots
  {
  }

  /** An update touches the old table as if the link were not there. */
  lemma PeerUpdated(z: Name, s0: State, s: State, idx: int, a: Name, extra: seq<Bot>, parted: set<(Name, int)>, e: Event)
    requires e.Updated? && e.idx == idx
    requires LinkStillUp(s0, s, idx, a, extra) && OldUsersKept(s0, s, parted)
    ensures PeerPhase(s0.(bots := UpdatedOnce(s, idx, e, s0.bots)), Step(z, s, e), idx, a, parted)
  {
    hide Find;
    var t, o := Step(z, s, e), s0.(bots := UpdatedOnce(s, idx, e, s0.bots));
    var more := Touched(extra, e.bot, e.flag, e.ver);
    assert t.bots == o.bots + more;
    forall b | b in more ensures b.via == Some(a) {
      var i :| 0 <= i < |more| && more[i] == b;
      assert extra[i] in extra && b.via == extra[i].via;
    }
    assert LinkStillUp(o, t, idx, a, more);
    forall k: (Name, int) ensures Listed(o.bots, k.0) <==> Listed(s0.bots, k.0) {
      FindTouched(s0.bots, e.bot, e.flag, e.ver, k.0);
    }
    assert OldUsersKept(o, t, parted);
  }

  /** A nick change reaches only users on bots behind the link. */
  lemma PeerRenamed(z: Name, s0: State, s: State, idx: int, a: Name, extra: seq<Bot>, parted: set<(Name, int)>, e: Event)
    requires Inv(z, s0) && Inv(z, s) && !Listed(s0.bots, a) && e.Renamed? && e.idx == idx
    requires LinkStillUp(s0, s, idx, a, extra) && OldUsersKept(s0, s, parted)
    ensures PeerPhase(s0, Step(z, s, e), idx, a, parted)
  {
    var t := Step(z, s, e);
    if NextBot(s.bots, s.dcc, e.bot) == idx {
      NotOld(z, s0, s, idx, a, extra, e.bot);
    }
    SameTable(s0, s, t, idx, a, extra, parted);
  }

  lemma PeerStep(z: Name, s0: State, s: State, idx: int, a: Name, parted: set<(Name, int)>, e: Event)
    requires Inv(z, s0) && Inv(z, s) && !Listed(s0.bots, a) && FromPeer(e, idx)
    requires PeerPhase(s0, s, idx, a, parted)
    ensures var o := s0.(bots := UpdatedOnce(s, idx, e, s0.bots));
      PeerPhase(o, Step(z, s, e), idx, a, parted + PartedKey(s, idx, e)) && Inv(z, o) && !Listed(o.bots, a)
  {
    hide Inv, Find, Step, LinkStillUp, OldUsersKept;
    assert parted + {} == parted;
    if extra :| OldUsersKept(s0, s, parted) && LinkStillUp(s0, s, idx, a, extra) {
      match e {
        case Announced(_, _, _) => PeerAnnounced(z, s0, s, idx, a, extra, parted, e);
        case Gone(_, who) => PeerReported(z, s0, s, idx, a, extra, parted, e);
        case Hangup(_) => PeerHungUp(z, s0, s, idx, a, extra, parted, e);
        case Joined(_, _, _, _, _, _, _) => PeerJoined(z, s0, s, idx, a, extra, parted, e);
        case Parted(_, bot, sock) => PeerParted(z, s0, s, idx, a, extra, parted, e);
        case Updated(_, bot, flag, ver) =>
          PeerUpdated(z, s0, s, idx, a, extra, parted, e);
          TouchedKeeps(z, s0, bot, flag, ver);
          FindTouched(s0.bots, bot, flag, ver, a);
        case Renamed(_, _, _, _) => PeerRenamed(z, s0, s, idx, a, extra, parted, e);
      }
    } else {
      PeerUndone(z, s0, s, idx, e);
    }
  }

  lemma PeerReported(z: Name, s0: State, s: State, idx: int, a: Name, extra: seq<Bot>, parted: set<(Name, int)>, e: Event)
    requires Inv(z, s0) && Inv(z, s) && !Listed(s0.bots, a) && e.Gone? && e.idx == idx
    requires LinkStillUp(s0, s, idx, a, extra) && OldUsersKept(s0, s, parted)
    ensures PeerPhase(s0, Step(z, s, e), idx, a, parted)
  {
    hide Inv, Find, Unlinked, OldUsersKept;
    PeerGone(z, s0, s, idx, a, extra, parted, e.bot);
  }

  lemma PeerHungUp(z: Name, s0: State, s: State, idx: int, a: Name, extra: seq<Bot>, parted: set<(Name, int)>, e: Event)
    requires Inv(z, s0) && Inv(z, s) && !Listed(s0.bots, a) && e == Hangup(idx)
    requires LinkStillUp(s0, s, idx, a, extra) && OldUsersKept(s0, s, parted)
    ensures PeerPhase(s0, Step(z, s, e), idx, a, parted)
  {
    hide Inv, Find, LoseLink, OldUsersKept;
    PeerLost(z, s0, s, idx, a, extra, parted);
  }

  lemma {:induction false} PeerRun(z: Name, s0: State, s: State, idx: int, a: Name, parted: set<(Name, int)>, es: seq<Event>)
    requires Inv(z, s0) && Inv(z, s) && !Listed(s0.bots, a) && forall e | e in es :: FromPeer(e, idx)
    requires PeerPhase(s0, s, idx, a, parted)
    ensures var o := s0.(bots := UpdatedBy(z, s, idx, es, s0.bots));
      PeerPhase(o, Run(z, s, es), idx, a, parted + PartedKeys(z, s, idx, es)) && Inv(z, o) && !Listed(o.bots, a)
    decreases |es|
  {
    hide Inv, Find, Step, FromPeer, PeerPhase, UpdatedOnce;
    if es == [] {
      assert parted + {} == parted;
    } else {
      PeerStep(z, s0, s, idx, a, parted, es[0]);
      StepKeeps(z, s, es[0]);
      var t, o := Step(z, s, es[0]), s0.(bots := UpdatedOnce(s, idx, es[0], s0.bots));
      var now := parted + PartedKey(s, idx, es[0]);
      PeerRun(z, o, t, idx, a, now, es[1..]);
      assert now + PartedKeys(z, t, idx, es[1..]) == parted + PartedKeys(z, s, idx, es);
    }
  }

  /** The peer's last message or hang-up ends the link: everything it brought is gone. */
  lemma PeerEnd(z: Name, s0: State, s: State, idx: int, a: Name, parted: set<(Name, int)>, end: Event)
    requires Inv(z, s0) && Inv(z, s) && !Listed(s0.bots, a)
    requires PeerPhase(s0, s, idx, a, parted)
    requires end == Hangup(idx) ||
      (end.Announced? && end.idx == idx && end.what.flag != '\0' && !Acceptable(z, s, idx, end.what, end.leaf))
    ensures Step(z, s, end) == State(s0.bots, s0.tands, s0.users - parted, s0.dcc[idx := Link("", Lost)])
  {
    if extra :| OldUsersKept(s0, s, parted) && LinkStillUp(s0, s, idx, a, extra) {
      PeerLost(z, s0, s, idx, a, extra, parted);
    } else {
      PeerUndone(z, s0, s, idx, end);
    }
    StepKeeps(z, s, end);
  }

  /** A link comes up, its peer sends any announcements, loss reports, joins, parts, nick changes and updates, and then the link is
      lost, by a hang-up or because the last announcement is rejected. The table is the one before the link with the
      peer's updates applied to it, so that names, order, parents, routes and the count are as before; and the party
      line is as before apart from users the peer's part messages named. */
  lemma AbortedBurst(z: Name, s: State, idx: int, numver: int, es: seq<Event>, end: Event)
    requires Inv(z, s) && 0 <= idx < |s.dcc| && s.dcc[idx].kind == BotNew && !InChain(z, s.bots, s.dcc[idx].nick)
    requires forall e | e in es :: FromPeer(e, idx)
    requires var t := Run(z, s, [Version(idx, numver, HANDLEN)] + es);
      end == Hangup(idx) ||
      (end.Announced? && end.idx == idx && end.what.flag != '\0' && !Acceptable(z, t, idx, end.what, end.leaf))
    ensures var up := LinkUp(z, s, idx, numver, HANDLEN);
      Run(z, s, [Version(idx, numver, HANDLEN)] + es + [end]) ==
        State(UpdatedBy(z, up, idx, es, s.bots), s.tands, s.users - PartedKeys(z, up, idx, es),
              s.dcc[idx := Link("", Lost)])
  {
    hide Inv, Find, FromPeer, Acceptable, PartedKeys, UpdatedBy, PeerPhase;
    var v := Version(idx, numver, HANDLEN);
    var up := Step(z, s, v);
    FreshLink(z, s, idx, numver);
    StepKeeps(z, s, v);
    PeerRun(z, s, up, idx, s.dcc[idx].nick, {}, es);
    RunKeeps(z, up, es);
    var parted := PartedKeys(z, up, idx, es);
    assert {} + parted == parted;
    var t := Run(z, up, es);
    assert ([v] + es)[1..] == es;
    PeerEnd(z, s.(bots := UpdatedBy(z, up, idx, es, s.bots)), t, idx, s.dcc[idx].nick, parted, end);
    RunAppend(z, s, [v] + es, [end]);
    assert Run(z, t, [end]) == Step(z, t, end);
  }

  lemma FreshLink(z: Name, s: State, idx: int, numver: int)
    requires Inv(z, s) && 0 <= idx < |s.dcc| && s.dcc[idx].kind == BotNew && !InChain(z, s.bots, s.dcc[idx].nick)
    ensures PeerPhase(s, LinkUp(z, s, idx, numver, HANDLEN), idx, s.dcc[idx].nick, {})
  {
    var up := LinkUp(z, s, idx, numver, HANDLEN);
    assert s.dcc[idx] in s.dcc;
    assert LinkStillUp(s, up, idx, s.dcc[idx].nick, [up.bots[|s.bots|]]);
    assert OldUsersKept(s, up, {});
  }

  /** A user on a bot that is linked directly, and another bot about to link. */
  const SAMPLE := State([Bot("b", Some("b"), Me, '-', 0)], 1, map[("b", 7) := User("u", 0, '-', "host")],
                        [Link("b", Linked), Link("a", BotNew)])

  lemma SampleKept()
    ensures Inv("z", SAMPLE) && !InChain("z", SAMPLE.bots, "a")
  {
  }

  lemma OnePart(me: Name, s: State, idx: int, bot: Name, sock: int)
    requires LinkedAt(s, idx)
    ensures PartedKeys(me, s, idx, [Parted(idx, bot, sock)]) == {(bot, sock)}
  {
  }

  /** The exception is real: a part message is not checked for direction, so a neighbour that has just linked
      and announced nothing can remove a user who sits elsewhere, and hanging up does not bring the user back. */
  lemma PartIgnoresDirection()
    ensures Inv("z", SAMPLE) && SAMPLE.users != map[]
    ensures Run("z", SAMPLE, [Version(1, 0, HANDLEN), Parted(1, "b", 7), Hangup(1)]).users == map[]
  {
    hide Inv, Run, PartedKeys, Find;
    SampleKept();
    var es := [Parted(1, "b", 7)];
    assert [Version(1, 0, HANDLEN)] + es + [Hangup(1)] == [Version(1, 0, HANDLEN), Parted(1, "b", 7), Hangup(1)];
    AbortedBurst("z", SAMPLE, 1, 0, es, Hangup(1));
    OnePart("z", LinkUp("z", SAMPLE, 1, 0, HANDLEN), 1, "b", 7);
    assert SAMPLE.users - {("b", 7)} == map[];
    assert ("b", 7) in SAMPLE.users;
  }

  lemma OneUpdate(me: Name, s: State, idx: int, bot: Name, flag: char, ver: int, bots: seq<Bot>)
    requires LinkedAt(s, idx)
    ensures UpdatedBy(me, s, idx, [Updated(idx, bot, flag, ver)], bots) == Touched(bots, bot, flag, ver)
    ensures PartedKeys(me, s, idx, [Updated(idx, bot, flag, ver)]) == {}
  {
    var e := Updated(idx, bot, flag, ver);
    assert [e][1..] == [];
    assert UpdatedBy(me, Step(me, s, e), idx, [], Touched(bots, bot, flag, ver)) == Touched(bots, bot, flag, ver);
    assert PartedKeys(me, Step(me, s, e), idx, []) == {};
  }

  /** Nor is an update: the same neighbour can rewrite the flag and version of a bot it does not lead to, and they
      stay rewritten when it hangs up. */
  lemma UpdateIgnoresDirection()
    ensures Inv("z", SAMPLE)
    ensures Run("z", SAMPLE, [Version(1, 0, HANDLEN), Updated(1, "b", '+', 7), Hangup(1)]) ==
      SAMPLE.(bots := [Bot("b", Some("b"), Me, '+', 7)], dcc := [Link("b", Linked), Link("", Lost)])
  {
    hide Inv, Run, PartedKeys, Find, UpdatedBy;
    SampleKept();
    var es := [Updated(1, "b", '+', 7)];
    assert [Version(1, 0, HANDLEN)] + es + [Hangup(1)] == [Version(1, 0, HANDLEN), Updated(1, "b", '+', 7), Hangup(1)];
    AbortedBurst("z", SAMPLE, 1, 0, es, Hangup(1));
    OneUpdate("z", LinkUp("z", SAMPLE, 1, 0, HANDLEN), 1, "b", '+', 7, SAMPLE.bots);
    assert SAMPLE.users - {} == SAMPLE.users;
  }
}
