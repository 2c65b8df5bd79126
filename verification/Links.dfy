/** Running links against the table: each leads to a direct neighbour of its own, as long as no neighbour reports
    itself gone. */
module Links {
  import opened BotTree
  import opened Protocol
  import opened Replay

  predicate Direct(bots: seq<Bot>, who: Name) {
    Listed(bots, who) && Find(bots, who).value.uplink == Me
  }

  /** No two running links to one bot, and each to a bot listed directly below me. */
  predicate Tidy(s: State) {
    && (forall i, j | 0 <= i < j < |s.dcc| && s.dcc[i].kind == Linked && s.dcc[j].kind == Linked ::
          s.dcc[i].nick != s.dcc[j].nick)
    && forall i | 0 <= i < |s.dcc| && s.dcc[i].kind == Linked :: Direct(s.bots, s.dcc[i].nick)
  }

  /** A neighbour that is listed reports itself gone. */
  predicate ReportsItself(s: State, e: Event) {
    e.Gone? && LinkedAt(s, e.idx) && e.bot == s.dcc[e.idx].nick
  }

  lemma DirectStays(me: Name, s: State, who: Name, d: Name)
    requires Inv(me, s) && Direct(s.bots, d) && d != who
    ensures Direct(LoseBot(s, who).bots, d)
  {
    hide Closure;
    ClosureStep(me, s.bots, {who}, Find(s.bots, d).value);
    FindWithout(s.bots, Closure(s.bots, {who}), d);
  }

  lemma LoseLinkTidy(me: Name, s: State, idx: int)
    requires Inv(me, s) && Tidy(s) && 0 <= idx < |s.dcc|
    ensures Tidy(LoseLink(s, idx))
  {
    hide Closure, Without, Find, Inv;
    var r, l := LoseLink(s, idx), s.dcc[idx];
    forall i | 0 <= i < |r.dcc| && r.dcc[i].kind == Linked ensures Direct(r.bots, r.dcc[i].nick) {
      if l.kind == Linked {
        DirectStays(me, s, l.nick, s.dcc[i].nick);
      }
    }
  }

  lemma AppendTidy(s: State, b: Bot)
    requires Tidy(s)
    ensures Tidy(s.(bots := s.bots + [b], tands := s.tands + 1))
  {
    hide Find;
    forall d | Direct(s.bots, d) ensures Direct(s.bots + [b], d) { FindSnoc(s.bots, b, d); }
  }

  lemma LinkUpTidy(me: Name, s: State, idx: int, numver: int, handlen: int)
    requires Inv(me, s) && Tidy(s) && 0 <= idx < |s.dcc| && s.dcc[idx].kind == BotNew
    ensures Tidy(LinkUp(me, s, idx, numver, handlen))
  {
    hide Find, Inv;
    var nick := s.dcc[idx].nick;
    if InChain(me, s.bots, nick) || handlen != HANDLEN {
      LoseLinkTidy(me, s, idx);
    } else {
      var b := NewBot(me, s.bots, nick, nick, me, '-', numver);
      KnownNick(me, s, idx);
      var r := LinkUp(me, s, idx, numver, handlen);
      FindSnoc(s.bots, b, nick);
      forall i | 0 <= i < |r.dcc| && i != idx && r.dcc[i].kind == Linked
        ensures r.dcc[i].nick != nick && Direct(r.bots, r.dcc[i].nick) {
        FindSnoc(s.bots, b, s.dcc[i].nick);
      }
    }
  }

  lemma KnownNick(me: Name, s: State, idx: int)
    requires Inv(me, s) && 0 <= idx < |s.dcc|
    ensures Truncate(s.dcc[idx].nick) == s.dcc[idx].nick
  {
    assert s.dcc[idx] in s.dcc;
  }

  lemma ReapTidy(s: State, idx: int)
    requires Tidy(s) && 0 <= idx < |s.dcc| && s.dcc[idx].kind == Lost
    ensures Tidy(s.(dcc := Reap(s.dcc, idx)))
  {
    hide Find;
    var r, n := Reap(s.dcc, idx), |s.dcc| - 1;
    assert forall i | 0 <= i < |r| :: r[i] == s.dcc[if i == idx then n else i];
  }

  /** A neighbour's report about another bot takes no direct bot away. */
  lemma GoneTidy(me: Name, s: State, idx: int, bot: Name)
    requires Inv(me, s) && Tidy(s) && LinkedAt(s, idx) && bot != s.dcc[idx].nick
    ensures Tidy(Unlinked(s, idx, bot))
  {
    hide Closure, Without, Inv;
    if NextBot(s.bots, s.dcc, bot) == idx {
      forall i | 0 <= i < |s.dcc| && s.dcc[i].kind == Linked ensures Direct(LoseBot(s, bot).bots, s.dcc[i].nick) {
        if s.dcc[i].nick == bot {
          DirectRoute(me, s, bot);
        }
        DirectStays(me, s, bot, s.dcc[i].nick);
      }
    }
  }

  lemma DirectRoute(me: Name, s: State, d: Name)
    requires Inv(me, s) && Direct(s.bots, d)
    ensures Find(s.bots, d).value.via == Some(d)
  {
    var i :| 0 <= i < |s.bots| && s.bots[i] == Find(s.bots, d).value;
    EntryFits(me, s.bots, i);
  }

  /** The neighbour's entry goes, its link stays. */
  lemma OwnReport(me: Name, s: State, idx: int)
    requires Inv(me, s) && Tidy(s) && LinkedAt(s, idx)
    ensures var r := Unlinked(s, idx, s.dcc[idx].nick);
      r.dcc == s.dcc && !Listed(r.bots, s.dcc[idx].nick) && !Tidy(r)
  {
    hide Inv;
    var d := s.dcc[idx].nick;
    DirectRoute(me, s, d);
    assert NextBot(s.bots, s.dcc, d) == idx;
    RootGone(me, s, d);
    assert s.dcc[idx].kind == Linked && !Direct(LoseBot(s, d).bots, d);
  }

  lemma RootGone(me: Name, s: State, d: Name)
    requires Inv(me, s) && Listed(s.bots, d)
    ensures !Listed(LoseBot(s, d).bots, d)
  {
    RootsListed(me, s.bots, {d});
    FindWithout(s.bots, Closure(s.bots, {d}), d);
  }

  lemma TouchedTidy(s: State, bot: Name, flag: char, ver: int)
    requires Tidy(s)
    ensures Tidy(s.(bots := Touched(s.bots, bot, flag, ver)))
  {
    hide Find, Touched;
    forall d | Direct(s.bots, d) ensures Direct(Touched(s.bots, bot, flag, ver), d) {
      FindTouched(s.bots, bot, flag, ver, d);
    }
  }

  /** Exactly one kind of step breaks the correspondence. */
  lemma StepTidy(me: Name, s: State, e: Event)
    requires Inv(me, s) && Tidy(s)
    ensures Tidy(Step(me, s, e)) <==> !ReportsItself(s, e)
  {
    hide Inv, Direct, NewBot, LoseBot;
    match e {
      case Connect(nick) =>
      case Version(idx, numver, handlen) =>
        if 0 <= idx < |s.dcc| && s.dcc[idx].kind == BotNew { LinkUpTidy(me, s, idx, numver, handlen); }
      case Announced(idx, a, leaf) =>
        if LinkedAt(s, idx) && a.flag != '\0' {
          if Acceptable(me, s, idx, a, leaf) {
            var flag := if a.flag == '!' then '-' else a.flag;
            AppendTidy(s, NewBot(me, s.bots, a.newbot, s.dcc[idx].nick, a.next, flag, a.ver));
          } else {
            LoseLinkTidy(me, s, idx);
          }
        }
      case Gone(idx, bot) =>
        if LinkedAt(s, idx) {
          if bot == s.dcc[idx].nick { OwnReport(me, s, idx); } else { GoneTidy(me, s, idx, bot); }
        }
      case Hangup(idx) => if 0 <= idx < |s.dcc| { LoseLinkTidy(me, s, idx); }
      case Joined(idx, bot, nick, chan, flag, sock, from) =>
      case Parted(idx, bot, sock) =>
      case Updated(idx, bot, flag, ver) => TouchedTidy(s, bot, flag, ver);
      case Renamed(idx, bot, sock, nick) =>
      case Sweep(idx) => if 0 <= idx < |s.dcc| && s.dcc[idx].kind == Lost { ReapTidy(s, idx); }
    }
  }

  predicate NoneReportsItself(me: Name, s: State, events: seq<Event>)
    decreases |events|
  {
    events == [] || (!ReportsItself(s, events[0]) && NoneReportsItself(me, Step(me, s, events[0]), events[1..]))
  }

  predicate TidyThroughout(me: Name, s: State, events: seq<Event>)
    decreases |events|
  {
    Tidy(s) && (events == [] || TidyThroughout(me, Step(me, s, events[0]), events[1..]))
  }

  /** Along a run, links and table correspond at every point exactly when no neighbour reports itself gone. */
  lemma {:induction false} RunTidy(me: Name, s: State, events: seq<Event>)
    requires Inv(me, s) && Tidy(s)
    ensures TidyThroughout(me, s, events) <==> NoneReportsItself(me, s, events)
    ensures NoneReportsItself(me, s, events) ==> Tidy(Run(me, s, events))
    decreases |events|
  {
    hide Inv, Tidy, ReportsItself, Step;
    if events != [] {
      StepKeeps(me, s, events[0]);
      StepTidy(me, s, events[0]);
      if !ReportsItself(s, events[0]) {
        RunTidy(me, Step(me, s, events[0]), events[1..]);
      }
    }
  }

  /** A bot that is not listed has no running link. */
  lemma NoStaleLink(s: State, a: Name)
    requires Tidy(s) && !Listed(s.bots, a)
    ensures Link(a, Linked) !in s.dcc
  {
  }

  /** After any run in which no neighbour reports itself gone, a link burst is replayed in full. */
  lemma ReplayAfterRun(z: Name, events: seq<Event>, idx: int, numver: int, bots: seq<Bot>)
    requires NoneReportsItself(z, START, events)
    requires var s := Run(z, START, events); 0 <= idx < |s.dcc| && s.dcc[idx].kind == BotNew && MayReplay(z, s, idx, bots)
    ensures var s := Run(z, START, events);
      Run(z, s, [Version(idx, numver, HANDLEN)] + Burst(s.dcc[idx].nick, bots, idx)) ==
        LinkedWith(s, idx, numver, bots)
  {
    hide Run, Tidy, Burst, LinkedWith, NoneReportsItself, TidyThroughout;
    RunKeeps(z, START, events);
    assert Tidy(START) by { NothingTidy(); }
    RunTidy(z, START, events);
    var s := Run(z, START, events);
    NoStaleLink(s, s.dcc[idx].nick);
    LinkAndReplay(z, s, idx, numver, bots);
  }

  lemma NothingTidy()
    ensures Tidy(START)
  {
  }

  // ----- a bot unlinked alone

  /** What an unlink request does to a listed bot that is no neighbour: its entry goes, and nothing else. */
  function RemovedAlone(s: State, who: Name): State {
    s.(bots := Without(s.bots, {who}), tands := s.tands - 1)
  }

  predicate ChildOrUser(s: State, who: Name) {
    (exists b | b in s.bots :: b.uplink == Node(who)) || exists k | k in s.users :: k.0 == who
  }

  lemma AloneInTree(me: Name, bots: seq<Bot>, who: Name)
    requires WellFormed(me, bots) && Listed(bots, who) && forall b | b in bots :: b.uplink != Node(who)
    ensures Closure(bots, {who}) == {who}
  {
    ChildrenMeaning(me, bots, who);
    assert Children(bots, who) == {};
    SubtreeSplit(me, bots, who);
    ClosureUnlisted(bots, {});
  }

  /** That keeps the invariant exactly for a bot without children and without users. */
  lemma RemovedAloneKeeps(me: Name, s: State, who: Name)
    requires Inv(me, s) && Listed(s.bots, who)
    ensures Inv(me, RemovedAlone(s, who)) <==> !ChildOrUser(s, who)
  {
    hide WellFormed, Closure, Children, Find;
    var r := RemovedAlone(s, who);
    FindWithout(s.bots, {who}, who);
    if !ChildOrUser(s, who) {
      AloneInTree(me, s.bots, who);
      LoseBotKeeps(me, s, who);
      assert DropUsers(s.users, {who}) == s.users;
    } else if Inv(me, r) {
      forall k | k in s.users ensures k.0 != who { assert Listed(r.bots, k.0); }
      forall b | b in s.bots ensures b.uplink != Node(who) {
        if b.uplink == Node(who) { OrphanBreaks(me, s.bots, who, b); }
      }
    }
  }

  /** A bot whose parent is not listed does not fit anywhere. */
  lemma OrphanBreaks(me: Name, bots: seq<Bot>, who: Name, b: Bot)
    requires WellFormed(me, bots) && b in bots && b.uplink == Node(who)
    ensures !WellFormed(me, Without(bots, {who}))
  {
    hide WellFormed, Find;
    var r := Without(bots, {who});
    var n :| 0 <= n < |bots| && bots[n] == b;
    EntryFits(me, bots, n);
    FindWithout(bots, {who}, who);
    if WellFormed(me, r) {
      if b.name == who {
        SelfParent(me, bots, n);
      }
      var i :| 0 <= i < |r| && r[i] == b;
      EntryFits(me, r, i);
    }
  }

  lemma SelfParent(me: Name, bots: seq<Bot>, n: nat)
    requires WellFormed(me, bots) && n < |bots|
    ensures bots[n].uplink != Node(bots[n].name)
  {
    EntryFits(me, bots, n);
  }

  // ----- a neighbour that reports itself gone and links again

  /** The bot "a" links, reports itself gone, and links again while its first connection runs on. */
  const RELINK := [Connect("a"), Version(0, 0, HANDLEN), Gone(0, "a"), Connect("a")]

  const STRANDED := State([], 0, map[], [Link("a", Linked), Link("a", BotNew)])

  lemma OnlyBot(b: Bot)
    requires b.uplink == Me
    ensures Find([b], b.name) == Some(b)
    ensures Closure([b], {b.name}) == {b.name} && Without([b], {b.name}) == []
  {
    assert [b] == [] + [b];
    FindSnoc([], b, b.name);
    ClosureSnoc([], b, {b.name});
    assert [b][..0] == [];
  }

  lemma RelinkStrands()
    ensures Run("z", START, RELINK) == STRANDED && Inv("z", STRANDED)
  {
    var a := Bot("a", Some("a"), Me, '-', 0);
    OnlyBot(a);
    var s1 := State([], 0, map[], [Link("a", BotNew)]);
    var s2 := State([a], 1, map[], [Link("a", Linked)]);
    var s3 := State([], 0, map[], [Link("a", Linked)]);
    assert Step("z", START, RELINK[0]) == s1;
    assert Step("z", s1, RELINK[1]) == s2;
    assert FirstLink(s2.dcc, "a") == 0;
    assert DropUsers(s2.users, {"a"}) == map[];
    assert Step("z", s2, RELINK[2]) == s3;
    assert Step("z", s3, RELINK[3]) == STRANDED;
    FourSteps("z", START, RELINK);
    RunKeeps("z", START, RELINK);
  }

  lemma FourSteps(me: Name, s: State, es: seq<Event>)
    requires |es| == 4
    ensures Run(me, s, es) == Step(me, Step(me, Step(me, Step(me, s, es[0]), es[1]), es[2]), es[3])
  {
    assert es[1..][1..] == [es[2], es[3]];
    var t := Step(me, Step(me, s, es[0]), es[1]);
    assert Run(me, s, es) == Run(me, t, [es[2], es[3]]);
    assert [es[2], es[3]][1..] == [es[3]];
    assert Run(me, t, [es[2], es[3]]) == Run(me, Step(me, t, es[2]), [es[3]]);
  }

  /** Whatever the bot knows, none of it gets through on the second connection: the first line of the burst is
      refused and the link is lost. */
  lemma RelinkRefused(numver: int, bots: seq<Bot>)
    requires bots != [] && MayReplay("z", STRANDED, 1, bots)
    ensures Run("z", START, RELINK + ([Version(1, numver, HANDLEN)] + Burst("a", bots, 1))) ==
      State([], 0, map[], [Link("a", Linked), Link("", Lost)])
  {
    hide Run, Burst, MayReplay, Inv;
    RelinkStrands();
    RunAppend("z", START, RELINK, [Version(1, numver, HANDLEN)] + Burst("a", bots, 1));
    assert STRANDED.dcc[..1] == [Link("a", Linked)];
    LinkAndReplay("z", STRANDED, 1, numver, bots);
  }
}
