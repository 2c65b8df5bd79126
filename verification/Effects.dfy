/** What each message does to the tables, field by field. */
module Effects {
  import opened BotTree
  import opened Protocol
  import opened PartyLine
  import opened Replay

  // ----- users

  /** A join on the link that leads to its bot puts the user on the channel named. One who is there keeps nick, and
      flag and address too unless the join brings an address; a new one without an address gets a space and a text. */
  lemma JoinEffect(me: Name, s: State, idx: int, bot: Name, nick: Name, chan: int, flag: char, sock: int, from: string)
    requires Inv(me, s) && LinkedAt(s, idx)
    ensures var t, k := Step(me, s, Joined(idx, bot, nick, chan, flag, sock, from)), (bot, sock);
      && t.bots == s.bots && t.tands == s.tands && t.dcc == s.dcc
      && (chan < 0 || flag == '\0' || NextBot(s.bots, s.dcc, bot) != idx ==> t.users == s.users)
      && (chan >= 0 && flag != '\0' && NextBot(s.bots, s.dcc, bot) == idx ==>
            && t.users.Keys == s.users.Keys + {k}
            && (forall j | j in s.users && j != k :: t.users[j] == s.users[j])
            && t.users[k].chan == chan
            && t.users[k].nick == (if k in s.users then s.users[k].nick else if |nick| <= 9 then nick else nick[..9])
            && (from != "" ==> t.users[k].from == from && t.users[k].flag == if flag == ' ' then '-' else flag)
            && (from == "" && k in s.users ==> t.users[k].from == s.users[k].from && t.users[k].flag == s.users[k].flag)
            && (from == "" && k !in s.users ==> t.users[k].from == "(unknown)" && t.users[k].flag == ' '))
  {
    if NextBot(s.bots, s.dcc, bot) == idx {
      RouteExists(me, s, bot);
      assert Find(s.bots, bot).value in s.bots;
    }
  }

  /** A nick change reaches a listed user on a bot behind the link, and nothing but the nick. */
  lemma RenameEffect(me: Name, s: State, idx: int, bot: Name, sock: int, nick: Name)
    requires LinkedAt(s, idx)
    ensures var t, k := Step(me, s, Renamed(idx, bot, sock, nick)), (bot, sock);
      && t.bots == s.bots && t.tands == s.tands && t.dcc == s.dcc && t.users.Keys == s.users.Keys
      && (forall j | j in s.users && j != k :: t.users[j] == s.users[j])
      && (k in s.users ==>
            && t.users[k].chan == s.users[k].chan && t.users[k].flag == s.users[k].flag
            && t.users[k].from == s.users[k].from
            && t.users[k].nick ==
                 if NextBot(s.bots, s.dcc, bot) != idx then s.users[k].nick
                 else if |nick| <= 9 then nick else nick[..9])
  {
  }

  /** A part takes out the key it names. */
  lemma PartEffect(me: Name, s: State, idx: int, bot: Name, sock: int)
    requires LinkedAt(s, idx)
    ensures var t := Step(me, s, Parted(idx, bot, sock));
      && t.bots == s.bots && t.tands == s.tands && t.dcc == s.dcc
      && (forall j :: j in t.users <==> j in s.users && j != (bot, sock))
      && forall j | j in t.users :: t.users[j] == s.users[j]
  {
  }

  // ----- bots

  /** An update sets the flag of the bot it names unless it brings none, and the version unless it brings 0. */
  lemma UpdateEffect(me: Name, s: State, idx: int, bot: Name, flag: char, ver: int)
    requires LinkedAt(s, idx)
    ensures var t := Step(me, s, Updated(idx, bot, flag, ver));
      && t.tands == s.tands && t.dcc == s.dcc && t.users == s.users && |t.bots| == |s.bots|
      && forall i | 0 <= i < |s.bots| ::
           && t.bots[i].name == s.bots[i].name && t.bots[i].via == s.bots[i].via && t.bots[i].uplink == s.bots[i].uplink
           && t.bots[i].share == (if s.bots[i].name == bot && flag != '\0' then flag else s.bots[i].share)
           && t.bots[i].ver == (if s.bots[i].name == bot && ver != 0 then ver else s.bots[i].ver)
  {
  }

  /** Uplinks lead from `x` to `top`. */
  ghost predicate Leads(bots: seq<Bot>, x: Name, top: Name) {
    exists path :: Climbs(bots, path) && path[0] == x && path[|path| - 1] == top
  }

  /** Exactly the bots from which uplinks lead to `top` are gone, and exactly the users on them. */
  ghost predicate LostWith(s: State, t: State, top: Name) {
    && (forall b :: b in t.bots <==> b in s.bots && !Leads(s.bots, b.name, top))
    && (forall k :: k in t.users <==> k in s.users && !Leads(s.bots, k.0, top))
    && (forall k | k in t.users :: t.users[k] == s.users[k])
    && t.tands == |t.bots|
  }

  lemma LossEffect(me: Name, s: State, top: Name)
    requires Inv(me, s)
    ensures LostWith(s, LoseBot(s, top), top)
  {
    hide Closure, Climbs, WellFormed;
    forall x ensures x in Closure(s.bots, {top}) <==> Leads(s.bots, x, top) { SubtreeIsDescendants(me, s.bots, top, x); }
    PruneCount(me, s.bots, {top});
  }

  /** A report of loss is believed for a bot behind the link. */
  lemma GoneEffect(me: Name, s: State, idx: int, bot: Name)
    requires Inv(me, s) && LinkedAt(s, idx)
    ensures var t := Step(me, s, Gone(idx, bot));
      t.dcc == s.dcc && if NextBot(s.bots, s.dcc, bot) == idx then LostWith(s, t, bot) else t == s
  {
    hide LostWith;
    LossEffect(me, s, bot);
    assert LoseBot(s, bot).dcc == s.dcc;
  }

  /** A connection that is lost takes its bot with it if it was a running link. */
  lemma HangupEffect(me: Name, s: State, idx: int)
    requires Inv(me, s) && 0 <= idx < |s.dcc|
    ensures var t := Step(me, s, Hangup(idx));
      && t.dcc == s.dcc[idx := Link("", Lost)]
      && if s.dcc[idx].kind == Linked then LostWith(s, t, s.dcc[idx].nick)
         else t.bots == s.bots && t.tands == s.tands && t.users == s.users
  {
    hide LoseBot;
    LossEffect(me, s, s.dcc[idx].nick);
  }

  // ----- connections

  /** Sweeping takes out one dead connection and leaves all the others. */
  lemma SweepEffect(me: Name, s: State, idx: int)
    requires 0 <= idx < |s.dcc| && s.dcc[idx].kind == Lost
    ensures var t := Step(me, s, Sweep(idx));
      && t.bots == s.bots && t.tands == s.tands && t.users == s.users
      && multiset(t.dcc) == multiset(s.dcc) - multiset{Link(s.dcc[idx].nick, Lost)}
  {
    ReapBag(s.dcc, idx);
  }

  lemma ReapBag(dcc: seq<Link>, idx: int)
    requires 0 <= idx < |dcc|
    ensures multiset(Reap(dcc, idx)) == multiset(dcc) - multiset{dcc[idx]}
  {
    var n := |dcc| - 1;
    var front, last := dcc[..n], dcc[n];
    assert dcc == front + [last];
    assert multiset(dcc) == multiset(front) + multiset{last};
    if idx < n {
      assert multiset(front[idx := last]) == multiset(front) - multiset{front[idx]} + multiset{last};
    }
  }

  // ----- bursts

  /** What arrives of the sender's table: every bot under its name, with its version and its flag unless that is the
      mark of a new link, below the same parent or, if it was direct, below the sender, routed as the sender is. */
  lemma GraftEffect(v: Name, a: Name, bots: seq<Bot>, i: nat)
    requires i < |bots|
    ensures |Graft(v, a, bots)| == |bots|
    ensures var g, b := Graft(v, a, bots)[i], bots[i];
      && g.name == b.name && g.ver == b.ver && g.via == Some(v)
      && g.share == (if b.share == '!' then '-' else b.share)
      && g.uplink.Node? && g.uplink.name == (if b.uplink.Node? then b.uplink.name else a)
  {
  }

  /** The state a whole link leads to. */
  lemma LinkEffect(s: State, idx: int, numver: int, bots: seq<Bot>, i: nat)
    requires 0 <= idx < |s.dcc| && i < |bots|
    ensures var t, a, n := LinkedWith(s, idx, numver, bots), s.dcc[idx].nick, |s.bots|;
      && t.users == s.users && t.dcc == s.dcc[idx := Link(a, Linked)] && t.tands == s.tands + 1 + |bots|
      && |t.bots| == n + 1 + |bots| && t.bots[..n] == s.bots && t.bots[n] == Bot(a, Some(a), Me, '-', numver)
      && t.bots[n + 1 + i].name == bots[i].name && t.bots[n + 1 + i].ver == bots[i].ver
      && t.bots[n + 1 + i].via == Some(a)
      && t.bots[n + 1 + i].uplink == (if bots[i].uplink.Node? then bots[i].uplink else Node(a))
  {
  }

  /** The users a list stands for. */
  lemma UserEffect(users: Users, list: seq<Member>, i: nat)
    requires DistinctKeys(list) && i < |list|
    ensures var all, p := users + Table(list), list[i];
      (p.bot, p.sock) in all && all[(p.bot, p.sock)] == User(p.nick, p.chan, p.flag, p.from)
  {
    TableAt(list, i);
  }
}
