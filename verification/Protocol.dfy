/** The link protocol as a state machine over values: what each handler does to the topology table, the
    party line and the connection list, what every run keeps, and what replay and abort do. */
module Protocol {
  import opened BotTree

  // ----- the state

  /** A user on another bot. The pair of bot and socket number is the key. */
  datatype User = User(nick: Name, chan: int, flag: char, from: string)

  type Users = map<(Name, int), User>

  /** BotNew is still shaking hands, Linked is a running bot link, Lost awaits removal. */
  datatype LinkKind = BotNew | Linked | Lost

  datatype Link = Link(nick: Name, kind: LinkKind)

  datatype State = State(bots: seq<Bot>, tands: int, users: Users, dcc: seq<Link>)

  predicate InChain(me: Name, bots: seq<Bot>, who: Name) {
    Listed(bots, who) || who == me
  }

  /** The first running link to the given bot, or -1. */
  function FirstLink(dcc: seq<Link>, nick: Name): (j: int)
    ensures -1 <= j < |dcc|
    ensures j >= 0 ==> dcc[j] == Link(nick, Linked) && forall k | 0 <= k < j :: dcc[k] != Link(nick, Linked)
    ensures j == -1 ==> Link(nick, Linked) !in dcc
  {
    if dcc == [] then -1
    else if dcc[0] == Link(nick, Linked) then 0
    else
      assert dcc == [dcc[0]] + dcc[1..];
      var j := FirstLink(dcc[1..], nick);
      if j == -1 then -1 else j + 1
  }

  /** The connection that leads to a bot, or -1. */
  function NextBot(bots: seq<Bot>, dcc: seq<Link>, who: Name): (j: int)
    ensures -1 <= j < |dcc|
  {
    var b := Find(bots, who);
    if b.None? || b.value.via.None? then -1 else FirstLink(dcc, b.value.via.value)
  }

  // ----- the effect of each step

  function Truncate(s: string): (r: string)
    ensures |r| <= HANDLEN && r <= s
  {
    if |s| <= HANDLEN then s else s[..HANDLEN]
  }

  /** The entry a new bot gets; a bot may be via itself. */
  function NewBot(me: Name, bots: seq<Bot>, who: Name, from: Name, next: Name, flag: char, ver: int): Bot {
    var name := Truncate(who);
    var known := (x: Name) => Listed(bots, x) || x == name;
    Bot(name,
        if known(from) then Some(from) else None,
        if next == me then Me else if known(next) then Node(next) else Null,
        flag, ver)
  }

  /** The table without a bot and everything below it. */
  function Drop(bots: seq<Bot>, who: Name): seq<Bot> {
    Without(bots, Closure(bots, {who}))
  }

  function DropUsers(users: Users, gone: set<Name>): (r: Users)
    ensures forall k :: k in r <==> k in users && k.0 !in gone
    ensures forall k | k in r :: r[k] == users[k]
  {
    map k | k in users && k.0 !in gone :: users[k]
  }

  /** Everything that goes when a bot goes. */
  function LoseBot(s: State, who: Name): State {
    var gone := Closure(s.bots, {who});
    s.(bots := Without(s.bots, gone), tands := s.tands - |gone|, users := DropUsers(s.users, gone))
  }

  /** A connection dies: only a running link takes bots with it. */
  function LoseLink(s: State, idx: int): State
    requires 0 <= idx < |s.dcc|
  {
    (if s.dcc[idx].kind == Linked then LoseBot(s, s.dcc[idx].nick) else s).(dcc := s.dcc[idx := Link("", Lost)])
  }

  /** The version message completes a handshake. */
  function LinkUp(me: Name, s: State, idx: int, numver: int, handlen: int): State
    requires 0 <= idx < |s.dcc|
  {
    var nick := s.dcc[idx].nick;
    if InChain(me, s.bots, nick) || handlen != HANDLEN then LoseLink(s, idx)
    else s.(bots := s.bots + [NewBot(me, s.bots, nick, nick, me, '-', numver)],
            tands := s.tands + 1,
            dcc := s.dcc[idx := Link(nick, Linked)])
  }

  /** No control characters, nothing above ASCII, at most HANDLEN long. */
  predicate GoodName(s: Name) {
    |s| <= HANDLEN && forall i | 0 <= i < |s| :: 32 <= s[i] as int < 127
  }

  datatype Announce = Announce(newbot: Name, next: Name, flag: char, ver: int)

  predicate Acceptable(me: Name, s: State, idx: int, a: Announce, leaf: bool) {
    && a.next != ""
    && !InChain(me, s.bots, a.newbot)
    && GoodName(a.newbot)
    && NextBot(s.bots, s.dcc, a.next) == idx
    && !leaf
  }

  /** A neighbour announces a bot behind it, or is disconnected for announcing it wrongly. */
  function Nlinked(me: Name, s: State, idx: int, a: Announce, leaf: bool): State
    requires 0 <= idx < |s.dcc|
  {
    if Acceptable(me, s, idx, a, leaf) then
      var flag := if a.flag == '!' then '-' else a.flag;
      s.(bots := s.bots + [NewBot(me, s.bots, a.newbot, s.dcc[idx].nick, a.next, flag, a.ver)], tands := s.tands + 1)
    else LoseLink(s, idx)
  }

  /** A neighbour reports a bot behind it gone; a report about any other bot is ignored. */
  function Unlinked(s: State, idx: int, bot: Name): State {
    if NextBot(s.bots, s.dcc, bot) == idx then LoseBot(s, bot) else s
  }

  function JoinUser(users: Users, bot: Name, nick: Name, chan: int, flag: char, sock: int, from: string): Users {
    var shown := if flag == ' ' then '-' else flag;
    if (bot, sock) in users then
      var u := users[(bot, sock)].(chan := chan);
      users[(bot, sock) := if from != "" then u.(flag := shown, from := from) else u]
    else
      users[(Truncate(bot), sock) :=
        if from != "" then User(Truncate(nick), chan, shown, from) else User(Truncate(nick), chan, ' ', "(unknown)")]
  }

  /** A user joins, or changes channel. The socket number is the one already resolved. */
  function Join(s: State, idx: int, bot: Name, nick: Name, chan: int, flag: char, sock: int, from: string): State {
    if chan < 0 || flag == '\0' || NextBot(s.bots, s.dcc, bot) != idx then s
    else s.(users := JoinUser(s.users, bot, nick, chan, flag, sock, from))
  }

  /** A user leaves. The sender's direction is not checked. */
  function Part(s: State, bot: Name, sock: int): State {
    s.(users := s.users - {(bot, sock)})
  }

  /** A user changes nick; only a user on a bot behind the sender. */
  function Rename(s: State, idx: int, bot: Name, sock: int, nick: Name): State {
    if NextBot(s.bots, s.dcc, bot) == idx && (bot, sock) in s.users
    then s.(users := s.users[(bot, sock) := s.users[(bot, sock)].(nick := Truncate(nick))])
    else s
  }

  /** An entry after an update message: a flag that is not NUL and a version that is not 0 are taken over. */
  function TouchedBot(b: Bot, bot: Name, flag: char, ver: int): Bot {
    if b.name != bot then b
    else b.(share := if flag != '\0' then flag else b.share, ver := if ver != 0 then ver else b.ver)
  }

  /** A bot is updated, whoever sends the message. */
  function Touched(bots: seq<Bot>, bot: Name, flag: char, ver: int): (r: seq<Bot>)
    ensures |r| == |bots| && forall i | 0 <= i < |bots| :: r[i] == TouchedBot(bots[i], bot, flag, ver)
  {
    seq(|bots|, i requires 0 <= i < |bots| => TouchedBot(bots[i], bot, flag, ver))
  }

  /** Remove a dead connection; the last entry takes its place. */
  function Reap(dcc: seq<Link>, idx: int): seq<Link>
    requires 0 <= idx < |dcc|
  {
    var n := |dcc| - 1;
    if idx < n then dcc[..n][idx := dcc[n]] else dcc[..n]
  }

  datatype Event =
    | Connect(nick: Name)
    | Version(idx: int, numver: int, handlen: int)
    | Announced(idx: int, what: Announce, leaf: bool)
    | Gone(idx: int, bot: Name)
    | Hangup(idx: int)
    | Joined(idx: int, bot: Name, nick: Name, chan: int, flag: char, sock: int, from: string)
    | Parted(idx: int, bot: Name, sock: int)
    | Updated(idx: int, bot: Name, flag: char, ver: int)
    | Renamed(idx: int, bot: Name, sock: int, nick: Name)
    | Sweep(idx: int)

  predicate LinkedAt(s: State, idx: int) {
    0 <= idx < |s.dcc| && s.dcc[idx].kind == Linked
  }

  /** One step. Messages are handled only on a running link, the version message only during a handshake;
      a handle is never longer than HANDLEN and a flag is never NUL. Anything else does not happen. */
  function Step(me: Name, s: State, e: Event): State {
    match e
    case Connect(nick) => if |nick| <= HANDLEN then s.(dcc := s.dcc + [Link(nick, BotNew)]) else s
    case Version(idx, numver, handlen) =>
      if 0 <= idx < |s.dcc| && s.dcc[idx].kind == BotNew then LinkUp(me, s, idx, numver, handlen) else s
    case Announced(idx, a, leaf) => if LinkedAt(s, idx) && a.flag != '\0' then Nlinked(me, s, idx, a, leaf) else s
    case Gone(idx, bot) => if LinkedAt(s, idx) then Unlinked(s, idx, bot) else s
    case Hangup(idx) => if 0 <= idx < |s.dcc| then LoseLink(s, idx) else s
    case Joined(idx, bot, nick, chan, flag, sock, from) =>
      if LinkedAt(s, idx) then Join(s, idx, bot, nick, chan, flag, sock, from) else s
    case Parted(idx, bot, sock) => if LinkedAt(s, idx) then Part(s, bot, sock) else s
    case Updated(idx, bot, flag, ver) => if LinkedAt(s, idx) then s.(bots := Touched(s.bots, bot, flag, ver)) else s
    case Renamed(idx, bot, sock, nick) => if LinkedAt(s, idx) then Rename(s, idx, bot, sock, nick) else s
    case Sweep(idx) => if 0 <= idx < |s.dcc| && s.dcc[idx].kind == Lost then s.(dcc := Reap(s.dcc, idx)) else s
  }

  function Run(me: Name, s: State, events: seq<Event>): State
    decreases |events|
  {
    if events == [] then s else Run(me, Step(me, s, events[0]), events[1..])
  }

  lemma {:induction false} RunAppend(me: Name, s: State, es: seq<Event>, fs: seq<Event>)
    ensures Run(me, s, es + fs) == Run(me, Run(me, s, es), fs)
    decreases |es|
  {
    if es == [] {
      assert es + fs == fs;
    } else {
      assert (es + fs)[1..] == es[1..] + fs;
      RunAppend(me, Step(me, s, es[0]), es[1..], fs);
    }
  }

  const START := State([], 0, map[], [])

  // ----- what every run keeps

  predicate Inv(me: Name, s: State) {
    && WellFormed(me, s.bots)
    && s.tands == |s.bots|
    && (forall b | b in s.bots :: |b.name| <= HANDLEN)
    && (forall k | k in s.users :: Listed(s.bots, k.0))
    && (forall b | b in s.bots && b.uplink == Me :: Link(b.name, Linked) in s.dcc)
    && (forall l | l in s.dcc :: |l.nick| <= HANDLEN)
  }

  /** Every listed bot has a route, and the route is a running link to its direct neighbour. */
  lemma RouteExists(me: Name, s: State, who: Name)
    requires Inv(me, s)
    ensures Listed(s.bots, who) <==> NextBot(s.bots, s.dcc, who) >= 0
    ensures Listed(s.bots, who) ==>
      s.dcc[NextBot(s.bots, s.dcc, who)] == Link(Find(s.bots, who).value.via.value, Linked)
  {
    if Listed(s.bots, who) {
      var b := Find(s.bots, who).value;
      ViaIsDirect(me, s.bots, b);
      var d := Find(s.bots, b.via.value).value;
      assert Link(d.name, Linked) in s.dcc;
    }
  }

  lemma NotInChain(me: Name, s: State)
    requires Inv(me, s)
    ensures !Listed(s.bots, me)
  {
    if Listed(s.bots, me) {
      var i :| 0 <= i < |s.bots| && s.bots[i] == Find(s.bots, me).value;
      EntryFits(me, s.bots, i);
    }
  }

  lemma LoseBotKeeps(me: Name, s: State, who: Name)
    requires Inv(me, s)
    ensures Inv(me, LoseBot(s, who))
  {
    var gone := Closure(s.bots, {who});
    PruneWellFormed(me, s.bots, {who});
    PruneCount(me, s.bots, {who});
    forall k | k in DropUsers(s.users, gone) ensures Listed(Without(s.bots, gone), k.0) {
      FindWithout(s.bots, gone, k.0);
    }
  }

  lemma LoseLinkKeeps(me: Name, s: State, idx: int)
    requires Inv(me, s) && 0 <= idx < |s.dcc|
    ensures Inv(me, LoseLink(s, idx))
  {
    var l := s.dcc[idx];
    var t := if l.kind == Linked then LoseBot(s, l.nick) else s;
    if l.kind == Linked { LoseBotKeeps(me, s, l.nick); }
    var r := LoseLink(s, idx);
    forall b | b in r.bots && b.uplink == Me ensures Link(b.name, Linked) in r.dcc {
      if l == Link(b.name, Linked) {
        ClosureStep(me, s.bots, {l.nick}, b);
      }
      var j :| 0 <= j < |s.dcc| && s.dcc[j] == Link(b.name, Linked);
      assert r.dcc[j] == s.dcc[j];
    }
    forall m | m in r.dcc ensures |m.nick| <= HANDLEN {
      var j :| 0 <= j < |r.dcc| && r.dcc[j] == m;
      if j != idx { assert m == s.dcc[j]; }
    }
  }

  lemma AppendKeeps(me: Name, s: State, b: Bot, dcc: seq<Link>)
    requires Inv(me, s) && Fits(me, s.bots, b) && |b.name| <= HANDLEN
    requires b.uplink == Me ==> Link(b.name, Linked) in dcc
    requires forall l | l in s.dcc && l.kind == Linked :: l in dcc
    requires forall l | l in dcc :: |l.nick| <= HANDLEN
    ensures Inv(me, s.(bots := s.bots + [b], tands := s.tands + 1, dcc := dcc))
  {
  }

  lemma LinkUpKeeps(me: Name, s: State, idx: int, numver: int, handlen: int)
    requires Inv(me, s) && 0 <= idx < |s.dcc| && s.dcc[idx].kind == BotNew
    ensures Inv(me, LinkUp(me, s, idx, numver, handlen))
  {
    var nick := s.dcc[idx].nick;
    if InChain(me, s.bots, nick) || handlen != HANDLEN {
      LoseLinkKeeps(me, s, idx);
    } else {
      assert s.dcc[idx] in s.dcc;
      var dcc := s.dcc[idx := Link(nick, Linked)];
      assert dcc[idx] == Link(nick, Linked);
      forall l | l in s.dcc && l.kind == Linked ensures l in dcc {
        var j :| 0 <= j < |s.dcc| && s.dcc[j] == l;
        assert dcc[j] == l;
      }
      forall l | l in dcc ensures |l.nick| <= HANDLEN {
        var j :| 0 <= j < |dcc| && dcc[j] == l;
        assert l.nick == s.dcc[j].nick && s.dcc[j] in s.dcc;
      }
      AppendKeeps(me, s, NewBot(me, s.bots, nick, nick, me, '-', numver), dcc);
    }
  }

  /** The entry an accepted announcement adds: below `next`, on the sender's route. */
  lemma AcceptedFits(me: Name, s: State, idx: int, a: Announce, leaf: bool)
    requires Inv(me, s) && LinkedAt(s, idx) && a.flag != '\0' && Acceptable(me, s, idx, a, leaf)
    ensures var flag := if a.flag == '!' then '-' else a.flag;
      NewBot(me, s.bots, a.newbot, s.dcc[idx].nick, a.next, flag, a.ver) ==
        Bot(a.newbot, Some(s.dcc[idx].nick), Node(a.next), flag, a.ver)
      && Fits(me, s.bots, Bot(a.newbot, Some(s.dcc[idx].nick), Node(a.next), flag, a.ver))
    ensures Listed(s.bots, a.next) && Find(s.bots, a.next).value.via == Some(s.dcc[idx].nick)
  {
    RouteExists(me, s, a.next);
    NotInChain(me, s);
    ViaIsDirect(me, s.bots, Find(s.bots, a.next).value);
  }

  lemma NlinkedKeeps(me: Name, s: State, idx: int, a: Announce, leaf: bool)
    requires Inv(me, s) && LinkedAt(s, idx) && a.flag != '\0'
    ensures Inv(me, Nlinked(me, s, idx, a, leaf))
  {
    if Acceptable(me, s, idx, a, leaf) {
      AcceptedFits(me, s, idx, a, leaf);
      var flag := if a.flag == '!' then '-' else a.flag;
      AppendKeeps(me, s, NewBot(me, s.bots, a.newbot, s.dcc[idx].nick, a.next, flag, a.ver), s.dcc);
    } else {
      LoseLinkKeeps(me, s, idx);
    }
  }

  lemma SweepKeeps(me: Name, s: State, idx: int)
    requires Inv(me, s) && 0 <= idx < |s.dcc| && s.dcc[idx].kind == Lost
    ensures Inv(me, s.(dcc := Reap(s.dcc, idx)))
  {
    var r := Reap(s.dcc, idx);
    var n := |s.dcc| - 1;
    forall l | l in s.dcc && l.kind == Linked ensures l in r {
      var j :| 0 <= j < |s.dcc| && s.dcc[j] == l;
      assert r[if j == n then idx else j] == l;
    }
    forall l | l in r ensures l in s.dcc {
      var j :| 0 <= j < |r| && r[j] == l;
      assert l == s.dcc[if j == idx then n else j];
    }
  }

  lemma TouchedSnoc(init: seq<Bot>, last: Bot, bot: Name, flag: char, ver: int)
    ensures Touched(init + [last], bot, flag, ver) == Touched(init, bot, flag, ver) + [TouchedBot(last, bot, flag, ver)]
  {
  }

  lemma {:induction false} FindTouched(bots: seq<Bot>, bot: Name, flag: char, ver: int, who: Name)
    ensures Listed(Touched(bots, bot, flag, ver), who) <==> Listed(bots, who)
    ensures Listed(bots, who) ==>
      Find(Touched(bots, bot, flag, ver), who).value == TouchedBot(Find(bots, who).value, bot, flag, ver)
  {
    hide Touched;
    if bots != [] {
      var n := |bots| - 1;
      assert bots == bots[..n] + [bots[n]];
      FindTouched(bots[..n], bot, flag, ver, who);
      TouchedSnoc(bots[..n], bots[n], bot, flag, ver);
      FindSnoc(bots[..n], bots[n], who);
      FindSnoc(Touched(bots[..n], bot, flag, ver), TouchedBot(bots[n], bot, flag, ver), who);
    }
  }

  lemma {:induction false} TouchedWellFormed(me: Name, bots: seq<Bot>, bot: Name, flag: char, ver: int)
    requires WellFormed(me, bots)
    ensures WellFormed(me, Touched(bots, bot, flag, ver))
  {
    hide Touched, Find;
    if bots == [] {
      assert Touched(bots, bot, flag, ver) == [];
    } else {
      var n := |bots| - 1;
      var init, last := bots[..n], bots[n];
      assert bots == init + [last];
      TouchedWellFormed(me, init, bot, flag, ver);
      TouchedSnoc(init, last, bot, flag, ver);
      FindTouched(init, bot, flag, ver, last.name);
      if last.uplink.Node? { FindTouched(init, bot, flag, ver, last.uplink.name); }
      WellFormedSnoc(me, Touched(init, bot, flag, ver), TouchedBot(last, bot, flag, ver));
    }
  }

  lemma TouchedKeeps(me: Name, s: State, bot: Name, flag: char, ver: int)
    requires Inv(me, s)
    ensures Inv(me, s.(bots := Touched(s.bots, bot, flag, ver)))
  {
    hide Find, WellFormed;
    var r := Touched(s.bots, bot, flag, ver);
    TouchedWellFormed(me, s.bots, bot, flag, ver);
    forall k | k in s.users ensures Listed(r, k.0) { FindTouched(s.bots, bot, flag, ver, k.0); }
    forall b | b in r ensures |b.name| <= HANDLEN && (b.uplink == Me ==> Link(b.name, Linked) in s.dcc) {
      var i :| 0 <= i < |r| && r[i] == b;
      assert s.bots[i] in s.bots && s.bots[i].name == b.name && s.bots[i].uplink == b.uplink;
    }
  }

  lemma StepKeeps(me: Name, s: State, e: Event)
    requires Inv(me, s)
    ensures Inv(me, Step(me, s, e))
  {
    match e {
      case Connect(nick) =>
      case Version(idx, numver, handlen) =>
        if 0 <= idx < |s.dcc| && s.dcc[idx].kind == BotNew { LinkUpKeeps(me, s, idx, numver, handlen); }
      case Announced(idx, a, leaf) => if LinkedAt(s, idx) && a.flag != '\0' { NlinkedKeeps(me, s, idx, a, leaf); }
      case Gone(idx, bot) => LoseBotKeeps(me, s, bot);
      case Hangup(idx) => if 0 <= idx < |s.dcc| { LoseLinkKeeps(me, s, idx); }
      case Joined(idx, bot, nick, chan, flag, sock, from) => RouteExists(me, s, bot);
      case Parted(idx, bot, sock) =>
      case Updated(idx, bot, flag, ver) => TouchedKeeps(me, s, bot, flag, ver);
      case Renamed(idx, bot, sock, nick) =>
      case Sweep(idx) => if 0 <= idx < |s.dcc| && s.dcc[idx].kind == Lost { SweepKeeps(me, s, idx); }
    }
  }

  /** Every run of the protocol, of any length and in any order, keeps the invariant. */
  lemma {:induction false} RunKeeps(me: Name, s: State, events: seq<Event>)
    requires Inv(me, s)
    ensures Inv(me, Run(me, s, events))
    decreases |events|
  {
    if events != [] {
      StepKeeps(me, s, events[0]);
      RunKeeps(me, Step(me, s, events[0]), events[1..]);
    }
  }

  /** The same from the empty start, with the invariant spelled out for a reader. */
  lemma ReachableStates(me: Name, events: seq<Event>)
    ensures var s := Run(me, START, events);
      && TreeShaped(me, s.bots)
      && (forall i | 0 <= i < |s.bots| ::
            && s.bots[i].name != me && |s.bots[i].name| <= 9
            && (forall j | 0 <= j < i :: s.bots[j].name != s.bots[i].name)
            && (s.bots[i].uplink == Me ==> s.bots[i].via == Some(s.bots[i].name))
            && (s.bots[i].uplink != Me ==> s.bots[i].uplink.Node? && exists p ::
                  0 <= p < i && s.bots[p].name == s.bots[i].uplink.name && s.bots[p].via == s.bots[i].via))
      && s.tands == |s.bots|
      && (forall k | k in s.users :: exists i | 0 <= i < |s.bots| :: s.bots[i].name == k.0)
      && forall b | b in s.bots ::
           b.via.Some? && NextBot(s.bots, s.dcc, b.name) >= 0 &&
           s.dcc[NextBot(s.bots, s.dcc, b.name)] == Link(b.via.value, Linked)
  {
    hide Run, WellFormed, Find, NextBot, TreeShaped;
    NothingKnown(me);
    RunKeeps(me, START, events);
    var s := Run(me, START, events);
    WellFormedGivesShape(me, s.bots);
    ShapeSpelled(me, s.bots);
    RoutesSpelled(me, s);
    assert forall i | 0 <= i < |s.bots| :: s.bots[i] in s.bots;
  }

  lemma NothingKnown(me: Name)
    ensures Inv(me, START)
  {
  }

  lemma ShapeSpelled(me: Name, bots: seq<Bot>)
    requires TreeShaped(me, bots)
    ensures forall i | 0 <= i < |bots| ::
      && bots[i].name != me
      && (forall j | 0 <= j < i :: bots[j].name != bots[i].name)
      && (bots[i].uplink == Me ==> bots[i].via == Some(bots[i].name))
      && (bots[i].uplink != Me ==> bots[i].uplink.Node? && exists p ::
            0 <= p < i && bots[p].name == bots[i].uplink.name && bots[p].via == bots[i].via)
  {
  }

  lemma RoutesSpelled(me: Name, s: State)
    requires Inv(me, s)
    ensures forall b | b in s.bots ::
      b.via.Some? && NextBot(s.bots, s.dcc, b.name) >= 0 &&
      s.dcc[NextBot(s.bots, s.dcc, b.name)] == Link(b.via.value, Linked)
    ensures forall k | k in s.users :: exists i | 0 <= i < |s.bots| :: s.bots[i].name == k.0
  {
    hide WellFormed, NextBot;
    forall b | b in s.bots
      ensures b.via.Some? && NextBot(s.bots, s.dcc, b.name) >= 0 &&
              s.dcc[NextBot(s.bots, s.dcc, b.name)] == Link(b.via.value, Linked)
    {
      FindListed(me, s.bots, b);
      ViaIsDirect(me, s.bots, b);
      RouteExists(me, s, b.name);
    }
    forall k | k in s.users ensures exists i | 0 <= i < |s.bots| :: s.bots[i].name == k.0 {
      var b := Find(s.bots, k.0).value;
      var i :| 0 <= i < |s.bots| && s.bots[i] == b;
    }
  }
}
