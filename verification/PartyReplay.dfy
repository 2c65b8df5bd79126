/** The users in a link burst: after the lines that list them the receiver has its own users and the sender's. */
module PartyReplay {
  import opened BotTree
  import opened Wire
  import opened Announcement
  import opened Membership
  import opened PartyLine
  import opened Protocol
  import opened Replay
  import opened BurstWire

  // ----- the lines as events

  function JoinEvent(idx: int, p: Member): Event {
    Joined(idx, p.bot, p.nick, p.chan, p.flag, p.sock, p.from)
  }

  function Joins(idx: int, list: seq<Member>): seq<Event> {
    seq(|list|, i requires 0 <= i < |list| => JoinEvent(idx, list[i]))
  }

  /** A member as tables hold them. */
  predicate Sendable(p: Member) {
    && 0 <= p.chan && p.flag != '\0' && p.from != ""
    && |p.nick| <= HANDLEN && |p.bot| <= HANDLEN
  }

  /** A user who joined without an address has a space for a flag. */
  predicate NoBlanks(list: seq<Member>) {
    forall p | p in list :: p.flag != ' '
  }

  predicate Routed(s: State, idx: int, list: seq<Member>) {
    forall p | p in list :: NextBot(s.bots, s.dcc, p.bot) == idx
  }

  /** Nobody in the list is on the receiver's party line yet. */
  predicate Newcomers(s: State, list: seq<Member>) {
    DistinctKeys(list) && forall p | p in list :: Key(p) !in s.users
  }

  lemma JoinsSnoc(z: Name, s: State, idx: int, init: seq<Member>, last: Member)
    ensures Run(z, s, Joins(idx, init + [last])) == Step(z, Run(z, s, Joins(idx, init)), JoinEvent(idx, last))
  {
    var e := JoinEvent(idx, last);
    var t := Run(z, s, Joins(idx, init));
    assert Joins(idx, init + [last]) == Joins(idx, init) + [e];
    RunAppend(z, s, Joins(idx, init), [e]);
    assert Run(z, t, [e]) == Step(z, t, e);
  }

  lemma JoinsOne(z: Name, s: State, users: Users, idx: int, p: Member)
    requires LinkedAt(s, idx) && NextBot(s.bots, s.dcc, p.bot) == idx && Sendable(p) && p.flag != ' ' && Key(p) !in users
    ensures Step(z, s.(users := users), JoinEvent(idx, p)) == s.(users := users[Key(p) := Info(p)])
  {
  }

  /** Replaying the list on a running link adds exactly its members. */
  lemma {:induction false} JoinsReplay(z: Name, s: State, idx: int, list: seq<Member>)
    requires LinkedAt(s, idx) && Routed(s, idx, list) && Newcomers(s, list) && NoBlanks(list)
    requires forall p | p in list :: Sendable(p)
    ensures Run(z, s, Joins(idx, list)) == s.(users := s.users + Table(list))
    decreases |list|
  {
    hide Step, Table, Sendable, NextBot;
    if list == [] {
      NoTable();
      assert s.users + map[] == s.users;
    } else {
      var n := |list| - 1;
      var init, last := list[..n], list[n];
      assert list == init + [last];
      assert forall i | 0 <= i < n :: init[i] == list[i];
      JoinsReplay(z, s, idx, init);
      JoinsSnoc(z, s, idx, init, last);
      NotYet(list);
      JoinsOne(z, s, s.users + Table(init), idx, last);
      AppendTable(init, last);
      assert (s.users + Table(init))[Key(last) := Info(last)] == s.users + Table(list);
    }
  }

  lemma NoTable()
    ensures Table([]) == map[]
  {
  }

  lemma NotYet(list: seq<Member>)
    requires DistinctKeys(list) && list != []
    ensures Key(list[|list| - 1]) !in Table(list[..|list| - 1])
  {
    TableKeys(list[..|list| - 1], Key(list[|list| - 1]));
  }

  // ----- joins as they are heard

  /** What is heard of a member: the join itself, or if its flag is a space some other join with its address. */
  predicate AsHeard(idx: int, p: Member, e: Event) {
    e.Joined? && e.idx == idx && e.bot == p.bot && e.from == p.from && (p.flag != ' ' ==> e == JoinEvent(idx, p))
  }

  predicate AllHeard(idx: int, list: seq<Member>, es: seq<Event>) {
    |es| == |list| && forall i | 0 <= i < |es| :: AsHeard(idx, list[i], es[i])
  }

  /** On a link the users' bots are not routed through, or that is gone, nothing is added. */
  lemma {:induction false} JoinsIgnored(z: Name, s: State, idx: int, list: seq<Member>, es: seq<Event>)
    requires AllHeard(idx, list, es)
    requires !LinkedAt(s, idx) || forall p | p in list :: NextBot(s.bots, s.dcc, p.bot) != idx
    ensures Run(z, s, es) == s
    decreases |es|
  {
    if es != [] {
      assert AsHeard(idx, list[0], es[0]);
      assert list[0] in list && forall p | p in list[1..] :: p in list;
      JoinsIgnored(z, s, idx, list[1..], es[1..]);
    }
  }

  /** Nobody who was not there before has a space for a flag. */
  predicate NoNewBlank(base: Users, users: Users) {
    forall k | k in users && k !in base :: users[k].flag != ' '
  }

  predicate WithAddress(e: Event) {
    e.Version? || e.Announced? || (e.Joined? && e.from != "")
  }

  lemma StepNoBlank(z: Name, base: Users, s: State, e: Event)
    requires NoNewBlank(base, s.users) && WithAddress(e)
    ensures NoNewBlank(base, Step(z, s, e).users)
  {
    hide Acceptable, InChain, NewBot, NextBot, Closure, Without;
  }

  lemma {:induction false} RunNoBlank(z: Name, base: Users, s: State, es: seq<Event>)
    requires NoNewBlank(base, s.users) && forall e | e in es :: WithAddress(e)
    ensures NoNewBlank(base, Run(z, s, es).users)
    decreases |es|
  {
    hide Step, NoNewBlank, WithAddress;
    if es != [] {
      assert es[0] in es && forall e | e in es[1..] :: e in es;
      StepNoBlank(z, base, s, es[0]);
      RunNoBlank(z, base, Step(z, s, es[0]), es[1..]);
    }
  }

  lemma HeardIsJoins(idx: int, list: seq<Member>, es: seq<Event>)
    requires AllHeard(idx, list, es) && NoBlanks(list)
    ensures es == Joins(idx, list)
  {
    forall i | 0 <= i < |es| ensures es[i] == Joins(idx, list)[i] {
      assert AsHeard(idx, list[i], es[i]) && list[i] in list;
    }
  }

  // ----- the whole burst

  /** The users the sender lists: its own and those on bots it knows. */
  predicate UsersOf(a: Name, bots: seq<Bot>, list: seq<Member>) {
    DistinctKeys(list) && forall p | p in list :: Sendable(p) && (p.bot == a || Listed(bots, p.bot))
  }

  lemma AllNew(z: Name, s: State, idx: int, bots: seq<Bot>, list: seq<Member>)
    requires Inv(z, s) && 0 <= idx < |s.dcc| && MayReplay(z, s, idx, bots) && UsersOf(s.dcc[idx].nick, bots, list)
    ensures Newcomers(s, list) && forall p | p in list :: Sendable(p)
  {
    forall p | p in list ensures Key(p) !in s.users {
      if Listed(bots, p.bot) { assert NewTo(z, s, Find(bots, p.bot).value.name); }
    }
  }

  /** Once the table has been replayed, every bot of the sender's is reached through the link. */
  lemma AllRouted(z: Name, s: State, idx: int, numver: int, bots: seq<Bot>, list: seq<Member>)
    requires Inv(z, s) && 0 <= idx < |s.dcc| && s.dcc[idx].kind == BotNew && MayReplay(z, s, idx, bots)
    requires UsersOf(s.dcc[idx].nick, bots, list)
    ensures var t := LinkedWith(s, idx, numver, bots);
      forall p | p in list :: NextBot(t.bots, t.dcc, p.bot) == FirstLink(t.dcc, s.dcc[idx].nick)
  {
    var a, t := s.dcc[idx].nick, LinkedWith(s, idx, numver, bots);
    var base := s.bots + [Bot(a, Some(a), Me, '-', numver)];
    forall p | p in list ensures NextBot(t.bots, t.dcc, p.bot) == FirstLink(t.dcc, a) {
      FindConcat(base, Graft(a, a, bots), p.bot);
      FindSnoc(s.bots, Bot(a, Some(a), Me, '-', numver), p.bot);
      FindGraft(a, a, bots, p.bot);
      if p.bot != a { assert NewTo(z, s, Find(bots, p.bot).value.name); }
    }
  }

  /** Handshake, table and users, the users as they are heard: the receiver ends with the sender's table below the
      sender, and with its own users and the sender's, exactly when nothing is sent or no older running connection to
      the same bot stands before this one, and no user has a space for a flag. */
  lemma LinkWithUsers(z: Name, s: State, idx: int, numver: int, bots: seq<Bot>, list: seq<Member>, heard: seq<Event>)
    requires Inv(z, s) && 0 <= idx < |s.dcc| && s.dcc[idx].kind == BotNew && MayReplay(z, s, idx, bots)
    requires UsersOf(s.dcc[idx].nick, bots, list) && AllHeard(idx, list, heard)
    ensures var burst := Burst(s.dcc[idx].nick, bots, idx) + heard;
      var whole := LinkedWith(s, idx, numver, bots).(users := s.users + Table(list));
      Run(z, s, [Version(idx, numver, HANDLEN)] + burst) == whole
      <==> ((bots == [] && list == []) || FirstOfItsBot(s, idx)) && NoBlanks(list)
  {
    hide *;
    if NoBlanks(list) {
      HeardIsJoins(idx, list, heard);
      PlainUsers(z, s, idx, numver, bots, list, heard);
    } else {
      BlankUsers(z, s, idx, numver, bots, list, heard);
    }
  }

  lemma BlankUsers(z: Name, s: State, idx: int, numver: int, bots: seq<Bot>, list: seq<Member>, heard: seq<Event>)
    requires Inv(z, s) && 0 <= idx < |s.dcc| && s.dcc[idx].kind == BotNew && MayReplay(z, s, idx, bots)
    requires UsersOf(s.dcc[idx].nick, bots, list) && AllHeard(idx, list, heard) && !NoBlanks(list)
    ensures var burst := Burst(s.dcc[idx].nick, bots, idx) + heard;
      Run(z, s, [Version(idx, numver, HANDLEN)] + burst).users != s.users + Table(list)
  {
    hide Inv, Run, Find, WellFormed, Table, Step, MayReplay, UsersOf, NoNewBlank;
    AllNew(z, s, idx, bots, list);
    var es := [Version(idx, numver, HANDLEN)] + (Burst(s.dcc[idx].nick, bots, idx) + heard);
    AddressedBurst(idx, numver, s.dcc[idx].nick, bots, list, heard);
    NothingNew(s.users);
    RunNoBlank(z, s.users, s, es);
    var i :| 0 <= i < |list| && list[i].flag == ' ';
    BlankKept(s, list, i, Run(z, s, es).users);
  }

  lemma NothingNew(users: Users)
    ensures NoNewBlank(users, users)
  {
  }

  lemma BlankKept(s: State, list: seq<Member>, i: int, users: Users)
    requires Newcomers(s, list) && 0 <= i < |list| && list[i].flag == ' ' && NoNewBlank(s.users, users)
    ensures users != s.users + Table(list)
  {
    TableAt(list, i);
    assert list[i] in list;
  }

  lemma AddressedBurst(idx: int, numver: int, a: Name, bots: seq<Bot>, list: seq<Member>, heard: seq<Event>)
    requires AllHeard(idx, list, heard) && forall p | p in list :: Sendable(p)
    ensures forall e | e in [Version(idx, numver, HANDLEN)] + (Burst(a, bots, idx) + heard) :: WithAddress(e)
  {
    forall e | e in heard ensures WithAddress(e) {
      var i :| 0 <= i < |heard| && heard[i] == e;
      assert AsHeard(idx, list[i], heard[i]) && list[i] in list;
    }
  }

  lemma PlainUsers(z: Name, s: State, idx: int, numver: int, bots: seq<Bot>, list: seq<Member>, joins: seq<Event>)
    requires Inv(z, s) && 0 <= idx < |s.dcc| && s.dcc[idx].kind == BotNew && MayReplay(z, s, idx, bots)
    requires UsersOf(s.dcc[idx].nick, bots, list) && NoBlanks(list)
    requires AllHeard(idx, list, joins) && joins == Joins(idx, list)
    ensures var burst := Burst(s.dcc[idx].nick, bots, idx) + joins;
      var whole := LinkedWith(s, idx, numver, bots).(users := s.users + Table(list));
      Run(z, s, [Version(idx, numver, HANDLEN)] + burst) == whole
      <==> (bots == [] && list == []) || FirstOfItsBot(s, idx)
  {
    hide Inv, Run, Find, WellFormed, Table, Step, MayReplay, UsersOf, Newcomers, AllHeard;
    var a, v := s.dcc[idx].nick, [Version(idx, numver, HANDLEN)];
    assert v + (Burst(a, bots, idx) + joins) == v + Burst(a, bots, idx) + joins;
    RunAppend(z, s, v + Burst(a, bots, idx), joins);
    LinkAndReplay(z, s, idx, numver, bots);
    AllNew(z, s, idx, bots, list);
    AllRouted(z, s, idx, numver, bots, list);
    var end, t := Run(z, s, v + Burst(a, bots, idx)), LinkedWith(s, idx, numver, bots);
    LinkFound(s, idx, numver, bots);
    NoTable();
    if FirstOfItsBot(s, idx) {
      Settled(s, t, list);
      JoinsReplay(z, t, idx, list);
    } else {
      JoinsIgnored(z, end, idx, list, joins);
      if list != [] { FirstMember(s, list); }
      assert list == [] ==> s.users + Table(list) == s.users;
    }
  }

  lemma LinkFound(s: State, idx: int, numver: int, bots: seq<Bot>)
    requires 0 <= idx < |s.dcc| && s.dcc[idx].kind == BotNew
    ensures var t := LinkedWith(s, idx, numver, bots);
      && t.users == s.users && t.dcc[idx] == Link(s.dcc[idx].nick, Linked)
      && (FirstLink(t.dcc, s.dcc[idx].nick) == idx <==> FirstOfItsBot(s, idx))
  {
    var t := LinkedWith(s, idx, numver, bots);
    assert t.dcc[..idx] == s.dcc[..idx];
    FirstIsFound(t.dcc, idx);
  }

  lemma Settled(s: State, t: State, list: seq<Member>)
    requires Newcomers(s, list) && t.users == s.users
    ensures Newcomers(t, list)
  {
  }

  lemma FirstMember(s: State, list: seq<Member>)
    requires Newcomers(s, list) && list != []
    ensures s.users + Table(list) != s.users
  {
    TableAt(list, 0);
    assert list[0] in list;
  }

  // ----- over the wire

  /** `e` is what a line makes the receiver on connection `idx` do. A join that gives no socket number is given one by
      the receiver. */
  predicate Reads(idx: int, line: string, e: Event) {
    line != "" &&
    var (code, msg) := Command(line[..|line| - 1]);
    if code == "n" then e == Announced(idx, ParseNlinked(msg), false)
    else
      var m := ParseJoin(msg);
      && code == "j" && m.complete && e.Joined? && (m.sock != 0 ==> e.sock == m.sock)
      && e == Joined(idx, m.bot, m.nick, m.chan, m.flag, e.sock, m.from)
  }

  predicate ReadsAll(idx: int, lines: seq<string>, es: seq<Event>) {
    |es| == |lines| && forall i | 0 <= i < |es| :: Reads(idx, lines[i], es[i])
  }

  /** A member whose line can be taken apart. A name on the net does not begin with the mark, or it would be lost. */
  predicate Legible(p: Member) {
    FitsLine(p) && Word(p.bot) && p.bot[0] != '!' && Word(p.nick) && p.sock != 0 && Int32(p.sock) && Int32(p.chan)
  }

  lemma JoinRead(a: Name, p: Member, idx: int, e: Event)
    requires Sendable(p) && Legible(p) && Reads(idx, JoinLine(a, p), e)
    ensures AsHeard(idx, p, e)
  {
    hide ParseJoin, ParseNlinked, JoinText, Command, Base64, Value;
    var mark := Mark(if p.bot == a then Own else Remote);
    JoinFits(mark, Message(p));
    JoinRoundTrip(mark, Message(p));
    if p.flag == ' ' { BlankMisread(mark, Message(p)); }
  }

  lemma JoinsRead(a: Name, list: seq<Member>, idx: int, es: seq<Event>)
    requires forall p | p in list :: Sendable(p) && Legible(p)
    requires ReadsAll(idx, JoinLines(a, list), es)
    ensures AllHeard(idx, list, es)
  {
    hide Reads, JoinLine, Sendable, Legible, AsHeard;
    forall i | 0 <= i < |es| ensures AsHeard(idx, list[i], es[i]) {
      assert list[i] in list && JoinLines(a, list)[i] == JoinLine(a, list[i]);
      JoinRead(a, list[i], idx, es[i]);
    }
  }

  lemma BotRead(a: Name, b: Bot, idx: int, e: Event)
    requires Word(a) && Printable(b) && Reads(idx, LineText(LineFor(a, b)), e)
    ensures e == Announced(idx, LineFor(a, b), false)
  {
    hide ParseNlinked, LineText, Command;
    WireRoundTrip(LineFor(a, b));
  }

  lemma BurstRead(a: Name, bots: seq<Bot>, idx: int, es: seq<Event>)
    requires Word(a) && forall b | b in bots :: Printable(b)
    requires ReadsAll(idx, BurstLines(a, bots), es)
    ensures es == Burst(a, bots, idx)
  {
    hide Reads, LineText, Printable, LineFor;
    forall i | 0 <= i < |es| ensures es[i] == Burst(a, bots, idx)[i] {
      assert bots[i] in bots && BurstLines(a, bots)[i] == LineText(LineFor(a, bots[i]));
      BotRead(a, bots[i], idx, es[i]);
    }
  }

  lemma ReadsBoth(idx: int, a: seq<string>, b: seq<string>, es: seq<Event>)
    requires ReadsAll(idx, a + b, es)
    ensures ReadsAll(idx, a, es[..|a|]) && ReadsAll(idx, b, es[|a|..])
  {
    hide Reads;
    assert forall i | 0 <= i < |b| :: (a + b)[|a| + i] == b[i] && es[|a|..][i] == es[|a| + i];
    forall i | 0 <= i < |b| ensures Reads(idx, b[i], es[|a|..][i]) { assert Reads(idx, (a + b)[|a| + i], es[|a| + i]); }
  }

  /** What is read from the lines of a burst is the burst, and the users as they are heard. */
  lemma LinesRead(a: Name, bots: seq<Bot>, list: seq<Member>, idx: int, es: seq<Event>) returns (heard: seq<Event>)
    requires Word(a) && (forall b | b in bots :: Printable(b)) && forall p | p in list :: Sendable(p) && Legible(p)
    requires ReadsAll(idx, BurstLines(a, bots) + JoinLines(a, list), es)
    ensures es == Burst(a, bots, idx) + heard && AllHeard(idx, list, heard)
  {
    hide Reads, Sendable, Legible, Printable, Burst, AllHeard, LineText, JoinLine;
    var n := |BurstLines(a, bots)|;
    ReadsBoth(idx, BurstLines(a, bots), JoinLines(a, list), es);
    BurstRead(a, bots, idx, es[..n]);
    JoinsRead(a, list, idx, es[n..]);
    heard := es[n..];
    assert es == es[..n] + es[n..];
  }

  /** From the printed lines of both tables to both tables of the receiver. */
  lemma LinkOverTheWire(z: Name, s: State, idx: int, numver: int, bots: seq<Bot>, list: seq<Member>, es: seq<Event>)
    requires Inv(z, s) && 0 <= idx < |s.dcc| && s.dcc[idx].kind == BotNew && MayReplay(z, s, idx, bots)
    requires UsersOf(s.dcc[idx].nick, bots, list) && forall p | p in list :: Legible(p)
    requires Word(s.dcc[idx].nick) && forall x | x in bots :: Word(x.name) && Int32(x.ver)
    requires ReadsAll(idx, BurstLines(s.dcc[idx].nick, bots) + JoinLines(s.dcc[idx].nick, list), es)
    ensures var whole := LinkedWith(s, idx, numver, bots).(users := s.users + Table(list));
      Run(z, s, [Version(idx, numver, HANDLEN)] + es) == whole
      <==> ((bots == [] && list == []) || FirstOfItsBot(s, idx)) && NoBlanks(list)
  {
    hide Run, Inv, Find, WellFormed, LinkedWith, Table, Sendable, Legible, ReadsAll, AllHeard, Burst, BurstLines,
      JoinLines, NoBlanks, FirstOfItsBot, Printable, GoodName, InChain;
    TablePrintable(s.dcc[idx].nick, bots);
    var heard := LinesRead(s.dcc[idx].nick, bots, list, idx, es);
    LinkWithUsers(z, s, idx, numver, bots, list, heard);
  }

  // ----- what tables hold

  predicate UserComplete(u: User) {
    0 <= u.chan && u.flag != '\0' && u.from != "" && |u.nick| <= HANDLEN
  }

  lemma StepUsers(z: Name, s: State, e: Event)
    requires forall k | k in s.users :: UserComplete(s.users[k])
    ensures forall k | k in Step(z, s, e).users :: UserComplete(Step(z, s, e).users[k])
  {
    hide Acceptable, InChain, NewBot, NextBot, Closure, Without, Touched;
  }

  /** In every reachable state each user has a channel of at least 0, a flag, an address, and a nick that fits. */
  lemma {:induction false} UsersComplete(z: Name, s: State, es: seq<Event>)
    requires forall k | k in s.users :: UserComplete(s.users[k])
    ensures forall k | k in Run(z, s, es).users :: UserComplete(Run(z, s, es).users[k])
    decreases |es|
  {
    hide Step, UserComplete;
    if es != [] {
      StepUsers(z, s, es[0]);
      UsersComplete(z, Step(z, s, es[0]), es[1..]);
    }
  }
}
