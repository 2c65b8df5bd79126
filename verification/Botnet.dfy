/** The tables of one bot, changed in place. Every operation is tied to the value-level step in Protocol. */
module Botnet {
  import opened BotTree
  import opened Wire
  import opened PartyLine
  import opened Protocol
  import opened Announcement
  import opened Membership

  class Botnet {
    const me: Name
    var tandbot: seq<Bot>
    var tands: int
    var party: array<Member>
    var parties: int
    var dcc: seq<Link>
    var fakesock: int

    /** The occupied part of the party array. */
    ghost function Members(): seq<Member>
      requires 0 <= parties <= party.Length
      reads this, party
    {
      party[..parties]
    }

    ghost predicate Rep()
      reads this, party
    {
      0 <= parties <= party.Length && DistinctKeys(Members())
    }

    ghost function Abs(): State
      requires Rep()
      reads this, party
    {
      State(tandbot, tands, Table(Members()), dcc)
    }

    ghost predicate Valid()
      reads this, party
    {
      Rep() && Inv(me, Abs())
    }

    constructor (me: Name)
      ensures this.me == me && Valid() && Abs() == START
      ensures fresh(party) && party.Length == 50 && fakesock == 2300
    {
      this.me := me;
      tandbot, tands, dcc := [], 0, [];
      party := new Member[50](_ => Member("", "", 0, 0, ' ', ""));
      parties, fakesock := 0, 2300;
    }

    // ----- the bot list

    method FindBot(who: Name) returns (r: Option<Bot>)
      ensures r == Find(tandbot, who)
    {
      var i := 0;
      while i < |tandbot|
        invariant 0 <= i <= |tandbot|
        invariant Find(tandbot[..i], who) == None
      {
        assert tandbot[..i + 1] == tandbot[..i] + [tandbot[i]];
        FindSnoc(tandbot[..i], tandbot[i], who);
        if tandbot[i].name == who {
          FindPrefix(tandbot, i + 1, who);
          return Some(tandbot[i]);
        }
        i := i + 1;
      }
      assert tandbot[..i] == tandbot;
      return None;
    }

    /** A new bot goes to the tail; its pointers are looked up once it is in the list. */
    method AddBot(who: Name, from: Name, next: Name, flag: char, vernum: int)
      modifies this`tandbot, this`tands
      ensures tandbot == old(tandbot) + [NewBot(me, old(tandbot), who, from, next, flag, vernum)]
      ensures tands == old(tands) + 1
    {
      var ptr2 := Bot(Truncate(who), None, Null, flag, vernum);
      ghost var before := tandbot;
      tandbot := tandbot + [ptr2];
      FindSnoc(before, ptr2, from);
      FindSnoc(before, ptr2, next);
      var via := FindBot(from);
      ptr2 := ptr2.(via := if via.Some? then Some(via.value.name) else None);
      if next == me {
        ptr2 := ptr2.(uplink := Me);
      } else {
        var up := FindBot(next);
        ptr2 := ptr2.(uplink := if up.Some? then Node(up.value.name) else Null);
      }
      tandbot := tandbot[|tandbot| - 1 := ptr2];
      tands := tands + 1;
    }

    /** Unlink one entry; the party line is not touched. */
    method RemBot(who: Name)
      requires WellFormed(me, tandbot)
      modifies this`tandbot, this`tands
      ensures tandbot == Without(old(tandbot), {who})
      ensures tands == if Listed(old(tandbot), who) then old(tands) - 1 else old(tands)
    {
      var i := 0;
      while i < |tandbot| && tandbot[i].name != who
        invariant 0 <= i <= |tandbot|
        invariant forall k | 0 <= k < i :: tandbot[k].name != who
      {
        i := i + 1;
      }
      if i == |tandbot| {
        WithoutNothing(tandbot, {who});
        return;
      }
      RemoveAt(me, tandbot, i);
      tandbot := tandbot[..i] + tandbot[i + 1..];
      tands := tands - 1;
    }

    // ----- the party line

    /** Drop the entry with this key by moving the last entry into its place; `at` is where it was, or -1. */
    method RemParty(bot: Name, sock: int) returns (ghost at: int)
      requires Rep()
      modifies this`parties, party
      ensures Rep() && -1 <= at < old(parties)
      ensures at == -1 ==> Members() == old(Members()) && forall p | p in Members() :: Key(p) != (bot, sock)
      ensures at >= 0 ==> Key(old(Members())[at]) == (bot, sock) && Members() == SwapOut(old(Members()), at)
      ensures Table(Members()) == old(Table(Members())) - {(bot, sock)}
    {
      var i := 0;
      at := -1;
      ghost var list := Members();
      while i < parties
        invariant 0 <= i && 0 <= parties <= party.Length
        invariant -1 <= at < |list|
        invariant at == -1 ==> i <= parties && Members() == list
        invariant at == -1 ==> forall k | 0 <= k < i :: Key(list[k]) != (bot, sock)
        invariant at >= 0 ==> Key(list[at]) == (bot, sock) && Members() == SwapOut(list, at)
        decreases parties - i
      {
        assert party[i] == Members()[i];
        if at >= 0 { SwapOutDistinct(list, at); }
        if party[i].bot == bot && party[i].sock == sock {
          parties := parties - 1;
          if i < parties {
            party[i] := party[parties];
          }
          at := i;
        }
        i := i + 1;
      }
      if at >= 0 { SwapOutTable(list, at); SwapOutDistinct(list, at); } else { TableKeys(list, (bot, sock)); }
    }

    /** Every user on a bot goes. */
    method RemPartyBot(bot: Name)
      requires Rep()
      modifies this`parties, party
      ensures Rep() && Table(Members()) == DropUsers(old(Table(Members())), {bot})
    {
      hide Table, DropUsers;
      var i := 0;
      while i < parties
        invariant 0 <= i <= parties && Rep()
        invariant forall k | 0 <= k < i :: Members()[k].bot != bot
        invariant DropUsers(Table(Members()), {bot}) == DropUsers(old(Table(Members())), {bot})
        decreases parties - i
      {
        assert party[i] == Members()[i];
        if party[i].bot == bot {
          ghost var list := Members();
          var sock := party[i].sock;
          assert list[i] in list && Key(list[i]) == (bot, sock);
          ghost var at := RemParty(bot, sock);
          FirstOnBot(list, bot, i, at);
          DropOne(Table(list), bot, sock);
        } else {
          i := i + 1;
        }
      }
      NobodyLeft(Members(), bot);
    }

    // ----- removing subtrees

    /** Remove a listed bot with everything below it: `unvia` clears what is below, `rembot` unlinks the bot.
        `at` is its position; nothing before it moves. */
    method RemoveSubtree(who: Name, ghost at: int)
      requires Rep() && WellFormed(me, tandbot)
      requires 0 <= at < |tandbot| && tandbot[at].name == who
      modifies this`tandbot, this`tands, this`parties, party
      ensures Rep() && WellFormed(me, tandbot)
      ensures Abs() == LoseBot(old(Abs()), who)
      ensures at <= |tandbot| < |old(tandbot)| && tandbot[..at] == old(tandbot)[..at]
      decreases |tandbot| - at, 1
    {
      hide Find, WellFormed, Closure, Without, Children, Table;
      ghost var bots := tandbot;
      Unvia(Some(who), at);
      ghost var mid := tandbot;
      RemBot(who);
      SubtreeRemoved(me, bots, mid, at);
    }

    /** Remove every bot below `who`, and the users on `who` and on them. The list shrinks under the loop that
        walks it; `i` stands for the walking pointer, and the entry it points at is never freed under it. */
    method Unvia(who: Option<Name>, ghost at: int)
      requires Rep() && WellFormed(me, tandbot)
      requires who.Some? ==> 0 <= at < |tandbot| && tandbot[at].name == who.value
      modifies this`tandbot, this`tands, this`parties, party
      ensures Rep() && WellFormed(me, tandbot)
      ensures who.None? ==> Abs() == old(Abs())
      ensures who.Some? ==>
        var below := Below(old(tandbot), who.value);
        && tandbot == Without(old(tandbot), below)
        && tands == old(tands) - |below|
        && Table(Members()) == DropUsers(old(Table(Members())), {who.value} + below)
        && at < |tandbot| && tandbot[..at + 1] == old(tandbot)[..at + 1]
      decreases if who.Some? then |tandbot| - at else 0, 0
    {
      hide Find, WellFormed, Closure, Without, Children, Table, DropUsers;
      if who.None? {
        return;
      }
      var w := who.value;
      ghost var bots0, users0 := tandbot, Table(Members());
      ghost var below := Below(bots0, w);
      RemPartyBot(w);
      var i := 0;
      DropTwice(users0, {w}, below);
      while i < |tandbot|
        invariant 0 <= i <= |tandbot| <= |bots0| && Rep() && WellFormed(me, tandbot)
        invariant at < |tandbot| && tandbot[..at + 1] == bots0[..at + 1]
        invariant forall k | 0 <= k < i :: tandbot[k].uplink != Node(w)
        invariant Without(tandbot, Below(tandbot, w)) == Without(bots0, below)
        invariant tands - |Below(tandbot, w)| == old(tands) - |below|
        invariant DropUsers(Table(Members()), Below(tandbot, w)) == DropUsers(users0, {w} + below)
        decreases |tandbot| - i
      {
        var bot := tandbot[i];
        if bot.uplink == Node(w) {
          ghost var bots, users := tandbot, Table(Members());
          assert tandbot[at] == tandbot[..at + 1][at];
          ParentEarlier(me, tandbot, at, i);
          RemoveSubtree(bot.name, i);
          ChildRemoved(me, bots, tandbot, w, i);
          DropTwice(users, Closure(bots, {bot.name}), Below(tandbot, w));
          assert tandbot[..at + 1] == tandbot[..i][..at + 1];
          assert forall k | 0 <= k < i :: tandbot[k] == tandbot[..i][k];
        } else {
          i := i + 1;
        }
      }
      NoChildren(tandbot, w);
    }

    /** How many bots would go with this one; none for a null pointer. */
    method BotsInSubtree(bot: Option<Name>, ghost at: int) returns (nr: int)
      requires WellFormed(me, tandbot)
      requires bot.Some? ==> 0 <= at < |tandbot| && tandbot[at].name == bot.value
      ensures nr == if bot.None? then 0 else |Closure(tandbot, {bot.value})|
      decreases if bot.Some? then |tandbot| - at else 0
    {
      hide Find, WellFormed, Closure, Children;
      if bot.None? {
        return 0;
      }
      var w := bot.value;
      nr := 1;
      var i := 0;
      NoChildrenYet(tandbot, w);
      while i < |tandbot|
        invariant 0 <= i <= |tandbot|
        invariant nr == 1 + |Closure(tandbot, ChildrenBefore(tandbot, w, i))|
      {
        if tandbot[i].uplink == Node(w) {
          ParentEarlier(me, tandbot, at, i);
          var n := BotsInSubtree(Some(tandbot[i].name), i);
          nr := nr + n;
          NextChild(me, tandbot, w, i);
        } else {
          NotChild(tandbot, w, i);
        }
        i := i + 1;
      }
      AllChildren(me, tandbot, at);
    }

    /** How many users would go with this bot. */
    method UsersInSubtree(bot: Option<Name>, ghost at: int) returns (nr: int)
      requires Rep() && WellFormed(me, tandbot)
      requires bot.Some? ==> 0 <= at < |tandbot| && tandbot[at].name == bot.value
      ensures nr == if bot.None? then 0 else |UsersOn(Table(Members()), Closure(tandbot, {bot.value}))|
      decreases if bot.Some? then |tandbot| - at else 0
    {
      hide Find, WellFormed, Closure, Children, Table, UsersOn, ChildrenBefore;
      nr := 0;
      if bot.None? {
        return;
      }
      var w := bot.value;
      ghost var users := Table(Members());
      var i := 0;
      CountNobody(w);
      while i < parties
        invariant 0 <= i <= parties
        invariant nr == |UsersOn(Table(Members()[..i]), {w})|
      {
        CountNext(Members(), i, w);
        if party[i].bot == w {
          nr := nr + 1;
        }
        i := i + 1;
      }
      assert Members()[..i] == Members();
      i := 0;
      NoChildrenYet(tandbot, w);
      assert {w} + {} == {w};
      while i < |tandbot|
        invariant 0 <= i <= |tandbot|
        invariant nr == |UsersOn(users, {w} + Closure(tandbot, ChildrenBefore(tandbot, w, i)))|
      {
        if tandbot[i].uplink == Node(w) {
          ParentEarlier(me, tandbot, at, i);
          var n := UsersInSubtree(Some(tandbot[i].name), i);
          nr := nr + n;
          NextChild(me, tandbot, w, i);
          ghost var seen, c := Closure(tandbot, ChildrenBefore(tandbot, w, i)), Closure(tandbot, {tandbot[i].name});
          UsersOnSum(users, {w} + seen, c);
          assert {w} + (seen + c) == {w} + seen + c;
        } else {
          NotChild(tandbot, w, i);
        }
        i := i + 1;
      }
      AllChildren(me, tandbot, at);
    }

    // ----- connections

    /** The connection that leads to a bot, or -1. */
    method NextBot(who: Name) returns (j: int)
      ensures j == Protocol.NextBot(tandbot, dcc, who)
    {
      var bot := FindBot(who);
      if bot.None? || bot.value.via.None? {
        return -1;
      }
      j := 0;
      while j < |dcc|
        invariant 0 <= j <= |dcc|
        invariant forall k | 0 <= k < j :: dcc[k] != Link(bot.value.via.value, Linked)
      {
        if dcc[j].nick == bot.value.via.value && dcc[j].kind == Linked {
          return;
        }
        j := j + 1;
      }
      return -1;
    }

    method InChain(who: Name) returns (r: bool)
      ensures r == Protocol.InChain(me, tandbot, who)
    {
      var b := FindBot(who);
      r := b.Some? || who == me;
    }

    /** Unlink a bot with everything behind it, if it is listed at all. */
    method DropBot(who: Name)
      requires Rep() && WellFormed(me, tandbot)
      modifies this`tandbot, this`tands, this`parties, party
      ensures Rep() && WellFormed(me, tandbot) && Abs() == LoseBot(old(Abs()), who)
    {
      hide WellFormed, Closure, Children, Table, Without;
      var bot := FindBot(who);
      if bot.Some? {
        ghost var at :| 0 <= at < |tandbot| && tandbot[at] == bot.value;
        RemoveSubtree(bot.value.name, at);
      } else {
        LoseNothing(Abs(), who);
        Unvia(None, 0);
        RemBot(who);
      }
    }

    /** The kill hook runs first, then the slot is overwritten. */
    method LostDcc(n: int)
      requires Valid()
      modifies this`tandbot, this`tands, this`parties, this`dcc, party
      ensures Valid()
      ensures Abs() == if 0 <= n < |old(dcc)| then LoseLink(old(Abs()), n) else old(Abs())
    {
      if n < 0 || n >= |dcc| {
        return;
      }
      hide Find, WellFormed, Closure, Table, Without;
      LoseLinkKeeps(me, Abs(), n);
      if dcc[n].kind == Linked {
        DropBot(dcc[n].nick);
      }
      dcc := dcc[n := Link("", Lost)];
    }

    /** A bot link dies. The report counts what is lost before it is lost. */
    method EofDccBot(idx: int) returns (bots: int, lost: int)
      requires Valid() && LinkedAt(Abs(), idx)
      modifies this`tandbot, this`tands, this`parties, this`dcc, party
      ensures Valid() && Abs() == LoseLink(old(Abs()), idx)
      ensures tands == old(tands) - bots
      ensures |Table(Members())| == |old(Table(Members()))| - lost
    {
      hide Find, WellFormed, Closure, Children, Table;
      var bot := FindBot(dcc[idx].nick);
      var name := if bot.Some? then Some(bot.value.name) else None;
      ghost var at := if bot.Some? then Position(tandbot, bot.value) else 0;
      bots := BotsInSubtree(name, at);
      lost := UsersInSubtree(name, at);
      LossCounts(me, Abs(), dcc[idx].nick);
      LostDcc(idx);
    }

    // ----- handlers

    /** The burst sent to a new neighbour: one line for every bot already known, in list order. */
    method DumpLinks() returns (lines: seq<string>)
      requires WellFormed(me, tandbot)
      requires forall b | b in tandbot :: |b.name| <= HANDLEN && Int32(b.ver)
      requires |me| <= HANDLEN
      ensures lines == BurstLines(me, tandbot)
    {
      hide Find, WellFormed, LineText, LineFor;
      lines := [];
      var i := 0;
      while i < |tandbot|
        invariant 0 <= i <= |tandbot| && lines == BurstLines(me, tandbot)[..i]
      {
        var bot := tandbot[i];
        ParentName(me, tandbot, i);
        var p := if bot.uplink == Me then me else bot.uplink.name;
        var line := PrintNlinked(Announce(bot.name, p, bot.share, bot.ver));
        lines := lines + [line];
        i := i + 1;
      }
    }

    /** The users in the burst: the bot's own, which the caller gives, then every member of the party array. */
    method DumpParty(chats: seq<Member>) returns (lines: seq<string>)
      requires Rep()
      requires forall p | p in chats + Members() :: Int32(p.chan) && Int32(p.sock)
      requires forall p | p in Members() :: p.bot != me
      requires forall p | p in chats :: p.bot == me
      ensures lines == JoinLines(me, chats + Members())
    {
      hide JoinText;
      lines := [];
      var i := 0;
      while i < |chats|
        invariant 0 <= i <= |chats| && lines == JoinLines(me, chats)[..i]
      {
        assert chats[i] in chats + Members();
        var line := PrintJoin(Own, Message(chats[i]));
        lines := lines + [line];
        i := i + 1;
      }
      i := 0;
      while i < parties
        invariant 0 <= i <= parties && lines == JoinLines(me, chats) + JoinLines(me, Members())[..i]
      {
        assert Members()[i] in chats + Members();
        assert party[i] == Members()[i] && Members()[i] in Members();
        var line := PrintJoin(Remote, Message(party[i]));
        lines := lines + [line];
        i := i + 1;
      }
      assert JoinLines(me, chats + Members()) == JoinLines(me, chats) + JoinLines(me, Members());
    }

    /** The handshake ends: refuse a known bot or a foreign handle length, else add the neighbour. */
    method BotVersion(idx: int, par: string)
      requires Valid() && 0 <= idx < |dcc| && dcc[idx].kind == BotNew
      modifies this`tandbot, this`tands, this`parties, this`dcc, party
      ensures Valid() && Abs() == LinkUp(me, old(Abs()), idx, ParseVersion(par).numver, ParseVersion(par).handlen)
    {
      hide Find, WellFormed, Closure, Table, Without, Atoi, SkipSpaces, Before, After;
      LinkUpKeeps(me, Abs(), idx, ParseVersion(par).numver, ParseVersion(par).handlen);
      var known := InChain(dcc[idx].nick);
      if known {
        LostDcc(idx);
        return;
      }
      var numver, rest := 0, par;
      if par != "" && Digit(par[0]) {
        var work;
        work, rest := NewSplit(par);
        numver := Atoi(work);
      }
      if numver >= NEAT_BOTNET {
        var work;
        work, rest := NewSplit(rest);
        if Atoi(work) != HANDLEN {
          LostDcc(idx);
          return;
        }
      }
      dcc := dcc[idx := Link(dcc[idx].nick, Linked)];
      AddBot(dcc[idx].nick, dcc[idx].nick, me, '-', numver);
    }

    method BogusName(newbot: string) returns (bogus: bool)
      ensures bogus <==> !GoodName(newbot)
    {
      bogus := false;
      var p := 0;
      while p < |newbot|
        invariant 0 <= p <= |newbot|
        invariant bogus <==> !GoodName(newbot[..p])
      {
        assert newbot[..p + 1] == newbot[..p] + [newbot[p]];
        if newbot[p] as int < 32 || newbot[p] as int >= 127 || p >= HANDLEN {
          bogus := true;
        }
        p := p + 1;
      }
      assert newbot[..p] == newbot;
    }

    /** An announced bot is checked for loops, for its name, for its direction and for a leaf's sender. */
    method BotNlinked(idx: int, par: string, leaf: bool)
      requires Valid() && LinkedAt(Abs(), idx)
      requires ParseNlinked(par).flag != '\0'
      modifies this`tandbot, this`tands, this`parties, this`dcc, party
      ensures Valid() && Abs() == Nlinked(me, old(Abs()), idx, ParseNlinked(par), leaf)
    {
      hide Find, WellFormed, Closure, Table, Without, ParseNlinked, GoodName;
      NlinkedKeeps(me, Abs(), idx, ParseNlinked(par), leaf);
      var a := ReadNlinked(par);
      var newbot, next := a.newbot, a.next;
      var refuse, bogus := false, false;
      if next == "" {
        refuse := true;
      } else {
        var known := InChain(newbot);
        if known {
          refuse := true;
        }
      }
      if !refuse {
        bogus := BogusName(newbot);
        var i := NextBot(next);
        if i != idx {
          bogus := true;
        }
      }
      if bogus {
        refuse := true;
      }
      if leaf {
        refuse := true;
      }
      if refuse {
        LostDcc(idx);
        return;
      }
      var x := a.flag;
      if x == '!' {
        x := '-';
      }
      AddBot(newbot, dcc[idx].nick, next, x, a.ver);
    }

    /** A neighbour reports a bot gone; only a bot behind that neighbour is believed. */
    method BotUnlinked(idx: int, par: string)
      requires Valid() && LinkedAt(Abs(), idx)
      modifies this`tandbot, this`tands, this`parties, party
      ensures Valid() && Abs() == Unlinked(old(Abs()), idx, Before(SkipSpaces(par), ' '))
    {
      var bot, rest := NewSplit(par);
      LoseBotKeeps(me, Abs(), bot);
      var i := NextBot(bot);
      if i >= 0 && i != idx {
      } else if i >= 0 {
        DropBot(bot);
      }
    }

    /** A bot's flag and version are taken over, whoever sends them. */
    method BotUpdate(idx: int, par: string)
      requires Valid() && LinkedAt(Abs(), idx)
      modifies this`tandbot
      ensures Valid()
      ensures var u := ParseUpdate(par); Abs() == Step(me, old(Abs()), Updated(idx, u.bot, u.flag, u.ver))
    {
      hide Find, WellFormed, Closure, Table, Without, ParseUpdate;
      var u := ReadUpdate(par);
      StepKeeps(me, Abs(), Updated(idx, u.bot, u.flag, u.ver));
      var known := InChain(u.bot);
      if known {
        UpdateBot(u.bot, u.flag, u.ver);
      } else {
        NotTouched(tandbot, u.bot, u.flag, u.ver);
      }
    }

    /** Nothing happens for my own name, which is never listed. */
    method UpdateBot(who: Name, share: char, vernum: int)
      requires WellFormed(me, tandbot)
      modifies this`tandbot
      ensures tandbot == Touched(old(tandbot), who, share, vernum)
    {
      hide Find, WellFormed;
      var i := 0;
      while i < |tandbot| && tandbot[i].name != who
        invariant 0 <= i <= |tandbot| && forall k | 0 <= k < i :: tandbot[k].name != who
      {
        i := i + 1;
      }
      if i < |tandbot| {
        OthersDiffer(me, tandbot, i);
        var ptr := tandbot[i];
        if share != '\0' {
          ptr := ptr.(share := share);
        }
        if vernum != 0 {
          ptr := ptr.(ver := vernum);
        }
        tandbot := tandbot[i := ptr];
      }
    }

    // ----- users

    /** The socket number of the first such user, or 0. */
    method PartySock(bot: Name, nick: Name) returns (sock: int)
      requires Rep()
      ensures sock == SockOf(Members(), bot, nick)
    {
      hide SockOf;
      var i := 0;
      while i < parties
        invariant 0 <= i <= parties
        invariant forall k | 0 <= k < i :: !(Members()[k].bot == bot && Members()[k].nick == nick)
      {
        assert party[i] == Members()[i];
        if party[i].bot == bot && party[i].nick == nick {
          SockFound(Members(), bot, nick, i);
          return party[i].sock;
        }
        i := i + 1;
      }
      SockFound(Members(), bot, nick, i);
      return 0;
    }

    /** The member with this key, or -1. */
    method FindMember(bot: Name, sock: int) returns (i: int)
      requires Rep()
      ensures -1 <= i < parties
      ensures i >= 0 ==> Key(Members()[i]) == (bot, sock)
      ensures i < 0 ==> (bot, sock) !in Table(Members())
    {
      hide Table;
      i := 0;
      while i < parties
        invariant 0 <= i <= parties
        invariant forall k | 0 <= k < i :: Key(Members()[k]) != (bot, sock)
      {
        assert party[i] == Members()[i];
        if party[i].bot == bot && party[i].sock == sock {
          return;
        }
        i := i + 1;
      }
      TableKeys(Members(), (bot, sock));
      return -1;
    }

    /** Add a user, or move one who is already there; the array grows by fifty when it is full. A name is cut to fit
        only after the search, so keys stay unique exactly unless a long name becomes one that is there. */
    method AddParty(bot: Name, nick: Name, chan: int, flag: char, sock: int, from: string) returns (was: int, at: int)
      requires Rep()
      modifies this`parties, this`party, party
      ensures 0 <= at < parties <= party.Length && Members()[at].sock == sock
      ensures Table(Members()) == JoinUser(old(Table(Members())), bot, nick, chan, flag, sock, from)
      ensures Rep() <==> (bot, sock) in old(Table(Members())) || (Truncate(bot), sock) !in old(Table(Members()))
      ensures party == old(party) || fresh(party)
      ensures if (bot, sock) in old(Table(Members()))
        then was == old(Table(Members()))[(bot, sock)].chan && Members()[at].bot == bot && parties == old(parties)
        else was == -1 && Members()[at].bot == Truncate(bot) && at == old(parties) && parties == old(parties) + 1
      ensures party.Length == old(party.Length) + if parties > old(party.Length) then 50 else 0
    {
      hide Table, DistinctKeys;
      ghost var list := Members();
      var shown := if flag == ' ' then '-' else flag;
      at := FindMember(bot, sock);
      if at >= 0 {
        TableAt(list, at);
        assert party[at] == list[at];
        was := party[at].chan;
        var p := party[at].(chan := chan);
        if from != "" {
          p := p.(flag := shown, from := from);
        }
        party[at] := p;
        UpdateTable(list, at, p);
        assert Members() == list[at := p];
        return;
      }
      if parties == party.Length {
        Grow();
      }
      var p := Member(Truncate(nick), Truncate(bot), sock, chan,
                      if from != "" then shown else ' ', if from != "" then from else "(unknown)");
      party[parties] := p;
      was, at := -1, parties;
      parties := parties + 1;
      assert Members() == list + [p];
      AppendTable(list, p);
    }

    method Grow()
      requires Rep()
      modifies this`party
      ensures fresh(party) && party.Length == old(party.Length) + 50
      ensures parties <= party.Length && Members() == old(Members())
    {
      var bigger := new Member[party.Length + 50](_ => Member("", "", 0, 0, ' ', ""));
      forall k | 0 <= k < parties {
        bigger[k] := party[k];
      }
      party := bigger;
    }

    /** The socket number given, else the user's own if known, else the next made-up one. */
    method ResolveSock(bot: Name, nick: Name, given: int) returns (sock: int)
      requires Rep()
      modifies this`fakesock
      ensures var known := SockOf(Members(), bot, nick);
        if given != 0 then sock == given && fakesock == old(fakesock)
        else if known != 0 then sock == known && fakesock == old(fakesock)
        else sock == old(fakesock) && fakesock == old(fakesock) + 1
    {
      sock := given;
      if sock == 0 {
        sock := PartySock(bot, nick);
      }
      if sock == 0 {
        sock := fakesock;
        fakesock := fakesock + 1;
      }
    }

    /** A user joins somewhere behind the sender. A message without a socket number gets one: the user's own if
        known, else the next made-up one. */
    method BotJoin(idx: int, par: string) returns (sock: int)
      requires Valid() && LinkedAt(Abs(), idx)
      requires ParseJoin(par).flag != '\0'
      modifies this`parties, this`party, this`fakesock, party
      ensures Valid() && (party == old(party) || fresh(party))
      ensures var m := ParseJoin(par);
        Abs() == Join(old(Abs()), idx, m.bot, m.nick, m.chan, m.flag, sock, m.from)
      ensures var m, known := ParseJoin(par), SockOf(old(Members()), ParseJoin(par).bot, ParseJoin(par).nick);
        if m.chan < 0 || m.sock != 0 then sock == m.sock && fakesock == old(fakesock)
        else if known != 0 then sock == known && fakesock == old(fakesock)
        else sock == old(fakesock) && fakesock == old(fakesock) + 1
    {
      hide Find, WellFormed, Closure, Table, Without, ParseJoin, JoinUser, SockOf;
      var m := ReadJoin(par);
      if m.chan < 0 || !m.complete {
        return m.sock;
      }
      sock := ResolveSock(m.bot, m.nick, m.sock);
      var i := NextBot(m.bot);
      if i != idx {
        return;
      }
      JoinBehind(idx, m, sock);
    }

    /** The part of the handler after the direction check. */
    method JoinBehind(idx: int, m: JoinMsg, sock: int)
      requires Valid() && LinkedAt(Abs(), idx) && m.chan >= 0 && m.flag != '\0'
      requires Protocol.NextBot(tandbot, dcc, m.bot) == idx
      modifies this`parties, this`party, party
      ensures Valid() && (party == old(party) || fresh(party))
      ensures Abs() == Join(old(Abs()), idx, m.bot, m.nick, m.chan, m.flag, sock, m.from)
    {
      hide Find, WellFormed, Table, JoinUser, DistinctKeys;
      StepKeeps(me, Abs(), Joined(idx, m.bot, m.nick, m.chan, m.flag, sock, m.from));
      ShortName(me, Abs(), m.bot);
      var was, at := AddParty(m.bot, m.nick, m.chan, m.flag, sock, m.from);
    }

    /** A user behind the sender changes nick. */
    method BotNickchange(idx: int, par: string)
      requires Valid() && LinkedAt(Abs(), idx)
      modifies party
      ensures Valid()
      ensures var m := ParseNick(par); Abs() == Rename(old(Abs()), idx, m.bot, m.sock, m.nick)
    {
      hide Find, WellFormed, Table, DistinctKeys;
      var bot, p1 := NewSplit(par);
      var i := NextBot(bot);
      if i != idx {
        return;
      }
      var ssock, p2 := NewSplit(p1);
      var sock := Base64ToInt(ssock);
      var newnick, rest := NewSplit(p2);
      StepKeeps(me, Abs(), Renamed(idx, bot, sock, newnick));
      PartyNick(bot, sock, newnick);
    }

    method PartyNick(bot: Name, sock: int, nick: Name)
      requires Rep()
      modifies party
      ensures Rep()
      ensures var users := old(Table(Members()));
        Table(Members()) ==
          if (bot, sock) in users then users[(bot, sock) := users[(bot, sock)].(nick := Truncate(nick))] else users
    {
      hide Table, DistinctKeys;
      ghost var list := Members();
      var i := FindMember(bot, sock);
      if i >= 0 {
        assert party[i] == list[i];
        TableAt(list, i);
        var p := party[i].(nick := Truncate(nick));
        party[i] := p;
        UpdateTable(list, i, p);
        assert Members() == list[i := p];
      }
    }

    /** A user leaves. Whoever sends the message is believed. */
    method BotPart(idx: int, par: string) returns (sock: int)
      requires Valid() && LinkedAt(Abs(), idx)
      modifies this`parties, party
      ensures Valid()
      ensures var m := ParsePart(par);
        && sock == (if m.sock != 0 then m.sock else SockOf(old(Members()), m.bot, m.nick))
        && Abs() == Part(old(Abs()), m.bot, sock)
    {
      hide Find, WellFormed, Closure, Table, Without, ParsePart;
      var m := ReadPart(par);
      sock := m.sock;
      if sock == 0 {
        sock := PartySock(m.bot, m.nick);
      }
      StepKeeps(me, Abs(), Parted(idx, m.bot, sock));
      ghost var at := RemParty(m.bot, sock);
    }
  }

  lemma ShortName(me: Name, s: State, bot: Name)
    requires Inv(me, s) && NextBot(s.bots, s.dcc, bot) >= 0
    ensures Truncate(bot) == bot
  {
    RouteExists(me, s, bot);
    assert Find(s.bots, bot).value in s.bots;
  }

  lemma NotTouched(bots: seq<Bot>, who: Name, flag: char, ver: int)
    requires !Listed(bots, who)
    ensures Touched(bots, who, flag, ver) == bots
  {
    assert forall i | 0 <= i < |bots| :: bots[i] in bots;
  }

  lemma OthersDiffer(me: Name, bots: seq<Bot>, i: int)
    requires WellFormed(me, bots) && 0 <= i < |bots|
    ensures forall k | 0 <= k < |bots| && k != i :: bots[k].name != bots[i].name
  {
    forall k | 0 <= k < |bots| && k != i ensures bots[k].name != bots[i].name {
      if k < i { NamesDiffer(me, bots, k, i); } else { NamesDiffer(me, bots, i, k); }
    }
  }

  /** Everything strictly below a bot. */
  function Below(bots: seq<Bot>, who: Name): set<Name> {
    Closure(bots, Children(bots, who))
  }

  lemma DropTwice(users: Users, a: set<Name>, b: set<Name>)
    ensures DropUsers(DropUsers(users, a), b) == DropUsers(users, a + b)
  {
  }

  lemma NoChildren(bots: seq<Bot>, who: Name)
    requires forall k | 0 <= k < |bots| :: bots[k].uplink != Node(who)
    ensures Below(bots, who) == {} && Without(bots, {}) == bots
    ensures forall users: Users :: DropUsers(users, {}) == users
  {
    ClosureUnlisted(bots, Children(bots, who));
    WithoutNothing(bots, {});
  }

  /** The children of `who` among the first `i` entries. */
  function ChildrenBefore(bots: seq<Bot>, who: Name, i: int): set<Name>
    requires 0 <= i <= |bots|
  {
    set k | 0 <= k < i && bots[k].uplink == Node(who) :: bots[k].name
  }

  /** The parent a line names is short enough to print. */
  lemma ParentName(me: Name, bots: seq<Bot>, i: int)
    requires WellFormed(me, bots) && 0 <= i < |bots| && |me| <= HANDLEN && forall b | b in bots :: |b.name| <= HANDLEN
    ensures bots[i].uplink != Null && |LineFor(me, bots[i]).next| <= HANDLEN
    ensures LineFor(me, bots[i]) == Announce(bots[i].name, if bots[i].uplink == Me then me else bots[i].uplink.name,
                                             bots[i].share, bots[i].ver)
  {
  }

  lemma NoChildrenYet(bots: seq<Bot>, who: Name)
    ensures Closure(bots, ChildrenBefore(bots, who, 0)) == {}
  {
    ClosureUnlisted(bots, ChildrenBefore(bots, who, 0));
  }

  lemma NotChild(bots: seq<Bot>, who: Name, i: int)
    requires 0 <= i < |bots| && bots[i].uplink != Node(who)
    ensures ChildrenBefore(bots, who, i + 1) == ChildrenBefore(bots, who, i)
  {
  }

  /** Counting one more child adds its subtree, and the subtree is new. */
  lemma NextChild(me: Name, bots: seq<Bot>, who: Name, i: int)
    requires WellFormed(me, bots) && 0 <= i < |bots| && bots[i].uplink == Node(who)
    ensures var seen, c := ChildrenBefore(bots, who, i), bots[i].name;
      && Closure(bots, ChildrenBefore(bots, who, i + 1)) == Closure(bots, seen) + Closure(bots, {c})
      && Closure(bots, seen) !! Closure(bots, {c})
      && |Closure(bots, ChildrenBefore(bots, who, i + 1))| == |Closure(bots, seen)| + |Closure(bots, {c})|
      && who !in Closure(bots, {c})
  {
    hide Closure, Find;
    var seen, c := ChildrenBefore(bots, who, i), bots[i].name;
    assert ChildrenBefore(bots, who, i + 1) == seen + {c};
    ClosureUnion(bots, seen, {c});
    forall k | 0 <= k < i ensures bots[k].name != c { NamesDiffer(me, bots, k, i); }
    ChildrenMeaning(me, bots, who);
    assert bots[i] in bots && forall k | 0 <= k < i :: bots[k] in bots;
    assert seen + {c} <= Children(bots, who);
    SiblingsDisjoint(me, bots, who, seen, {c});
    ParentOutside(me, bots, who, {c});
  }

  lemma AllChildren(me: Name, bots: seq<Bot>, at: int)
    requires WellFormed(me, bots) && 0 <= at < |bots|
    ensures var who := bots[at].name;
      && Closure(bots, {who}) == {who} + Closure(bots, ChildrenBefore(bots, who, |bots|))
      && |Closure(bots, {who})| == 1 + |Closure(bots, ChildrenBefore(bots, who, |bots|))|
  {
    var who := bots[at].name;
    EntryFits(me, bots, at);
    SubtreeSplit(me, bots, who);
    assert ChildrenBefore(bots, who, |bots|) == Children(bots, who);
  }

  ghost function Position(bots: seq<Bot>, b: Bot): (i: int)
    requires b in bots
    ensures 0 <= i < |bots| && bots[i] == b
  {
    var i :| 0 <= i < |bots| && bots[i] == b;
    i
  }

  /** The keys of the users on any of these bots. */
  function UsersOn(users: Users, bots: set<Name>): set<(Name, int)> {
    set k | k in users && k.0 in bots
  }

  lemma UsersOnSum(users: Users, a: set<Name>, b: set<Name>)
    requires a !! b
    ensures |UsersOn(users, a + b)| == |UsersOn(users, a)| + |UsersOn(users, b)|
  {
    assert UsersOn(users, a + b) == UsersOn(users, a) + UsersOn(users, b);
  }

  lemma CountNobody(who: Name)
    ensures forall list: seq<Member> | list == [] :: |UsersOn(Table(list), {who})| == 0
  {
  }

  lemma CountNext(list: seq<Member>, i: int, who: Name)
    requires DistinctKeys(list) && 0 <= i < |list|
    ensures |UsersOn(Table(list[..i + 1]), {who})| ==
      |UsersOn(Table(list[..i]), {who})| + if list[i].bot == who then 1 else 0
  {
    assert list[..i + 1] == list[..i] + [list[i]];
    AppendTable(list[..i], list[i]);
    TableKeys(list[..i], Key(list[i]));
    var before, after := UsersOn(Table(list[..i]), {who}), UsersOn(Table(list[..i + 1]), {who});
    assert after == if list[i].bot == who then before + {Key(list[i])} else before;
  }

  lemma LoseNothing(s: State, who: Name)
    requires !Listed(s.bots, who)
    ensures LoseBot(s, who) == s && Without(s.bots, {who}) == s.bots
  {
    ClosureUnlisted(s.bots, {who});
    WithoutNothing(s.bots, {});
    WithoutNothing(s.bots, {who});
  }

  /** The sizes of the two tables fall by the sizes of what is removed. */
  lemma LossCounts(me: Name, s: State, who: Name)
    requires WellFormed(me, s.bots)
    ensures |LoseBot(s, who).users| == |s.users| - |UsersOn(s.users, Closure(s.bots, {who}))|
    ensures !Listed(s.bots, who) ==> Closure(s.bots, {who}) == {} && UsersOn(s.users, {}) == {}
  {
    var gone := Closure(s.bots, {who});
    var left := DropUsers(s.users, gone);
    assert left.Keys == s.users.Keys - UsersOn(s.users, gone);
    if !Listed(s.bots, who) { ClosureUnlisted(s.bots, {who}); }
  }

  /** First what is below the bot (`mid`), then the bot itself: together its whole subtree. */
  lemma SubtreeRemoved(me: Name, bots: seq<Bot>, mid: seq<Bot>, at: int)
    requires WellFormed(me, bots) && 0 <= at < |bots|
    requires WellFormed(me, mid) && at < |mid| && mid[..at + 1] == bots[..at + 1]
    requires mid == Without(bots, Below(bots, bots[at].name))
    ensures var who, rest := bots[at].name, Without(mid, {bots[at].name});
      && rest == Drop(bots, who) && WellFormed(me, rest)
      && Listed(mid, who)
      && at <= |rest| < |bots| && rest[..at] == bots[..at]
      && {who} + Below(bots, who) == Closure(bots, {who})
      && 1 + |Below(bots, who)| == |Closure(bots, {who})|
  {
    hide Find, WellFormed, Closure, Without;
    var who, below := bots[at].name, Below(bots, bots[at].name);
    EntryFits(me, bots, at);
    SubtreeSplit(me, bots, who);
    assert below + {who} == Closure(bots, {who});
    WithoutTwice(bots, below, {who});
    PruneWellFormed(me, bots, {who});
    PruneCount(me, bots, {who});
    assert mid[at] == mid[..at + 1][at] == bots[at];
    RemoveAt(me, mid, at);
    EntryFits(me, mid, at);
    assert (mid[..at] + mid[at + 1..])[..at] == mid[..at + 1][..at] == bots[..at];
  }

  /** Once a child's subtree is gone, what is left to do is what was to do less that subtree. */
  lemma ChildRemoved(me: Name, bots: seq<Bot>, rest: seq<Bot>, who: Name, i: int)
    requires WellFormed(me, bots) && 0 <= i < |bots| && bots[i].uplink == Node(who)
    requires rest == Drop(bots, bots[i].name)
    ensures var gone := Closure(bots, {bots[i].name});
      && Below(bots, who) == gone + Below(rest, who)
      && |Below(bots, who)| == |gone| + |Below(rest, who)|
      && Without(rest, Below(rest, who)) == Without(bots, Below(bots, who))
  {
    ChildFirst(me, bots, who, bots[i].name);
    ClosureDisjointAfter(bots, rest, Closure(bots, {bots[i].name}), Children(rest, who));
  }

  /** A pruned name is in no closure of the pruned list. */
  lemma ClosureDisjointAfter(bots: seq<Bot>, rest: seq<Bot>, gone: set<Name>, roots: set<Name>)
    requires rest == Without(bots, gone)
    ensures gone !! Closure(rest, roots)
  {
  }
}
