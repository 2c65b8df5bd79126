/** Which links and announcements are admitted, in terms of the messages themselves, and what that means for every
    reachable table. */
module Admission {
  import opened BotTree
  import opened Protocol

  // ----- handshakes

  /** A handshake is completed exactly for a bot that is neither known nor me and whose handles are nine characters
      long; it is then listed last, directly below me, with its version. Otherwise the connection is lost and nothing
      else changes. */
  lemma Handshake(me: Name, s: State, idx: int, numver: int, handlen: int)
    requires Inv(me, s) && 0 <= idx < |s.dcc| && s.dcc[idx].kind == BotNew
    ensures var t, nick := Step(me, s, Version(idx, numver, handlen)), s.dcc[idx].nick;
      if nick != me && (forall b | b in s.bots :: b.name != nick) && handlen == 9
      then t.bots == s.bots + [Bot(nick, Some(nick), Me, '-', numver)] && t.tands == s.tands + 1 && t.users == s.users
        && t.dcc == s.dcc[idx := Link(nick, Linked)]
      else t.bots == s.bots && t.tands == s.tands && t.users == s.users && t.dcc == s.dcc[idx := Link("", Lost)]
  {
    assert s.dcc[idx] in s.dcc;
  }

  // ----- announcements

  predicate Printing(s: string) {
    forall i | 0 <= i < |s| :: 32 <= s[i] as int <= 126
  }

  /** What a bot's neighbour must say to have another bot listed: a new name of one to nine printing characters, and a
      parent that is listed behind the connection; and it must not be flagged a leaf. An empty name is only kept out
      by the text form. */
  predicate Proper(me: Name, s: State, idx: int, a: Announce, leaf: bool) {
    && !leaf
    && a.newbot != me && (forall b | b in s.bots :: b.name != a.newbot)
    && |a.newbot| <= 9 && Printing(a.newbot)
    && a.next != "" && Listed(s.bots, a.next)
    && FirstLink(s.dcc, Find(s.bots, a.next).value.via.GetOr("")) == idx
  }

  lemma Refused(me: Name, s: State, idx: int)
    requires Inv(me, s) && LinkedAt(s, idx)
    ensures var t := LoseLink(s, idx);
      && t.dcc == s.dcc[idx := Link("", Lost)] && (forall b | b in t.bots :: b in s.bots)
      && forall b | b in t.bots :: b.name != s.dcc[idx].nick
  {
    hide Find, Closure, WellFormed;
    var d := s.dcc[idx].nick;
    if Listed(s.bots, d) { RootsListed(me, s.bots, {d}); }
  }

  lemma SameCheck(me: Name, s: State, idx: int, a: Announce, leaf: bool)
    requires Inv(me, s) && LinkedAt(s, idx)
    ensures Acceptable(me, s, idx, a, leaf) <==> Proper(me, s, idx, a, leaf)
  {
    hide WellFormed, FirstLink;
    if Listed(s.bots, a.next) { ViaIsDirect(me, s.bots, Find(s.bots, a.next).value); }
  }

  /** An announcement on a running link is carried out exactly then, and otherwise costs the sender its link. */
  lemma Announcing(me: Name, s: State, idx: int, a: Announce, leaf: bool)
    requires Inv(me, s) && LinkedAt(s, idx) && a.flag != '\0'
    ensures var t := Step(me, s, Announced(idx, a, leaf));
      var entry := Bot(a.newbot, Some(s.dcc[idx].nick), Node(a.next), if a.flag == '!' then '-' else a.flag, a.ver);
      && (Proper(me, s, idx, a, leaf) ==> t == s.(tands := s.tands + 1, bots := s.bots + [entry]))
      && (!Proper(me, s, idx, a, leaf) ==>
            && t.dcc == s.dcc[idx := Link("", Lost)] && (forall b | b in t.bots :: b in s.bots)
            && forall b | b in t.bots :: b.name != s.dcc[idx].nick)
  {
    hide Acceptable, Proper, Inv, LoseLink, NewBot;
    SameCheck(me, s, idx, a, leaf);
    if Proper(me, s, idx, a, leaf) {
      AcceptedFits(me, s, idx, a, leaf);
    } else {
      Refused(me, s, idx);
    }
  }

  // ----- what every run keeps because of it

  /** Every announcement handled on a connection to `d` finds `d` flagged a leaf. */
  predicate LeafThroughout(me: Name, s: State, es: seq<Event>, d: Name)
    decreases |es|
  {
    es == [] || (
      var e := es[0];
      (e.Announced? && LinkedAt(s, e.idx) && s.dcc[e.idx].nick == d ==> e.leaf)
      && LeafThroughout(me, Step(me, s, e), es[1..], d))
  }

  predicate NobodyBehind(s: State, d: Name) {
    forall b | b in s.bots && b.via == Some(d) :: b.name == d
  }

  /** Bots whose parent is another bot have printing names. */
  predicate PrintingNames(s: State) {
    forall b | b in s.bots && b.uplink.Node? :: Printing(b.name)
  }

  /** A step adds a bot at most at the end; any other entry was there before, but for its flag and version. */
  lemma EntriesBefore(me: Name, s: State, e: Event)
    requires Inv(me, s)
    ensures var t := Step(me, s, e);
      forall b | b in t.bots ::
        (exists o | o in s.bots :: b == o.(share := b.share, ver := b.ver))
        || (e.Version? && b.uplink == Me && b.via == Some(b.name))
        || (e.Announced? && LinkedAt(s, e.idx) && !e.leaf && b.via == Some(s.dcc[e.idx].nick) && Printing(b.name))
  {
    hide Inv, WellFormed, Find, Closure;
    match e {
      case Version(idx, numver, handlen) =>
        if 0 <= idx < |s.dcc| && s.dcc[idx].kind == BotNew {
          Handshake(me, s, idx, numver, handlen);
          assert forall o | o in s.bots :: o == o.(share := o.share, ver := o.ver);
        }
      case Announced(idx, a, leaf) =>
        if LinkedAt(s, idx) && a.flag != '\0' {
          Announcing(me, s, idx, a, leaf);
          assert forall o | o in s.bots :: o == o.(share := o.share, ver := o.ver);
        }
      case Updated(idx, bot, flag, ver) =>
        var t := Step(me, s, e);
        forall b | b in t.bots ensures exists o | o in s.bots :: b == o.(share := b.share, ver := b.ver) {
          var i :| 0 <= i < |t.bots| && t.bots[i] == b;
          assert s.bots[i] in s.bots;
        }
      case _ =>
        forall b | b in Step(me, s, e).bots ensures b in s.bots && b == b.(share := b.share, ver := b.ver) {
        }
    }
  }

  /** A neighbour flagged a leaf brings no other bot. */
  lemma {:induction false} LeafsLeadNowhere(me: Name, s: State, es: seq<Event>, d: Name)
    requires Inv(me, s) && NobodyBehind(s, d) && LeafThroughout(me, s, es, d)
    ensures NobodyBehind(Run(me, s, es), d)
    decreases |es|
  {
    hide Inv, Step;
    if es != [] {
      StepKeeps(me, s, es[0]);
      EntriesBefore(me, s, es[0]);
      LeafsLeadNowhere(me, Step(me, s, es[0]), es[1..], d);
    }
  }

  lemma {:induction false} NamesPrint(me: Name, s: State, es: seq<Event>)
    requires Inv(me, s) && PrintingNames(s)
    ensures PrintingNames(Run(me, s, es))
    decreases |es|
  {
    hide Inv, Step, Printing;
    if es != [] {
      StepKeeps(me, s, es[0]);
      EntriesBefore(me, s, es[0]);
      NamesPrint(me, Step(me, s, es[0]), es[1..]);
    }
  }

  /** In every reachable state: names are at most nine characters long, and made of printing characters if another
      bot announced them; and the only bot routed through a leaf is the leaf. */
  lemma Admitted(me: Name, es: seq<Event>, d: Name)
    ensures var s := Run(me, START, es);
      && (forall b | b in s.bots :: |b.name| <= 9)
      && (forall b | b in s.bots && b.uplink.Node? :: forall i | 0 <= i < |b.name| :: 32 <= b.name[i] as int <= 126)
      && (LeafThroughout(me, START, es, d) ==> forall b | b in s.bots && b.via == Some(d) :: b.name == d)
  {
    hide Run, LeafThroughout, WellFormed;
    NothingKnown(me);
    RunKeeps(me, START, es);
    NamesPrint(me, START, es);
    if LeafThroughout(me, START, es, d) { LeafsLeadNowhere(me, START, es, d); }
    var s := Run(me, START, es);
    forall b | b in s.bots && b.uplink.Node? ensures forall i | 0 <= i < |b.name| :: 32 <= b.name[i] as int <= 126 {
      assert Printing(b.name);
    }
  }
}
