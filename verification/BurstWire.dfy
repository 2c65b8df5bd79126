/** A link burst as it travels: printed line by line on one side, taken apart and carried out on the other. */
module BurstWire {
  import opened BotTree
  import opened Wire
  import opened Protocol
  import opened Announcement
  import opened Replay

  /** What a line that announces a bot makes the receiver on connection `idx` do; other lines are no announcement. */
  function Heard(idx: int, line: string, leaf: bool): Option<Event> {
    if line == "" then None else
    var (code, msg) := Command(line[..|line| - 1]);
    if code == "n" then Some(Announced(idx, ParseNlinked(msg), leaf)) else None
  }

  function HeardAll(idx: int, lines: seq<string>): seq<Event> {
    if lines == [] then [] else
    var e := Heard(idx, lines[0], false);
    (if e.Some? then [e.value] else []) + HeardAll(idx, lines[1..])
  }

  /** An entry whose fields survive printing. */
  predicate Printable(b: Bot) {
    Word(b.name) && (b.uplink.Node? ==> Word(b.uplink.name)) && b.share != '\0' && Int32(b.ver)
  }

  lemma {:induction false} BurstHeard(a: Name, bots: seq<Bot>, idx: int)
    requires Word(a) && forall b | b in bots :: Printable(b)
    ensures HeardAll(idx, BurstLines(a, bots)) == Burst(a, bots, idx)
  {
    hide ParseNlinked, LineText, Command;
    if bots != [] {
      assert bots[0] in bots;
      var line := LineFor(a, bots[0]);
      WireRoundTrip(line);
      LineNonempty(line);
      BurstHeard(a, bots[1..], idx);
      assert BurstLines(a, bots)[1..] == BurstLines(a, bots[1..]);
      assert Burst(a, bots, idx) == [Announced(idx, line, false)] + Burst(a, bots[1..], idx);
    }
  }

  lemma LineNonempty(a: Announce)
    ensures LineText(a) != ""
  {
  }

  /** The parent of an entry is the entry of some bot, so its name travels as well as the bot's own. */
  lemma {:induction false} ParentsPrintable(a: Name, bots: seq<Bot>)
    requires WellFormed(a, bots) && forall b | b in bots :: Word(b.name)
    ensures forall b | b in bots && b.uplink.Node? :: Word(b.uplink.name)
  {
    if bots != [] {
      var n := |bots| - 1;
      ParentsPrintable(a, bots[..n]);
      var b := bots[n];
      if b.uplink.Node? {
        assert Find(bots[..n], b.uplink.name).value in bots[..n];
      }
      assert bots == bots[..n] + [b];
    }
  }

  lemma TablePrintable(a: Name, bots: seq<Bot>)
    requires WellFormed(a, bots) && forall b | b in bots :: Word(b.name) && Int32(b.ver)
    ensures forall b | b in bots :: Printable(b)
  {
    ParentsPrintable(a, bots);
    forall b | b in bots ensures b.share != '\0' {
      var i :| 0 <= i < |bots| && bots[i] == b;
      EntryFits(a, bots, i);
    }
  }

  /** From one table to the other over the wire: what the neighbour prints of its table when the link comes up is what
      the newly linked bot has in its own when the lines have been read. */
  lemma LinkOverTheWire(z: Name, s: State, idx: int, numver: int, bots: seq<Bot>)
    requires Inv(z, s) && 0 <= idx < |s.dcc| && s.dcc[idx].kind == BotNew && MayReplay(z, s, idx, bots)
    requires Word(s.dcc[idx].nick) && forall x | x in bots :: Word(x.name) && Int32(x.ver)
    ensures var heard := HeardAll(idx, BurstLines(s.dcc[idx].nick, bots));
      Run(z, s, [Version(idx, numver, HANDLEN)] + heard) == LinkedWith(s, idx, numver, bots)
      <==> bots == [] || FirstOfItsBot(s, idx)
  {
    hide Run, Inv, InChain, LinkedWith;
    var a := s.dcc[idx].nick;
    TablePrintable(a, bots);
    BurstHeard(a, bots, idx);
    LinkAndReplay(z, s, idx, numver, bots);
  }
}
