/** The messages that carry users across the net. */
module Membership {
  import opened Wire
  import opened BotTree
  import opened Announcement
  import opened PartyLine

  // ----- the version message

  /** Older bots send decimal numbers and no handle length; theirs is nine. */
  const NEAT_BOTNET := 1029900

  datatype VersionMsg = VersionMsg(numver: int, handlen: int)

  /** A message that does not begin with a digit counts as version 0. */
  function ParseVersion(par: string): VersionMsg {
    var numbered := par != "" && Digit(par[0]);
    var numver := if numbered then Atoi(Before(SkipSpaces(par), ' ')) else 0;
    var rest := if numbered then After(SkipSpaces(par), ' ') else par;
    VersionMsg(numver, if numver < NEAT_BOTNET then 9 else Atoi(Before(SkipSpaces(rest), ' ')))
  }

  /** A message that begins with the version and the handle length in decimal, as bots send it, is read as those two;
      a bot older than version 1.29.9 counts as having handles of nine characters; and a message that begins with
      anything else comes from such a bot. */
  lemma VersionRead(numver: int, handlen: int, rest: string)
    requires 0 <= numver && 0 <= handlen
    ensures ParseVersion(Base10(numver) + " " + (Base10(handlen) + " " + rest)) ==
      VersionMsg(numver, if numver < 1029900 then 9 else handlen)
    ensures rest == "" || !('0' <= rest[0] <= '9') ==> ParseVersion(rest) == VersionMsg(0, 9)
  {
    hide Base10, Atoi, SkipSpaces, Before, After;
    var n, h := Base10(numver), Base10(handlen);
    Base10Word(numver);
    Base10Word(handlen);
    NextWord(n, h + " " + rest);
    NextWord(h, rest);
    assert (n + " " + (h + " " + rest))[0] == n[0];
  }

  lemma Base10Word(n: int)
    requires 0 <= n
    ensures Word(Base10(n)) && Digit(Base10(n)[0]) && Atoi(Base10(n)) == n
  {
    Base10Value(n);
    Base10RoundTrip(n);
  }

  // ----- join and part messages

  /** `complete` is false when the message ends before its flag. */
  datatype JoinMsg = JoinMsg(bot: Name, nick: Name, chan: int, flag: char, sock: int, from: string, complete: bool)

  datatype PartMsg = PartMsg(bot: Name, nick: Name, sock: int)

  /** A leading exclamation mark only asks for silence. */
  function Unmarked(s: string): string {
    if s != "" && s[0] == '!' then s[1..] else s
  }

  function ParseJoin(par: string): (m: JoinMsg)
    ensures !m.complete ==> m.chan < 0
  {
    var bot, p1 := Before(SkipSpaces(par), ' '), After(SkipSpaces(par), ' ');
    var nick, p2 := Before(SkipSpaces(p1), ' '), After(SkipSpaces(p1), ' ');
    var x, p3 := Before(SkipSpaces(p2), ' '), After(SkipSpaces(p2), ' ');
    var y, from := Before(SkipSpaces(p3), ' '), After(SkipSpaces(p3), ' ');
    if y == "" then JoinMsg(Unmarked(bot), nick, -1, '-', 0, from, false)
    else JoinMsg(Unmarked(bot), nick, Wrap32(Value(x)), y[0], Wrap32(Value(y[1..])), from, true)
  }

  method ReadJoin(par: string) returns (m: JoinMsg)
    ensures m == ParseJoin(par)
  {
    var bot, p1 := NewSplit(par);
    if bot != "" && bot[0] == '!' {
      bot := bot[1..];
    }
    var nick, p2 := NewSplit(p1);
    var x, p3 := NewSplit(p2);
    var chan := Base64ToInt(x);
    var y, from := NewSplit(p3);
    if y == "" {
      return JoinMsg(bot, nick, -1, '-', 0, from, false);
    }
    var sock := Base64ToInt(y[1..]);
    m := JoinMsg(bot, nick, chan, y[0], sock, from, true);
  }

  // ----- the join line

  /** A join passed on to other bots, a listed user in a burst, and one of the sender's own in a burst. */
  datatype JoinForm = Sent(linking: bool) | Remote | Own

  function Mark(form: JoinForm): string {
    match form
    case Sent(linking) => if linking then "!" else ""
    case Remote => ""
    case Own => "!"
  }

  const JOIN_TAIL: string := "%s %D %c%D %s\n"

  function JoinFormat(form: JoinForm): string {
    match form
    case Sent(_) => "j %s%s " + JOIN_TAIL
    case Remote => "j %s " + JOIN_TAIL
    case Own => "j !%s " + JOIN_TAIL
  }

  function JoinArgs(form: JoinForm, m: JoinMsg): seq<Arg> {
    (if form.Sent? then [Str(Mark(form))] else []) + ([Str(m.bot)] + TailArgs(m))
  }

  function TailArgs(m: JoinMsg): seq<Arg> {
    [Str(m.nick), Num(m.chan), Chr(m.flag), Num(m.sock), Str(m.from)]
  }

  /** The line as bytes on the wire, newline included. */
  function JoinText(mark: string, m: JoinMsg): string {
    "j " + (mark + m.bot + " " + TailText(m) + "\n")
  }

  function TailText(m: JoinMsg): string {
    m.nick + " " + (Base64(Unsigned(m.chan)) + " " + ([m.flag] + Base64(Unsigned(m.sock)) + " " + m.from))
  }

  lemma TailExpands(m: JoinMsg)
    requires Int32(m.chan) && Int32(m.sock)
    ensures Supplied(JOIN_TAIL, TailArgs(m)) && Expand(JOIN_TAIL, TailArgs(m)) == TailText(m) + "\n"
  {
    hide Base64, Supplied, Expand, JOIN_TAIL, TailArgs, TailText;
    Nothing();
    Literal('\n', "", []);
    var f1, a1 := "\n", [Str(m.from)];
    assert ['\n'] + "" == f1;
    Converted('s', f1, Str(m.from), []);
    assert [Str(m.from)] + [] == a1;
    var f2 := ['%', 's'] + f1;
    Literal(' ', f2, a1);
    Converted('D', [' '] + f2, Num(m.sock), a1);
    var f3, a3 := ['%', 'D'] + ([' '] + f2), [Num(m.sock)] + a1;
    Converted('c', f3, Chr(m.flag), a3);
    var f4, a4 := ['%', 'c'] + f3, [Chr(m.flag)] + a3;
    Literal(' ', f4, a4);
    Converted('D', [' '] + f4, Num(m.chan), a4);
    var f5, a5 := ['%', 'D'] + ([' '] + f4), [Num(m.chan)] + a4;
    WordStep(m.nick, f5, a5);
    TailParts(m);
    TailRegroups(m);
  }

  lemma TailParts(m: JoinMsg)
    ensures "%s " + (['%', 'D'] + ([' '] + (['%', 'c'] + (['%', 'D'] + ([' '] + (['%', 's'] + "\n")))))) == JOIN_TAIL
    ensures [Str(m.nick)] + ([Num(m.chan)] + ([Chr(m.flag)] + ([Num(m.sock)] + [Str(m.from)]))) == TailArgs(m)
  {
    assert ['%', 's'] + "\n" == "%s\n";
    assert ['%', 'D'] + ([' '] + "%s\n") == "%D %s\n";
    assert ['%', 'c'] + "%D %s\n" == "%c%D %s\n";
    assert ['%', 'D'] + ([' '] + "%c%D %s\n") == "%D %c%D %s\n";
  }

  lemma Nothing()
    ensures Supplied("", []) && Expand("", []) == ""
  {
  }

  lemma TailRegroups(m: JoinMsg)
    ensures var chan, sock := Base64(Unsigned(m.chan)), Base64(Unsigned(m.sock));
      m.nick + " " + (chan + ([' '] + ([m.flag] + (sock + ([' '] + (m.from + ['\n'])))))) == TailText(m) + "\n"
  {
  }

  /** The three ways the line begins, before any tail. */
  lemma SentExpands(mark: string, bot: string, tail: string, args: seq<Arg>)
    requires Supplied(tail, args)
    ensures var f, all := "j %s%s " + tail, [Str(mark)] + ([Str(bot)] + args);
      Supplied(f, all) && Expand(f, all) == "j " + (mark + bot + " " + Expand(tail, args))
  {
    hide Supplied, Expand;
    WordStep(bot, tail, args);
    var f, b := "%s " + tail, [Str(bot)] + args;
    Converted('s', f, Str(mark), b);
    BeginsWith(['%', 's'] + f, [Str(mark)] + b);
    assert ['%', 's'] + f == "%s%s " + tail;
    assert "j %s%s " + tail == "j " + ("%s%s " + tail);
  }

  lemma RemoteExpands(bot: string, tail: string, args: seq<Arg>)
    requires Supplied(tail, args)
    ensures var f, all := "j %s " + tail, [Str(bot)] + args;
      Supplied(f, all) && Expand(f, all) == "j " + (bot + " " + Expand(tail, args))
  {
    hide Supplied, Expand;
    WordStep(bot, tail, args);
    BeginsWith("%s " + tail, [Str(bot)] + args);
    assert "j %s " + tail == "j " + ("%s " + tail);
  }

  lemma OwnExpands(bot: string, tail: string, args: seq<Arg>)
    requires Supplied(tail, args)
    ensures var f, all := "j !%s " + tail, [Str(bot)] + args;
      Supplied(f, all) && Expand(f, all) == "j " + ("!" + bot + " " + Expand(tail, args))
  {
    hide Supplied, Expand;
    WordStep(bot, tail, args);
    Literal('!', "%s " + tail, [Str(bot)] + args);
    BeginsWith(['!'] + ("%s " + tail), [Str(bot)] + args);
    assert "j !%s " + tail == "j " + (['!'] + ("%s " + tail));
  }

  lemma BeginsWith(f: string, args: seq<Arg>)
    requires Supplied(f, args)
    ensures Supplied("j " + f, args) && Expand("j " + f, args) == "j " + Expand(f, args)
  {
    hide Supplied, Expand;
    Literal(' ', f, args);
    Literal('j', [' '] + f, args);
    assert "j " + f == ['j'] + ([' '] + f);
  }

  lemma JoinExpands(form: JoinForm, m: JoinMsg)
    requires Int32(m.chan) && Int32(m.sock)
    ensures Supplied(JoinFormat(form), JoinArgs(form, m))
    ensures Expand(JoinFormat(form), JoinArgs(form, m)) == JoinText(Mark(form), m)
  {
    hide TailText, TailArgs, Supplied, Expand, JOIN_TAIL;
    TailExpands(m);
    var args := TailArgs(m);
    match form {
      case Sent(_) => SentExpands(Mark(form), m.bot, JOIN_TAIL, args);
      case Remote => RemoteExpands(m.bot, JOIN_TAIL, args);
      case Own => OwnExpands(m.bot, JOIN_TAIL, args);
    }
    assert [] + ([Str(m.bot)] + args) == [Str(m.bot)] + args;
    TextParts(Mark(form), m);
  }

  lemma TextParts(mark: string, m: JoinMsg)
    ensures JoinText(mark, m) == "j " + (mark + m.bot + " " + (TailText(m) + "\n"))
    ensures "" + m.bot == m.bot
  {
    hide TailText;
    assert mark + m.bot + " " + (TailText(m) + "\n") == mark + m.bot + " " + TailText(m) + "\n";
  }

  /** The line of a join, cut where the buffer ends. */
  method PrintJoin(form: JoinForm, m: JoinMsg) returns (line: string)
    requires Int32(m.chan) && Int32(m.sock)
    ensures line == Cut(JoinText(Mark(form), m))
  {
    hide Supplied, Expand, JoinText, JoinFormat, JoinArgs;
    JoinExpands(form, m);
    var obuf := new char[LINEMAX + 1];
    var l := SimpleSprintf(obuf, JoinFormat(form), JoinArgs(form, m));
    line := obuf[..l];
  }

  /** A line that is not cut. */
  lemma JoinFits(mark: string, m: JoinMsg)
    requires |mark| <= 1 && |m.bot| <= HANDLEN && |m.nick| <= HANDLEN && |m.from| <= 984
    ensures |JoinText(mark, m)| <= LINEMAX
  {
    Base64Width(Unsigned(m.chan));
    Base64Width(Unsigned(m.sock));
  }

  lemma LastWord(w: string, rest: string)
    requires Word(w)
    ensures Before(SkipSpaces(w + " " + rest), ' ') == w && After(SkipSpaces(w + " " + rest), ' ') == rest
  {
    NextWord(w, rest);
  }

  /** The first three words of a join taken off, whatever follows. */
  lemma JoinFields(mark: string, bot: string, nick: string, chan: string, rest: string)
    requires Word(mark + bot) && Word(nick) && Word(chan)
    ensures var msg := mark + bot + " " + (nick + " " + (chan + " " + rest));
      var y, from := Before(SkipSpaces(rest), ' '), After(SkipSpaces(rest), ' ');
      ParseJoin(msg) == if y == "" then JoinMsg(Unmarked(mark + bot), nick, -1, '-', 0, from, false)
        else JoinMsg(Unmarked(mark + bot), nick, Wrap32(Value(chan)), y[0], Wrap32(Value(y[1..])), from, true)
  {
    hide Value, SkipSpaces, Before, After, Wrap32;
    LastWord(mark + bot, nick + " " + (chan + " " + rest));
    LastWord(nick, chan + " " + rest);
    LastWord(chan, rest);
  }

  /** The last part of a join: its flag and socket number, or if the flag is a space the number alone. */
  lemma JoinEnd(m: JoinMsg)
    ensures var sock := Base64(Unsigned(m.sock));
      var rest, y := [m.flag] + sock + " " + m.from, if m.flag == ' ' then sock else [m.flag] + sock;
      Before(SkipSpaces(rest), ' ') == y && After(SkipSpaces(rest), ' ') == m.from && y != "" && y[0] != ' '
  {
    hide Base64, SkipSpaces, Before, After;
    var sock := Base64(Unsigned(m.sock));
    DigitsWord(m.sock);
    if m.flag == ' ' {
      SpaceSkipped(sock + " " + m.from);
      assert [m.flag] + sock + " " + m.from == " " + (sock + " " + m.from);
      LastWord(sock, m.from);
    } else {
      LastWord([m.flag] + sock, m.from);
    }
  }

  lemma Marked(mark: string, bot: string)
    requires bot != "" && (mark == "" || mark == "!")
    ensures Unmarked(mark + bot) == bot <==> mark == "!" || bot[0] != '!'
  {
    assert ("!" + bot)[1..] == bot && "" + bot == bot;
  }

  /** A received join line, up to its last part. */
  lemma JoinReceived(mark: string, m: JoinMsg)
    requires mark == "" || mark == "!"
    requires Word(m.bot) && Word(m.nick) && Int32(m.chan)
    ensures var line, sock := JoinText(mark, m), Base64(Unsigned(m.sock));
      var y := if m.flag == ' ' then sock else [m.flag] + sock;
      var (code, msg) := Command(line[..|line| - 1]);
      && line[|line| - 1] == '\n' && code == "j" && y != "" && y[0] != ' '
      && ParseJoin(msg) == JoinMsg(Unmarked(mark + m.bot), m.nick, m.chan, y[0], Wrap32(Value(y[1..])), m.from, true)
  {
    hide Base64, Value, SkipSpaces, Before, After, ParseJoin, Wrap32, Unsigned, Unmarked;
    var line := JoinText(mark, m);
    var chan := Base64(Unsigned(m.chan));
    var rest := [m.flag] + Base64(Unsigned(m.sock)) + " " + m.from;
    var msg := mark + m.bot + " " + (m.nick + " " + (chan + " " + rest));
    assert line[..|line| - 1] == "j" + " " + msg;
    NextWord("j", msg);
    DigitsWord(m.chan);
    JoinFields(mark, m.bot, m.nick, chan, rest);
    JoinEnd(m);
    Base64RoundTrip(m.chan);
  }

  /** Printing a join and taking the received line apart gives all its fields back exactly when the flag is no space
      and a name that begins with an exclamation mark has one put before it. With a space for a flag, the socket
      number's first digit is read as the flag. */
  lemma JoinRoundTrip(mark: string, m: JoinMsg)
    requires mark == "" || mark == "!"
    requires Word(m.bot) && Word(m.nick) && m.flag != '\0' && Int32(m.chan) && Int32(m.sock) && m.complete
    ensures var line := JoinText(mark, m);
      var (code, msg) := Command(line[..|line| - 1]);
      && line[|line| - 1] == '\n' && code == "j"
      && (ParseJoin(msg) == m <==> m.flag != ' ' && (mark == "!" || m.bot[0] != '!'))
  {
    hide Base64, Value, ParseJoin, Command, Wrap32, Unsigned, Unmarked, JoinText;
    JoinReceived(mark, m);
    Marked(mark, m.bot);
    Base64RoundTrip(m.sock);
    var sock := Base64(Unsigned(m.sock));
    assert ([m.flag] + sock)[1..] == sock;
  }

  /** What a join with a space for a flag is read as. */
  lemma BlankMisread(mark: string, m: JoinMsg)
    requires mark == "" || mark == "!"
    requires Word(m.bot) && Word(m.nick) && m.flag == ' ' && Int32(m.chan) && Int32(m.sock) && m.complete
    requires mark == "!" || m.bot[0] != '!'
    ensures var line, digits := JoinText(mark, m), Base64(Unsigned(m.sock));
      var (code, msg) := Command(line[..|line| - 1]);
      code == "j" && ParseJoin(msg) == m.(flag := digits[0], sock := Wrap32(Value(digits[1..])))
  {
    hide Base64, Value, ParseJoin, Command, Wrap32, Unsigned, Unmarked, JoinText;
    JoinReceived(mark, m);
    Marked(mark, m.bot);
  }

  lemma DigitsWord(n: int)
    ensures Word(Base64(Unsigned(n)))
  {
    Base64Chars(Unsigned(n));
  }

  lemma SpaceSkipped(s: string)
    ensures SkipSpaces(" " + s) == SkipSpaces(s)
  {
    assert (" " + s)[1..] == s;
  }

  // ----- the users in a burst

  /** What a burst says of a user. */
  function Message(p: Member): JoinMsg {
    JoinMsg(p.bot, p.nick, p.chan, p.flag, p.sock, p.from, true)
  }

  /** The line for a user in a burst: with a mark for one of the sender's own. */
  function JoinLine(a: Name, p: Member): string {
    Cut(JoinText(Mark(if p.bot == a then Own else Remote), Message(p)))
  }

  function JoinLines(a: Name, list: seq<Member>): seq<string> {
    seq(|list|, i requires 0 <= i < |list| => JoinLine(a, list[i]))
  }

  /** The lines for the sender's own users, and only those, ask for silence. */
  lemma OwnMarked(a: Name, p: Member)
    requires Word(p.bot) && p.bot[0] != '!'
    ensures |JoinLine(a, p)| > 2 && JoinLine(a, p)[..2] == "j " && (JoinLine(a, p)[2] == '!' <==> p.bot == a)
  {
    hide TailText;
    var mark := Mark(if p.bot == a then Own else Remote);
    var text := JoinText(mark, Message(p));
    assert text[2] == (mark + p.bot)[0];
  }

  /** A user whose line is not cut. */
  predicate FitsLine(p: Member) {
    |p.bot| <= HANDLEN && |p.nick| <= HANDLEN && |p.from| <= 984
  }

  // ----- nick changes

  datatype NickMsg = NickMsg(bot: Name, sock: int, nick: Name)

  function ParseNick(par: string): NickMsg {
    var bot, p1 := Before(SkipSpaces(par), ' '), After(SkipSpaces(par), ' ');
    var sock, p2 := Before(SkipSpaces(p1), ' '), After(SkipSpaces(p1), ' ');
    NickMsg(bot, Wrap32(Value(sock)), Before(SkipSpaces(p2), ' '))
  }

  const NICK_FORMAT: string := "nc %s %D %s\n"

  function NickText(m: NickMsg): string {
    "nc " + (m.bot + " " + (Base64(Unsigned(m.sock)) + " " + m.nick + "\n"))
  }

  lemma NickExpands(m: NickMsg)
    requires Int32(m.sock)
    ensures var args := [Str(m.bot), Num(m.sock), Str(m.nick)];
      Supplied(NICK_FORMAT, args) && Expand(NICK_FORMAT, args) == NickText(m)
  {
    hide Base64, Supplied, Expand, NICK_FORMAT, NickText;
    var tail, end := "%D %s\n", [Num(m.sock), Str(m.nick)];
    PartTail(m.sock, m.nick);
    WordStep(m.bot, tail, end);
    var word, args := "%s " + tail, [Str(m.bot)] + end;
    Literal(' ', word, args);
    Literal('c', [' '] + word, args);
    Literal('n', ['c'] + ([' '] + word), args);
    NickParts(m);
  }

  lemma NickParts(m: NickMsg)
    ensures ['n'] + (['c'] + ([' '] + ("%s " + "%D %s\n"))) == NICK_FORMAT
    ensures [Str(m.bot)] + [Num(m.sock), Str(m.nick)] == [Str(m.bot), Num(m.sock), Str(m.nick)]
    ensures ['n'] + (['c'] + ([' '] + (m.bot + " " + (Base64(Unsigned(m.sock)) + " " + m.nick + "\n")))) == NickText(m)
  {
    hide Base64;
    assert ['n'] + (['c'] + [' ']) == "nc ";
  }

  /** The line of a nick change. */
  method PrintNick(m: NickMsg) returns (line: string)
    requires Int32(m.sock)
    ensures line == Cut(NickText(m))
  {
    hide Supplied, Expand, NickText;
    NickExpands(m);
    var obuf := new char[LINEMAX + 1];
    var l := SimpleSprintf(obuf, NICK_FORMAT, [Str(m.bot), Num(m.sock), Str(m.nick)]);
    line := obuf[..l];
  }

  lemma NickRoundTrip(m: NickMsg)
    requires Word(m.bot) && Word(m.nick) && Int32(m.sock)
    ensures var line := NickText(m);
      var (code, msg) := Command(line[..|line| - 1]);
      code == "nc" && ParseNick(msg) == m
  {
    hide Base64, Value, SkipSpaces, Before, After;
    var line, sock := NickText(m), Base64(Unsigned(m.sock));
    var rest := sock + " " + m.nick;
    assert line[..|line| - 1] == "nc" + " " + (m.bot + " " + rest);
    NextWord("nc", m.bot + " " + rest);
    NextWord(m.bot, rest);
    DigitsWord(m.sock);
    NextWord(sock, m.nick);
    OnlyWord(m.nick);
    Base64RoundTrip(m.sock);
  }

  // ----- the part line

  function ParsePart(par: string): PartMsg {
    var bot, p1 := Before(SkipSpaces(par), ' '), After(SkipSpaces(par), ' ');
    var nick, p2 := Before(SkipSpaces(p1), ' '), After(SkipSpaces(p1), ' ');
    PartMsg(Unmarked(bot), nick, Wrap32(Value(Before(SkipSpaces(p2), ' '))))
  }

  /** The line of a part passed on, asking for silence or not. */
  function PartText(mark: string, m: PartMsg, reason: string): string {
    "pt " + (mark + m.bot + " " + (m.nick + " " + (Base64(Unsigned(m.sock)) + " " + reason)) + "\n")
  }

  const PART_FORMAT: string := "pt %s%s %s %D %s\n"

  function PartArgs(mark: string, m: PartMsg, reason: string): seq<Arg> {
    [Str(mark), Str(m.bot), Str(m.nick), Num(m.sock), Str(reason)]
  }

  lemma PartTail(sock: int, reason: string)
    requires Int32(sock)
    ensures var f, args := "%D %s\n", [Num(sock), Str(reason)];
      Supplied(f, args) && Expand(f, args) == Base64(Unsigned(sock)) + " " + reason + "\n"
  {
    hide Base64, Supplied, Expand;
    Nothing();
    Literal('\n', "", []);
    var f1 := ['\n'] + "";
    Converted('s', f1, Str(reason), []);
    var f2, a2 := ['%', 's'] + f1, [Str(reason)] + [];
    Literal(' ', f2, a2);
    Converted('D', [' '] + f2, Num(sock), a2);
    assert ['%', 'D'] + ([' '] + f2) == "%D %s\n";
    assert [Num(sock)] + a2 == [Num(sock), Str(reason)];
    assert Base64(Unsigned(sock)) + ([' '] + (reason + ['\n'])) == Base64(Unsigned(sock)) + " " + reason + "\n";
  }

  lemma PartExpands(mark: string, m: PartMsg, reason: string)
    requires Int32(m.sock)
    ensures Supplied(PART_FORMAT, PartArgs(mark, m, reason))
    ensures Expand(PART_FORMAT, PartArgs(mark, m, reason)) == PartText(mark, m, reason)
  {
    hide Base64, Supplied, Expand, PART_FORMAT, PartArgs, PartText;
    var f1, a1 := "%D %s\n", [Num(m.sock), Str(reason)];
    PartTail(m.sock, reason);
    WordStep(m.nick, f1, a1);
    var f2, a2 := "%s " + f1, [Str(m.nick)] + a1;
    WordStep(m.bot, f2, a2);
    var f3, a3 := "%s " + f2, [Str(m.bot)] + a2;
    Converted('s', f3, Str(mark), a3);
    var f4, a4 := ['%', 's'] + f3, [Str(mark)] + a3;
    Literal(' ', f4, a4);
    Literal('t', [' '] + f4, a4);
    Literal('p', ['t'] + ([' '] + f4), a4);
    PartParts(mark, m, reason);
    PartRegroups(mark, m, reason);
  }

  lemma PartParts(mark: string, m: PartMsg, reason: string)
    ensures ['p'] + (['t'] + ([' '] + (['%', 's'] + ("%s " + ("%s " + "%D %s\n"))))) == PART_FORMAT
    ensures [Str(mark)] + ([Str(m.bot)] + ([Str(m.nick)] + [Num(m.sock), Str(reason)])) == PartArgs(mark, m, reason)
  {
    assert "%s " + ("%s " + "%D %s\n") == "%s %s %D %s\n";
  }

  lemma PartRegroups(mark: string, m: PartMsg, reason: string)
    ensures var tail := Base64(Unsigned(m.sock)) + " " + reason + "\n";
      ['p'] + (['t'] + ([' '] + (mark + (m.bot + " " + (m.nick + " " + tail))))) == PartText(mark, m, reason)
  {
    hide Base64;
  }

  /** The line of a part, cut where the buffer ends. */
  method PrintPart(silent: bool, m: PartMsg, reason: string) returns (line: string)
    requires Int32(m.sock)
    ensures line == Cut(PartText(if silent then "!" else "", m, reason))
  {
    hide Supplied, Expand, PartText, PartArgs;
    var mark := if silent then "!" else "";
    PartExpands(mark, m, reason);
    var obuf := new char[LINEMAX + 1];
    var l := SimpleSprintf(obuf, PART_FORMAT, PartArgs(mark, m, reason));
    line := obuf[..l];
  }

  lemma PartRoundTrip(mark: string, m: PartMsg, reason: string)
    requires mark == "" || mark == "!"
    requires Word(m.bot) && Word(m.nick) && Int32(m.sock)
    ensures var line := PartText(mark, m, reason);
      var (code, msg) := Command(line[..|line| - 1]);
      code == "pt" && (ParsePart(msg) == m <==> mark == "!" || m.bot[0] != '!')
  {
    hide Base64, Value, SkipSpaces, Before, After;
    var line := PartText(mark, m, reason);
    var sock := Base64(Unsigned(m.sock));
    var rest := m.nick + " " + (sock + " " + reason);
    assert line[..|line| - 1] == "pt" + " " + (mark + m.bot + " " + rest);
    NextWord("pt", mark + m.bot + " " + rest);
    LastWord(mark + m.bot, rest);
    LastWord(m.nick, sock + " " + reason);
    Base64Chars(Unsigned(m.sock));
    LastWord(sock, reason);
    Base64RoundTrip(m.sock);
    assert ("!" + m.bot)[1..] == m.bot;
  }

  method ReadPart(par: string) returns (m: PartMsg)
    ensures m == ParsePart(par)
  {
    var bot, p1 := NewSplit(par);
    if bot != "" && bot[0] == '!' {
      bot := bot[1..];
    }
    var nick, p2 := NewSplit(p1);
    var etc, rest := NewSplit(p2);
    var sock := Base64ToInt(etc);
    m := PartMsg(bot, nick, sock);
  }
}
