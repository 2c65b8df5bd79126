/** The announcement of a bot, as the line that carries it. */
module Announcement {
  import opened Wire
  import opened BotTree
  import opened Protocol

  function FieldsOf(a: Announce): seq<Arg> {
    [Str(a.newbot), Str(a.next), Chr(a.flag), Num(a.ver)]
  }

  const FORMAT: string := "n %s %s %c%D\n"

  /** The line as bytes on the wire, newline included. */
  function LineText(a: Announce): string {
    "n " + a.newbot + " " + a.next + " " + [a.flag] + Base64(Unsigned(a.ver)) + "\n"
  }

  lemma Literal(c: char, rest: string, args: seq<Arg>)
    requires c != '%' && Supplied(rest, args)
    ensures Supplied([c] + rest, args) && Expand([c] + rest, args) == [c] + Expand(rest, args)
  {
  }

  lemma Converted(k: char, rest: string, a: Arg, args: seq<Arg>)
    requires IsConversion(k) && Wants(k, a) && Supplied(rest, args)
    ensures Supplied(['%', k] + rest, [a] + args)
    ensures Expand(['%', k] + rest, [a] + args) == Shown(k, a) + Expand(rest, args)
  {
  }

  /** One word of the line: a conversion of a string followed by a space. */
  lemma WordStep(word: string, rest: string, args: seq<Arg>)
    requires Supplied(rest, args)
    ensures Supplied("%s " + rest, [Str(word)] + args)
    ensures Expand("%s " + rest, [Str(word)] + args) == word + " " + Expand(rest, args)
  {
  }

  lemma TailStep(flag: char, ver: int)
    requires Int32(ver)
    ensures Supplied("%c%D\n", [Chr(flag), Num(ver)])
    ensures Expand("%c%D\n", [Chr(flag), Num(ver)]) == [flag] + (Base64(Unsigned(ver)) + "\n")
  {
    Literal('\n', "", []);
    Converted('D', ['\n'] + "", Num(ver), []);
    Converted('c', ['%', 'D'] + (['\n'] + ""), Chr(flag), [Num(ver)] + []);
    assert "%c%D\n" == ['%', 'c'] + (['%', 'D'] + (['\n'] + ""));
    assert [Chr(flag), Num(ver)] == [Chr(flag)] + ([Num(ver)] + []);
    assert ['\n'] + "" == "\n";
  }

  lemma FormatParts(a: Announce)
    ensures FORMAT == ['n'] + ([' '] + ("%s " + ("%s " + "%c%D\n")))
    ensures FieldsOf(a) == [Str(a.newbot)] + ([Str(a.next)] + [Chr(a.flag), Num(a.ver)])
  {
  }

  lemma FormatSteps(a: Announce)
    requires Int32(a.ver)
    ensures Supplied(FORMAT, FieldsOf(a)) && Expand(FORMAT, FieldsOf(a)) == LineText(a)
  {
    var tail, end := "%c%D\n", [Chr(a.flag), Num(a.ver)];
    TailStep(a.flag, a.ver);
    WordStep(a.next, tail, end);
    var middle, rest := "%s " + tail, [Str(a.next)] + end;
    WordStep(a.newbot, middle, rest);
    var words, args := "%s " + middle, [Str(a.newbot)] + rest;
    Literal(' ', words, args);
    Literal('n', [' '] + words, args);
    FormatParts(a);
    Reassociate(a.newbot, a.next, a.flag, Base64(Unsigned(a.ver)));
  }

  lemma Reassociate(newbot: string, next: string, flag: char, digits: string)
    ensures ['n'] + ([' '] + (newbot + " " + (next + " " + ([flag] + (digits + "\n"))))) ==
      "n " + newbot + " " + next + " " + [flag] + digits + "\n"
  {
  }

  /** One announcement printed into the sender's buffer; nothing is cut. */
  method PrintNlinked(a: Announce) returns (line: string)
    requires Int32(a.ver) && |a.newbot| <= HANDLEN && |a.next| <= HANDLEN
    ensures line == LineText(a)
  {
    FormatSteps(a);
    Base64Width(Unsigned(a.ver));
    var obuf := new char[LINEMAX + 1];
    var l := SimpleSprintf(obuf, FORMAT, FieldsOf(a));
    line := obuf[..l];
  }

  /** A received line without its newline: the command word and the rest. */
  function Command(code: string): (string, string) {
    (Before(code, ' '), After(code, ' '))
  }

  /** The fields of an announcement. A missing flag reads as '-', a missing number as 0. */
  function ParseNlinked(par: string): Announce {
    var newbot, par1 := Before(SkipSpaces(par), ' '), After(SkipSpaces(par), ' ');
    var next, par2 := Before(SkipSpaces(par1), ' '), After(SkipSpaces(par1), ' ');
    if par2 == "" then Announce(newbot, next, '-', 0)
    else Announce(newbot, next, par2[0], Wrap32(Value(par2[1..])))
  }

  method ReadNlinked(par: string) returns (a: Announce)
    ensures a == ParseNlinked(par)
  {
    var newbot, par1 := NewSplit(par);
    var next, par2 := NewSplit(par1);
    if par2 != "" {
      var i := Base64ToInt(par2[1..]);
      a := Announce(newbot, next, par2[0], i);
    } else {
      var i := Base64ToInt(par2);
      assert Value("") == 0;
      a := Announce(newbot, next, '-', i);
    }
  }

  /** A message that ends early: without a flag it counts as '-' and version 0, without a parent the parent is empty. */
  lemma EndsEarly(newbot: string, next: string)
    requires Word(newbot) && Word(next)
    ensures ParseNlinked(newbot + " " + next) == Announce(newbot, next, '-', 0)
    ensures ParseNlinked(newbot) == Announce(newbot, "", '-', 0)
    ensures ParseNlinked("") == Announce("", "", '-', 0)
  {
    NextWord(newbot, next);
    OnlyWord(next);
    OnlyWord(newbot);
  }

  lemma OnlyWord(w: string)
    requires Word(w)
    ensures SkipSpaces(w) == w && Before(w, ' ') == w && After(w, ' ') == ""
  {
    assert w + "" == w;
    BeforeUnique(w, ' ', "");
  }

  // ----- updates of share flag and version

  datatype Update = Update(bot: Name, flag: char, ver: int)

  const UPDATE_FORMAT: string := "u %s %c%D\n"

  function UpdateText(u: Update): string {
    "u " + u.bot + " " + ([u.flag] + Base64(Unsigned(u.ver)) + "\n")
  }

  lemma UpdateExpands(u: Update)
    requires Int32(u.ver)
    ensures var args := [Str(u.bot), Chr(u.flag), Num(u.ver)];
      Supplied(UPDATE_FORMAT, args) && Expand(UPDATE_FORMAT, args) == UpdateText(u)
  {
    hide Supplied, Expand, Base64;
    var tail, end := "%c%D\n", [Chr(u.flag), Num(u.ver)];
    TailStep(u.flag, u.ver);
    WordStep(u.bot, tail, end);
    var word, args := "%s " + tail, [Str(u.bot)] + end;
    Literal(' ', word, args);
    Literal('u', [' '] + word, args);
    assert UPDATE_FORMAT == ['u'] + ([' '] + word);
    assert args == [Str(u.bot), Chr(u.flag), Num(u.ver)];
    var digits := Base64(Unsigned(u.ver));
    assert ['u'] + ([' '] + (u.bot + " " + ([u.flag] + (digits + "\n")))) ==
      "u " + u.bot + " " + ([u.flag] + digits + "\n");
  }

  method PrintUpdate(u: Update) returns (line: string)
    requires Int32(u.ver) && |u.bot| <= HANDLEN
    ensures line == UpdateText(u)
  {
    UpdateExpands(u);
    Base64Width(Unsigned(u.ver));
    var obuf := new char[LINEMAX + 1];
    var l := SimpleSprintf(obuf, UPDATE_FORMAT, [Str(u.bot), Chr(u.flag), Num(u.ver)]);
    line := obuf[..l];
  }

  /** A missing flag reads as NUL, a missing number as 0: both leave the entry as it is. */
  function ParseUpdate(par: string): Update {
    var bot, rest := Before(SkipSpaces(par), ' '), After(SkipSpaces(par), ' ');
    if rest == "" then Update(bot, '\0', 0) else Update(bot, rest[0], Wrap32(Value(rest[1..])))
  }

  method ReadUpdate(par: string) returns (u: Update)
    ensures u == ParseUpdate(par)
  {
    var bot, rest := NewSplit(par);
    if rest != "" {
      var ver := Base64ToInt(rest[1..]);
      u := Update(bot, rest[0], ver);
    } else {
      var ver := Base64ToInt(rest);
      assert Value("") == 0;
      u := Update(bot, '\0', ver);
    }
  }

  lemma UpdateRoundTrip(u: Update)
    requires Word(u.bot) && Int32(u.ver)
    ensures var line := UpdateText(u);
      var (code, msg) := Command(line[..|line| - 1]);
      line[|line| - 1] == '\n' && code == "u" && ParseUpdate(msg) == u
  {
    hide Base64, Value;
    var line, digits := UpdateText(u), Base64(Unsigned(u.ver));
    var tail := [u.flag] + digits;
    var msg := u.bot + " " + tail;
    assert line[..|line| - 1] == "u" + " " + msg;
    NextWord("u", msg);
    NextWord(u.bot, tail);
    assert tail[1..] == digits;
    Base64RoundTrip(u.ver);
  }

  lemma UpdateEndsEarly(bot: string)
    requires Word(bot)
    ensures ParseUpdate(bot) == Update(bot, '\0', 0)
  {
    OnlyWord(bot);
  }

  /** The announcement a bot named `a` sends for one entry of its table. */
  function LineFor(a: Name, b: Bot): Announce {
    Announce(b.name, if b.uplink.Node? then b.uplink.name else a, b.share, b.ver)
  }

  function BurstLines(a: Name, bots: seq<Bot>): seq<string> {
    seq(|bots|, i requires 0 <= i < |bots| => LineText(LineFor(a, bots[i])))
  }

  predicate Word(s: string) {
    s != "" && ' ' !in s
  }

  lemma NextWord(w: string, rest: string)
    requires Word(w)
    ensures SkipSpaces(w + " " + rest) == w + " " + rest
    ensures Before(w + " " + rest, ' ') == w && After(w + " " + rest, ' ') == rest
  {
    assert w + " " + rest == w + ([' '] + rest);
    BeforeUnique(w, ' ', [' '] + rest);
  }

  /** Printing an announcement and taking the received line apart again gives back all four fields. */
  lemma WireRoundTrip(a: Announce)
    requires Word(a.newbot) && Word(a.next) && a.flag != '\0' && Int32(a.ver)
    ensures var line := LineText(a);
      var (code, msg) := Command(line[..|line| - 1]);
      line[|line| - 1] == '\n' && code == "n" && ParseNlinked(msg) == a
  {
    var line := LineText(a);
    var digits := Base64(Unsigned(a.ver));
    var tail := [a.flag] + digits;
    var msg := a.newbot + " " + (a.next + " " + tail);
    assert line[..|line| - 1] == "n" + " " + msg;
    NextWord("n", msg);
    NextWord(a.newbot, a.next + " " + tail);
    NextWord(a.next, tail);
    assert tail[1..] == digits;
    Base64RoundTrip(a.ver);
  }
}
