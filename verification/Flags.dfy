/** Flag records as text: letters and digits for bits, `|` or `&` before the channel part. */
module Flags {
  import opened BotTree

  // ----- words, bit by bit

  /** C's right shift by one, repeated. */
  function Shifted(w: int, k: nat): int
    decreases k
  {
    if k == 0 then w else Shifted(w / 2, k - 1)
  }

  predicate Bit(w: int, k: nat) {
    Shifted(w, k) % 2 == 1
  }

  /** `w | 1 << k` */
  function WithBit(w: int, k: nat): int
    decreases k
  {
    if k == 0 then w / 2 * 2 + 1 else 2 * WithBit(w / 2, k - 1) + w % 2
  }

  /** `w & mask` */
  function And(w: int, mask: nat): nat
    decreases mask
  {
    if mask == 0 then 0 else 2 * And(w / 2, mask / 2) + (w % 2) * (mask % 2)
  }

  lemma {:induction false} ShiftStep(w: int, k: nat)
    ensures Shifted(w, k + 1) == Shifted(w, k) / 2
    decreases k
  {
    if k > 0 { ShiftStep(w / 2, k - 1); }
  }

  lemma {:induction false} ShiftOfZero(k: nat)
    ensures Shifted(0, k) == 0
  {
    if k > 0 { ShiftOfZero(k - 1); }
  }

  lemma {:induction false} ShiftTwice(w: int, j: nat, k: nat)
    ensures Shifted(Shifted(w, j), k) == Shifted(w, j + k)
    decreases j
  {
    if j > 0 { ShiftTwice(w / 2, j - 1, k); }
  }

  lemma {:induction false} WithBitBits(w: int, j: nat, k: nat)
    ensures Bit(WithBit(w, j), k) <==> j == k || Bit(w, k)
    decreases j
  {
    if j > 0 && k > 0 { WithBitBits(w / 2, j - 1, k - 1); }
  }

  lemma {:induction false} AndBits(w: int, mask: nat, k: nat)
    ensures Bit(And(w, mask), k) <==> Bit(w, k) && Bit(mask, k)
    decreases mask
  {
    if mask == 0 {
      ShiftOfZero(k);
    } else {
      var half, low := And(w / 2, mask / 2), (w % 2) * (mask % 2);
      assert low == if w % 2 == 1 && mask % 2 == 1 then 1 else 0;
      assert And(w, mask) == 2 * half + low;
      if k > 0 { AndBits(w / 2, mask / 2, k - 1); }
    }
  }

  /** A word that is not negative is its bits. */
  lemma {:induction false} SameBits(v: nat, w: nat)
    requires forall k: nat :: Bit(v, k) <==> Bit(w, k)
    ensures v == w
    decreases v + w
  {
    if v + w > 0 {
      assert Bit(v, 0) <==> Bit(w, 0);
      forall k: nat ensures Bit(v / 2, k) <==> Bit(w / 2, k) {
        assert Bit(v, k + 1) <==> Bit(w, k + 1);
      }
      SameBits(v / 2, w / 2);
    }
  }

  function Pow2(n: nat): nat {
    if n == 0 then 1 else 2 * Pow2(n - 1)
  }

  lemma {:induction false} HighBits(w: nat, n: nat, k: nat)
    requires w < Pow2(n) && n <= k
    ensures !Bit(w, k)
  {
    if n == 0 { ShiftOfZero(k); } else { HighBits(w / 2, n - 1, k - 1); }
  }

  // ----- records

  const FR_GLOBAL: nat := 0
  const FR_BOT: nat := 1
  const FR_CHAN: nat := 2
  const FR_AND: nat := 29
  const FR_OR: nat := 30

  const USER_VALID: nat := 0x03fbfeff
  const CHAN_VALID: nat := 0x03777c79
  const BOT_VALID: nat := 0x7fe689c1
  const UDEF_VALID: nat := 0x03ffffff

  /** The position of the first of the ten bot flags written as digits. */
  const BOT_FLAG0: nat := 21

  datatype Flags = Flags(match_: int, global_: int, udefGlobal: int, bot: int, chan: int, udefChan: int)

  const NONE := Flags(0, 0, 0, 0, 0, 0)

  // ----- printing

  /** A character for each bit set among the `n` bits from `low` on. */
  function Letters(w: int, base: char, low: nat, n: nat): (s: string)
    requires n <= 26 && base <= 'a'
  {
    if n == 0 then "" else
    Letters(w, base, low, n - 1) + if Bit(w, low + n - 1) then [base + (n - 1) as char] else ""
  }

  function OrDash(s: string): string {
    if s == "" then "-" else s
  }

  function FlagText(flags: int, udef: int): string {
    OrDash(Letters(flags, 'a', 0, 26) + Letters(udef, 'A', 0, 26))
  }

  function BotText(flags: int): string {
    OrDash(Letters(flags, 'a', 0, 21) + Letters(flags, '0', BOT_FLAG0, 10))
  }

  function FirstPart(r: Flags): string {
    if Bit(r.match_, FR_GLOBAL) then FlagText(r.global_, r.udefGlobal)
    else if Bit(r.match_, FR_BOT) then BotText(r.bot)
    else ""
  }

  function Separator(r: Flags): string {
    if !Bit(r.match_, FR_GLOBAL) && !Bit(r.match_, FR_BOT) then ""
    else if Bit(r.match_, FR_AND) then "&" else "|"
  }

  function ChanPart(r: Flags): string {
    if Bit(r.match_, FR_CHAN) then Separator(r) + FlagText(r.chan, r.udefChan) else ""
  }

  function Text(r: Flags): string {
    OrDash(FirstPart(r) + ChanPart(r))
  }

  lemma {:induction false} LettersEnd(w: int, base: char, low: nat, k: nat, n: nat)
    requires k <= n <= 26 && base <= 'a' && Shifted(w, low + k) == 0
    ensures Letters(w, base, low, n) == Letters(w, base, low, k)
  {
    if k < n {
      LettersEnd(w, base, low, k, n - 1);
      ShiftTwice(w, low + k, n - 1 - k);
      ShiftOfZero(n - 1 - k);
    }
  }

  method Flag2Str(bot: int, udef: int) returns (s: string)
    ensures s == FlagText(bot, udef)
  {
    var x, b := 'a', bot;
    s := "";
    ghost var k := 0;
    while b != 0 && x <= 'z'
      invariant 0 <= k <= 26 && x == 'a' + k as char && b == Shifted(bot, k) && s == Letters(bot, 'a', 0, k)
      decreases 26 - k
    {
      ShiftStep(bot, k);
      if b % 2 == 1 { s := s + [x]; }
      x, b, k := x + 1 as char, b / 2, k + 1;
    }
    if b == 0 { LettersEnd(bot, 'a', 0, k, 26); }
    ghost var lower := s;
    x, b, k := 'A', udef, 0;
    while b != 0 && x <= 'Z'
      invariant 0 <= k <= 26 && x == 'A' + k as char && b == Shifted(udef, k)
      invariant s == lower + Letters(udef, 'A', 0, k)
      decreases 26 - k
    {
      ShiftStep(udef, k);
      if b % 2 == 1 { s := s + [x]; }
      x, b, k := x + 1 as char, b / 2, k + 1;
    }
    if b == 0 { LettersEnd(udef, 'A', 0, k, 26); }
    if s == "" { s := "-"; }
  }

  method Bot2Str(bot: int) returns (s: string)
    ensures s == BotText(bot)
  {
    var x, b := 'a', bot;
    s := "";
    ghost var k := 0;
    while x < 'v'
      invariant 0 <= k <= 21 && x == 'a' + k as char && b == Shifted(bot, k) && s == Letters(bot, 'a', 0, k)
    {
      ShiftStep(bot, k);
      if b % 2 == 1 { s := s + [x]; }
      x, b, k := x + 1 as char, b / 2, k + 1;
    }
    ghost var lower := s;
    x, k := '0', 0;
    while x <= '9'
      invariant 0 <= k <= 10 && x == '0' + k as char && b == Shifted(bot, BOT_FLAG0 + k)
      invariant s == lower + Letters(bot, '0', BOT_FLAG0, k)
    {
      ShiftStep(bot, BOT_FLAG0 + k);
      if b % 2 == 1 { s := s + [x]; }
      x, b, k := x + 1 as char, b / 2, k + 1;
    }
    if s == "" { s := "-"; }
  }

  method BuildFlags(r: Flags) returns (s: string, length: int)
    ensures s == Text(r)
    ensures length == if FirstPart(r) + ChanPart(r) == "" then 0 else |s|
  {
    s := "";
    if Bit(r.match_, FR_GLOBAL) {
      s := Flag2Str(r.global_, r.udefGlobal);
    } else if Bit(r.match_, FR_BOT) {
      s := Bot2Str(r.bot);
    }
    if Bit(r.match_, FR_CHAN) {
      if Bit(r.match_, FR_GLOBAL) || Bit(r.match_, FR_BOT) {
        s := s + [if Bit(r.match_, FR_AND) then '&' else '|'];
      }
      var c := Flag2Str(r.chan, r.udefChan);
      s := s + c;
    }
    if s == "" {
      return "-", 0;
    }
    return s, |s|;
  }

  // ----- parsing

  datatype Field = Global | UdefGlobal | Bot | Chan | UdefChan

  function Get(r: Flags, f: Field): int {
    match f
    case Global => r.global_
    case UdefGlobal => r.udefGlobal
    case Bot => r.bot
    case Chan => r.chan
    case UdefChan => r.udefChan
  }

  function Put(r: Flags, f: Field, v: int): Flags {
    match f
    case Global => r.(global_ := v)
    case UdefGlobal => r.(udefGlobal := v)
    case Bot => r.(bot := v)
    case Chan => r.(chan := v)
    case UdefChan => r.(udefChan := v)
  }

  /** Where the text has got to: the part it is in (0 global, 1 channel, 2 bot), and whether it was cut short. */
  datatype Scan = Scan(r: Flags, mode: int, stopped: bool)

  datatype Target = Target(field: Field, bit: nat)

  /** The bit a character stands for in each part. */
  function Meaning(c: char, mode: int): Option<Target> {
    if 'a' <= c <= 'z' then
      var k := c as int - 'a' as int;
      if mode == 0 then Some(Target(Global, k)) else if mode == 1 then Some(Target(Chan, k))
      else if mode == 2 then Some(Target(Field.Bot, k)) else None
    else if 'A' <= c <= 'Z' then
      var k := c as int - 'A' as int;
      if mode == 0 then Some(Target(UdefGlobal, k)) else if mode == 1 then Some(Target(UdefChan, k)) else None
    else if '0' <= c <= '9' then
      var k := c as int - '0' as int;
      if mode == 0 then Some(Target(UdefGlobal, k)) else if mode == 1 then Some(Target(UdefChan, k))
      else if mode == 2 then Some(Target(Field.Bot, BOT_FLAG0 + k)) else None
    else None
  }

  function ScanChar(kind: int, p: Scan, c: char): Scan {
    if p.stopped then p
    else if c == '|' || c == '&' then
      var r := if p.mode == 0 then p.r.(match_ := WithBit(0, if c == '|' then FR_OR else FR_AND)) else p.r;
      var mode := p.mode + 1;
      if mode == 2 && !Bit(kind, FR_CHAN) && !Bit(kind, FR_BOT) then Scan(r, mode, true)
      else Scan(r, if mode == 3 then 1 else mode, false)
    else
      var t := Meaning(c, p.mode);
      if t.None? then p
      else p.(r := Put(p.r, t.value.field, WithBit(Get(p.r, t.value.field), t.value.bit)))
  }

  function Scanned(kind: int, p: Scan, s: string): Scan {
    if s == "" then p else ScanChar(kind, Scanned(kind, p, s[..|s| - 1]), s[|s| - 1])
  }

  /** `w | v` for the match word, whose kind bits and one of AND and OR come together. */
  function WithBits(w: int, v: int, n: nat): int {
    if n == 0 then w else
    var u := WithBits(w, v, n - 1);
    if Bit(v, n - 1) then WithBit(u, n - 1) else u
  }

  function Masked(r: Flags): Flags {
    Flags(r.match_, And(r.global_, USER_VALID), And(r.udefGlobal, UDEF_VALID), And(r.bot, BOT_VALID),
          And(r.chan, CHAN_VALID), And(r.udefChan, UDEF_VALID))
  }

  function StartMode(kind: int): int {
    if Bit(kind, FR_GLOBAL) then 0 else if Bit(kind, FR_BOT) then 2 else 1
  }

  predicate Selects(kind: int) {
    Bit(kind, FR_GLOBAL) || Bit(kind, FR_BOT) || Bit(kind, FR_CHAN)
  }

  function Start(kind: int): Scan {
    Scan(NONE.(match_ := WithBit(0, FR_OR)), StartMode(kind), false)
  }

  function BrokenDown(text: string, plus: Flags): Flags {
    var kind := plus.match_;
    if !Selects(kind) then plus else
    var r := Masked(Scanned(kind, Start(kind), text).r);
    r.(match_ := WithBits(r.match_, kind, 32))
  }

  class FlagRecord {
    var match_: int
    var global_: int
    var udefGlobal: int
    var bot: int
    var chan: int
    var udefChan: int

    function Value(): Flags
      reads this
    {
      Flags(match_, global_, udefGlobal, bot, chan, udefChan)
    }

    method BreakDownFlags(text: string)
      modifies this
      ensures Value() == BrokenDown(text, old(Value()))
    {
      hide WithBit, Bit, And, WithBits;
      var kind, mode, stopped := match_, 0, false;
      if !Bit(kind, FR_GLOBAL) {
        if Bit(kind, FR_BOT) {
          mode := 2;
        } else if Bit(kind, FR_CHAN) {
          mode := 1;
        } else {
          return;
        }
      }
      global_, udefGlobal, bot, chan, udefChan := 0, 0, 0, 0, 0;
      match_ := WithBit(0, FR_OR);
      var i := 0;
      while i < |text| && !stopped
        invariant 0 <= i <= |text| && Scan(Value(), mode, stopped) == Scanned(kind, Start(kind), text[..i])
      {
        ScannedStep(kind, Start(kind), text, i);
        var c := text[i];
        if c == '|' || c == '&' {
          if mode == 0 {
            match_ := WithBit(0, if c == '|' then FR_OR else FR_AND);
          }
          mode := mode + 1;
          if mode == 2 && !Bit(kind, FR_CHAN) && !Bit(kind, FR_BOT) {
            stopped := true;
          } else if mode == 3 {
            mode := 1;
          }
        } else {
          SetFlag(c, mode);
        }
        i := i + 1;
      }
      ScannedStopped(kind, Start(kind), text, i);
      global_, udefGlobal := And(global_, USER_VALID), And(udefGlobal, UDEF_VALID);
      chan, udefChan := And(chan, CHAN_VALID), And(udefChan, UDEF_VALID);
      bot := And(bot, BOT_VALID);
      match_ := WithBits(match_, kind, 32);
    }

    method SetFlag(c: char, mode: int)
      modifies this
      ensures var t := Meaning(c, mode);
        Value() == if t.None? then old(Value())
                   else Put(old(Value()), t.value.field, WithBit(Get(old(Value()), t.value.field), t.value.bit))
    {
      if 'a' <= c <= 'z' {
        var k := c as int - 'a' as int;
        if mode == 0 { global_ := WithBit(global_, k); }
        else if mode == 1 { chan := WithBit(chan, k); }
        else if mode == 2 { bot := WithBit(bot, k); }
      } else if 'A' <= c <= 'Z' {
        var k := c as int - 'A' as int;
        if mode == 0 { udefGlobal := WithBit(udefGlobal, k); }
        else if mode == 1 { udefChan := WithBit(udefChan, k); }
      } else if '0' <= c <= '9' {
        var k := c as int - '0' as int;
        if mode == 0 { udefGlobal := WithBit(udefGlobal, k); }
        else if mode == 1 { udefChan := WithBit(udefChan, k); }
        else if mode == 2 { bot := WithBit(bot, BOT_FLAG0 + k); }
      }
    }
  }

  lemma ScannedStep(kind: int, p: Scan, s: string, i: nat)
    requires i < |s|
    ensures Scanned(kind, p, s[..i + 1]) == ScanChar(kind, Scanned(kind, p, s[..i]), s[i])
  {
    assert s[..i + 1][..i] == s[..i];
  }

  lemma {:induction false} ScannedStopped(kind: int, p: Scan, s: string, i: nat)
    requires i <= |s| && (i == |s| || Scanned(kind, p, s[..i]).stopped)
    ensures Scanned(kind, p, s) == Scanned(kind, p, s[..i])
    decreases |s| - i
  {
    if i == |s| {
      assert s[..i] == s;
    } else {
      ScannedStep(kind, p, s, i);
      ScannedStopped(kind, p, s, i + 1);
    }
  }

  // ----- the string pointer past its end

  function Separators(text: string): nat {
    if text == "" then 0 else
    Separators(text[..|text| - 1]) + if text[|text| - 1] in {'|', '&'} then 1 else 0
  }

  /** The scan is cut short, with the pointer set to an empty literal and then moved past it, exactly for records that
      select only global flags and texts with a second separator. */
  lemma {:induction false} PastTheEnd(kind: int, text: string)
    requires Selects(kind)
    ensures var p, only := Scanned(kind, Start(kind), text),
                           Bit(kind, FR_GLOBAL) && !Bit(kind, FR_BOT) && !Bit(kind, FR_CHAN);
      && (p.stopped <==> only && Separators(text) >= 2)
      && (only && !p.stopped ==> p.mode == Separators(text))
  {
    hide Bit, WithBit;
    if text != "" {
      PastTheEnd(kind, text[..|text| - 1]);
    }
  }

  /** The shortest kind of such a text, and the same text for a record that selects channel flags as well. */
  lemma TwoSeparators(kind: int)
    requires Selects(kind)
    ensures Scanned(kind, Start(kind), "a|b|c").stopped <==> !Bit(kind, FR_BOT) && !Bit(kind, FR_CHAN)
    ensures !Scanned(kind, Start(kind), "a|b").stopped
  {
    PastTheEnd(kind, "a|b|c");
    PastTheEnd(kind, "a|b");
    assert "a|b|c"[..4] == "a|b|" && "a|b|"[..3] == "a|b" && "a|b"[..2] == "a|" && "a|"[..1] == "a" && "a"[..0] == "";
    assert Separators("a|b") == 1;
  }

  // ----- the round trip

  lemma {:induction false} ScannedConcat(kind: int, p: Scan, s: string, t: string)
    ensures Scanned(kind, p, s + t) == Scanned(kind, Scanned(kind, p, s), t)
    decreases |t|
  {
    if t == "" {
      assert s + t == s;
    } else {
      ScannedConcat(kind, p, s, t[..|t| - 1]);
      assert (s + t)[..|s + t| - 1] == s + t[..|t| - 1];
    }
  }

  /** A word with the bits of `w` from `low` to `low + n` put in. */
  function Gathered(g: int, w: int, low: nat, n: nat): int {
    if n == 0 then g else
    var h := Gathered(g, w, low, n - 1);
    if Bit(w, low + n - 1) then WithBit(h, low + n - 1) else h
  }

  lemma {:induction false} GatheredBits(g: int, w: int, low: nat, n: nat, k: nat)
    ensures Bit(Gathered(g, w, low, n), k) <==> Bit(g, k) || (low <= k < low + n && Bit(w, k))
  {
    if n > 0 {
      GatheredBits(g, w, low, n - 1, k);
      WithBitBits(Gathered(g, w, low, n - 1), low + n - 1, k);
    }
  }

  predicate SpellsOne(f: Field, mode: int, base: char, low: nat, j: nat)
    requires j < 26 && base <= 'a'
  {
    Meaning(base + j as char, mode) == Some(Target(f, low + j))
  }

  /** In this part of the text, `n` characters from `base` on stand for the bits from `low` on. */
  predicate Spells(f: Field, mode: int, base: char, low: nat, n: nat)
    requires n <= 26 && base <= 'a'
  {
    forall j: nat | j < n :: SpellsOne(f, mode, base, low, j)
  }

  /** Scanning the letters of a word puts its bits back. */
  lemma {:induction false} ScanLetters(kind: int, p: Scan, f: Field, w: int, base: char, low: nat, n: nat)
    requires n <= 26 && base <= 'a' && Spells(f, p.mode, base, low, n) && !p.stopped
    ensures Scanned(kind, p, Letters(w, base, low, n)) == p.(r := Put(p.r, f, Gathered(Get(p.r, f), w, low, n)))
  {
    hide WithBit, Bit;
    if n > 0 {
      ScanLetters(kind, p, f, w, base, low, n - 1);
      if Bit(w, low + n - 1) {
        var front, c := Letters(w, base, low, n - 1), base + (n - 1) as char;
        assert SpellsOne(f, p.mode, base, low, n - 1);
        assert (front + [c])[..|front|] == front;
      } else {
        assert Letters(w, base, low, n) == Letters(w, base, low, n - 1);
      }
    }
  }

  lemma ScanDash(kind: int, p: Scan, s: string)
    ensures Scanned(kind, p, OrDash(s)) == Scanned(kind, p, s)
  {
  }

  lemma ScanFlagText(kind: int, p: Scan, flags: int, udef: int)
    requires !p.stopped && p.mode in {0, 1}
    ensures var f, u := if p.mode == 0 then Global else Chan, if p.mode == 0 then UdefGlobal else UdefChan;
      Scanned(kind, p, FlagText(flags, udef)) ==
        p.(r := Put(Put(p.r, f, Gathered(Get(p.r, f), flags, 0, 26)), u, Gathered(Get(p.r, u), udef, 0, 26)))
  {
    hide Letters, Scanned, Gathered;
    var f, u := if p.mode == 0 then Global else Chan, if p.mode == 0 then UdefGlobal else UdefChan;
    var lower, upper := Letters(flags, 'a', 0, 26), Letters(udef, 'A', 0, 26);
    ScanDash(kind, p, lower + upper);
    ScannedConcat(kind, p, lower, upper);
    ScanLetters(kind, p, f, flags, 'a', 0, 26);
    ScanLetters(kind, Scanned(kind, p, lower), u, udef, 'A', 0, 26);
  }

  lemma ScanBotText(kind: int, p: Scan, flags: int)
    requires !p.stopped && p.mode == 2
    ensures Scanned(kind, p, BotText(flags)) ==
      p.(r := p.r.(bot := Gathered(Gathered(p.r.bot, flags, 0, 21), flags, BOT_FLAG0, 10)))
  {
    hide Letters, Scanned, Gathered;
    var letters, digits := Letters(flags, 'a', 0, 21), Letters(flags, '0', BOT_FLAG0, 10);
    ScanDash(kind, p, letters + digits);
    ScannedConcat(kind, p, letters, digits);
    ScanLetters(kind, p, Field.Bot, flags, 'a', 0, 21);
    ScanLetters(kind, Scanned(kind, p, letters), Field.Bot, flags, '0', BOT_FLAG0, 10);
  }

  /** What the mask keeps of a word printed and read back is what it keeps of the word. */
  lemma GatheredMasked(w: int, n: nat, m: nat, mask: nat)
    requires mask < Pow2(n + m)
    ensures And(Gathered(Gathered(0, w, 0, n), w, n, m), mask) == And(w, mask)
  {
    var g := Gathered(Gathered(0, w, 0, n), w, n, m);
    forall k: nat ensures Bit(And(g, mask), k) <==> Bit(And(w, mask), k) {
      AndBits(g, mask, k);
      AndBits(w, mask, k);
      GatheredBits(Gathered(0, w, 0, n), w, n, m, k);
      GatheredBits(0, w, 0, n, k);
      ShiftOfZero(k);
      if k >= n + m { HighBits(mask, n + m, k); }
    }
    SameBits(And(g, mask), And(w, mask));
  }

  lemma MaskWidths()
    ensures USER_VALID < Pow2(26) && CHAN_VALID < Pow2(26) && UDEF_VALID < Pow2(26) && BOT_VALID < Pow2(31)
  {
    assert Pow2(6) == 64;
    assert Pow2(11) == 2048;
    assert Pow2(16) == 0x1_0000;
    assert Pow2(21) == 0x20_0000;
    assert Pow2(26) == 0x400_0000;
  }

  predicate SameKind(a: int, b: int) {
    (Bit(a, FR_GLOBAL) <==> Bit(b, FR_GLOBAL)) && (Bit(a, FR_BOT) <==> Bit(b, FR_BOT))
    && (Bit(a, FR_CHAN) <==> Bit(b, FR_CHAN))
  }

  /** What a record keeps when printed and read back as the same kind. Of global and bot flags only the former are
      printed, and AND is read back only where a global part comes first. */
  function Kept(r: Flags, plus: Flags): Flags {
    var g, b, c := Bit(r.match_, FR_GLOBAL), Bit(r.match_, FR_BOT), Bit(r.match_, FR_CHAN);
    Flags(
      WithBits(WithBit(0, if g && c && Bit(r.match_, FR_AND) then FR_AND else FR_OR), plus.match_, 32),
      if g then And(r.global_, USER_VALID) else 0,
      if g then And(r.udefGlobal, UDEF_VALID) else 0,
      if b && !g then And(r.bot, BOT_VALID) else 0,
      if c then And(r.chan, CHAN_VALID) else 0,
      if c then And(r.udefChan, UDEF_VALID) else 0)
  }

  lemma ZeroMasked(mask: nat)
    ensures And(0, mask) == 0
  {
  }

  lemma ScanChanPart(r: Flags, kind: int, p: Scan)
    requires SameKind(r.match_, kind) && Bit(kind, FR_CHAN) && !p.stopped && p.mode == StartMode(kind)
    ensures var q := Scanned(kind, p, ChanPart(r));
      q.r == p.r.(chan := Gathered(p.r.chan, r.chan, 0, 26), udefChan := Gathered(p.r.udefChan, r.udefChan, 0, 26),
                  match_ := if p.mode == 0 then WithBit(0, if Bit(r.match_, FR_AND) then FR_AND else FR_OR) else p.r.match_)
  {
    hide Bit, WithBit, FlagText, Gathered;
    var sep := Separator(r);
    ScannedConcat(kind, p, sep, FlagText(r.chan, r.udefChan));
    if sep != "" {
      assert sep[..0] == "";
      assert Scanned(kind, p, sep) == ScanChar(kind, p, sep[0]);
    }
    ScanFlagText(kind, Scanned(kind, p, sep), r.chan, r.udefChan);
  }

  /** Every kind of record, printed and read back, keeps what it selects, up to the valid bits. */
  lemma FlagRoundTrip(r: Flags, plus: Flags)
    requires SameKind(r.match_, plus.match_) && Selects(r.match_)
    ensures BrokenDown(Text(r), plus) == Kept(r, plus)
  {
    hide Bit, WithBit, WithBits, And, FlagText, BotText, ChanPart, Gathered, Scanned;
    var kind, p := plus.match_, Start(plus.match_);
    ScanDash(kind, p, FirstPart(r) + ChanPart(r));
    ScannedConcat(kind, p, FirstPart(r), ChanPart(r));
    if Bit(kind, FR_GLOBAL) {
      ScanFlagText(kind, p, r.global_, r.udefGlobal);
    } else if Bit(kind, FR_BOT) {
      ScanBotText(kind, p, r.bot);
    }
    NothingScanned(kind, p);
    NothingScanned(kind, Scanned(kind, p, FirstPart(r)));
    if Bit(kind, FR_CHAN) {
      ScanChanPart(r, kind, Scanned(kind, p, FirstPart(r)));
    } else {
      NoChanPart(r);
    }
    MaskWidths();
    GatheredOnce(r.global_, USER_VALID);
    GatheredOnce(r.udefGlobal, UDEF_VALID);
    GatheredOnce(r.chan, CHAN_VALID);
    GatheredOnce(r.udefChan, UDEF_VALID);
    GatheredMasked(r.bot, 21, 10, BOT_VALID);
    ZeroMasked(USER_VALID);
    ZeroMasked(CHAN_VALID);
    ZeroMasked(UDEF_VALID);
    ZeroMasked(BOT_VALID);
  }

  lemma NothingScanned(kind: int, p: Scan)
    ensures Scanned(kind, p, "") == p
  {
  }

  lemma NoChanPart(r: Flags)
    requires !Bit(r.match_, FR_CHAN)
    ensures ChanPart(r) == ""
  {
  }

  lemma GatheredOnce(w: int, mask: nat)
    requires mask < Pow2(26)
    ensures And(Gathered(0, w, 0, 26), mask) == And(w, mask)
  {
    GatheredMasked(w, 26, 0, mask);
    assert Gathered(Gathered(0, w, 0, 26), w, 26, 0) == Gathered(0, w, 0, 26);
  }

  /** So a record with a global and a bot part loses the latter, and that is the only loss of a selected field. */
  lemma SelectedSurvive(r: Flags, plus: Flags)
    requires SameKind(r.match_, plus.match_) && Selects(r.match_)
    ensures var out, m := BrokenDown(Text(r), plus), Masked(r);
      && ((Bit(r.match_, FR_GLOBAL) ==> out.global_ == m.global_ && out.udefGlobal == m.udefGlobal)
          && (Bit(r.match_, FR_BOT) ==> out.bot == m.bot)
          && (Bit(r.match_, FR_CHAN) ==> out.chan == m.chan && out.udefChan == m.udefChan)
          <==> !(Bit(r.match_, FR_GLOBAL) && Bit(r.match_, FR_BOT) && m.bot != 0))
  {
    FlagRoundTrip(r, plus);
  }

  /** AND is told from OR after the round trip exactly where a global and a channel part are printed. */
  lemma AndSurvives(r: Flags, plus: Flags)
    requires SameKind(r.match_, plus.match_) && Selects(r.match_)
    requires Bit(r.match_, FR_AND) && !Bit(plus.match_, FR_AND)
    ensures Bit(BrokenDown(Text(r), plus).match_, FR_AND) <==> Bit(r.match_, FR_GLOBAL) && Bit(r.match_, FR_CHAN)
  {
    FlagRoundTrip(r, plus);
    var a := if Bit(r.match_, FR_GLOBAL) && Bit(r.match_, FR_CHAN) then FR_AND else FR_OR;
    WithBitsBits(WithBit(0, a), plus.match_, 32, FR_AND);
    WithBitBits(0, a, FR_AND);
    ShiftOfZero(FR_AND);
  }

  lemma {:induction false} WithBitsBits(w: int, v: int, n: nat, k: nat)
    ensures Bit(WithBits(w, v, n), k) <==> Bit(w, k) || (k < n && Bit(v, k))
  {
    if n > 0 {
      WithBitsBits(w, v, n - 1, k);
      WithBitBits(WithBits(w, v, n - 1), n - 1, k);
    }
  }

  // ----- which letters are printed

  lemma {:induction false} LetterShown(w: int, base: char, low: nat, n: nat, c: char)
    requires n <= 26 && base <= 'a'
    ensures c in Letters(w, base, low, n) <==>
      base as int <= c as int < base as int + n && Bit(w, low + (c as int - base as int))
  {
    hide Bit;
    if n > 0 {
      LetterShown(w, base, low, n - 1, c);
      var here := if Bit(w, low + n - 1) then [base + (n - 1) as char] else "";
      assert Letters(w, base, low, n) == Letters(w, base, low, n - 1) + here;
    }
  }

  /** A small letter is printed for each of the low 26 bits of the flags, a capital for each of the user's own, and a
      dash alone where there is none. */
  lemma FlagLetters(flags: int, udef: int, k: nat)
    requires k < 26
    ensures 'a' + k as char in FlagText(flags, udef) <==> Bit(flags, k)
    ensures 'A' + k as char in FlagText(flags, udef) <==> Bit(udef, k)
    ensures '-' in FlagText(flags, udef) <==> FlagText(flags, udef) == "-"
    ensures '|' !in FlagText(flags, udef) && '&' !in FlagText(flags, udef)
  {
    hide Bit, Letters;
    LetterShown(flags, 'a', 0, 26, 'a' + k as char);
    LetterShown(udef, 'A', 0, 26, 'a' + k as char);
    LetterShown(flags, 'a', 0, 26, 'A' + k as char);
    LetterShown(udef, 'A', 0, 26, 'A' + k as char);
    LetterShown(flags, 'a', 0, 26, '-');
    LetterShown(udef, 'A', 0, 26, '-');
    LetterShown(flags, 'a', 0, 26, '|');
    LetterShown(udef, 'A', 0, 26, '|');
    LetterShown(flags, 'a', 0, 26, '&');
    LetterShown(udef, 'A', 0, 26, '&');
  }

  predicate Ascending(s: string) {
    forall i, j | 0 <= i < j < |s| :: s[i] < s[j]
  }

  predicate Within(s: string, low: char, high: int) {
    forall i | 0 <= i < |s| :: low <= s[i] && s[i] as int < high
  }

  /** The letters of one word ascend. */
  lemma {:induction false} LettersAscend(w: int, base: char, low: nat, n: nat)
    requires n <= 26 && base <= 'a'
    ensures Ascending(Letters(w, base, low, n)) && Within(Letters(w, base, low, n), base, base as int + n)
  {
    hide Bit;
    if n > 0 {
      LettersAscend(w, base, low, n - 1);
      var here := if Bit(w, low + n - 1) then [base + (n - 1) as char] else "";
      assert Letters(w, base, low, n) == Letters(w, base, low, n - 1) + here;
    }
  }

  /** Small letters come first, then capitals or digits, each in order. */
  lemma TextOrder(flags: int, udef: int)
    ensures InOrder(FlagText(flags, udef)) && InOrder(BotText(flags))
  {
    hide Letters;
    LettersAscend(flags, 'a', 0, 26);
    LettersAscend(udef, 'A', 0, 26);
    LettersAscend(flags, 'a', 0, 21);
    LettersAscend(flags, '0', BOT_FLAG0, 10);
    Placed(Letters(flags, 'a', 0, 26), Letters(udef, 'A', 0, 26));
    Placed(Letters(flags, 'a', 0, 21), Letters(flags, '0', BOT_FLAG0, 10));
  }

  ghost predicate InOrder(s: string) {
    exists x, y :: s == OrDash(x + y) && Ascending(x) && Within(x, 'a', 123) && Ascending(y) && Within(y, ' ', 97)
  }

  lemma Placed(x: string, y: string)
    requires Ascending(x) && Within(x, 'a', 123) && Ascending(y) && Within(y, ' ', 97)
    ensures InOrder(OrDash(x + y))
  {
  }

  /** Of the bot flags the low 21 bits are letters and the ten above them digits. */
  lemma BotLetters(flags: int, k: nat)
    ensures k < 21 ==> ('a' + k as char in BotText(flags) <==> Bit(flags, k))
    ensures k < 10 ==> ('0' + k as char in BotText(flags) <==> Bit(flags, 21 + k))
    ensures '|' !in BotText(flags) && '&' !in BotText(flags)
  {
    hide Bit, Letters;
    if k < 21 {
      LetterShown(flags, 'a', 0, 21, 'a' + k as char);
      LetterShown(flags, '0', 21, 10, 'a' + k as char);
    }
    if k < 10 {
      LetterShown(flags, 'a', 0, 21, '0' + k as char);
      LetterShown(flags, '0', 21, 10, '0' + k as char);
    }
    LetterShown(flags, 'a', 0, 21, '|');
    LetterShown(flags, '0', 21, 10, '|');
    LetterShown(flags, 'a', 0, 21, '&');
    LetterShown(flags, '0', 21, 10, '&');
  }

  /** The parts of a record's text: the global part or else the bot part, a separator that tells AND from OR if a
      channel part follows one, and the channel part. */
  lemma TextParts(r: Flags)
    ensures var g, b, c := Bit(r.match_, 0), Bit(r.match_, 1), Bit(r.match_, 2);
      Text(r) == if !g && !b && !c then "-"
                 else (if g then FlagText(r.global_, r.udefGlobal) else if b then BotText(r.bot) else "")
                      + (if c && (g || b) then (if Bit(r.match_, 29) then "&" else "|") else "")
                      + if c then FlagText(r.chan, r.udefChan) else ""
  {
    hide Bit, Letters;
  }

  // ----- what is read

  /** Whether some character of the text stands for this bit in this part. */
  predicate Sets(s: string, mode: int, f: Field, k: nat) {
    exists i :: 0 <= i < |s| && Meaning(s[i], mode) == Some(Target(f, k))
  }

  predicate NoSeparator(s: string) {
    forall i | 0 <= i < |s| :: s[i] != '|' && s[i] != '&'
  }

  lemma {:induction false} ScanPart(kind: int, p: Scan, s: string, f: Field, k: nat)
    requires NoSeparator(s) && !p.stopped
    ensures var q := Scanned(kind, p, s);
      && q.mode == p.mode && !q.stopped && q.r.match_ == p.r.match_
      && (Bit(Get(q.r, f), k) <==> Bit(Get(p.r, f), k) || Sets(s, p.mode, f, k))
  {
    hide Bit, WithBit, Meaning;
    if s != "" {
      var n := |s| - 1;
      ScanPart(kind, p, s[..n], f, k);
      SetsSnoc(s, p.mode, f, k);
      var q, t := Scanned(kind, p, s[..n]), Meaning(s[n], p.mode);
      if t.Some? { WithBitBits(Get(q.r, t.value.field), t.value.bit, k); }
    }
  }

  lemma SetsSnoc(s: string, mode: int, f: Field, k: nat)
    requires s != ""
    ensures var n := |s| - 1; Sets(s, mode, f, k) <==> Sets(s[..n], mode, f, k) || Meaning(s[n], mode) == Some(Target(f, k))
  {
    hide Meaning;
    var n := |s| - 1;
    if i :| 0 <= i < n && Meaning(s[..n][i], mode) == Some(Target(f, k)) {
      assert s[i] == s[..n][i];
    }
    if i :| 0 <= i < |s| && Meaning(s[i], mode) == Some(Target(f, k)) {
      if i < n { assert s[..n][i] == s[i]; }
    }
  }

  /** What sets a flag: its letter, and for a flag of the user's own its capital or, for the first ten, its digit. Bot
      flags are letters, and digits for bits 21 to 30. */
  lemma WhatSets(s: string, k: nat)
    requires k < 32
    ensures Sets(s, 0, Global, k) <==> k < 26 && 'a' + k as char in s
    ensures Sets(s, 1, Chan, k) <==> k < 26 && 'a' + k as char in s
    ensures Sets(s, 0, UdefGlobal, k) <==> (k < 26 && 'A' + k as char in s) || (k < 10 && '0' + k as char in s)
    ensures Sets(s, 1, UdefChan, k) <==> (k < 26 && 'A' + k as char in s) || (k < 10 && '0' + k as char in s)
    ensures Sets(s, 2, Field.Bot, k) <==>
      (k < 26 && 'a' + k as char in s) || (21 <= k < 31 && '0' + (k - 21) as char in s)
  {
    var small, big, digit := 'a' + k as char, 'A' + k as char, '0' + k as char;
    if k < 26 && small in s { var i :| 0 <= i < |s| && s[i] == small; }
    if k < 26 && big in s { var i :| 0 <= i < |s| && s[i] == big; }
    if k < 10 && digit in s { var i :| 0 <= i < |s| && s[i] == digit; }
    if 21 <= k < 31 && '0' + (k - 21) as char in s { var i :| 0 <= i < |s| && s[i] == '0' + (k - 21) as char; }
  }

  /** A separator moves from the global part to the channel part, from there to the bot part, and from the bot part to
      the channel part; only leaving the global part says AND or OR. */
  lemma SeparatorMoves(kind: int, p: Scan, c: char)
    requires !p.stopped && c in {'|', '&'} && p.mode in {0, 1, 2} && (Bit(kind, 1) || Bit(kind, 2))
    ensures var q := ScanChar(kind, p, c);
      && !q.stopped && q.mode == (if p.mode == 1 then 2 else 1)
      && q.r == p.r.(match_ := if p.mode != 0 then p.r.match_ else if c == '&' then WithBit(0, 29) else WithBit(0, 30))
  {
    hide Bit, WithBit;
  }

  // ----- the numbers

  /** The bits of the match word, by their values. */
  lemma KindValues()
    ensures WithBit(0, FR_GLOBAL) == 1 && WithBit(0, FR_BOT) == 2 && WithBit(0, FR_CHAN) == 4
    ensures WithBit(0, FR_AND) == 0x20000000 && WithBit(0, FR_OR) == 0x40000000
  {
    SetBit(29);
    SetBit(30);
    PowersOfTwo();
  }

  lemma PowersOfTwo()
    ensures Pow2(29) == 0x20000000 && Pow2(30) == 0x40000000
  {
    assert Pow2(6) == 64;
    assert Pow2(11) == 2048;
    assert Pow2(16) == 0x1_0000;
    assert Pow2(21) == 0x20_0000;
    assert Pow2(26) == 0x400_0000;
    assert Pow2(29) == 0x2000_0000;
  }

  lemma {:induction false} SetBit(k: nat)
    ensures WithBit(0, k) == Pow2(k)
  {
    if k > 0 { SetBit(k - 1); }
  }

  lemma ShiftNone(w: int)
    ensures Shifted(w, 0) == w
  {
  }

  /** Two bits at a time. */
  lemma TwoBits(w: int)
    ensures (Bit(w, 0) <==> w % 2 == 1) && (Bit(w, 1) <==> w / 2 % 2 == 1) && Shifted(w, 2) == w / 4
  {
    hide Shifted;
    ShiftNone(w);
    ShiftStep(w, 0);
    ShiftStep(w, 1);
  }

  /** Bit `k` of a hexadecimal digit. */
  predicate DigitBit(d: int, k: nat) {
    if k == 0 then d % 2 == 1 else if k == 1 then d / 2 % 2 == 1 else if k == 2 then d / 4 % 2 == 1 else d / 8 % 2 == 1
  }

  lemma Parity(a: int, r: int)
    ensures (a + 2 * r) % 2 == a % 2
  {
  }

  lemma Nibble(w: int, d: int, rest: int)
    requires 0 <= d < 16 && w == d + 16 * rest
    ensures w / 2 == d / 2 + 8 * rest
    ensures w / 4 == d / 4 + 4 * rest
    ensures w / 4 / 2 == d / 8 + 2 * rest
    ensures w / 4 / 4 == rest
  {
  }

  lemma FourBits(w: int, d: int, rest: int, k: nat)
    requires 0 <= d < 16 && w == d + 16 * rest
    ensures Bit(w, k) <==> if k < 4 then DigitBit(d, k) else Bit(rest, k - 4)
  {
    hide Shifted, Bit;
    TwoBits(w);
    TwoBits(w / 4);
    Nibble(w, d, rest);
    Parity(d, 8 * rest);
    Parity(d / 2, 4 * rest);
    Parity(d / 4, 2 * rest);
    Parity(d / 8, rest);
    if k >= 2 { BitBehind(w, w / 4, k); }
    if k >= 4 { BitBehind(w / 4, rest, k - 2); }
  }

  lemma BitBehind(w: int, quarter: int, k: nat)
    requires Shifted(w, 2) == quarter && k >= 2
    ensures Bit(w, k) <==> Bit(quarter, k - 2)
  {
    ShiftTwice(w, 2, k - 2);
  }

  /** A word by its hexadecimal digits, the lowest first. */
  function FromHex(d: seq<int>): int {
    if d == [] then 0 else d[0] + 16 * FromHex(d[1..])
  }

  lemma {:induction false} HexBits(d: seq<int>, k: nat)
    requires forall i | 0 <= i < |d| :: 0 <= d[i] < 16
    ensures Bit(FromHex(d), k) <==> k / 4 < |d| && DigitBit(d[k / 4], k % 4)
  {
    hide Shifted, DigitBit;
    if d == [] {
      ShiftedZero(k);
    } else {
      var rest := d[1..];
      assert forall i | 0 <= i < |rest| :: rest[i] == d[i + 1];
      FourBits(FromHex(d), d[0], FromHex(rest), k);
      if k >= 4 {
        HexBits(rest, k - 4);
        assert k / 4 == (k - 4) / 4 + 1 && k % 4 == (k - 4) % 4;
      }
    }
  }

  lemma ShiftedZero(k: nat)
    ensures !Bit(0, k)
  {
    ShiftOfZero(k);
  }

  /** The words of valid flags, digit by digit. */
  lemma ValidDigits()
    ensures FromHex([0xf, 0xf, 0xe, 0xf, 0xb, 0xf, 3, 0]) == USER_VALID
    ensures FromHex([9, 7, 0xc, 7, 7, 7, 3, 0]) == CHAN_VALID
    ensures FromHex([1, 0xc, 9, 8, 6, 0xe, 0xf, 7]) == BOT_VALID
    ensures FromHex([0xf, 0xf, 0xf, 0xf, 0xf, 0xf, 3, 0]) == UDEF_VALID
  {
  }

  /** The flags that are valid: of global flags all letters but i and s, */
  lemma ValidGlobal(k: nat)
    requires k < 32
    ensures Bit(USER_VALID, k) <==> k < 26 && k !in {8, 18}
  {
    hide Shifted, FromHex;
    ValidDigits();
    HexBits([0xf, 0xf, 0xe, 0xf, 0xb, 0xf, 3, 0], k);
  }

  /** of channel flags a, d to g, k to o, q, r, s, u, v, w, y and z, */
  lemma ValidChan(k: nat)
    requires k < 32
    ensures Bit(CHAN_VALID, k) <==> k in {0, 3, 4, 5, 6, 10, 11, 12, 13, 14, 16, 17, 18, 20, 21, 22, 24, 25}
  {
    hide Shifted, FromHex;
    ValidDigits();
    HexBits([9, 7, 0xc, 7, 7, 7, 3, 0], k);
  }

  /** of bot flags a, g, h, i, l, p, r, s and the digits, and of a user's own all. */
  lemma ValidBot(k: nat)
    requires k < 32
    ensures Bit(BOT_VALID, k) <==> k in {0, 6, 7, 8, 11, 15, 17, 18} || 21 <= k < 31
    ensures Bit(UDEF_VALID, k) <==> k < 26
  {
    hide Shifted, FromHex;
    ValidDigits();
    HexBits([1, 0xc, 9, 8, 6, 0xe, 0xf, 7], k);
    HexBits([0xf, 0xf, 0xf, 0xf, 0xf, 0xf, 3, 0], k);
  }

  /** Reading a text of one part: a flag is set exactly if it is valid and its character is there. */
  lemma OnePartRead(text: string, plus: Flags, k: nat)
    requires NoSeparator(text) && Selects(plus.match_) && k < 32
    ensures var r, mode := BrokenDown(text, plus), StartMode(plus.match_);
      && (Bit(r.global_, k) <==> mode == 0 && Sets(text, 0, Global, k) && k < 26 && k !in {8, 18})
      && (Bit(r.udefGlobal, k) <==> mode == 0 && Sets(text, 0, UdefGlobal, k) && k < 26)
      && (Bit(r.chan, k) <==>
            (mode == 1 && Sets(text, 1, Chan, k)
             && k in {0, 3, 4, 5, 6, 10, 11, 12, 13, 14, 16, 17, 18, 20, 21, 22, 24, 25}))
      && (Bit(r.udefChan, k) <==> mode == 1 && Sets(text, 1, UdefChan, k) && k < 26)
      && (Bit(r.bot, k) <==>
            (mode == 2 && Sets(text, 2, Field.Bot, k) && (k in {0, 6, 7, 8, 11, 15, 17, 18} || 21 <= k < 31)))
  {
    hide Bit, WithBit, And, WithBits, Sets, Scanned, StartMode, Selects;
    var kind := plus.match_;
    ReadField(kind, text, Global, k);
    ReadField(kind, text, UdefGlobal, k);
    ReadField(kind, text, Chan, k);
    ReadField(kind, text, UdefChan, k);
    ReadField(kind, text, Field.Bot, k);
    ValidGlobal(k);
    ValidChan(k);
    ValidBot(k);
    var q := Scanned(kind, Start(kind), text).r;
    AndBits(q.global_, USER_VALID, k);
    AndBits(q.udefGlobal, UDEF_VALID, k);
    AndBits(q.chan, CHAN_VALID, k);
    AndBits(q.udefChan, UDEF_VALID, k);
    AndBits(q.bot, BOT_VALID, k);
  }

  /** A character sets a field only in the part the field belongs to. */
  lemma ReadField(kind: int, text: string, f: Field, k: nat)
    requires NoSeparator(text)
    ensures var part := if f == Global || f == UdefGlobal then 0 else if f == Field.Bot then 2 else 1;
      Bit(Get(Scanned(kind, Start(kind), text).r, f), k) <==> StartMode(kind) == part && Sets(text, part, f, k)
  {
    hide Bit, WithBit, Scanned;
    ScanPart(kind, Start(kind), text, f, k);
    ShiftedZero(k);
  }
}
