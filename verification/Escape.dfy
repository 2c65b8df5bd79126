/** Fields joined by a divider: a divider or escape character inside a field goes out as the escape character and two
    hexadecimal digits, and comes back by rewriting the text in place. */
module Escape {
  import opened BotTree

  const NUL: char := '\0'

  predicate Ascii(c: char) {
    NUL < c < 128 as char
  }

  function HexDigit(v: int): char
    requires 0 <= v < 16
  {
    if v < 10 then '0' + v as char else 'a' + (v - 10) as char
  }

  /** The value of a hexadecimal digit of either case; -1 for any other character. */
  function HexValue(c: char): (v: int)
    ensures -1 <= v < 16
  {
    if '0' <= c <= '9' then c as int - '0' as int
    else if 'a' <= c <= 'f' then c as int - 'a' as int + 10
    else if 'A' <= c <= 'F' then c as int - 'A' as int + 10
    else -1
  }

  predicate Space(c: char) {
    c == ' ' || 9 as char <= c <= 13 as char
  }

  /** C's strtol in base 16 on a text of two characters: blanks and a sign may lead, and what is no digit ends it. */
  function Strtol(c: char, d: char): int {
    var low := if HexValue(d) >= 0 then HexValue(d) else 0;
    if HexValue(c) >= 0 then (if HexValue(d) >= 0 then 16 * HexValue(c) + low else HexValue(c))
    else if Space(c) || c == '+' then low
    else if c == '-' then -low
    else 0
  }

  /** The cast to `unsigned char`. */
  function Code(c: char, d: char): char {
    (Strtol(c, d) % 256) as char
  }

  function EscapedChar(c: char, div: char, mask: char): string
    requires Ascii(div) && Ascii(mask)
  {
    if c == div || c == mask then [mask, HexDigit(c as int / 16), HexDigit(c as int % 16)] else [c]
  }

  function Escaped(s: string, div: char, mask: char): string
    requires Ascii(div) && Ascii(mask)
  {
    if s == "" then "" else EscapedChar(s[0], div, mask) + Escaped(s[1..], div, mask)
  }

  /** One field, where the scan for its end stopped, and whether it stopped at a divider. */
  datatype Field = Field(text: string, stop: nat, more: bool)

  /** The scan from `i` stays inside the memory. An escape takes the two characters behind it whatever they are, a
      terminator among them, and then the scan goes on behind that. */
  predicate Stays(mem: seq<char>, i: int, div: char, esc: char)
    decreases |mem| - i
  {
    0 <= i < |mem| && (mem[i] == NUL ||
      if mem[i] == esc then i + 3 < |mem| && Stays(mem, i + 3, div, esc) else mem[i] == div || Stays(mem, i + 1, div, esc))
  }

  function Taken(mem: seq<char>, i: int, div: char, esc: char): (f: Field)
    requires Stays(mem, i, div, esc)
    ensures i + |f.text| <= f.stop < |mem|
    decreases |mem| - i
  {
    if mem[i] == NUL then Field("", i, false)
    else if mem[i] == esc then Prefixed([Code(mem[i + 1], mem[i + 2])], Taken(mem, i + 3, div, esc))
    else if mem[i] == div then Field("", i, true)
    else Prefixed([mem[i]], Taken(mem, i + 1, div, esc))
  }

  function Prefixed(p: string, f: Field): Field {
    f.(text := p + f.text)
  }

  // ----- the round trip

  lemma HexRoundTrip(c: char)
    requires Ascii(c)
    ensures Code(HexDigit(c as int / 16), HexDigit(c as int % 16)) == c
  {
  }

  /** `t` stands at `i`, with something behind it. */
  predicate At(mem: seq<char>, i: int, t: string) {
    0 <= i && i + |t| < |mem| && forall k | 0 <= k < |t| :: mem[i + k] == t[k]
  }

  lemma AtParts(mem: seq<char>, i: int, x: string, y: string)
    requires At(mem, i, x + y)
    ensures At(mem, i, x) && At(mem, i + |x|, y)
  {
    var t := x + y;
    forall k | 0 <= k < |x| ensures mem[i + k] == x[k] { assert t[k] == x[k]; }
    forall k | 0 <= k < |y| ensures mem[i + |x| + k] == y[k] { assert t[|x| + k] == y[k]; }
  }

  lemma EscapedStep(s: string, i: int, div: char, mask: char)
    requires Ascii(div) && Ascii(mask) && 0 <= i <= |s|
    ensures Escaped(s[i..], div, mask)
      == if i == |s| then "" else EscapedChar(s[i], div, mask) + Escaped(s[i + 1..], div, mask)
  {
  }

  /** An escaped field that ends at a divider or a terminator is read back as the field. */
  lemma {:induction false} FieldRoundTrip(mem: seq<char>, i: int, s: string, div: char, mask: char)
    requires Ascii(div) && Ascii(mask) && div != mask && NUL !in s
    requires At(mem, i, Escaped(s, div, mask)) && mem[i + |Escaped(s, div, mask)|] in {NUL, div}
    ensures Stays(mem, i, div, mask)
    ensures var end := i + |Escaped(s, div, mask)|; Taken(mem, i, div, mask) == Field(s, end, mem[end] == div)
    decreases |s|
  {
    hide HexDigit, Code, Escaped, EscapedChar, At, Stays, Taken;
    EscapedCons(s, div, mask);
    if s != "" {
      var head, rest := EscapedChar(s[0], div, mask), Escaped(s[1..], div, mask);
      assert s == [s[0]] + s[1..];
      AtParts(mem, i, head, rest);
      FieldRoundTrip(mem, i + |head|, s[1..], div, mask);
      HeadTaken(mem, i, s[0], div, mask);
    } else {
      EndAt(mem, i, div, mask);
    }
  }

  lemma EscapedCons(s: string, div: char, mask: char)
    requires Ascii(div) && Ascii(mask)
    ensures Escaped(s, div, mask) == if s == "" then "" else EscapedChar(s[0], div, mask) + Escaped(s[1..], div, mask)
  {
  }

  lemma EndAt(mem: seq<char>, i: int, div: char, mask: char)
    requires At(mem, i, "") && mem[i] in {NUL, div} && div != mask && mask != NUL
    ensures Stays(mem, i, div, mask) && Taken(mem, i, div, mask) == Field("", i, mem[i] != NUL)
  {
  }

  /** One character of a field is read back, and the scan goes on behind it. */
  lemma HeadTaken(mem: seq<char>, i: int, c: char, div: char, mask: char)
    requires Ascii(div) && Ascii(mask) && div != mask && c != NUL
    requires At(mem, i, EscapedChar(c, div, mask)) && Stays(mem, i + |EscapedChar(c, div, mask)|, div, mask)
    ensures Stays(mem, i, div, mask)
    ensures Taken(mem, i, div, mask) == Prefixed([c], Taken(mem, i + |EscapedChar(c, div, mask)|, div, mask))
  {
    hide HexDigit, Code;
    var head := EscapedChar(c, div, mask);
    assert mem[i + 0] == head[0];
    if |head| == 3 {
      assert mem[i + 1] == head[1] && mem[i + 2] == head[2];
      HexRoundTrip(c);
    }
  }

  function Joined(fields: seq<string>, div: char, mask: char): string
    requires Ascii(div) && Ascii(mask) && fields != []
  {
    Escaped(fields[0], div, mask) + if |fields| == 1 then "" else [div] + Joined(fields[1..], div, mask)
  }

  /** Fields taken off one after the other, each from behind the divider of the one before; None where a scan would
      leave the memory. */
  function AllFields(mem: seq<char>, i: int, div: char, esc: char): Option<seq<string>>
    decreases |mem| - i
  {
    if !Stays(mem, i, div, esc) then None else
    var f := Taken(mem, i, div, esc);
    if !f.more then Some([f.text]) else
    var others := AllFields(mem, f.stop + 1, div, esc);
    if others.None? then None else Some([f.text] + others.value)
  }

  lemma {:induction false} JoinedRoundTrip(mem: seq<char>, i: int, fields: seq<string>, div: char, mask: char)
    requires Ascii(div) && Ascii(mask) && fields != [] && div != mask && forall f | f in fields :: NUL !in f
    requires At(mem, i, Joined(fields, div, mask)) && mem[i + |Joined(fields, div, mask)|] == NUL
    ensures AllFields(mem, i, div, mask) == Some(fields)
    decreases |fields|
  {
    hide Escaped, At, Stays, Taken;
    var first := Escaped(fields[0], div, mask);
    if |fields| == 1 {
      assert Joined(fields, div, mask) == first;
      FieldRoundTrip(mem, i, fields[0], div, mask);
      assert fields == [fields[0]];
    } else {
      var others := Joined(fields[1..], div, mask);
      AtParts(mem, i, first, [div] + others);
      AtParts(mem, i + |first|, [div], others);
      OneAt(mem, i + |first|, div);
      FieldRoundTrip(mem, i, fields[0], div, mask);
      JoinedRoundTrip(mem, i + |first| + 1, fields[1..], div, mask);
      assert fields == [fields[0]] + fields[1..];
    }
  }

  lemma OneAt(mem: seq<char>, i: int, c: char)
    requires At(mem, i, [c])
    ensures 0 <= i < |mem| && mem[i] == c
  {
    assert mem[i + 0] == [c][0];
  }

  ghost predicate RoundTrips(div: char, mask: char)
    requires Ascii(div) && Ascii(mask)
  {
    forall mem, i, fields | fields != [] && (forall f | f in fields :: NUL !in f)
        && At(mem, i, Joined(fields, div, mask)) && mem[i + |Joined(fields, div, mask)|] == NUL ::
      AllFields(mem, i, div, mask) == Some(fields)
  }

  /** All lists of fields survive, wherever they stand, exactly when divider and escape character differ. */
  lemma RoundTripCondition(div: char, mask: char)
    requires Ascii(div) && Ascii(mask)
    ensures RoundTrips(div, mask) <==> div != mask
  {
    if div != mask {
      forall mem, i, fields | fields != [] && (forall f | f in fields :: NUL !in f)
          && At(mem, i, Joined(fields, div, mask)) && mem[i + |Joined(fields, div, mask)|] == NUL
        ensures AllFields(mem, i, div, mask) == Some(fields) {
        JoinedRoundTrip(mem, i, fields, div, mask);
      }
    } else {
      var fields, mem := ["", ""], [div, NUL];
      assert fields[1..] == [""];
      assert Joined(fields, div, mask) == [div];
      assert At(mem, 0, Joined(fields, div, mask));
      assert !Stays(mem, 0, div, mask);
      assert AllFields(mem, 0, div, mask) == None;
    }
  }

  // ----- what escaping and decoding do to single characters

  const HEX: string := "0123456789abcdef"

  /** A divider or escape character goes out as the escape character and its code in two small hexadecimal digits,
      every other character as it is. */
  lemma EscapedOne(c: char, div: char, mask: char)
    requires Ascii(div) && Ascii(mask)
    ensures |HEX| == 16
    ensures c == div || c == mask ==> Escaped([c], div, mask) == [mask, HEX[c as int / 16], HEX[c as int % 16]]
    ensures c != div && c != mask ==> Escaped([c], div, mask) == [c]
  {
    assert [c][1..] == "" && Escaped("", div, mask) == "";
    if c == div || c == mask {
      HexIs(c as int / 16);
      HexIs(c as int % 16);
    }
  }

  lemma HexIs(v: int)
    requires 0 <= v < 16
    ensures |HEX| == 16 && HexDigit(v) == HEX[v]
  {
  }

  /** And a text piece by piece. */
  lemma {:induction false} EscapedJoin(a: string, b: string, div: char, mask: char)
    requires Ascii(div) && Ascii(mask)
    ensures Escaped(a + b, div, mask) == Escaped(a, div, mask) + Escaped(b, div, mask)
    decreases |a|
  {
    if a == "" {
      assert a + b == b;
    } else {
      assert (a + b)[1..] == a[1..] + b;
      EscapedJoin(a[1..], b, div, mask);
    }
  }

  /** A text without either comes out unchanged. */
  lemma {:induction false} NothingEscaped(s: string, div: char, mask: char)
    requires Ascii(div) && Ascii(mask) && div !in s && mask !in s
    ensures Escaped(s, div, mask) == s
  {
    if s != "" {
      assert s[0] in s && forall c | c in s[1..] :: c in s;
      NothingEscaped(s[1..], div, mask);
      assert s == [s[0]] + s[1..];
    }
  }

  /** The value of a hexadecimal digit in either case. */
  predicate HexCode(c: char, v: int) {
    (48 <= c as int <= 57 && v == c as int - 48) || (97 <= c as int <= 102 && v == c as int - 87)
    || (65 <= c as int <= 70 && v == c as int - 55)
  }

  /** Two digits decode to their number; one digit and something else to that digit's; a blank or a sign in front of a
      digit counts as C's strtol has it; anything else to 0. */
  lemma Decoded(c: char, d: char, v: int, w: int)
    ensures HexCode(c, v) && HexCode(d, w) ==> Code(c, d) as int == 16 * v + w
    ensures HexCode(c, v) && (forall u :: !HexCode(d, u)) ==> Code(c, d) as int == v
    ensures (c == ' ' || c == '+' || 9 <= c as int <= 13) && HexCode(d, w) ==> Code(c, d) as int == w
    ensures c == '-' && HexCode(d, w) ==> Code(c, d) as int == (256 - w) % 256
    ensures (forall u :: !HexCode(c, u)) && (forall u :: !HexCode(d, u)) ==> Code(c, d) == NUL
    ensures (forall u :: !HexCode(c, u)) && c !in {' ', '+', '-'} && !(9 <= c as int <= 13) ==> Code(c, d) == NUL
  {
    HexValueIs(c);
    HexValueIs(d);
  }

  lemma HexValueIs(c: char)
    ensures HexValue(c) >= 0 ==> HexCode(c, HexValue(c))
    ensures forall u | HexCode(c, u) :: HexValue(c) == u
  {
  }

  // ----- the code

  /** `text` and a terminator stand at position `i`. */
  predicate Holds(a: array<char>, i: int, text: string)
    reads a
  {
    0 <= i && i + |text| < a.Length && a[i + |text|] == NUL && forall k | i <= k < i + |text| :: a[k] == text[k - i]
  }

  /** One character, or the three of an escape and the terminator that `sprintf` puts behind them. */
  method PutOne(buf: array<char>, b: nat, c: char, div: char, mask: char) returns (next: nat)
    requires Ascii(div) && Ascii(mask) && b + 3 < buf.Length
    modifies buf
    ensures next == b + |EscapedChar(c, div, mask)| <= b + 3
    ensures forall k | b <= k < next :: buf[k] == EscapedChar(c, div, mask)[k - b]
    ensures forall k | 0 <= k < b :: buf[k] == old(buf[k])
  {
    if c == div || c == mask {
      buf[b], buf[b + 1], buf[b + 2] := mask, HexDigit(c as int / 16), HexDigit(c as int % 16);
      buf[b + 3] := NUL;
      return b + 3;
    }
    buf[b] := c;
    return b + 1;
  }

  /** Escape a string into a buffer that doubles when at most three places are left. */
  method StrEscape(str: string, div: char, mask: char) returns (buf: array<char>)
    requires Ascii(div) && Ascii(mask)
    ensures fresh(buf) && Holds(buf, 0, Escaped(str, div, mask))
  {
    hide Escaped, EscapedChar;
    var buflen, blen := 2 * |str|, 0;
    buf := new char[buflen + 1];
    var s := 0;
    ghost var done := "";
    while s < |str|
      invariant 0 <= s <= |str| && fresh(buf)
      invariant 0 <= blen <= buflen && buf.Length == buflen + 1
      invariant s < |str| ==> buflen >= 4 || (buflen == 2 && blen == 0)
      invariant |done| == blen && forall k | 0 <= k < blen :: buf[k] == done[k]
      invariant done + Escaped(str[s..], div, mask) == Escaped(str, div, mask)
    {
      EscapedStep(str, s, div, mask);
      ghost var rest := Escaped(str[s + 1..], div, mask);
      if buflen - blen <= 3 {
        var bigger := new char[buflen * 2 + 1];
        forall i | 0 <= i < buf.Length { bigger[i] := buf[i]; }
        buf, buflen := bigger, buflen * 2;
      }
      blen := PutOne(buf, blen, str[s], div, mask);
      done := done + EscapedChar(str[s], div, mask);
      s := s + 1;
    }
    buf[blen] := NUL;
    EscapedStep(str, |str|, div, mask);
    assert done == Escaped(str, div, mask);
  }

  /** Bring one character down to `p`, decoded if it is escaped. */
  method CopyOne(a: array<char>, s: nat, p: nat, esc: char) returns (t: nat)
    requires p <= s < a.Length && (a[s] == esc ==> s + 2 < a.Length)
    modifies a
    ensures t == if old(a[s]) == esc then s + 3 else s + 1
    ensures a[p] == if old(a[s]) == esc then Code(old(a[s + 1]), old(a[s + 2])) else old(a[s])
    ensures forall k | 0 <= k < a.Length && k != p :: a[k] == old(a[k])
  {
    if a[s] == esc {
      a[p] := Code(a[s + 1], a[s + 2]);
      return s + 3;
    }
    a[p] := a[s];
    return s + 1;
  }

  /** The scan goes on at `i`. */
  predicate GoesOn(mem: seq<char>, i: int, div: char, esc: char) {
    0 <= i < |mem| && mem[i] != NUL && (mem[i] == esc || mem[i] != div)
  }

  lemma TakenStep(mem: seq<char>, i: int, div: char, esc: char, done: string) returns (next: int)
    requires Stays(mem, i, div, esc) && GoesOn(mem, i, div, esc)
    ensures next == (if mem[i] == esc then i + 3 else i + 1) && Stays(mem, next, div, esc) && next <= |mem|
    ensures var f, g := Taken(mem, i, div, esc), Taken(mem, next, div, esc);
      && done + f.text == done + [if mem[i] == esc then Code(mem[i + 1], mem[i + 2]) else mem[i]] + g.text
      && f.stop == g.stop && f.more == g.more
  {
    next := if mem[i] == esc then i + 3 else i + 1;
  }

  lemma TakenEnd(mem: seq<char>, i: int, div: char, esc: char)
    requires Stays(mem, i, div, esc) && !GoesOn(mem, i, div, esc)
    ensures 0 <= i < |mem| && Taken(mem, i, div, esc) == Field("", i, mem[i] != NUL)
  {
  }

  lemma StaysInside(mem: seq<char>, i: int, div: char, esc: char)
    requires Stays(mem, i, div, esc)
    ensures 0 <= i < |mem|
  {
  }

  /** Bring the field at `start` down over itself, up to its end. */
  method CopyField(a: array<char>, start: nat, div: char, esc: char) returns (s: nat, p: nat)
    requires Stays(a[..], start, div, esc)
    modifies a
    ensures var f := Taken(old(a[..]), start, div, esc);
      && s == f.stop && p == start + |f.text| && start <= p <= s < a.Length
      && (f.more <==> a[s] != NUL)
      && forall k | start <= k < p :: a[k] == f.text[k - start]
    ensures forall k | 0 <= k < start || s <= k < a.Length :: a[k] == old(a[k])
  {
    hide Stays, Taken, Code;
    ghost var mem := a[..];
    s, p := start, start;
    ghost var f, done := Taken(mem, start, div, esc), "";
    StaysInside(mem, s, div, esc);
    while a[s] != NUL && (a[s] == esc || a[s] != div)
      invariant start <= p <= s < a.Length && Stays(mem, s, div, esc)
      invariant p == start + |done| && forall k | start <= k < p :: a[k] == done[k - start]
      invariant f.text == done + Taken(mem, s, div, esc).text
      invariant f.stop == Taken(mem, s, div, esc).stop && f.more == Taken(mem, s, div, esc).more
      invariant forall k | 0 <= k < start || s <= k < a.Length :: a[k] == mem[k]
      decreases a.Length - s
    {
      ghost var next := TakenStep(mem, s, div, esc, done);
      StaysInside(mem, next, div, esc);
      s := CopyOne(a, s, p, esc);
      done := done + [a[p]];
      p := p + 1;
    }
    TakenEnd(mem, s, div, esc);
    assert f.text == done;
  }

  /** Rewrite the field at `start` in place. Returns where the next one starts, or -1. The field's text is no longer
      than what it is written over, so what stands behind its end is not touched. */
  method StrchrUnescape(a: array<char>, start: nat, div: char, esc: char) returns (next: int)
    requires Stays(a[..], start, div, esc)
    modifies a
    ensures var f := Taken(old(a[..]), start, div, esc);
      && Holds(a, start, f.text) && next == (if f.more then f.stop + 1 else -1)
      && forall k | 0 <= k < start || f.stop < k < a.Length :: a[k] == old(a[k])
  {
    hide Stays, Taken;
    var s, p := CopyField(a, start, div, esc);
    if a[s] != NUL {
      a[p], a[s], next := NUL, NUL, s + 1;
    } else {
      a[p], next := NUL, -1;
    }
  }

  /** So the fields behind are taken as if nothing had been written. */
  lemma {:induction false} SameBehind(mem: seq<char>, now: seq<char>, i: int, div: char, esc: char)
    requires |mem| == |now| && 0 <= i && forall k | i <= k < |mem| :: mem[k] == now[k]
    ensures Stays(mem, i, div, esc) <==> Stays(now, i, div, esc)
    ensures Stays(mem, i, div, esc) ==> Taken(mem, i, div, esc) == Taken(now, i, div, esc)
    ensures AllFields(mem, i, div, esc) == AllFields(now, i, div, esc)
    decreases |mem| - i, 1
  {
    SameField(mem, now, i, div, esc);
    if Stays(mem, i, div, esc) && Taken(mem, i, div, esc).more {
      SameBehind(mem, now, Taken(mem, i, div, esc).stop + 1, div, esc);
    }
  }

  lemma {:induction false} SameField(mem: seq<char>, now: seq<char>, i: int, div: char, esc: char)
    requires |mem| == |now| && 0 <= i && forall k | i <= k < |mem| :: mem[k] == now[k]
    ensures Stays(mem, i, div, esc) <==> Stays(now, i, div, esc)
    ensures Stays(mem, i, div, esc) ==> Taken(mem, i, div, esc) == Taken(now, i, div, esc)
    decreases |mem| - i, 0
  {
    if i < |mem| && GoesOn(mem, i, div, esc) {
      SameField(mem, now, if mem[i] == esc then i + 3 else i + 1, div, esc);
    }
  }

  /** Every escape before the first divider has its two characters. */
  predicate Whole(t: string, div: char, esc: char) {
    t == "" || if t[0] == esc then |t| >= 3 && Whole(t[3..], div, esc) else t[0] == div || Whole(t[1..], div, esc)
  }

  lemma TailAt(mem: seq<char>, i: int, t: string, k: nat)
    requires At(mem, i, t) && k <= |t|
    ensures At(mem, i + k, t[k..])
  {
    AtParts(mem, i, t[..k], t[k..]);
  }

  /** The scan of a text ends within it or at its terminator exactly when every escape before the first divider has its
      two characters. Otherwise it passes the terminator, or leaves the memory. */
  lemma {:induction false} EndsInside(mem: seq<char>, i: int, t: string, div: char, esc: char)
    requires NUL !in t && esc != NUL && At(mem, i, t) && mem[i + |t|] == NUL
    ensures Stays(mem, i, div, esc) && Taken(mem, i, div, esc).stop <= i + |t| <==> Whole(t, div, esc)
    decreases |t|
  {
    hide Code, At, Stays, Taken;
    Inside(mem, i, t);
    ScanStep(mem, i, div, esc);
    if t != "" {
      HeadAt(mem, i, t);
      assert t[0] in t;
      var k := if t[0] == esc then 3 else 1;
      if k <= |t| && GoesOn(mem, i, div, esc) {
        assert forall c | c in t[k..] :: c in t;
        TailAt(mem, i, t, k);
        EndsInside(mem, i + k, t[k..], div, esc);
      }
    }
  }

  lemma ScanStep(mem: seq<char>, i: int, div: char, esc: char)
    requires 0 <= i < |mem|
    ensures !GoesOn(mem, i, div, esc) ==> Stays(mem, i, div, esc) && Taken(mem, i, div, esc).stop == i
    ensures var next := if mem[i] == esc then i + 3 else i + 1;
      GoesOn(mem, i, div, esc) ==>
        (Stays(mem, i, div, esc) <==> Stays(mem, next, div, esc)) &&
        (Stays(mem, i, div, esc) ==>
          Taken(mem, i, div, esc).stop == Taken(mem, next, div, esc).stop && next <= Taken(mem, next, div, esc).stop)
  {
    hide Code;
  }

  lemma Inside(mem: seq<char>, i: int, t: string)
    requires At(mem, i, t)
    ensures 0 <= i && i + |t| < |mem|
  {
  }

  lemma HeadAt(mem: seq<char>, i: int, t: string)
    requires At(mem, i, t) && t != ""
    ensures 0 <= i < |mem| && mem[i] == t[0]
  {
    assert mem[i + 0] == t[0];
  }

  /** The shortest such texts: an escape character alone, whose digits are then the terminator and what stands behind
      it, and one with a single digit, for which the terminator is the other. */
  lemma CutShort(div: char, esc: char, c: char)
    requires c !in {NUL, div, esc} && esc != NUL
    ensures var mem := [esc, NUL, c, c, NUL];
      Stays(mem, 0, div, esc) && Taken(mem, 0, div, esc) == Field([Code(NUL, c), c], 4, false)
    ensures var mem := [esc, c, NUL, c, NUL];
      Stays(mem, 0, div, esc) && Taken(mem, 0, div, esc) == Field([Code(c, NUL), c], 4, false)
    ensures !Stays([esc, NUL], 0, div, esc) && !Stays([esc, c, NUL], 0, div, esc)
  {
    AfterThree([esc, NUL, c, c, NUL], div, esc);
    AfterThree([esc, c, NUL, c, NUL], div, esc);
  }

  lemma AfterThree(mem: seq<char>, div: char, esc: char)
    requires |mem| == 5 && mem[0] == esc != NUL && mem[3] !in {NUL, div, esc} && mem[4] == NUL
    ensures Stays(mem, 0, div, esc) && Taken(mem, 0, div, esc) == Field([Code(mem[1], mem[2]), mem[3]], 4, false)
  {
    hide Code;
    assert Stays(mem, 4, div, esc) && Stays(mem, 3, div, esc);
    assert Taken(mem, 4, div, esc) == Field("", 4, false);
    assert Taken(mem, 3, div, esc) == Prefixed([mem[3]], Taken(mem, 4, div, esc));
    assert Taken(mem, 0, div, esc) == Prefixed([Code(mem[1], mem[2])], Taken(mem, 3, div, esc));
  }

  // ----- all fields in place

  /** Take one field; the others are still there to be taken. */
  method TakeOne(a: array<char>, start: nat, div: char, esc: char) returns (next: int, ghost text: string)
    requires AllFields(a[..], start, div, esc).Some?
    modifies a
    ensures Holds(a, start, text) && (next == -1 || start + |text| < next < a.Length)
    ensures next >= 0 ==> AllFields(a[..], next, div, esc).Some?
    ensures AllFields(old(a[..]), start, div, esc).value
      == [text] + if next >= 0 then AllFields(a[..], next, div, esc).value else []
    ensures forall k | 0 <= k < start :: a[k] == old(a[k])
  {
    hide Stays, Taken, AllFields, Holds;
    ghost var mem := a[..];
    AllFieldsStep(mem, start, div, esc);
    text := Taken(mem, start, div, esc).text;
    next := StrchrUnescape(a, start, div, esc);
    if next >= 0 {
      SameBehind(mem, a[..], next, div, esc);
      AllFieldsStep(a[..], next, div, esc);
    }
  }

  predicate HeldIn(mem: seq<char>, i: int, text: string) {
    0 <= i && i + |text| < |mem| && mem[i + |text|] == NUL && forall k | i <= k < i + |text| :: mem[k] == text[k - i]
  }

  lemma HeldStays(was: seq<char>, now: seq<char>, i: int, text: string, end: int)
    requires |was| == |now| && i + |text| < end <= |was| && HeldIn(was, i, text)
    requires forall k | 0 <= k < end :: was[k] == now[k]
    ensures HeldIn(now, i, text)
  {
  }

  /** Take fields until there is no next one. Each stands where it began, terminated, and together they are the fields
      of the memory as it was. */
  method TakeAll(a: array<char>, start: nat, div: char, esc: char) returns (starts: seq<nat>, ghost fields: seq<string>)
    requires AllFields(a[..], start, div, esc).Some?
    modifies a
    ensures AllFields(old(a[..]), start, div, esc) == Some(fields) && |starts| == |fields|
    ensures forall k | 0 <= k < |fields| :: HeldIn(a[..], starts[k], fields[k])
  {
    hide AllFields, HeldIn, Holds;
    ghost var mem := a[..];
    ghost var all := AllFields(mem, start, div, esc).value;
    AllFieldsStep(mem, start, div, esc);
    starts, fields := [], [];
    var next: int := start;
    while next >= 0
      invariant mem == a[..] && |starts| == |fields| && -1 <= next < a.Length
      invariant forall k | 0 <= k < |fields| :: HeldIn(mem, starts[k], fields[k])
      invariant next >= 0 ==> forall k | 0 <= k < |fields| :: starts[k] + |fields[k]| < next
      invariant next >= 0 ==> AllFields(mem, next, div, esc).Some?
      invariant all == fields + if next >= 0 then AllFields(mem, next, div, esc).value else []
      decreases if next < 0 then 0 else 1 + a.Length - next
    {
      ghost var was, text := mem, "";
      var at := next;
      next, text := TakeOne(a, next, div, esc);
      mem := a[..];
      HeldHere(a, at, text);
      AllStay(was, mem, starts, fields, at);
      starts, fields := starts + [at], fields + [text];
    }
    assert fields + [] == fields;
  }

  lemma AllStay(was: seq<char>, now: seq<char>, starts: seq<nat>, fields: seq<string>, end: int)
    requires |was| == |now| && |starts| == |fields| && 0 <= end <= |was|
    requires forall k | 0 <= k < |fields| :: HeldIn(was, starts[k], fields[k]) && starts[k] + |fields[k]| < end
    requires forall k | 0 <= k < end :: was[k] == now[k]
    ensures forall k | 0 <= k < |fields| :: HeldIn(now, starts[k], fields[k])
  {
    hide HeldIn;
    forall k | 0 <= k < |fields| ensures HeldIn(now, starts[k], fields[k]) {
      HeldStays(was, now, starts[k], fields[k], end);
    }
  }

  lemma HeldHere(a: array<char>, i: int, text: string)
    requires Holds(a, i, text)
    ensures HeldIn(a[..], i, text)
  {
  }

  lemma AllFieldsStep(mem: seq<char>, i: int, div: char, esc: char)
    requires AllFields(mem, i, div, esc).Some?
    ensures Stays(mem, i, div, esc)
    ensures var f := Taken(mem, i, div, esc);
      && i + |f.text| <= f.stop < |mem|
      && (f.more ==> AllFields(mem, f.stop + 1, div, esc).Some?)
      && AllFields(mem, i, div, esc).value ==
           [f.text] + if f.more then AllFields(mem, f.stop + 1, div, esc).value else []
  {
  }
}
