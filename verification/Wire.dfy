/** The text lines bots exchange: base64 integers, the small printf, and word splitting. */
module Wire {

  // ----- 32-bit integers

  const TWO32 := 0x1_0000_0000
  const TWO31 := 0x8000_0000

  predicate Int32(x: int) {
    -TWO31 <= x < TWO31
  }

  /** Two's complement wrap-around of a C `int`. */
  function Wrap32(x: int): (r: int)
    ensures Int32(r)
  {
    (x + TWO31) % TWO32 - TWO31
  }

  /** The cast to `unsigned int`. */
  function Unsigned(x: int): (r: int)
    ensures 0 <= r < TWO32
  {
    x % TWO32
  }

  lemma WrapPeriodic(x: int, k: int)
    ensures Wrap32(x + k * TWO32) == Wrap32(x)
  {
  }

  /** Wrapping an intermediate result of a shift-and-add changes nothing in the end. */
  lemma WrapShift(x: int, d: int)
    ensures Wrap32(Wrap32(Wrap32(x) * 64) + d) == Wrap32(x * 64 + d)
  {
    var k := WrapOffset(x);
    var j := WrapOffset(Wrap32(x) * 64);
    calc {
      Wrap32(Wrap32(Wrap32(x) * 64) + d);
      Wrap32((x + k * TWO32) * 64 + j * TWO32 + d);
      { assert (x + k * TWO32) * 64 + j * TWO32 + d == (x * 64 + d) + (64 * k + j) * TWO32; }
      Wrap32((x * 64 + d) + (64 * k + j) * TWO32);
      { WrapPeriodic(x * 64 + d, 64 * k + j); }
      Wrap32(x * 64 + d);
    }
  }

  lemma WrapOffset(x: int) returns (k: int)
    ensures Wrap32(x) == x + k * TWO32
  {
    k := -((x + TWO31) / TWO32);
  }

  // ----- decimal numbers

  predicate Digit(c: char) {
    '0' <= c <= '9'
  }

  function LeadingNumber(s: string, sofar: nat): (v: int)
    ensures v >= sofar
  {
    if s == "" || !Digit(s[0]) then sofar
    else LeadingNumber(s[1..], sofar * 10 + (s[0] as int - '0' as int))
  }

  /** C's atoi, with no limit on the size: blanks and a sign may lead, and what is no digit ends the number. */
  function Atoi(s: string): int {
    if s == "" then 0
    else if s[0] == ' ' || 9 as char <= s[0] <= 13 as char then Atoi(s[1..])
    else if s[0] == '-' then -LeadingNumber(s[1..], 0)
    else if s[0] == '+' then LeadingNumber(s[1..], 0)
    else LeadingNumber(s, 0)
  }

  /** The decimal digits of a number, most significant first. */
  function Base10(val: int): (s: string)
    requires 0 <= val
    ensures |s| >= 1 && Digit(s[0])
    decreases val
  {
    if val < 10 then ['0' + val as char] else Base10(val / 10) + ['0' + (val % 10) as char]
  }

  function Signed10(val: int): string {
    if val < 0 then "-" + Base10(-val) else Base10(val)
  }

  function Pow10(k: nat): (p: int)
    ensures p >= 1
  {
    if k == 0 then 1 else 10 * Pow10(k - 1)
  }

  lemma {:induction false} Base10Length(val: int, k: nat)
    requires 0 <= val < Pow10(k) && k >= 1
    ensures |Base10(val)| <= k
    decreases k
  {
    if val >= 10 { Base10Length(val / 10, k - 1); }
  }

  lemma Base10Width(val: int)
    requires 0 <= val < TWO32
    ensures |Base10(val)| <= 10
  {
    assert Pow10(5) == 100000;
    assert Pow10(10) == 10000000000;
    Base10Length(val, 10);
  }

  /** Reading the digits of a number continues a number already begun. */
  lemma {:induction false} LeadingDigits(s: string, c: char, sofar: nat)
    requires Digit(c) && forall d | d in s :: Digit(d)
    ensures LeadingNumber(s + [c], sofar) == LeadingNumber(s, sofar) * 10 + (c as int - '0' as int)
    decreases |s|
  {
    if s == "" {
      assert ([c])[1..] == "" && s + [c] == [c];
    } else {
      assert (s + [c])[1..] == s[1..] + [c] && s[0] in s && forall d | d in s[1..] :: d in s;
      LeadingDigits(s[1..], c, sofar * 10 + (s[0] as int - '0' as int));
    }
  }

  lemma {:induction false} Base10Value(val: int)
    requires 0 <= val
    ensures LeadingNumber(Base10(val), 0) == val && forall d | d in Base10(val) :: Digit(d)
    decreases val
  {
    if val < 10 {
      assert ['0' + val as char][1..] == "";
    } else {
      Base10Value(val / 10);
      LeadingDigits(Base10(val / 10), '0' + (val % 10) as char, 0);
    }
  }

  /** A number printed in decimal is read back, sign and all. */
  lemma Base10RoundTrip(val: int)
    ensures Atoi(Signed10(val)) == val
  {
    hide Base10, LeadingNumber;
    if val < 0 {
      Base10Value(-val);
      assert ("-" + Base10(-val))[1..] == Base10(-val);
    } else {
      Base10Value(val);
    }
  }

  /** The digits are written backwards in front of `end`. */
  method PutDigits(buf: array<char>, end: int, val: int) returns (start: int)
    requires 10 <= end <= buf.Length && 0 < val < TWO32
    modifies buf
    ensures end - 10 <= start < end && buf[start..end] == Base10(val)
    ensures forall k | 0 <= k < start || end <= k < buf.Length :: buf[k] == old(buf[k])
  {
    hide Base10;
    Base10Width(val);
    var v := val;
    start := end;
    while v != 0
      invariant 0 <= v && 0 <= start <= end
      invariant Base10(val) == Digits10(v) + buf[start..end]
      invariant forall k | 0 <= k < start || end <= k < buf.Length :: buf[k] == old(buf[k])
      decreases v
    {
      ghost var tail := buf[start..end];
      Digits10Split(v);
      assert |Base10(val)| == |Digits10(v)| + |tail|;
      start := start - 1;
      buf[start] := '0' + (v % 10) as char;
      assert buf[start..end] == ['0' + (v % 10) as char] + tail;
      v := v / 10;
    }
  }

  function Digits10(v: int): string
    requires 0 <= v
  {
    if v == 0 then "" else Base10(v)
  }

  lemma Digits10Split(v: int)
    requires 0 < v
    ensures Digits10(v) == Digits10(v / 10) + ['0' + (v % 10) as char]
  {
  }

  lemma ZeroDigit()
    ensures Base10(0) == "0"
  {
  }

  /** The most negative number, whose negation does not fit an `int`, is outside this. */
  method IntToBase10(buf: array<char>, val: int) returns (start: int)
    requires buf.Length == 17 && Int32(val) && val > -TWO31
    modifies buf
    ensures 5 <= start <= 15 && buf[start..16] == Signed10(val) && buf[16] == '\0'
  {
    hide Base10;
    buf[16] := '\0';
    if val == 0 {
      buf[15] := '0';
      ZeroDigit();
      assert buf[15..16] == "0";
      return 15;
    }
    start := PutDigits(buf, 16, if val < 0 then -val else val);
    if val < 0 {
      ghost var digits := buf[start..16];
      start := start - 1;
      buf[start] := '-';
      assert buf[start..16] == "-" + digits;
    }
  }

  method UnsignedToBase10(buf: array<char>, val: int) returns (start: int)
    requires buf.Length == 16 && 0 <= val < TWO32
    modifies buf
    ensures 5 <= start <= 14 && buf[start..15] == Base10(val) && buf[15] == '\0'
  {
    hide Base10;
    buf[15] := '\0';
    if val == 0 {
      buf[14] := '0';
      ZeroDigit();
      assert buf[14..15] == "0";
      return 14;
    }
    start := PutDigits(buf, 15, val);
  }

  // ----- base64 digits

  /** The encoding table: A-Z, a-z, 0-9 and the two brackets. */
  function ToDigit(v: int): (c: char)
    requires 0 <= v < 64
    ensures '!' <= c <= '~'
  {
    if v < 26 then 'A' + v as char
    else if v < 52 then 'a' + (v - 26) as char
    else if v < 62 then '0' + (v - 52) as char
    else if v == 62 then '[' else ']'
  }

  /** The decoding table; every other character decodes as 0. */
  function FromDigit(c: char): (v: int)
    ensures 0 <= v < 64
  {
    if 'A' <= c <= 'Z' then c as int - 'A' as int
    else if 'a' <= c <= 'z' then c as int - 'a' as int + 26
    else if '0' <= c <= '9' then c as int - '0' as int + 52
    else if c == '[' then 62
    else if c == ']' then 63
    else 0
  }

  /** The digits by their codes: capitals, small letters, decimal digits, and the two brackets. What is none of these
      decodes as 0. */
  lemma Alphabet(v: int, c: char)
    requires 0 <= v < 64
    ensures ToDigit(v) as int ==
      if v < 26 then 65 + v else if v < 52 then 97 + (v - 26) else if v < 62 then 48 + (v - 52) else if v == 62 then 91 else 93
    ensures FromDigit(ToDigit(v)) == v
    ensures !(65 <= c as int <= 90 || 97 <= c as int <= 122 || 48 <= c as int <= 57 || c as int in {91, 93}) ==>
      FromDigit(c) == 0
  {
  }

  lemma DigitRoundTrip(v: int)
    requires 0 <= v < 64
    ensures FromDigit(ToDigit(v)) == v
  {
  }

  /** The digits of a number, most significant first; zero is one digit. */
  function Base64(val: int): (s: string)
    requires 0 <= val
    ensures |s| >= 1
    decreases val
  {
    if val < 64 then [ToDigit(val)] else Base64(val / 64) + [ToDigit(val % 64)]
  }

  /** The number a digit string denotes, with no limit on its size. */
  function Value(s: string): (v: int)
    ensures v >= 0
  {
    if s == "" then 0 else Value(s[..|s| - 1]) * 64 + FromDigit(s[|s| - 1])
  }

  lemma {:induction false} ValueOfBase64(val: int)
    requires 0 <= val
    ensures Value(Base64(val)) == val
    decreases val
  {
    if val < 64 {
      DigitRoundTrip(val);
      assert Base64(val)[..0] == "";
    } else {
      ValueOfBase64(val / 64);
      DigitRoundTrip(val % 64);
      assert Base64(val)[..|Base64(val)| - 1] == Base64(val / 64);
    }
  }

  function Pow64(k: nat): (p: int)
    ensures p >= 1
  {
    if k == 0 then 1 else 64 * Pow64(k - 1)
  }

  lemma {:induction false} Base64Length(val: int, k: nat)
    requires 0 <= val < Pow64(k) && k >= 1
    ensures |Base64(val)| <= k
    decreases k
  {
    if val >= 64 {
      Base64Length(val / 64, k - 1);
    }
  }

  lemma Base64Width(val: int)
    requires 0 <= val < TWO32
    ensures 1 <= |Base64(val)| <= 6
  {
    assert Pow64(2) == 4096 by { assert Pow64(1) == 64; }
    assert Pow64(4) == 16777216 by { assert Pow64(3) == 262144; }
    assert Pow64(6) == 64 * Pow64(5);
    Base64Length(val, 6);
  }

  /** Every digit is a printable character other than a space. */
  lemma {:induction false} Base64Chars(val: int)
    requires 0 <= val
    ensures forall c | c in Base64(val) :: '!' <= c <= '~'
    decreases val
  {
    if val >= 64 {
      Base64Chars(val / 64);
      assert Base64(val) == Base64(val / 64) + [ToDigit(val % 64)];
    } else {
      assert Base64(val) == [ToDigit(val)];
    }
  }

  /** The number is written backwards from the end of the twelve-byte buffer: one to six digits. */
  method IntToBase64(buf: array<char>, val: int) returns (start: int)
    requires buf.Length == 12 && 0 <= val < TWO32
    modifies buf
    ensures 5 <= start <= 10
    ensures buf[11] == '\0'
    ensures buf[start..11] == Base64(val)
    ensures forall k | 0 <= k < start :: buf[k] == old(buf[k])
  {
    hide Base64, Digits, ToDigit;
    Base64Width(val);
    DigitsEnds(val);
    buf[11] := '\0';
    if val == 0 {
      buf[10] := 'A';
      assert buf[10..11] == ['A'];
      return 10;
    }
    var i, v := 11, val;
    while v != 0
      invariant 0 <= v && 0 <= i <= 11
      invariant Base64(val) == Digits(v) + buf[i..11]
      invariant buf[11] == '\0'
      invariant forall k | 0 <= k < i :: buf[k] == old(buf[k])
      decreases v
    {
      ghost var tail := buf[i..11];
      DigitsSplit(v);
      assert |Base64(val)| == |Digits(v)| + |tail|;
      i := i - 1;
      buf[i] := ToDigit(v % 64);
      assert buf[i..11] == [ToDigit(v % 64)] + tail;
      v := v / 64;
    }
    return i;
  }

  function Digits(v: int): string
    requires 0 <= v
  {
    if v == 0 then "" else Base64(v)
  }

  lemma DigitsEnds(val: int)
    requires 0 <= val
    ensures Base64(0) == ['A'] && Digits(0) == ""
    ensures 0 < val ==> Digits(val) == Base64(val)
  {
  }

  lemma DigitsSplit(v: int)
    requires 0 < v
    ensures Digits(v) == Digits(v / 64) + [ToDigit(v % 64)]
  {
  }

  /** Decoding wraps like a C `int`. */
  method Base64ToInt(buf: string) returns (i: int)
    ensures i == Wrap32(Value(buf))
  {
    i := 0;
    var k := 0;
    while k < |buf|
      invariant 0 <= k <= |buf|
      invariant i == Wrap32(Value(buf[..k]))
    {
      i := Wrap32(i * 64);
      i := Wrap32(i + FromDigit(buf[k]));
      WrapShift(Value(buf[..k]), FromDigit(buf[k]));
      assert buf[..k + 1][..k] == buf[..k];
      k := k + 1;
    }
    assert buf[..k] == buf;
  }

  /** Printing with the cast to unsigned and decoding with wrap-around lose nothing. */
  lemma Base64RoundTrip(val: int)
    requires Int32(val)
    ensures Wrap32(Value(Base64(Unsigned(val)))) == val
  {
    ValueOfBase64(Unsigned(val));
    var k := val / TWO32;
    assert Unsigned(val) == val + (-k) * TWO32;
    WrapPeriodic(val, -k);
  }

  // ----- the small printf

  datatype Arg = Str(s: string) | Chr(c: char) | Num(n: int)

  const LINEMAX := 1023

  predicate IsConversion(c: char) {
    c in {'s', 'c', 'D', 'd', 'i', 'u'}
  }

  /** A conversion takes a string, a character or an `int`; the signed decimal ones cannot print the most negative. */
  predicate Wants(conversion: char, a: Arg) {
    match a
    case Str(_) => conversion == 's'
    case Chr(_) => conversion == 'c'
    case Num(n) => conversion in {'D', 'd', 'i', 'u'} && Int32(n) && (conversion in {'d', 'i'} ==> n > -TWO31)
  }

  /** The arguments are the ones the format asks for. */
  predicate Supplied(format: string, args: seq<Arg>) {
    if format == "" then true
    else if format[0] != '%' then Supplied(format[1..], args)
    else if |format| == 1 then true
    else if format[1] == '%' then Supplied(format[2..], args)
    else if IsConversion(format[1]) then args != [] && Wants(format[1], args[0]) && Supplied(format[2..], args[1..])
    else Supplied(format[1..], args)
  }

  function Shown(conversion: char, a: Arg): string {
    match a
    case Str(s) => s
    case Chr(c) => [c]
    case Num(n) =>
      if conversion == 'D' then Base64(Unsigned(n))
      else if conversion == 'u' then Base10(Unsigned(n))
      else Signed10(n)
  }

  /** What the format stands for, before any limit on length. An unknown conversion loses its percent sign. */
  function Expand(format: string, args: seq<Arg>): string
    requires Supplied(format, args)
  {
    if format == "" then ""
    else if format[0] != '%' then [format[0]] + Expand(format[1..], args)
    else if |format| == 1 then ""
    else if format[1] == '%' then "%" + Expand(format[2..], args)
    else if IsConversion(format[1]) then Shown(format[1], args[0]) + Expand(format[2..], args[1..])
    else Expand(format[1..], args)
  }

  function Cut(s: string): string {
    if |s| <= LINEMAX then s else s[..LINEMAX]
  }

  /** Copy a string behind the text so far, stopping when the line is full. */
  method Append(buf: array<char>, at: int, s: string) returns (c: int)
    requires buf.Length == LINEMAX + 1 && 0 <= at <= LINEMAX
    modifies buf
    ensures at <= c <= LINEMAX
    ensures c == at + |s| || (c == LINEMAX && c < at + |s|)
    ensures buf[..c] == old(buf[..at]) + s[..c - at]
  {
    c := at;
    var k := 0;
    while k < |s| && c < LINEMAX
      invariant 0 <= k <= |s| && c == at + k <= LINEMAX
      invariant buf[..c] == old(buf[..at]) + s[..k]
    {
      buf[c] := s[k];
      c, k := c + 1, k + 1;
    }
  }

  /** Write one character; `after` is what will follow it. */
  method Put(buf: array<char>, at: int, ch: char, ghost after: string)
    requires buf.Length == LINEMAX + 1 && 0 <= at < LINEMAX
    modifies buf
    ensures buf[..at + 1] == old(buf[..at]) + [ch]
    ensures buf[..at + 1] + after == old(buf[..at]) + ([ch] + after)
  {
    buf[at] := ch;
  }

  /** The line is the expanded format cut at 1023 characters, and the terminator still fits in the buffer.
      `fmt` and `va` are the format and the arguments still to be read. */
  method SimpleSprintf(buf: array<char>, format: string, args: seq<Arg>) returns (c: int)
    requires buf.Length == LINEMAX + 1 && Supplied(format, args)
    modifies buf
    ensures 0 <= c <= LINEMAX
    ensures buf[..c] == Cut(Expand(format, args)) && buf[c] == '\0'
  {
    hide Base64, Base10, Signed10, ToDigit, Unsigned;
    c := 0;
    var fmt, va := format, args;
    assert buf[..c] + Expand(fmt, va) == Expand(format, args);
    while fmt != "" && c < LINEMAX
      invariant 0 <= c <= LINEMAX
      invariant Supplied(fmt, va)
      invariant Cut(buf[..c] + Expand(fmt, va)) == Cut(Expand(format, args))
      decreases |fmt|
    {
      if fmt[0] != '%' {
        Put(buf, c, fmt[0], Expand(fmt[1..], va));
        c, fmt := c + 1, fmt[1..];
      } else if |fmt| == 1 {
        fmt := "";
      } else if fmt[1] == '%' {
        Put(buf, c, '%', Expand(fmt[2..], va));
        c, fmt := c + 1, fmt[2..];
      } else if fmt[1] == 'c' {
        Put(buf, c, va[0].c, Expand(fmt[2..], va[1..]));
        c, fmt, va := c + 1, fmt[2..], va[1..];
      } else if IsConversion(fmt[1]) {
        var s := Conversion(fmt[1], va[0]);
        ghost var done := buf[..c];
        c := Append(buf, c, s);
        CutEarly(done, s, c - |done|, Expand(fmt[2..], va[1..]));
        fmt, va := fmt[2..], va[1..];
      } else {
        fmt := fmt[1..];
      }
    }
    assert Cut(buf[..c] + Expand(fmt, va)) == buf[..c];
    buf[c] := '\0';
  }

  method Conversion(conversion: char, a: Arg) returns (s: string)
    requires IsConversion(conversion) && conversion != 'c' && Wants(conversion, a)
    ensures s == Shown(conversion, a)
  {
    hide Base64, Base10, Signed10;
    if conversion == 's' {
      s := a.s;
    } else if conversion == 'D' {
      var digits := new char[12];
      var at := IntToBase64(digits, Unsigned(a.n));
      s := digits[at..11];
    } else if conversion == 'u' {
      var digits := new char[16];
      var at := UnsignedToBase10(digits, Unsigned(a.n));
      s := digits[at..15];
    } else {
      var digits := new char[17];
      var at := IntToBase10(digits, a.n);
      s := digits[at..16];
    }
  }

  lemma CutEarly(done: string, s: string, k: nat, after: string)
    requires k <= |s| && |done| + k <= LINEMAX && (k == |s| || |done| + k == LINEMAX)
    ensures Cut(done + s[..k] + after) == Cut(done + (s + after))
  {
  }

  // ----- what a format stands for

  /** Two percent signs print one, a character that is no conversion prints itself, and a last percent sign nothing. */
  lemma PercentSigns(c: char, rest: string, args: seq<Arg>)
    requires Supplied(rest, args)
    ensures Supplied("%%" + rest, args) && Expand("%%" + rest, args) == "%" + Expand(rest, args)
    ensures c !in {'%', 's', 'c', 'D', 'd', 'i', 'u'} ==>
      Supplied(['%', c] + rest, args) && Expand(['%', c] + rest, args) == [c] + Expand(rest, args)
    ensures Supplied("%", args) && Expand("%", args) == ""
  {
    assert ("%%" + rest)[2..] == rest;
    assert (['%', c] + rest)[1..] == [c] + rest && ([c] + rest)[1..] == rest;
  }

  /** What each conversion prints. */
  lemma Conversions(conversion: char, a: Arg, rest: string, args: seq<Arg>)
    requires Supplied(rest, args) && Wants(conversion, a)
    ensures Supplied(['%', conversion] + rest, [a] + args)
    ensures Expand(['%', conversion] + rest, [a] + args) ==
      (if a.Str? then a.s
       else if a.Chr? then [a.c]
       else if conversion == 'D' then Base64(a.n % 0x1_0000_0000)
       else if conversion == 'u' then Base10(a.n % 0x1_0000_0000)
       else if a.n < 0 then "-" + Base10(-a.n) else Base10(a.n)) + Expand(rest, args)
  {
    assert (['%', conversion] + rest)[2..] == rest && ([a] + args)[1..] == args;
  }

  /** A line is at most 1023 characters, and its start is the text's. */
  lemma CutAt1023(s: string)
    ensures |Cut(s)| == (if |s| <= 1023 then |s| else 1023) && Cut(s) <= s
  {
  }

  // ----- splitting words

  function SkipSpaces(s: string): (r: string)
    ensures r == "" || r[0] != ' '
  {
    if s != "" && s[0] == ' ' then SkipSpaces(s[1..]) else s
  }

  /** The part before the first `c`, or everything. */
  function Before(s: string, c: char): (r: string)
    ensures r <= s && c !in r
    ensures |r| < |s| ==> s[|r|] == c
  {
    if s == "" || s[0] == c then "" else [s[0]] + Before(s[1..], c)
  }

  /** The part after the first `c`, or nothing. */
  function After(s: string, c: char): (r: string)
    ensures r == if |Before(s, c)| < |s| then s[|Before(s, c)| + 1..] else ""
  {
    if s == "" then "" else if s[0] == c then s[1..] else After(s[1..], c)
  }

  lemma {:induction false} BeforeUnique(a: string, c: char, rest: string)
    requires c !in a && (rest == "" || rest[0] == c)
    ensures Before(a + rest, c) == a
    ensures After(a + rest, c) == if rest == "" then "" else rest[1..]
  {
    if a == "" {
      assert a + rest == rest;
    } else {
      assert (a + rest)[1..] == a[1..] + rest;
      BeforeUnique(a[1..], c, rest);
    }
  }

  lemma SkipStep(s: string, o: int)
    requires 0 <= o <= |s|
    ensures SkipSpaces(s[o..]) == if o < |s| && s[o] == ' ' then SkipSpaces(s[o + 1..]) else s[o..]
  {
    if o < |s| { assert s[o..][1..] == s[o + 1..]; }
  }

  /** A word that stands from `r` to `o`. */
  lemma WordAt(s: string, r: int, o: int)
    requires 0 <= r <= o <= |s| && (forall k | r <= k < o :: s[k] != ' ') && (o < |s| ==> s[o] == ' ')
    ensures Before(s[r..], ' ') == s[r..o]
    ensures After(s[r..], ' ') == if o < |s| then s[o + 1..] else ""
  {
    hide Before, After;
    assert s[r..] == s[r..o] + s[o..];
    BeforeUnique(s[r..o], ' ', s[o..]);
    if o < |s| { assert s[o..][1..] == s[o + 1..]; }
  }

  /** Leading spaces are skipped, the word ends at the next space, and that one space is consumed. */
  method NewSplit(rest: string) returns (word: string, remains: string)
    ensures word == Before(SkipSpaces(rest), ' ')
    ensures remains == After(SkipSpaces(rest), ' ')
  {
    hide SkipSpaces, Before, After;
    var o := 0;
    assert rest[0..] == rest;
    while o < |rest| && rest[o] == ' '
      invariant 0 <= o <= |rest|
      invariant SkipSpaces(rest[o..]) == SkipSpaces(rest)
    {
      SkipStep(rest, o);
      o := o + 1;
    }
    SkipStep(rest, o);
    var r := o;
    while o < |rest| && rest[o] != ' '
      invariant r <= o <= |rest|
      invariant forall k | r <= k < o :: rest[k] != ' '
    {
      o := o + 1;
    }
    WordAt(rest, r, o);
    word := rest[r..o];
    if o < |rest| {
      o := o + 1;
    }
    remains := rest[o..];
  }
}
