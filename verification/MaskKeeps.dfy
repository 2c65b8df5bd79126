/** What each type of host mask keeps of the address it is made from, and what it leaves open. */
module MaskKeeps {
  import opened Wire
  import opened Glob
  import opened WildMatch
  import opened MaskAddr
  import opened Letters

  function Address(nick: string, user: string, host: string): string {
    nick + "!" + user + "@" + host
  }

  predicate Free(s: string, c: char) {
    forall i | 0 <= i < |s| :: s[i] != c
  }

  /** No wildcard, no exclamation mark, no at sign. */
  predicate Ordinary(s: string) {
    Free(s, '*') && Free(s, '?') && Free(s, '!') && Free(s, '@')
  }

  predicate Unmarked(s: string) {
    Free(s, '!') && Free(s, '@')
  }

  // ----- the parts of an address

  lemma FirstAt(x: string, c: char, y: string, from: nat)
    requires from <= |x| && forall i | from <= i < |x| :: x[i] != c
    ensures First(x + [c] + y, c, from) == |x|
  {
    hide First;
    var s := x + [c] + y;
    assert s[|x|] == c;
    assert forall i | from <= i < |x| :: s[i] == x[i];
  }

  lemma BoundsOf(nick: string, user: string, host: string)
    requires Free(nick, '!') && Free(user, '@')
    ensures Bounds(Address(nick, user, host)) == (|nick|, |nick| + 1 + |user|)
  {
    hide First;
    var s := Address(nick, user, host);
    assert s == nick + ['!'] + (user + "@" + host);
    FirstAt(nick, '!', user + "@" + host, 0);
    var x := nick + "!" + user;
    assert s == x + ['@'] + host;
    assert forall i | |nick| <= i < |x| :: x[i] != '@' by {
      assert x[|nick|] == '!';
      assert forall i | |nick| < i < |x| :: x[i] == user[i - |nick| - 1];
    }
    FirstAt(x, '@', host, |nick|);
  }

  /** The mask of an address in three parts. */
  lemma MaskParts(nick: string, user: string, host: string, typ: nat)
    requires Free(nick, '!') && Free(user, '@')
    ensures MaskOf(Address(nick, user, host), typ) ==
      Address(if typ % 10 < 5 then "*" else nick, UserMask(user, true, typ % 5), HostMask(host, typ))
  {
    hide Bounds, UserMask, HostMask;
    var s := Address(nick, user, host);
    BoundsOf(nick, user, host);
    assert s[..|nick|] == nick && s[|nick| + 1..|nick| + 1 + |user|] == user;
    assert s[|nick| + 1 + |user| + 1..] == host;
  }

  /** Without an exclamation mark in front of an at sign the mask leaves the nick open; without an at sign the user
      too. */
  lemma MaskWithoutNick(user: string, host: string, typ: nat)
    requires Unmarked(user) && (Free(host, '!') || Free(host, '@'))
    ensures MaskOf(user + "@" + host, typ) == Address("*", UserMask(user, true, typ % 5), HostMask(host, typ))
    ensures Free(host, '@') ==> MaskOf(host, typ) == Address("*", "*", HostMask(host, typ))
  {
    hide UserMask, HostMask, Bounds;
    var s := user + "@" + host;
    NoNickBounds(user, host);
    assert s[..|user|] == user && s[|user| + 1..] == host;
    NoUser(typ % 5);
    if Free(host, '@') {
      NoAtBounds(host);
      assert host[0..] == host;
    }
  }

  lemma NoNickBounds(user: string, host: string)
    requires Unmarked(user) && (Free(host, '!') || Free(host, '@'))
    ensures Bounds(user + "@" + host) == (-1, |user|)
  {
    hide First;
    var s := user + "@" + host;
    assert s == user + ['@'] + host;
    FirstAt(user, '@', host, 0);
    assert s[|user|] == '@';
    assert forall i | |user| < i < |s| :: s[i] == host[i - |user| - 1];
    var u := First(s, '!', 0);
    if u >= 0 { assert First(s, '@', u) == -1; }
  }

  lemma NoAtBounds(host: string)
    requires Free(host, '@')
    ensures Bounds(host) == (-1, -1)
  {
    hide First;
    var u := First(host, '!', 0);
    if u >= 0 { assert First(host, '@', u) == -1; }
  }

  lemma NoUser(d: int)
    ensures UserMask("", false, d) == "*"
  {
  }

  // ----- matching part by part

  lemma LiteralFirst(c: char, b: string, n: string)
    requires c in {'!', '@'} && Matches([c] + b, n)
    ensures n != "" && n[0] == c && Matches(b, n[1..])
  {
    var k := MatchesSplit([c], b, n);
    PlainMask([c], n[..k]);
    assert Twins(c, n[..k][0]);
  }

  lemma SplitAt(c: char, a: string, b: string, x: string, y: string)
    requires c in {'!', '@'} && Free(x, c) && Free(y, c)
    ensures Matches(a + [c] + b, x + [c] + y) <==> Matches(a, x) && Matches(b, y)
  {
    hide Matches;
    var n := x + [c] + y;
    assert forall i | 0 <= i < |n| && i != |x| :: n[i] == if i < |x| then x[i] else y[i - |x| - 1];
    if Matches(a + [c] + b, n) {
      assert a + [c] + b == a + ([c] + b);
      var k := MatchesSplit(a, [c] + b, n);
      LiteralFirst(c, b, n[k..]);
      assert n[k] == c && k == |x|;
      assert n[..k] == x && n[k..][1..] == y;
    }
    if Matches(a, x) && Matches(b, y) {
      Reflexive([c]);
      MatchesConcat(a, x, [c], [c]);
      MatchesConcat(a + [c], x + [c], b, y);
    }
  }

  lemma PartsMatch(a: string, b: string, c: string, nick: string, user: string, host: string)
    requires Unmarked(nick) && Unmarked(user) && Unmarked(host)
    ensures Matches(Address(a, b, c), Address(nick, user, host)) <==>
      Matches(a, nick) && Matches(b, user) && Matches(c, host)
  {
    hide Matches;
    assert Address(a, b, c) == (a + "!" + b) + ['@'] + c && a + "!" + b == a + ['!'] + b;
    assert Address(nick, user, host) == (nick + "!" + user) + ['@'] + host && nick + "!" + user == nick + ['!'] + user;
    var x := nick + "!" + user;
    assert Free(x, '@') by {
      forall i | 0 <= i < |x| ensures x[i] != '@' {
        if i > |nick| { assert x[i] == user[i - |nick| - 1]; }
      }
    }
    SplitAt('@', a + "!" + b, c, x, host);
    SplitAt('!', a, b, nick, user);
  }

  // ----- what the parts accept

  /** A star and a plain text: everything that ends in it. */
  lemma StarThen(p: string, n: string)
    requires Free(p, '*') && Free(p, '?')
    ensures Matches("*" + p, n) <==> |p| <= |n| && Recased(p, n[|n| - |p|..])
  {
    NotIn(p);
    hide Matches, Recased, Free;
    if Matches("*" + p, n) {
      var k := MatchesSplit("*", p, n);
      PlainMask(p, n[k..]);
      SameLength(p, n[k..]);
      assert k == |n| - |p|;
    }
    if |p| <= |n| { EndsWith(p, n, |n| - |p|); }
  }

  lemma EndsWith(p: string, n: string, k: nat)
    requires k <= |n| && '*' !in p && '?' !in p
    ensures Recased(p, n[k..]) ==> Matches("*" + p, n)
  {
    hide Matches, Recased;
    PlainMask(p, n[k..]);
    StarMatches(n[..k]);
    if Recased(p, n[k..]) { MatchesConcat("*", n[..k], p, n[k..]); }
    assert n[..k] + n[k..] == n;
  }

  /** And a plain text and a star: everything that begins with it. */
  lemma ThenStar(p: string, n: string)
    requires Free(p, '*') && Free(p, '?')
    ensures Matches(p + "*", n) <==> |p| <= |n| && Recased(p, n[..|p|])
  {
    NotIn(p);
    hide Matches, Recased, Free;
    if Matches(p + "*", n) {
      var k := MatchesSplit(p, "*", n);
      PlainMask(p, n[..k]);
      SameLength(p, n[..k]);
      assert k == |p|;
    }
    if |p| <= |n| { BeginsWith(p, n, |p|); }
  }

  lemma BeginsWith(p: string, n: string, k: nat)
    requires k <= |n| && '*' !in p && '?' !in p
    ensures Recased(p, n[..k]) ==> Matches(p + "*", n)
  {
    hide Matches, Recased;
    PlainMask(p, n[..k]);
    StarMatches(n[k..]);
    if Recased(p, n[..k]) { MatchesConcat(p, n[..k], "*", n[k..]); }
    assert n[..k] + n[k..] == n;
  }

  lemma SameLength(p: string, n: string)
    requires Recased(p, n)
    ensures |p| == |n|
  {
  }

  lemma NotIn(p: string)
    requires Free(p, '*') && Free(p, '?')
    ensures '*' !in p && '?' !in p
  {
  }

  /** The user without one leading character that marks it as unverified. */
  function Bare(user: string): string {
    if user != "" && user[0] in {'~', '+', '-', '^', '='} then user[1..] else user
  }

  /** Whether the mask's user part leaves `other` in: any user, the same one, or one that ends in the bare name. */
  predicate UserKept(user: string, typ: nat, other: string) {
    if typ % 5 == 2 || typ % 5 == 4 then true
    else if typ % 5 == 0 then Recased(user, other)
    else var b := Bare(user); |b| <= |other| && Recased(b, other[|other| - |b|..])
  }

  lemma UserPart(user: string, typ: nat, other: string)
    requires Ordinary(user)
    ensures Matches(UserMask(user, true, typ % 5), other) <==> UserKept(user, typ, other)
  {
    hide Matches, Recased;
    StarMatches(other);
    NotIn(user);
    PlainMask(user, other);
    assert Free(Bare(user), '*') && Free(Bare(user), '?') by {
      assert forall i | 0 <= i < |Bare(user)| :: Bare(user)[i] in user;
    }
    StarThen(Bare(user), other);
  }

  // ----- hosts

  predicate DigitsAndDots(h: string) {
    forall i | 0 <= i < |h| :: h[i] == '.' || '0' <= h[i] <= '9'
  }

  predicate Contains(h: string, c: char) {
    exists i :: 0 <= i < |h| && h[i] == c
  }

  predicate SameStart(h: string, k: int, t: string)
    requires 0 <= k <= |h|
  {
    k <= |t| && Recased(h[..k], t[..k])
  }

  predicate SameEnd(p: string, t: string) {
    |p| <= |t| && Recased(p, t[|t| - |p|..])
  }

  /** Everything but the digits is the same. */
  predicate SameButDigits(h: string, t: string) {
    |h| == |t| && forall i | 0 <= i < |h| && !('0' <= h[i] <= '9') :: Twins(h[i], t[i])
  }

  /** Whether the mask's host part leaves `t` in. */
  predicate HostKept(h: string, typ: nat, t: string) {
    if h == "" then true
    else if Contains(h, ':') then
      if typ % 5 > 2 then SameStart(h, Cut6Of(h), t) else Recased(h, t)
    else if DigitsAndDots(h) then
      if typ % 5 > 2 && Contains(h, '.') then SameStart(h, Last(h, '.') + 1, t) else Recased(h, t)
    else if typ >= 20 then Matches(HideDigits(h, false), t)
    else if typ >= 10 then SameButDigits(h, t)
    else if typ % 5 > 2 && Contains(h, '.') && Dots(h) >= 2 then SameEnd(SuffixOf(h), t)
    else Recased(h, t)
  }

  function Cut6Of(h: string): (k: int)
    ensures 0 <= k <= |h|
  {
    if Has(h, ':') then Cut6(h) else 0
  }

  function SuffixOf(h: string): string {
    if Has(h, '.') then DomainSuffix(h) else h
  }

  lemma HasIsContains(h: string, c: char)
    ensures Has(h, c) <==> Contains(h, c)
  {
    hide Last;
    var p := Last(h, c);
    if p >= 0 { assert h[p] == c; }
  }

  lemma {:induction false} HiddenSingly(h: string, t: string)
    requires Free(h, '*') && Free(h, '?')
    ensures Matches(HideDigits(h, true), t) <==> SameButDigits(h, t)
    decreases |h|
  {
    if h != "" {
      var n := |h| - 1;
      var front := HideDigits(h[..n], true);
      var last := if Digit(h[n]) then '?' else h[n];
      assert HideDigits(h, true) == front + [last];
      assert (front + [last])[..|front|] == front;
      if t != "" {
        var j := |t| - 1;
        HiddenSingly(h[..n], t[..j]);
        SameIsTwins(last, t[j]);
        assert SameButDigits(h, t) <==> SameButDigits(h[..n], t[..j]) && (!Digit(h[n]) ==> Twins(h[n], t[j])) by {
          SameButSnoc(h, t);
        }
      }
    }
  }

  lemma SameButSnoc(h: string, t: string)
    requires h != "" && t != ""
    ensures SameButDigits(h, t) <==>
      SameButDigits(h[..|h| - 1], t[..|t| - 1]) && (!Digit(h[|h| - 1]) ==> Twins(h[|h| - 1], t[|t| - 1]))
  {
    hide Twins;
    var a, b := h[..|h| - 1], t[..|t| - 1];
    if SameButDigits(a, b) && (!Digit(h[|h| - 1]) ==> Twins(h[|h| - 1], t[|t| - 1])) {
      forall i | 0 <= i < |h| && !('0' <= h[i] <= '9') ensures Twins(h[i], t[i]) {
        if i < |h| - 1 { assert Twins(a[i], b[i]); }
      }
    }
    if SameButDigits(h, t) {
      forall i | 0 <= i < |a| && !('0' <= a[i] <= '9') ensures Twins(a[i], b[i]) { assert Twins(h[i], t[i]); }
    }
  }

  lemma HostPart(h: string, typ: nat, t: string)
    requires Ordinary(h)
    ensures Matches(HostMask(h, typ), t) <==> HostKept(h, typ, t)
  {
    hide Matches, Recased, Last, Cut6, DomainSuffix, HideDigits, Dots;
    HasIsContains(h, ':');
    HasIsContains(h, '.');
    NotIn(h);
    PlainMask(h, t);
    StarMatches(t);
    assert Numeric(h) <==> DigitsAndDots(h);
    if Has(h, ':') {
      FreeSlice(h, 0, Cut6(h));
      assert h[0..Cut6(h)] == h[..Cut6(h)];
      ThenStar(h[..Cut6(h)], t);
    }
    if Has(h, '.') {
      var p := Last(h, '.');
      FreeSlice(h, 0, p + 1);
      assert h[0..p + 1] == h[..p + 1] && h[..p] + ".*" == h[..p + 1] + "*";
      ThenStar(h[..p + 1], t);
      SuffixFree(h);
      StarThen(DomainSuffix(h), t);
    }
    HiddenSingly(h, t);
  }

  lemma FreeSlice(h: string, i: int, j: int)
    requires 0 <= i <= j <= |h| && Ordinary(h)
    ensures Free(h[i..j], '*') && Free(h[i..j], '?')
  {
  }

  lemma SuffixFree(h: string)
    requires Has(h, '.') && Ordinary(h)
    ensures Free(DomainSuffix(h), '*') && Free(DomainSuffix(h), '?')
  {
    hide Last, First, Dots;
    FreeSlice(h, First(h, '.', 0), |h|);
  }

  /** The mask of one address leaves another in exactly if it leaves in its nick, its user and its host. */
  lemma MaskDecides(nick: string, user: string, host: string, typ: nat, nick': string, user': string, host': string)
    requires Ordinary(nick) && Ordinary(user) && Ordinary(host)
    requires Unmarked(nick') && Unmarked(user') && Unmarked(host')
    ensures Accepts(MaskOf(Address(nick, user, host), typ), Address(nick', user', host')) <==>
      (typ % 10 < 5 || Recased(nick, nick')) && UserKept(user, typ, user') && HostKept(host, typ, host')
  {
    hide Matches, MaskOf, UserMask, HostMask, UserKept, HostKept, Recased;
    MaskParts(nick, user, host, typ);
    var a := if typ % 10 < 5 then "*" else nick;
    PartsMatch(a, UserMask(user, true, typ % 5), HostMask(host, typ), nick', user', host');
    StarMatches(nick');
    NotIn(nick);
    PlainMask(nick, nick');
    UserPart(user, typ, user');
    HostPart(host, typ, host');
  }

  // ----- where hosts are cut

  /** An IPv6 host is cut behind its last colon, or behind a dot that comes after it. */
  lemma WhereCut6(h: string)
    requires Contains(h, ':')
    ensures var k := Cut6Of(h);
      && 0 < k <= |h| && (h[k - 1] == ':' || h[k - 1] == '.')
      && (forall i | k <= i < |h| :: h[i] != ':' && h[i] != '.')
      && exists i :: 0 <= i < k && h[i] == ':' && forall j | i < j < |h| :: h[j] != ':'
  {
    hide Last;
    HasIsContains(h, ':');
    var p := Last(h, ':');
    var u := Last(h[p..], '.');
    assert h[p] == ':';
    assert forall i | p <= i < |h| :: h[p..][i - p] == h[i];
    if u >= 0 { assert h[p..][u] == h[p + u]; }
  }

  lemma {:induction false} DotsJoin(x: string, y: string)
    requires x != ""
    ensures Dots(x + y) == Dots(x) + DotCount(y)
    decreases |y|
  {
    if y == "" {
      assert x + y == x;
    } else {
      var z := y[..|y| - 1];
      assert (x + y)[..|x + y| - 1] == x + z;
      DotsJoin(x, z);
    }
  }

  /** How many dots there are. */
  function DotCount(y: string): nat {
    if y == "" then 0 else DotCount(y[..|y| - 1]) + if y[|y| - 1] == '.' then 1 else 0
  }

  lemma {:induction false} NoDotCount(y: string)
    requires Free(y, '.')
    ensures DotCount(y) == 0 && (y != "" ==> Dots(y) == 0)
  {
    if y != "" { NoDotCount(y[..|y| - 1]); }
  }

  lemma DotFirst(y: string)
    ensures DotCount("." + y) == 1 + DotCount(y)
  {
    DotCountJoin(".", y);
    assert DotCount(".") == 1 by { assert "."[..0] == ""; }
  }

  lemma {:induction false} DotCountJoin(x: string, y: string)
    ensures DotCount(x + y) == DotCount(x) + DotCount(y)
    decreases |y|
  {
    if y == "" {
      assert x + y == x;
    } else {
      assert (x + y)[..|x + y| - 1] == x + y[..|y| - 1];
      DotCountJoin(x, y[..|y| - 1]);
    }
  }

  /** A host name in two or more labels, the last of them `end`: how many dots, and where the first and last are. */
  lemma Labels(a: string, b: string, end: string)
    requires a != "" && Free(a, '.') && Free(end, '.')
    ensures var h := a + "." + b + end;
      && Dots(h) == 1 + DotCount(b) && First(h, '.', 0) == |a|
      && (b != "" && b[|b| - 1] == '.' ==> Last(h, '.') == |a| + |b|)
  {
    hide First, Last, Dots, DotCount;
    LabelDots(a, b, end);
    assert a + "." + b + end == a + ['.'] + (b + end);
    FirstAt(a, '.', b + end, 0);
    if b != "" && b[|b| - 1] == '.' {
      var x := a + "." + b;
      assert x[|x| - 1] == b[|b| - 1];
      LastDot(x, end);
    }
  }

  lemma LabelDots(a: string, b: string, end: string)
    requires a != "" && Free(a, '.') && Free(end, '.')
    ensures Dots(a + "." + b + end) == 1 + DotCount(b)
  {
    hide Dots, DotCount;
    assert a + "." + b + end == a + ("." + (b + end));
    DotsJoin(a, "." + (b + end));
    DotFirst(b + end);
    DotCountJoin(b, end);
    NoDotCount(end);
    NoDotCount(a);
  }

  lemma LastDot(x: string, end: string)
    requires x != "" && x[|x| - 1] == '.' && Free(end, '.')
    ensures Last(x + end, '.') == |x| - 1
  {
    hide Last;
    var h := x + end;
    assert h[|x| - 1] == '.';
    assert forall i | |x| <= i < |h| :: h[i] == end[i - |x|];
  }

  /** Of a name with two dots, everything from the first is kept. */
  lemma ThreeLabels(a: string, b: string, c: string)
    requires a != "" && Free(a, '.') && Free(b, '.') && Free(c, '.')
    ensures var h := a + "." + (b + ".") + c; Dots(h) == 2 && SuffixOf(h) == "." + b + "." + c
  {
    hide First, Last, Dots, DotCount;
    var h := a + "." + (b + ".") + c;
    Labels(a, b + ".", c);
    DotCountJoin(b, ".");
    NoDotCount(b);
    OneDot();
    HasIsContains(h, '.');
    assert h[|a|] == '.';
    assert h[|a|..] == "." + b + "." + c;
  }

  lemma OneDot()
    ensures DotCount(".") == 1
  {
    assert "."[..0] == "";
  }

  /** Of a name with three dots, everything from the second if the last label is longer than two letters, else from the
      first. */
  lemma FourLabels(a: string, b: string, c: string, d: string)
    requires a != "" && Free(a, '.') && Free(b, '.') && Free(c, '.') && Free(d, '.')
    ensures var h := a + "." + (b + "." + c + ".") + d;
      && Dots(h) == 3
      && SuffixOf(h) == if |d| > 2 then "." + c + "." + d else "." + b + "." + c + "." + d
  {
    hide First, Last, Dots, DotCount;
    var h := a + "." + (b + "." + c + ".") + d;
    Labels(a, b + "." + c + ".", d);
    ThreeDots(b, c);
    HasIsContains(h, '.');
    assert h[|a|] == '.';
    SecondDotAt(a, b, c + "." + d);
    FourCut(a, b, c, d);
  }

  lemma ThreeDots(b: string, c: string)
    requires Free(b, '.') && Free(c, '.')
    ensures DotCount(b + "." + c + ".") == 2
  {
    hide DotCount;
    NoDotCount(b);
    NoDotCount(c);
    OneDot();
    DotCountJoin(b + "." + c, ".");
    DotCountJoin(b + ".", c);
    DotCountJoin(b, ".");
  }

  lemma FourCut(a: string, b: string, c: string, d: string)
    ensures var h := a + "." + (b + "." + c + ".") + d;
      && h == a + "." + b + "." + (c + "." + d) && |h| == |a| + |b| + |c| + |d| + 3
      && h[|a|..] == "." + b + "." + c + "." + d && h[|a| + 1 + |b|..] == "." + c + "." + d
  {
  }

  lemma SecondDotAt(a: string, b: string, rest: string)
    requires Free(a, '.') && Free(b, '.')
    ensures First(a + "." + b + "." + rest, '.', |a| + 1) == |a| + 1 + |b|
  {
    hide First;
    var x := a + "." + b;
    assert a + "." + b + "." + rest == x + ['.'] + rest;
    assert forall i | |a| + 1 <= i < |x| :: x[i] == b[i - |a| - 1];
    FirstAt(x, '.', rest, |a| + 1);
  }

  /** Of a longer name, everything from the second. */
  lemma ManyLabels(a: string, b: string, c: string, end: string)
    requires a != "" && Free(a, '.') && Free(b, '.') && Free(end, '.') && DotCount(c) >= 2
    ensures var h := a + "." + (b + "." + c) + end; Dots(h) > 3 && SuffixOf(h) == "." + c + end
  {
    hide First, Last, Dots, DotCount;
    var h := a + "." + (b + "." + c) + end;
    Labels(a, b + "." + c, end);
    MoreDots(b, c);
    HasIsContains(h, '.');
    assert h[|a|] == '.';
    SecondDotAt(a, b, c + end);
    ManyCut(a, b, c, end);
  }

  lemma MoreDots(b: string, c: string)
    requires Free(b, '.')
    ensures DotCount(b + "." + c) == 1 + DotCount(c)
  {
    hide DotCount;
    NoDotCount(b);
    OneDot();
    DotCountJoin(b + ".", c);
    DotCountJoin(b, ".");
  }

  lemma ManyCut(a: string, b: string, c: string, end: string)
    ensures var h := a + "." + (b + "." + c) + end;
      h == a + "." + b + "." + (c + end) && |h| == |a| + |b| + |c| + |end| + 2
      && h[|a| + 1 + |b|..] == "." + c + end
  {
  }

  // ----- runs of digits

  lemma {:induction false} NoDigitHidden(h: string)
    requires forall i | 0 <= i < |h| :: !('0' <= h[i] <= '9')
    ensures HideDigits(h, false) == h
  {
    if h != "" { NoDigitHidden(h[..|h| - 1]); }
  }

  lemma {:induction false} RunIsStar(d: string)
    requires d != "" && forall i | 0 <= i < |d| :: '0' <= d[i] <= '9'
    ensures HideDigits(d, false) == "*"
  {
    var n := |d| - 1;
    if n > 0 {
      RunIsStar(d[..n]);
    } else {
      assert d[..0] == "";
    }
  }

  /** Parts that do not cut a run in two are hidden one by one. With the two lemmas above: each run of digits becomes
      one star, and everything else stays. */
  lemma {:induction false} HiddenJoin(x: string, y: string)
    requires x == "" || y == "" || !('0' <= x[|x| - 1] <= '9') || !('0' <= y[0] <= '9')
    ensures HideDigits(x + y, false) == HideDigits(x, false) + HideDigits(y, false)
    decreases |y|
  {
    if y == "" {
      assert x + y == x;
    } else if x == "" {
      assert x + y == y;
    } else {
      var z, n := y[..|y| - 1], |x + y| - 1;
      HiddenJoin(x, z);
      assert (x + y)[..n] == x + z && (x + y)[n] == y[|y| - 1];
      if |y| > 1 {
        assert (x + y)[n - 1] == y[|y| - 2];
      } else {
        assert (x + y)[n - 1] == x[|x| - 1] && z == "";
      }
    }
  }
}
