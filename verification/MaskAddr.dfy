/** Building a host mask from an address, and why the mask covers the address it came from. */
module MaskAddr {
  import opened Wire
  import opened Glob
  import opened WildMatch

  /** The first `c` at or after `from`, or -1. */
  function First(s: string, c: char, from: nat): (r: int)
    requires from <= |s|
    ensures -1 <= r < |s|
    ensures r == -1 ==> forall i | from <= i < |s| :: s[i] != c
    ensures r >= 0 ==> from <= r && s[r] == c && forall i | from <= i < r :: s[i] != c
    decreases |s| - from
  {
    if from == |s| then -1 else if s[from] == c then from else First(s, c, from + 1)
  }

  /** The last `c`, or -1. */
  function Last(s: string, c: char): (r: int)
    ensures -1 <= r < |s|
    ensures r == -1 ==> forall i | 0 <= i < |s| :: s[i] != c
    ensures r >= 0 ==> s[r] == c && forall i | r < i < |s| :: s[i] != c
  {
    if s == "" then -1 else
    var n := |s| - 1;
    if s[n] == c then n else
    var r := Last(s[..n], c);
    assert forall i | 0 <= i < n :: s[..n][i] == s[i];
    r
  }

  predicate Has(s: string, c: char) {
    Last(s, c) >= 0
  }

  predicate Numeric(h: string) {
    forall i | 0 <= i < |h| :: Digit(h[i]) || h[i] == '.'
  }

  /** How many dots after the first character. */
  function Dots(h: string): nat {
    if |h| <= 1 then 0 else Dots(h[..|h| - 1]) + if h[|h| - 1] == '.' then 1 else 0
  }

  /** Digits replaced by question marks, or each run of digits by one star. */
  function HideDigits(h: string, single: bool): string {
    if h == "" then "" else
    var n := |h| - 1;
    var front := HideDigits(h[..n], single);
    if !Digit(h[n]) then front + [h[n]]
    else if single then front + "?"
    else if n > 0 && Digit(h[n - 1]) then front
    else front + "*"
  }

  function UserMask(user: string, known: bool, d: int): string {
    if !known || d == 2 || d == 4 then "*"
    else if d == 0 then user
    else "*" + if user != "" && user[0] in "~+-^=" then user[1..] else user
  }

  /** Where an IPv6 address is cut: after the last colon, or after a dot behind it. */
  function Cut6(h: string): (k: int)
    requires Has(h, ':')
    ensures 0 < k <= |h|
  {
    var p := Last(h, ':');
    var u := Last(h[p..], '.');
    1 + if u >= 0 then p + u else p
  }

  /** The suffix kept of a host name with at least two inner dots: from its first dot, or from its second for longer
      names and for names of three dots whose last label has more than two letters. */
  function DomainSuffix(h: string): string
    requires Has(h, '.')
  {
    var first, last, dots := First(h, '.', 0), Last(h, '.'), Dots(h);
    assert h[last] == '.';
    var second := First(h, '.', first + 1);
    if (dots > 3 || (dots == 3 && |h| - last > 3)) && second >= 0 then h[second..] else h[first..]
  }

  function HostMask(h: string, typ: nat): string {
    var d := typ % 5;
    if Has(h, ':') && d > 2 then h[..Cut6(h)] + "*"
    else if !Has(h, ':') && !Numeric(h) && typ >= 10 then HideDigits(h, typ < 20)
    else if d > 2 && Has(h, '.') then
      if Numeric(h) then h[..Last(h, '.')] + ".*"
      else if Dots(h) < 2 then h
      else "*" + DomainSuffix(h)
    else if h == "" then "*"
    else h
  }

  // ----- covering

  lemma AnySuffix(a: string, h: string, k: nat)
    requires k <= |h| && Matches(a, h[..k])
    ensures Matches(a + "*", h)
  {
  }

  lemma SuffixCovers(h: string, k: nat)
    requires k <= |h|
    ensures Matches("*" + h[k..], h)
  {
    StarMatches(h[..k]);
    Reflexive(h[k..]);
    MatchesConcat("*", h[..k], h[k..], h[k..]);
    assert h == h[..k] + h[k..];
  }

  /** A pattern ending in a star also covers longer texts. */
  lemma StarGrows(m: string, n: string, c: char)
    requires m != "" && m[|m| - 1] == '*' && Matches(m, n)
    ensures Matches(m, n + [c])
  {
    var i := |m| - 1;
    var k :| 0 <= k <= |n| && Matches(m[..i], n[..k]);
    assert (n + [c])[..k] == n[..k];
  }

  lemma {:induction false} HiddenCovers(h: string, single: bool)
    ensures Matches(HideDigits(h, single), h)
    ensures !single && h != "" && Digit(h[|h| - 1]) ==>
      HideDigits(h, single) != "" && HideDigits(h, single)[|HideDigits(h, single)| - 1] == '*'
  {
    if h != "" {
      var n := |h| - 1;
      var front := HideDigits(h[..n], single);
      HiddenCovers(h[..n], single);
      assert h == h[..n] + [h[n]];
      if Digit(h[n]) && !single {
        if n > 0 && Digit(h[n - 1]) {
          StarGrows(front, h[..n], h[n]);
        } else {
          AnySuffix(front, h, n);
        }
      } else {
        var x := if Digit(h[n]) then '?' else h[n];
        assert HideDigits(h, single) == front + [x] && (front + [x])[..|front|] == front;
      }
    }
  }

  lemma UserCovers(user: string, d: int)
    ensures Matches(UserMask(user, true, d), user)
  {
    if d == 2 || d == 4 {
      StarMatches(user);
    } else if d == 0 {
      Reflexive(user);
    } else if user != "" && user[0] in "~+-^=" {
      SuffixCovers(user, 1);
    } else {
      SuffixCovers(user, 0);
      assert user[0..] == user;
    }
  }

  lemma HostCovers(h: string, typ: nat)
    ensures Matches(HostMask(h, typ), h)
  {
    Reflexive(h);
    if Has(h, ':') && typ % 5 > 2 {
      var k := Cut6(h);
      Reflexive(h[..k]);
      AnySuffix(h[..k], h, k);
    } else if !Has(h, ':') && !Numeric(h) && typ >= 10 {
      HiddenCovers(h, typ < 20);
    } else if typ % 5 > 2 && Has(h, '.') {
      var p := Last(h, '.');
      if Numeric(h) {
        Reflexive(h[..p + 1]);
        AnySuffix(h[..p + 1], h, p + 1);
        assert h[..p + 1] + "*" == h[..p] + ".*";
      } else if Dots(h) >= 2 {
        var first := First(h, '.', 0);
        var second := First(h, '.', first + 1);
        SuffixCovers(h, first);
        if second >= 0 { SuffixCovers(h, second); }
      }
    } else if h == "" {
      StarMatches(h);
    }
  }

  /** The parts of an address: `u` is the first exclamation mark, `h` the first at sign behind it (or, without an
      exclamation mark, the first at all). Either may be -1. */
  function Bounds(s: string): (r: (int, int))
    ensures -1 <= r.0 < |s| && -1 <= r.1 < |s|
    ensures r.0 >= 0 ==> r.0 < r.1 && s[r.0] == '!'
    ensures r.1 >= 0 ==> r.0 < r.1 && s[r.1] == '@'
  {
    var u := First(s, '!', 0);
    var h := if u >= 0 then First(s, '@', u) else -1;
    if h >= 0 then (u, h) else (-1, First(s, '@', 0))
  }

  function NickMask(s: string, u: int, typ: nat): string
    requires -1 <= u < |s|
  {
    if u < 0 || typ % 10 < 5 then "*" else s[..u]
  }

  function UserOf(s: string, u: int, h: int): string
    requires -1 <= u && -1 <= h < |s| && (h >= 0 ==> u < h)
  {
    if h >= 0 then s[u + 1..h] else ""
  }

  function Assemble(nick: string, user: string, host: string): string {
    nick + "!" + user + "@" + host
  }

  function MaskOf(s: string, typ: nat): string {
    var (u, h) := Bounds(s);
    Assemble(NickMask(s, u, typ), UserMask(UserOf(s, u, h), h >= 0, typ % 5), HostMask(s[h + 1..], typ))
  }

  /** A mask made from an address of the form nick!user@host accepts that address, whatever the mask type. */
  lemma MaskCovers(s: string, typ: nat)
    requires Bounds(s).0 >= 0
    ensures Accepts(MaskOf(s, typ), s)
  {
    hide Matches, HostMask, UserMask;
    var (u, h) := Bounds(s);
    var nick, user, host := s[..u], s[u + 1..h], s[h + 1..];
    var a := if typ % 10 < 5 then "*" else nick;
    var b, c := UserMask(user, true, typ % 5), HostMask(host, typ);
    StarMatches(nick);
    Reflexive(nick);
    UserCovers(user, typ % 5);
    HostCovers(host, typ);
    JoinParts(a, nick, b, user, c, host);
    assert s == nick + "!" + user + "@" + host;
  }

  lemma JoinParts(a: string, nick: string, b: string, user: string, c: string, host: string)
    requires Matches(a, nick) && Matches(b, user) && Matches(c, host)
    ensures Matches(a + "!" + b + "@" + c, nick + "!" + user + "@" + host)
  {
    hide Matches;
    Reflexive("!");
    Reflexive("@");
    MatchesConcat(a, nick, "!", "!");
    MatchesConcat(a + "!", nick + "!", b, user);
    MatchesConcat(a + "!" + b, nick + "!" + user, "@", "@");
    MatchesConcat(a + "!" + b + "@", nick + "!" + user + "@", c, host);
  }

  // ----- the code

  /** `nw` grows as the output pointer moves. */
  method MaskAddr(s: string, typ: nat) returns (nw: string)
    ensures nw == MaskOf(s, typ)
    ensures Bounds(s).0 >= 0 ==> Accepts(nw, s)
  {
    hide Matches, HostMask, UserMask, First, Assemble;
    if Bounds(s).0 >= 0 { MaskCovers(s, typ); }
    var u := First(s, '!', 0);
    var h := -1;
    if u >= 0 {
      h := First(s, '@', u);
    }
    if h < 0 {
      h := First(s, '@', 0);
      u := -1;
    }
    assert (u, h) == Bounds(s);
    var nick := "*";
    if !(u < 0 || typ % 10 < 5) {
      nick := s[..u];
    }
    var user := MaskUser(s, u, h, typ % 5);
    var host := MaskHost(s[h + 1..], typ);
    nw := Append(nick, user, host);
  }

  /** The three parts are written one behind the other. */
  method Append(nick: string, user: string, host: string) returns (nw: string)
    ensures nw == Assemble(nick, user, host)
  {
    nw := nick;
    nw := nw + "!";
    nw := nw + user;
    nw := nw + "@";
    nw := nw + host;
  }

  /** The user part lies between `u` and the at sign at `h`. */
  method MaskUser(s: string, u: int, h: int, d: int) returns (nw: string)
    requires -1 <= u && -1 <= h < |s| && (h >= 0 ==> u < h && s[h] == '@')
    ensures nw == UserMask(UserOf(s, u, h), h >= 0, d)
  {
    if h < 0 || d == 2 || d == 4 {
      return "*";
    }
    nw := "";
    var from := u + 1;
    if d != 0 {
      nw := nw + "*";
      if s[from] in "~+-^=" {
        from := from + 1;
      }
    }
    ghost var user := s[u + 1..h];
    assert user != "" ==> user[0] == s[u + 1] && user[1..] == s[u + 2..h];
    nw := nw + s[from..h];
  }

  method MaskHost(h: string, typ: nat) returns (nw: string)
    ensures nw == HostMask(h, typ)
  {
    hide HideDigits, Dots, DomainSuffix, First;
    var d := typ % 5;
    var num := true;
    var i := 0;
    while i < |h|
      invariant 0 <= i <= |h| && num && forall k | 0 <= k < i :: Digit(h[k]) || h[k] == '.'
    {
      if (h[i] > '9' || h[i] < '0') && h[i] != '.' {
        num := false;
        break;
      }
      i := i + 1;
    }
    assert num <==> Numeric(h);
    var p := Last(h, ':');
    if p >= 0 && d > 2 {
      var u := Last(h[p..], '.');
      if u >= 0 {
        p := p + u;
      }
      return h[..p + 1] + "*";
    }
    if p < 0 && !num && typ >= 10 {
      nw := ReplaceDigits(h, typ);
      return;
    }
    if d > 2 {
      p := Last(h, '.');
      if p >= 0 {
        if num {
          return h[..p] + ".*";
        }
        nw := MaskDomain(h, p);
        return;
      }
    }
    if h == "" {
      return "*";
    }
    return h;
  }

  /** A host name with a dot; `p` is its last one. */
  method MaskDomain(h: string, p: int) returns (nw: string)
    requires p == Last(h, '.') >= 0
    ensures nw == if Dots(h) < 2 then h else "*" + DomainSuffix(h)
  {
    var dots := CountDots(h);
    if dots < 2 {
      return h;
    }
    SecondDot(h);
    var u := First(h, '.', 0);
    if dots > 3 || (dots == 3 && |h| - p > 3) {
      u := First(h, '.', u + 1);
    }
    return "*" + h[u..];
  }

  method ReplaceDigits(h: string, typ: nat) returns (nw: string)
    ensures nw == HideDigits(h, typ < 20)
  {
    nw := "";
    var num := false;
    var p := 0;
    while p < |h|
      invariant 0 <= p <= |h| && nw == HideDigits(h[..p], typ < 20)
      invariant typ >= 20 ==> (num <==> p > 0 && Digit(h[p - 1]))
    {
      assert h[..p + 1][..p] == h[..p];
      if h[p] < '0' || h[p] > '9' {
        nw := nw + [h[p]];
        num := false;
      } else if typ < 20 {
        nw := nw + "?";
      } else if !num {
        nw := nw + "*";
        num := true;
      }
      p := p + 1;
    }
    assert h[..p] == h;
  }

  /** The search for dots starts behind the first character. */
  method CountDots(h: string) returns (d: nat)
    requires h != ""
    ensures d == Dots(h)
  {
    d := 0;
    var u := First(h, '.', 1);
    ghost var seen := 1;
    while u >= 0
      invariant 1 <= seen <= |h| && u == First(h, '.', seen)
      invariant d == Dots(h[..seen])
      decreases |h| - seen
    {
      NoDots(h, seen, u);
      assert h[..u + 1][..u] == h[..u];
      d := d + 1;
      seen := u + 1;
      u := First(h, '.', u + 1);
    }
    NoDots(h, seen, |h|);
    assert h[..|h|] == h;
  }

  lemma {:induction false} NoDots(h: string, i: nat, j: nat)
    requires 1 <= i <= j <= |h| && forall k | i <= k < j :: h[k] != '.'
    ensures Dots(h[..j]) == Dots(h[..i])
    decreases j
  {
    if i < j {
      NoDots(h, i, j - 1);
      assert h[..j][..j - 1] == h[..j - 1];
    }
  }

  /** With two dots behind the first character there is a dot behind the first dot. */
  lemma SecondDot(h: string)
    requires Dots(h) >= 2 && Has(h, '.')
    ensures First(h, '.', 0) >= 0 && First(h, '.', First(h, '.', 0) + 1) >= 0
  {
    assert h[Last(h, '.')] == '.';
    var first := First(h, '.', 0);
    if First(h, '.', first + 1) < 0 {
      NoDots(h, first + 1, |h|);
      assert h[..|h|] == h;
      if first >= 1 {
        NoDots(h, 1, first);
      }
    }
  }
}
