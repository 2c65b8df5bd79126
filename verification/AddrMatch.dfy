/** Matching host masks: the part before the at sign and the part behind it separately, the latter possibly as an
    address block. */
module AddrMatch {
  import opened Wire
  import opened Glob
  import opened WildMatch
  import opened MaskAddr
  import opened Cidr

  const UHOSTLEN := 324

  /** Upper case by section 2.2 of RFC 1459, with the tilde as the lower case of the caret. */
  function RfcUpper(c: char): char {
    if 'a' <= c <= 'z' then c - 'a' + 'A'
    else if c == '{' then '['
    else if c == '|' then '\\'
    else if c == '}' then ']'
    else if c == '~' then '^'
    else c
  }

  /** The folded copy in the fixed buffer. */
  function Fold(s: string): (r: string)
    ensures |r| == if |s| < UHOSTLEN then |s| else UHOSTLEN - 1
    ensures forall i | 0 <= i < |r| :: r[i] == RfcUpper(s[i])
  {
    var n := if |s| < UHOSTLEN then |s| else UHOSTLEN - 1;
    seq(n, i requires 0 <= i < n => RfcUpper(s[i]))
  }

  predicate AllDigits(s: string) {
    s != "" && forall i | 0 <= i < |s| :: Digit(s[i])
  }

  /** Where the prefix length starts in `address/length`, or -1. */
  function SlashOf(s: string): (p: int)
    ensures -1 <= p < |s|
  {
    var p := Last(s, '/');
    if p >= 0 && AllDigits(s[p + 1..]) then p else -1
  }

  /** The host parts: plain patterns, or blocks. `cmp` compares two masks instead of a mask and an address. */
  ghost predicate HostAgrees(pton: Converter, r: string, s: string, cmp: bool)
    requires Converts(pton)
  {
    var p, q := SlashOf(r), if cmp then SlashOf(s) else -1;
    if p < 0 then Accepts(r, s)
    else
      var count := Atoi(r[p + 1..]);
      && (q >= 0 ==> count <= Atoi(s[q + 1..]))
      && CidrAgrees(pton, r[..p], if q >= 0 then s[..q] else s, count)
  }

  /** The mask's verdict on an address. `blocks` says whether at signs and blocks are looked at at all. */
  ghost predicate AddrAgrees(pton: Converter, m: string, n: string, blocks: bool, cmp: bool)
    requires Converts(pton)
  {
    var mu, nu := Fold(m), Fold(n);
    var r, s := Last(mu, '@'), Last(nu, '@');
    if !blocks || r < 0 || s < 0 then Accepts(mu, nu)
    else
      && Accepts(mu[..r], nu[..s])
      && ((mu[r + 1..] == "" && nu[s + 1..] == "") || HostAgrees(pton, mu[r + 1..], nu[s + 1..], cmp))
  }

  // ----- the code

  /** Copy and fold, remembering the last at sign seen. */
  method CopyFolded(m: string) returns (mu: string, at: int)
    ensures mu == Fold(m) && at == Last(mu, '@')
  {
    mu, at := "", -1;
    var k := 0;
    while k < |m| && k < UHOSTLEN - 1
      invariant 0 <= k <= |m| && k <= UHOSTLEN - 1 && |mu| == k
      invariant forall i | 0 <= i < k :: mu[i] == RfcUpper(m[i])
      invariant at == Last(mu, '@')
    {
      if m[k] == '@' {
        at := k;
      }
      ghost var before := mu;
      mu := mu + [RfcUpper(m[k])];
      assert mu[..k] == before;
      k := k + 1;
    }
    assert mu == Fold(m);
  }

  method Matched(m: string, n: string) returns (r: bool)
    ensures r == Accepts(m, n)
  {
    var w: int;
    ghost var rounds: int;
    w, rounds := WildMatch.WildMatch(m, n);
    r := w != NOMATCH;
  }

  method IsDigits(s: string) returns (r: bool)
    ensures r == AllDigits(s)
  {
    if s == "" {
      return false;
    }
    var i := 0;
    while i < |s|
      invariant 0 <= i <= |s| && forall k | 0 <= k < i :: Digit(s[k])
    {
      if !Digit(s[i]) {
        return false;
      }
      i := i + 1;
    }
    return true;
  }

  method Slash(s: string) returns (p: int)
    ensures p == SlashOf(s)
  {
    p := Last(s, '/');
    if p >= 0 {
      var number := IsDigits(s[p + 1..]);
      if !number {
        p := -1;
      }
    }
  }

  method AddrMatch(pton: Converter, m: string, n: string, user: bool, cmp: bool, cidrSupport: bool) returns (res: int)
    requires Converts(pton)
    ensures res == 0 || res == 1
    ensures res == 1 <==> AddrAgrees(pton, m, n, user || cidrSupport, cmp)
  {
    hide Fold, Matches, SlashOf, CidrAgrees, Last, Converts, Atoi;
    var mu, r := CopyFolded(m);
    var nu, s := CopyFolded(n);
    var w: bool;
    if (!user && !cidrSupport) || r < 0 || s < 0 {
      w := Matched(mu, nu);
      return if w then 1 else 0;
    }
    var hostM, hostN := mu[r + 1..], nu[s + 1..];
    w := Matched(mu[..r], nu[..s]);
    if !w {
      return 0;
    }
    if hostM == "" && hostN == "" {
      return 1;
    }
    res := HostMatch(pton, hostM, hostN, cmp);
  }

  method HostMatch(pton: Converter, r: string, s: string, cmp: bool) returns (res: int)
    requires Converts(pton)
    ensures res == 0 || res == 1
    ensures res == 1 <==> HostAgrees(pton, r, s, cmp)
  {
    hide Accepts, SlashOf, CidrAgrees, Converts, Atoi;
    var p := Slash(r);
    if p < 0 {
      var w := Matched(r, s);
      return if w then 1 else 0;
    }
    var count := Atoi(r[p + 1..]);
    var q := -1;
    if cmp {
      q := Slash(s);
      if q >= 0 && count > Atoi(s[q + 1..]) {
        return 0;
      }
    }
    var addr := if q >= 0 then s[..q] else s;
    res := CidrMatch(pton, r[..p], addr, count);
  }

  // ----- splitting at the at sign

  lemma FoldedAt(s: string, i: int)
    requires 0 <= i < |Fold(s)|
    ensures Fold(s)[i] == '@' <==> s[i] == '@'
  {
  }

  lemma LiteralAt(m: string, b: string, n: string)
    requires Matches("@" + b, n)
    ensures n != "" && n[0] == '@' && Matches(b, n[1..])
  {
    var k := MatchesSplit("@", b, n);
    assert "@"[..0] == "" && Matches("@", n[..k]);
    assert n[..k] != "" && n[..k][..|n[..k]| - 1] == "";
    assert k == 1 && Same('@', n[0]);
  }

  /** A mask and an address, each in two parts around an at sign, and no other at sign in the address: the whole
      mask accepts the whole address exactly when each part accepts its part. */
  lemma SplitAtSign(a: string, b: string, x: string, y: string)
    requires '@' !in x && '@' !in y
    ensures Matches(a + "@" + b, x + "@" + y) <==> Matches(a, x) && Matches(b, y)
  {
    var n := x + "@" + y;
    forall i | 0 <= i < |n| && i != |x| ensures n[i] != '@' {
      if i < |x| { assert n[i] == x[i]; } else { assert n[i] == y[i - |x| - 1]; }
    }
    if Matches(a + "@" + b, n) {
      assert a + "@" + b == a + ("@" + b);
      var k := MatchesSplit(a, "@" + b, n);
      LiteralAt(a, b, n[k..]);
      assert n[k] == '@' && k == |x|;
      assert n[..k] == x && n[k..][1..] == y;
    }
    if Matches(a, x) && Matches(b, y) {
      Reflexive("@");
      MatchesConcat(a, x, "@", "@");
      MatchesConcat(a + "@", x + "@", b, y);
    }
  }

  /** Exactly one at sign, with something on either side. */
  predicate UserAtHost(n: string) {
    exists i | 0 < i < |n| - 1 :: n[i] == '@' && forall j | 0 <= j < |n| && j != i :: n[j] != '@'
  }

  /** The part behind the at sign, if there is one, is not written as a block. */
  predicate NoBlock(m: string) {
    Last(m, '@') < 0 || SlashOf(m[Last(m, '@') + 1..]) < 0
  }

  /** The halves of an address user@host, folded. */
  lemma Halves(n: string) returns (x: string, y: string)
    requires UserAtHost(n) && |n| < UHOSTLEN
    ensures Fold(n) == x + "@" + y && x != "" && y != "" && '@' !in x && '@' !in y
    ensures Last(Fold(n), '@') == |x| && Fold(n)[..|x|] == x && Fold(n)[|x| + 1..] == y
  {
    hide Last;
    var nu := Fold(n);
    var i :| 0 < i < |n| - 1 && n[i] == '@' && forall j | 0 <= j < |n| && j != i :: n[j] != '@';
    forall j | 0 <= j < |nu| ensures nu[j] == '@' <==> j == i { FoldedAt(n, j); }
    x, y := nu[..i], nu[i + 1..];
    assert nu[i] == '@';
    assert Last(nu, '@') == i;
  }

  /** For addresses user@host, matching the two halves separately is the same as matching the whole text, whatever
      the mask, unless its host part is an address block. */
  lemma SplitIsExact(pton: Converter, m: string, n: string)
    requires Converts(pton) && UserAtHost(n) && |n| < UHOSTLEN && NoBlock(Fold(m))
    ensures AddrAgrees(pton, m, n, true, false) <==> Accepts(Fold(m), Fold(n))
  {
    hide *;
    var x, y := Halves(n);
    if Last(Fold(m), '@') < 0 {
      WholeText(pton, m, n);
    } else {
      var r := Last(Fold(m), '@');
      var a, b := Fold(m)[..r], Fold(m)[r + 1..];
      InHalves(pton, m, n, a, b, x, y);
      SplitAccepts(a, b, x, y);
    }
  }

  lemma WholeText(pton: Converter, m: string, n: string)
    requires Converts(pton) && Last(Fold(m), '@') < 0
    ensures AddrAgrees(pton, m, n, true, false) <==> Accepts(Fold(m), Fold(n))
  {
  }

  lemma InHalves(pton: Converter, m: string, n: string, a: string, b: string, x: string, y: string)
    requires Converts(pton) && NoBlock(Fold(m)) && y != ""
    requires var mu, r := Fold(m), Last(Fold(m), '@'); r >= 0 && mu[..r] == a && mu[r + 1..] == b
    requires var nu, s := Fold(n), Last(Fold(n), '@'); s >= 0 && nu[..s] == x && nu[s + 1..] == y
    ensures Fold(m) == a + "@" + b
    ensures AddrAgrees(pton, m, n, true, false) <==> Accepts(a, x) && Accepts(b, y)
  {
    hide Fold, Last, Accepts, HostAgrees, Converts, SlashOf;
    PlainHost(pton, b, y);
  }

  lemma SplitAccepts(a: string, b: string, x: string, y: string)
    requires '@' !in x && '@' !in y && x != "" && y != ""
    ensures Accepts(a + "@" + b, x + "@" + y) <==> Accepts(a, x) && Accepts(b, y)
  {
    hide Matches;
    SplitAtSign(a, b, x, y);
    EmptyPattern(x);
    EmptyPattern(y);
  }

  lemma PlainHost(pton: Converter, r: string, s: string)
    requires Converts(pton) && SlashOf(r) < 0
    ensures HostAgrees(pton, r, s, false) <==> Accepts(r, s)
  {
    hide SlashOf, Matches, CidrAgrees;
  }

  lemma EmptyPattern(s: string)
    ensures Matches("", s) <==> s == ""
  {
  }

  /** In general splitting only loses matches: what it accepts, the whole mask accepts too. */
  lemma SplitIsSound(pton: Converter, m: string, n: string)
    requires Converts(pton) && NoBlock(Fold(m)) && AddrAgrees(pton, m, n, true, false)
    ensures Accepts(Fold(m), Fold(n))
  {
    hide Matches, Last, SlashOf;
    var mu, nu := Fold(m), Fold(n);
    var r, s := Last(mu, '@'), Last(nu, '@');
    if r >= 0 && s >= 0 {
      var a, b, x, y := mu[..r], mu[r + 1..], nu[..s], nu[s + 1..];
      assert mu == a + "@" + b && nu == x + "@" + y;
      EmptyPattern("");
      Reflexive("@");
      MatchesConcat(a, x, "@", "@");
      MatchesConcat(a + "@", x + "@", b, y);
    }
  }

  // ----- for which addresses splitting is exact

  function QuestionMarks(k: nat): string {
    seq(k, _ => '?')
  }

  /** A row of question marks matches by length. */
  lemma {:induction false} MatchesLength(k: nat, s: string)
    ensures Matches(QuestionMarks(k), s) <==> |s| == k
    decreases k
  {
    if k > 0 {
      assert QuestionMarks(k)[..k - 1] == QuestionMarks(k - 1);
      if s != "" { MatchesLength(k - 1, s[..|s| - 1]); }
    }
  }

  /** A mask of one at sign behind some question marks. */
  lemma WitnessMask(k: nat)
    requires k + 2 < UHOSTLEN
    ensures var m := QuestionMarks(k) + "@*";
      && Fold(m) == m && Last(m, '@') == k && m[..k] == QuestionMarks(k) && m[k + 1..] == "*" && NoBlock(m)
  {
    hide Last;
    var m := QuestionMarks(k) + "@*";
    assert m[k] == '@' && m[k + 1] == '*';
    assert Last(m, '@') == k;
    assert m[k + 1..] == "*";
    assert Last("*", '/') < 0;
  }

  /** The at sign of the mask falls on the first one of the address, so the whole mask accepts; in halves it is
      held against a longer user part. */
  lemma SecondAtSign(pton: Converter, n: string, i: nat) returns (m: string)
    requires Converts(pton) && |n| < UHOSTLEN && i < |n| && n[i] == '@'
    requires exists j | i < j < |n| :: n[j] == '@'
    ensures NoBlock(Fold(m)) && Accepts(Fold(m), Fold(n)) && !AddrAgrees(pton, m, n, true, false)
  {
    hide Matches, Last, NoBlock, HostAgrees, Converts;
    m := QuestionMarks(i) + "@*";
    WitnessMask(i);
    var nu := Fold(n);
    FoldedAt(n, i);
    MatchesLength(i, nu[..i]);
    Reflexive("@");
    StarMatches(nu[i + 1..]);
    MatchesConcat(QuestionMarks(i), nu[..i], "@", "@");
    MatchesConcat(QuestionMarks(i) + "@", nu[..i] + "@", "*", nu[i + 1..]);
    assert QuestionMarks(i) + "@" + "*" == m && nu[..i] + "@" + nu[i + 1..] == nu;
    var s := Last(nu, '@');
    var j :| i < j < |n| && n[j] == '@';
    FoldedAt(n, j);
    assert s > i;
    MatchesLength(i, nu[..s]);
  }

  lemma StarAtStar(x: string, y: string)
    ensures Matches("*@*", x + "@" + y)
  {
    hide Matches;
    StarMatches(x);
    StarMatches(y);
    Reflexive("@");
    MatchesConcat("*", x, "@", "@");
    MatchesConcat("*" + "@", x + "@", "*", y);
    assert "*" + "@" + "*" == "*@*";
  }

  lemma StarAtStarMask()
    ensures var m := "*@*"; Fold(m) == m && Last(m, '@') == 1 && m[..1] == "*" && m[2..] == "*" && NoBlock(m)
  {
    hide Last;
    var m := "*@*";
    assert m[1] == '@' && m[2] == '*';
    assert Last(m, '@') == 1 && m[2..] == "*";
    assert Last(m[2..], '/') < 0;
  }

  /** An empty half is never accepted by a star, the whole address is. */
  lemma AtSignAtEnd(pton: Converter, n: string, i: nat) returns (m: string)
    requires Converts(pton) && |n| < UHOSTLEN && i < |n| && n[i] == '@' && (i == 0 || i == |n| - 1)
    requires forall j | 0 <= j < |n| && j != i :: n[j] != '@'
    ensures NoBlock(Fold(m)) && Accepts(Fold(m), Fold(n)) && !AddrAgrees(pton, m, n, true, false)
  {
    hide Matches, Last, SlashOf, CidrAgrees, Converts, NoBlock;
    m := "*@*";
    StarAtStarMask();
    StarHasNoBlock();
    var nu := Fold(n);
    forall j | 0 <= j < |nu| ensures nu[j] == '@' <==> j == i { FoldedAt(n, j); }
    assert nu[i] == '@' && Last(nu, '@') == i;
    StarAtStar(nu[..i], nu[i + 1..]);
    assert nu[..i] + "@" + nu[i + 1..] == nu;
  }

  lemma StarHasNoBlock()
    ensures SlashOf("*") < 0
  {
  }

  ghost predicate SplitsExactly(pton: Converter, n: string)
    requires Converts(pton)
  {
    forall m | NoBlock(Fold(m)) :: AddrAgrees(pton, m, n, true, false) <==> Accepts(Fold(m), Fold(n))
  }

  /** Splitting is exact for an address, whatever the mask, exactly when the address has no at sign or is of the form
      user@host. */
  lemma SplitExactness(pton: Converter, n: string)
    requires Converts(pton) && |n| < 324
    ensures SplitsExactly(pton, n) <==> '@' !in n || UserAtHost(n)
  {
    hide AddrAgrees, Accepts, Converts, Fold, NoBlock;
    if UserAtHost(n) {
      forall m | NoBlock(Fold(m)) ensures AddrAgrees(pton, m, n, true, false) <==> Accepts(Fold(m), Fold(n)) {
        SplitIsExact(pton, m, n);
      }
    } else if '@' !in n {
      forall m ensures AddrAgrees(pton, m, n, true, false) <==> Accepts(Fold(m), Fold(n)) {
        NoAtSign(pton, m, n);
      }
    } else {
      var i := First(n, '@', 0);
      var m: string;
      if j :| i < j < |n| && n[j] == '@' {
        m := SecondAtSign(pton, n, i);
      } else {
        m := AtSignAtEnd(pton, n, i);
      }
    }
  }

  lemma NoAtSign(pton: Converter, m: string, n: string)
    requires Converts(pton) && '@' !in n
    ensures AddrAgrees(pton, m, n, true, false) <==> Accepts(Fold(m), Fold(n))
  {
    hide Last;
    var s := Last(Fold(n), '@');
    if s >= 0 {
      FoldedAt(n, s);
      assert false;
    }
  }

  // ----- comparing blocks

  /** The text of a block: an address, a slash, and a prefix length in digits. */
  lemma SlashFound(a: string, digits: string)
    requires AllDigits(digits)
    ensures SlashOf(a + "/" + digits) == |a|
    ensures (a + "/" + digits)[..|a|] == a && (a + "/" + digits)[|a| + 1..] == digits
  {
    var s := a + "/" + digits;
    assert s[|a|] == '/';
    assert forall i | |a| < i < |s| :: s[i] == digits[i - |a| - 1] && Digit(s[i]);
    assert s[|a| + 1..] == digits;
    assert Last(s, '/') == |a|;
  }

  lemma AtoiDigits(s: string)
    requires AllDigits(s)
    ensures Atoi(s) >= 0
  {
  }

  /** Comparing two masks of blocks in one family: the first is accepted over the second exactly when every address
      of the second block lies in the first, except that a prefix length of zero is never accepted. */
  lemma BlockComparison(pton: Converter, a: string, p: string, b: string, q: string)
    requires Converts(pton) && AllDigits(p) && AllDigits(q)
    requires var six := Six(a, b); pton(six, a).Some? && pton(six, b).Some?
    requires var width := if Six(a, b) then 128 else 32; Atoi(p) <= width && Atoi(q) <= width
    ensures var six := Six(a, b);
      HostAgrees(pton, a + "/" + p, b + "/" + q, true) <==>
        Atoi(p) >= 1 && Contains(pton(six, a).value, Atoi(p), pton(six, b).value, Atoi(q))
  {
    hide SlashOf, SamePrefix, Contains, AllDigits, Atoi;
    var six := Six(a, b);
    SlashFound(a, p);
    SlashFound(b, q);
    AtoiDigits(p);
    AtoiDigits(q);
    BlockContainment(pton(six, a).value, Atoi(p), pton(six, b).value, Atoi(q));
    Symmetric(pton(six, a).value, pton(six, b).value, Atoi(p));
  }

  lemma Symmetric(a: Address, b: Address, k: int)
    requires |a| == |b| && k <= 8 * |a|
    ensures SamePrefix(a, b, k) <==> SamePrefix(b, a, k)
  {
  }

  /** An address with two at signs: the mask accepts it as a whole, but not in halves. */
  lemma SplitCanLose(pton: Converter)
    requires Converts(pton)
    ensures Accepts(Fold("A@*"), Fold("A@B@C")) && !AddrAgrees(pton, "A@*", "A@B@C", true, false)
  {
    var m, n := "A@*", "A@B@C";
    assert Fold(m) == m && Fold(n) == n;
    Reflexive("A@");
    StarMatches("B@C");
    MatchesConcat("A@", "A@", "*", "B@C");
    assert m == "A@" + "*" && n == "A@" + "B@C";
    assert Last(m, '@') == 1 && Last(n, '@') == 3;
    assert m[..1] == "A" && n[..3] == "A@B";
    assert !Matches("A", "A@B") by {
      assert "A@B"[2] == 'B' && !Same('A', 'B');
    }
  }
}
