/** Comparing host masks when the first is an address block. */
module BlockCompare {
  import opened Wire
  import opened Glob
  import opened WildMatch
  import opened MaskOrder
  import opened MaskAddr
  import opened Cidr
  import opened AddrMatch
  import opened MaskCompare

  /** What a conversion of address text can be relied on for: only one family has colons, and no address has a
      wildcard in it. */
  ghost predicate AddressTexts(pton: Converter) {
    forall six, s | pton(six, s).Some? :: (six <==> ':' in s) && '*' !in s && '?' !in s
  }

  /** The whole comparison: against any mask, block or not. */
  ghost predicate SoundForAll(pton: Converter, m: string)
    requires Converts(pton)
  {
    forall n, s | AddrAgrees(pton, m, n, true, true) && AddrAgrees(pton, n, s, true, false) ::
      AddrAgrees(pton, m, s, true, false)
  }

  predicate IsBlock(mu: string) {
    Last(mu, '@') >= 0 && SlashOf(mu[Last(mu, '@') + 1..]) >= 0
  }

  function UserHalf(mu: string): string
    requires Last(mu, '@') >= 0
  {
    mu[..Last(mu, '@')]
  }

  function HostHalf(mu: string): string
    requires Last(mu, '@') >= 0
  {
    mu[Last(mu, '@') + 1..]
  }

  /** The address and prefix length a block is written with. */
  function BlockText(h: string): string
    requires SlashOf(h) >= 0
  {
    h[..SlashOf(h)]
  }

  function BlockLength(h: string): int
    requires SlashOf(h) >= 0
  {
    Atoi(h[SlashOf(h) + 1..])
  }

  /** The block lies in itself: its address converts and its length is one for that family. */
  ghost predicate Proper(pton: Converter, h: string)
    requires Converts(pton) && SlashOf(h) >= 0
  {
    CidrAgrees(pton, BlockText(h), BlockText(h), BlockLength(h))
  }

  // ----- hosts

  lemma BlockHost(pton: Converter, h: string, n: string)
    requires Converts(pton) && SlashOf(h) >= 0
    ensures HostAgrees(pton, h, n, false) <==> CidrAgrees(pton, BlockText(h), n, BlockLength(h))
    ensures HostAgrees(pton, h, n, true) <==>
      if SlashOf(n) >= 0
      then BlockLength(h) <= BlockLength(n) && CidrAgrees(pton, BlockText(h), BlockText(n), BlockLength(h))
      else CidrAgrees(pton, BlockText(h), n, BlockLength(h))
  {
    hide SlashOf, CidrAgrees, Converts, Atoi;
  }

  /** Agreement of prefixes passes from one address to the next, the shorter prefix counting. */
  lemma PrefixChain(pton: Converter, a: string, b: string, c: string, p: int, q: int)
    requires Converts(pton) && AddressTexts(pton) && p <= q
    requires CidrAgrees(pton, a, b, p) && CidrAgrees(pton, b, c, q)
    ensures CidrAgrees(pton, a, c, p)
  {
    hide Bit;
    var six := Six(a, b);
    assert Six(b, c) == six && Six(a, c) == six;
  }

  lemma PrefixSelf(pton: Converter, a: string, b: string, p: int)
    requires Converts(pton) && AddressTexts(pton) && CidrAgrees(pton, a, b, p)
    ensures CidrAgrees(pton, a, a, p)
  {
    hide Bit;
    assert Six(a, b) == Six(a, a);
  }

  /** A text without wildcards accepts itself in other cases, and nothing else. */
  lemma {:induction false} LiteralMatch(m: string, n: string)
    requires '*' !in m && '?' !in m && Matches(m, n)
    ensures SameText(m, n)
    decreases |m|
  {
    if m != "" {
      var i, j := |m| - 1, |n| - 1;
      assert m[i] in m && forall c | c in m[..i] :: c in m;
      LiteralMatch(m[..i], n[..j]);
      forall k | 0 <= k < |m| ensures Same(m[k], n[k]) {
        if k < i { assert Same(m[..i][k], n[..j][k]); }
      }
    }
  }

  lemma UprightSame(m: string, n: string)
    requires SameText(m, n) && forall c | c in m + n :: RfcUpper(c) == c
    ensures m == n
  {
    forall k | 0 <= k < |m| ensures m[k] == n[k] {
      assert m[k] in m + n && n[k] in m + n;
      assert Same(m[k], n[k]);
    }
  }

  /** What a mask's host accepts, a block that accepts the mask's host accepts: another block by containment, a single
      address because it accepts only itself. */
  lemma BlockHostChain(pton: Converter, h: string, n: string, s: string)
    requires Converts(pton) && AddressTexts(pton) && SlashOf(h) >= 0
    requires forall c | c in n + s :: RfcUpper(c) == c
    requires HostAgrees(pton, h, n, true) && ((n == "" && s == "") || HostAgrees(pton, n, s, false))
    ensures HostAgrees(pton, h, s, false)
  {
    hide SlashOf, CidrAgrees, Converts, Atoi, Matches, RfcUpper;
    BlockHost(pton, h, n);
    BlockHost(pton, h, s);
    if SlashOf(n) >= 0 {
      EmptyNoBlock();
      BlockHost(pton, n, s);
      PrefixChain(pton, BlockText(h), BlockText(n), s, BlockLength(h), BlockLength(n));
    } else if !(n == "" && s == "") {
      PlainHost(pton, n, s);
      NoWildcard(pton, BlockText(h), n, BlockLength(h));
      LiteralMatch(n, s);
      UprightSame(n, s);
    }
  }

  lemma EmptyNoBlock()
    ensures SlashOf("") < 0
  {
  }

  lemma NoWildcard(pton: Converter, a: string, n: string, p: int)
    requires Converts(pton) && AddressTexts(pton) && CidrAgrees(pton, a, n, p)
    ensures '*' !in n && '?' !in n
  {
  }

  // ----- whole masks

  /** The verdict on a text with an at sign of a mask with one whose host is not empty. */
  lemma HalvesVerdict(pton: Converter, m: string, n: string, cmp: bool)
    requires Converts(pton) && Last(Fold(m), '@') >= 0 && Last(Fold(n), '@') >= 0
    ensures var mu, nu := Fold(m), Fold(n);
      AddrAgrees(pton, m, n, true, cmp) <==>
        Accepts(UserHalf(mu), UserHalf(nu)) &&
        ((HostHalf(mu) == "" && HostHalf(nu) == "") || HostAgrees(pton, HostHalf(mu), HostHalf(nu), cmp))
  {
    hide Fold, Last, Accepts, HostAgrees, Converts;
  }

  /** A mask with an at sign accepts only texts with one. */
  lemma BothHaveAt(pton: Converter, m: string, n: string, cmp: bool)
    requires Converts(pton) && Last(Fold(m), '@') >= 0 && AddrAgrees(pton, m, n, true, cmp)
    ensures Last(Fold(n), '@') >= 0
  {
    hide Fold, Last, Accepts, AddrAgrees, Converts;
    if Last(Fold(n), '@') < 0 {
      WholeAgrees(pton, m, n, cmp);
      AtNeedsAt(Fold(m), Fold(n));
    }
  }

  lemma FoldFixed(m: string)
    ensures forall c | c in Fold(m) :: RfcUpper(c) == c
  {
    forall c | c in Fold(m) ensures RfcUpper(c) == c {
      var i :| 0 <= i < |Fold(m)| && Fold(m)[i] == c;
    }
  }

  lemma HostFixed(m: string)
    requires Last(Fold(m), '@') >= 0
    ensures forall c | c in HostHalf(Fold(m)) :: RfcUpper(c) == c
    ensures forall c | c in UserHalf(Fold(m)) :: RfcUpper(c) == c
    ensures '@' !in HostHalf(Fold(m))
  {
    hide Fold, RfcUpper;
    FoldFixed(m);
  }

  lemma BlockChain(pton: Converter, m: string, n: string, s: string)
    requires Converts(pton) && AddressTexts(pton) && IsBlock(Fold(m)) && Safe(UserHalf(Fold(m)))
    requires AddrAgrees(pton, m, n, true, true) && AddrAgrees(pton, n, s, true, false)
    ensures AddrAgrees(pton, m, s, true, false)
  {
    hide *;
    BlockHasAt(Fold(m));
    BothHaveAt(pton, m, n, true);
    BothHaveAt(pton, n, s, false);
    HalvesVerdict(pton, m, n, true);
    HalvesVerdict(pton, n, s, false);
    HalvesVerdict(pton, m, s, false);
    UserChain(UserHalf(Fold(m)), UserHalf(Fold(n)), UserHalf(Fold(s)));
    HostFixed(n);
    HostFixed(s);
    BlockHostChain(pton, HostHalf(Fold(m)), HostHalf(Fold(n)), HostHalf(Fold(s)));
  }

  lemma BlockHasAt(mu: string)
    requires IsBlock(mu)
    ensures Last(mu, '@') >= 0 && SlashOf(HostHalf(mu)) >= 0 && HostHalf(mu) != ""
  {
    EmptyNoBlock();
  }

  lemma UserChain(x: string, y: string, z: string)
    requires Safe(x) && Accepts(x, y) && Accepts(y, z)
    ensures Accepts(x, z)
  {
    hide Matches, Safe;
    MaskComparison(x);
  }

  /** A block that does not lie in itself, or has nothing before its at sign, accepts nothing. */
  lemma AcceptsNothing(pton: Converter, m: string, n: string)
    requires Converts(pton) && AddressTexts(pton) && IsBlock(Fold(m))
    requires UserHalf(Fold(m)) == "" || !Proper(pton, HostHalf(Fold(m)))
    ensures !AddrAgrees(pton, m, n, true, true)
  {
    hide Fold, Last, SlashOf, Matches, CidrAgrees, Converts, AddrAgrees, HostAgrees, Atoi;
    if AddrAgrees(pton, m, n, true, true) {
      BlockHasAt(Fold(m));
      BothHaveAt(pton, m, n, true);
      HalvesVerdict(pton, m, n, true);
      var h, k := HostHalf(Fold(m)), HostHalf(Fold(n));
      BlockHost(pton, h, k);
      PrefixSelf(pton, BlockText(h), if SlashOf(k) >= 0 then BlockText(k) else k, BlockLength(h));
    }
  }

  /** A mask that fools the user half, with the same block, and an address in it. */
  lemma FooledBlock(pton: Converter, m: string) returns (n: string, s: string)
    requires Converts(pton) && |m| < UHOSTLEN - 1 && IsBlock(Fold(m))
    requires !Safe(UserHalf(Fold(m))) && Proper(pton, HostHalf(Fold(m)))
    ensures AddrAgrees(pton, m, n, true, true) && AddrAgrees(pton, n, s, true, false)
    ensures !AddrAgrees(pton, m, s, true, false)
  {
    hide Fold, Last, SlashOf, Matches, CidrAgrees, Converts, AddrAgrees, HostAgrees, Atoi, Safe, RfcUpper;
    BlockHasAt(Fold(m));
    FoldedUpright(m);
    HostFixed(m);
    var x, h := UserHalf(Fold(m)), HostHalf(Fold(m));
    var a := BlockText(h);
    assert Fold(m) == x + "@" + h;
    var n1, s1 := FooledHalf(x);
    n, s := n1 + "@" + h, s1 + "@" + a;
    assert forall c | c in a :: c in h;
    FoldAgain(pton, m, n, true);
    FoldAgain(pton, m, s, false);
    PlainParts(pton, x, h, n1, h, true);
    PlainParts(pton, n1, h, s1, a, false);
    PlainParts(pton, x, h, s1, a, false);
    BlockHost(pton, h, h);
    BlockHost(pton, h, a);
  }

  /** Folding a mask beforehand makes no difference. */
  lemma FoldAgain(pton: Converter, m: string, n: string, cmp: bool)
    requires Converts(pton) && |m| < UHOSTLEN
    ensures AddrAgrees(pton, m, n, true, cmp) <==> AddrAgrees(pton, Fold(m), n, true, cmp)
  {
    hide Fold, Last, Accepts, HostAgrees, Converts;
    FoldedUpright(m);
    FoldUpright(Fold(m));
  }

  /** A block compares soundly with every mask, block or not, exactly when its user half does, or it accepts nothing
      at all. */
  lemma BlockExactness(pton: Converter, m: string)
    requires Converts(pton) && AddressTexts(pton) && |m| < UHOSTLEN - 1 && IsBlock(Fold(m))
    ensures Last(Fold(m), '@') >= 0 && SlashOf(HostHalf(Fold(m))) >= 0
    ensures SoundForAll(pton, m) <==>
      Safe(UserHalf(Fold(m))) || UserHalf(Fold(m)) == "" || !Proper(pton, HostHalf(Fold(m)))
  {
    BlockHasAt(Fold(m));
    hide AddrAgrees, Converts, Fold, Safe, Proper, IsBlock, Last, SlashOf, UserHalf, HostHalf;
    if Safe(UserHalf(Fold(m))) {
      forall n, s | AddrAgrees(pton, m, n, true, true) && AddrAgrees(pton, n, s, true, false)
        ensures AddrAgrees(pton, m, s, true, false) {
        BlockChain(pton, m, n, s);
      }
    } else if UserHalf(Fold(m)) == "" || !Proper(pton, HostHalf(Fold(m))) {
      forall n ensures !AddrAgrees(pton, m, n, true, true) { AcceptsNothing(pton, m, n); }
    } else {
      var n, s := FooledBlock(pton, m);
    }
  }

  /** Two blocks in one family: the first is accepted over the second exactly when the user halves are and every
      address of the second lies in the first, which must not be /0. */
  lemma BlockOverBlock(pton: Converter, x: string, a: string, p: string, y: string, b: string, q: string)
    requires Converts(pton) && AllDigits(p) && AllDigits(q) && '@' !in a + p + b + q
    requires forall c | c in x + a + y + b :: RfcUpper(c) == c
    requires |x| + |a| + |p| + 2 < UHOSTLEN && |y| + |b| + |q| + 2 < UHOSTLEN
    requires var six := Six(a, b); pton(six, a).Some? && pton(six, b).Some?
    requires var width := if Six(a, b) then 128 else 32; Atoi(p) <= width && Atoi(q) <= width
    ensures var six := Six(a, b);
      AddrAgrees(pton, x + "@" + (a + "/" + p), y + "@" + (b + "/" + q), true, true) <==>
        Accepts(x, y) && Atoi(p) >= 1 && Contains(pton(six, a).value, Atoi(p), pton(six, b).value, Atoi(q))
  {
    hide AddrAgrees, HostAgrees, Converts, Accepts, Contains, Atoi, SlashOf, Last, Fold, RfcUpper;
    DigitsFixed(p);
    DigitsFixed(q);
    assert RfcUpper('/') == '/' by { Slashes(); }
    BlockComparison(pton, a, p, b, q);
    PlainParts(pton, x, a + "/" + p, y, b + "/" + q, true);
  }

  lemma Slashes()
    ensures RfcUpper('/') == '/'
  {
  }

  lemma DigitsFixed(p: string)
    requires AllDigits(p)
    ensures forall c | c in p :: RfcUpper(c) == c
  {
    forall c | c in p ensures RfcUpper(c) == c {
      var i :| 0 <= i < |p| && p[i] == c;
      assert Digit(p[i]);
    }
  }
}
