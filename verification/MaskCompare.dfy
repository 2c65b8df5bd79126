/** Comparing two host masks as the ban lists do: is every address the second accepts accepted by the first? */
module MaskCompare {
  import opened BotTree
  import opened Wire
  import opened Glob
  import opened WildMatch
  import opened MaskOrder
  import opened MaskAddr
  import opened Cidr
  import opened AddrMatch

  /** What a mask that is not a block accepts, `m` accepts, if `m` accepts the mask itself. */
  ghost predicate SoundFor(pton: Converter, m: string)
    requires Converts(pton)
  {
    forall n, s | NoBlock(Fold(n)) && AddrAgrees(pton, m, n, true, true) && AddrAgrees(pton, n, s, true, false) ::
      AddrAgrees(pton, m, s, true, false)
  }

  /** Both halves compare soundly, or the mask accepts nothing because it has nothing before its at sign. */
  predicate SafeMask(mu: string) {
    var r := Last(mu, '@');
    if r < 0 then Safe(mu) else r == 0 || (Safe(mu[..r]) && Safe(mu[r + 1..]))
  }

  /** A half with nothing in it is accepted only by a half with nothing in it. */
  predicate HostAccepts(r: string, s: string) {
    (r == "" && s == "") || Accepts(r, s)
  }

  /** The verdict of a mask with an at sign, no block, on a text with one. */
  lemma HalvesAgree(pton: Converter, m: string, n: string, cmp: bool)
    requires Converts(pton) && NoBlock(Fold(m))
    requires Last(Fold(m), '@') >= 0 && Last(Fold(n), '@') >= 0
    ensures var mu, nu := Fold(m), Fold(n);
      var r, s := Last(mu, '@'), Last(nu, '@');
      AddrAgrees(pton, m, n, true, cmp) <==> Accepts(mu[..r], nu[..s]) && HostAccepts(mu[r + 1..], nu[s + 1..])
  {
    hide Fold, Last, Accepts, Converts, SlashOf, CidrAgrees;
  }

  /** The verdict where one of the two has no at sign. */
  lemma WholeAgrees(pton: Converter, m: string, n: string, cmp: bool)
    requires Converts(pton) && (Last(Fold(m), '@') < 0 || Last(Fold(n), '@') < 0)
    ensures AddrAgrees(pton, m, n, true, cmp) <==> Accepts(Fold(m), Fold(n))
  {
  }

  /** An at sign in a mask stands for itself. */
  lemma AtNeedsAt(m: string, n: string)
    requires Last(m, '@') >= 0 && Accepts(m, n)
    ensures Last(n, '@') >= 0
  {
    hide Last;
    var r := Last(m, '@');
    assert m == m[..r] + ("@" + m[r + 1..]);
    var k := MatchesSplit(m[..r], "@" + m[r + 1..], n);
    LiteralAt(m[..r], m[r + 1..], n[k..]);
    assert n[k] == '@';
  }

  // ----- safe masks compare soundly

  lemma HostChain(b: string, n: string, s: string)
    requires Safe(b) && HostAccepts(b, n) && HostAccepts(n, s)
    ensures HostAccepts(b, s)
  {
    hide Matches, Safe;
    MaskComparison(b);
  }

  lemma SafeChain(pton: Converter, m: string, n: string, s: string)
    requires Converts(pton) && NoBlock(Fold(m)) && NoBlock(Fold(n)) && SafeMask(Fold(m))
    requires AddrAgrees(pton, m, n, true, true) && AddrAgrees(pton, n, s, true, false)
    ensures AddrAgrees(pton, m, s, true, false)
  {
    hide Fold, Last, Matches, Converts, NoBlock, AddrAgrees, Safe;
    var mu, nu, su := Fold(m), Fold(n), Fold(s);
    var r, k, l := Last(mu, '@'), Last(nu, '@'), Last(su, '@');
    if r < 0 {
      WholeAgrees(pton, m, n, true);
      SplitIsSound(pton, n, s);
      MaskComparison(mu);
      WholeAgrees(pton, m, s, false);
    } else {
      if k < 0 {
        WholeAgrees(pton, m, n, true);
        AtNeedsAt(mu, nu);
      }
      if l < 0 {
        WholeAgrees(pton, n, s, false);
        AtNeedsAt(nu, su);
      }
      HalvesAgree(pton, m, n, true);
      HalvesAgree(pton, n, s, false);
      HalvesAgree(pton, m, s, false);
      MaskComparison(mu[..r]);
      HostChain(mu[r + 1..], nu[k + 1..], su[l + 1..]);
    }
  }

  // ----- every other mask is fooled in one of its halves

  /** Texts that folding leaves alone. */
  predicate Upright(s: string) {
    |s| < UHOSTLEN && forall c | c in s :: RfcUpper(c) == c
  }

  lemma FoldUpright(s: string)
    requires Upright(s)
    ensures Fold(s) == s
  {
  }

  lemma FoldedUpright(m: string)
    requires |m| < UHOSTLEN
    ensures Upright(Fold(m)) && |Fold(m)| == |m|
  {
    forall c | c in Fold(m) ensures RfcUpper(c) == c {
      var i :| 0 <= i < |Fold(m)| && Fold(m)[i] == c;
    }
  }

  lemma LastHere(x: string, y: string)
    requires '@' !in y
    ensures var n := x + "@" + y; Last(n, '@') == |x| && n[..|x|] == x && n[|x| + 1..] == y
  {
    var n := x + "@" + y;
    assert n[|x|] == '@';
    assert forall i | |x| < i < |n| :: n[i] == y[i - |x| - 1];
    assert Last(n, '@') == |x|;
  }

  /** A mask that fools a half, and the text it fools it with. */
  lemma FooledHalf(half: string) returns (n: string, s: string)
    requires !Safe(half) && forall c | c in half :: RfcUpper(c) == c
    ensures Accepts(half, n) && Accepts(n, s) && !Accepts(half, s) && half != ""
    ensures |n| == |half| && |s| <= |half| + 1
    ensures forall c | c in n + s :: RfcUpper(c) == c
    ensures '@' !in half ==> '@' !in n + s
    ensures SlashOf(half) < 0 ==> SlashOf(n) < 0
  {
    hide Matches, Starred, AnyText, SlashOf;
    n, s := Fooled(half);
    forall i | 0 <= i < |n| ensures n[i] == if half[i] == '?' then '*' else half[i] { StarredAt(half, i); }
    forall c | c in n + s ensures RfcUpper(c) == c && (c == '@' ==> c in half) {
      if c in n {
        var i :| 0 <= i < |n| && n[i] == c;
        assert half[i] in half;
      }
    }
    if SlashOf(half) < 0 { StarredSlash(half, n); }
  }

  lemma StarredSlash(m: string, n: string)
    requires |n| == |m| && forall i | 0 <= i < |n| :: n[i] == if m[i] == '?' then '*' else m[i]
    requires SlashOf(m) < 0
    ensures SlashOf(n) < 0
  {
    hide Last;
    var p := Last(n, '/');
    if p >= 0 && AllDigits(n[p + 1..]) {
      assert Last(m, '/') == p;
      var digits := n[p + 1..];
      assert forall i | 0 <= i < |digits| :: Digit(digits[i]) && m[p + 1..][i] == digits[i];
      assert m[p + 1..] == digits;
    }
  }

  lemma UprightParts(x: string, y: string)
    requires |x| + 1 + |y| < UHOSTLEN && forall c | c in x + y :: RfcUpper(c) == c
    ensures Fold(x + "@" + y) == x + "@" + y
  {
    assert forall c | c in x + "@" + y :: c == '@' || c in x + y;
    FoldUpright(x + "@" + y);
  }

  /** The verdict on parts that need no folding. */
  lemma PartsAgree(pton: Converter, m: string, x: string, y: string, cmp: bool)
    requires Converts(pton) && NoBlock(Fold(m)) && Last(Fold(m), '@') >= 0
    requires |x| + 1 + |y| < UHOSTLEN && '@' !in y && forall c | c in x + y :: RfcUpper(c) == c
    ensures var mu, r := Fold(m), Last(Fold(m), '@');
      AddrAgrees(pton, m, x + "@" + y, true, cmp) <==> Accepts(mu[..r], x) && HostAccepts(mu[r + 1..], y)
  {
    hide Fold, Last, Accepts, Converts, NoBlock, AddrAgrees;
    UprightParts(x, y);
    LastHere(x, y);
    HalvesAgree(pton, m, x + "@" + y, cmp);
  }

  lemma PartsNoBlock(x: string, y: string)
    requires '@' !in y && SlashOf(y) < 0
    ensures NoBlock(x + "@" + y)
  {
    hide Last, SlashOf;
    LastHere(x, y);
  }

  /** The other half is kept as it is: a mask accepts itself. */
  lemma FooledMask(pton: Converter, m: string) returns (n: string, s: string)
    requires Converts(pton) && |m| < UHOSTLEN - 1 && NoBlock(Fold(m)) && !SafeMask(Fold(m))
    ensures NoBlock(Fold(n)) && AddrAgrees(pton, m, n, true, true) && AddrAgrees(pton, n, s, true, false)
    ensures !AddrAgrees(pton, m, s, true, false)
  {
    hide Fold, Last, Matches, Converts, SlashOf, AddrAgrees, Safe;
    var mu, r := Fold(m), Last(Fold(m), '@');
    FoldedUpright(m);
    if r < 0 {
      n, s := FooledHalf(mu);
      FooledWhole(pton, m, n, s);
    } else {
      var a, b := mu[..r], mu[r + 1..];
      assert mu == a + "@" + b && '@' !in b;
      Reflexive(a);
      Reflexive(b);
      var n1, s1, n2, s2 := a, a, b, b;
      if !Safe(a) {
        n1, s1 := FooledHalf(a);
      } else {
        n2, s2 := FooledHalf(b);
      }
      n, s := n1 + "@" + n2, s1 + "@" + s2;
      UprightParts(n1, n2);
      PartsNoBlock(n1, n2);
      LastHere(n1, n2);
      PartsAgree(pton, m, n1, n2, true);
      PartsAgree(pton, n, s1, s2, false);
      PartsAgree(pton, m, s1, s2, false);
    }
  }

  lemma FooledWhole(pton: Converter, m: string, n: string, s: string)
    requires Converts(pton) && |m| < UHOSTLEN - 1 && Last(Fold(m), '@') < 0
    requires |n| == |Fold(m)| && |s| <= |Fold(m)| + 1 && '@' !in n + s && forall c | c in n + s :: RfcUpper(c) == c
    ensures NoBlock(Fold(n))
    ensures AddrAgrees(pton, m, n, true, true) <==> Accepts(Fold(m), n)
    ensures AddrAgrees(pton, n, s, true, false) <==> Accepts(n, s)
    ensures AddrAgrees(pton, m, s, true, false) <==> Accepts(Fold(m), s)
  {
    hide Fold, Last, Accepts, Converts, SlashOf, AddrAgrees;
    FoldUpright(n);
    FoldUpright(s);
    WholeAgrees(pton, m, n, true);
    WholeAgrees(pton, n, s, false);
    WholeAgrees(pton, m, s, false);
  }

  /** Where no blocks are compared, accepting a mask means accepting all it accepts for exactly the masks whose halves
      are each without a question mark or mean any nonempty text. */
  lemma ComparisonExactness(pton: Converter, m: string)
    requires Converts(pton) && |m| < UHOSTLEN - 1 && NoBlock(Fold(m))
    ensures SoundFor(pton, m) <==> SafeMask(Fold(m))
  {
    hide AddrAgrees, Converts, Fold, NoBlock, SafeMask;
    if SafeMask(Fold(m)) {
      forall n, s | NoBlock(Fold(n)) && AddrAgrees(pton, m, n, true, true) && AddrAgrees(pton, n, s, true, false)
        ensures AddrAgrees(pton, m, s, true, false) {
        SafeChain(pton, m, n, s);
      }
    } else {
      var n, s := FooledMask(pton, m);
    }
  }

  // ----- with a block it fails

  const SHORT := "1.2.3.0*"
  const BLOCK := "1.2.3.0/24"

  lemma PlainParts(pton: Converter, x: string, y: string, x': string, y': string, cmp: bool)
    requires Converts(pton) && '@' !in y && '@' !in y' && y != ""
    requires |x| + 1 + |y| < UHOSTLEN && forall c | c in x + y :: RfcUpper(c) == c
    requires |x'| + 1 + |y'| < UHOSTLEN && forall c | c in x' + y' :: RfcUpper(c) == c
    ensures AddrAgrees(pton, x + "@" + y, x' + "@" + y', true, cmp) <==> Accepts(x, x') && HostAgrees(pton, y, y', cmp)
  {
    hide Last, Fold, Accepts, HostAgrees, Converts;
    UprightParts(x, y);
    UprightParts(x', y');
    LastHere(x, y);
    LastHere(x', y');
  }

  lemma TwentyFour()
    ensures Atoi("24") == 24 && AllDigits("24")
  {
    assert "24"[1..] == "4" && "4"[1..] == "";
    assert LeadingNumber("4", 2) == LeadingNumber("", 24) == 24;
    assert LeadingNumber("24", 0) == LeadingNumber("4", 2);
  }

  lemma BlockHolds(pton: Converter)
    requires Converts(pton)
    requires pton(false, "1.2.3.0") == Some([1, 2, 3, 0]) && pton(false, "1.2.3.5") == Some([1, 2, 3, 5])
    ensures HostAgrees(pton, BLOCK, "1.2.3.5", false)
  {
    hide SlashOf, Converts, ByteBit, Atoi, LeadingNumber;
    assert BLOCK == "1.2.3.0" + "/" + "24";
    SlashFound("1.2.3.0", "24");
    TwentyFour();
    var a, b: Address := [1, 2, 3, 0], [1, 2, 3, 5];
    assert forall i | 0 <= i < 24 :: Bit(a, i) == Bit(b, i);
    assert !Six("1.2.3.0", "1.2.3.5");
  }

  lemma ShortRefuses()
    ensures !Matches(SHORT, "1.2.3.5")
  {
    if Matches(SHORT, "1.2.3.5") {
      assert SHORT == "1.2.3.0" + "*";
      var k := MatchesSplit("1.2.3.0", "*", "1.2.3.5");
      CountNone("1.2.3.0", '*');
      AtLeast("1.2.3.0", "1.2.3.5"[..k]);
    }
  }

  lemma ShortAcceptsBlock()
    ensures Matches(SHORT, BLOCK)
  {
    hide Matches;
    Reflexive("1.2.3.0");
    StarMatches("/24");
    MatchesConcat("1.2.3.0", "1.2.3.0", "*", "/24");
    assert SHORT == "1.2.3.0" + "*" && BLOCK == "1.2.3.0" + "/24";
  }

  lemma NoSlash(s: string)
    requires '/' !in s
    ensures SlashOf(s) < 0
  {
  }

  /** A mask without a question mark accepts the text of a block, although the block holds addresses that do not look
      like it: *@1.2.3.0* over *@1.2.3.0/24, and the address U@1.2.3.5. */
  lemma BlockEscapes(pton: Converter)
    requires Converts(pton)
    requires pton(false, "1.2.3.0") == Some([1, 2, 3, 0]) && pton(false, "1.2.3.5") == Some([1, 2, 3, 5])
    ensures var m, n, s := "*" + "@" + SHORT, "*" + "@" + BLOCK, "U" + "@" + "1.2.3.5";
      && SafeMask(Fold(m)) && NoBlock(Fold(m))
      && AddrAgrees(pton, m, n, true, true) && AddrAgrees(pton, n, s, true, false) && !AddrAgrees(pton, m, s, true, false)
  {
    hide Matches, Converts, HostAgrees, SlashOf, Last, Fold, AddrAgrees, AnyText;
    UprightParts("*", SHORT);
    LastHere("*", SHORT);
    NoSlash(SHORT);
    PartsNoBlock("*", SHORT);
    StarMatches("*");
    StarMatches("U");
    ShortAcceptsBlock();
    ShortRefuses();
    BlockHolds(pton);
    HostPlain(pton, SHORT, BLOCK, true);
    HostPlain(pton, SHORT, "1.2.3.5", false);
    PlainParts(pton, "*", SHORT, "*", BLOCK, true);
    PlainParts(pton, "*", BLOCK, "U", "1.2.3.5", false);
    PlainParts(pton, "*", SHORT, "U", "1.2.3.5", false);
  }

  lemma HostPlain(pton: Converter, r: string, s: string, cmp: bool)
    requires Converts(pton) && SlashOf(r) < 0
    ensures HostAgrees(pton, r, s, cmp) <==> Accepts(r, s)
  {
  }
}
