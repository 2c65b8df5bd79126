/** Host masks with and without blocks: what the setting changes. */
module Settings {
  import opened Glob
  import opened WildMatch
  import opened MaskAddr
  import opened Cidr
  import opened AddrMatch
  import opened Letters
  import opened Wire
  import opened MaskCompare
  import opened BlockCompare

  /** With blocks off a mask is a plain pattern for the whole address. */
  lemma OffIsPlain(pton: Converter, m: string, n: string, cmp: bool)
    requires Converts(pton)
    ensures AddrAgrees(pton, m, n, false, cmp) <==> m != "" && n != "" && Matches(Fold(m), Fold(n))
  {
  }

  /** Turning blocks on loses matches and gains none, for masks that are no block. */
  lemma OnIsNarrower(pton: Converter, m: string, n: string)
    requires Converts(pton) && NoBlock(Fold(m)) && AddrAgrees(pton, m, n, true, false)
    ensures AddrAgrees(pton, m, n, false, false)
  {
    hide Fold, NoBlock, Matches, Last;
    SplitIsSound(pton, m, n);
  }

  ghost predicate SettingsAgree(pton: Converter, n: string)
    requires Converts(pton)
  {
    forall m | NoBlock(Fold(m)) :: AddrAgrees(pton, m, n, true, false) <==> AddrAgrees(pton, m, n, false, false)
  }

  /** The two settings agree on an address, for all masks that are no block, exactly when it has no at sign or exactly
      one with something on either side. */
  lemma SettingsCondition(pton: Converter, n: string)
    requires Converts(pton) && |n| < 324
    ensures SettingsAgree(pton, n) <==>
      (forall i | 0 <= i < |n| :: n[i] != '@') ||
      exists i :: 0 < i < |n| - 1 && n[i] == '@' && forall j | 0 <= j < |n| && j != i :: n[j] != '@'
  {
    hide Fold, NoBlock, Matches, AddrAgrees, Converts;
    SplitExactness(pton, n);
    forall m ensures AddrAgrees(pton, m, n, false, false) <==> Accepts(Fold(m), Fold(n)) {
      OffIsFold(pton, m, n);
    }
    assert SettingsAgree(pton, n) <==> SplitsExactly(pton, n);
  }

  lemma OffIsFold(pton: Converter, m: string, n: string)
    requires Converts(pton)
    ensures AddrAgrees(pton, m, n, false, false) <==> Accepts(Fold(m), Fold(n))
  {
  }

  /** With blocks off a mask with a slash, a block among others, accepts no text without one. */
  lemma SlashNeeded(pton: Converter, m: string, n: string, cmp: bool)
    requires Converts(pton) && '/' in Fold(m) && '/' !in n
    ensures !AddrAgrees(pton, m, n, false, cmp)
  {
    var mu, nu := Fold(m), Fold(n);
    if Matches(mu, nu) {
      var i :| 0 <= i < |mu| && mu[i] == '/';
      assert mu == mu[..i] + ("/" + mu[i + 1..]);
      var k := MatchesSplit(mu[..i], "/" + mu[i + 1..], nu);
      var j := MatchesSplit("/", mu[i + 1..], nu[k..]);
      SlashOnly(nu[k..][..j]);
      assert nu[k] == '/';
      NoSlashAppears(n[k]);
    }
  }

  lemma SlashOnly(s: string)
    requires Matches("/", s)
    ensures s == "/"
  {
    PlainMask("/", s);
  }

  lemma NoSlashAppears(c: char)
    ensures RfcUpper(c) == '/' <==> c == '/'
  {
  }

  /** With blocks on, a block accepts exactly the users its user half accepts at addresses that both convert in one
      family and agree in as many bits as it says, at least one and at most all. */
  lemma BlockOverAddress(pton: Converter, x: string, a: string, p: string, y: string, b: string, cmp: bool)
    requires Converts(pton) && AllDigits(p) && '@' !in a + p + b && '/' !in b
    requires forall c | c in x + a + y + b :: RfcUpper(c) == c
    requires |x| + |a| + |p| + 2 < 324 && |y| + |b| + 1 < 324
    ensures var six := ':' in a || ':' in b;
      AddrAgrees(pton, x + "@" + (a + "/" + p), y + "@" + b, true, cmp) <==>
        && Accepts(x, y) && pton(six, a).Some? && pton(six, b).Some?
        && 1 <= Atoi(p) <= (if six then 128 else 32)
        && SamePrefix(pton(six, a).value, pton(six, b).value, Atoi(p))
  {
    hide AddrAgrees, Accepts, SamePrefix, Atoi, SlashOf, RfcUpper;
    DigitsFixed(p);
    assert RfcUpper('/') == '/' by { NoSlashAppears('/'); }
    SlashFound(a, p);
    NoSlash(b);
    PlainParts(pton, x, a + "/" + p, y, b, cmp);
  }

  lemma NoSlash(b: string)
    requires '/' !in b
    ensures SlashOf(b) < 0
  {
  }

  /** With blocks on, hosts that are both empty agree. */
  lemma EmptyHosts(pton: Converter, x: string, y: string, cmp: bool)
    requires Converts(pton) && |x| < 323 && |y| < 323
    ensures AddrAgrees(pton, x + "@", y + "@", true, cmp) <==> Accepts(Fold(x), Fold(y))
  {
    hide Matches, Last;
    EndsInAt(x);
    EndsInAt(y);
  }

  lemma EndsInAt(x: string)
    requires |x| < 323
    ensures var f := Fold(x + "@"); Last(f, '@') == |x| && f[..|x|] == Fold(x) && f[|x| + 1..] == ""
  {
    hide Last;
    var f := Fold(x + "@");
    assert f[|x|] == '@' && |f| == |x| + 1;
    assert f[..|x|] == Fold(x);
  }

  /** Where a block is written: an address, the last slash, and digits up to the end. */
  lemma WhereBlocks(s: string)
    ensures SlashOf(s) >= 0 <==> exists p :: 0 <= p < |s| - 1 && s[p] == '/' && forall i | p < i < |s| :: '0' <= s[i] <= '9'
    ensures SlashOf(s) >= 0 ==> s[SlashOf(s)] == '/' && forall i | SlashOf(s) < i < |s| :: '0' <= s[i] <= '9'
  {
    hide Last;
    var p := Last(s, '/');
    if p >= 0 {
      var d := s[p + 1..];
      assert forall i | 0 <= i < |d| :: d[i] == s[p + 1 + i];
      if AllDigits(d) {
        forall i | p < i < |s| ensures '0' <= s[i] <= '9' { assert s[i] == d[i - p - 1]; }
      }
    }
    if q :| 0 <= q < |s| - 1 && s[q] == '/' && forall i | q < i < |s| :: '0' <= s[i] <= '9' {
      assert p == q;
    }
  }
}
