/** Which characters count as equal, from their codes, and what that makes of masks, names and addresses. */
module Letters {
  import opened Glob
  import opened WildMatch
  import opened BindTable
  import opened Cidr
  import opened AddrMatch

  /** A capital of the alphabet and its small letter. */
  predicate CapitalAndSmall(c: char, d: char) {
    65 <= c as int <= 90 && d as int == c as int + 32
  }

  /** One of the other pairs: brackets and braces, backslash and bar, as in section 2.2 of RFC 1459, and caret and tilde,
      which the servers add. */
  predicate PunctuationPair(c: char, d: char) {
    91 <= c as int <= 94 && d as int == c as int + 32
  }

  predicate Twins(c: char, d: char) {
    c == d || CapitalAndSmall(c, d) || CapitalAndSmall(d, c)
  }

  predicate RfcTwins(c: char, d: char) {
    Twins(c, d) || PunctuationPair(c, d) || PunctuationPair(d, c)
  }

  lemma SameIsTwins(c: char, d: char)
    ensures Same(c, d) <==> Twins(c, d)
  {
  }

  lemma FoldIsTwins(c: char, d: char)
    ensures RfcUpper(c) == RfcUpper(d) <==> RfcTwins(c, d)
  {
  }

  /** The same text with letters in other cases. */
  predicate Recased(a: string, b: string) {
    |a| == |b| && forall i | 0 <= i < |a| :: Twins(a[i], b[i])
  }

  predicate RfcRecased(a: string, b: string) {
    |a| == |b| && forall i | 0 <= i < |a| :: RfcTwins(a[i], b[i])
  }

  // ----- the matcher

  lemma {:induction false} RecasedMatches(m: string, m': string, n: string, n': string)
    requires Recased(m, m') && Recased(n, n') && Matches(m, n)
    ensures Matches(m', n')
    decreases |m|
  {
    hide Same, Twins;
    if m != "" {
      var i, j := |m| - 1, |n| - 1;
      WildTwins(m[i], m'[i]);
      if m[i] == '*' {
        var k :| 0 <= k <= |n| && Matches(m[..i], n[..k]);
        RecasedMatches(m[..i], m'[..i], n[..k], n'[..k]);
      } else {
        RecasedMatches(m[..i], m'[..i], n[..j], n'[..j]);
        if m[i] != '?' { StillSame(m[i], m'[i], n[j], n'[j]); }
      }
    }
  }

  lemma WildTwins(c: char, d: char)
    requires Twins(c, d)
    ensures (c == '*' <==> d == '*') && (c == '?' <==> d == '?')
  {
  }

  lemma StillSame(c: char, c': char, d: char, d': char)
    requires Twins(c, c') && Twins(d, d') && Same(c, d)
    ensures Same(c', d')
  {
  }

  lemma {:induction false} RecasedExact(m: string, m': string)
    requires Recased(m, m')
    ensures Exact(m) == Exact(m')
  {
    hide Twins;
    if m != "" {
      var i := |m| - 1;
      WildTwins(m[i], m'[i]);
      RecasedExact(m[..i], m'[..i]);
    }
  }

  lemma RecasedBack(a: string, b: string)
    requires Recased(a, b)
    ensures Recased(b, a)
  {
  }

  /** Changing the case of any letters of mask and text changes neither the verdict nor the value. */
  lemma MatcherIgnoresCase(m: string, m': string, n: string, n': string)
    requires Recased(m, m') && Recased(n, n')
    ensures Accepts(m, n) <==> Accepts(m', n')
    ensures Exact(m) == Exact(m')
  {
    hide Matches;
    RecasedBack(m, m');
    RecasedBack(n, n');
    RecasedExact(m, m');
    if Matches(m, n) { RecasedMatches(m, m', n, n'); }
    if Matches(m', n') { RecasedMatches(m', m, n', n); }
  }

  /** The positions of a mask that hold neither wildcard. */
  function Plain(m: string): set<int> {
    set i | 0 <= i < |m| && m[i] != '*' && m[i] != '?'
  }

  lemma {:induction false} ExactCounts(m: string)
    ensures Exact(m) == |Plain(m)|
  {
    if m != "" {
      var n := |m| - 1;
      ExactCounts(m[..n]);
      if m[n] != '*' && m[n] != '?' {
        assert Plain(m) == Plain(m[..n]) + {n};
      } else {
        assert Plain(m) == Plain(m[..n]);
      }
    }
  }

  /** A mask without wildcards accepts its own text in any case, and nothing else. */
  lemma {:induction false} PlainMask(m: string, n: string)
    requires '*' !in m && '?' !in m
    ensures Matches(m, n) <==> Recased(m, n)
    decreases |m|
  {
    if m != "" {
      var i, j := |m| - 1, |n| - 1;
      assert m[i] in m && forall c | c in m[..i] :: c in m;
      if n != "" {
        PlainMask(m[..i], n[..j]);
        if Recased(m[..i], n[..j]) && Twins(m[i], n[j]) {
          forall k | 0 <= k < |m| ensures Twins(m[k], n[k]) { if k < i { assert Twins(m[..i][k], n[..j][k]); } }
        }
        if Recased(m, n) {
          forall k | 0 <= k < i ensures Twins(m[..i][k], n[..j][k]) { assert Twins(m[k], n[k]); }
        }
      }
    }
  }

  // ----- names and abbreviations

  lemma EqualFoldIsRecased(a: string, b: string)
    ensures EqualFold(a, b) <==> Recased(a, b)
  {
    assert |Folded(a)| == |a| && |Folded(b)| == |b|;
    if EqualFold(a, b) {
      forall i | 0 <= i < |a| ensures Twins(a[i], b[i]) {
        assert Folded(a)[i] == Folded(b)[i];
        SameIsTwins(a[i], b[i]);
      }
    }
    if Recased(a, b) {
      forall i | 0 <= i < |a| ensures Folded(a)[i] == Folded(b)[i] {
        SameIsTwins(a[i], b[i]);
      }
    }
  }

  lemma AbbreviatesIsPrefix(text: string, mask: string)
    ensures Abbreviates(text, mask) <==> |text| <= |mask| && forall i | 0 <= i < |text| :: Twins(text[i], mask[i])
  {
    if |text| <= |mask| { EqualFoldIsRecased(text, mask[..|text|]); }
  }

  // ----- addresses

  lemma SameFold(a: string, b: string)
    requires RfcRecased(a, b)
    ensures Fold(a) == Fold(b)
  {
    forall i | 0 <= i < |Fold(a)| ensures Fold(a)[i] == Fold(b)[i] { FoldIsTwins(a[i], b[i]); }
  }

  /** Masks and addresses are compared without regard to case, that of the four pairs of punctuation included. */
  lemma AddressesIgnoreCase(pton: Converter, m: string, m': string, n: string, n': string, blocks: bool, cmp: bool)
    requires Converts(pton) && RfcRecased(m, m') && RfcRecased(n, n')
    ensures AddrAgrees(pton, m, n, blocks, cmp) <==> AddrAgrees(pton, m', n', blocks, cmp)
  {
    SameFold(m, m');
    SameFold(n, n');
  }

  /** Only the first 323 characters count. */
  lemma OnlyTheStart(pton: Converter, m: string, n: string, x: string, y: string, blocks: bool, cmp: bool)
    requires Converts(pton) && |m| >= 323 && |n| >= 323
    ensures AddrAgrees(pton, m, n, blocks, cmp) <==> AddrAgrees(pton, m[..323] + x, n[..323] + y, blocks, cmp)
  {
    hide AddrAgrees;
    FoldStart(m, x);
    FoldStart(n, y);
    ByFold(pton, m, m[..323] + x, n, n[..323] + y, blocks, cmp);
  }

  lemma FoldStart(m: string, x: string)
    requires |m| >= 323
    ensures Fold(m[..323] + x) == Fold(m)
  {
    assert |Fold(m)| == 323;
  }

  lemma ByFold(pton: Converter, m: string, m': string, n: string, n': string, blocks: bool, cmp: bool)
    requires Converts(pton) && Fold(m) == Fold(m') && Fold(n) == Fold(n')
    ensures AddrAgrees(pton, m, n, blocks, cmp) <==> AddrAgrees(pton, m', n', blocks, cmp)
  {
    hide Fold;
  }
}
