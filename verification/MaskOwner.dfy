/** Does a mask made from an address accept that address where masks are used, halves, blocks and all? */
module MaskOwner {
  import opened Wire
  import opened Glob
  import opened MaskAddr
  import opened Cidr
  import opened AddrMatch
  import opened MaskCompare

  /** Folding without the limit of the buffer. */
  function FoldAll(s: string): (r: string)
    ensures |r| == |s| && forall i | 0 <= i < |s| :: r[i] == RfcUpper(s[i])
  {
    seq(|s|, i requires 0 <= i < |s| => RfcUpper(s[i]))
  }

  lemma FoldShort(s: string)
    requires |s| < UHOSTLEN
    ensures Fold(s) == FoldAll(s)
  {
  }

  lemma FoldJoins(x: string, y: string)
    ensures FoldAll(x + y) == FoldAll(x) + FoldAll(y)
  {
  }

  /** Folding both sides loses no match. */
  lemma {:induction false} FoldMatches(m: string, n: string)
    requires Matches(m, n)
    ensures Matches(FoldAll(m), FoldAll(n))
    decreases |m|
  {
    if m != "" {
      var i := |m| - 1;
      assert FoldAll(m)[..i] == FoldAll(m[..i]);
      if m[i] == '*' {
        var k :| 0 <= k <= |n| && Matches(m[..i], n[..k]);
        FoldMatches(m[..i], n[..k]);
        assert FoldAll(n)[..k] == FoldAll(n[..k]);
      } else {
        FoldMatches(m[..i], n[..|n| - 1]);
        assert FoldAll(n)[..|n| - 1] == FoldAll(n[..|n| - 1]);
      }
    }
  }

  /** Folding does not move an at sign, a slash or a digit. */
  lemma FoldKeepsMarks(c: char)
    ensures RfcUpper(c) == '@' <==> c == '@'
    ensures RfcUpper(c) == '/' <==> c == '/'
    ensures Digit(RfcUpper(c)) || Digit(c) ==> RfcUpper(c) == c
  {
  }

  lemma FoldKeepsSlash(s: string)
    ensures SlashOf(FoldAll(s)) == SlashOf(s)
  {
    hide RfcUpper, Last;
    var f := FoldAll(s);
    forall i | 0 <= i < |s| ensures (f[i] == '/' <==> s[i] == '/') && (Digit(f[i]) <==> Digit(s[i])) {
      FoldKeepsMarks(s[i]);
    }
    assert Last(f, '/') == Last(s, '/');
    var p := Last(s, '/');
    if p >= 0 {
      var d, e := f[p + 1..], s[p + 1..];
      assert forall i | 0 <= i < |d| :: d[i] == f[p + 1 + i] && e[i] == s[p + 1 + i];
      assert AllDigits(d) <==> AllDigits(e);
    }
  }

  lemma FoldKeepsAt(s: string)
    requires '@' !in s
    ensures '@' !in FoldAll(s)
  {
    forall c | c in FoldAll(s) ensures c != '@' {
      var i :| 0 <= i < |s| && FoldAll(s)[i] == c;
      FoldKeepsMarks(s[i]);
    }
  }

  // ----- when the host part of the mask reads as a block

  /** The host ends like a block, and the mask type keeps that end. */
  predicate KeepsBlock(h: string, typ: nat) {
    SlashOf(h) >= 0 && if Has(h, ':') then typ % 5 <= 2 else typ < 10
  }

  /** Hidden digits are no digits. */
  lemma {:induction false} HiddenNoDigit(h: string, single: bool)
    ensures forall c | c in HideDigits(h, single) :: !Digit(c)
  {
    if h != "" { HiddenNoDigit(h[..|h| - 1], single); }
  }

  lemma LastNotDigit(s: string)
    requires s != "" && !Digit(s[|s| - 1])
    ensures SlashOf(s) < 0
  {
    hide Last;
    var p := Last(s, '/');
    assert 0 <= p < |s| - 1 ==> s[p + 1..][|s| - p - 2] == s[|s| - 1];
  }

  lemma NoDigits(s: string)
    requires forall c | c in s :: !Digit(c)
    ensures SlashOf(s) < 0
  {
    if s != "" {
      assert s[|s| - 1] in s;
      LastNotDigit(s);
    }
  }

  lemma NumericNoSlash(h: string)
    requires Numeric(h)
    ensures SlashOf(h) < 0
  {
  }

  /** What follows a dot is a block exactly when the whole is: there is no dot in a prefix length. */
  lemma SuffixBlock(h: string, q: nat)
    requires q < |h| && h[q] == '.'
    ensures SlashOf("*" + h[q..]) >= 0 <==> SlashOf(h) >= 0
  {
    hide Last, AllDigits, SlashOf;
    var s, p := "*" + h[q..], Last(h, '/');
    SlashIs(s);
    SlashIs(h);
    if p > q {
      SlashBehind(h, q);
    } else {
      NoSlashBehind(h, q);
      if p >= 0 { DotInDigits(h[p + 1..], q - p - 1); }
    }
  }

  lemma SlashIs(s: string)
    ensures SlashOf(s) >= 0 <==> Last(s, '/') >= 0 && AllDigits(s[Last(s, '/') + 1..])
  {
    hide Last, AllDigits;
  }

  lemma SlashBehind(h: string, q: nat)
    requires q < |h| && Last(h, '/') > q
    ensures var s, p := "*" + h[q..], Last(h, '/');
      Last(s, '/') == p - q + 1 && s[p - q + 2..] == h[p + 1..]
  {
    hide Last;
    var s, p := "*" + h[q..], Last(h, '/');
    assert s[p - q + 1] == h[p];
    assert forall i | p - q + 1 < i < |s| :: s[i] == h[i + q - 1];
  }

  lemma NoSlashBehind(h: string, q: nat)
    requires q < |h| && h[q] == '.' && Last(h, '/') <= q
    ensures Last("*" + h[q..], '/') < 0
  {
    hide Last;
    var s := "*" + h[q..];
    forall i | 0 <= i < |s| ensures s[i] != '/' {
      if i > 0 { assert s[i] == h[i + q - 1]; }
    }
  }

  lemma DotInDigits(d: string, i: int)
    requires 0 <= i < |d| && d[i] == '.'
    ensures !AllDigits(d)
  {
  }

  lemma HostBlock(h: string, typ: nat)
    ensures SlashOf(HostMask(h, typ)) >= 0 <==> KeepsBlock(h, typ)
  {
    hide SlashOf, HideDigits, Last;
    var d := typ % 5;
    if Has(h, ':') && d > 2 {
      LastNotDigit(h[..Cut6(h)] + "*");
    } else if !Has(h, ':') && !Numeric(h) && typ >= 10 {
      HiddenNoDigit(h, typ < 20);
      NoDigits(HideDigits(h, typ < 20));
    } else if d > 2 && Has(h, '.') {
      if Numeric(h) {
        NumericNoSlash(h);
        LastNotDigit(h[..Last(h, '.')] + ".*");
      } else if Dots(h) >= 2 {
        SuffixIs(h);
      }
    } else if h == "" {
      LastNotDigit("*");
      EmptyNoSlash();
    }
    if Numeric(h) { NumericNoSlash(h); }
  }

  lemma EmptyNoSlash()
    ensures SlashOf("") < 0
  {
  }

  lemma SuffixIs(h: string)
    requires Has(h, '.')
    ensures SlashOf("*" + DomainSuffix(h)) >= 0 <==> SlashOf(h) >= 0
  {
    hide SlashOf, Dots;
    var first, last := First(h, '.', 0), Last(h, '.');
    assert h[last] == '.';
    var second := First(h, '.', first + 1);
    SuffixBlock(h, first);
    if second >= 0 { SuffixBlock(h, second); }
  }

  lemma HostNoAt(h: string, typ: nat)
    requires '@' !in h
    ensures '@' !in HostMask(h, typ)
  {
    hide DomainSuffix, Dots, Last, Cut6;
    HiddenNoAt(h, typ < 20);
    if Has(h, '.') { SuffixNoAt(h); }
    assert forall k: nat | k <= |h| :: forall c | c in h[..k] :: c in h;
  }

  lemma {:induction false} HiddenNoAt(h: string, single: bool)
    requires '@' !in h
    ensures '@' !in HideDigits(h, single)
  {
    if h != "" {
      assert h == h[..|h| - 1] + [h[|h| - 1]];
      HiddenNoAt(h[..|h| - 1], single);
    }
  }

  lemma SuffixNoAt(h: string)
    requires Has(h, '.') && '@' !in h
    ensures '@' !in DomainSuffix(h)
  {
  }

  // ----- the mask and its owner

  /** The conversion takes no text with a slash for an address. */
  ghost predicate NoSlashAddress(pton: Converter) {
    forall six, s :: '/' in s ==> pton(six, s).None?
  }

  lemma OwnerParts(s: string, typ: nat) returns (a: string, x: string, c: string, y: string)
    requires Bounds(s).0 >= 0 && '@' !in s[Bounds(s).1 + 1..]
    ensures MaskOf(s, typ) == a + "@" + c && s == x + "@" + y && y == s[Bounds(s).1 + 1..] && c == HostMask(y, typ)
    ensures Matches(a, x) && Matches(c, y) && a != "" && x != "" && '@' !in c && '@' !in y
  {
    hide Matches, HostMask, UserMask, Bounds;
    var (u, h) := Bounds(s);
    var nick, user := s[..u], s[u + 1..h];
    var n, b := NickMask(s, u, typ), UserMask(user, true, typ % 5);
    y := s[h + 1..];
    c := HostMask(y, typ);
    a, x := n + "!" + b, nick + "!" + user;
    NickCovers(n, nick);
    UserCovers(user, typ % 5);
    HostCovers(y, typ);
    Around(n, nick, b, user);
    HostNoAt(y, typ);
    assert s == x + "@" + y;
  }

  lemma NickCovers(n: string, nick: string)
    requires n == "*" || n == nick
    ensures Matches(n, nick)
  {
    StarMatches(nick);
    Reflexive(nick);
  }

  lemma Around(n: string, nick: string, b: string, user: string)
    requires Matches(n, nick) && Matches(b, user)
    ensures Matches(n + "!" + b, nick + "!" + user)
  {
    hide Matches;
    Reflexive("!");
    MatchesConcat(n, nick, "!", "!");
    MatchesConcat(n + "!", nick + "!", b, user);
  }

  lemma FoldedParts(x: string, y: string)
    requires |x + "@" + y| < UHOSTLEN && '@' !in y
    ensures var f := Fold(x + "@" + y);
      Last(f, '@') == |x| && f[..|x|] == FoldAll(x) && f[|x| + 1..] == FoldAll(y)
  {
    hide Last, Fold;
    FoldShort(x + "@" + y);
    FoldJoins(x + "@", y);
    FoldJoins(x, "@");
    FoldKeepsAt(y);
    assert FoldAll("@") == "@";
    LastHere(FoldAll(x), FoldAll(y));
  }

  /** A host that has a slash is no address. */
  lemma NeverInBlock(pton: Converter, r: string, h: string)
    requires Converts(pton) && NoSlashAddress(pton) && SlashOf(r) >= 0 && '/' in h
    ensures !HostAgrees(pton, r, h, false)
  {
  }

  lemma FoldedSlash(h: string)
    requires SlashOf(h) >= 0
    ensures '/' in FoldAll(h)
  {
    var p := Last(h, '/');
    FoldKeepsMarks(h[p]);
    assert FoldAll(h)[p] == '/';
  }

  /** A mask made from nick!user@host accepts it, through its halves, exactly when the host is not empty and the mask
      does not end like a block. */
  lemma OwnerAccepted(pton: Converter, s: string, typ: nat)
    requires Converts(pton) && NoSlashAddress(pton)
    requires Bounds(s).0 >= 0 && '@' !in s[Bounds(s).1 + 1..]
    requires |s| < UHOSTLEN && |MaskOf(s, typ)| < UHOSTLEN
    ensures var host := s[Bounds(s).1 + 1..];
      AddrAgrees(pton, MaskOf(s, typ), s, true, false) <==> host != "" && !KeepsBlock(host, typ)
  {
    hide Matches, MaskOf, Bounds, HostMask, Last, Fold, Converts, SlashOf, NoSlashAddress, HostAgrees;
    var a, x, c, y := OwnerParts(s, typ);
    FoldedParts(a, c);
    FoldedParts(x, y);
    FoldMatches(a, x);
    FoldMatches(c, y);
    HostBlock(y, typ);
    FoldKeepsSlash(c);
    var fc, fy := FoldAll(c), FoldAll(y);
    if y == "" { EmptyHost(typ); }
    if SlashOf(fc) < 0 {
      PlainHost(pton, fc, fy);
      if y != "" && c == "" { EmptyMask(y); }
    } else if y != "" {
      FoldedSlash(y);
      NeverInBlock(pton, fc, fy);
    }
  }

  lemma EmptyMask(y: string)
    requires y != ""
    ensures !Matches("", y)
  {
  }

  lemma EmptyHost(typ: nat)
    ensures HostMask("", typ) == "*" && FoldAll("*") == "*" && SlashOf("*") < 0
  {
  }
}
