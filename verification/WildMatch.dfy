/** The generic matcher: right to left, greedy, falling back only on the last star it passed. */
module WildMatch {
  import opened Glob

  const NOMATCH := 0

  predicate Wild(c: char) {
    c == '*' || c == '?'
  }

  /** How many characters of the pattern stand for themselves. */
  function Exact(m: string): nat {
    if m == "" then 0 else Exact(m[..|m| - 1]) + if Wild(m[|m| - 1]) then 0 else 1
  }

  /** Empty patterns and empty texts never match. */
  predicate Accepts(m: string, n: string) {
    m != "" && n != "" && Matches(m, n)
  }

  // ----- prefixes of the pattern against prefixes of the text

  predicate At(m: string, n: string, i: int, j: int)
    requires 0 <= i <= |m| && 0 <= j <= |n|
  {
    Matches(m[..i], n[..j])
  }

  /** The pattern up to `i`, then a star, against the text up to `j`. */
  ghost predicate Loose(m: string, n: string, i: int, j: int)
    requires 0 <= i <= |m| && 0 <= j <= |n|
  {
    exists k | 0 <= k <= j :: At(m, n, i, k)
  }

  lemma AtStep(m: string, n: string, i: int, j: int)
    requires 0 < i <= |m| && 0 <= j <= |n|
    ensures m[i - 1] == '*' ==> (At(m, n, i, j) <==> Loose(m, n, i - 1, j))
    ensures m[i - 1] != '*' ==>
      (At(m, n, i, j) <==> j > 0 && (m[i - 1] == '?' || Same(m[i - 1], n[j - 1])) && At(m, n, i - 1, j - 1))
  {
    assert m[..i][..i - 1] == m[..i - 1];
    forall k | 0 <= k <= j ensures n[..j][..k] == n[..k] {}
    if At(m, n, i, j) && m[i - 1] == '*' {
      var k :| 0 <= k <= j && Matches(m[..i][..i - 1], n[..j][..k]);
      assert At(m, n, i - 1, k);
    }
    if m[i - 1] == '*' && Loose(m, n, i - 1, j) {
      var k :| 0 <= k <= j && At(m, n, i - 1, k);
      assert Matches(m[..i][..i - 1], n[..j][..k]);
    }
  }

  lemma AtStart(m: string, n: string, j: int)
    requires 0 <= j <= |n|
    ensures At(m, n, 0, j) <==> j == 0
  {
  }

  lemma AtWhole(m: string, n: string)
    ensures At(m, n, |m|, |n|) <==> Matches(m, n)
  {
    assert m[..|m|] == m && n[..|n|] == n;
  }

  lemma {:induction false} LooseSkip(m: string, n: string, i: int, i': int, j: int)
    requires 0 <= i' <= i <= |m| && 0 <= j <= |n|
    requires forall t | i' <= t < i :: m[t] == '*'
    ensures Loose(m, n, i, j) <==> Loose(m, n, i', j)
    decreases i
  {
    if i' < i {
      LooseSkip(m, n, i - 1, i', j);
      if Loose(m, n, i, j) {
        var k :| 0 <= k <= j && At(m, n, i, k);
        AtStep(m, n, i, k);
        var l :| 0 <= l <= k && At(m, n, i - 1, l);
        assert At(m, n, i - 1, l);
      }
      if Loose(m, n, i - 1, j) {
        var k :| 0 <= k <= j && At(m, n, i - 1, k);
        AtStep(m, n, i, k);
        assert At(m, n, i, k);
      }
    }
  }

  /** The part of the pattern from `i` to `i2` has no star and matches the text from `j` to `j2` character by
      character. */
  predicate Run(m: string, n: string, i: int, i2: int, j: int, j2: int)
  {
    && 0 <= i <= i2 <= |m| && 0 <= j <= j2 <= |n| && i2 - i == j2 - j
    && forall t | i <= t < i2 :: m[t] != '*' && (m[t] == '?' || Same(m[t], n[t + (j - i)]))
  }

  /** A star-free stretch eats exactly its own length: what is left matches whenever the whole did. */
  lemma {:induction false} StripRun(m: string, n: string, i: int, i2: int, k: int)
    requires 0 <= i <= i2 <= |m| && 0 <= k <= |n| && At(m, n, i2, k)
    requires forall t | i <= t < i2 :: m[t] != '*'
    ensures i2 - i <= k && At(m, n, i, k - (i2 - i))
    decreases i2
  {
    if i < i2 {
      AtStep(m, n, i2, k);
      StripRun(m, n, i, i2 - 1, k - 1);
    }
  }

  lemma {:induction false} AddRun(m: string, n: string, i: int, i2: int, j: int, j2: int)
    requires Run(m, n, i, i2, j, j2) && At(m, n, i, j)
    ensures At(m, n, i2, j2)
    decreases i2
  {
    if i < i2 {
      AddRun(m, n, i, i2 - 1, j, j2 - 1);
      AtStep(m, n, i2, j2);
    }
  }

  /** The exchange step: at the next star to the left it is enough to have matched the stretch as far right as
      possible. */
  lemma Exchange(m: string, n: string, i: int, i2: int, j: int, j2: int)
    requires 0 < i && Run(m, n, i, i2, j, j2) && m[i - 1] == '*'
    ensures Loose(m, n, i2, j2) <==> Loose(m, n, i - 1, j)
  {
    if Loose(m, n, i2, j2) {
      var k :| 0 <= k <= j2 && At(m, n, i2, k);
      StripRun(m, n, i, i2, k);
      AtStep(m, n, i, k - (i2 - i));
      var l :| 0 <= l <= k - (i2 - i) && At(m, n, i - 1, l);
      assert At(m, n, i - 1, l);
    }
    if Loose(m, n, i - 1, j) {
      AtStep(m, n, i, j);
      AddRun(m, n, i, i2, j, j2);
    }
  }

  /** Backing off: when the current attempt is lost, the text behind the star can only end further left. */
  lemma BackOff(m: string, n: string, i2: int, j2: int)
    requires 0 <= i2 <= |m| && 0 < j2 <= |n| && !At(m, n, i2, j2)
    ensures Loose(m, n, i2, j2) <==> Loose(m, n, i2, j2 - 1)
  {
  }

  /** The attempt under way is as good as what is left of it. */
  lemma Attempt(m: string, n: string, i: int, i2: int, j: int, j2: int)
    requires Run(m, n, i, i2, j, j2)
    ensures At(m, n, i2, j2) <==> At(m, n, i, j)
  {
    if At(m, n, i2, j2) {
      StripRun(m, n, i, i2, j2);
    }
    if At(m, n, i, j) {
      AddRun(m, n, i, i2, j, j2);
    }
  }

  lemma RunStep(m: string, n: string, i: int, i2: int, j: int, j2: int)
    requires Run(m, n, i, i2, j, j2) && 0 < i && 0 < j
    requires m[i - 1] != '*' && (m[i - 1] == '?' || Same(m[i - 1], n[j - 1]))
    ensures Run(m, n, i - 1, i2, j - 1, j2)
  {
  }

  // ----- counting

  function ExactFrom(m: string, i: int): nat
    requires 0 <= i <= |m|
    decreases |m| - i
  {
    if i == |m| then 0 else (if Wild(m[i]) then 0 else 1) + ExactFrom(m, i + 1)
  }

  lemma {:induction false} ExactParts(m: string, i: int)
    requires 0 <= i <= |m|
    ensures Exact(m) == Exact(m[..i]) + ExactFrom(m, i)
    decreases |m| - i
  {
    if i == |m| {
      assert m[..i] == m;
    } else {
      assert m[..i + 1][..i] == m[..i];
      ExactParts(m, i + 1);
    }
  }

  lemma {:induction false} StarsCountNothing(m: string, i: int, i2: int)
    requires 0 <= i <= i2 <= |m| && forall t | i <= t < i2 :: m[t] == '*'
    ensures ExactFrom(m, i) == ExactFrom(m, i2)
    decreases i2 - i
  {
    if i < i2 { StarsCountNothing(m, i + 1, i2); }
  }

  /** A number for each state of the loop: the fallback position first, then the pattern position. */
  function Rank(w: nat, l: int, mm: int): int {
    l * w + mm + 1
  }

  lemma {:induction false} Product(w: nat, l: int, l': int)
    requires l' <= l
    ensures l' * w <= l * w && (l' < l ==> l' * w + w <= l * w)
    decreases l - l'
  {
    if l' < l {
      Product(w, l - 1, l');
      assert l * w == (l - 1) * w + w;
    }
  }

  lemma RankFalls(w: nat, l: int, mm: int, l': int, mm': int)
    requires -1 <= mm <= w && -1 <= mm' && mm' + 1 < w && (l' < l || (l' == l && mm' < mm))
    ensures Rank(w, l', mm') < Rank(w, l, mm)
  {
    Product(w, l, l');
  }

  lemma RankBounds(m: string, n: string)
    ensures var w := |m| + 1;
      && Rank(w, |n|, |m| - 1) == (|m| + 1) * (|n| + 1) - 1
      && forall l: int, mm: int | 0 <= l && -1 <= mm :: Rank(w, l, mm) >= 0
  {
  }

  // ----- the state of the search

  /** `mm` and `nn` point at the last characters still to be matched. Without a star passed, what they leave decides.
      With one, the stretch between them and the fallback positions `lsm`, `lsn` has matched, and what decides is
      the pattern up to the fallback position followed by a star. */
  ghost predicate Searching(m: string, n: string, star: bool, mm: int, nn: int, lsm: int, lsn: int) {
    && -1 <= mm < |m| && -1 <= nn < |n|
    && if star then
         && 0 <= lsm < |m| && m[lsm] != '*' && Run(m, n, mm + 1, lsm + 1, nn + 1, lsn + 1)
         && (Matches(m, n) <==> Loose(m, n, lsm + 1, lsn + 1))
       else Matches(m, n) <==> At(m, n, mm + 1, nn + 1)
  }

  lemma Begin(m: string, n: string, lsm: int, lsn: int)
    ensures Searching(m, n, false, |m| - 1, |n| - 1, lsm, lsn)
  {
    AtWhole(m, n);
  }

  /** How far the pointers can be from the fallback position. */
  lemma Distance(m: string, n: string, mm: int, nn: int, lsm: int, lsn: int)
    requires Searching(m, n, true, mm, nn, lsm, lsn)
    ensures -1 <= mm <= lsm < |m| && -1 <= nn <= lsn < |n| && lsm - mm == lsn - nn && 0 <= lsm && m[lsm] != '*'
  {
  }

  lemma MatchOne(m: string, n: string, star: bool, mm: int, nn: int, lsm: int, lsn: int)
    requires Searching(m, n, star, mm, nn, lsm, lsn) && 0 <= mm && 0 <= nn
    requires m[mm] != '*' && (m[mm] == '?' || Same(m[mm], n[nn]))
    ensures Searching(m, n, star, mm - 1, nn - 1, lsm, lsn)
  {
    AtStep(m, n, mm + 1, nn + 1);
    if star { RunStep(m, n, mm + 1, lsm + 1, nn + 1, lsn + 1); }
  }

  /** A new star: from here only this one matters. */
  lemma PassStars(m: string, n: string, star: bool, from: int, mm: int, nn: int, lsm: int, lsn: int)
    requires Searching(m, n, star, from, nn, lsm, lsn)
    requires -1 <= mm < from && (forall t | mm < t <= from :: m[t] == '*') && (mm >= 0 ==> m[mm] != '*')
    ensures mm >= 0 ==> Searching(m, n, true, mm, nn, mm, nn)
    ensures mm < 0 ==> Matches(m, n)
  {
    AtStep(m, n, from + 1, nn + 1);
    LooseSkip(m, n, from, mm + 1, nn + 1);
    if star { Exchange(m, n, from + 1, lsm + 1, nn + 1, lsn + 1); }
    if mm < 0 { assert At(m, n, 0, 0) by { AtStart(m, n, 0); } }
  }

  predicate Stuck(m: string, n: string, mm: int, nn: int) {
    -1 <= mm < |m| && 0 <= nn < |n| && (mm < 0 || (!Wild(m[mm]) && !Same(m[mm], n[nn])))
  }

  lemma StuckFails(m: string, n: string, mm: int, nn: int)
    requires Stuck(m, n, mm, nn)
    ensures !At(m, n, mm + 1, nn + 1)
  {
  }

  /** The pointers are stuck: fall back, one character further left, or give up when nothing is left there. */
  lemma FallBack(m: string, n: string, mm: int, nn: int, lsm: int, lsn: int)
    requires Searching(m, n, true, mm, nn, lsm, lsn) && Stuck(m, n, mm, nn)
    ensures Searching(m, n, lsn > 0, lsm, lsn - 1, lsm, lsn - 1)
  {
    hide At, Matches;
    StuckFails(m, n, mm, nn);
    Attempt(m, n, mm + 1, lsm + 1, nn + 1, lsn + 1);
    BackOff(m, n, lsm + 1, lsn + 1);
    LooseEnd(m, n, lsm + 1);
  }

  lemma GiveUp(m: string, n: string, mm: int, nn: int, lsm: int, lsn: int)
    requires Searching(m, n, false, mm, nn, lsm, lsn) && Stuck(m, n, mm, nn)
    ensures !Matches(m, n)
  {
  }

  /** The text is used up: only stars may be left of the pattern. */
  lemma TextUsedUp(m: string, n: string, star: bool, mm: int, lsm: int, lsn: int)
    requires Searching(m, n, star, mm, -1, lsm, lsn)
    ensures Matches(m, n) <==> At(m, n, mm + 1, 0)
  {
    if star {
      if Loose(m, n, lsm + 1, lsn + 1) {
        var k :| 0 <= k <= lsn + 1 && At(m, n, lsm + 1, k);
        StripRun(m, n, mm + 1, lsm + 1, k);
      }
      if At(m, n, mm + 1, 0) {
        AddRun(m, n, mm + 1, lsm + 1, 0, lsn + 1);
      }
    }
  }

  lemma LooseEnd(m: string, n: string, i: int)
    requires 0 <= i <= |m|
    ensures Loose(m, n, i, 0) <==> At(m, n, i, 0)
  {
  }

  lemma OnlyStarsLeft(m: string, n: string, i: int)
    requires 0 <= i <= |m|
    ensures i == 0 ==> At(m, n, i, 0)
    ensures i > 0 && m[i - 1] == '*' ==> (At(m, n, i, 0) <==> At(m, n, i - 1, 0))
    ensures i > 0 && m[i - 1] != '*' ==> !At(m, n, i, 0)
  {
    if i > 0 {
      AtStep(m, n, i, 0);
      LooseEnd(m, n, i - 1);
    }
  }

  lemma ExactEnds(m: string)
    ensures ExactFrom(m, |m|) == 0 && ExactFrom(m, 0) == Exact(m)
  {
    ExactParts(m, 0);
  }

  lemma ExactStep(m: string, i: int)
    requires 0 <= i < |m|
    ensures ExactFrom(m, i) == (if Wild(m[i]) then 0 else 1) + ExactFrom(m, i + 1)
  {
  }

  /** `mm` and `nn` are the positions of the pattern and text pointers; `star` says whether a star has been passed,
      `lsm` and `lsn` are the fallback positions. The result is nonzero exactly for texts of the pattern's language
      (nothing matches when either is empty); it counts the pattern's exact characters; and the loop ends within
      (|m| + 1)(|n| + 1) rounds. */
  method WildMatch(m: string, n: string) returns (r: int, ghost rounds: int)
    ensures r != NOMATCH <==> Accepts(m, n)
    ensures r != NOMATCH ==> r == 1 + Exact(m)
    ensures rounds <= (|m| + 1) * (|n| + 1)
  {
    hide Matches, At, Searching, ExactFrom, Exact, Rank;
    rounds := 0;
    var match_, sofar := 1, 0;
    ghost var w, limit := |m| + 1, (|m| + 1) * (|n| + 1);
    RankBounds(m, n);
    if m == "" || n == "" {
      return NOMATCH, 0;
    }
    var mm, nn := |m| - 1, |n| - 1;
    var star, lsm, lsn := false, 0, 0;
    Begin(m, n, lsm, lsn);
    ExactEnds(m);
    while nn >= 0
      invariant -1 <= mm < |m| && -1 <= nn < |n|
      invariant Searching(m, n, star, mm, nn, lsm, lsn)
      invariant star ==> 0 <= lsm < |m| && match_ == 1 + ExactFrom(m, lsm + 1) && nn <= lsn
      invariant match_ + sofar == 1 + ExactFrom(m, mm + 1)
      invariant nn >= 0 ==> rounds + Rank(w, if star then lsn else |n|, mm) < limit
      invariant rounds <= limit
      decreases if nn >= 0 then 1 + Rank(w, if star then lsn else |n|, mm) else 0
    {
      ghost var l, from := if star then lsn else |n|, mm;
      rounds := rounds + 1;
      if mm < 0 {
        if !star {
          GiveUp(m, n, mm, nn, lsm, lsn);
          return NOMATCH, rounds;
        }
        Distance(m, n, mm, nn, lsm, lsn);
        FallBack(m, n, mm, nn, lsm, lsn);
        lsn := lsn - 1;
        nn, mm := lsn, lsm;
        if nn < 0 {
          star := false;
        }
        sofar := 0;
        RankFalls(w, l, from, lsn, mm);
      }
      if m[mm] == '*' {
        if star { Distance(m, n, mm, nn, lsm, lsn); }
        ghost var at := mm;
        mm := mm - 1;
        while mm >= 0 && m[mm] == '*'
          invariant -1 <= mm < at && forall t | mm < t <= at :: m[t] == '*'
        {
          mm := mm - 1;
        }
        PassStars(m, n, star, at, mm, nn, lsm, lsn);
        StarsCountNothing(m, mm + 1, at + 1);
        star, lsm, lsn := true, mm, nn;
        match_, sofar := match_ + sofar, 0;
        if mm < 0 {
          ExactEnds(m);
          return match_ + sofar, rounds;
        }
        RankFalls(w, l, from, lsn, mm);
        continue;
      }
      ExactStep(m, mm);
      if m[mm] == '?' {
        MatchOne(m, n, star, mm, nn, lsm, lsn);
        mm, nn := mm - 1, nn - 1;
        RankFalls(w, l, from, if star then lsn else |n|, mm);
        continue;
      }
      if Upper(m[mm]) == Upper(n[nn]) {
        MatchOne(m, n, star, mm, nn, lsm, lsn);
        mm, nn, sofar := mm - 1, nn - 1, sofar + 1;
        RankFalls(w, l, from, if star then lsn else |n|, mm);
        continue;
      }
      if star {
        Distance(m, n, mm, nn, lsm, lsn);
        FallBack(m, n, mm, nn, lsm, lsn);
        lsn := lsn - 1;
        nn, mm := lsn, lsm;
        if nn < 0 {
          star := false;
        }
        sofar := 0;
        RankFalls(w, l, from, lsn, mm);
        continue;
      }
      GiveUp(m, n, mm, nn, lsm, lsn);
      return NOMATCH, rounds;
    }
    TextUsedUp(m, n, star, mm, lsm, lsn);
    while mm >= 0 && m[mm] == '*'
      invariant -1 <= mm < |m|
      invariant Matches(m, n) <==> At(m, n, mm + 1, 0)
      invariant match_ + sofar == 1 + ExactFrom(m, mm + 1)
    {
      OnlyStarsLeft(m, n, mm + 1);
      StarsCountNothing(m, mm, mm + 1);
      mm := mm - 1;
    }
    OnlyStarsLeft(m, n, mm + 1);
    if mm >= 0 {
      return NOMATCH, rounds;
    }
    return match_ + sofar, rounds;
  }
}
