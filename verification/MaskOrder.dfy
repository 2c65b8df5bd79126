/** When one mask matches another as a text, does it match everything the other matches? */
module MaskOrder {
  import opened Glob
  import opened WildMatch

  /** Whatever `n` accepts, a mask that accepts `n` itself accepts. */
  ghost predicate Sound(m: string) {
    forall n, s :: Accepts(m, n) && Accepts(n, s) ==> Accepts(m, s)
  }

  function Count(m: string, c: char): nat {
    if m == "" then 0 else Count(m[..|m| - 1], c) + if m[|m| - 1] == c then 1 else 0
  }

  predicate OnlyWild(m: string) {
    forall i | 0 <= i < |m| :: Wild(m[i])
  }

  /** Masks equivalent to "any nonempty text": stars around one question mark. */
  predicate AnyText(m: string) {
    OnlyWild(m) && Count(m, '?') == 1 && |m| > 1
  }

  lemma {:induction false} CountNone(m: string, c: char)
    ensures Count(m, c) == 0 <==> c !in m
  {
    if m != "" {
      assert m == m[..|m| - 1] + [m[|m| - 1]];
      CountNone(m[..|m| - 1], c);
    }
  }

  // ----- without a question mark, matching is transitive

  lemma {:induction false} Transitive(m: string, n: string, s: string)
    requires '?' !in m && Matches(m, n) && Matches(n, s)
    ensures Matches(m, s)
    decreases |m|
  {
    if m == "" {
    } else {
      var i := |m| - 1;
      if m[i] == '*' {
        var k :| 0 <= k <= |n| && Matches(m[..i], n[..k]);
        assert n == n[..k] + n[k..];
        var j := MatchesSplit(n[..k], n[k..], s);
        Transitive(m[..i], n[..k], s[..j]);
      } else {
        Transitive(m[..i], n[..|n| - 1], s[..|s| - 1]);
      }
    }
  }

  // ----- stars around one question mark

  lemma {:induction false} StarsMatch(m: string, s: string)
    requires forall i | 0 <= i < |m| :: m[i] == '*'
    ensures m != "" || s == "" ==> Matches(m, s)
    decreases |m|
  {
    if m != "" {
      StarsMatch(m[..|m| - 1], "");
      assert s[..0] == "";
    }
  }

  lemma {:induction false} CountOne(m: string) returns (k: nat)
    requires OnlyWild(m) && Count(m, '?') == 1
    ensures k < |m| && m[k] == '?' && forall i | 0 <= i < |m| && i != k :: m[i] == '*'
    decreases |m|
  {
    var n := |m| - 1;
    if m[n] == '?' {
      CountNone(m[..n], '?');
      forall i | 0 <= i < n ensures m[i] == '*' { assert m[i] in m[..n]; }
      return n;
    }
    k := CountOne(m[..n]);
    forall i | 0 <= i < |m| && i != k ensures m[i] == '*' {
      if i < n { assert m[..n][i] == m[i]; }
    }
  }

  lemma AnyCharacter(c: char)
    ensures Matches(['?'], [c])
  {
  }

  lemma AnyTextMatches(m: string, s: string)
    requires AnyText(m) && s != ""
    ensures Matches(m, s)
  {
    hide Matches, Count;
    var k := CountOne(m);
    var a, b := m[..k], m[k + 1..];
    var j := if a != "" then |s| - 1 else 0;
    StarsMatch(a, s[..j]);
    StarsMatch(b, s[j + 1..]);
    AnyCharacter(s[j]);
    MatchesConcat(a, s[..j], [m[k]], [s[j]]);
    MatchesConcat(a + [m[k]], s[..j] + [s[j]], b, s[j + 1..]);
    assert m == a + [m[k]] + b;
    assert s == s[..j] + [s[j]] + s[j + 1..];
  }

  // ----- every other mask with a question mark is fooled by its own starred form

  /** The mask with every question mark turned into a star. */
  function Starred(m: string): (n: string)
    ensures |n| == |m|
  {
    if m == "" then "" else Starred(m[..|m| - 1]) + [if m[|m| - 1] == '?' then '*' else m[|m| - 1]]
  }

  /** The characters of the mask that stand for themselves. */
  function Literals(m: string): string {
    if m == "" then "" else Literals(m[..|m| - 1]) + if Wild(m[|m| - 1]) then "" else [m[|m| - 1]]
  }

  lemma {:induction false} AcceptsStarred(m: string)
    ensures Matches(m, Starred(m))
  {
    if m != "" {
      var i := |m| - 1;
      AcceptsStarred(m[..i]);
      assert Starred(m)[..i] == Starred(m[..i]);
    }
  }

  lemma {:induction false} StarredAcceptsLiterals(m: string)
    ensures Matches(Starred(m), Literals(m))
  {
    if m != "" {
      var i := |m| - 1;
      StarredAcceptsLiterals(m[..i]);
      assert Starred(m)[..i] == Starred(m[..i]);
      if Wild(m[i]) {
        assert Literals(m)[..|Literals(m)|] == Literals(m[..i]);
      } else {
        assert Literals(m)[..|Literals(m)| - 1] == Literals(m[..i]);
      }
    }
  }

  /** A text is at least as long as the mask's characters other than stars. */
  lemma {:induction false} AtLeast(m: string, s: string)
    requires Matches(m, s)
    ensures |s| >= |Literals(m)| + Count(m, '?')
    ensures Count(m, '*') == 0 ==> |s| == |m|
    decreases |m|
  {
    if m != "" {
      var i := |m| - 1;
      var k := |s| - 1;
      if m[i] == '*' {
        k :| 0 <= k <= |s| && Matches(m[..i], s[..k]);
      }
      AtLeast(m[..i], s[..k]);
    }
  }

  lemma {:induction false} NoLiterals(m: string)
    ensures Literals(m) == "" <==> OnlyWild(m)
    ensures |m| == |Literals(m)| + Count(m, '?') + Count(m, '*')
  {
    if m != "" {
      var i := |m| - 1;
      NoLiterals(m[..i]);
      if OnlyWild(m[..i]) && Wild(m[i]) {
        forall j | 0 <= j < |m| ensures Wild(m[j]) { if j < i { assert m[..i][j] == m[j]; } }
      }
      if OnlyWild(m) {
        forall j | 0 <= j < i ensures Wild(m[..i][j]) { assert m[..i][j] == m[j]; }
      }
    }
  }

  lemma {:induction false} StarredIsStars(m: string)
    requires OnlyWild(m)
    ensures forall i | 0 <= i < |m| :: Starred(m)[i] == '*'
  {
    if m != "" {
      var n := |m| - 1;
      forall j | 0 <= j < n ensures Wild(m[..n][j]) { assert m[..n][j] == m[j]; }
      StarredIsStars(m[..n]);
      forall i | 0 <= i < |m| ensures Starred(m)[i] == '*' {
        if i < n { assert Starred(m)[i] == Starred(m[..n])[i]; }
      }
    }
  }

  lemma {:induction false} StarredAt(m: string, i: nat)
    requires i < |m|
    ensures Starred(m)[i] == if m[i] == '?' then '*' else m[i]
  {
    var n := |m| - 1;
    if i < n { StarredAt(m[..n], i); }
  }

  lemma {:induction false} LiteralsFrom(m: string)
    ensures |Literals(m)| <= |m| && forall c | c in Literals(m) :: c in m
  {
    if m != "" {
      LiteralsFrom(m[..|m| - 1]);
      assert m == m[..|m| - 1] + [m[|m| - 1]];
    }
  }

  /** The text that shows a mask unsound: the mask accepts its starred form, which accepts the text, but the mask
      does not. */
  lemma Fooled(m: string) returns (n: string, s: string)
    requires '?' in m && !AnyText(m)
    ensures Accepts(m, n) && Accepts(n, s) && !Accepts(m, s)
    ensures n == Starred(m) && |s| <= |m| + 1 && forall c | c in s :: c == 'X' || c in m
  {
    n := Starred(m);
    LiteralsFrom(m);
    AcceptsStarred(m);
    NoLiterals(m);
    CountNone(m, '?');
    if Literals(m) != "" {
      s := Literals(m);
      StarredAcceptsLiterals(m);
    } else {
      StarredIsStars(m);
      s := if Count(m, '?') > 1 then "X" else "XX";
      StarsMatch(n, s);
    }
    if Matches(m, s) { AtLeast(m, s); }
  }

  predicate Safe(m: string) {
    '?' !in m || AnyText(m)
  }

  /** Comparing masks by matching is sound for exactly the masks without a question mark and the masks that accept
      every nonempty text. */
  lemma MaskComparison(m: string)
    ensures Sound(m) <==> Safe(m)
  {
    if '?' !in m {
      forall n, s | Accepts(m, n) && Accepts(n, s) ensures Accepts(m, s) {
        Transitive(m, n, s);
      }
    } else if AnyText(m) {
      forall n, s | Accepts(m, n) && Accepts(n, s) ensures Accepts(m, s) {
        AnyTextMatches(m, s);
      }
    } else {
      var n, s := Fooled(m);
    }
  }
}
