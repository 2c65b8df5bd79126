/** Wildcard patterns: `*` for any text, `?` for any one character, anything else for itself in either case. */
module Glob {

  /** C's toupper in the C locale. */
  function Upper(c: char): char {
    if 'a' <= c <= 'z' then c - 'a' + 'A' else c
  }

  predicate Same(c: char, d: char) {
    Upper(c) == Upper(d)
  }

  /** `n` is in the language of the pattern `m`. */
  predicate Matches(m: string, n: string)
    decreases |m|
  {
    if m == "" then n == "" else
    var i := |m| - 1;
    if m[i] == '*' then exists k | 0 <= k <= |n| :: Matches(m[..i], n[..k])
    else n != "" && (m[i] == '?' || Same(m[i], n[|n| - 1])) && Matches(m[..i], n[..|n| - 1])
  }

  // ----- the same language, read as a way of cutting the text into one piece per pattern character

  predicate Piece(c: char, p: string) {
    c == '*' || (|p| == 1 && (c == '?' || Same(c, p[0])))
  }

  function Joined(pieces: seq<string>): string {
    if pieces == [] then "" else Joined(pieces[..|pieces| - 1]) + pieces[|pieces| - 1]
  }

  ghost predicate Cuts(m: string, n: string, pieces: seq<string>) {
    |pieces| == |m| && Joined(pieces) == n && forall i | 0 <= i < |m| :: Piece(m[i], pieces[i])
  }

  lemma {:induction false} CutFrom(m: string, n: string) returns (pieces: seq<string>)
    requires Matches(m, n)
    ensures Cuts(m, n, pieces)
    decreases |m|
  {
    if m == "" {
      return [];
    }
    var i := |m| - 1;
    var k := |n| - 1;
    if m[i] == '*' {
      k :| 0 <= k <= |n| && Matches(m[..i], n[..k]);
    }
    var front := CutFrom(m[..i], n[..k]);
    pieces := front + [n[k..]];
    assert pieces[..i] == front && n[..k] + n[k..] == n;
  }

  lemma {:induction false} CutMatches(m: string, n: string, pieces: seq<string>)
    requires Cuts(m, n, pieces)
    ensures Matches(m, n)
    decreases |m|
  {
    if m != "" {
      var i := |m| - 1;
      var front, last := Joined(pieces[..i]), pieces[i];
      assert n == front + last && n[..|front|] == front;
      assert Piece(m[i], last);
      CutMatches(m[..i], front, pieces[..i]);
    }
  }

  /** A text matches exactly when it can be cut into pieces that the pattern's characters stand for, in order. */
  lemma MatchesIsCutting(m: string, n: string)
    ensures Matches(m, n) <==> exists pieces :: Cuts(m, n, pieces)
  {
    if Matches(m, n) {
      var pieces := CutFrom(m, n);
    }
    if pieces :| Cuts(m, n, pieces) {
      CutMatches(m, n, pieces);
    }
  }

  // ----- concatenation

  lemma {:induction false} MatchesConcat(a: string, x: string, b: string, y: string)
    requires Matches(a, x) && Matches(b, y)
    ensures Matches(a + b, x + y)
    decreases |b|
  {
    if b == "" {
      assert a + b == a && x + y == x;
    } else {
      var i := |b| - 1;
      assert (a + b)[..|a + b| - 1] == a + b[..i] && (a + b)[|a + b| - 1] == b[i];
      var k := |y| - 1;
      if b[i] == '*' {
        k :| 0 <= k <= |y| && Matches(b[..i], y[..k]);
      }
      MatchesConcat(a, x, b[..i], y[..k]);
      assert (x + y)[..|x| + k] == x + y[..k];
    }
  }

  /** A text matching two patterns in a row splits between them. */
  lemma {:induction false} MatchesSplit(a: string, b: string, n: string) returns (k: nat)
    requires Matches(a + b, n)
    ensures k <= |n| && Matches(a, n[..k]) && Matches(b, n[k..])
    decreases |b|
  {
    if b == "" {
      assert a + b == a && n[..|n|] == n;
      return |n|;
    }
    var i := |b| - 1;
    assert (a + b)[..|a + b| - 1] == a + b[..i] && (a + b)[|a + b| - 1] == b[i];
    var j := |n| - 1;
    if b[i] == '*' {
      j :| 0 <= j <= |n| && Matches(a + b[..i], n[..j]);
    }
    k := MatchesSplit(a, b[..i], n[..j]);
    assert n[..j][..k] == n[..k];
    assert n[k..][..j - k] == n[..j][k..];
  }

  lemma {:induction false} Reflexive(m: string)
    ensures Matches(m, m)
  {
    if m != "" {
      var i := |m| - 1;
      Reflexive(m[..i]);
    }
  }

  lemma StarMatches(n: string)
    ensures Matches("*", n)
  {
    assert "*"[..0] == "" && n[..0] == "";
    assert Matches("", "");
  }

  /** Patterns are compared in either case. */
  predicate SameText(a: string, b: string) {
    |a| == |b| && forall i | 0 <= i < |a| :: Same(a[i], b[i])
  }

  lemma {:induction false} CaseBlind(m: string, a: string, b: string)
    requires SameText(a, b) && Matches(m, a)
    ensures Matches(m, b)
    decreases |m|
  {
    if m != "" {
      var i := |m| - 1;
      var k := |a| - 1;
      if m[i] == '*' {
        k :| 0 <= k <= |a| && Matches(m[..i], a[..k]);
      }
      CaseBlind(m[..i], a[..k], b[..k]);
    }
  }
}
