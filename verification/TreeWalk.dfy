/** The tree display: a walk over the table without a stack of siblings, and what it shows. */
module TreeWalk {
  import opened BotTree

  /** A displayed line: how deep, and which bot. */
  datatype Line = Line(level: nat, bot: Bot)

  /** The subtrees of `up`'s children among the entries from `i` on, each child before its own subtree,
      children in list order. */
  function Preorder(bots: seq<Bot>, up: Uplink, i: nat, level: nat): seq<Line>
    requires i <= |bots|
    decreases |bots| - i
  {
    if i == |bots| then []
    else if bots[i].uplink == up then
      [Line(level, bots[i])] + Preorder(bots, Node(bots[i].name), i + 1, level + 1) + Preorder(bots, up, i + 1, level)
    else Preorder(bots, up, i + 1, level)
  }

  /** How many links away a node is. */
  function Depth(bots: seq<Bot>, up: Uplink): nat {
    if bots == [] || !up.Node? then 0 else
    var n := |bots| - 1;
    if bots[n].name == up.name then 1 + Depth(bots[..n], bots[n].uplink) else Depth(bots[..n], up)
  }

  function DepthOf(bots: seq<Bot>, b: Bot): nat {
    Depth(bots, Node(b.name))
  }

  function SumLevels(lines: seq<Line>): nat {
    if lines == [] then 0 else lines[|lines| - 1].level + SumLevels(lines[..|lines| - 1])
  }

  function SumDepths(bots: seq<Bot>, some: seq<Bot>): nat {
    if some == [] then 0 else DepthOf(bots, some[0]) + SumDepths(bots, some[1..])
  }

  // ----- the preorder holds every bot once, at its depth

  function Bag(lines: seq<Line>): multiset<Bot> {
    if lines == [] then multiset{} else multiset{lines[0].bot} + Bag(lines[1..])
  }

  lemma {:induction false} BagConcat(a: seq<Line>, b: seq<Line>)
    ensures Bag(a + b) == Bag(a) + Bag(b)
  {
    if a == [] {
      assert a + b == b;
    } else {
      assert (a + b)[1..] == a[1..] + b;
      BagConcat(a[1..], b);
    }
  }

  lemma BagNode(x: Line, a: seq<Line>, b: seq<Line>)
    ensures Bag([x] + a + b) == multiset{x.bot} + Bag(a) + Bag(b)
  {
    BagConcat([x] + a, b);
    assert ([x] + a)[1..] == a;
  }

  lemma {:induction false} BagMember(lines: seq<Line>, i: nat)
    requires i < |lines|
    ensures lines[i].bot in Bag(lines)
  {
    if i > 0 { BagMember(lines[1..], i - 1); }
  }

  /** How often the preorder shows a bot that has just been appended: once for each time it shows the parent,
      and once more if it is a child of the node asked about. */
  function Shows(bots: seq<Bot>, up: Uplink, i: nat, level: nat, b: Bot): nat
    requires i <= |bots|
  {
    (if b.uplink == up then 1 else 0) +
    (if b.uplink.Node? && Listed(bots, b.uplink.name)
     then Bag(Preorder(bots, up, i, level))[Find(bots, b.uplink.name).value] else 0)
  }

  lemma {:induction false} PreorderSnoc(me: Name, bots: seq<Bot>, up: Uplink, i: nat, level: nat, b: Bot, y: Bot)
    requires WellFormed(me, bots) && Fits(me, bots, b) && i <= |bots|
    ensures Bag(Preorder(bots + [b], up, i, level))[y] ==
      (if y == b then Shows(bots, up, i, level, b) else Bag(Preorder(bots, up, i, level))[y])
    decreases |bots| - i
  {
    hide WellFormed, Find, Preorder, Bag;
    if i == |bots| {
      PreorderLast(bots, up, level, b);
    } else {
      PreorderSplit(bots, up, i, level);
      PreorderSplit(bots + [b], up, i, level);
      PreorderSnoc(me, bots, up, i + 1, level, b, y);
      PreorderSnoc(me, bots, Node(bots[i].name), i + 1, level + 1, b, y);
      ParentDiffers(me, bots, i, b);
    }
  }

  lemma PreorderLast(bots: seq<Bot>, up: Uplink, level: nat, b: Bot)
    ensures Bag(Preorder(bots, up, |bots|, level)) == multiset{}
    ensures Bag(Preorder(bots + [b], up, |bots|, level)) == if b.uplink == up then multiset{b} else multiset{}
  {
  }

  lemma PreorderSplit(bots: seq<Bot>, up: Uplink, i: nat, level: nat)
    requires i < |bots|
    ensures Bag(Preorder(bots, up, i, level)) == Bag(Preorder(bots, up, i + 1, level)) +
      if bots[i].uplink == up then multiset{bots[i]} + Bag(Preorder(bots, Node(bots[i].name), i + 1, level + 1))
      else multiset{}
  {
    BagNode(Line(level, bots[i]), Preorder(bots, Node(bots[i].name), i + 1, level + 1), Preorder(bots, up, i + 1, level));
  }

  lemma ParentDiffers(me: Name, bots: seq<Bot>, i: nat, b: Bot)
    requires WellFormed(me, bots) && Fits(me, bots, b) && i < |bots|
    ensures bots[i] != b && bots[i].uplink != Node(bots[i].name)
    ensures b.uplink.Node? ==> (Find(bots, b.uplink.name) == Some(bots[i]) <==> b.uplink == Node(bots[i].name))
  {
    EntryFits(me, bots, i);
  }

  /** The display order of the whole table. */
  function WholeTree(bots: seq<Bot>): seq<Line> {
    Preorder(bots, Me, 0, 1)
  }

  lemma {:induction false} EveryBotOnce(me: Name, bots: seq<Bot>)
    requires WellFormed(me, bots)
    ensures Bag(WholeTree(bots)) == multiset(bots)
  {
    if bots != [] {
      var n := |bots| - 1;
      var init, last := bots[..n], bots[n];
      assert bots == init + [last];
      EveryBotOnce(me, init);
      OnceEach(me, init);
      assert last !in init;
      assert Shows(init, Me, 0, 1, last) == 1;
      assert multiset(bots) == multiset(init) + multiset{last};
      forall y ensures Bag(WholeTree(bots))[y] == multiset(bots)[y] {
        PreorderSnoc(me, init, Me, 0, 1, last, y);
      }
    }
  }

  lemma {:induction false} OnceEach(me: Name, bots: seq<Bot>)
    requires WellFormed(me, bots)
    ensures forall b | b in bots :: multiset(bots)[b] == 1
  {
    if bots != [] {
      var n := |bots| - 1;
      assert bots == bots[..n] + [bots[n]];
      OnceEach(me, bots[..n]);
      assert bots[n] !in bots[..n];
    }
  }

  lemma {:induction false} DepthStep(me: Name, bots: seq<Bot>, i: nat)
    requires WellFormed(me, bots) && i < |bots|
    ensures DepthOf(bots, bots[i]) == 1 + Depth(bots, bots[i].uplink)
  {
    hide Depth, WellFormed, Find;
    var n := |bots| - 1;
    EntryFits(me, bots, n);
    DepthLast(bots, bots[i].uplink);
    DepthLast(bots, Node(bots[i].name));
    if i < n {
      WellFormedPrefix(me, bots, n);
      DepthStep(me, bots[..n], i);
      NamesDiffer(me, bots, i, n);
      if bots[i].uplink == Node(bots[n].name) { ParentEarlier(me, bots, n, i); }
    } else if bots[n].uplink == Node(bots[n].name) {
      OwnParent(me, bots, n);
    }
  }

  lemma DepthLast(bots: seq<Bot>, up: Uplink)
    requires bots != []
    ensures var n := |bots| - 1;
      Depth(bots, up) == if !up.Node? then 0
                         else if bots[n].name == up.name then 1 + Depth(bots[..n], bots[n].uplink)
                         else Depth(bots[..n], up)
    ensures !up.Node? ==> Depth(bots[..|bots| - 1], up) == 0
  {
  }

  /** No bot is its own parent. */
  lemma OwnParent(me: Name, bots: seq<Bot>, n: nat)
    requires WellFormed(me, bots) && n < |bots|
    ensures bots[n].uplink != Node(bots[n].name)
  {
    EntryFits(me, bots, n);
  }

  /** Every line of a preorder shows its bot at its own depth, and only listed bots are shown. */
  lemma {:induction false} LevelsAreDepths(me: Name, bots: seq<Bot>, up: Uplink, i: nat, level: nat)
    requires WellFormed(me, bots) && i <= |bots| && level == Depth(bots, up) + 1
    ensures forall x | x in Preorder(bots, up, i, level) :: x.level == DepthOf(bots, x.bot) && x.bot in bots
    decreases |bots| - i
  {
    hide WellFormed, Depth;
    if i < |bots| {
      LevelsAreDepths(me, bots, up, i + 1, level);
      if bots[i].uplink == up {
        DepthStep(me, bots, i);
        LevelsAreDepths(me, bots, Node(bots[i].name), i + 1, level + 1);
      }
    }
  }

  lemma {:induction false} SumOfSlice(bots: seq<Bot>, some: seq<Bot>, j: nat)
    requires j < |some|
    ensures SumDepths(bots, some) == DepthOf(bots, some[j]) + SumDepths(bots, some[..j] + some[j + 1..])
  {
    if j == 0 {
      assert some[..0] + some[1..] == some[1..];
    } else {
      SumOfSlice(bots, some[1..], j - 1);
      var cut := some[..j] + some[j + 1..];
      assert cut[1..] == some[1..][..j - 1] + some[1..][j..];
    }
  }

  lemma BagNothing(lines: seq<Line>)
    ensures lines == [] ==> Bag(lines) == multiset{}
  {
  }

  lemma CutMultiset(some: seq<Bot>, j: nat)
    requires j < |some|
    ensures multiset(some) == multiset(some[..j] + some[j + 1..]) + multiset{some[j]}
  {
    assert some == some[..j] + ([some[j]] + some[j + 1..]);
  }

  lemma SumOfNothing(bots: seq<Bot>)
    ensures SumLevels([]) == 0 && SumDepths(bots, []) == 0
  {
  }

  /** Lines that show each of `some` once, at its depth, sum up to the sum of their depths. */
  lemma {:induction false} LevelSum(bots: seq<Bot>, lines: seq<Line>, some: seq<Bot>)
    requires Bag(lines) == multiset(some)
    requires forall x | x in lines :: x.level == DepthOf(bots, x.bot)
    ensures SumLevels(lines) == SumDepths(bots, some)
    decreases |lines|
  {
    hide Depth, Bag, SumDepths, SumLevels, DepthOf;
    SumOfNothing(bots);
    BagNothing(lines);
    if lines == [] {
      assert |multiset(some)| == |some|;
    } else {
      var n := |lines| - 1;
      var x := lines[n];
      assert lines == lines[..n] + [x];
      SumSnoc(lines[..n], x);
      BagConcat(lines[..n], [x]);
      BagNode(x, [], []);
      BagNothing([]);
      assert [x] + [] + [] == [x];
      assert x.bot in multiset(some);
      var j :| 0 <= j < |some| && some[j] == x.bot;
      CutMultiset(some, j);
      assert Bag(lines[..n]) == (Bag(lines[..n]) + multiset{x.bot}) - multiset{x.bot};
      assert multiset(some[..j] + some[j + 1..]) == multiset(some) - multiset{x.bot};
      SumOfSlice(bots, some, j);
      LevelSum(bots, lines[..n], some[..j] + some[j + 1..]);
    }
  }

  /** The sum of all depths, as the walk accumulates it. */
  lemma WholeTreeSum(me: Name, bots: seq<Bot>)
    requires WellFormed(me, bots)
    ensures SumLevels(WholeTree(bots)) == SumDepths(bots, bots)
    ensures forall x | x in WholeTree(bots) :: x.level == DepthOf(bots, x.bot) && x.bot in bots
    ensures forall b | b in bots :: Line(DepthOf(bots, b), b) in WholeTree(bots)
  {
    EveryBotOnce(me, bots);
    LevelsAreDepths(me, bots, Me, 0, 1);
    LevelSum(bots, WholeTree(bots), bots);
    forall b | b in bots ensures Line(DepthOf(bots, b), b) in WholeTree(bots) {
      assert b in multiset(bots);
      BagSource(WholeTree(bots), b);
    }
  }

  lemma {:induction false} BagSource(lines: seq<Line>, b: Bot)
    requires b in Bag(lines)
    ensures exists i | 0 <= i < |lines| :: lines[i].bot == b
  {
    if lines[0].bot != b {
      BagSource(lines[1..], b);
      var i :| 0 <= i < |lines[1..]| && lines[1..][i].bot == b;
      assert lines[i + 1].bot == b;
    }
  }

  // ----- the walk

  const MAXLEVEL := 20

  datatype Outcome = NoBots | Complete | TooComplex | TreeError

  /** The node a path of positions leads to. */
  function End(bots: seq<Bot>, path: seq<int>): Uplink
    requires forall k | 0 <= k < |path| :: 0 <= path[k] < |bots|
  {
    if path == [] then Me else Node(bots[path[|path| - 1]].name)
  }

  /** A chain of positions from a direct bot downwards. */
  predicate Descends(bots: seq<Bot>, path: seq<int>)
  {
    && (forall k | 0 <= k < |path| :: 0 <= path[k] < |bots|)
    && (path != [] ==>
          Descends(bots, path[..|path| - 1]) && bots[path[|path| - 1]].uplink == End(bots, path[..|path| - 1]))
  }

  /** What is still to be shown once the subtree at the end of the path is done: later siblings of the last
      node with their subtrees, then the same one level up. */
  function Rest(bots: seq<Bot>, path: seq<int>): seq<Line>
    requires Descends(bots, path)
  {
    if path == [] then [] else
    var n := |path| - 1;
    Preorder(bots, End(bots, path[..n]), path[n] + 1, n + 1) + Rest(bots, path[..n])
  }

  lemma DescendsSnoc(bots: seq<Bot>, path: seq<int>, j: int)
    requires Descends(bots, path) && 0 <= j < |bots| && bots[j].uplink == End(bots, path)
    ensures Descends(bots, path + [j]) && End(bots, path + [j]) == Node(bots[j].name)
  {
  }

  lemma PathSnoc(bots: seq<Bot>, path: seq<int>, j: int)
    requires Descends(bots, path) && 0 <= j < |bots| && bots[j].uplink == End(bots, path)
    ensures Descends(bots, path + [j]) && End(bots, path + [j]) == Node(bots[j].name)
    ensures Rest(bots, path + [j]) == Preorder(bots, End(bots, path), j + 1, |path| + 1) + Rest(bots, path)
  {
    hide Preorder, Descends;
    DescendsSnoc(bots, path, j);
    var p := path + [j];
    assert p[..|p| - 1] == path && p[|p| - 1] == j;
  }

  lemma {:induction false} DepthOfEnd(me: Name, bots: seq<Bot>, path: seq<int>)
    requires WellFormed(me, bots) && Descends(bots, path)
    ensures Depth(bots, End(bots, path)) == |path|
  {
    if path != [] {
      DepthOfEnd(me, bots, path[..|path| - 1]);
      DepthStep(me, bots, path[|path| - 1]);
    }
  }

  /** Entries that are not children contribute nothing. */
  lemma {:induction false} SkipTo(bots: seq<Bot>, up: Uplink, i: nat, j: nat, level: nat)
    requires i <= j <= |bots| && forall k | i <= k < j :: bots[k].uplink != up
    ensures Preorder(bots, up, i, level) == Preorder(bots, up, j, level)
    decreases j - i
  {
    if i < j { SkipTo(bots, up, i + 1, j, level); }
  }

  /** A node's children all stand after it. */
  lemma NoneBefore(me: Name, bots: seq<Bot>, i: nat, level: nat)
    requires WellFormed(me, bots) && i < |bots|
    ensures Preorder(bots, Node(bots[i].name), 0, level) == Preorder(bots, Node(bots[i].name), i + 1, level)
  {
    forall k | 0 <= k < i + 1 ensures bots[k].uplink != Node(bots[i].name) {
      if bots[k].uplink == Node(bots[i].name) { ParentEarlier(me, bots, i, k); }
    }
    SkipTo(bots, Node(bots[i].name), 0, i + 1, level);
  }

  lemma ShowChild(me: Name, bots: seq<Bot>, up: Uplink, i: nat, j: nat, level: nat)
    requires WellFormed(me, bots) && i <= j < |bots| && bots[j].uplink == up
    requires forall k | i <= k < j :: bots[k].uplink != up
    ensures Preorder(bots, up, i, level) ==
      [Line(level, bots[j])] + Preorder(bots, Node(bots[j].name), 0, level + 1) + Preorder(bots, up, j + 1, level)
  {
    SkipTo(bots, up, i, j, level);
    NoneBefore(me, bots, j, level + 1);
  }

  /** How many children a node has. */
  method CountChildren(bots: seq<Bot>, this_: Uplink) returns (cnt: int)
    ensures cnt == 0 <==> forall k | 0 <= k < |bots| :: bots[k].uplink != this_
    ensures cnt >= 0
  {
    cnt := 0;
    var i := 0;
    while i < |bots|
      invariant 0 <= i <= |bots| && cnt >= 0
      invariant cnt == 0 <==> forall k | 0 <= k < i :: bots[k].uplink != this_
    {
      if bots[i].uplink == this_ {
        cnt := cnt + 1;
      }
      i := i + 1;
    }
  }

  /** The first child: the scan stops when the line it builds is no longer empty. */
  method FirstChild(bots: seq<Bot>, this_: Uplink) returns (j: int)
    requires exists k | 0 <= k < |bots| :: bots[k].uplink == this_
    ensures 0 <= j < |bots| && bots[j].uplink == this_ && forall k | 0 <= k < j :: bots[k].uplink != this_
  {
    j := 0;
    while bots[j].uplink != this_
      invariant 0 <= j < |bots| && forall k | 0 <= k < j :: bots[k].uplink != this_
      decreases |bots| - j
    {
      j := j + 1;
    }
  }

  /** The siblings after the bot at `self`: how many, and the first. `ok` turns on when the scan passes the bot. */
  method LaterSiblings(me: Name, bots: seq<Bot>, up: Uplink, this_: Uplink, ghost self: int) returns (cnt: int, first: int)
    requires WellFormed(me, bots) && 0 <= self < |bots| && bots[self].uplink == up && this_ == Node(bots[self].name)
    ensures cnt >= 0
    ensures cnt == 0 ==> forall k | self < k < |bots| :: bots[k].uplink != up
    ensures cnt > 0 ==> self < first < |bots| && bots[first].uplink == up && forall k | self < k < first :: bots[k].uplink != up
  {
    hide WellFormed;
    cnt, first := 0, 0;
    var ok := false;
    var i := 0;
    while i < |bots|
      invariant 0 <= i <= |bots| && cnt >= 0
      invariant ok <==> self < i
      invariant !ok ==> cnt == 0
      invariant cnt == 0 ==> forall k | self < k < i :: bots[k].uplink != up
      invariant cnt > 0 ==> self < first < i && bots[first].uplink == up && forall k | self < k < first :: bots[k].uplink != up
    {
      if i < self { NamesDiffer(me, bots, i, self); }
      if self < i { NamesDiffer(me, bots, self, i); }
      if bots[i].uplink == up {
        if this_ == Node(bots[i].name) {
          ok := true;
        } else if ok {
          cnt := cnt + 1;
          if cnt == 1 {
            first := i;
          }
        }
      }
      i := i + 1;
    }
  }

  lemma SumSnoc(lines: seq<Line>, x: Line)
    ensures SumLevels(lines + [x]) == SumLevels(lines) + x.level
  {
  }

  lemma FirstIsDirect(me: Name, bots: seq<Bot>)
    requires WellFormed(me, bots) && bots != []
    ensures bots[0].uplink == Me
  {
  }

  /** Where the walk stands: `path` is the chain it came down, `last` remembers the chain's nodes but the end. */
  ghost predicate Standing(bots: seq<Bot>, path: seq<int>, last: seq<Uplink>, this_: Uplink) {
    && |last| == MAXLEVEL && |path| <= MAXLEVEL
    && Descends(bots, path)
    && End(bots, path) == this_
    && forall k | 0 <= k < |path| :: last[k] == End(bots, path[..k])
  }

  lemma StepDown(bots: seq<Bot>, path: seq<int>, last: seq<Uplink>, this_: Uplink, j: int)
    requires Standing(bots, path, last, this_) && |path| < MAXLEVEL
    requires 0 <= j < |bots| && bots[j].uplink == this_
    ensures Standing(bots, path + [j], last[|path| := this_], Node(bots[j].name))
  {
  }

  lemma StepUp(bots: seq<Bot>, path: seq<int>, last: seq<Uplink>, this_: Uplink)
    requires Standing(bots, path, last, this_) && path != []
    ensures var up := path[..|path| - 1];
      && Standing(bots, up, last, last[|path| - 1])
      && Descends(bots, up)
      && 0 <= path[|path| - 1] < |bots|
      && bots[path[|path| - 1]].uplink == last[|path| - 1]
      && this_ == Node(bots[path[|path| - 1]].name)
  {
    var up := path[..|path| - 1];
    forall k | 0 <= k < |up| ensures last[k] == End(bots, up[..k]) {
      assert up[..k] == path[..k];
    }
  }

  /** Moving sideways: the finished end of the path is replaced by its next sibling. */
  lemma StepAside(bots: seq<Bot>, path: seq<int>, last: seq<Uplink>, this_: Uplink, j: int)
    requires Standing(bots, path, last, this_) && path != []
    requires 0 <= j < |bots| && bots[j].uplink == last[|path| - 1]
    ensures Standing(bots, path[..|path| - 1] + [j], last, Node(bots[j].name))
  {
  }

  /** What remains to be shown at the end of a path, subtree included. */
  function Todo(bots: seq<Bot>, path: seq<int>): seq<Line>
    requires Descends(bots, path)
  {
    Preorder(bots, End(bots, path), 0, |path| + 1) + Rest(bots, path)
  }

  /** Going down to the first child shows one line of what remains. */
  lemma GoDown(me: Name, bots: seq<Bot>, path: seq<int>, last: seq<Uplink>, this_: Uplink, j: int)
    requires WellFormed(me, bots) && Standing(bots, path, last, this_) && Descends(bots, path) && |path| < MAXLEVEL
    requires 0 <= j < |bots| && bots[j].uplink == this_ && forall k | 0 <= k < j :: bots[k].uplink != this_
    ensures Standing(bots, path + [j], last[|path| := this_], Node(bots[j].name)) && Descends(bots, path + [j])
    ensures Todo(bots, path) == [Line(|path| + 1, bots[j])] + Todo(bots, path + [j])
  {
    hide WellFormed, Preorder, Rest, Descends, Standing;
    AtEnd(bots, path, last, this_);
    StepDown(bots, path, last, this_, j);
    PathSnoc(bots, path, j);
    DownLines(me, bots, path, this_, j);
  }

  lemma AtEnd(bots: seq<Bot>, path: seq<int>, last: seq<Uplink>, this_: Uplink)
    requires Standing(bots, path, last, this_)
    ensures |path| <= |last| && Descends(bots, path) && End(bots, path) == this_
  {
  }

  lemma Regroup<T>(x: T, a: seq<T>, b: seq<T>, r: seq<T>)
    ensures ([x] + a + b) + r == [x] + (a + (b + r))
  {
  }

  lemma DownLines(me: Name, bots: seq<Bot>, path: seq<int>, this_: Uplink, j: int)
    requires WellFormed(me, bots) && Descends(bots, path) && Descends(bots, path + [j]) && End(bots, path) == this_
    requires 0 <= j < |bots| && bots[j].uplink == this_ && forall k | 0 <= k < j :: bots[k].uplink != this_
    ensures Todo(bots, path) == [Line(|path| + 1, bots[j])] + Todo(bots, path + [j])
  {
    hide WellFormed, Preorder, Rest, Descends;
    ShowChild(me, bots, this_, 0, j, |path| + 1);
    PathSnoc(bots, path, j);
    Regroup(Line(|path| + 1, bots[j]), Preorder(bots, Node(bots[j].name), 0, |path| + 2),
            Preorder(bots, this_, j + 1, |path| + 1), Rest(bots, path));
  }

  /** A node without children is done. */
  lemma NothingBelow(bots: seq<Bot>, path: seq<int>, last: seq<Uplink>, this_: Uplink)
    requires Standing(bots, path, last, this_) && Descends(bots, path)
    requires forall k | 0 <= k < |bots| :: bots[k].uplink != this_
    ensures Todo(bots, path) == Rest(bots, path)
  {
    SkipTo(bots, this_, 0, |bots|, |path| + 1);
  }

  /** No later sibling: one level up, the same remains. */
  lemma GoUp(bots: seq<Bot>, path: seq<int>, last: seq<Uplink>, this_: Uplink)
    requires Standing(bots, path, last, this_) && Descends(bots, path) && path != []
    requires forall k | path[|path| - 1] < k < |bots| :: bots[k].uplink != last[|path| - 1]
    ensures Descends(bots, path[..|path| - 1]) && Rest(bots, path) == Rest(bots, path[..|path| - 1])
  {
    StepUp(bots, path, last, this_);
    SkipTo(bots, last[|path| - 1], path[|path| - 1] + 1, |bots|, |path|);
  }

  /** A later sibling: it is the next line of what remains. */
  lemma GoAside(me: Name, bots: seq<Bot>, path: seq<int>, last: seq<Uplink>, this_: Uplink, j: int)
    requires WellFormed(me, bots) && Standing(bots, path, last, this_) && Descends(bots, path) && path != []
    requires path[|path| - 1] < j < |bots| && bots[j].uplink == last[|path| - 1]
    requires forall k | path[|path| - 1] < k < j :: bots[k].uplink != last[|path| - 1]
    ensures var to := path[..|path| - 1] + [j];
      && Standing(bots, to, last, Node(bots[j].name)) && Descends(bots, to)
      && Rest(bots, path) == [Line(|path|, bots[j])] + Todo(bots, to)
  {
    hide WellFormed, Preorder, Rest, Descends, Standing, Todo;
    AtEnd(bots, path, last, this_);
    var above, self, up := path[..|path| - 1], path[|path| - 1], last[|path| - 1];
    StepUp(bots, path, last, this_);
    AtEnd(bots, above, last, up);
    StepAside(bots, path, last, this_, j);
    DescendsSnoc(bots, above, j);
    RestStep(bots, path);
    GoAsideLines(me, bots, above, up, self, j);
  }

  lemma RestStep(bots: seq<Bot>, path: seq<int>)
    requires Descends(bots, path) && path != []
    ensures var above := path[..|path| - 1];
      Rest(bots, path) == Preorder(bots, End(bots, above), path[|path| - 1] + 1, |path|) + Rest(bots, above)
  {
  }

  lemma GoAsideLines(me: Name, bots: seq<Bot>, above: seq<int>, up: Uplink, self: int, j: int)
    requires WellFormed(me, bots) && Descends(bots, above) && End(bots, above) == up && 0 <= self < j < |bots|
    requires bots[j].uplink == up && forall k | self < k < j :: bots[k].uplink != up
    requires Descends(bots, above + [j])
    ensures Preorder(bots, up, self + 1, |above| + 1) + Rest(bots, above) ==
      [Line(|above| + 1, bots[j])] + Todo(bots, above + [j])
  {
    hide WellFormed, Preorder, Rest, Descends;
    ShowChild(me, bots, up, self + 1, j, |above| + 1);
    PathSnoc(bots, above, j);
    Regroup(Line(|above| + 1, bots[j]), Preorder(bots, Node(bots[j].name), 0, |above| + 2),
            Preorder(bots, up, j + 1, |above| + 1), Rest(bots, above));
  }

  /** The walk itself. It always ends, it never reports an inconsistent tree, and it completes exactly when every
      bot is less than twenty links away; then it has shown the whole tree in order, every bot at its depth, and
      counted the sum of all depths. */
  method TellBottree(me: Name, tandbot: seq<Bot>, tands: int) returns (outcome: Outcome, shown: seq<Line>, tothops: int)
    requires WellFormed(me, tandbot) && tands == |tandbot|
    ensures outcome != TreeError
    ensures outcome == NoBots <==> tandbot == []
    ensures outcome == TooComplex <==> exists b | b in tandbot :: DepthOf(tandbot, b) >= 20
    ensures outcome == Complete ==> shown == WholeTree(tandbot) && tothops == SumDepths(tandbot, tandbot)
    ensures shown <= WholeTree(tandbot)
  {
    hide WellFormed, Find, Preorder, Rest, Todo, Standing, Descends, SumLevels, Depth;
    shown, tothops := [], 0;
    if tands == 0 {
      return NoBots, [], 0;
    }
    ghost var whole := WholeTree(tandbot);
    var last := new Uplink[MAXLEVEL](_ => Null);
    var lev, more, this_ := 0, true, Me;
    ghost var path: seq<int> := [];
    WalkStart(tandbot, last[..]);
    FirstIsDirect(me, tandbot);
    while more
      invariant 0 <= lev <= MAXLEVEL && (more ==> lev == |path|)
      invariant more ==> Standing(tandbot, path, last[..], this_) && Descends(tandbot, path)
      invariant more ==> shown + Todo(tandbot, path) == whole
      invariant more && lev == 0 ==> this_ == Me
      invariant !more ==> shown == whole && lev < MAXLEVEL
      invariant SumLevels(shown) == tothops + if more then lev else 0
      invariant lev < MAXLEVEL ==> forall x | x in shown :: x.level < MAXLEVEL
      decreases if more then 1 + |whole| - |shown| else 0
    {
      if lev == MAXLEVEL {
        TooDeep(me, tandbot, path, last[..], this_);
        return TooComplex, shown, tothops;
      }
      tothops := tothops + lev;
      ghost var before := shown;
      var cnt := CountChildren(tandbot, this_);
      if cnt > 0 {
        var j := FirstChild(tandbot, this_);
        GoDown(me, tandbot, path, last[..], this_, j);
        SumSnoc(shown, Line(lev + 1, tandbot[j]));
        shown := shown + [Line(lev + 1, tandbot[j])];
        path := path + [j];
        last[lev] := this_;
        this_ := Node(tandbot[j].name);
        lev := lev + 1;
      } else {
        NothingBelow(tandbot, path, last[..], this_);
        while cnt == 0
          invariant 0 <= lev < MAXLEVEL && (more ==> lev == |path|) && (cnt == 0 ==> more)
          invariant cnt == 0 || (more && lev > 0) || lev == 0
          invariant more ==> lev > 0
          invariant more ==> Standing(tandbot, path, last[..], this_) && Descends(tandbot, path)
          invariant cnt == 0 ==> shown == before && shown + Rest(tandbot, path) == whole
          invariant cnt != 0 && more ==> |shown| == |before| + 1 && shown + Todo(tandbot, path) == whole
          invariant !more ==> shown == whole
          invariant SumLevels(shown) == tothops + if more && cnt != 0 then lev else 0
          invariant forall x | x in shown :: x.level < MAXLEVEL
          decreases if cnt == 0 then lev + 1 else 0
        {
          if lev == 0 {
            return TreeError, shown, tothops;
          }
          StepUp(tandbot, path, last[..], this_);
          var bot2: int;
          cnt, bot2 := LaterSiblings(me, tandbot, last[lev - 1], this_, path[|path| - 1]);
          if cnt > 0 {
            GoAside(me, tandbot, path, last[..], this_, bot2);
            SumSnoc(shown, Line(lev, tandbot[bot2]));
            shown := shown + [Line(lev, tandbot[bot2])];
            path := path[..|path| - 1] + [bot2];
            this_ := Node(tandbot[bot2].name);
          } else {
            GoUp(tandbot, path, last[..], this_);
            path := path[..|path| - 1];
            lev := lev - 1;
            if lev == 0 {
              NothingAbove(tandbot, path);
              more := false;
              cnt := 999;
            } else {
              this_ := last[lev];
            }
          }
        }
      }
    }
    WholeTreeSum(me, tandbot);
    return Complete, shown, tothops;
  }

  lemma WalkStart(bots: seq<Bot>, last: seq<Uplink>)
    requires |last| == MAXLEVEL
    ensures Descends(bots, []) && Standing(bots, [], last, Me)
    ensures [] + Todo(bots, []) == WholeTree(bots)
    ensures SumLevels([]) == 0
  {
  }

  lemma NothingAbove(bots: seq<Bot>, path: seq<int>)
    requires Descends(bots, path) && path == []
    ensures Rest(bots, path) == []
  {
  }

  lemma TooDeep(me: Name, bots: seq<Bot>, path: seq<int>, last: seq<Uplink>, this_: Uplink)
    requires WellFormed(me, bots) && Standing(bots, path, last, this_) && |path| == MAXLEVEL
    ensures exists b | b in bots :: DepthOf(bots, b) >= MAXLEVEL
  {
    DepthOfEnd(me, bots, path);
    assert bots[path[|path| - 1]] in bots;
  }
}
