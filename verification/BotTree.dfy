/** The list of known bots as the tree it encodes.

    The table is one list in which every entry names its parent.  Everything below is a function of
    that list; the snoc-recursive definitions follow the way the list grows, one bot at its tail. */
module BotTree {

  datatype Option<+T> = None | Some(value: T) {
    function GetOr(default: T): T {
      match this case None => default case Some(v) => v
    }
  }

  // Names are compared without regard to case; here they are already folded, so equality decides.
  type Name = string

  const HANDLEN := 9

  /** Where a bot hangs: below me, below another bot, or (a failed lookup) nowhere. */
  datatype Uplink = Me | Node(name: Name) | Null

  datatype Bot = Bot(name: Name, via: Option<Name>, uplink: Uplink, share: char, ver: int)

  // ----- lookups

  /** The first entry with the given name. */
  function Find(bots: seq<Bot>, who: Name): (r: Option<Bot>)
    ensures r.Some? ==> r.value in bots && r.value.name == who
    ensures r.None? <==> forall b | b in bots :: b.name != who
  {
    if bots == [] then None else
    var rest := Find(bots[..|bots| - 1], who);
    var last := bots[|bots| - 1];
    assert bots == bots[..|bots| - 1] + [last];
    if rest.Some? then rest else if last.name == who then Some(last) else None
  }

  predicate Listed(bots: seq<Bot>, who: Name) {
    Find(bots, who).Some?
  }

  /** The names of the bots directly below `who`. */
  function Children(bots: seq<Bot>, who: Name): set<Name> {
    set b | b in bots && b.uplink == Node(who) :: b.name
  }

  /** The names in `roots` that are listed, and everything below them. */
  function Closure(bots: seq<Bot>, roots: set<Name>): set<Name> {
    if bots == [] then {} else
    var rest := Closure(bots[..|bots| - 1], roots);
    var last := bots[|bots| - 1];
    if last.name in roots || (last.uplink.Node? && last.uplink.name in rest) then rest + {last.name} else rest
  }

  /** The list without the named bots; the others keep their order and their fields. */
  function Without(bots: seq<Bot>, gone: set<Name>): (r: seq<Bot>)
    ensures forall b :: b in r <==> b in bots && b.name !in gone
  {
    if bots == [] then [] else
    var rest := Without(bots[..|bots| - 1], gone);
    var last := bots[|bots| - 1];
    assert bots == bots[..|bots| - 1] + [last];
    if last.name in gone then rest else rest + [last]
  }

  // ----- the invariant

  /** `b` may be appended to `bots`: a new name, a parent already in the list, the parent's route. */
  predicate Fits(me: Name, bots: seq<Bot>, b: Bot) {
    && b.name != me
    && b.share != '\0'
    && !Listed(bots, b.name)
    && match b.uplink
       case Me => b.via == Some(b.name)
       case Node(p) => Listed(bots, p) && b.via == Find(bots, p).value.via
       case Null => false
  }

  predicate WellFormed(me: Name, bots: seq<Bot>) {
    bots != [] ==>
      WellFormed(me, bots[..|bots| - 1]) && Fits(me, bots[..|bots| - 1], bots[|bots| - 1])
  }

  // ----- prefixes and appending

  lemma Snoc(bots: seq<Bot>, b: Bot)
    ensures (bots + [b])[..|bots + [b]| - 1] == bots && (bots + [b])[|bots + [b]| - 1] == b
  {
  }

  lemma FindSnoc(bots: seq<Bot>, b: Bot, who: Name)
    ensures Find(bots + [b], who) ==
      if Listed(bots, who) then Find(bots, who) else if b.name == who then Some(b) else None
  {
  }

  lemma {:induction false} FindConcat(xs: seq<Bot>, ys: seq<Bot>, who: Name)
    ensures Find(xs + ys, who) == if Listed(xs, who) then Find(xs, who) else Find(ys, who)
  {
    if ys == [] {
      assert xs + ys == xs;
    } else {
      var n := |ys| - 1;
      assert xs + ys == (xs + ys[..n]) + [ys[n]];
      FindConcat(xs, ys[..n], who);
      FindSnoc(xs + ys[..n], ys[n], who);
    }
  }

  lemma WellFormedSnoc(me: Name, bots: seq<Bot>, b: Bot)
    ensures WellFormed(me, bots + [b]) <==> WellFormed(me, bots) && Fits(me, bots, b)
  {
  }

  lemma {:induction false} WellFormedPrefix(me: Name, bots: seq<Bot>, i: nat)
    requires WellFormed(me, bots) && i <= |bots|
    ensures WellFormed(me, bots[..i])
  {
    if i == |bots| {
      assert bots[..i] == bots;
    } else {
      WellFormedPrefix(me, bots[..|bots| - 1], i);
      assert bots[..|bots| - 1][..i] == bots[..i];
    }
  }

  lemma {:induction false} FindPrefix(bots: seq<Bot>, i: nat, who: Name)
    requires i <= |bots| && Listed(bots[..i], who)
    ensures Find(bots, who) == Find(bots[..i], who)
  {
    if i == |bots| {
      assert bots[..i] == bots;
    } else {
      assert bots[..|bots| - 1][..i] == bots[..i];
      FindPrefix(bots[..|bots| - 1], i, who);
    }
  }

  /** What the snoc-recursive invariant says about each entry. */
  lemma EntryFits(me: Name, bots: seq<Bot>, i: nat)
    requires WellFormed(me, bots) && i < |bots|
    ensures Fits(me, bots[..i], bots[i])
    ensures Find(bots, bots[i].name) == Some(bots[i])
    ensures bots[i].uplink.Node? ==>
      Listed(bots, bots[i].uplink.name) && bots[i].via == Find(bots, bots[i].uplink.name).value.via
  {
    hide WellFormed, Find;
    WellFormedPrefix(me, bots, i + 1);
    assert bots[..i + 1] == bots[..i] + [bots[i]];
    WellFormedSnoc(me, bots[..i], bots[i]);
    FindSnoc(bots[..i], bots[i], bots[i].name);
    FindPrefix(bots, i + 1, bots[i].name);
    if bots[i].uplink.Node? {
      FindPrefix(bots, i, bots[i].uplink.name);
    }
  }

  lemma NamesDiffer(me: Name, bots: seq<Bot>, i: nat, j: nat)
    requires WellFormed(me, bots) && i < j < |bots|
    ensures bots[i].name != bots[j].name
  {
  }

  lemma FindListed(me: Name, bots: seq<Bot>, b: Bot)
    requires WellFormed(me, bots) && b in bots
    ensures Find(bots, b.name) == Some(b)
  {
  }

  lemma ChildrenMeaning(me: Name, bots: seq<Bot>, who: Name)
    requires WellFormed(me, bots)
    ensures forall b | b in bots :: b.name in Children(bots, who) <==> b.uplink == Node(who)
  {
  }

  /** The parent of a listed bot stands before it. */
  lemma ParentEarlier(me: Name, bots: seq<Bot>, p: nat, i: nat)
    requires WellFormed(me, bots) && p < |bots| && i < |bots| && bots[i].uplink == Node(bots[p].name)
    ensures p < i
  {
    EntryFits(me, bots, i);
    var b := Find(bots[..i], bots[p].name).value;
    var q :| 0 <= q < i && bots[q] == b;
    if q < p { NamesDiffer(me, bots, q, p); }
    if p < q { NamesDiffer(me, bots, p, q); }
  }

  /** The invariant spelled out entry by entry: names distinct and never mine, every parent either me
      or an earlier entry, every route the bot itself (direct) or its parent's route. */
  predicate TreeShaped(me: Name, bots: seq<Bot>) {
    && (forall i, j | 0 <= i < j < |bots| :: bots[i].name != bots[j].name)
    && (forall i | 0 <= i < |bots| :: bots[i].name != me && bots[i].share != '\0')
    && (forall i | 0 <= i < |bots| :: bots[i].uplink != Null)
    && (forall i | 0 <= i < |bots| && bots[i].uplink == Me :: bots[i].via == Some(bots[i].name))
    && (forall i | 0 <= i < |bots| && bots[i].uplink.Node? ::
          exists p | 0 <= p < i :: bots[p].name == bots[i].uplink.name && bots[p].via == bots[i].via)
  }

  lemma WellFormedGivesShape(me: Name, bots: seq<Bot>)
    requires WellFormed(me, bots)
    ensures TreeShaped(me, bots)
  {
    forall i | 0 <= i < |bots|
      ensures bots[i].name != me && bots[i].share != '\0' && bots[i].uplink != Null
      ensures bots[i].uplink == Me ==> bots[i].via == Some(bots[i].name)
      ensures bots[i].uplink.Node? ==>
        exists p | 0 <= p < i :: bots[p].name == bots[i].uplink.name && bots[p].via == bots[i].via
    {
      EntryFits(me, bots, i);
      if bots[i].uplink.Node? {
        var b := Find(bots[..i], bots[i].uplink.name).value;
        var p :| 0 <= p < i && bots[p] == b;
      }
    }
    forall i, j | 0 <= i < j < |bots| ensures bots[i].name != bots[j].name {
      NamesDiffer(me, bots, i, j);
    }
  }

  lemma ShapeOfPrefix(me: Name, bots: seq<Bot>, n: nat)
    requires TreeShaped(me, bots) && n <= |bots|
    ensures TreeShaped(me, bots[..n])
  {
    var init := bots[..n];
    forall i | 0 <= i < n && init[i].uplink.Node?
      ensures exists p | 0 <= p < i :: init[p].name == init[i].uplink.name && init[p].via == init[i].via
    {
      var p :| 0 <= p < i && bots[p].name == bots[i].uplink.name && bots[p].via == bots[i].via;
      assert init[p].name == init[i].uplink.name;
    }
  }

  lemma {:induction false} ShapeGivesWellFormed(me: Name, bots: seq<Bot>)
    requires TreeShaped(me, bots)
    ensures WellFormed(me, bots)
  {
    if bots != [] {
      var n := |bots| - 1;
      var init, last := bots[..n], bots[n];
      ShapeOfPrefix(me, bots, n);
      ShapeGivesWellFormed(me, init);
      if last.uplink.Node? {
        var p :| 0 <= p < n && bots[p].name == last.uplink.name && bots[p].via == last.via;
        assert init[p] == bots[p];
        FindListed(me, init, init[p]);
      }
    }
  }

  lemma WellFormedIsTreeShaped(me: Name, bots: seq<Bot>)
    ensures WellFormed(me, bots) <==> TreeShaped(me, bots)
  {
    if WellFormed(me, bots) { WellFormedGivesShape(me, bots); }
    if TreeShaped(me, bots) { ShapeGivesWellFormed(me, bots); }
  }

  // ----- closures

  lemma {:induction false} ClosureListed(bots: seq<Bot>, roots: set<Name>, x: Name)
    requires x in Closure(bots, roots)
    ensures Listed(bots, x)
  {
    var n := |bots| - 1;
    assert bots == bots[..n] + [bots[n]];
    FindSnoc(bots[..n], bots[n], x);
    if x in Closure(bots[..n], roots) {
      ClosureListed(bots[..n], roots, x);
    }
  }

  /** Membership in a closure, one generation at a time. */
  lemma {:induction false} ClosureStep(me: Name, bots: seq<Bot>, roots: set<Name>, b: Bot)
    requires WellFormed(me, bots) && b in bots
    ensures b.name in Closure(bots, roots) <==>
      b.name in roots || (b.uplink.Node? && b.uplink.name in Closure(bots, roots))
  {
    var n := |bots| - 1;
    var init, last := bots[..n], bots[n];
    assert bots == init + [last];
    if b != last {
      ClosureStep(me, init, roots, b);
      if b.uplink.Node? {
        var i :| 0 <= i < |init| && init[i] == b;
        EntryFits(me, init, i);
        assert b.uplink.name != last.name;
      }
      assert b.name != last.name;
    } else {
      if last.name in Closure(init, roots) { ClosureListed(init, roots, last.name); }
      assert last.name !in Closure(init, roots);
      if last.uplink.Node? { assert last.uplink.name != last.name; }
    }
  }

  lemma {:induction false} ClosureUnlisted(bots: seq<Bot>, roots: set<Name>)
    requires forall b | b in bots :: b.name !in roots
    ensures Closure(bots, roots) == {}
  {
    if bots != [] {
      assert bots == bots[..|bots| - 1] + [bots[|bots| - 1]];
      ClosureUnlisted(bots[..|bots| - 1], roots);
    }
  }

  lemma {:induction false} ClosureUnion(bots: seq<Bot>, a: set<Name>, b: set<Name>)
    ensures Closure(bots, a + b) == Closure(bots, a) + Closure(bots, b)
  {
    if bots != [] {
      ClosureUnion(bots[..|bots| - 1], a, b);
    }
  }

  lemma ChildrenAfter(me: Name, bots: seq<Bot>, b: Bot)
    requires WellFormed(me, bots + [b])
    ensures forall c | c in bots :: c.uplink != Node(b.name)
    ensures b.uplink != Node(b.name)
  {
    WellFormedSnoc(me, bots, b);
    forall i | 0 <= i < |bots| ensures bots[i].uplink != Node(b.name) {
      EntryFits(me, bots, i);
    }
  }

  /** A parent is never inside the subtrees of its own children. */
  lemma {:induction false} ParentOutside(me: Name, bots: seq<Bot>, who: Name, roots: set<Name>)
    requires WellFormed(me, bots)
    requires forall b | b in bots && b.name in roots :: b.uplink == Node(who)
    ensures who !in Closure(bots, roots)
  {
    if bots != [] {
      var n := |bots| - 1;
      var init, last := bots[..n], bots[n];
      assert bots == init + [last];
      ParentOutside(me, init, who, roots);
      if last.name == who {
        ChildrenAfter(me, init, last);
        ClosureUnlisted(init, roots);
      }
    }
  }

  /** Subtrees of different children of one parent have nothing in common. */
  lemma {:induction false} SiblingsDisjoint(me: Name, bots: seq<Bot>, who: Name, a: set<Name>, b: set<Name>)
    requires WellFormed(me, bots) && a !! b
    requires forall x | x in bots && x.name in a + b :: x.uplink == Node(who)
    ensures Closure(bots, a) !! Closure(bots, b)
  {
    if bots != [] {
      var n := |bots| - 1;
      var init, last := bots[..n], bots[n];
      assert bots == init + [last];
      SiblingsDisjoint(me, init, who, a, b);
      ParentOutside(me, init, who, a);
      ParentOutside(me, init, who, b);
      if last.name in Closure(init, a) { ClosureListed(init, a, last.name); }
      if last.name in Closure(init, b) { ClosureListed(init, b, last.name); }
    }
  }

  /** A bot's subtree is the bot and its children's subtrees. */
  lemma SubtreeSplit(me: Name, bots: seq<Bot>, who: Name)
    requires WellFormed(me, bots)
    ensures Listed(bots, who) ==> Closure(bots, {who}) == {who} + Closure(bots, Children(bots, who))
    ensures who !in Closure(bots, Children(bots, who))
  {
    var below := Children(bots, who);
    ChildrenMeaning(me, bots, who);
    ParentOutside(me, bots, who, below);
    SubtreeSplitAt(me, bots, who, below);
  }

  lemma {:induction false} SubtreeSplitAt(me: Name, bots: seq<Bot>, who: Name, below: set<Name>)
    requires WellFormed(me, bots)
    requires forall b | b in bots :: b.name in below <==> b.uplink == Node(who)
    ensures Closure(bots, {who}) == (if Listed(bots, who) then {who} else {}) + Closure(bots, below)
  {
    if bots != [] {
      var n := |bots| - 1;
      var init, last := bots[..n], bots[n];
      assert bots == init + [last];
      SubtreeSplitAt(me, init, who, below);
      if last.name == who {
        SubtreeOfLast(me, init, last, below);
      } else {
        SubtreeSplitSnoc(me, init, last, who, below);
      }
    }
  }

  lemma SubtreeOfLast(me: Name, init: seq<Bot>, last: Bot, below: set<Name>)
    requires WellFormed(me, init + [last])
    requires forall b | b in init + [last] :: b.name in below <==> b.uplink == Node(last.name)
    ensures Closure(init + [last], {last.name}) == {last.name}
    ensures Closure(init + [last], below) == {}
    ensures Listed(init + [last], last.name)
  {
    FindSnoc(init, last, last.name);
    ChildrenAfter(me, init, last);
    WellFormedSnoc(me, init, last);
    ClosureUnlisted(init, {last.name});
    assert last in init + [last] && forall b | b in init :: b in init + [last];
    ClosureUnlisted(init + [last], below);
    ClosureSnoc(init, last, {last.name});
  }

  lemma SubtreeSplitSnoc(me: Name, init: seq<Bot>, last: Bot, who: Name, below: set<Name>)
    requires WellFormed(me, init + [last]) && last.name != who
    requires last.name in below <==> last.uplink == Node(who)
    requires Closure(init, {who}) == (if Listed(init, who) then {who} else {}) + Closure(init, below)
    ensures Closure(init + [last], {who}) ==
      (if Listed(init + [last], who) then {who} else {}) + Closure(init + [last], below)
  {
  }

  /** Pruning an extended list: the new bot goes exactly when it lies in a cut subtree. */
  lemma PruneSnoc(me: Name, init: seq<Bot>, last: Bot, cut: set<Name>)
    requires WellFormed(me, init + [last])
    ensures Without(init + [last], Closure(init + [last], cut)) ==
      Without(init, Closure(init, cut)) + if last.name in Closure(init + [last], cut) then [] else [last]
  {
    Snoc(init, last);
    LastNotInClosure(me, init + [last], cut);
    ClosureSnoc(init, last, cut);
    WithoutUnlisted(init, Closure(init, cut), last.name);
  }

  /** Closures in a pruned list: prune one set of subtrees, and the others lose just what they shared. */
  lemma {:induction false} ClosureAfterPrune(me: Name, bots: seq<Bot>, cut: set<Name>, roots: set<Name>)
    requires WellFormed(me, bots)
    ensures Closure(Without(bots, Closure(bots, cut)), roots) == Closure(bots, roots) - Closure(bots, cut)
  {
    if bots != [] {
      var n := |bots| - 1;
      var init, last := bots[..n], bots[n];
      assert bots == init + [last];
      ClosureAfterPrune(me, init, cut, roots);
      ClosureAfterPruneSnoc(me, init, last, cut, roots);
    }
  }

  lemma ClosureAfterPruneSnoc(me: Name, init: seq<Bot>, last: Bot, cut: set<Name>, roots: set<Name>)
    requires WellFormed(me, init + [last])
    requires Closure(Without(init, Closure(init, cut)), roots) == Closure(init, roots) - Closure(init, cut)
    ensures Closure(Without(init + [last], Closure(init + [last], cut)), roots) ==
      Closure(init + [last], roots) - Closure(init + [last], cut)
  {
    var full := init + [last];
    var kept := Without(init, Closure(init, cut));
    assert last.name !in Closure(init, roots) by {
      Snoc(init, last);
      LastNotInClosure(me, full, roots);
    }
    ClosureSnoc(init, last, cut);
    ClosureSnoc(init, last, roots);
    PruneSnoc(me, init, last, cut);
    if last.name in Closure(full, cut) {
      assert kept + [] == kept;
      DropBoth(Closure(init, roots), Closure(init, cut), last.name);
    } else {
      ClosureSnoc(kept, last, roots);
      AddOutside(Closure(init, roots), Closure(init, cut), last.name);
    }
  }

  lemma DropBoth<T>(a: set<T>, b: set<T>, x: T)
    requires x !in a
    ensures a - b == a - (b + {x}) == (a + {x}) - (b + {x})
  {
  }

  lemma AddOutside<T>(a: set<T>, b: set<T>, x: T)
    requires x !in b
    ensures (a - b) + {x} == (a + {x}) - b
  {
  }

  lemma ClosureSnoc(bots: seq<Bot>, b: Bot, roots: set<Name>)
    ensures Closure(bots + [b], roots) ==
      Closure(bots, roots) +
      if b.name in roots || (b.uplink.Node? && b.uplink.name in Closure(bots, roots)) then {b.name} else {}
  {
  }

  lemma LastNotInClosure(me: Name, bots: seq<Bot>, roots: set<Name>)
    requires WellFormed(me, bots) && bots != []
    ensures bots[|bots| - 1].name !in Closure(bots[..|bots| - 1], roots)
  {
    var n := |bots| - 1;
    if bots[n].name in Closure(bots[..n], roots) { ClosureListed(bots[..n], roots, bots[n].name); }
  }

  // ----- pruning

  lemma {:induction false} WithoutUnlisted(bots: seq<Bot>, gone: set<Name>, x: Name)
    requires forall b | b in bots :: b.name != x
    ensures Without(bots, gone + {x}) == Without(bots, gone)
  {
    if bots != [] {
      assert bots == bots[..|bots| - 1] + [bots[|bots| - 1]];
      WithoutUnlisted(bots[..|bots| - 1], gone, x);
    }
  }

  lemma {:induction false} WithoutNothing(bots: seq<Bot>, gone: set<Name>)
    requires forall b | b in bots :: b.name !in gone
    ensures Without(bots, gone) == bots
  {
    if bots != [] {
      assert bots == bots[..|bots| - 1] + [bots[|bots| - 1]];
      WithoutNothing(bots[..|bots| - 1], gone);
    }
  }

  lemma {:induction false} WithoutAll(bots: seq<Bot>, gone: set<Name>)
    requires forall b | b in bots :: b.name in gone
    ensures Without(bots, gone) == []
  {
    if bots != [] {
      assert bots == bots[..|bots| - 1] + [bots[|bots| - 1]];
      WithoutAll(bots[..|bots| - 1], gone);
    }
  }

  lemma {:induction false} WithoutTwice(bots: seq<Bot>, a: set<Name>, b: set<Name>)
    ensures Without(Without(bots, a), b) == Without(bots, a + b)
  {
    if bots != [] {
      var n := |bots| - 1;
      WithoutTwice(bots[..n], a, b);
      var kept := Without(bots[..n], a);
      Snoc(kept, bots[n]);
    }
  }

  lemma {:induction false} WithoutAppend(bots: seq<Bot>, more: seq<Bot>, gone: set<Name>)
    ensures Without(bots + more, gone) == Without(bots, gone) + Without(more, gone)
  {
    if more == [] {
      assert bots + more == bots;
    } else {
      var n := |more| - 1;
      assert bots + more == (bots + more[..n]) + [more[n]];
      Snoc(bots + more[..n], more[n]);
      WithoutAppend(bots, more[..n], gone);
    }
  }

  lemma RemoveBetween(pre: seq<Bot>, b: Bot, post: seq<Bot>)
    requires forall x | x in pre + post :: x.name != b.name
    ensures Without(pre + [b] + post, {b.name}) == pre + post
  {
    assert forall x | x in pre || x in post :: x in pre + post;
    WithoutAppend(pre + [b], post, {b.name});
    WithoutAppend(pre, [b], {b.name});
    WithoutNothing(pre, {b.name});
    WithoutNothing(post, {b.name});
    WithoutAll([b], {b.name});
  }

  lemma RemoveAt(me: Name, bots: seq<Bot>, i: int)
    requires WellFormed(me, bots) && 0 <= i < |bots|
    ensures Without(bots, {bots[i].name}) == bots[..i] + bots[i + 1..]
  {
    hide Find, Closure;
    forall k | 0 <= k < |bots| && k != i ensures bots[k].name != bots[i].name {
      if k < i { NamesDiffer(me, bots, k, i); } else { NamesDiffer(me, bots, i, k); }
    }
    RemoveDistinct(bots, i);
  }

  lemma RemoveDistinct(bots: seq<Bot>, i: int)
    requires 0 <= i < |bots| && forall k | 0 <= k < |bots| && k != i :: bots[k].name != bots[i].name
    ensures Without(bots, {bots[i].name}) == bots[..i] + bots[i + 1..]
  {
    hide Without;
    var pre, post := bots[..i], bots[i + 1..];
    forall x: Bot | x in pre ensures x.name != bots[i].name {
      var k :| 0 <= k < |pre| && pre[k] == x;
      assert bots[k] == x;
    }
    forall x: Bot | x in post ensures x.name != bots[i].name {
      var k :| 0 <= k < |post| && post[k] == x;
      assert bots[i + 1 + k] == x;
    }
    RemoveBetween(pre, bots[i], post);
    assert bots == pre + [bots[i]] + post;
  }

  lemma {:induction false} FindWithout(bots: seq<Bot>, gone: set<Name>, who: Name)
    ensures Find(Without(bots, gone), who) == if who in gone then None else Find(bots, who)
  {
    if bots != [] {
      var n := |bots| - 1;
      FindWithout(bots[..n], gone, who);
      FindSnoc(Without(bots[..n], gone), bots[n], who);
    }
  }

  /** Pruning whole subtrees keeps the invariant. */
  lemma {:induction false} PruneWellFormed(me: Name, bots: seq<Bot>, cut: set<Name>)
    requires WellFormed(me, bots)
    ensures WellFormed(me, Without(bots, Closure(bots, cut)))
  {
    if bots != [] {
      var n := |bots| - 1;
      var init, last := bots[..n], bots[n];
      var gone := Closure(init, cut);
      PruneWellFormed(me, init, cut);
      if last.name in gone { ClosureListed(init, cut, last.name); }
      WithoutUnlisted(init, gone, last.name);
      if last.name !in Closure(bots, cut) {
        FindWithout(init, gone, last.name);
        if last.uplink.Node? { FindWithout(init, gone, last.uplink.name); }
        WellFormedSnoc(me, Without(init, gone), last);
      }
    }
  }

  /** The number of bots removed is the number of names removed. */
  lemma {:induction false} PruneCount(me: Name, bots: seq<Bot>, cut: set<Name>)
    requires WellFormed(me, bots)
    ensures |Without(bots, Closure(bots, cut))| + |Closure(bots, cut)| == |bots|
  {
    if bots != [] {
      var n := |bots| - 1;
      var init, last := bots[..n], bots[n];
      PruneCount(me, init, cut);
      if last.name in Closure(init, cut) { ClosureListed(init, cut, last.name); }
      WithoutUnlisted(init, Closure(init, cut), last.name);
    }
  }

  /** Removing a child's subtree first leaves exactly the rest of the work. */
  lemma ChildFirst(me: Name, bots: seq<Bot>, who: Name, c: Name)
    requires WellFormed(me, bots) && c in Children(bots, who)
    ensures var rest := Without(bots, Closure(bots, {c}));
      Without(rest, Closure(rest, Children(rest, who))) == Without(bots, Closure(bots, Children(bots, who)))
    ensures var rest := Without(bots, Closure(bots, {c}));
      Closure(bots, Children(bots, who)) == Closure(bots, {c}) + Closure(rest, Children(rest, who))
  {
    var all := Children(bots, who);
    var rest := Without(bots, Closure(bots, {c}));
    var others := all - {c};
    assert all == {c} + others;
    OtherChildren(me, bots, who, c);
    assert Closure(rest, others) == Closure(bots, others) - Closure(bots, {c}) by {
      ClosureAfterPrune(me, bots, {c}, others);
    }
    assert Closure(bots, all) == Closure(bots, {c}) + Closure(rest, others) by {
      ClosureUnion(bots, {c}, others);
    }
    WithoutTwice(bots, Closure(bots, {c}), Closure(rest, others));
  }

  lemma OtherChildren(me: Name, bots: seq<Bot>, who: Name, c: Name)
    requires WellFormed(me, bots) && c in Children(bots, who)
    ensures Children(Without(bots, Closure(bots, {c})), who) == Children(bots, who) - {c}
  {
    var others := Children(bots, who) - {c};
    var rest := Without(bots, Closure(bots, {c}));
    ChildrenMeaning(me, bots, who);
    SiblingsDisjoint(me, bots, who, {c}, others);
    RootsListed(me, bots, {c});
    RootsListed(me, bots, others);
    forall b | b in bots && b.uplink == Node(who) ensures b in rest <==> b.name != c {
      assert b.name != c ==> b.name in others;
    }
  }

  lemma RootsListed(me: Name, bots: seq<Bot>, roots: set<Name>)
    requires WellFormed(me, bots) && forall x | x in roots :: Listed(bots, x)
    ensures roots <= Closure(bots, roots)
  {
    forall x | x in roots ensures x in Closure(bots, roots) {
      ClosureStep(me, bots, roots, Find(bots, x).value);
    }
  }

  // ----- what a closure means

  /** A chain of uplinks leading from the bot named `path[0]` up to the one named last. */
  predicate Climbs(bots: seq<Bot>, path: seq<Name>) {
    && path != []
    && (forall k | 0 <= k < |path| :: Listed(bots, path[k]))
    && forall k | 0 <= k < |path| - 1 :: Find(bots, path[k]).value.uplink == Node(path[k + 1])
  }

  /** The closure of a bot is exactly the set of bots whose uplinks lead to it. */
  lemma SubtreeIsDescendants(me: Name, bots: seq<Bot>, top: Name, x: Name)
    requires WellFormed(me, bots)
    ensures x in Closure(bots, {top}) <==>
      exists path :: Climbs(bots, path) && path[0] == x && path[|path| - 1] == top
  {
    if x in Closure(bots, {top}) {
      var path := ClimbFrom(me, bots, top, x);
    }
    forall path | Climbs(bots, path) && path[0] == x && path[|path| - 1] == top
      ensures x in Closure(bots, {top})
    {
      ClimbInside(me, bots, top, path);
    }
  }

  lemma ClimbExtend(bots: seq<Bot>, x: Name, up: seq<Name>)
    requires Climbs(bots, up) && Listed(bots, x) && Find(bots, x).value.uplink == Node(up[0])
    ensures Climbs(bots, [x] + up)
  {
  }

  lemma ClimbFromPrefix(bots: seq<Bot>, i: nat, path: seq<Name>)
    requires i <= |bots| && Climbs(bots[..i], path)
    ensures Climbs(bots, path)
  {
    forall k | 0 <= k < |path| ensures Find(bots, path[k]) == Find(bots[..i], path[k]) {
      FindPrefix(bots, i, path[k]);
    }
  }

  lemma {:induction false} ClimbFrom(me: Name, bots: seq<Bot>, top: Name, x: Name) returns (path: seq<Name>)
    requires WellFormed(me, bots) && x in Closure(bots, {top})
    ensures Climbs(bots, path) && path[0] == x && path[|path| - 1] == top
  {
    var n := |bots| - 1;
    var init, last := bots[..n], bots[n];
    assert bots == init + [last];
    if x in Closure(init, {top}) {
      path := ClimbFrom(me, init, top, x);
      ClimbFromPrefix(bots, n, path);
    } else {
      FindSnoc(init, last, x);
      if x == top {
        path := [x];
      } else {
        var up := ClimbFrom(me, init, top, last.uplink.name);
        ClimbFromPrefix(bots, n, up);
        ClimbExtend(bots, x, up);
        path := [x] + up;
      }
    }
  }

  lemma {:induction false} ClimbInside(me: Name, bots: seq<Bot>, top: Name, path: seq<Name>)
    requires WellFormed(me, bots) && Climbs(bots, path) && path[|path| - 1] == top
    ensures path[0] in Closure(bots, {top})
  {
    if |path| > 1 {
      var up := path[1..];
      assert forall k | 0 <= k < |up| :: up[k] == path[k + 1];
      assert Climbs(bots, up) by {
        forall k | 0 <= k < |up| - 1 ensures Find(bots, up[k]).value.uplink == Node(up[k + 1]) {
          assert up[k] == path[k + 1] && up[k + 1] == path[k + 2];
        }
      }
      ClimbInside(me, bots, top, up);
    }
    ClosureStep(me, bots, {top}, Find(bots, path[0]).value);
  }

  /** Below a direct neighbour are exactly the bots routed through it. */
  lemma {:induction false} SubtreeIsVia(me: Name, bots: seq<Bot>, top: Name, b: Bot)
    requires WellFormed(me, bots) && b in bots
    requires Listed(bots, top) && Find(bots, top).value.uplink == Me
    ensures b.name in Closure(bots, {top}) <==> b.via == Some(top)
  {
    var i :| 0 <= i < |bots| && bots[i] == b;
    SubtreeIsViaAt(me, bots, top, i);
  }

  lemma {:induction false} SubtreeIsViaAt(me: Name, bots: seq<Bot>, top: Name, i: nat)
    requires WellFormed(me, bots) && i < |bots|
    requires Listed(bots, top) && Find(bots, top).value.uplink == Me
    ensures bots[i].name in Closure(bots, {top}) <==> bots[i].via == Some(top)
  {
    var b := bots[i];
    EntryFits(me, bots, i);
    ClosureStep(me, bots, {top}, b);
    if b.uplink.Node? {
      var p := Find(bots[..i], b.uplink.name).value;
      var j :| 0 <= j < i && bots[j] == p;
      FindPrefix(bots, i, b.uplink.name);
      SubtreeIsViaAt(me, bots, top, j);
    }
  }

  /** Every route of a well-formed table starts at a listed direct neighbour. */
  lemma {:induction false} ViaIsDirect(me: Name, bots: seq<Bot>, b: Bot)
    requires WellFormed(me, bots) && b in bots
    ensures b.via.Some? && Listed(bots, b.via.value)
    ensures var d := Find(bots, b.via.value).value; d.uplink == Me && d.via == b.via
  {
    var i :| 0 <= i < |bots| && bots[i] == b;
    ViaIsDirectAt(me, bots, i);
  }

  lemma {:induction false} ViaIsDirectAt(me: Name, bots: seq<Bot>, i: nat)
    requires WellFormed(me, bots) && i < |bots|
    ensures bots[i].via.Some? && Listed(bots, bots[i].via.value)
    ensures var d := Find(bots, bots[i].via.value).value; d.uplink == Me && d.via == bots[i].via
  {
    EntryFits(me, bots, i);
    if bots[i].uplink.Node? {
      var p := Find(bots[..i], bots[i].uplink.name).value;
      var j :| 0 <= j < i && bots[j] == p;
      FindPrefix(bots, i, bots[i].uplink.name);
      ViaIsDirectAt(me, bots, j);
    }
  }
}
