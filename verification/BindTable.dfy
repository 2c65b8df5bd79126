/** One bind table: masks, each with its commands, newest first. Commands are only marked when they go; a garbage
    collection removes them later; and a successful lookup moves its mask to the front. All of this is a plain map. */
module BindTable {
  import opened BotTree
  import opened Glob

  datatype Cmd = Cmd(proc: string, flags: string, deleted: bool, hits: int)

  datatype Mask = Mask(mask: string, cmds: seq<Cmd>)

  /** What a mask is bound to. */
  datatype Binding = Binding(proc: string, flags: string)

  type Bindings = map<string, Binding>

  datatype Answer = NoMatch | Ambiguous | Run(proc: string, mask: string)

  /** A lookup: the text, which flags are permitted, and whether abbreviations count. */
  datatype Query = Query(text: string, permits: string -> bool, partial: bool)

  function Folded(s: string): string {
    seq(|s|, i requires 0 <= i < |s| => Upper(s[i]))
  }

  predicate EqualFold(a: string, b: string) {
    Folded(a) == Folded(b)
  }

  predicate Abbreviates(text: string, mask: string) {
    |text| <= |mask| && EqualFold(text, mask[..|text|])
  }

  // ----- the map the table stands for

  function FirstLive(cmds: seq<Cmd>): (i: int)
    ensures -1 <= i < |cmds|
    ensures i >= 0 ==> !cmds[i].deleted && forall k | 0 <= k < i :: cmds[k].deleted
    ensures i < 0 ==> forall k | 0 <= k < |cmds| :: cmds[k].deleted
  {
    if cmds == [] then -1
    else if !cmds[0].deleted then 0
    else
      var i := FirstLive(cmds[1..]);
      assert forall k | 1 <= k < |cmds| :: cmds[k] == cmds[1..][k - 1];
      if i < 0 then -1 else i + 1
  }

  function Current(cmds: seq<Cmd>): Option<Binding> {
    var i := FirstLive(cmds);
    if i < 0 then None else Some(Binding(cmds[i].proc, cmds[i].flags))
  }

  function Abs(masks: seq<Mask>): Bindings {
    if masks == [] then map[] else
    var rest := Abs(masks[1..]);
    var b := Current(masks[0].cmds);
    if b.Some? then rest[masks[0].mask := b.value] else rest
  }

  predicate OneLive(cmds: seq<Cmd>) {
    forall i, j | 0 <= i < j < |cmds| :: cmds[i].deleted || cmds[j].deleted
  }

  /** No mask twice, and at most one live command each. */
  predicate Valid(masks: seq<Mask>) {
    && (forall i, j | 0 <= i < j < |masks| :: masks[i].mask != masks[j].mask)
    && forall i | 0 <= i < |masks| :: OneLive(masks[i].cmds)
  }

  lemma {:induction false} AbsAt(masks: seq<Mask>, i: int)
    requires Valid(masks) && 0 <= i < |masks|
    ensures var b := Current(masks[i].cmds);
      if b.Some? then masks[i].mask in Abs(masks) && Abs(masks)[masks[i].mask] == b.value
      else masks[i].mask !in Abs(masks)
  {
    var rest := masks[1..];
    assert forall k | 0 <= k < |rest| :: rest[k] == masks[k + 1];
    if i == 0 {
      AbsKeys(rest, masks[0].mask);
    } else {
      AbsAt(rest, i - 1);
    }
  }

  lemma {:induction false} AbsKeys(masks: seq<Mask>, k: string)
    ensures k in Abs(masks) ==> exists i | 0 <= i < |masks| :: masks[i].mask == k && Current(masks[i].cmds).Some?
  {
    if masks != [] && k in Abs(masks) && !(masks[0].mask == k && Current(masks[0].cmds).Some?) {
      AbsKeys(masks[1..], k);
      var i :| 0 <= i < |masks[1..]| && masks[1..][i].mask == k && Current(masks[1..][i].cmds).Some?;
      assert masks[i + 1].mask == k;
    }
  }

  /** The map is determined by which mask has which live command, not by the order of the list. */
  lemma SameBindings(a: seq<Mask>, m: Bindings)
    requires Valid(a)
    requires forall i | 0 <= i < |a| ::
      var b := Current(a[i].cmds);
      if b.Some? then a[i].mask in m && m[a[i].mask] == b.value else a[i].mask !in m
    requires forall k | k in m :: exists i | 0 <= i < |a| :: a[i].mask == k
    ensures Abs(a) == m
  {
    hide Abs, Current, OneLive;
    forall k ensures k in Abs(a) <==> k in m
             ensures k in m ==> k in Abs(a) && Abs(a)[k] == m[k] {
      AbsKeys(a, k);
      if i :| 0 <= i < |a| && a[i].mask == k { AbsAt(a, i); }
    }
  }

  // ----- bind and unbind

  function FindMask(masks: seq<Mask>, cmd: string): (i: int)
    ensures -1 <= i < |masks|
    ensures i >= 0 ==> masks[i].mask == cmd && forall k | 0 <= k < i :: masks[k].mask != cmd
    ensures i < 0 ==> forall k | 0 <= k < |masks| :: masks[k].mask != cmd
  {
    if masks == [] then -1
    else if masks[0].mask == cmd then 0
    else
      var i := FindMask(masks[1..], cmd);
      assert forall k | 1 <= k < |masks| :: masks[k] == masks[1..][k - 1];
      if i < 0 then -1 else i + 1
  }

  /** The first live command running this procedure. */
  function FindProc(cmds: seq<Cmd>, proc: string): (i: int)
    ensures -1 <= i < |cmds|
    ensures i >= 0 ==> !cmds[i].deleted && EqualFold(cmds[i].proc, proc)
    ensures i >= 0 ==> forall k | 0 <= k < i :: cmds[k].deleted || !EqualFold(cmds[k].proc, proc)
    ensures i < 0 ==> forall k | 0 <= k < |cmds| :: cmds[k].deleted || !EqualFold(cmds[k].proc, proc)
  {
    if cmds == [] then -1
    else if !cmds[0].deleted && EqualFold(cmds[0].proc, proc) then 0
    else
      var i := FindProc(cmds[1..], proc);
      assert forall k | 1 <= k < |cmds| :: cmds[k] == cmds[1..][k - 1];
      if i < 0 then -1 else i + 1
  }

  function Delete(cmds: seq<Cmd>, i: int): seq<Cmd>
    requires -1 <= i < |cmds|
  {
    if i < 0 then cmds else cmds[i := cmds[i].(deleted := true)]
  }

  function BindCmds(cmds: seq<Cmd>, flags: string, proc: string, stackable: bool): seq<Cmd> {
    var i := FindProc(cmds, proc);
    if i >= 0 then cmds[i := cmds[i].(flags := flags)]
    else [Cmd(proc, flags, false, 0)] + if stackable then cmds else Delete(cmds, FirstLive(cmds))
  }

  function BindMasks(masks: seq<Mask>, flags: string, cmd: string, proc: string, stackable: bool): seq<Mask> {
    var i := FindMask(masks, cmd);
    if i < 0 then [Mask(cmd, BindCmds([], flags, proc, stackable))] + masks
    else masks[i := Mask(cmd, BindCmds(masks[i].cmds, flags, proc, stackable))]
  }

  function UnbindMasks(masks: seq<Mask>, cmd: string, proc: string): seq<Mask> {
    var i := FindMask(masks, cmd);
    if i < 0 then masks
    else masks[i := Mask(cmd, Delete(masks[i].cmds, FindProc(masks[i].cmds, proc)))]
  }

  /** A bind on the map: the same procedure keeps its spelling and gets the new flags, another replaces it. */
  function BindMap(m: Bindings, flags: string, cmd: string, proc: string): Bindings {
    m[cmd := Binding(if cmd in m && EqualFold(m[cmd].proc, proc) then m[cmd].proc else proc, flags)]
  }

  function UnbindMap(m: Bindings, cmd: string, proc: string): Bindings {
    if cmd in m && EqualFold(m[cmd].proc, proc) then m - {cmd} else m
  }

  /** With at most one live command, any live command is the current one. */
  lemma LiveIsCurrent(cmds: seq<Cmd>, i: int)
    requires OneLive(cmds) && 0 <= i < |cmds| && !cmds[i].deleted
    ensures FirstLive(cmds) == i
  {
  }

  lemma BindCmdsCurrent(cmds: seq<Cmd>, flags: string, proc: string)
    requires OneLive(cmds)
    ensures OneLive(BindCmds(cmds, flags, proc, false))
    ensures var before := Current(cmds);
      Current(BindCmds(cmds, flags, proc, false)) ==
        Some(Binding(if before.Some? && EqualFold(before.value.proc, proc) then before.value.proc else proc, flags))
  {
    var r := BindCmds(cmds, flags, proc, false);
    var i := FindProc(cmds, proc);
    if i >= 0 {
      LiveIsCurrent(cmds, i);
      LiveIsCurrent(r, i);
    } else {
      LiveIsCurrent(r, 0);
    }
  }

  lemma DeleteCurrent(cmds: seq<Cmd>, proc: string)
    requires OneLive(cmds)
    ensures var r := Delete(cmds, FindProc(cmds, proc));
      && OneLive(r)
      && Current(r) == if Current(cmds).Some? && EqualFold(Current(cmds).value.proc, proc) then None else Current(cmds)
  {
  }

  lemma BindRefines(masks: seq<Mask>, flags: string, cmd: string, proc: string)
    requires Valid(masks)
    ensures Valid(BindMasks(masks, flags, cmd, proc, false))
    ensures Abs(BindMasks(masks, flags, cmd, proc, false)) == BindMap(Abs(masks), flags, cmd, proc)
  {
    hide Abs, BindCmds, Current, OneLive;
    var i := FindMask(masks, cmd);
    var r := BindMasks(masks, flags, cmd, proc, false);
    NoCmds();
    BindCmdsCurrent(if i < 0 then [] else masks[i].cmds, flags, proc);
    if i < 0 { AbsKeys(masks, cmd); } else { AbsAt(masks, i); }
    forall k | 0 <= k < |masks| && k != i
      ensures if Current(masks[k].cmds).Some?
              then masks[k].mask in Abs(masks) && Abs(masks)[masks[k].mask] == Current(masks[k].cmds).value
              else masks[k].mask !in Abs(masks) {
      AbsAt(masks, k);
    }
    forall k | k in BindMap(Abs(masks), flags, cmd, proc) ensures exists j | 0 <= j < |r| :: r[j].mask == k {
      if k == cmd {
        assert r[if i < 0 then 0 else i].mask == k;
      } else {
        AbsKeys(masks, k);
        var j :| 0 <= j < |masks| && masks[j].mask == k;
        assert r[if i < 0 then j + 1 else j].mask == k;
      }
    }
    SameBindings(r, BindMap(Abs(masks), flags, cmd, proc));
  }

  lemma NoCmds()
    ensures OneLive([]) && Current([]) == None
  {
  }

  lemma UnbindRefines(masks: seq<Mask>, cmd: string, proc: string)
    requires Valid(masks)
    ensures Valid(UnbindMasks(masks, cmd, proc))
    ensures Abs(UnbindMasks(masks, cmd, proc)) == UnbindMap(Abs(masks), cmd, proc)
  {
    hide Abs, Delete, Current, OneLive;
    var i := FindMask(masks, cmd);
    var r, m := UnbindMasks(masks, cmd, proc), UnbindMap(Abs(masks), cmd, proc);
    if i < 0 {
      AbsKeys(masks, cmd);
    } else {
      DeleteCurrent(masks[i].cmds, proc);
      AbsAt(masks, i);
      forall k | 0 <= k < |masks| && k != i
        ensures if Current(masks[k].cmds).Some?
                then masks[k].mask in Abs(masks) && Abs(masks)[masks[k].mask] == Current(masks[k].cmds).value
                else masks[k].mask !in Abs(masks) {
        AbsAt(masks, k);
      }
      forall k | k in m ensures exists j | 0 <= j < |r| :: r[j].mask == k {
        AbsKeys(masks, k);
        var j :| 0 <= j < |masks| && masks[j].mask == k;
        assert r[j].mask == k;
      }
      SameBindings(r, m);
    }
  }

  // ----- garbage collection

  function LiveOnly(cmds: seq<Cmd>): seq<Cmd> {
    if cmds == [] then [] else
    (if cmds[0].deleted then [] else [cmds[0]]) + LiveOnly(cmds[1..])
  }

  /** Marked commands go, and so do masks without commands. */
  function Collected(masks: seq<Mask>): seq<Mask> {
    if masks == [] then [] else
    var cmds := LiveOnly(masks[0].cmds);
    (if cmds == [] then [] else [masks[0].(cmds := cmds)]) + Collected(masks[1..])
  }

  lemma {:induction false} LiveOnlyCurrent(cmds: seq<Cmd>)
    ensures Current(LiveOnly(cmds)) == Current(cmds)
    ensures forall c :: c in LiveOnly(cmds) <==> c in cmds && !c.deleted
    ensures LiveOnly(cmds) == [] <==> Current(cmds) == None
    ensures OneLive(cmds) ==> |LiveOnly(cmds)| <= 1
  {
    if cmds != [] {
      LiveOnlyCurrent(cmds[1..]);
      assert cmds == [cmds[0]] + cmds[1..];
      assert forall k | 0 <= k < |cmds[1..]| :: cmds[1..][k] == cmds[k + 1];
      assert OneLive(cmds) ==> OneLive(cmds[1..]);
      assert OneLive(cmds) && !cmds[0].deleted ==> FirstLive(cmds[1..]) < 0;
    }
  }

  lemma TailValid(masks: seq<Mask>)
    requires Valid(masks) && masks != []
    ensures Valid(masks[1..]) && forall m | m in masks[1..] :: m.mask != masks[0].mask
    ensures forall m | m in masks[1..] :: m in masks
  {
  }

  lemma ConsValid(head: Mask, rest: seq<Mask>)
    requires Valid(rest) && OneLive(head.cmds) && forall m | m in rest :: m.mask != head.mask
    ensures Valid([head] + rest)
    ensures var b := Current(head.cmds);
      Abs([head] + rest) == if b.Some? then Abs(rest)[head.mask := b.value] else Abs(rest)
  {
  }

  predicate Clean(m: Mask) {
    m.cmds != [] && forall c | c in m.cmds :: !c.deleted
  }

  lemma {:induction false} CollectRefines(masks: seq<Mask>)
    requires Valid(masks)
    ensures Abs(Collected(masks)) == Abs(masks)
    ensures Valid(Collected(masks))
    ensures forall m | m in Collected(masks) :: Clean(m)
    ensures forall m | m in Collected(masks) :: exists n | n in masks :: n.mask == m.mask
  {
    hide Valid, Current, OneLive, LiveOnly;
    if masks != [] {
      var head, rest := masks[0], masks[1..];
      TailValid(masks);
      CollectRefines(rest);
      LiveOnlyCurrent(head.cmds);
      HeadOneLive(masks);
      if LiveOnly(head.cmds) != [] {
        ConsValid(head.(cmds := LiveOnly(head.cmds)), Collected(rest));
      } else {
        assert Collected(masks) == Collected(rest);
      }
      assert head in masks;
    }
  }

  lemma HeadOneLive(masks: seq<Mask>)
    requires Valid(masks) && masks != []
    ensures OneLive(masks[0].cmds)
    ensures |LiveOnly(masks[0].cmds)| <= 1 ==> OneLive(LiveOnly(masks[0].cmds))
  {
  }

  // ----- lookup

  predicate TextFits(q: Query, mask: string) {
    if q.partial then Abbreviates(q.text, mask) else EqualFold(q.text, mask)
  }

  /** The first live command whose flags suffice. */
  function Allowed(cmds: seq<Cmd>, q: Query): (i: int)
    ensures -1 <= i < |cmds|
    ensures i >= 0 ==> !cmds[i].deleted && q.permits(cmds[i].flags)
    ensures i >= 0 ==> forall k | 0 <= k < i :: cmds[k].deleted || !q.permits(cmds[k].flags)
    ensures i < 0 ==> forall k | 0 <= k < |cmds| :: cmds[k].deleted || !q.permits(cmds[k].flags)
  {
    if cmds == [] then -1
    else if !cmds[0].deleted && q.permits(cmds[0].flags) then 0
    else
      var i := Allowed(cmds[1..], q);
      assert forall k | 1 <= k < |cmds| :: cmds[k] == cmds[1..][k - 1];
      if i < 0 then -1 else i + 1
  }

  predicate Hit(m: Mask, q: Query) {
    TextFits(q, m.mask) && Allowed(m.cmds, q) >= 0
  }

  predicate ExactHit(m: Mask, q: Query) {
    Hit(m, q) && (!q.partial || EqualFold(q.text, m.mask))
  }

  function FirstExact(masks: seq<Mask>, q: Query): (i: int)
    ensures -1 <= i < |masks|
    ensures i >= 0 ==> ExactHit(masks[i], q) && forall k | 0 <= k < i :: !ExactHit(masks[k], q)
    ensures i < 0 ==> forall k | 0 <= k < |masks| :: !ExactHit(masks[k], q)
  {
    if masks == [] then -1
    else if ExactHit(masks[0], q) then 0
    else
      var i := FirstExact(masks[1..], q);
      assert forall k | 1 <= k < |masks| :: masks[k] == masks[1..][k - 1];
      if i < 0 then -1 else i + 1
  }

  /** How many of the first `n` masks are hit, and which of them last. */
  function Hits(masks: seq<Mask>, q: Query, n: int): nat
    requires 0 <= n <= |masks|
  {
    if n == 0 then 0 else Hits(masks, q, n - 1) + if Hit(masks[n - 1], q) then 1 else 0
  }

  function LastHit(masks: seq<Mask>, q: Query, n: int): (i: int)
    requires 0 <= n <= |masks|
    ensures -1 <= i < n && (i >= 0 ==> Hit(masks[i], q)) && (i < 0 <==> Hits(masks, q, n) == 0)
  {
    if n == 0 then -1 else if Hit(masks[n - 1], q) then n - 1 else LastHit(masks, q, n - 1)
  }

  /** The mask chosen: the first exact hit, or else the last hit; -1 for none. */
  function Chosen(masks: seq<Mask>, q: Query): (i: int)
    ensures -1 <= i < |masks| && (i >= 0 ==> Hit(masks[i], q))
  {
    var e := FirstExact(masks, q);
    if e >= 0 then e else LastHit(masks, q, |masks|)
  }

  function AnswerOf(masks: seq<Mask>, q: Query): Answer {
    var i := Chosen(masks, q);
    if i < 0 then NoMatch
    else if FirstExact(masks, q) < 0 && Hits(masks, q, |masks|) > 1 then Ambiguous
    else Run(masks[i].cmds[Allowed(masks[i].cmds, q)].proc, masks[i].mask)
  }

  /** The list after a lookup: the chosen command's hit count goes up and its mask to the front. */
  function AfterLookup(masks: seq<Mask>, q: Query): seq<Mask> {
    var i := Chosen(masks, q);
    if i < 0 then masks
    else
      var c := Allowed(masks[i].cmds, q);
      var cmd := masks[i].cmds[c];
      var m := masks[i].(cmds := masks[i].cmds[c := cmd.(hits := cmd.hits + 1)]);
      [m] + masks[..i] + masks[i + 1..]
  }

  /** The same question put to the map: an exact mask if its flags permit, else the only permitted abbreviation. */
  function Exacts(m: Bindings, q: Query): set<string> {
    set k | k in m && EqualFold(q.text, k) && q.permits(m[k].flags)
  }

  function Candidates(m: Bindings, q: Query): set<string> {
    set k | k in m && TextFits(q, k) && q.permits(m[k].flags)
  }

  ghost predicate Resolves(m: Bindings, q: Query, a: Answer) {
    match a
    case Run(proc, mask) =>
      && mask in Candidates(m, q) && proc == m[mask].proc
      && (mask in Exacts(m, q) || (Exacts(m, q) == {} && Candidates(m, q) == {mask}))
    case Ambiguous => Exacts(m, q) == {} && |Candidates(m, q)| > 1
    case NoMatch => Candidates(m, q) == {}
  }

  /** Masks differ in more than case. */
  predicate CaseDistinct(m: Bindings) {
    forall j, k | j in m && k in m && EqualFold(j, k) :: j == k
  }

  /** On a map whose masks differ in more than case, a question has exactly one answer. */
  lemma OneAnswer(m: Bindings, q: Query, a: Answer, b: Answer)
    requires CaseDistinct(m) && Resolves(m, q, a) && Resolves(m, q, b)
    ensures a == b
  {
  }

  lemma ExactFits(q: Query, k: string)
    requires EqualFold(q.text, k)
    ensures TextFits(q, k)
  {
  }

  lemma HitMeans(masks: seq<Mask>, i: int, q: Query)
    requires Valid(masks) && 0 <= i < |masks|
    ensures var k := masks[i].mask;
      && (Hit(masks[i], q) <==> k in Candidates(Abs(masks), q))
      && (ExactHit(masks[i], q) <==> k in Exacts(Abs(masks), q))
      && (Hit(masks[i], q) ==> Abs(masks)[k].proc == masks[i].cmds[Allowed(masks[i].cmds, q)].proc)
  {
    AbsAt(masks, i);
    var c := Allowed(masks[i].cmds, q);
    if c >= 0 { LiveIsCurrent(masks[i].cmds, c); }
    if EqualFold(q.text, masks[i].mask) { ExactFits(q, masks[i].mask); }
  }

  function HitNames(masks: seq<Mask>, q: Query, n: int): set<string>
    requires 0 <= n <= |masks|
  {
    set k | 0 <= k < n && Hit(masks[k], q) :: masks[k].mask
  }

  lemma {:induction false} HitsCount(masks: seq<Mask>, q: Query, n: int)
    requires Valid(masks) && 0 <= n <= |masks|
    ensures |HitNames(masks, q, n)| == Hits(masks, q, n)
  {
    hide Hit, OneLive;
    if n > 0 {
      HitsCount(masks, q, n - 1);
      var before, x := HitNames(masks, q, n - 1), masks[n - 1];
      if Hit(x, q) {
        assert HitNames(masks, q, n) == before + {x.mask};
        assert x.mask !in before;
      } else {
        assert HitNames(masks, q, n) == before;
      }
    }
  }

  lemma AllHits(masks: seq<Mask>, q: Query)
    requires Valid(masks)
    ensures HitNames(masks, q, |masks|) == Candidates(Abs(masks), q)
  {
    forall k ensures k in HitNames(masks, q, |masks|) <==> k in Candidates(Abs(masks), q) {
      AbsKeys(masks, k);
      if i :| 0 <= i < |masks| && masks[i].mask == k { HitMeans(masks, i, q); }
    }
  }

  /** The scan of the list answers as the map does. */
  lemma LookupRefines(masks: seq<Mask>, q: Query)
    requires Valid(masks)
    ensures Resolves(Abs(masks), q, AnswerOf(masks, q))
  {
    hide Abs, Valid, Hit, ExactHit, Allowed, TextFits;
    var i := Chosen(masks, q);
    HitsCount(masks, q, |masks|);
    AllHits(masks, q);
    if i >= 0 { HitMeans(masks, i, q); }
    if FirstExact(masks, q) < 0 {
      forall k | k in Exacts(Abs(masks), q) ensures false {
        AbsKeys(masks, k);
        var j :| 0 <= j < |masks| && masks[j].mask == k;
        HitMeans(masks, j, q);
      }
      if Hits(masks, q, |masks|) == 1 {
        OneElement(Candidates(Abs(masks), q), masks[i].mask);
      }
    }
  }

  lemma OneElement<T>(s: set<T>, x: T)
    requires x in s && |s| == 1
    ensures s == {x}
  {
    assert |s - {x}| == 0;
  }

  /** And it changes nothing the map can see. */
  lemma LookupKeeps(masks: seq<Mask>, q: Query)
    requires Valid(masks)
    ensures Valid(AfterLookup(masks, q)) && Abs(AfterLookup(masks, q)) == Abs(masks)
  {
    var i := Chosen(masks, q);
    if i >= 0 {
      var c := Allowed(masks[i].cmds, q);
      HitCounted(masks[i].cmds, c);
      Moved(masks, i, AfterLookup(masks, q)[0].cmds);
    }
  }

  /** What a lookup does to the list: nothing if there is no match; otherwise the mask chosen, which is the one answered
      if there is an answer, goes to the front with one hit more on the command chosen, and the others follow as they
      were. */
  lemma LookupMoves(masks: seq<Mask>, q: Query)
    ensures var r, a, i := AfterLookup(masks, q), AnswerOf(masks, q), Chosen(masks, q);
      && (a.NoMatch? ==> r == masks)
      && (!a.NoMatch? ==>
            && 0 <= i < |masks| && |r| == |masks| && r[0].mask == masks[i].mask && |r[0].cmds| == |masks[i].cmds|
            && (a.Run? ==> r[0].mask == a.mask)
            && (forall k | 0 < k < |r| :: r[k] == masks[if k <= i then k - 1 else k])
            && (forall k | 0 <= k < |r[0].cmds| ::
                  r[0].cmds[k] == masks[i].cmds[k].(hits := masks[i].cmds[k].hits + if k == Allowed(masks[i].cmds, q) then 1 else 0)))
  {
    hide ExactHit, TextFits;
  }

  /** The command chosen is the first live one that is permitted; of several masks for which there is one, an exact
      one is chosen, or else the last. */
  lemma WhatIsChosen(masks: seq<Mask>, q: Query)
    ensures var i := Chosen(masks, q);
      && (i >= 0 ==>
            var c := Allowed(masks[i].cmds, q);
            && 0 <= c < |masks[i].cmds| && !masks[i].cmds[c].deleted && q.permits(masks[i].cmds[c].flags)
            && (forall k | 0 <= k < c :: masks[i].cmds[k].deleted || !q.permits(masks[i].cmds[k].flags))
            && (if q.partial then Abbreviates(q.text, masks[i].mask) else EqualFold(q.text, masks[i].mask)))
      && forall k | i < k < |masks| && (i < 0 || FirstExact(masks, q) < 0) ::
           !Hit(masks[k], q)
  {
    LastIsLast(masks, q, |masks|);
  }

  lemma {:induction false} LastIsLast(masks: seq<Mask>, q: Query, n: int)
    requires 0 <= n <= |masks|
    ensures forall k | LastHit(masks, q, n) < k < n :: !Hit(masks[k], q)
  {
    hide Hit;
    if n > 0 { LastIsLast(masks, q, n - 1); }
  }

  /** A mask that is new stands in front, with its one command; an old one stays where it is; and a command that is new
      stands in front of the others of its mask, without hits. */
  lemma BindPlaces(masks: seq<Mask>, flags: string, cmd: string, proc: string, stackable: bool)
    ensures var r, i := BindMasks(masks, flags, cmd, proc, stackable), FindMask(masks, cmd);
      && (i < 0 ==> r == [Mask(cmd, [Cmd(proc, flags, false, 0)])] + masks)
      && (i >= 0 ==>
            && |r| == |masks| && (forall k | 0 <= k < |r| && k != i :: r[k] == masks[k]) && r[i].mask == cmd
            && (FindProc(masks[i].cmds, proc) < 0 ==>
                  |r[i].cmds| == |masks[i].cmds| + 1 && r[i].cmds[0] == Cmd(proc, flags, false, 0))
            && (FindProc(masks[i].cmds, proc) >= 0 ==>
                  |r[i].cmds| == |masks[i].cmds| && forall k | 0 <= k < |r[i].cmds| ::
                    r[i].cmds[k] == masks[i].cmds[k].(flags := if k == FindProc(masks[i].cmds, proc) then flags else masks[i].cmds[k].flags)))
  {
    assert BindCmds([], flags, proc, stackable) == [Cmd(proc, flags, false, 0)];
  }

  lemma HitCounted(cmds: seq<Cmd>, c: int)
    requires 0 <= c < |cmds|
    ensures var r := cmds[c := cmds[c].(hits := cmds[c].hits + 1)];
      Current(r) == Current(cmds) && (OneLive(cmds) ==> OneLive(r))
  {
    var r := cmds[c := cmds[c].(hits := cmds[c].hits + 1)];
    assert forall k | 0 <= k < |cmds| :: r[k].deleted == cmds[k].deleted;
    assert FirstLive(r) == FirstLive(cmds);
  }

  lemma Moved(masks: seq<Mask>, i: int, cmds: seq<Cmd>)
    requires Valid(masks) && 0 <= i < |masks|
    requires OneLive(cmds) && Current(cmds) == Current(masks[i].cmds)
    ensures var r := [masks[i].(cmds := cmds)] + masks[..i] + masks[i + 1..];
      Valid(r) && Abs(r) == Abs(masks)
  {
    hide Current, OneLive, Abs;
    var r := [masks[i].(cmds := cmds)] + masks[..i] + masks[i + 1..];
    assert forall k | 0 < k < |r| :: r[k] == masks[if k <= i then k - 1 else k];
    forall k | 0 <= k < |r|
      ensures if Current(r[k].cmds).Some? then r[k].mask in Abs(masks) && Abs(masks)[r[k].mask] == Current(r[k].cmds).value
              else r[k].mask !in Abs(masks) {
      AbsAt(masks, if k == 0 then i else if k <= i then k - 1 else k);
    }
    forall k | k in Abs(masks) ensures exists j | 0 <= j < |r| :: r[j].mask == k {
      AbsKeys(masks, k);
      var j :| 0 <= j < |masks| && masks[j].mask == k;
      assert r[if j == i then 0 else if j < i then j + 1 else j].mask == k;
    }
    SameBindings(r, Abs(masks));
  }

  // ----- histories

  datatype Op =
    | Bind(flags: string, cmd: string, proc: string)
    | Unbind(cmd: string, proc: string)
    | Lookup(q: Query)
    | Collect

  function StepList(masks: seq<Mask>, op: Op): seq<Mask> {
    match op
    case Bind(flags, cmd, proc) => BindMasks(masks, flags, cmd, proc, false)
    case Unbind(cmd, proc) => UnbindMasks(masks, cmd, proc)
    case Lookup(q) => AfterLookup(masks, q)
    case Collect => Collected(masks)
  }

  function StepMap(m: Bindings, op: Op): Bindings {
    match op
    case Bind(flags, cmd, proc) => BindMap(m, flags, cmd, proc)
    case Unbind(cmd, proc) => UnbindMap(m, cmd, proc)
    case Lookup(_) => m
    case Collect => m
  }

  function RunList(masks: seq<Mask>, ops: seq<Op>): seq<Mask>
    decreases |ops|
  {
    if ops == [] then masks else RunList(StepList(masks, ops[0]), ops[1..])
  }

  function RunMap(m: Bindings, ops: seq<Op>): Bindings
    decreases |ops|
  {
    if ops == [] then m else RunMap(StepMap(m, ops[0]), ops[1..])
  }

  lemma StepRefines(masks: seq<Mask>, op: Op)
    requires Valid(masks)
    ensures Valid(StepList(masks, op)) && Abs(StepList(masks, op)) == StepMap(Abs(masks), op)
  {
    hide Valid, Abs, BindMasks, UnbindMasks, AfterLookup, Collected;
    match op {
      case Bind(flags, cmd, proc) => BindRefines(masks, flags, cmd, proc);
      case Unbind(cmd, proc) => UnbindRefines(masks, cmd, proc);
      case Lookup(q) => LookupKeeps(masks, q);
      case Collect => CollectRefines(masks);
    }
  }

  /** After any history of binds, unbinds, lookups and collections the list still stands for the plain map, every
      mask has at most one live command, and every question is answered as the map answers it. */
  lemma {:induction false} HistoryRefines(masks: seq<Mask>, ops: seq<Op>, q: Query)
    requires Valid(masks)
    ensures Valid(RunList(masks, ops))
    ensures Abs(RunList(masks, ops)) == RunMap(Abs(masks), ops)
    ensures Resolves(RunMap(Abs(masks), ops), q, AnswerOf(RunList(masks, ops), q))
    decreases |ops|
  {
    hide Valid, Abs, StepList, StepMap, Resolves, AnswerOf;
    if ops == [] {
      LookupRefines(masks, q);
    } else {
      StepRefines(masks, ops[0]);
      HistoryRefines(StepList(masks, ops[0]), ops[1..], q);
    }
  }

  // ----- when the order of the list cannot be seen

  /** A list that stands for a given map, with a mask of one's choice in front. */
  lemma Represent(m: Bindings, front: string) returns (masks: seq<Mask>)
    requires front in m
    ensures Valid(masks) && Abs(masks) == m && masks != [] && masks[0].mask == front
  {
    var rest := RepresentAll(m - {front});
    var head := Mask(front, [Cmd(m[front].proc, m[front].flags, false, 0)]);
    forall x | x in rest ensures x.mask != front {
      var i :| 0 <= i < |rest| && rest[i] == x;
      assert rest[i].mask in m - {front};
    }
    ConsValid(head, rest);
    masks := [head] + rest;
    assert Abs(masks) == (m - {front})[front := m[front]];
  }

  lemma RepresentAll(m: Bindings) returns (masks: seq<Mask>)
    ensures Valid(masks) && Abs(masks) == m && forall i | 0 <= i < |masks| :: masks[i].mask in m
    decreases |m.Keys|
  {
    if m == map[] {
      return [];
    }
    var front :| front in m;
    assert (m - {front}).Keys == m.Keys - {front};
    var rest := RepresentAll(m - {front});
    var head := Mask(front, [Cmd(m[front].proc, m[front].flags, false, 0)]);
    forall x | x in rest ensures x.mask != front {
      var i :| 0 <= i < |rest| && rest[i] == x;
      assert rest[i].mask in m - {front};
    }
    ConsValid(head, rest);
    masks := [head] + rest;
    assert Abs(masks) == (m - {front})[front := m[front]];
  }

  ghost predicate OrderInvisible(m: Bindings) {
    forall a, b, q | Valid(a) && Valid(b) && Abs(a) == m && Abs(b) == m :: AnswerOf(a, q) == AnswerOf(b, q)
  }

  /** The answers depend on the map alone, whatever the order of the list, exactly when the bound masks differ in
      more than case. */
  lemma OrderMatters(m: Bindings)
    ensures OrderInvisible(m) <==> CaseDistinct(m)
  {
    if CaseDistinct(m) {
      forall a, b, q | Valid(a) && Valid(b) && Abs(a) == m && Abs(b) == m ensures AnswerOf(a, q) == AnswerOf(b, q) {
        LookupRefines(a, q);
        LookupRefines(b, q);
        OneAnswer(m, q, AnswerOf(a, q), AnswerOf(b, q));
      }
    } else {
      var j, k :| j in m && k in m && EqualFold(j, k) && j != k;
      var a := Represent(m, j);
      var b := Represent(m, k);
      var q := Query(j, (f: string) => true, true);
      FrontExact(a, q);
      FrontExact(b, q);
    }
  }

  lemma FrontExact(a: seq<Mask>, q: Query)
    requires Valid(a) && a != [] && a[0].mask in Abs(a) && EqualFold(q.text, a[0].mask) && forall f :: q.permits(f)
    ensures AnswerOf(a, q).Run? && AnswerOf(a, q).mask == a[0].mask
  {
    AbsAt(a, 0);
    HitMeans(a, 0, q);
    ExactFits(q, a[0].mask);
    assert ExactHit(a[0], q);
  }
}
