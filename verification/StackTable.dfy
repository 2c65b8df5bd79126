/** A bind table that stacks: each mask stands for a map from procedure to flags. */
module StackTable {
  import opened BindTable

  /** The live commands of a mask, by procedure in upper case, with the spelling each was bound under. */
  type Procs = map<string, Binding>

  function ProcsOf(cmds: seq<Cmd>): Procs {
    if cmds == [] then map[] else
    var rest := ProcsOf(cmds[1..]);
    if cmds[0].deleted then rest else rest[Folded(cmds[0].proc) := Binding(cmds[0].proc, cmds[0].flags)]
  }

  /** The same as a list, in the order in which they are triggered. */
  function OrderOf(cmds: seq<Cmd>): seq<string> {
    if cmds == [] then [] else
    (if cmds[0].deleted then [] else [Folded(cmds[0].proc)]) + OrderOf(cmds[1..])
  }

  function ProcsAt(masks: seq<Mask>, mask: string): Procs {
    if masks == [] then map[]
    else if masks[0].mask == mask then ProcsOf(masks[0].cmds)
    else ProcsAt(masks[1..], mask)
  }

  /** No two live commands of a mask run the same procedure. */
  predicate OncePerProc(cmds: seq<Cmd>) {
    forall i, j | 0 <= i < j < |cmds| && !cmds[i].deleted && !cmds[j].deleted :: !EqualFold(cmds[i].proc, cmds[j].proc)
  }

  predicate Stacked(masks: seq<Mask>) {
    && (forall i, j | 0 <= i < j < |masks| :: masks[i].mask != masks[j].mask)
    && forall i | 0 <= i < |masks| :: OncePerProc(masks[i].cmds)
  }

  // ----- commands

  lemma {:induction false} ProcsKeys(cmds: seq<Cmd>, k: string)
    ensures k in ProcsOf(cmds) <==> exists i | 0 <= i < |cmds| :: !cmds[i].deleted && Folded(cmds[i].proc) == k
    ensures k in ProcsOf(cmds) <==> k in OrderOf(cmds)
  {
    if cmds != [] {
      var rest := cmds[1..];
      ProcsKeys(rest, k);
      if i :| 0 <= i < |cmds| && !cmds[i].deleted && Folded(cmds[i].proc) == k {
        if i > 0 { assert rest[i - 1] == cmds[i]; }
      }
      if i :| 0 <= i < |rest| && !rest[i].deleted && Folded(rest[i].proc) == k {
        assert cmds[i + 1] == rest[i];
      }
    }
  }

  lemma TailOnce(cmds: seq<Cmd>)
    requires OncePerProc(cmds) && cmds != []
    ensures OncePerProc(cmds[1..])
    ensures !cmds[0].deleted ==> Folded(cmds[0].proc) !in ProcsOf(cmds[1..])
  {
    var rest := cmds[1..];
    assert forall k | 0 <= k < |rest| :: rest[k] == cmds[k + 1];
    ProcsKeys(rest, Folded(cmds[0].proc));
  }

  /** One command overwritten by a live one for the same procedure, or marked. */
  lemma {:induction false} ProcsUpdate(cmds: seq<Cmd>, i: int, c: Cmd)
    requires OncePerProc(cmds) && 0 <= i < |cmds| && !cmds[i].deleted && c.proc == cmds[i].proc
    ensures OncePerProc(cmds[i := c])
    ensures var k := Folded(c.proc);
      && ProcsOf(cmds[i := c]) == (if c.deleted then ProcsOf(cmds) - {k} else ProcsOf(cmds)[k := Binding(c.proc, c.flags)])
      && k in ProcsOf(cmds) && ProcsOf(cmds)[k].proc == c.proc
      && (!c.deleted ==> OrderOf(cmds[i := c]) == OrderOf(cmds))
  {
    var k, rest, r := Folded(c.proc), cmds[1..], cmds[i := c];
    TailOnce(cmds);
    if i == 0 {
      assert r[1..] == rest;
    } else {
      assert r[1..] == rest[i - 1 := c];
      ProcsUpdate(rest, i - 1, c);
      ProcsKeys(rest, k);
    }
  }

  /** Binding adds or re-flags exactly its own procedure, a new one in front, and removes none. */
  lemma BindProcs(cmds: seq<Cmd>, flags: string, proc: string)
    requires OncePerProc(cmds)
    ensures var r, k, old_ := BindCmds(cmds, flags, proc, true), Folded(proc), ProcsOf(cmds);
      && OncePerProc(r)
      && ProcsOf(r) == old_[k := Binding(if k in old_ then old_[k].proc else proc, flags)]
      && OrderOf(r) == if k in old_ then OrderOf(cmds) else [k] + OrderOf(cmds)
  {
    var i := FindProc(cmds, proc);
    ProcsKeys(cmds, Folded(proc));
    if i >= 0 {
      ProcsUpdate(cmds, i, cmds[i].(flags := flags));
    } else {
      var c := Cmd(proc, flags, false, 0);
      assert ([c] + cmds)[1..] == cmds;
    }
  }

  /** Unbinding removes exactly its own. */
  lemma UnbindProcs(cmds: seq<Cmd>, proc: string)
    requires OncePerProc(cmds)
    ensures var r := Delete(cmds, FindProc(cmds, proc));
      OncePerProc(r) && ProcsOf(r) == ProcsOf(cmds) - {Folded(proc)}
  {
    var i := FindProc(cmds, proc);
    ProcsKeys(cmds, Folded(proc));
    if i >= 0 {
      ProcsUpdate(cmds, i, cmds[i].(deleted := true));
    } else {
      assert ProcsOf(cmds) - {Folded(proc)} == ProcsOf(cmds);
    }
  }

  lemma {:induction false} CollectProcs(cmds: seq<Cmd>)
    requires OncePerProc(cmds)
    ensures OncePerProc(LiveOnly(cmds)) && ProcsOf(LiveOnly(cmds)) == ProcsOf(cmds)
    ensures OrderOf(LiveOnly(cmds)) == OrderOf(cmds)
    ensures LiveOnly(cmds) == [] ==> ProcsOf(cmds) == map[]
  {
    if cmds != [] {
      var head, live := cmds[0], LiveOnly(cmds[1..]);
      TailOnce(cmds);
      CollectProcs(cmds[1..]);
      if !head.deleted {
        assert LiveOnly(cmds) == [head] + live && ([head] + live)[1..] == live;
        forall j | 0 <= j < |live| ensures live[j].deleted || !EqualFold(head.proc, live[j].proc) {
          ProcsKeys(live, Folded(live[j].proc));
        }
        ConsOnce(head, live);
      } else {
        assert LiveOnly(cmds) == live;
      }
    }
  }

  lemma ConsOnce(c: Cmd, rest: seq<Cmd>)
    requires OncePerProc(rest) && forall j | 0 <= j < |rest| :: rest[j].deleted || !EqualFold(c.proc, rest[j].proc)
    ensures OncePerProc([c] + rest)
  {
  }

  // ----- masks

  lemma {:induction false} AtMask(masks: seq<Mask>, i: int)
    requires Stacked(masks) && 0 <= i < |masks|
    ensures ProcsAt(masks, masks[i].mask) == ProcsOf(masks[i].cmds)
  {
    if i > 0 {
      TailStacked(masks);
      AtMask(masks[1..], i - 1);
    }
  }

  lemma {:induction false} NoMask(masks: seq<Mask>, mask: string)
    requires forall i | 0 <= i < |masks| :: masks[i].mask != mask
    ensures ProcsAt(masks, mask) == map[]
  {
    if masks != [] {
      assert forall k | 0 <= k < |masks[1..]| :: masks[1..][k] == masks[k + 1];
      NoMask(masks[1..], mask);
    }
  }

  lemma TailStacked(masks: seq<Mask>)
    requires Stacked(masks) && masks != []
    ensures Stacked(masks[1..]) && forall m | m in masks[1..] :: m.mask != masks[0].mask
  {
    assert forall k | 0 <= k < |masks[1..]| :: masks[1..][k] == masks[k + 1];
  }

  lemma {:induction false} OtherMask(masks: seq<Mask>, i: int, m: Mask, mask: string)
    requires 0 <= i < |masks| && m.mask == masks[i].mask && mask != m.mask
    ensures ProcsAt(masks[i := m], mask) == ProcsAt(masks, mask)
  {
    if i == 0 {
      assert masks[i := m][1..] == masks[1..];
    } else {
      assert masks[i := m][1..] == masks[1..][i - 1 := m];
      OtherMask(masks[1..], i - 1, m, mask);
    }
  }

  lemma StackBind(masks: seq<Mask>, flags: string, cmd: string, proc: string, mask: string)
    requires Stacked(masks)
    ensures var r, k, was := BindMasks(masks, flags, cmd, proc, true), Folded(proc), ProcsAt(masks, mask);
      && Stacked(r)
      && ProcsAt(r, mask) ==
           if mask != cmd then was else was[k := Binding(if k in was then was[k].proc else proc, flags)]
  {
    hide BindCmds, ProcsOf, OncePerProc, EqualFold;
    var i := FindMask(masks, cmd);
    var r := BindMasks(masks, flags, cmd, proc, true);
    NoProcs();
    BindProcs(if i < 0 then [] else masks[i].cmds, flags, proc);
    if i < 0 {
      assert r[1..] == masks;
      NoMask(masks, cmd);
    } else {
      AtMask(masks, i);
      AtMask(r, i);
      if mask != cmd { OtherMask(masks, i, r[i], mask); }
    }
  }

  lemma NoProcs()
    ensures ProcsOf([]) == map[] && OncePerProc([])
  {
  }

  lemma StackUnbind(masks: seq<Mask>, cmd: string, proc: string, mask: string)
    requires Stacked(masks)
    ensures var r := UnbindMasks(masks, cmd, proc);
      && Stacked(r)
      && ProcsAt(r, mask) == ProcsAt(masks, mask) - if mask == cmd then {Folded(proc)} else {}
  {
    hide Delete, ProcsOf, OncePerProc, EqualFold;
    var i := FindMask(masks, cmd);
    var r := UnbindMasks(masks, cmd, proc);
    assert ProcsAt(masks, mask) - {} == ProcsAt(masks, mask);
    if i < 0 {
      NoMask(masks, cmd);
    } else {
      UnbindProcs(masks[i].cmds, proc);
      AtMask(masks, i);
      AtMask(r, i);
      if mask != cmd { OtherMask(masks, i, r[i], mask); }
    }
  }

  lemma {:induction false} StackCollect(masks: seq<Mask>, mask: string)
    requires Stacked(masks)
    ensures Stacked(Collected(masks)) && ProcsAt(Collected(masks), mask) == ProcsAt(masks, mask)
    ensures forall m | m in Collected(masks) :: exists n | n in masks :: n.mask == m.mask
  {
    hide ProcsOf, OncePerProc, LiveOnly;
    if masks != [] {
      var head, rest := masks[0], masks[1..];
      TailStacked(masks);
      StackCollect(rest, mask);
      CollectProcs(head.cmds);
      assert head in masks && forall m | m in rest :: m in masks;
      var live := LiveOnly(head.cmds);
      if live != [] {
        ConsStacked(head.(cmds := live), Collected(rest));
        assert Collected(masks)[1..] == Collected(rest);
      } else {
        assert Collected(masks) == Collected(rest);
        if head.mask == mask { NoneNamed(rest, mask); }
      }
    }
  }

  lemma NoneNamed(masks: seq<Mask>, mask: string)
    requires forall m | m in masks :: m.mask != mask
    ensures ProcsAt(masks, mask) == map[]
  {
    NoMask(masks, mask);
  }

  lemma ConsStacked(head: Mask, rest: seq<Mask>)
    requires Stacked(rest) && OncePerProc(head.cmds) && forall m | m in rest :: m.mask != head.mask
    ensures Stacked([head] + rest)
  {
    hide OncePerProc;
  }

  // ----- histories

  /** Lookups of a stacking table run commands and change no list. */
  datatype StackOp = Add(flags: string, cmd: string, proc: string) | Remove(cmd: string, proc: string) | Sweep

  function StepStack(masks: seq<Mask>, op: StackOp): seq<Mask> {
    match op
    case Add(flags, cmd, proc) => BindMasks(masks, flags, cmd, proc, true)
    case Remove(cmd, proc) => UnbindMasks(masks, cmd, proc)
    case Sweep => Collected(masks)
  }

  function StepProcs(was: Procs, op: StackOp, mask: string): Procs {
    match op
    case Add(flags, cmd, proc) =>
      var k := Folded(proc);
      if mask != cmd then was else was[k := Binding(if k in was then was[k].proc else proc, flags)]
    case Remove(cmd, proc) => if mask != cmd then was else was - {Folded(proc)}
    case Sweep => was
  }

  function RunStack(masks: seq<Mask>, ops: seq<StackOp>): seq<Mask>
    decreases |ops|
  {
    if ops == [] then masks else RunStack(StepStack(masks, ops[0]), ops[1..])
  }

  function RunProcs(was: Procs, ops: seq<StackOp>, mask: string): Procs
    decreases |ops|
  {
    if ops == [] then was else RunProcs(StepProcs(was, ops[0], mask), ops[1..], mask)
  }

  /** After any history, every mask stands for its map, whatever happened to the others, and has each procedure once. */
  lemma {:induction false} StackHistory(masks: seq<Mask>, ops: seq<StackOp>, mask: string)
    requires Stacked(masks)
    ensures Stacked(RunStack(masks, ops))
    ensures ProcsAt(RunStack(masks, ops), mask) == RunProcs(ProcsAt(masks, mask), ops, mask)
    decreases |ops|
  {
    hide Stacked, ProcsAt, BindMasks, UnbindMasks, Collected;
    if ops != [] {
      match ops[0] {
        case Add(flags, cmd, proc) => StackBind(masks, flags, cmd, proc, mask);
        case Remove(cmd, proc) =>
          StackUnbind(masks, cmd, proc, mask);
          assert ProcsAt(masks, mask) - {} == ProcsAt(masks, mask);
        case Sweep => StackCollect(masks, mask);
      }
      StackHistory(StepStack(masks, ops[0]), ops[1..], mask);
    }
  }
}
