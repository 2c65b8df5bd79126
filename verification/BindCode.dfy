/** The bind table as the code keeps it: masks and commands found by walking, marked, unlinked and moved. */
module BindCode {
  import opened BindTable

  lemma HitIs(m: Mask, q: Query)
    ensures Hit(m, q) <==> TextFits(q, m.mask) && Allowed(m.cmds, q) >= 0
    ensures ExactHit(m, q) <==> Hit(m, q) && (!q.partial || EqualFold(q.text, m.mask))
  {
  }

  class BindList {
    const stackable: bool
    var first: seq<Mask>

    constructor (stackable: bool)
      ensures this.stackable == stackable && first == []
    {
      this.stackable := stackable;
      first := [];
    }

    method SearchMask(cmd: string) returns (tm: int)
      ensures tm == FindMask(first, cmd)
    {
      tm := 0;
      while tm < |first|
        invariant 0 <= tm <= |first| && forall k | 0 <= k < tm :: first[k].mask != cmd
      {
        if first[tm].mask == cmd {
          return;
        }
        tm := tm + 1;
      }
      return -1;
    }

    method SearchProc(cmds: seq<Cmd>, proc: string) returns (tc: int)
      ensures tc == FindProc(cmds, proc)
    {
      tc := 0;
      while tc < |cmds|
        invariant 0 <= tc <= |cmds| && forall k | 0 <= k < tc :: cmds[k].deleted || !EqualFold(cmds[k].proc, proc)
      {
        if !cmds[tc].deleted && EqualFold(cmds[tc].proc, proc) {
          return;
        }
        tc := tc + 1;
      }
      return -1;
    }

    /** Bind a procedure to a mask. A table that does not stack first marks the command it replaces. */
    method Bind(flags: string, cmd: string, proc: string)
      modifies this
      ensures first == BindMasks(old(first), flags, cmd, proc, stackable)
    {
      var tm := SearchMask(cmd);
      if tm < 0 {
        first := [Mask(cmd, [])] + first;
        tm := 0;
      }
      var cmds := first[tm].cmds;
      var tc := SearchProc(cmds, proc);
      if tc >= 0 {
        first := first[tm := Mask(cmd, cmds[tc := cmds[tc].(flags := flags)])];
        return;
      }
      if !stackable {
        tc := 0;
        while tc < |cmds| && cmds[tc].deleted
          invariant 0 <= tc <= |cmds| && forall k | 0 <= k < tc :: cmds[k].deleted
        {
          tc := tc + 1;
        }
        if tc < |cmds| {
          cmds := cmds[tc := cmds[tc].(deleted := true)];
        }
      }
      first := first[tm := Mask(cmd, [Cmd(proc, flags, false, 0)] + cmds)];
    }

    method Unbind(cmd: string, proc: string) returns (found: bool)
      modifies this
      ensures first == UnbindMasks(old(first), cmd, proc)
      ensures found <==> FindMask(old(first), cmd) >= 0 && FindProc(old(first)[FindMask(old(first), cmd)].cmds, proc) >= 0
    {
      var tm := SearchMask(cmd);
      if tm < 0 {
        return false;
      }
      var cmds := first[tm].cmds;
      var tc := SearchProc(cmds, proc);
      if tc < 0 {
        return false;
      }
      first := first[tm := Mask(cmd, cmds[tc := cmds[tc].(deleted := true)])];
      return true;
    }

    method CollectCmds(cmds: seq<Cmd>) returns (kept: seq<Cmd>)
      ensures kept == LiveOnly(cmds)
    {
      kept := cmds;
      var tc := 0;
      while tc < |kept|
        invariant 0 <= tc <= |kept|
        invariant kept[..tc] + LiveOnly(kept[tc..]) == LiveOnly(cmds)
        decreases |kept| - tc
      {
        assert kept[tc..][1..] == kept[tc + 1..];
        if kept[tc].deleted {
          ghost var rest := kept[tc + 1..];
          kept := kept[..tc] + kept[tc + 1..];
          assert kept[tc..] == rest;
        } else {
          tc := tc + 1;
        }
      }
    }

    /** Unlink what was marked. */
    method Collect()
      modifies this
      ensures first == Collected(old(first))
    {
      hide LiveOnly;
      var tm := 0;
      while tm < |first|
        invariant 0 <= tm <= |first|
        invariant first[..tm] + Collected(first[tm..]) == Collected(old(first))
        decreases |first| - tm
      {
        ghost var rest := first[tm + 1..];
        assert first[tm..][1..] == rest;
        var cmds := CollectCmds(first[tm].cmds);
        if cmds == [] {
          first := first[..tm] + first[tm + 1..];
          assert first[tm..] == rest;
        } else {
          first := first[tm := first[tm].(cmds := cmds)];
          assert first[tm + 1..] == rest;
          tm := tm + 1;
        }
      }
    }

    method SearchAllowed(cmds: seq<Cmd>, q: Query) returns (tc: int)
      ensures tc == Allowed(cmds, q)
    {
      tc := 0;
      while tc < |cmds|
        invariant 0 <= tc <= |cmds| && forall k | 0 <= k < tc :: cmds[k].deleted || !q.permits(cmds[k].flags)
      {
        if !cmds[tc].deleted && q.permits(cmds[tc].flags) {
          return;
        }
        tc := tc + 1;
      }
      return -1;
    }

    /** The scan: what was found, how often, and the mask before it. */
    method Scan(q: Query) returns (cnt: int, prev: int, chosen: int, htc: int)
      ensures chosen == Chosen(first, q) && prev == (if chosen > 0 then chosen - 1 else -1)
      ensures chosen >= 0 ==> htc == Allowed(first[chosen].cmds, q) && htc >= 0
      ensures cnt == 0 <==> chosen < 0
      ensures cnt > 1 <==> FirstExact(first, q) < 0 && Hits(first, q, |first|) > 1
    {
      hide Hit, ExactHit, Allowed, TextFits, EqualFold;
      var tm, finish := 0, false;
      cnt, prev, chosen, htc := 0, -1, -1, -1;
      while tm < |first| && !finish
        invariant 0 <= tm <= |first|
        invariant !finish ==> cnt == Hits(first, q, tm) && chosen == LastHit(first, q, tm)
        invariant !finish ==> forall k | 0 <= k < tm :: !ExactHit(first[k], q)
        invariant finish ==> cnt == 1 && chosen >= 0 && chosen == FirstExact(first, q)
        invariant -1 <= chosen < |first| && prev == if chosen > 0 then chosen - 1 else -1
        invariant chosen >= 0 ==> htc == Allowed(first[chosen].cmds, q) && htc >= 0
        decreases |first| - tm, !finish
      {
        var m := first[tm];
        HitIs(m, q);
        if TextFits(q, m.mask) {
          var tc := SearchAllowed(m.cmds, q);
          if tc >= 0 {
            cnt, prev, chosen, htc := cnt + 1, tm - 1, tm, tc;
            if !q.partial || EqualFold(q.text, m.mask) {
              cnt, finish := 1, true;
            }
          }
        }
        tm := tm + 1;
      }
    }

    /** Look a text up, count the hit, and move the mask chosen to the front. */
    method Check(q: Query) returns (a: Answer)
      modifies this
      ensures a == AnswerOf(old(first), q)
      ensures first == AfterLookup(old(first), q)
    {
      hide Chosen, FirstExact, Hits, Hit, Allowed;
      var cnt, prev, chosen, htc := Scan(q);
      if cnt == 0 {
        return NoMatch;
      }
      var m := first[chosen];
      var cmd := m.cmds[htc];
      m := m.(cmds := m.cmds[htc := cmd.(hits := cmd.hits + 1)]);
      if prev >= 0 {
        first := [m] + first[..chosen] + first[chosen + 1..];
      } else {
        first := first[chosen := m];
        assert first == [m] + old(first)[..chosen] + old(first)[chosen + 1..];
      }
      return if cnt > 1 then Ambiguous else Run(cmd.proc, m.mask);
    }
  }
}
