/** The list of bind tables: kept in order of name, searched only as far as the order allows, and, like a table
    itself, only marked when something goes. */
module TableList {
  import opened BotTree
  import opened Glob
  import opened BindTable

  /** `id` stands for the address of the table. */
  datatype Table = Table(id: nat, name: string, stackable: bool, deleted: bool)

  /** Three-way comparison of names, case ignored. */
  function Compare(a: string, b: string): int {
    if a == "" && b == "" then 0
    else if a == "" then -1
    else if b == "" then 1
    else if Upper(a[0]) == Upper(b[0]) then Compare(a[1..], b[1..])
    else Upper(a[0]) as int - Upper(b[0]) as int
  }

  lemma {:induction false} CompareIsEqualFold(a: string, b: string)
    ensures Compare(a, b) == 0 <==> EqualFold(a, b)
  {
    assert |Folded(a)| == |a| && |Folded(b)| == |b|;
    if a != "" && b != "" {
      assert Folded(a)[0] == Upper(a[0]) && Folded(a)[1..] == Folded(a[1..]);
      assert Folded(b)[0] == Upper(b[0]) && Folded(b)[1..] == Folded(b[1..]);
      assert Folded(a) == [Folded(a)[0]] + Folded(a)[1..] && Folded(b) == [Folded(b)[0]] + Folded(b)[1..];
      CompareIsEqualFold(a[1..], b[1..]);
    }
  }

  lemma {:induction false} CompareOrders(a: string, b: string, c: string)
    ensures Compare(a, b) < 0 <==> Compare(b, a) > 0
    ensures Compare(a, b) <= 0 && Compare(b, c) <= 0 ==> Compare(a, c) <= 0
    ensures Compare(a, b) <= 0 && Compare(b, c) < 0 ==> Compare(a, c) < 0
    ensures Compare(a, b) < 0 && Compare(b, c) <= 0 ==> Compare(a, c) < 0
    decreases |a| + |b| + |c|
  {
    if a != "" && b != "" && c != "" {
      CompareOrders(a[1..], b[1..], c[1..]);
    } else if a != "" && b != "" {
      CompareOrders(a[1..], b[1..], "");
    }
  }

  /** Live tables stand in strictly ascending order; those marked may stand anywhere between them. */
  ghost predicate Sorted(tables: seq<Table>) {
    forall i, j | 0 <= i < j < |tables| && !tables[i].deleted && !tables[j].deleted ::
      Compare(tables[i].name, tables[j].name) < 0
  }

  ghost predicate OneAddress(tables: seq<Table>) {
    forall i, j | 0 <= i < j < |tables| :: tables[i].id != tables[j].id
  }

  ghost function Live(tables: seq<Table>): set<Table> {
    set t | t in tables && !t.deleted
  }

  /** The live tables of that name. */
  ghost function Named(tables: seq<Table>, name: string): set<Table> {
    set t | t in Live(tables) && EqualFold(t.name, name)
  }

  /** Where the ordered search stops: at the first live table whose name is not below the one wanted. */
  ghost predicate Below(tables: seq<Table>, i: int, name: string)
    requires 0 <= i <= |tables|
  {
    forall k | 0 <= k < i && !tables[k].deleted :: Compare(tables[k].name, name) < 0
  }

  ghost predicate StopsAt(tables: seq<Table>, i: int, name: string) {
    0 <= i <= |tables| && Below(tables, i, name)
    && (i < |tables| ==> !tables[i].deleted && Compare(tables[i].name, name) >= 0)
  }

  /** So stopping there misses nothing. */
  lemma SearchComplete(tables: seq<Table>, i: int, name: string)
    requires Sorted(tables) && StopsAt(tables, i, name)
    ensures Named(tables, name) ==
      if i < |tables| && Compare(tables[i].name, name) == 0 then {tables[i]} else {}
  {
    forall k | 0 <= k < |tables| && !tables[k].deleted && k != i ensures !EqualFold(tables[k].name, name) {
      CompareIsEqualFold(tables[k].name, name);
      if i < k {
        CompareOrders(name, tables[i].name, tables[k].name);
        CompareOrders(tables[i].name, name, name);
        CompareOrders(name, tables[k].name, name);
      }
    }
    if i < |tables| { CompareIsEqualFold(tables[i].name, name); }
  }

  lemma InsertSorted(tables: seq<Table>, i: int, t: Table)
    requires Sorted(tables) && StopsAt(tables, i, t.name) && !t.deleted
    requires i < |tables| ==> Compare(tables[i].name, t.name) > 0
    ensures Sorted(tables[..i] + [t] + tables[i..])
    ensures Live(tables[..i] + [t] + tables[i..]) == Live(tables) + {t}
  {
    hide Compare;
    var r := tables[..i] + [t] + tables[i..];
    assert forall k | 0 <= k < |r| :: r[k] == if k < i then tables[k] else if k == i then t else tables[k - 1];
    forall k | i < k < |r| && !r[k].deleted ensures Compare(t.name, r[k].name) < 0 {
      CompareOrders(t.name, tables[i].name, r[k].name);
    }
    forall u ensures u in r <==> u == t || u in tables {
      if u in tables {
        var k :| 0 <= k < |tables| && tables[k] == u;
        assert r[if k < i then k else k + 1] == u;
      }
      assert r[i] == t;
    }
  }

  function Unmarked(tables: seq<Table>): seq<Table> {
    if tables == [] then [] else
    (if tables[0].deleted then [] else [tables[0]]) + Unmarked(tables[1..])
  }

  lemma {:induction false} UnmarkedLive(tables: seq<Table>)
    ensures forall t :: t in Unmarked(tables) <==> t in tables && !t.deleted
  {
    if tables != [] {
      UnmarkedLive(tables[1..]);
      assert tables == [tables[0]] + tables[1..];
    }
  }

  lemma {:induction false} UnmarkedValid(tables: seq<Table>)
    requires Sorted(tables) && OneAddress(tables)
    ensures Sorted(Unmarked(tables)) && OneAddress(Unmarked(tables))
  {
    hide Compare;
    if tables != [] {
      var head, tail := tables[0], tables[1..];
      assert forall k | 0 <= k < |tail| :: tail[k] == tables[k + 1];
      UnmarkedValid(tail);
      UnmarkedLive(tail);
      if !head.deleted {
        forall t | t in Unmarked(tail) ensures t.id != head.id && Compare(head.name, t.name) < 0 {
          var k :| 0 <= k < |tail| && tail[k] == t;
          assert tables[k + 1] == t;
        }
        ConsSorted(head, Unmarked(tail));
      } else {
        assert Unmarked(tables) == Unmarked(tail);
      }
    }
  }

  lemma ConsSorted(t: Table, rest: seq<Table>)
    requires Sorted(rest) && OneAddress(rest)
    requires forall u | u in rest :: u.id != t.id && Compare(t.name, u.name) < 0
    ensures Sorted([t] + rest) && OneAddress([t] + rest)
  {
  }

  lemma UnmarkedSame(tables: seq<Table>)
    requires Sorted(tables) && OneAddress(tables)
    ensures Sorted(Unmarked(tables)) && OneAddress(Unmarked(tables)) && Live(Unmarked(tables)) == Live(tables)
    ensures forall t | t in Unmarked(tables) :: !t.deleted
  {
    UnmarkedLive(tables);
    UnmarkedValid(tables);
  }

  /** After a name nobody had has been added, it names just the new table. */
  lemma OnlyNew(before: seq<Table>, after: seq<Table>, t: Table)
    requires Named(before, t.name) == {} && Live(after) == Live(before) + {t}
    ensures Named(after, t.name) == {t}
  {
  }

  class Tables {
    var list: seq<Table>

    ghost predicate Valid()
      reads this
    {
      Sorted(list) && OneAddress(list)
    }

    constructor ()
      ensures Valid() && list == []
    {
      list := [];
    }

    /** The live table of that name, if there is one. */
    method Find(name: string) returns (found: Option<Table>)
      requires Valid()
      ensures Named(list, name) == if found.Some? then {found.value} else {}
    {
      var i := 0;
      while i < |list|
        invariant 0 <= i <= |list| && Below(list, i, name)
      {
        if !list[i].deleted {
          var v := Compare(list[i].name, name);
          if v >= 0 {
            SearchComplete(list, i, name);
            return if v == 0 then Some(list[i]) else None;
          }
        }
        i := i + 1;
      }
      SearchComplete(list, i, name);
      return None;
    }

    /** The live table of that name, or a new one put in its place in the order; `address` is what the allocator
        gives. */
    method Add(name: string, stackable: bool, address: nat) returns (t: Table)
      requires Valid() && forall u | u in list :: u.id != address
      modifies this
      ensures Valid() && Named(list, name) == {t}
      ensures Named(old(list), name) == {} ==>
        t == Table(address, name, stackable, false) && Live(list) == Live(old(list)) + {t}
      ensures Named(old(list), name) != {} ==> list == old(list)
    {
      hide Compare;
      var i := 0;
      while i < |list| && (list[i].deleted || Compare(list[i].name, name) < 0)
        invariant 0 <= i <= |list| && Below(list, i, name)
      {
        i := i + 1;
      }
      SearchComplete(list, i, name);
      if i < |list| && Compare(list[i].name, name) == 0 {
        return list[i];
      }
      t := Table(address, name, stackable, false);
      InsertSorted(list, i, t);
      list := list[..i] + [t] + list[i..];
      OnlyNew(old(list), list, t);
    }

    /** Mark the table at an address; one no longer listed is left alone. */
    method Delete(address: nat)
      requires Valid()
      modifies this
      ensures Valid() && Live(list) == set t | t in Live(old(list)) && t.id != address
    {
      var i := 0;
      while i < |list|
        invariant 0 <= i <= |list| && forall k | 0 <= k < i :: list[k].deleted || list[k].id != address
      {
        if !list[i].deleted && list[i].id == address {
          list := list[i := list[i].(deleted := true)];
          forall t ensures t in list && !t.deleted <==> t in old(list) && !t.deleted && t.id != address {
            if t in old(list) && t.id != address {
              var k :| 0 <= k < |list| && old(list)[k] == t;
              assert list[k] == t;
            }
          }
          return;
        }
        i := i + 1;
      }
    }

    /** The tables' part of the garbage collection: marked tables are unlinked, and no answer changes. */
    method Collect()
      requires Valid()
      modifies this
      ensures Valid() && Live(list) == Live(old(list)) && forall t | t in list :: !t.deleted
      ensures forall name :: Named(list, name) == Named(old(list), name)
    {
      hide Sorted, OneAddress, Live;
      var i := 0;
      while i < |list|
        invariant 0 <= i <= |list|
        invariant list[..i] + Unmarked(list[i..]) == Unmarked(old(list))
        decreases |list| - i
      {
        ghost var rest := list[i + 1..];
        assert list[i..][1..] == rest;
        if list[i].deleted {
          list := list[..i] + list[i + 1..];
          assert list[i..] == rest;
        } else {
          i := i + 1;
        }
      }
      UnmarkedSame(old(list));
      assert list == Unmarked(old(list));
    }
  }
}
