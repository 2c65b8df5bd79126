/** The party line: an array of members, compacted by moving the last entry into a hole. */
module PartyLine {
  import opened BotTree
  import opened Protocol

  datatype Member = Member(nick: Name, bot: Name, sock: int, chan: int, flag: char, from: string)

  function Key(p: Member): (Name, int) {
    (p.bot, p.sock)
  }

  function Info(p: Member): User {
    User(p.nick, p.chan, p.flag, p.from)
  }

  /** The users a list of members stands for. */
  function Table(list: seq<Member>): Users {
    if list == [] then map[] else
    var n := |list| - 1;
    Table(list[..n])[Key(list[n]) := Info(list[n])]
  }

  /** The socket number of the first member with this bot and nick; 0 for none. */
  function SockOf(list: seq<Member>, bot: Name, nick: Name): int {
    if list == [] then 0
    else if list[0].bot == bot && list[0].nick == nick then list[0].sock
    else SockOf(list[1..], bot, nick)
  }

  lemma {:induction false} SockOfFirst(list: seq<Member>, bot: Name, nick: Name, i: nat)
    requires i <= |list| && forall k | 0 <= k < i :: !(list[k].bot == bot && list[k].nick == nick)
    ensures SockOf(list, bot, nick) == SockOf(list[i..], bot, nick)
  {
    if i == 0 {
      assert list[0..] == list;
    } else {
      forall k | 0 <= k < i - 1 ensures list[1..][k] == list[k + 1] {}
      SockOfFirst(list[1..], bot, nick, i - 1);
      assert list[1..][i - 1..] == list[i..];
    }
  }

  lemma SockFound(list: seq<Member>, bot: Name, nick: Name, i: nat)
    requires i <= |list| && forall k | 0 <= k < i :: !(list[k].bot == bot && list[k].nick == nick)
    requires i < |list| ==> list[i].bot == bot && list[i].nick == nick
    ensures SockOf(list, bot, nick) == if i < |list| then list[i].sock else 0
  {
    SockOfFirst(list, bot, nick, i);
  }

  predicate DistinctKeys(list: seq<Member>) {
    forall i, j | 0 <= i < j < |list| :: Key(list[i]) != Key(list[j])
  }

  lemma {:induction false} TableKeys(list: seq<Member>, k: (Name, int))
    ensures k in Table(list) <==> exists i | 0 <= i < |list| :: Key(list[i]) == k
  {
    if list != [] {
      var n := |list| - 1;
      TableKeys(list[..n], k);
      if k in Table(list[..n]) {
        var i :| 0 <= i < n && Key(list[..n][i]) == k;
        assert Key(list[i]) == k;
      }
      if i :| 0 <= i < n && Key(list[i]) == k {
        assert Key(list[..n][i]) == k;
      }
    }
  }

  lemma {:induction false} TableAt(list: seq<Member>, i: int)
    requires DistinctKeys(list) && 0 <= i < |list|
    ensures Key(list[i]) in Table(list) && Table(list)[Key(list[i])] == Info(list[i])
  {
    var n := |list| - 1;
    if i < n {
      assert list[..n][i] == list[i];
      TableAt(list[..n], i);
    }
  }

  /** Two lists with the same members, in whatever order, stand for the same users. */
  lemma SameMembers(a: seq<Member>, b: seq<Member>)
    requires DistinctKeys(a) && DistinctKeys(b)
    requires forall p :: p in a <==> p in b
    ensures Table(a) == Table(b)
  {
    forall k | k in Table(a) || k in Table(b)
      ensures k in Table(a) && k in Table(b) && Table(a)[k] == Table(b)[k]
    {
      TableKeys(a, k);
      TableKeys(b, k);
      var p: Member;
      if i :| 0 <= i < |a| && Key(a[i]) == k {
        p := a[i];
      } else {
        var j :| 0 <= j < |b| && Key(b[j]) == k;
        p := b[j];
      }
      assert p in a && p in b;
      var x :| 0 <= x < |a| && a[x] == p;
      var y :| 0 <= y < |b| && b[y] == p;
      TableAt(a, x);
      TableAt(b, y);
    }
  }

  /** Removal overwrites the entry with the last one. */
  function SwapOut(list: seq<Member>, i: int): seq<Member>
    requires 0 <= i < |list|
  {
    var n := |list| - 1;
    if i < n then list[..n][i := list[n]] else list[..n]
  }

  /** So the list is one shorter, and any other member keeps its place but the last. */
  lemma SwapOutPlaces(list: seq<Member>, i: int)
    requires 0 <= i < |list|
    ensures var r := SwapOut(list, i);
      |r| == |list| - 1 && forall k | 0 <= k < |r| :: r[k] == list[if k == i then |r| else k]
  {
  }

  lemma SwapOutMembers(list: seq<Member>, i: int, p: Member)
    requires DistinctKeys(list) && 0 <= i < |list|
    ensures p in SwapOut(list, i) <==> p in list && p != list[i]
  {
    var r, n := SwapOut(list, i), |list| - 1;
    if p in list && p != list[i] {
      var j :| 0 <= j < |list| && list[j] == p;
      assert r[if j == n then i else j] == p;
    }
    if p in r {
      var j :| 0 <= j < n && r[j] == p;
      assert p == list[if j == i then n else j];
    }
  }

  lemma SwapOutDistinct(list: seq<Member>, i: int)
    requires DistinctKeys(list) && 0 <= i < |list|
    ensures DistinctKeys(SwapOut(list, i))
    ensures forall j | 0 <= j < |list| - 1 :: Key(SwapOut(list, i)[j]) != Key(list[i])
  {
  }

  lemma SwapOutTable(list: seq<Member>, i: int)
    requires DistinctKeys(list) && 0 <= i < |list|
    ensures Table(SwapOut(list, i)) == Table(list) - {Key(list[i])}
  {
    var rest := list[..i] + list[i + 1..];
    TableCut(list, i);
    CutDistinct(list, i);
    SwapOutDistinct(list, i);
    forall p ensures p in SwapOut(list, i) <==> p in rest {
      SwapOutMembers(list, i, p);
      CutMembers(list, i, p);
    }
    SameMembers(SwapOut(list, i), rest);
  }

  lemma CutDistinct(list: seq<Member>, i: int)
    requires DistinctKeys(list) && 0 <= i < |list|
    ensures DistinctKeys(list[..i] + list[i + 1..])
  {
    var rest := list[..i] + list[i + 1..];
    assert forall k | 0 <= k < |rest| :: rest[k] == list[if k < i then k else k + 1];
  }

  lemma CutMembers(list: seq<Member>, i: int, p: Member)
    requires DistinctKeys(list) && 0 <= i < |list|
    ensures p in list[..i] + list[i + 1..] <==> p in list && p != list[i]
  {
    assert list == list[..i] + [list[i]] + list[i + 1..];
    if p in list && p != list[i] {
      var j :| 0 <= j < |list| && list[j] == p;
      assert p in list[..i] || p in list[i + 1..];
    }
  }

  lemma {:induction false} TableCut(list: seq<Member>, i: int)
    requires DistinctKeys(list) && 0 <= i < |list|
    ensures Table(list[..i] + list[i + 1..]) == Table(list) - {Key(list[i])}
  {
    var n := |list| - 1;
    var init := list[..n];
    if i == n {
      assert list[..i] + list[i + 1..] == init;
      TableKeys(init, Key(list[n]));
    } else {
      TableCut(init, i);
      CutInit(list, i);
      AppendTable(init[..i] + init[i + 1..], list[n]);
      SetThenDrop(Table(init), Key(list[n]), Info(list[n]), Key(list[i]));
    }
  }

  lemma CutInit(list: seq<Member>, i: int)
    requires 0 <= i < |list| - 1
    ensures var n := |list| - 1;
      list[..i] + list[i + 1..] == (list[..n][..i] + list[..n][i + 1..]) + [list[n]]
  {
    var n := |list| - 1;
    assert list[i + 1..] == list[..n][i + 1..] + [list[n]];
    assert list[..i] == list[..n][..i];
  }

  lemma SetThenDrop(users: Users, k: (Name, int), u: User, gone: (Name, int))
    requires k != gone
    ensures (users - {gone})[k := u] == users[k := u] - {gone}
  {
  }

  lemma {:induction false} UpdateTable(list: seq<Member>, i: int, p: Member)
    requires DistinctKeys(list) && 0 <= i < |list| && Key(p) == Key(list[i])
    ensures DistinctKeys(list[i := p]) && Table(list[i := p]) == Table(list)[Key(p) := Info(p)]
  {
    var n := |list| - 1;
    if i == n {
      assert list[i := p][..n] == list[..n];
    } else {
      assert list[i := p][..n] == list[..n][i := p];
      UpdateTable(list[..n], i, p);
    }
  }

  lemma AppendTable(list: seq<Member>, p: Member)
    ensures Table(list + [p]) == Table(list)[Key(p) := Info(p)]
    ensures DistinctKeys(list) ==> (DistinctKeys(list + [p]) <==> Key(p) !in Table(list))
  {
    var r := list + [p];
    assert r[..|list|] == list;
    TableKeys(list, Key(p));
    if Key(p) in Table(list) {
      var i :| 0 <= i < |list| && Key(list[i]) == Key(p);
      assert Key(r[i]) == Key(r[|list|]);
    }
  }

  /** The entry removed is the first one on the bot, and everything before it stays. */
  lemma FirstOnBot(list: seq<Member>, bot: Name, i: int, at: int)
    requires DistinctKeys(list) && 0 <= i < |list| && 0 <= at < |list|
    requires list[i].bot == bot && Key(list[at]) == Key(list[i])
    requires forall k | 0 <= k < i :: list[k].bot != bot
    ensures i <= |SwapOut(list, at)| && forall k | 0 <= k < i :: SwapOut(list, at)[k].bot != bot
  {
  }

  lemma DropOne(users: Users, bot: Name, sock: int)
    ensures DropUsers(users - {(bot, sock)}, {bot}) == DropUsers(users, {bot})
  {
  }

  lemma NobodyLeft(list: seq<Member>, bot: Name)
    requires forall k | 0 <= k < |list| :: list[k].bot != bot
    ensures DropUsers(Table(list), {bot}) == Table(list)
  {
    forall k | k in Table(list) ensures k.0 != bot {
      TableKeys(list, k);
    }
  }
}
