/** Which cached nodes a pruning drops. */
module Pruning {
  import opened Bits
  import opened Nodes
  import opened Sequences
  import opened Buckets
  import opened Tries
  import opened Tables

  /** The nodes of a cache, each once, in some order. */
  ghost predicate Lists(nodes: seq<Node>, c: Cache) {
    && NoDup(nodes) && KeyedByAddr(c)
    && (forall n :: n in nodes ==> n.addr in c && c[n.addr] == n)
    && (forall a :: a in c ==> c[a] in nodes)
  }

  /** Walks a cache; the order is whatever the map yields. */
  method ListNodes(c: Cache) returns (nodes: seq<Node>)
    requires KeyedByAddr(c)
    ensures Lists(nodes, c) && |nodes| == |c|
  {
    nodes := [];
    var rest := c.Keys;
    while rest != {}
      invariant rest <= c.Keys
      invariant Lists(nodes, c - rest) && |nodes| + |rest| == |c.Keys|
      decreases |rest|
    {
      var a :| a in rest;
      assert c - (rest - {a}) == (c - rest)[a := c[a]];
      ListsOneMore(nodes, c - rest, c[a]);
      nodes := nodes + [c[a]];
      rest := rest - {a};
    }
    assert c - {} == c;
  }

  lemma ListsOneMore(nodes: seq<Node>, c: Cache, n: Node)
    requires Lists(nodes, c) && n.addr !in c
    ensures Lists(nodes + [n], c[n.addr := n])
  {
  }

  predicate Stale(n: Node, now: int, expiry: nat) {
    now - n.lastActive > expiry
  }

  ghost function Fresh(c: Cache, now: int, expiry: nat): Cache {
    map a | a in c && !Stale(c[a], now, expiry) :: c[a]
  }

  /** The addresses of the stale nodes, in the order in which the cache yields them. */
  method StaleAddrs(c: Cache, now: int, expiry: nat) returns (addrs: seq<Addr>)
    ensures AddrSet(addrs) == set a | a in c && Stale(c[a], now, expiry)
  {
    addrs := [];
    var rest := c.Keys;
    while rest != {}
      invariant rest <= c.Keys
      invariant forall x :: x in addrs <==> x in c.Keys - rest && Stale(c[x], now, expiry)
      decreases |rest|
    {
      var a :| a in rest;
      if Stale(c[a], now, expiry) {
        addrs := addrs + [a];
      }
      rest := rest - {a};
    }
  }

  lemma FreshAreLeft(c: Cache, addrs: seq<Addr>, now: int, expiry: nat)
    requires AddrSet(addrs) == set a | a in c && Stale(c[a], now, expiry)
    ensures c - AddrSet(addrs) == Fresh(c, now, expiry)
    ensures forall max: nat :: |Fresh(c, now, expiry)| <= max ==> Pruned(c, Fresh(c, now, expiry), now, expiry, max)
  {
  }

  /**
   * What a pruning leaves: nothing stale, no more than `max`, as many as that allows, and of the
   * fresh nodes the most recently active ones.
   */
  ghost predicate Pruned(before: Cache, after: Cache, now: int, expiry: nat, max: nat) {
    && (forall a :: a in after ==> a in before && after[a] == before[a] && !Stale(after[a], now, expiry))
    && |after| == (if |Fresh(before, now, expiry)| <= max then |Fresh(before, now, expiry)| else max)
    && (forall a, b :: a in before && !Stale(before[a], now, expiry) && a !in after && b in after ==>
          before[a].lastActive <= after[b].lastActive)
  }

  /** While the bound removes nobody, what is left is what is fresh. */
  lemma NothingInExcess(before: Cache, after: Cache, now: int, expiry: nat, max: nat)
    requires Pruned(before, after, now, expiry, max) && |Fresh(before, now, expiry)| <= max
    ensures after == Fresh(before, now, expiry)
  {
    var left := Fresh(before, now, expiry);
    assert after.Keys <= left.Keys;
    SameSize(after.Keys, left.Keys);
  }

  // ----- what a pruning takes out of the trie

  /** The cache still holds, as a stale entry, the id of a fresh node of the trie. */
  ghost predicate StaleTwin(t: Table, now: int, expiry: nat) {
    exists a, n :: a in t.cache && n in AllNodes(t.trie) && t.cache[a].id == n.id &&
      Stale(t.cache[a], now, expiry) && !Stale(n, now, expiry)
  }

  lemma FreshLeaveExactly(t: Table, now: int, expiry: nat)
    ensures (forall n :: n in AllNodes(t.trie) && !Stale(n, now, expiry) ==>
              n in LeftOf(AllNodes(t.trie), t.cache, Fresh(t.cache, now, expiry))) <==>
            !StaleTwin(t, now, expiry)
  {
    hide AllNodes;
  }

  /**
   * While the bound removes nobody, a pruning takes no fresh node out of the trie if and only if no
   * stale entry of the cache holds the id of one.
   */
  lemma FreshNodesStayExactly(t: Table, k: nat, addrs: seq<Addr>, now: int, expiry: nat, max: nat)
    requires ValidTable(t, k) && |Fresh(t.cache, now, expiry)| <= max
    requires Pruned(t.cache, RemoveAddrs(t, addrs, now).cache, now, expiry, max)
    ensures (forall n :: n in AllNodes(t.trie) && !Stale(n, now, expiry) ==>
              n in AllNodes(RemoveAddrs(t, addrs, now).trie)) <==>
            !StaleTwin(t, now, expiry)
  {
    assert Shape(t.trie);
    hide WellFormed, KeyedByAddr, RemoveAddrs, AllNodes, AddrSet, Pruned, LeftOf, Fresh;
    RemoveAddrsRemoves(t, k, addrs, now);
    NothingInExcess(t.cache, RemoveAddrs(t, addrs, now).cache, now, expiry, max);
    FreshLeaveExactly(t, now, expiry);
  }

  /**
   * There may be one: a node that has moved leaves its old address cached, and once that is stale the
   * pruning takes the node out of the trie, fresh as it is, while its new address stays cached.
   */
  lemma PruningLosesMoved(k: nat, start: int, id: Id, a: Addr, b: Addr, expiry: nat, max: nat)
    requires a != b && k >= 2 && max >= 1
    ensures
      var t := After(k, start, Moving(id, a, b, expiry + 1));
      var t' := After(k, start, Moving(id, a, b, expiry + 1) + [Pruning([a], expiry + 1)]);
      && Pruned(t.cache, t'.cache, expiry + 1, expiry, max)
      && StaleTwin(t, expiry + 1, expiry)
      && AllNodes(t.trie) == {Node(id, b, expiry + 1)} == t'.cache.Values && AllNodes(t'.trie) == {}
  {
    hide After, RemoveAddrs, WellFormed, AllNodes;
    var now, node := expiry + 1, Node(id, b, expiry + 1);
    var t := After(k, start, Moving(id, a, b, now));
    MovedIdDisagrees(k, start, id, a, b, now);
    RunIsValid(k, start, Moving(id, a, b, now));
    RemoveAddrsRemoves(t, k, [a], now);
    AfterOneMore(k, start, Moving(id, a, b, now), Pruning([a], now));
    FreshAreLeft(t.cache, [a], now, expiry);
    assert Fresh(t.cache, now, expiry) == map[b := node];
    assert t.cache[a].id == node.id;
  }

  // ----- the nodes in excess

  function Addrs(nodes: seq<Node>): seq<Addr> {
    seq(|nodes|, i requires 0 <= i < |nodes| => nodes[i].addr)
  }

  lemma SortedLists(nodes: seq<Node>, c: Cache)
    requires Lists(nodes, c)
    ensures Lists(Reordered(nodes), c) && OldestFirst(Reordered(nodes)) && |Reordered(nodes)| == |nodes|
  {
    ReorderedSorts(nodes);
    Permuted(nodes, Reordered(nodes));
  }

  lemma ListsCounts(nodes: seq<Node>, c: Cache)
    requires Lists(nodes, c)
    ensures |nodes| == |c|
  {
    SetSize(nodes);
    assert (set n | n in nodes) == c.Values;
    CacheSize(c);
  }

  lemma FrontAddrs(nodes: seq<Node>, n: nat)
    requires n <= |nodes|
    ensures forall i :: 0 <= i < n ==> nodes[i].addr in AddrSet(Addrs(nodes[..n]))
    ensures forall a :: a in AddrSet(Addrs(nodes[..n])) ==> exists i :: 0 <= i < n && nodes[i].addr == a
  {
    var addrs := Addrs(nodes[..n]);
    forall i | 0 <= i < n
      ensures nodes[i].addr in AddrSet(addrs)
    {
      assert addrs[i] == nodes[i].addr;
    }
    forall a | a in AddrSet(addrs)
      ensures exists i :: 0 <= i < n && nodes[i].addr == a
    {
      var i :| 0 <= i < n && addrs[i] == a;
      assert nodes[i].addr == a;
    }
  }

  /** The listed node at an address is the cached one. */
  lemma ListedOnce(nodes: seq<Node>, c: Cache, i: nat, j: nat)
    requires Lists(nodes, c) && i < |nodes| && j < |nodes| && nodes[i].addr == nodes[j].addr
    ensures i == j
  {
    assert nodes[i] in nodes && nodes[j] in nodes;
  }

  /** Dropping the first `n` nodes of a list leaves the rest of the list. */
  lemma DropFront(nodes: seq<Node>, c: Cache, n: nat)
    requires Lists(nodes, c) && n <= |nodes|
    ensures Lists(nodes[n..], c - AddrSet(Addrs(nodes[..n])))
  {
    hide AddrSet;
    var c' := c - AddrSet(Addrs(nodes[..n]));
    FrontAddrs(nodes, n);
    forall m | m in nodes[n..]
      ensures m.addr in c' && c'[m.addr] == m
    {
      var j :| n <= j < |nodes| && nodes[j] == m;
      forall i | 0 <= i < n
        ensures nodes[i].addr != m.addr
      {
        if nodes[i].addr == m.addr {
          ListedOnce(nodes, c, i, j);
        }
      }
      assert m in nodes;
    }
    forall a | a in c'
      ensures c'[a] in nodes[n..]
    {
      var i :| 0 <= i < |nodes| && nodes[i] == c[a];
      assert nodes[i].addr == a;
      assert nodes[n..][i - n] == c[a];
    }
  }

  /** Dropping the stale nodes, and then the oldest in excess of `max`, is a pruning. */
  lemma DroppingOldestPrunes(before: Cache, live: Cache, after: Cache, sorted: seq<Node>,
                             now: int, expiry: nat, max: nat)
    requires live == Fresh(before, now, expiry) && |live| > max
    requires Lists(sorted, live) && OldestFirst(sorted) && |sorted| == |live|
    requires after == live - AddrSet(Addrs(sorted[..|live| - max]))
    ensures Pruned(before, after, now, expiry, max)
  {
    hide AddrSet, OldestFirst, Lists;
    DropFront(sorted, live, |live| - max);
    ListsCounts(sorted[|live| - max..], after);
    forall a, b | a in live && a !in after && b in after
      ensures live[a].lastActive <= after[b].lastActive
    {
      DroppedIsOlder(live, sorted, |live| - max, a, b);
    }
  }

  lemma DroppedIsOlder(c: Cache, sorted: seq<Node>, n: nat, a: Addr, b: Addr)
    requires Lists(sorted, c) && OldestFirst(sorted) && n <= |sorted|
    requires a in c && a in AddrSet(Addrs(sorted[..n]))
    requires b in c && b !in AddrSet(Addrs(sorted[..n]))
    ensures c[a].lastActive <= c[b].lastActive
  {
    FrontAddrs(sorted, n);
    var i :| 0 <= i < n && sorted[i].addr == a;
    assert sorted[i] in sorted;
    var j :| 0 <= j < |sorted| && sorted[j] == c[b];
    assert sorted[j].addr == b;
  }
}
