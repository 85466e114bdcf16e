/**
 * The routing table as a value: the trie of buckets and the cache of nodes keyed by address,
 * which answers how many nodes there are and which are near a target.
 */
module Tables {
  import opened Bits
  import opened Nodes
  import opened Buckets
  import opened Tries

  type Cache = map<Addr, Node>

  datatype Table = Table(trie: Trie, cache: Cache)

  function EmptyTrie(now: int): Trie {
    Trie({}, map[[] := Bucket([], [], now)])
  }

  lemma EmptyTrieWellFormed(k: nat, now: int)
    ensures WellFormed(EmptyTrie(now), k) && AllNodes(EmptyTrie(now)) == {}
  {
    assert forall p :: Vertex(EmptyTrie(now), p) <==> p == [];
  }

  /** A node is cached under its own address. */
  ghost predicate KeyedByAddr(c: Cache) {
    forall a :: a in c ==> c[a].addr == a
  }

  ghost predicate ValidTable(t: Table, k: nat) {
    WellFormed(t.trie, k) && KeyedByAddr(t.cache)
  }

  lemma EmptyIsValid(k: nat, now: int)
    ensures ValidTable(Table(EmptyTrie(now), map[]), k)
  {
    EmptyTrieWellFormed(k, now);
  }

  lemma ValidShape(t: Table, k: nat)
    requires ValidTable(t, k)
    ensures Shape(t.trie) && Vertex(t.trie, [])
  {
  }

  lemma ValidKeys(t: Table, k: nat)
    requires ValidTable(t, k)
    ensures KeyedByAddr(t.cache)
  {
  }

  // ----- the operations

  ghost function InsertInto(t: Table, k: nat, node: Node, now: int): Table
    requires Shape(t.trie)
  {
    var (trie, outcome) := InsertNode(t.trie, k, node, now);
    Table(trie, if outcome.Stored? then t.cache[node.addr := node] else t.cache)
  }

  ghost function RemoveAddr(t: Table, addr: Addr, now: int): (t': Table)
    requires Shape(t.trie)
    ensures Shape(t'.trie)
  {
    if addr in t.cache then Table(RemoveId(t.trie, t.cache[addr].id, now), t.cache - {addr}) else t
  }

  ghost function RemoveAddrs(t: Table, addrs: seq<Addr>, now: int): (t': Table)
    requires Shape(t.trie)
    ensures Shape(t'.trie)
  {
    if addrs == [] then t
    else RemoveAddr(RemoveAddrs(t, addrs[..|addrs| - 1], now), addrs[|addrs| - 1], now)
  }

  /** An insertion, told in terms of the nodes held. */
  lemma InsertIntoBinds(t: Table, k: nat, node: Node, now: int)
    requires ValidTable(t, k)
    ensures ValidTable(InsertInto(t, k, node, now), k)
    ensures RunsOut(t.trie, k, node.id) ==>
              && AllNodes(InsertInto(t, k, node, now).trie) == AllNodes(t.trie)
              && InsertInto(t, k, node, now).cache == t.cache
    ensures !RunsOut(t.trie, k, node.id) ==>
              && AllNodes(InsertInto(t, k, node, now).trie) == Without(AllNodes(t.trie), node.id) + {node}
              && InsertInto(t, k, node, now).cache == t.cache[node.addr := node]
    ensures k >= 2 ==> !RunsOut(t.trie, k, node.id)
  {
    assert PathTo(node.id, 0) == [];
    PlaceBinds(t.trie, k, node, now, 0);
    PlaceRunsOutExactly(t.trie, k, node, now, 0);
    if k >= 2 {
      NeverRunsOut(t.trie, k, node.id);
    }
  }

  lemma RemoveAddrRemoves(t: Table, k: nat, addr: Addr, now: int)
    requires ValidTable(t, k)
    ensures ValidTable(RemoveAddr(t, addr, now), k)
    ensures RemoveAddr(t, addr, now).cache == t.cache - {addr}
    ensures AllNodes(RemoveAddr(t, addr, now).trie) ==
            if addr in t.cache then Without(AllNodes(t.trie), t.cache[addr].id) else AllNodes(t.trie)
  {
    if addr in t.cache {
      RemoveIdRemoves(t.trie, k, t.cache[addr].id, now);
    }
  }

  /** The nodes whose ids no entry held that the cache has lost. */
  ghost function LeftOf(nodes: set<Node>, before: Cache, after: Cache): set<Node> {
    set n | n in nodes && forall a :: a in before && a !in after ==> before[a].id != n.id
  }

  /** The cache loses the addresses, and the trie every node with the id of an entry lost. */
  lemma {:induction false} RemoveAddrsRemoves(t: Table, k: nat, addrs: seq<Addr>, now: int)
    requires ValidTable(t, k)
    ensures ValidTable(RemoveAddrs(t, addrs, now), k)
    ensures RemoveAddrs(t, addrs, now).cache == t.cache - AddrSet(addrs)
    ensures AllNodes(RemoveAddrs(t, addrs, now).trie)
         == LeftOf(AllNodes(t.trie), t.cache, RemoveAddrs(t, addrs, now).cache)
  {
    assert Shape(t.trie);
    hide WellFormed, RemoveAddr, KeyedByAddr, AddrSet, AllNodes, LeftOf;
    if addrs == [] {
      LosingNothing(AllNodes(t.trie), t.cache);
    } else {
      var front, last := addrs[..|addrs| - 1], addrs[|addrs| - 1];
      RemoveAddrsRemoves(t, k, front, now);
      RemoveAddrRemoves(RemoveAddrs(t, front, now), k, last, now);
      AddrSetSnoc(addrs);
      assert t.cache - AddrSet(front) - {last} == t.cache - AddrSet(addrs);
      LosingOneMore(AllNodes(t.trie), t.cache, t.cache - AddrSet(front), last);
    }
  }

  lemma LosingNothing(nodes: set<Node>, c: Cache)
    ensures LeftOf(nodes, c, c) == nodes
  {
  }

  lemma LosingOneMore(nodes: set<Node>, before: Cache, mid: Cache, last: Addr)
    requires forall a :: a in mid ==> a in before && mid[a] == before[a]
    ensures LeftOf(nodes, before, mid - {last})
         == if last in mid then Without(LeftOf(nodes, before, mid), mid[last].id) else LeftOf(nodes, before, mid)
  {
    var after := mid - {last};
    if last in mid {
      forall n | n in Without(LeftOf(nodes, before, mid), mid[last].id)
        ensures n in LeftOf(nodes, before, after)
      {
        assert forall a :: a in before && a !in after ==> a !in mid || a == last;
      }
      forall n | n in LeftOf(nodes, before, after)
        ensures n in Without(LeftOf(nodes, before, mid), mid[last].id)
      {
        assert last !in after;
      }
    } else {
      assert after == mid;
    }
  }

  ghost function AddrSet(addrs: seq<Addr>): set<Addr> {
    set a | a in addrs
  }

  lemma AddrSetSnoc(addrs: seq<Addr>)
    requires addrs != []
    ensures AddrSet(addrs) == AddrSet(addrs[..|addrs| - 1]) + {addrs[|addrs| - 1]}
  {
    assert addrs == addrs[..|addrs| - 1] + [addrs[|addrs| - 1]];
  }

  lemma {:induction false} RemoveAddrsInTwo(t: Table, first: seq<Addr>, second: seq<Addr>, now: int)
    requires Shape(t.trie)
    ensures RemoveAddrs(t, first + second, now) == RemoveAddrs(RemoveAddrs(t, first, now), second, now)
    decreases |second|
  {
    if second == [] {
      assert first + second == first;
    } else {
      var front, last := second[..|second| - 1], second[|second| - 1];
      RemoveAddrsInTwo(t, first, front, now);
      assert (first + second)[..|first + second| - 1] == first + front;
      assert (first + second)[|first + second| - 1] == last;
    }
  }

  // ----- when cache and trie agree

  /** The cache holds exactly the nodes of the trie. */
  ghost predicate Agrees(t: Table) {
    AllNodes(t.trie) == t.cache.Values
  }

  /** Seen so far, the node's id and its address go together. */
  ghost predicate Bound(nodes: set<Node>, node: Node) {
    forall m :: m in nodes ==> (m.id == node.id <==> m.addr == node.addr)
  }

  lemma CacheStaysKeyed(c: Cache, node: Node)
    requires KeyedByAddr(c)
    ensures KeyedByAddr(c[node.addr := node])
  {
  }

  lemma StoreKeepsValid(t: Table, k: nat, p: Path, node: Node, now: int)
    requires ValidTable(t, k) && p in t.trie.leaves && p <= IdBits(node.id)
    requires |t.trie.leaves[p].nodes| < k || HasId(t.trie.leaves[p].nodes, node.id)
    ensures ValidTable(Table(PutLeaf(t.trie, p, Insert(t.trie.leaves[p], node, k, now).0),
                             t.cache[node.addr := node]), k)
  {
    StoreAtLeaf(t.trie, k, p, node, now);
    CacheStaysKeyed(t.cache, node);
  }

  lemma SplitKeepsValid(t: Table, k: nat, p: Path, now: int)
    requires ValidTable(t, k) && p in t.trie.leaves && |p| < ID_BITS && WellFormed(SplitAt(t.trie, p, now), k)
    ensures ValidTable(Table(SplitAt(t.trie, p, now), t.cache), k) && p in SplitAt(t.trie, p, now).inner
  {
  }

  /** A leaf too full to take an id it lacks can be split for it. */
  lemma SplitForInsert(t: Table, k: nat, p: Path, node: Node, now: int)
    requires ValidTable(t, k) && p in t.trie.leaves && |p| < ID_BITS && p <= IdBits(node.id)
    requires |t.trie.leaves[p].nodes| >= k && !HasId(t.trie.leaves[p].nodes, node.id)
    ensures WellFormed(SplitAt(t.trie, p, now), k)
  {
    LeafFacts(t.trie, k, p);
    SplitWellFormed(t.trie, k, p, node, now);
  }

  lemma RemoveKeepsValid(t: Table, k: nat, id: Id, now: int)
    requires ValidTable(t, k)
    ensures ValidTable(Table(RemoveId(t.trie, id, now), t.cache), k)
  {
    RemoveIdRemoves(t.trie, k, id, now);
  }

  lemma CacheRemovalKeepsValid(t: Table, k: nat, addr: Addr)
    requires ValidTable(t, k)
    ensures ValidTable(Table(t.trie, t.cache - {addr}), k)
  {
  }

  lemma CacheUpdateValues(c: Cache, node: Node)
    requires KeyedByAddr(c)
    ensures c[node.addr := node].Values == (set m | m in c.Values && m.addr != node.addr) + {node}
  {
    var c' := c[node.addr := node];
    assert c'[node.addr] == node;
    forall m | m in c.Values && m.addr != node.addr
      ensures m in c'.Values
    {
      assert m.addr in c' && c'[m.addr] == m;
    }
  }

  lemma CacheRemoveValues(c: Cache, addr: Addr)
    requires KeyedByAddr(c)
    ensures (c - {addr}).Values == set m | m in c.Values && m.addr != addr
  {
    var c' := c - {addr};
    forall m | m in c.Values && m.addr != addr
      ensures m in c'.Values
    {
      assert m.addr in c' && c'[m.addr] == m;
    }
  }

  /** An insertion that is not dropped keeps the agreement exactly when it respects the binding. */
  lemma InsertAgreesExactly(t: Table, k: nat, node: Node, now: int)
    requires ValidTable(t, k) && Agrees(t) && !RunsOut(t.trie, k, node.id)
    ensures Agrees(InsertInto(t, k, node, now)) <==> Bound(AllNodes(t.trie), node)
  {
    hide WellFormed, InsertInto, RunsOut, AllNodes, Bound, Without;
    InsertIntoBinds(t, k, node, now);
    CacheUpdateValues(t.cache, node);
    BoundExactly(AllNodes(t.trie), node);
  }

  lemma BoundExactly(nodes: set<Node>, node: Node)
    ensures Without(nodes, node.id) + {node} == (set m | m in nodes && m.addr != node.addr) + {node} <==>
            Bound(nodes, node)
  {
    var kept, cached := Without(nodes, node.id) + {node}, (set m | m in nodes && m.addr != node.addr) + {node};
    if kept == cached {
      forall m | m in nodes
        ensures m.id == node.id <==> m.addr == node.addr
      {
        assert m in kept <==> m in cached;
      }
    }
  }

  lemma RemoveAgrees(t: Table, k: nat, addr: Addr, now: int)
    requires ValidTable(t, k) && Agrees(t)
    ensures Agrees(RemoveAddr(t, addr, now))
  {
    RemoveAddrRemoves(t, k, addr, now);
    if addr in t.cache {
      var n := t.cache[addr];
      CacheRemoveValues(t.cache, addr);
      forall m | m in t.cache.Values
        ensures m.id == n.id <==> m.addr == addr
      {
        NodeAtItsLeaf(t.trie, k, n);
        assert m in AllNodes(t.trie);
        assert t.cache[m.addr] == m;
      }
    }
  }

  lemma {:induction false} RemoveAllAgrees(t: Table, k: nat, addrs: seq<Addr>, now: int)
    requires ValidTable(t, k) && Agrees(t)
    ensures Agrees(RemoveAddrs(t, addrs, now))
  {
    assert Shape(t.trie);
    hide WellFormed, RemoveAddr, KeyedByAddr, Agrees;
    if addrs != [] {
      var front, last := addrs[..|addrs| - 1], addrs[|addrs| - 1];
      RemoveAllAgrees(t, k, front, now);
      RemoveAddrsRemoves(t, k, front, now);
      RemoveAgrees(RemoveAddrs(t, front, now), k, last, now);
    }
  }

  lemma {:induction false} CacheSize(c: Cache)
    requires KeyedByAddr(c)
    ensures |c.Values| == |c|
  {
    if c == map[] {
      assert c.Values == {};
    } else {
      var a :| a in c;
      CacheSize(c - {a});
      CacheRemoveValues(c, a);
      assert c.Values == (c - {a}).Values + {c[a]};
      assert |c.Keys| == |c.Keys - {a}| + 1 && (c - {a}).Keys == c.Keys - {a};
    }
  }

  /** While they agree, the length of the cache counts the nodes of the trie. */
  lemma AgreementCounts(t: Table)
    requires KeyedByAddr(t.cache) && Agrees(t)
    ensures |t.cache| == |AllNodes(t.trie)|
  {
    CacheSize(t.cache);
  }

  // ----- whole runs

  /** A pruning takes the addresses it finds stale or in excess out one by one. */
  datatype Op =
    | Insertion(node: Node, now: int)
    | Removal(addr: Addr, now: int)
    | Pruning(addrs: seq<Addr>, now: int)

  ghost function Apply(t: Table, k: nat, op: Op): (t': Table)
    requires Shape(t.trie)
    ensures Shape(t'.trie)
  {
    match op
    case Insertion(node, now) => InsertInto(t, k, node, now)
    case Removal(addr, now) => RemoveAddr(t, addr, now)
    case Pruning(addrs, now) => RemoveAddrs(t, addrs, now)
  }

  ghost function After(k: nat, start: int, ops: seq<Op>): (t: Table)
    ensures Shape(t.trie)
  {
    if ops == [] then
      EmptyTrieWellFormed(k, start);
      Table(EmptyTrie(start), map[])
    else
      Apply(After(k, start, ops[..|ops| - 1]), k, ops[|ops| - 1])
  }

  /** Over the whole run, ids and addresses are bound to one another. */
  ghost predicate OneBinding(ops: seq<Op>) {
    forall i, j :: 0 <= i < |ops| && 0 <= j < |ops| && ops[i].Insertion? && ops[j].Insertion? ==>
      (ops[i].node.id == ops[j].node.id <==> ops[i].node.addr == ops[j].node.addr)
  }

  ghost predicate Inserted(ops: seq<Op>, n: Node) {
    exists i :: 0 <= i < |ops| && ops[i].Insertion? && ops[i].node == n
  }

  /** Whatever is inserted and removed, the table is valid and holds nothing that was not inserted. */
  lemma {:induction false} RunIsValid(k: nat, start: int, ops: seq<Op>)
    ensures ValidTable(After(k, start, ops), k)
    ensures forall n :: n in AllNodes(After(k, start, ops).trie) ==> Inserted(ops, n)
    ensures forall a :: a in After(k, start, ops).cache ==> Inserted(ops, After(k, start, ops).cache[a])
  {
    hide WellFormed, KeyedByAddr, InsertInto, RemoveAddr, RemoveAddrs, AllNodes, RunsOut;
    if ops == [] {
      EmptyTrieWellFormed(k, start);
      EmptyIsValid(k, start);
    } else {
      var front, op := ops[..|ops| - 1], ops[|ops| - 1];
      RunIsValid(k, start, front);
      var t := After(k, start, front);
      match op {
        case Insertion(node, now) =>
          InsertIntoBinds(t, k, node, now);
          assert ops[|ops| - 1].node == node;
        case Removal(addr, now) =>
          RemoveAddrRemoves(t, k, addr, now);
        case Pruning(addrs, now) =>
          RemoveAddrsRemoves(t, k, addrs, now);
      }
      assert forall n :: Inserted(front, n) ==> Inserted(ops, n) by {
        assert forall i :: 0 <= i < |front| ==> front[i] == ops[i];
      }
    }
  }

  /** However a run goes, one id-address binding keeps cache and trie the same set of nodes. */
  lemma {:induction false} RunAgrees(k: nat, start: int, ops: seq<Op>)
    requires OneBinding(ops)
    ensures Agrees(After(k, start, ops))
    ensures |After(k, start, ops).cache| == |AllNodes(After(k, start, ops).trie)|
  {
    RunIsValid(k, start, ops);
    if ops == [] {
      EmptyTrieWellFormed(k, start);
    } else {
      var front, op := ops[..|ops| - 1], ops[|ops| - 1];
      RunIsValid(k, start, front);
      RunAgrees(k, start, front);
      var t := After(k, start, front);
      match op {
        case Insertion(node, now) =>
          InsertIntoBinds(t, k, node, now);
          if !RunsOut(t.trie, k, node.id) {
            LastInsertionIsBound(ops, AllNodes(t.trie), node);
            InsertAgreesExactly(t, k, node, now);
          }
        case Removal(addr, now) =>
          RemoveAgrees(t, k, addr, now);
        case Pruning(addrs, now) =>
          RemoveAllAgrees(t, k, addrs, now);
      }
    }
    AgreementCounts(After(k, start, ops));
  }

  lemma LastInsertionIsBound(ops: seq<Op>, nodes: set<Node>, node: Node)
    requires ops != [] && OneBinding(ops)
    requires ops[|ops| - 1].Insertion? && ops[|ops| - 1].node == node
    requires forall n :: n in nodes ==> Inserted(ops[..|ops| - 1], n)
    ensures Bound(nodes, node)
  {
    forall m | m in nodes
      ensures m.id == node.id <==> m.addr == node.addr
    {
      var front := ops[..|ops| - 1];
      var i :| 0 <= i < |front| && front[i].Insertion? && front[i].node == m;
      assert ops[i].node == m;
    }
  }

  // ----- where the two claims above stop holding

  const ZERO_ID: Id := seq(ID_BYTES, _ => 0)
  const TWIN_ID: Id := ZERO_ID[19 := 1]

  ghost function Start(start: int): (t: Table)
    ensures ValidTable(t, 0) && Shape(t.trie)
  {
    EmptyTrieWellFormed(0, start);
    Table(EmptyTrie(start), map[])
  }

  lemma AfterOneMore(k: nat, start: int, ops: seq<Op>, op: Op)
    ensures After(k, start, ops + [op]) == Apply(After(k, start, ops), k, op)
  {
    assert (ops + [op])[..|ops + [op]| - 1] == ops;
  }

  lemma TwoInsertions(k: nat, start: int, x: Node, y: Node, later: int)
    ensures ValidTable(Start(start), k) && AllNodes(Start(start).trie) == {}
    ensures ValidTable(InsertInto(Start(start), k, x, 0), k)
    ensures After(k, start, [Insertion(x, 0), Insertion(y, later)])
         == InsertInto(InsertInto(Start(start), k, x, 0), k, y, later)
  {
    hide InsertInto, WellFormed;
    EmptyTrieWellFormed(k, start);
    InsertIntoBinds(Start(start), k, x, 0);
    AfterOneMore(k, start, [], Insertion(x, 0));
    AfterOneMore(k, start, [Insertion(x, 0)], Insertion(y, later));
    assert [] + [Insertion(x, 0)] == [Insertion(x, 0)];
    assert [Insertion(x, 0)] + [Insertion(y, later)] == [Insertion(x, 0), Insertion(y, later)];
  }

  /** An id is heard of at one address and later at another. */
  function Moving(id: Id, a: Addr, b: Addr, later: int): seq<Op> {
    [Insertion(Node(id, a, 0), 0), Insertion(Node(id, b, later), later)]
  }

  /** The binding is needed: one id at two addresses leaves its first address cached. */
  lemma MovedIdDisagrees(k: nat, start: int, id: Id, a: Addr, b: Addr, later: int)
    requires a != b && k >= 2
    ensures
      var t := After(k, start, Moving(id, a, b, later));
      && t.cache == map[a := Node(id, a, 0), b := Node(id, b, later)]
      && AllNodes(t.trie) == {Node(id, b, later)} && !Agrees(t)
  {
    hide After, InsertInto, Shape;
    var first, second := Node(id, a, 0), Node(id, b, later);
    TwoInsertions(k, start, first, second, later);
    var t1 := InsertInto(Start(start), k, first, 0);
    InsertIntoBinds(Start(start), k, first, 0);
    InsertIntoBinds(t1, k, second, later);
    var t2 := InsertInto(t1, k, second, later);
    assert AllNodes(t2.trie) == {second};
    assert t2.cache[a] in t2.cache.Values;
  }

  /** Two ids that differ in nothing but their last bit. */
  lemma LastBitTwins()
    ensures PathTo(ZERO_ID, ID_BITS - 1) == PathTo(TWIN_ID, ID_BITS - 1) && ZERO_ID != TWIN_ID
  {
    forall i | 0 <= i < ID_BITS - 1
      ensures BitAt(ZERO_ID, i) == BitAt(TWIN_ID, i)
    {
      if i / 8 == 19 {
        assert ByteBit(0, i % 8) == ByteBit(1, i % 8);
      }
    }
    assert ZERO_ID[19] != TWIN_ID[19];
  }

  lemma FirstInsertion(start: int, x: Node)
    ensures InsertInto(Start(start), 1, x, 0).trie == Trie({}, map[[] := Bucket([x], [], 0)])
  {
    hide Place, Insert, Shape, WellFormed, BitsOf;
    var t := Start(start).trie;
    assert PathTo(x.id, 0) == [];
    PlaceStores(t, 1, x, 0, 0);
    InsertAlone(start, x);
    assert t.leaves[[] := Bucket([x], [], 0)] == map[[] := Bucket([x], [], 0)];
  }

  lemma InsertAlone(start: int, x: Node)
    ensures Insert(Bucket([], [], start), x, 1, 0).0 == Bucket([x], [], 0)
  {
    assert [] + [x] == [x];
    assert [x][..0] == [];
    assert Reordered([x][..0]) == [];
    assert Reordered([x]) == SortIn([], x) == [x];
  }

  /** Buckets of one are too small: of two ids that differ in their last bit, the second is dropped. */
  lemma OneNodeBucketsDrop(start: int, a: Addr, b: Addr)
    ensures
      var t := After(1, start, [Insertion(Node(ZERO_ID, a, 0), 0), Insertion(Node(TWIN_ID, b, 0), 0)]);
      AllNodes(t.trie) == {Node(ZERO_ID, a, 0)}
  {
    hide After, InsertInto;
    var first, second := Node(ZERO_ID, a, 0), Node(TWIN_ID, b, 0);
    TwoInsertions(1, start, first, second, 0);
    FirstInsertion(start, first);
    var t1 := InsertInto(Start(start), 1, first, 0);
    LastBitTwins();
    OneLeafPerId(t1.trie, TWIN_ID, []);
    assert Twins([first], TWIN_ID) == [first];
    assert RunsOut(t1.trie, 1, TWIN_ID);
    InsertIntoBinds(t1, 1, second, 0);
    assert first in AllNodes(t1.trie) by {
      assert first in t1.trie.leaves[[]].nodes;
    }
  }
}
