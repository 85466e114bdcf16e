/** Every tick and every lookup of the machine can happen in every reachable state. */
module DhtPossible {
  import opened Bits
  import opened Nodes
  import opened Sequences
  import opened Bitmaps
  import opened Tries
  import opened Tables
  import opened Pruning
  import opened Plans
  import opened Neighbors
  import opened Backoff
  import opened DhtMachine
  import opened DhtSafety

  // ----- an id under every path

  function WithMask(b: byte, m: nat, bit: bool): byte
    requires m < 8
  {
    if bit then b | Mask(m) else b & !Mask(m)
  }

  lemma WithMaskAt(b: byte, m: nat, bit: bool, l: nat)
    requires m < 8 && l < 8
    ensures ByteBit(WithMask(b, m, bit), l) == if l == m then bit else ByteBit(b, l)
  {
    hide ByteBit, Mask;
    MaskedByte(b, m, l);
  }

  function WithBit(id: Id, i: nat, bit: bool): Id
    requires i < ID_BITS
  {
    id[i / 8 := WithMask(id[i / 8], i % 8, bit)]
  }

  lemma WithBitAt(id: Id, i: nat, bit: bool, j: nat)
    requires i < ID_BITS && j < ID_BITS
    ensures BitAt(WithBit(id, i, bit), j) == if j == i then bit else BitAt(id, j)
  {
    hide ByteBit, WithMask;
    if i / 8 == j / 8 {
      WithMaskAt(id[i / 8], i % 8, bit, j % 8);
    }
  }

  lemma {:induction false} IdUnder(p: Path) returns (id: Id)
    requires |p| <= ID_BITS
    ensures p <= IdBits(id)
  {
    if p == [] {
      id := ZERO_ID;
    } else {
      var l := |p| - 1;
      var rest := IdUnder(p[..l]);
      id := WithBit(rest, l, p[l]);
      forall j | 0 <= j < |p|
        ensures IdBits(id)[j] == p[j]
      {
        WithBitAt(rest, l, p[l], j);
        if j < l {
          assert IdBits(rest)[j] == p[..l][j];
        }
      }
    }
  }

  // ----- the lists that walks yield

  /** The leaves of a trie in some order. */
  lemma CanCover(t: Trie)
    ensures exists entries: seq<Entry> :: CoversOnce(entries, t) && forall e :: e in entries ==> e.path in t.leaves
  {
    CanEnumerate(t.leaves.Keys);
    var paths :| Enumerates(paths, t.leaves.Keys);
    assert forall i :: 0 <= i < |paths| ==> paths[i] in paths;
    var entries := seq(|paths|, i requires 0 <= i < |paths| => Entry(paths[i], t.leaves[paths[i]]));
    forall p | p in t.leaves
      ensures Entry(p, t.leaves[p]) in entries
    {
      var i :| 0 <= i < |paths| && paths[i] == p;
      assert entries[i] == Entry(p, t.leaves[p]);
    }
    assert CoversOnce(entries, t);
  }

  lemma {:induction false} CanTarget(entries: seq<Entry>)
    requires forall e :: e in entries ==> |e.path| <= ID_BITS
    ensures exists targets :: TargetsFit(entries, targets)
  {
    if entries == [] {
      assert TargetsFit(entries, []);
    } else {
      var l := |entries| - 1;
      CanTarget(entries[..l]);
      var targets :| TargetsFit(entries[..l], targets);
      var id := IdUnder(entries[l].path);
      assert TargetsFit(entries, targets + [id]);
    }
  }

  lemma CanPlan(s: Dht, cfg: Config, now: int)
    requires Safe(s, cfg)
    ensures exists tasks :: IsPlan(s, cfg, tasks, now)
  {
    hide Exclusive, Logged, Typed, CoversOnce, TargetsFit, PlanOf;
    CanCover(s.table.trie);
    var entries: seq<Entry> :|
      CoversOnce(entries, s.table.trie) && forall e :: e in entries ==> e.path in s.table.trie.leaves;
    forall e | e in entries
      ensures |e.path| <= ID_BITS
    {
      LeafFacts(s.table.trie, cfg.bucketSize, e.path);
    }
    CanTarget(entries);
    var targets :| TargetsFit(entries, targets);
    PlanFits(s, cfg, entries, targets, now);
  }

  lemma PlanFits(s: Dht, cfg: Config, entries: seq<Entry>, targets: seq<Id>, now: int)
    requires CoversOnce(entries, s.table.trie) && TargetsFit(entries, targets)
    ensures exists tasks :: IsPlan(s, cfg, tasks, now)
  {
    var tasks := PlanOf(entries, targets, now, cfg.bucketExpiry, cfg.refreshNodes);
    assert IsPlan(s, cfg, tasks, now);
  }

  lemma CanListSilent(s: Dht, cfg: Config, now: int)
    ensures exists silent :: ListsSilent(s, cfg, silent, now)
  {
    hide CoversOnce, StaleNodes, Addrs;
    CanCover(s.table.trie);
    var entries: seq<Entry> :|
      CoversOnce(entries, s.table.trie) && forall e :: e in entries ==> e.path in s.table.trie.leaves;
    assert ListsSilent(s, cfg, Addrs(StaleNodes(entries, now, cfg.nodeExpiry)), now);
  }

  lemma CanListTimedOut(s: Dht, cfg: Config, now: int)
    ensures exists dropped :: ListsTimedOut(s, cfg, dropped, now)
  {
    hide TimesOut;
    var out := set tid | tid in s.trans.live && TimesOut(s.trans.live[tid], TIMEOUT, cfg.tries as nat, now);
    CanEnumerate(out);
    var dropped :| Enumerates(dropped, out);
    assert ListsTimedOut(s, cfg, dropped, now);
  }

  lemma CanPrune(t: Table, k: nat, now: int, expiry: nat, max: nat)
    requires ValidTable(t, k) && |t.cache| <= max
    ensures exists pruned :: Pruned(t.cache, Drop(t, pruned, now).cache, now, expiry, max)
  {
    hide ValidTable, Pruned, Drop;
    var stale := set a | a in t.cache && Stale(t.cache[a], now, expiry);
    CanEnumerate(stale);
    var pruned :| Enumerates(pruned, stale);
    assert AddrSet(pruned) == stale;
    DropIsValid(t, k, pruned, now);
    FreshAreLeft(t.cache, pruned, now, expiry);
    Subset(Fresh(t.cache, now, expiry).Keys, t.cache.Keys);
  }

  /** In every safe state, at any time and whoever the first contacts are, a tick can happen. */
  lemma TickIsPossible(s: Dht, cfg: Config, prime: seq<Addr>, now: int)
    requires Safe(s, cfg)
    ensures exists f: Findings :: f.prime == prime && CanFind(s, cfg, f, now)
  {
    hide Safe, ListsTimedOut, IsPlan, ListsSilent, Pruned, SweepOut, Refresh, PingAll, Drop;
    CanListTimedOut(s, cfg, now);
    var dropped :| ListsTimedOut(s, cfg, dropped, now);
    var f := Findings(prime, dropped, [], [], []);
    StagesKeep(s, cfg, f, now);
    CanPlan(AfterSweep(s, cfg, f, now), cfg, now);
    var tasks :| IsPlan(AfterSweep(s, cfg, f, now), cfg, tasks, now);
    var f1 := f.(tasks := tasks);
    CanListSilent(AfterRefresh(s, cfg, f1, now), cfg, now);
    var silent :| ListsSilent(AfterRefresh(s, cfg, f1, now), cfg, silent, now);
    var f2 := f1.(silent := silent);
    StagesKeep(s, cfg, f2, now);
    SafeTable(AfterPings(s, cfg, f2, now), cfg);
    CanPrune(AfterPings(s, cfg, f2, now).table, cfg.bucketSize, now, cfg.nodeExpiry, cfg.maxNodes);
    var table := AfterPings(s, cfg, f2, now).table;
    var pruned :| Pruned(table.cache, Drop(table, pruned, now).cache, now, cfg.nodeExpiry, cfg.maxNodes);
    assert CanFind(s, cfg, f2.(pruned := pruned), now);
  }

  // ----- the nodes nearest a target

  lemma CanList(c: Cache)
    requires KeyedByAddr(c)
    ensures exists nodes :: Lists(nodes, c) && |nodes| == |c|
  {
    CanEnumerate(c.Values);
    var nodes :| Enumerates(nodes, c.Values);
    assert forall a :: a in c ==> c[a] in c.Values;
    assert (set n | n in nodes) == c.Values;
    SetSize(nodes);
    CacheSize(c);
    assert Lists(nodes, c);
  }

  ghost predicate Sorts(sorted: seq<Node>, nodes: seq<Node>, target: Id) {
    multiset(sorted) == multiset(nodes) && NearestFirst(sorted, target)
  }

  lemma {:induction false} CanSort(nodes: seq<Node>, target: Id)
    ensures exists sorted :: Sorts(sorted, nodes, target)
  {
    hide Sorts;
    if nodes == [] {
      EmptySorts(target);
    } else {
      var l := |nodes| - 1;
      CanSort(nodes[..l], target);
      var sorted :| Sorts(sorted, nodes[..l], target);
      var sorted' := SortOneMore(sorted, nodes[..l], nodes[l], target);
      assert nodes == nodes[..l] + [nodes[l]];
    }
  }

  lemma EmptySorts(target: Id)
    ensures Sorts([], [], target)
  {
  }

  lemma SortOneMore(sorted: seq<Node>, nodes: seq<Node>, n: Node, target: Id) returns (sorted': seq<Node>)
    requires Sorts(sorted, nodes, target)
    ensures Sorts(sorted', nodes + [n], target)
  {
    hide NearestFirst, Distance;
    var j := CanPlace(sorted, n, target);
    PutInOrder(sorted, n, j, target);
    PutPermutes(sorted, nodes, n, j);
    sorted' := sorted[..j] + [n] + sorted[j..];
  }

  lemma CanPlace(sorted: seq<Node>, n: Node, target: Id) returns (j: nat)
    ensures j <= |sorted|
    ensures j > 0 ==> Distance(target, sorted[j - 1].id) <= Distance(target, n.id)
    ensures forall l :: j <= l < |sorted| ==> Distance(target, n.id) <= Distance(target, sorted[l].id)
  {
    hide Distance;
    j := |sorted|;
    while j > 0 && Distance(target, sorted[j - 1].id) > Distance(target, n.id)
      invariant j <= |sorted|
      invariant forall l :: j <= l < |sorted| ==> Distance(target, n.id) <= Distance(target, sorted[l].id)
    {
      j := j - 1;
    }
  }

  /** Some nodes are the nearest. */
  lemma SomeAreNearest(c: Cache, target: Id, size: nat)
    requires KeyedByAddr(c)
    ensures exists nodes :: Nearest(nodes, c, target, size)
  {
    hide Lists, NearestFirst, Nearest;
    CanList(c);
    var nodes :| Lists(nodes, c) && |nodes| == |c|;
    CanSort(nodes, target);
    var sorted :| Sorts(sorted, nodes, target);
    CutOffIsNearest(nodes, sorted, c, target, size);
  }

  /** In every safe state a lookup for any id finds nodes to ask. */
  lemma SearchIsPossible(s: Dht, cfg: Config, ih: Id)
    requires Safe(s, cfg)
    ensures exists nodes :: Nearest(nodes, s.table.cache, ih, |s.table.cache|)
  {
    hide Exclusive, Logged, Typed, ValidTable, Nearest;
    ValidKeys(s.table, cfg.bucketSize);
    SomeAreNearest(s.table.cache, ih, |s.table.cache|);
  }
}
