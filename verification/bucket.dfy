/** What a k-bucket holds, as a value, and what each bucket operation makes of it. */
module Buckets {
  import opened Bits
  import opened Nodes
  import opened Sequences

  datatype Bucket = Bucket(nodes: seq<Node>, candidates: seq<Node>, lastChanged: int)

  predicate HasId(nodes: seq<Node>, id: Id) {
    exists i :: 0 <= i < |nodes| && nodes[i].id == id
  }

  predicate DistinctIds(nodes: seq<Node>) {
    forall i, j :: 0 <= i < j < |nodes| ==> nodes[i].id != nodes[j].id
  }

  predicate OldestFirst(nodes: seq<Node>) {
    forall i, j :: 0 <= i < j < |nodes| ==> nodes[i].lastActive <= nodes[j].lastActive
  }

  ghost function NodeSet(nodes: seq<Node>): set<Node> {
    set n | n in nodes
  }

  /** The least index holding `id`, or the length. */
  function PositionOf(nodes: seq<Node>, id: Id): (i: nat)
    ensures i <= |nodes|
    ensures i < |nodes| <==> HasId(nodes, id)
    ensures i < |nodes| ==> nodes[i].id == id
    ensures forall j :: 0 <= j < i ==> nodes[j].id != id
  {
    if nodes == [] then 0
    else if nodes[0].id == id then 0
    else
      var i := PositionOf(nodes[1..], id);
      assert forall j :: 0 <= j < |nodes| - 1 ==> nodes[1..][j] == nodes[j + 1];
      assert forall j :: 1 <= j < |nodes| ==> nodes[j] == nodes[1..][j - 1];
      i + 1
  }

  // ----- the stable sort by last activity

  /** `n` placed after everything at most as recent. */
  function SortIn(nodes: seq<Node>, n: Node): seq<Node> {
    if nodes == [] then [n]
    else if nodes[0].lastActive <= n.lastActive then [nodes[0]] + SortIn(nodes[1..], n)
    else [n] + nodes
  }

  function Reordered(nodes: seq<Node>): seq<Node> {
    if nodes == [] then [] else SortIn(Reordered(nodes[..|nodes| - 1]), nodes[|nodes| - 1])
  }

  lemma {:induction false} SortInPermutes(nodes: seq<Node>, n: Node)
    ensures multiset(SortIn(nodes, n)) == multiset(nodes) + multiset{n}
  {
    if nodes != [] {
      assert nodes == [nodes[0]] + nodes[1..];
      SortInPermutes(nodes[1..], n);
    }
  }

  lemma {:induction false} SortInKeepsOrder(nodes: seq<Node>, n: Node)
    requires OldestFirst(nodes)
    ensures OldestFirst(SortIn(nodes, n))
  {
    if nodes != [] && nodes[0].lastActive <= n.lastActive {
      SortInKeepsOrder(nodes[1..], n);
      SortInPermutes(nodes[1..], n);
      var rest := SortIn(nodes[1..], n);
      forall m | m in rest
        ensures nodes[0].lastActive <= m.lastActive
      {
        assert m in multiset(rest);
      }
    }
  }

  /** Sorting orders the nodes by activity and only permutes them. */
  lemma {:induction false} ReorderedSorts(nodes: seq<Node>)
    ensures OldestFirst(Reordered(nodes))
    ensures multiset(Reordered(nodes)) == multiset(nodes)
    ensures |Reordered(nodes)| == |nodes|
  {
    if nodes != [] {
      var front := nodes[..|nodes| - 1];
      ReorderedSorts(front);
      SortInKeepsOrder(Reordered(front), nodes[|nodes| - 1]);
      SortInPermutes(Reordered(front), nodes[|nodes| - 1]);
      assert nodes == front + [nodes[|nodes| - 1]];
    }
    assert |multiset(Reordered(nodes))| == |multiset(nodes)|;
  }

  /** The nodes last active at `t`, in the order in which they stand. */
  ghost function ActiveAt(nodes: seq<Node>, t: int): seq<Node> {
    if nodes == [] then []
    else (if nodes[0].lastActive == t then [nodes[0]] else []) + ActiveAt(nodes[1..], t)
  }

  lemma ActiveAtCons(n: Node, rest: seq<Node>, t: int)
    ensures ActiveAt([n] + rest, t) == (if n.lastActive == t then [n] else []) + ActiveAt(rest, t)
  {
    assert ([n] + rest)[1..] == rest;
  }

  lemma {:induction false} SortInIsStable(nodes: seq<Node>, n: Node, t: int)
    requires OldestFirst(nodes)
    ensures ActiveAt(SortIn(nodes, n), t) == ActiveAt(nodes, t) + if n.lastActive == t then [n] else []
  {
    hide ActiveAt;
    if nodes == [] || nodes[0].lastActive > n.lastActive {
      ActiveAtCons(n, nodes, t);
      if n.lastActive == t || nodes == [] {
        NoneActiveAt(nodes, t);
      }
      assert [n] + nodes == SortIn(nodes, n);
    } else {
      var first, rest := nodes[0], nodes[1..];
      assert nodes == [first] + rest;
      SortInIsStable(rest, n, t);
      ActiveAtCons(first, SortIn(rest, n), t);
      ActiveAtCons(first, rest, t);
    }
  }

  lemma {:induction false} NoneActiveAt(nodes: seq<Node>, t: int)
    requires forall n :: n in nodes ==> n.lastActive != t
    ensures ActiveAt(nodes, t) == []
  {
    if nodes != [] {
      NoneActiveAt(nodes[1..], t);
    }
  }

  lemma {:induction false} ActiveAtAppend(nodes: seq<Node>, n: Node, t: int)
    ensures ActiveAt(nodes + [n], t) == ActiveAt(nodes, t) + if n.lastActive == t then [n] else []
  {
    if nodes != [] {
      ActiveAtAppend(nodes[1..], n, t);
      assert (nodes + [n])[1..] == nodes[1..] + [n];
    }
  }

  /** Nodes equally active keep their relative order. */
  lemma {:induction false} ReorderedIsStable(nodes: seq<Node>, t: int)
    ensures ActiveAt(Reordered(nodes), t) == ActiveAt(nodes, t)
  {
    if nodes != [] {
      var front, last := nodes[..|nodes| - 1], nodes[|nodes| - 1];
      ReorderedIsStable(front, t);
      ReorderedSorts(front);
      SortInIsStable(Reordered(front), last, t);
      ActiveAtAppend(front, last, t);
      assert nodes == front + [last];
    }
  }

  /** Sorting neither adds, drops nor repeats a node. */
  lemma ReorderedKeepsNodes(nodes: seq<Node>)
    requires DistinctIds(nodes)
    ensures DistinctIds(Reordered(nodes)) && NodeSet(Reordered(nodes)) == NodeSet(nodes)
  {
    var sorted := Reordered(nodes);
    ReorderedSorts(nodes);
    Permuted(nodes, sorted);
    forall i, j | 0 <= i < j < |sorted|
      ensures sorted[i].id != sorted[j].id
    {
      assert sorted[i] in nodes && sorted[j] in nodes;
    }
  }

  // ----- bucket operations

  /** A node already present is overwritten; otherwise it joins if there is room. */
  function Insert(b: Bucket, node: Node, k: nat, now: int): (r: (Bucket, bool)) {
    var pos := PositionOf(b.nodes, node.id);
    if pos < |b.nodes| then
      (Bucket(Reordered(b.nodes[pos := node]), b.candidates, now), false)
    else if |b.nodes| < k then
      (Bucket(Reordered(b.nodes + [node]), b.candidates, now), true)
    else
      (b, false)
  }

  /** A node present is taken out and the newest candidate, if any, takes its place. */
  function Replace(b: Bucket, id: Id, now: int): Bucket {
    var pos := PositionOf(b.nodes, id);
    if pos == |b.nodes| then b
    else
      var rest := b.nodes[..pos] + b.nodes[pos + 1..];
      if b.candidates == [] then Bucket(rest, [], now)
      else
        var last := |b.candidates| - 1;
        Bucket(Reordered(rest + [b.candidates[last]]), b.candidates[..last], now)
  }

  ghost function Without(nodes: set<Node>, id: Id): set<Node> {
    set n | n in nodes && n.id != id
  }

  lemma OverwriteNode(nodes: seq<Node>, pos: nat, node: Node)
    requires pos < |nodes| && DistinctIds(nodes) && nodes[pos].id == node.id
    ensures DistinctIds(nodes[pos := node])
    ensures NodeSet(nodes[pos := node]) == Without(NodeSet(nodes), node.id) + {node}
  {
    var r := nodes[pos := node];
    forall n | n in Without(NodeSet(nodes), node.id) + {node}
      ensures n in r
    {
      if n == node {
        assert r[pos] == n;
      } else {
        var i :| 0 <= i < |nodes| && nodes[i] == n;
        assert r[i] == n;
      }
    }
  }

  lemma AppendNode(nodes: seq<Node>, node: Node)
    requires DistinctIds(nodes) && !HasId(nodes, node.id)
    ensures DistinctIds(nodes + [node])
    ensures NodeSet(nodes + [node]) == Without(NodeSet(nodes), node.id) + {node}
  {
    WithoutAbsent(nodes, node.id);
  }

  lemma WithoutAbsent(nodes: seq<Node>, id: Id)
    requires !HasId(nodes, id)
    ensures Without(NodeSet(nodes), id) == NodeSet(nodes)
  {
  }

  lemma DropNode(nodes: seq<Node>, pos: nat)
    requires pos < |nodes| && DistinctIds(nodes)
    ensures DistinctIds(nodes[..pos] + nodes[pos + 1..])
    ensures NodeSet(nodes[..pos] + nodes[pos + 1..]) == Without(NodeSet(nodes), nodes[pos].id)
  {
    var r := nodes[..pos] + nodes[pos + 1..];
    assert nodes == nodes[..pos] + [nodes[pos]] + nodes[pos + 1..];
    forall n | n in Without(NodeSet(nodes), nodes[pos].id)
      ensures n in r
    {
      assert n != nodes[pos];
    }
  }

  lemma DropKeepsOrder(nodes: seq<Node>, pos: nat)
    requires pos < |nodes| && OldestFirst(nodes)
    ensures OldestFirst(nodes[..pos] + nodes[pos + 1..])
  {
  }

  lemma ReorderedFacts(nodes: seq<Node>)
    requires DistinctIds(nodes)
    ensures DistinctIds(Reordered(nodes)) && OldestFirst(Reordered(nodes))
    ensures NodeSet(Reordered(nodes)) == NodeSet(nodes) && |Reordered(nodes)| == |nodes|
  {
    ReorderedSorts(nodes);
    ReorderedKeepsNodes(nodes);
  }

  /** Inserting binds the id to the node, in place of whatever it was bound to, and marks the bucket as changed. */
  lemma InsertBinds(b: Bucket, node: Node, k: nat, now: int)
    requires DistinctIds(b.nodes)
    requires HasId(b.nodes, node.id) || |b.nodes| < k
    ensures NodeSet(Insert(b, node, k, now).0.nodes) == Without(NodeSet(b.nodes), node.id) + {node}
    ensures DistinctIds(Insert(b, node, k, now).0.nodes) && OldestFirst(Insert(b, node, k, now).0.nodes)
    ensures Insert(b, node, k, now).1 <==> !HasId(b.nodes, node.id)
    ensures |Insert(b, node, k, now).0.nodes| == |b.nodes| + if HasId(b.nodes, node.id) then 0 else 1
    ensures Insert(b, node, k, now).0.candidates == b.candidates && Insert(b, node, k, now).0.lastChanged == now
  {
    var pos := PositionOf(b.nodes, node.id);
    var nodes := if pos < |b.nodes| then b.nodes[pos := node] else b.nodes + [node];
    assert DistinctIds(nodes) && NodeSet(nodes) == Without(NodeSet(b.nodes), node.id) + {node} by {
      if pos < |b.nodes| {
        OverwriteNode(b.nodes, pos, node);
      } else {
        AppendNode(b.nodes, node);
      }
    }
    ReorderedFacts(nodes);
    assert Insert(b, node, k, now).0 == Bucket(Reordered(nodes), b.candidates, now);
  }

  /**
   * Replacing takes out exactly the node with that id, when no candidate waits, and marks the bucket as
   * changed; without such a node nothing changes.
   */
  lemma ReplaceRemoves(b: Bucket, id: Id, now: int)
    requires DistinctIds(b.nodes) && OldestFirst(b.nodes) && b.candidates == []
    ensures
      var b' := Replace(b, id, now);
      && NodeSet(b'.nodes) == Without(NodeSet(b.nodes), id)
      && DistinctIds(b'.nodes) && OldestFirst(b'.nodes)
      && |b'.nodes| <= |b.nodes| && b'.candidates == []
      && (if HasId(b.nodes, id) then b'.lastChanged == now else b' == b)
  {
    var pos := PositionOf(b.nodes, id);
    if pos < |b.nodes| {
      DropNode(b.nodes, pos);
      DropKeepsOrder(b.nodes, pos);
    } else {
      WithoutAbsent(b.nodes, id);
    }
  }

  // ----- dividing a bucket by one bit of the ids

  /** The nodes whose id has `bit` at `depth`, in their order. */
  function Half(nodes: seq<Node>, depth: nat, bit: bool): seq<Node>
    requires depth < ID_BITS
  {
    if nodes == [] then []
    else
      (if BitAt(nodes[0].id, depth) == bit then [nodes[0]] else []) + Half(nodes[1..], depth, bit)
  }

  lemma {:induction false} HalfAppend(nodes: seq<Node>, n: Node, depth: nat, bit: bool)
    requires depth < ID_BITS
    ensures Half(nodes + [n], depth, bit)
         == Half(nodes, depth, bit) + if BitAt(n.id, depth) == bit then [n] else []
  {
    hide BitAt, Half;
    if nodes == [] {
      HalfCons(n, [], depth, bit);
      HalfOfNone(depth, bit);
      assert nodes + [n] == [n] + [];
    } else {
      var first, rest := nodes[0], nodes[1..];
      HalfAppend(rest, n, depth, bit);
      HalfCons(first, rest, depth, bit);
      HalfCons(first, rest + [n], depth, bit);
      assert nodes == [first] + rest && nodes + [n] == [first] + (rest + [n]);
    }
  }

  lemma HalfOfNone(depth: nat, bit: bool)
    requires depth < ID_BITS
    ensures Half([], depth, bit) == []
  {
  }

  lemma HalfCons(n: Node, rest: seq<Node>, depth: nat, bit: bool)
    requires depth < ID_BITS
    ensures Half([n] + rest, depth, bit) == (if BitAt(n.id, depth) == bit then [n] else []) + Half(rest, depth, bit)
  {
    hide BitAt;
    assert ([n] + rest)[1..] == rest;
  }

  /** A half keeps exactly the nodes on its side. */
  lemma {:induction false} HalfMembers(nodes: seq<Node>, depth: nat, bit: bool)
    requires depth < ID_BITS
    ensures forall n: Node :: n in Half(nodes, depth, bit) <==> n in nodes && BitAt(n.id, depth) == bit
    ensures |Half(nodes, depth, bit)| <= |nodes|
  {
    if nodes != [] {
      HalfMembers(nodes[1..], depth, bit);
      assert nodes == [nodes[0]] + nodes[1..];
    }
  }

  /** The nodes of a half stay in order and keep distinct ids. */
  lemma {:induction false} HalfKeepsOrder(nodes: seq<Node>, depth: nat, bit: bool)
    requires depth < ID_BITS && DistinctIds(nodes) && OldestFirst(nodes)
    ensures DistinctIds(Half(nodes, depth, bit)) && OldestFirst(Half(nodes, depth, bit))
  {
    if nodes != [] {
      HeadComesFirst(nodes);
      HalfKeepsOrder(nodes[1..], depth, bit);
      HalfMembers(nodes[1..], depth, bit);
      if BitAt(nodes[0].id, depth) == bit {
        PutFirst(nodes[0], Half(nodes[1..], depth, bit));
      } else {
        assert Half(nodes, depth, bit) == Half(nodes[1..], depth, bit);
      }
    }
  }

  lemma HeadComesFirst(nodes: seq<Node>)
    requires nodes != [] && DistinctIds(nodes) && OldestFirst(nodes)
    ensures DistinctIds(nodes[1..]) && OldestFirst(nodes[1..])
    ensures forall n :: n in nodes[1..] ==> nodes[0].id != n.id && nodes[0].lastActive <= n.lastActive
  {
  }

  lemma PutFirst(n: Node, nodes: seq<Node>)
    requires DistinctIds(nodes) && OldestFirst(nodes)
    requires forall m :: m in nodes ==> n.id != m.id && n.lastActive <= m.lastActive
    ensures DistinctIds([n] + nodes) && OldestFirst([n] + nodes)
  {
  }
}
