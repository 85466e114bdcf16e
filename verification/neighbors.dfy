/** The nodes nearest a target under the XOR metric. */
module Neighbors {
  import opened Bits
  import opened Nodes
  import opened Sequences
  import opened Bitmaps
  import opened Tables
  import opened Pruning

  ghost predicate NearestFirst(nodes: seq<Node>, target: Id) {
    forall i, j :: 0 <= i < j < |nodes| ==> Distance(target, nodes[i].id) <= Distance(target, nodes[j].id)
  }

  /** The `size` nearest cached nodes, nearest first. */
  ghost predicate Nearest(nodes: seq<Node>, c: Cache, target: Id, size: nat) {
    && |nodes| == (if size < |c| then size else |c|)
    && NoDup(nodes)
    && (forall n :: n in nodes ==> n.addr in c && c[n.addr] == n)
    && NearestFirst(nodes, target)
    && (forall a, n :: a in c && c[a] !in nodes && n in nodes ==>
          Distance(target, n.id) <= Distance(target, c[a].id))
  }

  /** Where a node belongs in a sorted list: after everything at most as far. */
  method PlaceFor(sorted: seq<Node>, n: Node, target: Id) returns (j: nat)
    ensures j <= |sorted|
    ensures j > 0 ==> Distance(target, sorted[j - 1].id) <= Distance(target, n.id)
    ensures forall l :: j <= l < |sorted| ==> Distance(target, n.id) < Distance(target, sorted[l].id)
  {
    hide Distance;
    j := |sorted|;
    while j > 0
      invariant j <= |sorted|
      invariant forall l :: j <= l < |sorted| ==> Distance(target, n.id) < Distance(target, sorted[l].id)
    {
      var c := CompareDistance(target, sorted[j - 1].id, n.id);
      if c <= 0 {
        break;
      }
      j := j - 1;
    }
  }

  method SortByDistance(nodes: seq<Node>, target: Id) returns (sorted: seq<Node>)
    ensures multiset(sorted) == multiset(nodes)
    ensures NearestFirst(sorted, target)
  {
    hide NearestFirst, Distance;
    sorted := [];
    EmptyNearestFirst(target);
    for i := 0 to |nodes|
      invariant multiset(sorted) == multiset(nodes[..i])
      invariant NearestFirst(sorted, target)
    {
      var j := PlaceFor(sorted, nodes[i], target);
      PutInOrder(sorted, nodes[i], j, target);
      PutPermutes(sorted, nodes[..i], nodes[i], j);
      sorted := sorted[..j] + [nodes[i]] + sorted[j..];
      assert nodes[..i + 1] == nodes[..i] + [nodes[i]];
    }
    assert nodes[..|nodes|] == nodes;
  }

  lemma PutPermutes(sorted: seq<Node>, nodes: seq<Node>, n: Node, j: nat)
    requires j <= |sorted| && multiset(sorted) == multiset(nodes)
    ensures multiset(sorted[..j] + [n] + sorted[j..]) == multiset(nodes + [n])
  {
    assert sorted == sorted[..j] + sorted[j..];
  }

  lemma EmptyNearestFirst(target: Id)
    ensures NearestFirst([], target)
  {
  }

  lemma PutInOrder(sorted: seq<Node>, n: Node, j: nat, target: Id)
    requires NearestFirst(sorted, target) && j <= |sorted|
    requires j > 0 ==> Distance(target, sorted[j - 1].id) <= Distance(target, n.id)
    requires forall l :: j <= l < |sorted| ==> Distance(target, n.id) <= Distance(target, sorted[l].id)
    ensures NearestFirst(sorted[..j] + [n] + sorted[j..], target)
  {
    var r := sorted[..j] + [n] + sorted[j..];
    forall l | 0 <= l < j
      ensures Distance(target, sorted[l].id) <= Distance(target, n.id)
    {
      assert Distance(target, sorted[l].id) <= Distance(target, sorted[j - 1].id);
    }
    hide Distance;
    forall x, y | 0 <= x < y < |r|
      ensures Distance(target, r[x].id) <= Distance(target, r[y].id)
    {
      assert r[x] == if x < j then sorted[x] else if x == j then n else sorted[x - 1];
      assert r[y] == if y < j then sorted[y] else if y == j then n else sorted[y - 1];
    }
  }

  lemma OmittedIsFarther(sorted: seq<Node>, target: Id, l: nat, n: Node, m: Node)
    requires NearestFirst(sorted, target) && l <= |sorted|
    requires n in sorted[..l] && m in sorted && m !in sorted[..l]
    ensures Distance(target, n.id) <= Distance(target, m.id)
  {
    hide Distance;
    var j :| 0 <= j < l && sorted[j] == n;
    var i :| 0 <= i < |sorted| && sorted[i] == m;
    assert forall x :: 0 <= x < l ==> sorted[x] in sorted[..l];
  }

  lemma CutKeeps(sorted: seq<Node>, target: Id, l: nat)
    requires NoDup(sorted) && NearestFirst(sorted, target) && l <= |sorted|
    ensures NoDup(sorted[..l]) && NearestFirst(sorted[..l], target)
    ensures forall n :: n in sorted[..l] ==> n in sorted
  {
    hide Distance;
  }

  /** Sorting what a cache lists and cutting it off leaves the nearest. */
  lemma CutOffIsNearest(nodes: seq<Node>, sorted: seq<Node>, c: Cache, target: Id, size: nat)
    requires Lists(nodes, c) && |nodes| == |c|
    requires multiset(sorted) == multiset(nodes) && NearestFirst(sorted, target)
    ensures Nearest(sorted[..if |sorted| > size then size else |sorted|], c, target, size)
  {
    hide Distance, NearestFirst, NoDup;
    Permuted(nodes, sorted);
    var l := if |sorted| > size then size else |sorted|;
    CutKeeps(sorted, target, l);
    forall a, n | a in c && c[a] !in sorted[..l] && n in sorted[..l]
      ensures Distance(target, n.id) <= Distance(target, c[a].id)
    {
      OmittedIsFarther(sorted, target, l, n, c[a]);
    }
  }
}
