/** When a leaf of the trie last changed, and so when it is due for a refresh. */
module Ages {
  import opened Bits
  import opened Nodes
  import opened Buckets
  import opened Tries
  import opened Tables
  import opened Plans

  // ----- what one operation marks

  /**
   * An insertion marks the leaves it makes by splitting and, if it stores the node, the leaf of its id.
   * Every other leaf is as it was.
   */
  lemma {:induction false} PlaceMarks(t: Trie, k: nat, node: Node, now: int, d: nat)
    requires Shape(t) && d <= ID_BITS && Vertex(t, PathTo(node.id, d))
    ensures
      var (t', outcome) := Place(t, k, node, now, d);
      && t.inner <= t'.inner
      && forall q :: q in t'.leaves ==>
           if q !in t.leaves || (outcome.Stored? && q <= IdBits(node.id)) then t'.leaves[q].lastChanged == now
           else t'.leaves[q] == t.leaves[q]
    decreases ID_BITS - d
  {
    hide HasId;
    var p := PathTo(node.id, d);
    if d < ID_BITS && p in t.inner {
      PathStep(node.id, d);
      PlaceMarks(t, k, node, now, d + 1);
    } else if d < ID_BITS {
      var b := t.leaves[p];
      if |b.nodes| < k || HasId(b.nodes, node.id) {
        StoreMarks(t, k, node, now, p);
      } else {
        var t1 := SplitAt(t, p, now);
        SplitShape(t, p, now);
        SplitVertices(t, p, now);
        PathStep(node.id, d);
        PlaceMarks(t1, k, node, now, d + 1);
        SplitMarks(t, p, now);
      }
    }
  }

  lemma StoreMarks(t: Trie, k: nat, node: Node, now: int, p: Path)
    requires Shape(t) && p in t.leaves && p <= IdBits(node.id)
    requires |t.leaves[p].nodes| < k || HasId(t.leaves[p].nodes, node.id)
    ensures
      var t' := PutLeaf(t, p, Insert(t.leaves[p], node, k, now).0);
      forall q :: q in t'.leaves ==>
        && q in t.leaves
        && if q <= IdBits(node.id) then t'.leaves[q].lastChanged == now else t'.leaves[q] == t.leaves[q]
  {
    forall q | q in t.leaves && q <= IdBits(node.id)
      ensures q == p
    {
      OneLeafPerId(t, node.id, p);
      OneLeafPerId(t, node.id, q);
    }
  }

  lemma SplitMarks(t: Trie, p: Path, now: int)
    requires Shape(t) && p in t.leaves && |p| < ID_BITS
    ensures
      var t' := SplitAt(t, p, now);
      forall q :: q in t'.leaves ==>
        if q in t.leaves then q != p && t'.leaves[q] == t.leaves[q] else t'.leaves[q].lastChanged == now
  {
    KidsAreNew(t, p, false);
    KidsAreNew(t, p, true);
    forall q | q in SplitAt(t, p, now).leaves
      ensures if q in t.leaves then q != p && SplitAt(t, p, now).leaves[q] == t.leaves[q]
              else SplitAt(t, p, now).leaves[q].lastChanged == now
    {
      SplitLookup(t, p, now, q);
      assert p <= Kid(p, false) && p <= Kid(p, true);
    }
  }

  /** A removal marks the leaf of the id if that held it, and leaves all others as they were. */
  lemma RemoveMarks(t: Trie, id: Id, now: int)
    requires Shape(t)
    ensures RemoveId(t, id, now).leaves.Keys == t.leaves.Keys
    ensures forall q :: q in t.leaves ==>
              if q <= IdBits(id) && HasId(t.leaves[q].nodes, id) then RemoveId(t, id, now).leaves[q].lastChanged == now
              else RemoveId(t, id, now).leaves[q] == t.leaves[q]
  {
    forall q | q in t.leaves && q <= IdBits(id)
      ensures q == LeafOf(t, id)
    {
      OneLeafPerId(t, id, q);
    }
  }

  // ----- over whole runs

  /** Of a leaf that is there after the operation: it was made, stored into, or has lost a node. */
  ghost predicate Touches(t: Table, k: nat, op: Op, p: Path)
    requires Shape(t.trie)
  {
    || p !in t.trie.leaves
    || match op
       case Insertion(node, _) => p <= IdBits(node.id) && !RunsOut(t.trie, k, node.id)
       case _ => LosesNode(t, Apply(t, k, op), p)
  }

  ghost predicate LosesNode(t: Table, t': Table, p: Path) {
    exists n :: n in AllNodes(t.trie) && n !in AllNodes(t'.trie) && p <= IdBits(n.id)
  }

  /** The leaf is marked with `now` if the condition holds, and else as it was. */
  ghost predicate MarkedIf(t: Table, t': Table, p: Path, now: int, condition: bool) {
    && p in t'.trie.leaves
    && if condition then t'.trie.leaves[p].lastChanged == now
       else p in t.trie.leaves && t'.trie.leaves[p] == t.trie.leaves[p]
  }

  lemma RemoveAddrMarks(t: Table, k: nat, addr: Addr, now: int, p: Path)
    requires ValidTable(t, k) && p in t.trie.leaves
    ensures MarkedIf(t, RemoveAddr(t, addr, now), p, now, LosesNode(t, RemoveAddr(t, addr, now), p))
  {
    hide AllNodes;
    RemoveAddrRemoves(t, k, addr, now);
    if addr in t.cache {
      var id := t.cache[addr].id;
      RemoveMarks(t.trie, id, now);
      if p <= IdBits(id) {
        HasIdInTrie(t.trie, k, p, id);
      }
    }
  }

  lemma {:induction false} RemoveAddrsMarks(t: Table, k: nat, addrs: seq<Addr>, now: int, p: Path)
    requires ValidTable(t, k) && p in t.trie.leaves
    ensures MarkedIf(t, RemoveAddrs(t, addrs, now), p, now, LosesNode(t, RemoveAddrs(t, addrs, now), p))
  {
    assert Shape(t.trie);
    hide WellFormed, KeyedByAddr, AllNodes, RemoveAddr;
    if addrs != [] {
      var front, last := addrs[..|addrs| - 1], addrs[|addrs| - 1];
      var mid := RemoveAddrs(t, front, now);
      RemoveAddrsMarks(t, k, front, now, p);
      RemoveAddrsRemoves(t, k, front, now);
      RemoveAddrRemoves(mid, k, last, now);
      RemoveAddrMarks(mid, k, last, now, p);
      assert LosesNode(t, RemoveAddr(mid, last, now), p) <==>
             LosesNode(t, mid, p) || LosesNode(mid, RemoveAddr(mid, last, now), p);
    }
  }

  /** One operation marks exactly the leaves it touches. */
  lemma ApplyMarks(t: Table, k: nat, op: Op, p: Path)
    requires ValidTable(t, k) && p in Apply(t, k, op).trie.leaves
    ensures MarkedIf(t, Apply(t, k, op), p, op.now, Touches(t, k, op, p))
  {
    hide AllNodes, KeyedByAddr, LosesNode;
    match op {
      case Insertion(node, now) =>
        assert PathTo(node.id, 0) == [];
        PlaceMarks(t.trie, k, node, now, 0);
        PlaceRunsOutExactly(t.trie, k, node, now, 0);
      case Removal(addr, now) =>
        RemovalKeepsLeaves(t, [addr], now);
        RemoveAddrMarks(t, k, addr, now, p);
      case Pruning(addrs, now) =>
        RemovalKeepsLeaves(t, addrs, now);
        RemoveAddrsMarks(t, k, addrs, now, p);
    }
  }

  lemma {:induction false} RemovalKeepsLeaves(t: Table, addrs: seq<Addr>, now: int)
    requires Shape(t.trie)
    ensures RemoveAddrs(t, addrs, now).trie.leaves.Keys == t.trie.leaves.Keys
    ensures |addrs| == 1 ==> RemoveAddrs(t, addrs, now) == RemoveAddr(t, addrs[0], now)
  {
    if addrs != [] {
      var front := addrs[..|addrs| - 1];
      RemovalKeepsLeaves(t, front, now);
      var mid := RemoveAddrs(t, front, now);
      if addrs[|addrs| - 1] in mid.cache {
        RemoveMarks(mid.trie, mid.cache[addrs[|addrs| - 1]].id, now);
      }
    }
  }

  /** The operation at `i` touches the leaf. */
  ghost predicate TouchedAt(k: nat, start: int, ops: seq<Op>, p: Path, i: nat)
    requires i < |ops|
  {
    p in After(k, start, ops[..i + 1]).trie.leaves && Touches(After(k, start, ops[..i]), k, ops[i], p)
  }

  /** No operation from `from` on touches the leaf. */
  ghost predicate Rests(k: nat, start: int, ops: seq<Op>, p: Path, from: nat) {
    forall i :: from <= i < |ops| ==> !TouchedAt(k, start, ops, p, i)
  }

  /** The time of the operation that last touched the leaf; the root is there from the start. */
  ghost predicate LastTouched(k: nat, start: int, ops: seq<Op>, p: Path, time: int) {
    || (p == [] && time == start && Rests(k, start, ops, p, 0))
    || exists i ::
         0 <= i < |ops| && TouchedAt(k, start, ops, p, i) && time == ops[i].now && Rests(k, start, ops, p, i + 1)
  }

  lemma TouchedInFront(k: nat, start: int, ops: seq<Op>, p: Path, i: nat)
    requires i + 1 < |ops|
    ensures TouchedAt(k, start, ops[..|ops| - 1], p, i) <==> TouchedAt(k, start, ops, p, i)
  {
    hide After;
    var front := ops[..|ops| - 1];
    assert front[..i] == ops[..i] && front[..i + 1] == ops[..i + 1];
  }

  lemma TouchedLast(k: nat, start: int, ops: seq<Op>, p: Path)
    requires ops != [] && p in After(k, start, ops).trie.leaves
    ensures
      var t, op := After(k, start, ops[..|ops| - 1]), ops[|ops| - 1];
      TouchedAt(k, start, ops, p, |ops| - 1) <==> Touches(t, k, op, p)
  {
    assert ops[..|ops|] == ops;
  }

  /** After any run, every leaf bears the time at which it was last touched. */
  lemma {:induction false} LastChangedExactly(k: nat, start: int, ops: seq<Op>, p: Path)
    requires p in After(k, start, ops).trie.leaves
    ensures LastTouched(k, start, ops, p, After(k, start, ops).trie.leaves[p].lastChanged)
  {
    hide Apply, Touches, TouchedAt, ValidTable, Shape;
    if ops != [] {
      var l, front := |ops| - 1, ops[..|ops| - 1];
      var t := After(k, start, front);
      RunIsValid(k, start, front);
      ApplyMarks(t, k, ops[l], p);
      TouchedLast(k, start, ops, p);
      if !Touches(t, k, ops[l], p) {
        LastChangedExactly(k, start, front, p);
        forall i: nat | i < l
          ensures TouchedAt(k, start, front, p, i) <==> TouchedAt(k, start, ops, p, i)
        {
          TouchedInFront(k, start, ops, p, i);
        }
      }
    }
  }

  /** Operations happen one after another. */
  ghost predicate Ascending(start: int, ops: seq<Op>) {
    && (forall i :: 0 <= i < |ops| ==> start <= ops[i].now)
    && forall i, j :: 0 <= i < j < |ops| ==> ops[i].now <= ops[j].now
  }

  /** Nothing younger than `expiry` touches the leaf, which the root is from the start. */
  ghost predicate LongUntouched(k: nat, start: int, ops: seq<Op>, p: Path, now: int, expiry: nat) {
    && (p == [] ==> now - start >= expiry)
    && forall i :: 0 <= i < |ops| && TouchedAt(k, start, ops, p, i) ==> now - ops[i].now >= expiry
  }

  lemma LongUntouchedExactly(k: nat, start: int, ops: seq<Op>, p: Path, time: int, now: int, expiry: nat)
    requires Ascending(start, ops) && LastTouched(k, start, ops, p, time)
    ensures now - time >= expiry <==> LongUntouched(k, start, ops, p, now, expiry)
  {
    hide TouchedAt;
  }

  /**
   * After any run in which time does not go back, a refresh asks each of the first `num` nodes of a leaf
   * if no insertion, removal or split younger than `expiry` has touched it, and else none of them.
   */
  lemma RefreshedExactly(k: nat, start: int, ops: seq<Op>, entries: seq<Entry>, targets: seq<Id>,
                         now: int, expiry: nat, num: nat, p: Path)
    requires Ascending(start, ops) && p in After(k, start, ops).trie.leaves
    requires CoversOnce(entries, After(k, start, ops).trie) && TargetsFit(entries, targets)
    ensures
      var size := |After(k, start, ops).trie.leaves[p].nodes|;
      |TasksUnder(PlanOf(entries, targets, now, expiry, num), p)| ==
      if !LongUntouched(k, start, ops, p, now, expiry) then 0 else if size < num then size else num
  {
    hide After, LongUntouched, LastTouched, Ascending, Shape, PlanOf, TasksUnder;
    LastChangedExactly(k, start, ops, p);
    LongUntouchedExactly(k, start, ops, p, After(k, start, ops).trie.leaves[p].lastChanged, now, expiry);
    EachLeafItsShare(entries, targets, After(k, start, ops).trie, now, expiry, num, p);
  }
}
