/**
 * The binary trie of k-buckets as a value: which paths are inner vertices, and which are leaves
 * with what buckets. What one insertion and one removal make of it is defined here.
 */
module Tries {
  import opened Bits
  import opened Nodes
  import opened Buckets

  datatype Trie = Trie(inner: set<Path>, leaves: map<Path, Bucket>)

  datatype Placement = Stored(isNew: bool) | RanOut

  function Kid(p: Path, bit: bool): Path {
    p + [bit]
  }

  predicate Vertex(t: Trie, p: Path) {
    p in t.inner || p in t.leaves
  }

  /** Every inner vertex has two children, every leaf none. */
  ghost predicate Shape(t: Trie) {
    && Vertex(t, [])
    && (forall p :: p in t.inner ==> |p| < ID_BITS && p !in t.leaves)
    && (forall p, bit {:trigger Kid(p, bit)} :: p in t.inner ==> Vertex(t, Kid(p, bit)))
    && (forall p :: p in t.leaves ==> |p| <= ID_BITS)
    && (forall p, q :: p in t.leaves && Vertex(t, q) && p <= q ==> p == q)
  }

  /** A bucket within its bounds, in order, with nothing but nodes of its own prefix. */
  ghost predicate BucketFits(p: Path, b: Bucket, k: nat) {
    && |b.nodes| <= k
    && DistinctIds(b.nodes)
    && OldestFirst(b.nodes)
    && b.candidates == []
    && forall n :: n in b.nodes ==> p <= IdBits(n.id)
  }

  /** A leaf other than the root was split off when `k + 1` ids shared its parent's prefix. */
  ghost predicate Crowded(p: Path, k: nat) {
    0 < |p| <= ID_BITS ==> k + 1 <= Pow2(ID_BITS + 1 - |p|)
  }

  ghost predicate WellFormed(t: Trie, k: nat) {
    Shape(t) && forall p :: p in t.leaves ==> BucketFits(p, t.leaves[p], k) && Crowded(p, k)
  }

  ghost function AllNodes(t: Trie): set<Node> {
    set p, n | p in t.leaves && n in t.leaves[p].nodes :: n
  }

  ghost function PathTo(id: Id, d: nat): (p: Path)
    requires d <= ID_BITS
    ensures |p| == d
  {
    IdBits(id)[..d]
  }

  lemma PathStep(id: Id, d: nat)
    requires d < ID_BITS
    ensures PathTo(id, d + 1) == Kid(PathTo(id, d), BitAt(id, d))
  {
  }

  /** The leaf reached from the vertex at depth `d` by the bits of `id`. */
  ghost function LeafFrom(t: Trie, id: Id, d: nat): (p: Path)
    requires Shape(t) && d <= ID_BITS && Vertex(t, PathTo(id, d))
    ensures p in t.leaves && p <= IdBits(id)
    decreases ID_BITS - d
  {
    if PathTo(id, d) in t.leaves then PathTo(id, d)
    else
      PathStep(id, d);
      LeafFrom(t, id, d + 1)
  }

  ghost function LeafOf(t: Trie, id: Id): (p: Path)
    requires Shape(t)
    ensures p in t.leaves && p <= IdBits(id)
  {
    assert PathTo(id, 0) == [];
    LeafFrom(t, id, 0)
  }

  lemma LeafFromStep(t: Trie, id: Id, d: nat)
    requires Shape(t) && d < ID_BITS && PathTo(id, d) in t.inner
    ensures Vertex(t, PathTo(id, d + 1)) && LeafFrom(t, id, d) == LeafFrom(t, id, d + 1)
  {
    PathStep(id, d);
  }

  lemma LeafFromHere(t: Trie, id: Id, d: nat)
    requires Shape(t) && d <= ID_BITS && Vertex(t, PathTo(id, d)) && (d < ID_BITS ==> PathTo(id, d) in t.leaves)
    ensures PathTo(id, d) in t.leaves && LeafFrom(t, id, d) == PathTo(id, d)
  {
  }

  /** Exactly one leaf's path is a prefix of an id. */
  lemma OneLeafPerId(t: Trie, id: Id, p: Path)
    requires Shape(t) && p in t.leaves && p <= IdBits(id)
    ensures p == LeafOf(t, id)
  {
    var q := LeafOf(t, id);
    if |p| <= |q| {
      assert p <= q && Vertex(t, q);
    } else {
      assert q <= p && Vertex(t, p);
    }
  }

  /** A node of the trie is in the bucket of its own leaf, and is the only one with its id. */
  lemma NodeAtItsLeaf(t: Trie, k: nat, n: Node)
    requires WellFormed(t, k) && n in AllNodes(t)
    ensures n in t.leaves[LeafOf(t, n.id)].nodes
    ensures forall m :: m in AllNodes(t) && m.id == n.id ==> m == n
  {
    forall m | m in AllNodes(t) && m.id == n.id
      ensures m in t.leaves[LeafOf(t, n.id)].nodes
    {
      var p :| p in t.leaves && m in t.leaves[p].nodes;
      OneLeafPerId(t, n.id, p);
    }
  }

  // ----- splitting a leaf

  function HalfBucket(b: Bucket, depth: nat, bit: bool, now: int): Bucket
    requires depth < ID_BITS
  {
    Bucket(Half(b.nodes, depth, bit), Half(b.candidates, depth, bit), now)
  }

  function SplitAt(t: Trie, p: Path, now: int): Trie
    requires p in t.leaves && |p| < ID_BITS
  {
    Trie(t.inner + {p},
         (t.leaves - {p})[Kid(p, false) := HalfBucket(t.leaves[p], |p|, false, now)]
                         [Kid(p, true) := HalfBucket(t.leaves[p], |p|, true, now)])
  }

  lemma KidsApart(p: Path, q: Path, x: bool, y: bool)
    ensures Kid(p, x) == Kid(q, y) <==> p == q && x == y
    ensures Kid(p, x) <= Kid(q, y) ==> Kid(p, x) == Kid(q, y) || Kid(p, x) <= q
    ensures p <= Kid(p, x) && p != Kid(p, x)
  {
    if Kid(p, x) == Kid(q, y) {
      assert p == Kid(p, x)[..|p|] == Kid(q, y)[..|q|] == q;
      assert Kid(p, x)[|p|] == Kid(q, y)[|q|];
    }
  }

  /** The vertices after a split are those before it and the two new leaves. */
  lemma SplitVertices(t: Trie, p: Path, now: int)
    requires p in t.leaves && |p| < ID_BITS
    ensures forall q :: Vertex(SplitAt(t, p, now), q) <==> Vertex(t, q) || q == Kid(p, false) || q == Kid(p, true)
    ensures forall q :: q in SplitAt(t, p, now).leaves <==>
                        (q in t.leaves && q != p) || q == Kid(p, false) || q == Kid(p, true)
  {
    KidsApart(p, p, false, true);
  }

  lemma SplitLookup(t: Trie, p: Path, now: int, q: Path)
    requires p in t.leaves && |p| < ID_BITS && q in SplitAt(t, p, now).leaves
    ensures forall bit :: q == Kid(p, bit) ==> SplitAt(t, p, now).leaves[q] == HalfBucket(t.leaves[p], |p|, bit, now)
    ensures q != Kid(p, false) && q != Kid(p, true) ==>
              q in t.leaves && q != p && SplitAt(t, p, now).leaves[q] == t.leaves[q]
  {
    KidsApart(p, p, false, true);
  }

  lemma KidsAreNew(t: Trie, p: Path, bit: bool)
    requires Shape(t) && p in t.leaves
    ensures !Vertex(t, Kid(p, bit))
  {
    assert p <= Kid(p, bit) && p != Kid(p, bit);
  }

  lemma SplitShape(t: Trie, p: Path, now: int)
    requires Shape(t) && p in t.leaves && |p| < ID_BITS
    ensures Shape(SplitAt(t, p, now))
  {
    var t' := SplitAt(t, p, now);
    SplitVertices(t, p, now);
    KidsAreNew(t, p, false);
    KidsAreNew(t, p, true);
    forall q, bit | q in t'.inner
      ensures Vertex(t', Kid(q, bit))
    {
      if q == p {
        assert Kid(q, bit) == Kid(p, false) || Kid(q, bit) == Kid(p, true);
      }
    }
    forall q, r | q in t'.leaves && Vertex(t', r) && q <= r
      ensures q == r
    {
      SplitPrefixFree(t, p, q, r);
    }
  }

  lemma SplitPrefixFree(t: Trie, p: Path, q: Path, r: Path)
    requires Shape(t) && p in t.leaves
    requires (q in t.leaves && q != p) || q == Kid(p, false) || q == Kid(p, true)
    requires Vertex(t, r) || r == Kid(p, false) || r == Kid(p, true)
    requires q <= r
    ensures q == r
  {
    assert q !in t.leaves ==> p <= r;
    if !Vertex(t, r) && q in t.leaves {
      assert |q| <= |p| ==> q <= p && Vertex(t, p);
      assert |q| == |p| + 1 ==> p <= q && Vertex(t, q);
    }
  }

  /** A split moves every node of the leaf to one of the two new leaves and loses none. */
  lemma SplitKeepsNodes(t: Trie, p: Path, now: int)
    requires p in t.leaves && |p| < ID_BITS && forall q :: q in t.leaves && p <= q ==> p == q
    ensures AllNodes(SplitAt(t, p, now)) == AllNodes(t)
  {
    var t' := SplitAt(t, p, now);
    SplitVertices(t, p, now);
    HalfMembers(t.leaves[p].nodes, |p|, false);
    HalfMembers(t.leaves[p].nodes, |p|, true);
    forall n | n in AllNodes(t)
      ensures n in AllNodes(t')
    {
      var q :| q in t.leaves && n in t.leaves[q].nodes;
      var q' := if q == p then Kid(p, BitAt(n.id, |p|)) else q;
      SplitLookup(t, p, now, q');
      assert n in t'.leaves[q'].nodes;
    }
    forall n | n in AllNodes(t')
      ensures n in AllNodes(t)
    {
      var q' :| q' in t'.leaves && n in t'.leaves[q'].nodes;
      SplitLookup(t, p, now, q');
      var q := if q' == Kid(p, false) || q' == Kid(p, true) then p else q';
      assert n in t.leaves[q].nodes;
    }
  }

  lemma LeafFacts(t: Trie, k: nat, p: Path)
    requires WellFormed(t, k) && p in t.leaves
    ensures |p| <= ID_BITS && |t.leaves[p].nodes| <= k
    ensures forall q :: q in t.leaves && p <= q ==> p == q
  {
    assert forall q :: q in t.leaves ==> Vertex(t, q);
  }

  lemma HalfFits(p: Path, b: Bucket, bit: bool, k: nat, now: int)
    requires |p| < ID_BITS && BucketFits(p, b, k)
    ensures BucketFits(Kid(p, bit), HalfBucket(b, |p|, bit, now), k)
  {
    HalfMembers(b.nodes, |p|, bit);
    HalfKeepsOrder(b.nodes, |p|, bit);
    forall n | n in Half(b.nodes, |p|, bit)
      ensures Kid(p, bit) <= IdBits(n.id)
    {
      assert p <= IdBits(n.id) && IdBits(n.id)[|p|] == bit;
    }
  }

  // ----- how many ids share a prefix

  ghost function Suffixes(nodes: seq<Node>, l: nat): set<Path>
    requires l <= ID_BITS
  {
    set n | n in nodes :: IdBits(n.id)[l..]
  }

  lemma SuffixDeterminesId(p: Path, a: Id, b: Id)
    requires p <= IdBits(a) && p <= IdBits(b)
    requires IdBits(a)[|p|..] == IdBits(b)[|p|..]
    ensures a == b
  {
    assert IdBits(a) == p + IdBits(a)[|p|..] && IdBits(b) == p + IdBits(b)[|p|..];
    IdBitsInjective(a, b);
  }

  lemma {:induction false} SuffixCount(nodes: seq<Node>, p: Path)
    requires |p| <= ID_BITS && DistinctIds(nodes)
    requires forall n :: n in nodes ==> p <= IdBits(n.id)
    ensures |Suffixes(nodes, |p|)| == |nodes|
  {
    if nodes == [] {
      assert Suffixes(nodes, |p|) == {};
    } else {
      SuffixCount(nodes[1..], p);
      var s := IdBits(nodes[0].id)[|p|..];
      assert nodes == [nodes[0]] + nodes[1..];
      assert Suffixes(nodes, |p|) == Suffixes(nodes[1..], |p|) + {s};
      forall n | n in nodes[1..]
        ensures IdBits(n.id)[|p|..] != s
      {
        if IdBits(n.id)[|p|..] == s {
          SuffixDeterminesId(p, n.id, nodes[0].id);
        }
      }
    }
  }

  /** A full bucket and one more id under the same prefix leave room for splitting below it. */
  lemma FullBucketHasDepth(p: Path, b: Bucket, k: nat, node: Node)
    requires |p| <= ID_BITS && BucketFits(p, b, k) && |b.nodes| == k
    requires p <= IdBits(node.id) && !HasId(b.nodes, node.id)
    ensures k + 1 <= Pow2(ID_BITS - |p|)
  {
    hide IdBits, Pow2, OldestFirst;
    var all := b.nodes + [node];
    SuffixCount(all, p);
    FewStringsOfLength(Suffixes(all, |p|), ID_BITS - |p|);
  }

  /** Splitting a full leaf for an id it lacks keeps the trie well formed. */
  lemma SplitWellFormed(t: Trie, k: nat, p: Path, node: Node, now: int)
    requires WellFormed(t, k) && p in t.leaves && |p| < ID_BITS
    requires |t.leaves[p].nodes| == k && p <= IdBits(node.id) && !HasId(t.leaves[p].nodes, node.id)
    ensures WellFormed(SplitAt(t, p, now), k)
  {
    SplitShape(t, p, now);
    FullBucketHasDepth(p, t.leaves[p], k, node);
    forall q | q in SplitAt(t, p, now).leaves
      ensures BucketFits(q, SplitAt(t, p, now).leaves[q], k) && Crowded(q, k)
    {
      SplitLookup(t, p, now, q);
      if q == Kid(p, false) {
        HalfFits(p, t.leaves[p], false, k, now);
      } else if q == Kid(p, true) {
        HalfFits(p, t.leaves[p], true, k, now);
      }
    }
  }

  // ----- insertion

  function PutLeaf(t: Trie, p: Path, b: Bucket): Trie {
    Trie(t.inner, t.leaves[p := b])
  }

  lemma PutLeafShape(t: Trie, p: Path, b: Bucket)
    requires Shape(t) && p in t.leaves
    ensures Shape(PutLeaf(t, p, b))
  {
    assert forall q :: Vertex(PutLeaf(t, p, b), q) <==> Vertex(t, q);
  }

  /**
   * Inserting from the vertex at depth `d`: descend to a leaf, store there if the leaf has room or
   * the id already, and otherwise split the leaf and go on below. A leaf at depth 160 is never
   * looked at: the search stops after 160 bits.
   */
  ghost function Place(t: Trie, k: nat, node: Node, now: int, d: nat): (r: (Trie, Placement))
    requires Shape(t) && d <= ID_BITS && Vertex(t, PathTo(node.id, d))
    ensures Shape(r.0)
    decreases ID_BITS - d
  {
    var p := PathTo(node.id, d);
    if d == ID_BITS then (t, RanOut)
    else if p in t.inner then
      PathStep(node.id, d);
      Place(t, k, node, now, d + 1)
    else
      var b := t.leaves[p];
      if |b.nodes| < k || HasId(b.nodes, node.id) then
        var (b', isNew) := Insert(b, node, k, now);
        PutLeafShape(t, p, b');
        (PutLeaf(t, p, b'), Stored(isNew))
      else
        SplitShape(t, p, now);
        SplitVertices(t, p, now);
        PathStep(node.id, d);
        Place(SplitAt(t, p, now), k, node, now, d + 1)
  }

  ghost function InsertNode(t: Trie, k: nat, node: Node, now: int): (r: (Trie, Placement))
    requires Shape(t)
    ensures Shape(r.0)
  {
    assert PathTo(node.id, 0) == [];
    Place(t, k, node, now, 0)
  }

  lemma PutLeafWellFormed(t: Trie, k: nat, p: Path, b: Bucket)
    requires WellFormed(t, k) && p in t.leaves && BucketFits(p, b, k)
    ensures WellFormed(PutLeaf(t, p, b), k)
  {
    PutLeafShape(t, p, b);
  }

  /** What storing a bucket at a leaf does to the nodes as a whole. */
  lemma PutLeafNodes(t: Trie, k: nat, p: Path, b: Bucket, id: Id, added: set<Node>)
    requires WellFormed(t, k) && p in t.leaves && p <= IdBits(id)
    requires NodeSet(b.nodes) == Without(NodeSet(t.leaves[p].nodes), id) + added
    ensures AllNodes(PutLeaf(t, p, b)) == Without(AllNodes(t), id) + added
  {
    var t' := PutLeaf(t, p, b);
    forall n | n in AllNodes(t')
      ensures n in Without(AllNodes(t), id) + added
    {
      var q :| q in t'.leaves && n in t'.leaves[q].nodes;
      if q == p {
        assert n in NodeSet(b.nodes);
      } else {
        assert n in t.leaves[q].nodes;
        OneLeafPerId(t, n.id, q);
        OneLeafPerId(t, id, p);
      }
    }
    forall n | n in Without(AllNodes(t), id) + added
      ensures n in AllNodes(t')
    {
      if n in added {
        assert n in NodeSet(b.nodes) && n in t'.leaves[p].nodes;
      } else {
        var q :| q in t.leaves && n in t.leaves[q].nodes;
        if q == p {
          assert n in NodeSet(b.nodes);
        }
        assert n in t'.leaves[q].nodes;
      }
    }
  }

  lemma HasIdInTrie(t: Trie, k: nat, p: Path, id: Id)
    requires WellFormed(t, k) && p in t.leaves && p <= IdBits(id)
    ensures HasId(t.leaves[p].nodes, id) <==> exists n :: n in AllNodes(t) && n.id == id
  {
    OneLeafPerId(t, id, p);
    if HasId(t.leaves[p].nodes, id) {
      var i :| 0 <= i < |t.leaves[p].nodes| && t.leaves[p].nodes[i].id == id;
      assert t.leaves[p].nodes[i] in AllNodes(t);
    }
    if n :| n in AllNodes(t) && n.id == id {
      NodeAtItsLeaf(t, k, n);
    }
  }

  /**
   * The meaning of an insertion. Stored: the id is bound to the node, in place of what it was bound
   * to, and nothing else changes. Not stored: no node is gained or lost.
   */
  ghost predicate Binds(before: set<Node>, node: Node, outcome: Placement, after: set<Node>) {
    match outcome
    case RanOut => after == before
    case Stored(isNew) =>
      && after == Without(before, node.id) + {node}
      && (isNew <==> !exists n :: n in before && n.id == node.id)
  }

  /** One step of the search: down to a child, or a split and then down. */
  lemma PlaceSteps(t: Trie, k: nat, node: Node, now: int, d: nat)
    requires Shape(t) && d < ID_BITS && Vertex(t, PathTo(node.id, d))
    ensures PathTo(node.id, d) in t.inner ==>
              && Vertex(t, PathTo(node.id, d + 1))
              && Place(t, k, node, now, d) == Place(t, k, node, now, d + 1)
    ensures PathTo(node.id, d) in t.leaves ==>
              && Shape(SplitAt(t, PathTo(node.id, d), now))
              && Vertex(SplitAt(t, PathTo(node.id, d), now), PathTo(node.id, d + 1))
    ensures PathTo(node.id, d) in t.leaves && |t.leaves[PathTo(node.id, d)].nodes| >= k
            && !HasId(t.leaves[PathTo(node.id, d)].nodes, node.id) ==>
              Place(t, k, node, now, d) == Place(SplitAt(t, PathTo(node.id, d), now), k, node, now, d + 1)
  {
    PathStep(node.id, d);
    if PathTo(node.id, d) in t.leaves {
      SplitShape(t, PathTo(node.id, d), now);
      SplitVertices(t, PathTo(node.id, d), now);
    }
  }

  lemma PlaceAtFullDepth(t: Trie, k: nat, node: Node, now: int)
    requires Shape(t) && Vertex(t, PathTo(node.id, ID_BITS))
    ensures Place(t, k, node, now, ID_BITS) == (t, RanOut)
  {
  }

  lemma PlaceStores(t: Trie, k: nat, node: Node, now: int, d: nat)
    requires Shape(t) && d < ID_BITS && PathTo(node.id, d) in t.leaves
    requires |t.leaves[PathTo(node.id, d)].nodes| < k || HasId(t.leaves[PathTo(node.id, d)].nodes, node.id)
    ensures Place(t, k, node, now, d) ==
            (PutLeaf(t, PathTo(node.id, d), Insert(t.leaves[PathTo(node.id, d)], node, k, now).0),
             Stored(Insert(t.leaves[PathTo(node.id, d)], node, k, now).1))
  {
  }

  lemma {:induction false} PlaceBinds(t: Trie, k: nat, node: Node, now: int, d: nat)
    requires WellFormed(t, k) && d <= ID_BITS && Vertex(t, PathTo(node.id, d))
    ensures WellFormed(Place(t, k, node, now, d).0, k)
    ensures Binds(AllNodes(t), node, Place(t, k, node, now, d).1, AllNodes(Place(t, k, node, now, d).0))
    decreases ID_BITS - d
  {
    hide Shape, BucketFits, SplitAt, Insert;
    var p := PathTo(node.id, d);
    if d < ID_BITS {
      PlaceSteps(t, k, node, now, d);
      if p in t.inner {
        PlaceBinds(t, k, node, now, d + 1);
      } else if |t.leaves[p].nodes| < k || HasId(t.leaves[p].nodes, node.id) {
        StoreAtLeaf(t, k, p, node, now);
      } else {
        LeafFacts(t, k, p);
        SplitWellFormed(t, k, p, node, now);
        SplitKeepsNodes(t, p, now);
        PlaceBinds(SplitAt(t, p, now), k, node, now, d + 1);
      }
    }
  }

  lemma StoreAtLeaf(t: Trie, k: nat, p: Path, node: Node, now: int)
    requires WellFormed(t, k) && p in t.leaves && p <= IdBits(node.id)
    requires |t.leaves[p].nodes| < k || HasId(t.leaves[p].nodes, node.id)
    ensures WellFormed(PutLeaf(t, p, Insert(t.leaves[p], node, k, now).0), k)
    ensures Binds(AllNodes(t), node, Stored(Insert(t.leaves[p], node, k, now).1),
                  AllNodes(PutLeaf(t, p, Insert(t.leaves[p], node, k, now).0)))
  {
    hide Shape, Insert, PutLeaf, AllNodes, HasId, BitsOf, PathTo;
    var b' := Insert(t.leaves[p], node, k, now).0;
    InsertBinds(t.leaves[p], node, k, now);
    forall n | n in b'.nodes
      ensures p <= IdBits(n.id)
    {
      assert n in NodeSet(b'.nodes);
    }
    PutLeafWellFormed(t, k, p, b');
    PutLeafNodes(t, k, p, b', node.id, {node});
    HasIdInTrie(t, k, p, node.id);
  }

  // ----- when the search runs out of bits

  /** The nodes whose id differs from `id` in its last bit at most. */
  ghost function Twins(nodes: seq<Node>, id: Id): seq<Node> {
    if nodes == [] then []
    else
      (if PathTo(nodes[0].id, ID_BITS - 1) == PathTo(id, ID_BITS - 1) then [nodes[0]] else [])
      + Twins(nodes[1..], id)
  }

  /** The leaf of `id` is already at full depth, or will be pushed there by ids like it. */
  ghost predicate RunsOut(t: Trie, k: nat, id: Id)
    requires Shape(t)
  {
    var p := LeafOf(t, id);
    |p| == ID_BITS || (!HasId(t.leaves[p].nodes, id) && |Twins(t.leaves[p].nodes, id)| >= k)
  }

  lemma {:induction false} TwinsShareHalf(nodes: seq<Node>, id: Id, depth: nat)
    requires depth < ID_BITS - 1
    ensures Twins(Half(nodes, depth, BitAt(id, depth)), id) == Twins(nodes, id)
  {
    if nodes != [] {
      TwinsShareHalf(nodes[1..], id, depth);
      var half, rest := Half(nodes, depth, BitAt(id, depth)), Half(nodes[1..], depth, BitAt(id, depth));
      if BitAt(nodes[0].id, depth) == BitAt(id, depth) {
        assert half == [nodes[0]] + rest && half[1..] == rest;
      } else {
        assert half == rest;
        assert PathTo(nodes[0].id, ID_BITS - 1)[depth] != PathTo(id, ID_BITS - 1)[depth];
      }
    }
  }

  lemma {:induction false} TwinsAtMostAll(nodes: seq<Node>, id: Id)
    ensures |Twins(nodes, id)| <= |nodes|
    ensures forall n :: n in Twins(nodes, id) ==>
              n in nodes && PathTo(n.id, ID_BITS - 1) == PathTo(id, ID_BITS - 1)
    ensures DistinctIds(nodes) ==> DistinctIds(Twins(nodes, id))
  {
    if nodes != [] {
      TwinsAtMostAll(nodes[1..], id);
      assert nodes == [nodes[0]] + nodes[1..];
      assert DistinctIds(nodes) ==> forall n :: n in nodes[1..] ==> n.id != nodes[0].id;
    }
  }

  lemma {:induction false} AllAreTwins(nodes: seq<Node>, id: Id)
    requires forall n :: n in nodes ==> PathTo(id, ID_BITS - 1) <= IdBits(n.id)
    ensures Twins(nodes, id) == nodes
  {
    if nodes != [] {
      assert nodes == [nodes[0]] + nodes[1..];
      AllAreTwins(nodes[1..], id);
    }
  }

  /** An insertion is dropped exactly when its leaf runs out of bits. */
  lemma {:induction false} PlaceRunsOutExactly(t: Trie, k: nat, node: Node, now: int, d: nat)
    requires WellFormed(t, k) && d <= ID_BITS && Vertex(t, PathTo(node.id, d))
    ensures Place(t, k, node, now, d).1.RanOut? <==> RunsOut(t, k, node.id)
    decreases ID_BITS - d
  {
    hide Shape, BucketFits, SplitAt, Insert;
    var p := PathTo(node.id, d);
    if d == ID_BITS {
      VertexAtFullDepth(t, p);
      OneLeafPerId(t, node.id, p);
    } else {
      PlaceSteps(t, k, node, now, d);
      if p in t.inner {
        PlaceRunsOutExactly(t, k, node, now, d + 1);
      } else {
        OneLeafPerId(t, node.id, p);
        var b := t.leaves[p];
        LeafFacts(t, k, p);
        TwinsAtMostAll(b.nodes, node.id);
        if |b.nodes| == k && !HasId(b.nodes, node.id) {
          SplitWellFormed(t, k, p, node, now);
          PlaceRunsOutExactly(SplitAt(t, p, now), k, node, now, d + 1);
          RunsOutBelow(t, k, node.id, p, now);
        }
      }
    }
  }

  lemma VertexAtFullDepth(t: Trie, p: Path)
    requires Shape(t) && Vertex(t, p) && |p| == ID_BITS
    ensures p in t.leaves
  {
  }

  lemma RunsOutBelow(t: Trie, k: nat, id: Id, p: Path, now: int)
    requires Shape(t) && p in t.leaves && |p| < ID_BITS && p <= IdBits(id)
    requires BucketFits(p, t.leaves[p], k) && |t.leaves[p].nodes| == k && !HasId(t.leaves[p].nodes, id)
    requires Shape(SplitAt(t, p, now))
    ensures RunsOut(SplitAt(t, p, now), k, id) <==> RunsOut(t, k, id)
  {
    hide Shape, SplitAt;
    var t', bit, nodes := SplitAt(t, p, now), BitAt(id, |p|), t.leaves[p].nodes;
    SplitVertices(t, p, now);
    SplitLookup(t, p, now, Kid(p, bit));
    PathStep(id, |p|);
    OneLeafPerId(t, id, p);
    OneLeafPerId(t', id, Kid(p, bit));
    HalfMembers(nodes, |p|, bit);
    if |p| == ID_BITS - 1 {
      AllAreTwins(nodes, id);
    } else {
      TwinsShareHalf(nodes, id, |p|);
    }
  }

  /** With buckets of two or more, the 160 bits always suffice. */
  lemma NeverRunsOut(t: Trie, k: nat, id: Id)
    requires WellFormed(t, k) && k >= 2
    ensures !RunsOut(t, k, id)
  {
    var p := LeafOf(t, id);
    assert Pow2(1) == 2;
    if !HasId(t.leaves[p].nodes, id) {
      var twins := Twins(t.leaves[p].nodes, id);
      TwinsAtMostAll(t.leaves[p].nodes, id);
      if |twins| >= 2 {
        TwoTwinsAtMost(twins[0].id, twins[1].id, id);
      }
    }
  }

  lemma TwoTwinsAtMost(a: Id, b: Id, c: Id)
    requires PathTo(a, ID_BITS - 1) == PathTo(b, ID_BITS - 1) == PathTo(c, ID_BITS - 1)
    ensures a == b || a == c || b == c
  {
    var front := PathTo(a, ID_BITS - 1);
    assert forall id: Id :: PathTo(id, ID_BITS - 1) == front ==> IdBits(id) == front + [BitAt(id, ID_BITS - 1)];
    IdBitsInjective(a, b);
    IdBitsInjective(a, c);
    IdBitsInjective(b, c);
  }

  /** How deep leaves get: with `k == 8`, no deeper than 157. */
  lemma LeafDepth(t: Trie, k: nat, p: Path)
    requires WellFormed(t, k) && p in t.leaves && p != []
    ensures k + 1 <= Pow2(ID_BITS + 1 - |p|)
    ensures k == 8 ==> |p| <= 157
  {
    assert Pow2(3) == 8;
    if |p| > 157 {
      Pow2Monotone(ID_BITS + 1 - |p|, 3);
    }
  }

  // ----- removal

  ghost function RemoveId(t: Trie, id: Id, now: int): (t': Trie)
    requires Shape(t)
    ensures Shape(t')
  {
    var p := LeafOf(t, id);
    PutLeafShape(t, p, Replace(t.leaves[p], id, now));
    PutLeaf(t, p, Replace(t.leaves[p], id, now))
  }

  /** Removal takes the node with that id out, whatever its depth, and nothing else. */
  lemma RemoveIdRemoves(t: Trie, k: nat, id: Id, now: int)
    requires WellFormed(t, k)
    ensures WellFormed(RemoveId(t, id, now), k)
    ensures AllNodes(RemoveId(t, id, now)) == Without(AllNodes(t), id)
  {
    var p := LeafOf(t, id);
    var b' := Replace(t.leaves[p], id, now);
    ReplaceRemoves(t.leaves[p], id, now);
    forall n | n in b'.nodes
      ensures p <= IdBits(n.id)
    {
      assert n in NodeSet(b'.nodes);
    }
    PutLeafWellFormed(t, k, p, b');
    PutLeafNodes(t, k, p, b', id, {});
  }
}
