/** The routing table in memory: linked trie vertices, shared buckets, and the two caches. */
module Routing {
  import opened Bits
  import opened Nodes
  import opened Buckets
  import opened Bitmaps
  import opened Tries
  import opened Tables
  import opened Pruning
  import opened Neighbors
  import opened Compact
  import opened Plans

  /** `0xFF << (8 - rem)`: the top `rem` bits of a byte. */
  function TopMask(rem: nat): byte
    requires 0 < rem < 8
  {
    if rem == 1 then 0x80
    else if rem == 2 then 0xC0
    else if rem == 3 then 0xE0
    else if rem == 4 then 0xF0
    else if rem == 5 then 0xF8
    else if rem == 6 then 0xFC
    else 0xFE
  }

  lemma MaskInTop(rem: nat, m: nat)
    requires 0 < rem < 8 && m < 8
    ensures TopMask(rem) & Mask(m) == if m < rem then Mask(m) else 0
  {
  }

  /** The bits of one byte where the mask has ones, of another elsewhere. */
  function Splice(p: byte, r: byte, mask: byte): byte {
    (p & mask) | (r & !mask)
  }

  lemma SpliceBits(p: byte, r: byte, mask: byte, k: byte)
    ensures mask & k == k ==> Splice(p, r, mask) & k == p & k
    ensures mask & k == 0 ==> Splice(p, r, mask) & k == r & k
  {
  }

  /** The top `rem` bits of one byte, the others of another. */
  lemma SplicedByte(p: byte, r: byte, rem: nat, m: nat)
    requires 0 < rem < 8 && m < 8
    ensures ByteBit(Splice(p, r, TopMask(rem)), m) == if m < rem then ByteBit(p, m) else ByteBit(r, m)
  {
    hide TopMask, Mask, Splice;
    MaskInTop(rem, m);
    SpliceBits(p, r, TopMask(rem), Mask(m));
  }

  /** Bytes made of the first `size` bits of one string and the rest of another. */
  lemma SplicedBits(prefix: seq<byte>, random: Id, out: Id, size: nat)
    requires size <= ID_BITS && |prefix| == (size + 7) / 8
    requires forall j :: 0 <= j < size / 8 ==> out[j] == prefix[j]
    requires forall j :: (size + 7) / 8 <= j < ID_BYTES ==> out[j] == random[j]
    requires size % 8 > 0 ==> out[size / 8] == Splice(prefix[size / 8], random[size / 8], TopMask(size % 8))
    ensures forall i :: 0 <= i < ID_BITS ==>
              BitAt(out, i) == if i < size then BitAt(prefix, i) else BitAt(random, i)
  {
    hide TopMask, ByteBit, Splice;
    forall i | 0 <= i < ID_BITS
      ensures BitAt(out, i) == if i < size then BitAt(prefix, i) else BitAt(random, i)
    {
      if i / 8 == size / 8 && size % 8 > 0 {
        SplicedByte(prefix[size / 8], random[size / 8], size % 8, i % 8);
      }
    }
  }

  class KBucket {
    var nodes: seq<Node>
    var candidates: seq<Node>
    const prefix: Bitmap
    var lastChanged: int
    ghost const path: Path

    ghost predicate Valid()
      reads prefix
    {
      prefix.Valid() && prefix.Contents() == path && |path| <= ID_BITS
    }

    ghost function View(): Bucket
      reads this
    {
      Bucket(nodes, candidates, lastChanged)
    }

    constructor (prefix: Bitmap, now: int)
      requires prefix.Valid() && prefix.size <= ID_BITS
      ensures Valid() && this.prefix == prefix && path == prefix.Contents()
      ensures View() == Bucket([], [], now)
    {
      nodes, candidates := [], [];
      this.prefix := prefix;
      lastChanged := now;
      path := prefix.Contents();
    }

    method Touch(now: int)
      modifies this`lastChanged
      ensures lastChanged == now
    {
      lastChanged := now;
    }

    method ReorderByLastActive()
      modifies this`nodes
      ensures nodes == Reordered(old(nodes))
    {
      nodes := Reordered(nodes);
    }

    method Insert(node: Node, k: nat, now: int) returns (isNew: bool)
      modifies this
      ensures (View(), isNew) == Buckets.Insert(old(View()), node, k, now)
    {
      var pos := PositionOf(nodes, node.id);
      if pos < |nodes| {
        nodes := nodes[pos := node];
        ReorderByLastActive();
        Touch(now);
        return false;
      }
      if |nodes| < k {
        nodes := nodes + [node];
        ReorderByLastActive();
        Touch(now);
        return true;
      }
      return false;
    }

    method Replace(id: Id, now: int)
      modifies this
      ensures View() == Buckets.Replace(old(View()), id, now)
    {
      var pos := PositionOf(nodes, id);
      if pos < |nodes| {
        nodes := nodes[..pos] + nodes[pos + 1..];
        if candidates != [] {
          var last := |candidates| - 1;
          nodes := nodes + [candidates[last]];
          candidates := candidates[..last];
          ReorderByLastActive();
        }
        Touch(now);
      }
    }

    /** An id under this bucket's prefix, whose other bits are the given random ones. */
    method RandomChildId(random: Id) returns (out: Id)
      requires Valid()
      ensures path <= IdBits(out)
      ensures forall i :: |path| <= i < ID_BITS ==> BitAt(out, i) == BitAt(random, i)
    {
      var full, rem := prefix.size / 8, prefix.size % 8;
      if rem > 0 {
        var edge := Splice(prefix.data[full], random[full], TopMask(rem));
        out := prefix.data[..full] + [edge] + random[full + 1..];
      } else {
        out := prefix.data[..full] + random[full..];
      }
      SplicedBits(prefix.data, random, out, prefix.size);
      assert path == IdBits(out)[..|path|];
    }
  }

  class RoutingNode {
    var left: RoutingNode?
    var right: RoutingNode?
    var bucket: KBucket?
    ghost const path: Path

    constructor (prefix: Bitmap, now: int)
      requires prefix.Valid() && prefix.size <= ID_BITS
      ensures left == null && right == null && bucket != null && fresh(bucket)
      ensures bucket.Valid() && bucket.View() == Bucket([], [], now) && bucket.prefix == prefix
      ensures path == bucket.path == prefix.Contents()
    {
      left, right := null, null;
      bucket := new KBucket(prefix, now);
      path := prefix.Contents();
    }

    function Child(bit: bool): RoutingNode?
      reads this
    {
      if bit then right else left
    }

    method SetChild(bit: bool, node: RoutingNode)
      modifies this
      ensures left == (if bit then old(left) else node)
      ensures right == (if bit then node else old(right))
      ensures bucket == old(bucket)
    {
      if bit {
        right := node;
      } else {
        left := node;
      }
    }
  }

  /** The nodes of a deque, shared out by one bit of their ids. */
  method Divide(nodes: seq<Node>, depth: nat) returns (zeros: seq<Node>, ones: seq<Node>)
    requires depth < ID_BITS
    ensures zeros == Half(nodes, depth, false) && ones == Half(nodes, depth, true)
  {
    zeros, ones := [], [];
    for i := 0 to |nodes|
      invariant zeros == Half(nodes[..i], depth, false) && ones == Half(nodes[..i], depth, true)
    {
      HalfAppend(nodes[..i], nodes[i], depth, false);
      HalfAppend(nodes[..i], nodes[i], depth, true);
      assert nodes[..i + 1] == nodes[..i] + [nodes[i]];
      if BitAt(nodes[i].id, depth) {
        ones := ones + [nodes[i]];
      } else {
        zeros := zeros + [nodes[i]];
      }
    }
    assert nodes[..|nodes|] == nodes;
  }

  /** Empties a bucket into two others. */
  method Drain(bucket: KBucket, left: KBucket, right: KBucket, depth: nat)
    requires depth < ID_BITS && left != right && bucket != left && bucket != right
    modifies bucket, left, right
    ensures left.View() == HalfBucket(old(bucket.View()), depth, false, old(left.lastChanged))
    ensures right.View() == HalfBucket(old(bucket.View()), depth, true, old(right.lastChanged))
    ensures bucket.nodes == [] && bucket.candidates == []
  {
    left.nodes, right.nodes := Divide(bucket.nodes, depth);
    left.candidates, right.candidates := Divide(bucket.candidates, depth);
    bucket.nodes, bucket.candidates := [], [];
  }

  /** A leaf at path `p` and nothing else in memory. */
  ghost predicate IsLeaf(n: RoutingNode, p: Path)
    reads n, if n.bucket != null then {n.bucket.prefix} else {}
  {
    n.path == p && n.left == null && n.right == null && n.bucket != null && n.bucket.path == p && n.bucket.Valid()
  }

  method NewLeaf(parent: Bitmap, bit: bool, now: int) returns (leaf: RoutingNode)
    requires parent.Valid() && parent.size < ID_BITS
    ensures IsLeaf(leaf, Kid(parent.Contents(), bit)) && leaf.bucket.View() == Bucket([], [], now)
    ensures fresh(leaf) && fresh(leaf.bucket) && fresh(leaf.bucket.prefix)
  {
    var prefix := parent.ExtendOne(bit);
    leaf := new RoutingNode(prefix, now);
  }

  /** Turns a leaf into an inner vertex whose two new leaves share out what its bucket held. */
  method Split(node: RoutingNode, now: int)
    requires node.bucket != null ==> node.bucket.Valid() && node.bucket.path == node.path
    modifies node, node.bucket
    ensures old(node.bucket) == null ==> unchanged(node)
    ensures old(node.bucket) != null && |node.path| >= ID_BITS ==> unchanged(node) && unchanged(node.bucket)
    ensures old(node.bucket) != null && |node.path| < ID_BITS ==>
              && node.bucket == null && node.left != null && node.right != null
              && fresh(node.left) && fresh(node.right) && node.left != node.right
              && IsLeaf(node.left, Kid(node.path, false)) && IsLeaf(node.right, Kid(node.path, true))
              && node.left.bucket.View() == HalfBucket(old(node.bucket.View()), |node.path|, false, now)
              && node.right.bucket.View() == HalfBucket(old(node.bucket.View()), |node.path|, true, now)
              && fresh(node.left.bucket) && fresh(node.left.bucket.prefix)
              && fresh(node.right.bucket) && fresh(node.right.bucket.prefix)
              && old(node.bucket).nodes == [] && old(node.bucket).candidates == []
  {
    hide HalfBucket, BitsOf;
    if node.bucket == null {
      return;
    }
    var bucket := node.bucket;
    var prefixLen := bucket.prefix.size;
    if prefixLen >= ID_BITS {
      return;
    }
    var left := NewLeaf(bucket.prefix, false, now);
    var right := NewLeaf(bucket.prefix, true, now);
    Drain(bucket, left.bucket, right.bucket, prefixLen);
    node.SetChild(false, left);
    node.SetChild(true, right);
    node.bucket := null;
  }

  // ----- how vertices and buckets hang together

  datatype Link = Inner(left: RoutingNode, right: RoutingNode) | Leaf(bucket: KBucket) | Broken

  ghost function LinkOf(n: RoutingNode): Link
    reads n
  {
    if n.bucket == null && n.left != null && n.right != null then Inner(n.left, n.right)
    else if n.bucket != null && n.left == null && n.right == null then Leaf(n.bucket)
    else Broken
  }

  /** A snapshot: the vertex at each path, how it is linked, and what each bucket holds. */
  datatype Memory = Memory(tree: map<Path, RoutingNode>, links: map<Path, Link>, views: map<KBucket, Bucket>)

  /** The vertex at `p` is linked the way the trie says. */
  ghost predicate Linked(m: Memory, t: Trie, buckets: seq<KBucket>, p: Path)
    requires p in m.tree && p in m.links
  {
    && m.tree[p].path == p
    && (p in t.inner ==>
          && Kid(p, false) in m.tree && Kid(p, true) in m.tree
          && m.links[p] == Inner(m.tree[Kid(p, false)], m.tree[Kid(p, true)]))
    && (p in t.leaves ==>
          && m.links[p].Leaf? && m.links[p].bucket.path == p && m.links[p].bucket in buckets
          && m.links[p].bucket in m.views && m.views[m.links[p].bucket] == t.leaves[p])
  }

  /** A bucket on the list is a leaf's own, or was drained when its leaf was split. */
  ghost predicate Listed(m: Memory, t: Trie, b: KBucket) {
    && b in m.views && Vertex(t, b.path)
    && (b.path in t.inner ==> m.views[b].nodes == [] && m.views[b].candidates == [])
    && (b.path in t.leaves ==> b.path in m.links && m.links[b.path] == Leaf(b))
  }

  ghost predicate DistinctPaths(buckets: seq<KBucket>) {
    forall i, j :: 0 <= i < j < |buckets| ==> buckets[i].path != buckets[j].path
  }

  ghost predicate Consistent(m: Memory, t: Trie, buckets: seq<KBucket>) {
    && m.tree.Keys == m.links.Keys == t.inner + t.leaves.Keys
    && (forall p {:trigger Linked(m, t, buckets, p)} :: p in m.tree ==> Linked(m, t, buckets, p))
    && (forall b {:trigger Listed(m, t, b)} :: b in buckets ==> Listed(m, t, b))
    && DistinctPaths(buckets)
  }

  /** The root with its empty bucket stands for the trie of one empty leaf. */
  lemma RootConsistent(r: RoutingNode, b: KBucket, now: int)
    requires r.path == [] && b.path == []
    ensures Consistent(Memory(map[[] := r], map[[] := Leaf(b)], map[b := Bucket([], [], now)]), EmptyTrie(now), [b])
  {
  }

  lemma LeafChangeLinked(m: Memory, t: Trie, buckets: seq<KBucket>, p: Path, b: KBucket, view: Bucket, q: Path)
    requires Consistent(m, t, buckets) && p in t.leaves && p !in t.inner && m.links[p] == Leaf(b) && q in m.tree
    ensures Linked(m.(views := m.views[b := view]), PutLeaf(t, p, view), buckets, q)
  {
    hide Listed, DistinctPaths;
    assert Linked(m, t, buckets, p) && Linked(m, t, buckets, q);
  }

  lemma LeafChangeListed(m: Memory, t: Trie, buckets: seq<KBucket>, p: Path, b: KBucket, view: Bucket, c: KBucket)
    requires Consistent(m, t, buckets) && p in t.leaves && p !in t.inner && m.links[p] == Leaf(b) && c in buckets
    ensures Listed(m.(views := m.views[b := view]), PutLeaf(t, p, view), c)
  {
    hide DistinctPaths;
    assert Listed(m, t, c) && Linked(m, t, buckets, p);
  }

  lemma LeafChangeConsistent(m: Memory, t: Trie, buckets: seq<KBucket>, p: Path, b: KBucket, view: Bucket)
    requires Consistent(m, t, buckets) && Shape(t) && p in t.leaves && m.links[p] == Leaf(b)
    ensures Consistent(m.(views := m.views[b := view]), PutLeaf(t, p, view), buckets)
  {
    hide Linked, Listed, DistinctPaths;
    var m', t' := m.(views := m.views[b := view]), PutLeaf(t, p, view);
    assert t'.leaves.Keys == t.leaves.Keys;
    forall q | q in m'.tree
      ensures Linked(m', t', buckets, q)
    {
      LeafChangeLinked(m, t, buckets, p, b, view, q);
    }
    forall c | c in buckets
      ensures Listed(m', t', c)
    {
      LeafChangeListed(m, t, buckets, p, b, view, c);
    }
  }

  /** A leaf's bucket, and the two leaves it was drained into. */
  datatype Fork = Fork(path: Path, bucket: KBucket, left: RoutingNode, right: RoutingNode,
                       leftBucket: KBucket, rightBucket: KBucket, drained: Bucket)
  {
    ghost predicate Fits(m: Memory, t: Trie) {
      && path in t.leaves && path in m.links && m.links[path] == Leaf(bucket)
      && left.path == leftBucket.path == Kid(path, false)
      && right.path == rightBucket.path == Kid(path, true)
      && drained.nodes == [] && drained.candidates == []
    }

    /** The snapshot after the split. */
    ghost function After(m: Memory, t: Trie, now: int): Memory
      requires path in t.leaves && |path| < ID_BITS
    {
      Memory(
        m.tree[Kid(path, false) := left][Kid(path, true) := right],
        m.links[path := Inner(left, right)][Kid(path, false) := Leaf(leftBucket)][Kid(path, true) := Leaf(rightBucket)],
        m.views[bucket := drained][leftBucket := HalfBucket(t.leaves[path], |path|, false, now)]
               [rightBucket := HalfBucket(t.leaves[path], |path|, true, now)])
    }

    lemma Lookup(m: Memory, t: Trie, now: int, q: Path)
      requires Fits(m, t) && |path| < ID_BITS && Shape(t)
      ensures path != Kid(path, false) && path != Kid(path, true) && Kid(path, false) != Kid(path, true)
      ensures q in SplitAt(t, path, now).inner <==> q in t.inner || q == path
      ensures q in SplitAt(t, path, now).leaves <==>
                (q in t.leaves && q != path) || q == Kid(path, false) || q == Kid(path, true)
      ensures q == Kid(path, false) ==>
                && SplitAt(t, path, now).leaves[q] == HalfBucket(t.leaves[path], |path|, false, now)
                && q in After(m, t, now).tree && q in After(m, t, now).links
                && After(m, t, now).tree[q] == left && After(m, t, now).links[q] == Leaf(leftBucket)
      ensures q == Kid(path, true) ==>
                && SplitAt(t, path, now).leaves[q] == HalfBucket(t.leaves[path], |path|, true, now)
                && q in After(m, t, now).tree && q in After(m, t, now).links
                && After(m, t, now).tree[q] == right && After(m, t, now).links[q] == Leaf(rightBucket)
      ensures q == path ==> q in After(m, t, now).links && After(m, t, now).links[q] == Inner(left, right)
      ensures Vertex(t, q) ==> q != Kid(path, false) && q != Kid(path, true)
      ensures Vertex(t, q) && q != path ==>
                && (q in t.leaves ==> SplitAt(t, path, now).leaves[q] == t.leaves[q])
                && (q in m.links ==> q in After(m, t, now).links && After(m, t, now).links[q] == m.links[q])
      ensures Vertex(t, q) && q in m.tree ==> q in After(m, t, now).tree && After(m, t, now).tree[q] == m.tree[q]
      ensures q in After(m, t, now).tree <==> q in m.tree || q == Kid(path, false) || q == Kid(path, true)
    {
      hide HalfBucket;
      KidsApart(path, path, false, true);
      KidsAreNew(t, path, false);
      KidsAreNew(t, path, true);
    }

    lemma View(m: Memory, t: Trie, now: int, c: KBucket)
      requires Fits(m, t) && |path| < ID_BITS
      ensures c == leftBucket ==>
                && c in After(m, t, now).views
                && After(m, t, now).views[c] == HalfBucket(t.leaves[path], |path|, false, now)
      ensures c == rightBucket ==>
                && c in After(m, t, now).views
                && After(m, t, now).views[c] == HalfBucket(t.leaves[path], |path|, true, now)
      ensures c == bucket && c.path == path ==> c in After(m, t, now).views && After(m, t, now).views[c] == drained
      ensures c in m.views && c.path != path && c.path != Kid(path, false) && c.path != Kid(path, true)
              && bucket.path == path ==>
                c in After(m, t, now).views && After(m, t, now).views[c] == m.views[c]
    {
      hide HalfBucket;
      KidsApart(path, path, false, true);
    }

    lemma KeepsLink(m: Memory, t: Trie, buckets: seq<KBucket>, now: int, q: Path)
      requires Consistent(m, t, buckets) && Shape(t) && Fits(m, t) && |path| < ID_BITS
      requires Vertex(t, q)
      ensures q in After(m, t, now).tree && q in After(m, t, now).links
      ensures Linked(After(m, t, now), SplitAt(t, path, now), buckets + [leftBucket] + [rightBucket], q)
    {
      hide Shape, SplitAt, After, HalfBucket;
      assert Linked(m, t, buckets, path) && Linked(m, t, buckets, q);
      Lookup(m, t, now, q);
      if q in t.leaves && q != path {
        View(m, t, now, m.links[q].bucket);
      } else {
        Lookup(m, t, now, Kid(q, false));
        Lookup(m, t, now, Kid(q, true));
      }
    }

    lemma NewLink(m: Memory, t: Trie, buckets: seq<KBucket>, now: int, bit: bool)
      requires Shape(t) && Fits(m, t) && |path| < ID_BITS
      ensures Kid(path, bit) in After(m, t, now).tree && Kid(path, bit) in After(m, t, now).links
      ensures Linked(After(m, t, now), SplitAt(t, path, now), buckets + [leftBucket] + [rightBucket], Kid(path, bit))
    {
      hide Shape, SplitAt, After, HalfBucket;
      Lookup(m, t, now, Kid(path, bit));
      View(m, t, now, leftBucket);
      View(m, t, now, rightBucket);
    }

    lemma KeepsListing(m: Memory, t: Trie, buckets: seq<KBucket>, now: int, c: KBucket)
      requires Consistent(m, t, buckets) && Shape(t) && Fits(m, t) && |path| < ID_BITS
      requires c in buckets || c == leftBucket || c == rightBucket
      ensures Listed(After(m, t, now), SplitAt(t, path, now), c)
    {
      hide Shape, SplitAt, After, HalfBucket, DistinctPaths;
      assert Linked(m, t, buckets, path);
      Lookup(m, t, now, c.path);
      View(m, t, now, c);
      if c in buckets {
        assert Listed(m, t, c);
      }
    }

    lemma KeepsPathsDistinct(m: Memory, t: Trie, buckets: seq<KBucket>, now: int)
      requires Consistent(m, t, buckets) && Shape(t) && Fits(m, t)
      ensures DistinctPaths(buckets + [leftBucket] + [rightBucket])
    {
      hide Shape, HalfBucket;
      KidsAreNew(t, path, false);
      KidsAreNew(t, path, true);
      KidsApart(path, path, false, true);
      forall b | b in buckets
        ensures b.path != Kid(path, false) && b.path != Kid(path, true)
      {
        assert Listed(m, t, b);
      }
    }

    /** Splitting a leaf keeps every link and every list entry right. */
    lemma KeepsConsistent(m: Memory, t: Trie, buckets: seq<KBucket>, now: int)
      requires Consistent(m, t, buckets) && Shape(t) && Fits(m, t) && |path| < ID_BITS
      ensures Consistent(After(m, t, now), SplitAt(t, path, now), buckets + [leftBucket] + [rightBucket])
    {
      hide Shape, HalfBucket, Linked, Listed, DistinctPaths;
      var m', t', buckets' := After(m, t, now), SplitAt(t, path, now), buckets + [leftBucket] + [rightBucket];
      SplitVertices(t, path, now);
      assert m'.tree.Keys == m'.links.Keys == t'.inner + t'.leaves.Keys;
      forall q | q in m'.tree
        ensures Linked(m', t', buckets', q)
      {
        if Vertex(t, q) {
          KeepsLink(m, t, buckets, now, q);
        } else {
          NewLink(m, t, buckets, now, q == Kid(path, true));
        }
      }
      forall c | c in buckets'
        ensures Listed(m', t', c)
      {
        KeepsListing(m, t, buckets, now, c);
      }
      KeepsPathsDistinct(m, t, buckets, now);
    }
  }

  /** The objects in memory are as the snapshot has them. */
  ghost predicate Snapshot(m: Memory, buckets: seq<KBucket>, objects: set<object>)
    reads objects
  {
    && (forall p :: p in m.tree ==> p in m.links && m.tree[p] in objects && LinkOf(m.tree[p]) == m.links[p])
    && (forall b :: b in buckets ==>
          b in objects && b.prefix in objects && b in m.views && b.Valid() && b.View() == m.views[b])
  }

  /** Vertices and listed buckets are told apart by their paths. */
  lemma Spelled(m: Memory, t: Trie, buckets: seq<KBucket>)
    requires Consistent(m, t, buckets)
    ensures forall p :: p in m.tree <==> Vertex(t, p)
    ensures forall p :: p in m.tree ==> m.tree[p].path == p
    ensures forall b, c :: b in buckets && c in buckets && b.path == c.path ==> b == c
    ensures forall b :: b in buckets ==> Vertex(t, b.path)
    ensures forall p :: p in t.leaves ==> m.links[p].Leaf? && m.links[p].bucket.path == p
                                          && m.links[p].bucket in buckets && m.links[p].bucket in m.views
                                          && m.views[m.links[p].bucket] == t.leaves[p]
  {
    forall p | p in m.tree
      ensures m.tree[p].path == p
    {
      assert Linked(m, t, buckets, p);
    }
    forall p | p in t.leaves
      ensures m.links[p].Leaf? && m.links[p].bucket.path == p && m.links[p].bucket in buckets
              && m.links[p].bucket in m.views && m.views[m.links[p].bucket] == t.leaves[p]
    {
      assert Linked(m, t, buckets, p);
    }
    forall b | b in buckets
      ensures Vertex(t, b.path)
    {
      assert Listed(m, t, b);
    }
  }

  /** Inserts in the bucket of the leaf at `p`, and says how the snapshot changes. */
  method InsertAtLeaf(ghost m: Memory, ghost t: Trie, ghost buckets: seq<KBucket>, ghost objects: set<object>,
                      cur: RoutingNode, ghost p: Path, node: Node, k: nat, now: int)
    returns (isNew: bool, ghost m': Memory, ghost t': Trie)
    requires Snapshot(m, buckets, objects) && Consistent(m, t, buckets) && Shape(t)
    requires p in t.leaves && cur == m.tree[p]
    modifies cur.bucket
    ensures cur.bucket == old(cur.bucket) && cur.bucket in objects
    ensures Snapshot(m', buckets, objects) && Consistent(m', t', buckets) && m'.tree == m.tree
    ensures t' == PutLeaf(t, p, Buckets.Insert(t.leaves[p], node, k, now).0)
    ensures isNew == Buckets.Insert(t.leaves[p], node, k, now).1
  {
    hide Shape, Buckets.Insert, Consistent, PutLeaf, KBucket.Valid;
    Spelled(m, t, buckets);
    ghost var view := Buckets.Insert(t.leaves[p], node, k, now).0;
    LeafChangeConsistent(m, t, buckets, p, cur.bucket, view);
    isNew := cur.bucket.Insert(node, k, now);
    m' := m.(views := m.views[cur.bucket := view]);
    t' := PutLeaf(t, p, view);
  }

  /** Replaces in the bucket of the leaf at `p`, and says how the snapshot changes. */
  method ReplaceAtLeaf(ghost m: Memory, ghost t: Trie, ghost buckets: seq<KBucket>, ghost objects: set<object>,
                       cur: RoutingNode, ghost p: Path, id: Id, now: int)
    returns (ghost m': Memory, ghost t': Trie)
    requires Snapshot(m, buckets, objects) && Consistent(m, t, buckets) && Shape(t)
    requires p in t.leaves && cur == m.tree[p]
    modifies cur.bucket
    ensures cur.bucket == old(cur.bucket) && cur.bucket in objects
    ensures Snapshot(m', buckets, objects) && Consistent(m', t', buckets) && m'.tree == m.tree
    ensures t' == PutLeaf(t, p, Buckets.Replace(t.leaves[p], id, now))
  {
    hide Shape, Buckets.Replace, Consistent, PutLeaf, KBucket.Valid;
    Spelled(m, t, buckets);
    ghost var view := Buckets.Replace(t.leaves[p], id, now);
    LeafChangeConsistent(m, t, buckets, p, cur.bucket, view);
    cur.bucket.Replace(id, now);
    m' := m.(views := m.views[cur.bucket := view]);
    t' := PutLeaf(t, p, view);
  }

  /** Splits the leaf at `p`, and says how the snapshot changes. */
  method SplitAtLeaf(ghost m: Memory, ghost t: Trie, ghost buckets: seq<KBucket>, ghost objects: set<object>,
                     cur: RoutingNode, ghost p: Path, now: int)
    returns (ghost m': Memory, ghost objects': set<object>)
    requires Snapshot(m, buckets, objects) && Consistent(m, t, buckets) && Shape(t)
    requires p in t.leaves && |p| < ID_BITS && cur == m.tree[p]
    modifies cur, cur.bucket
    ensures old(cur.bucket) in objects && cur in objects
    ensures cur.left != null && cur.left.bucket != null && cur.right != null && cur.right.bucket != null
    ensures Snapshot(m', buckets + [cur.left.bucket] + [cur.right.bucket], objects')
    ensures Consistent(m', SplitAt(t, p, now), buckets + [cur.left.bucket] + [cur.right.bucket])
    ensures objects <= objects' && fresh(objects' - objects)
    ensures forall q :: q in m.tree ==> q in m'.tree && m'.tree[q] == m.tree[q]
  {
    hide Shape, Consistent, SplitAt, HalfBucket, KBucket.Valid, Fork.After, Snapshot;
    Spelled(m, t, buckets);
    Unfolded(m, buckets, objects);
    ghost var bucket := cur.bucket;
    Split(cur, now);
    ghost var lb: KBucket, rb: KBucket := cur.left.bucket, cur.right.bucket;
    objects' := objects + {cur.left, cur.right, lb, rb, lb.prefix, rb.prefix};
    assert objects <= objects' && fresh(objects' - objects);
    ghost var fork := Fork(p, bucket, cur.left, cur.right, lb, rb, bucket.View());
    fork.KeepsConsistent(m, t, buckets, now);
    m' := fork.After(m, t, now);
    VerticesAfterSplit(fork, m, t, objects', now);
    BucketsAfterSplit(fork, m, t, buckets, objects', now);
    Folded(m', buckets + [lb] + [rb], objects');
  }

  lemma Unfolded(m: Memory, buckets: seq<KBucket>, objects: set<object>)
    requires Snapshot(m, buckets, objects)
    ensures forall p :: p in m.tree ==> p in m.links && m.tree[p] in objects && LinkOf(m.tree[p]) == m.links[p]
    ensures forall b :: b in buckets ==>
              b in objects && b.prefix in objects && b in m.views && b.Valid() && b.View() == m.views[b]
  {
  }

  lemma Folded(m: Memory, buckets: seq<KBucket>, objects: set<object>)
    requires forall p :: p in m.tree ==> p in m.links && m.tree[p] in objects && LinkOf(m.tree[p]) == m.links[p]
    requires forall b: KBucket :: b in buckets ==>
               b in objects && b.prefix in objects && b in m.views && b.Valid() && b.View() == m.views[b]
    ensures Snapshot(m, buckets, objects)
  {
  }

  /** Once a leaf is split, the snapshot after it tells how every vertex is linked. */
  lemma VerticesAfterSplit(fork: Fork, m: Memory, t: Trie, objects: set<object>, now: int)
    requires Shape(t) && fork.Fits(m, t) && |fork.path| < ID_BITS && fork.path in m.tree
    requires forall q :: q in m.tree <==> Vertex(t, q)
    requires forall q :: q in m.tree ==> q in m.links && m.tree[q] in objects
    requires forall q :: q in m.tree && q != fork.path ==> LinkOf(m.tree[q]) == m.links[q]
    requires LinkOf(m.tree[fork.path]) == Inner(fork.left, fork.right)
    requires fork.left in objects && LinkOf(fork.left) == Leaf(fork.leftBucket)
    requires fork.right in objects && LinkOf(fork.right) == Leaf(fork.rightBucket)
    ensures
      var m' := fork.After(m, t, now);
      && (forall q :: q in m'.tree ==> q in m'.links && m'.tree[q] in objects && LinkOf(m'.tree[q]) == m'.links[q])
      && (forall q :: q in m.tree ==> q in m'.tree && m'.tree[q] == m.tree[q])
  {
    hide Shape, SplitAt, HalfBucket, Fork.After;
    var m' := fork.After(m, t, now);
    forall q | q in m'.tree
      ensures q in m'.links && m'.tree[q] in objects && LinkOf(m'.tree[q]) == m'.links[q]
    {
      fork.Lookup(m, t, now, q);
    }
    forall q | q in m.tree
      ensures q in m'.tree && m'.tree[q] == m.tree[q]
    {
      fork.Lookup(m, t, now, q);
    }
  }

  /** And what every bucket holds. */
  lemma BucketsAfterSplit(fork: Fork, m: Memory, t: Trie, buckets: seq<KBucket>, objects: set<object>, now: int)
    requires Shape(t) && fork.Fits(m, t) && |fork.path| < ID_BITS && fork.bucket.path == fork.path
    requires forall b: KBucket :: b in buckets ==> Vertex(t, b.path) && (b.path == fork.path ==> b == fork.bucket)
    requires forall b: KBucket :: b in buckets + [fork.leftBucket] + [fork.rightBucket] ==>
               b in objects && b.prefix in objects && b.Valid()
    requires forall b: KBucket :: b in buckets && b != fork.bucket ==> b in m.views && b.View() == m.views[b]
    requires fork.bucket.View() == fork.drained
    requires fork.leftBucket.View() == HalfBucket(t.leaves[fork.path], |fork.path|, false, now)
    requires fork.rightBucket.View() == HalfBucket(t.leaves[fork.path], |fork.path|, true, now)
    ensures
      var m' := fork.After(m, t, now);
      forall b: KBucket :: b in buckets + [fork.leftBucket] + [fork.rightBucket] ==>
        b in objects && b.prefix in objects && b in m'.views && b.Valid() && b.View() == m'.views[b]
  {
    hide Shape, SplitAt, HalfBucket, KBucket.Valid, Fork.After;
    var m' := fork.After(m, t, now);
    forall b: KBucket | b in buckets + [fork.leftBucket] + [fork.rightBucket]
      ensures b in objects && b.prefix in objects && b in m'.views && b.Valid() && b.View() == m'.views[b]
    {
      fork.Lookup(m, t, now, b.path);
      fork.View(m, t, now, b);
    }
  }

  class RoutingTable {
    const k: nat
    var cachedNodes: Cache
    var cachedBuckets: seq<KBucket>
    const root: RoutingNode
    ghost var trie: Trie
    ghost var memory: Memory
    ghost var objects: set<object>

    ghost predicate Valid()
      reads this, objects
    {
      && this !in objects
      && Snapshot(memory, cachedBuckets, objects)
      && Consistent(memory, trie, cachedBuckets)
      && [] in memory.tree && memory.tree[[]] == root
      && ValidTable(View(), k)
    }

    ghost function View(): Table
      reads this
    {
      Table(trie, cachedNodes)
    }

    constructor (k: nat, now: int)
      ensures Valid() && fresh(objects)
      ensures this.k == k && View() == Table(EmptyTrie(now), map[])
    {
      hide ValidTable, Consistent;
      var prefix := new Bitmap(0);
      var r := new RoutingNode(prefix, now);
      this.k := k;
      var bucket: KBucket := r.bucket;
      cachedNodes := map[];
      cachedBuckets := [bucket];
      root := r;
      trie := EmptyTrie(now);
      memory := Memory(map[[] := r], map[[] := Leaf(bucket)], map[bucket := Bucket([], [], now)]);
      objects := {r, bucket, prefix};
      new;
      EmptyIsValid(k, now);
      RootConsistent(r, bucket, now);
      assert prefix.Contents() == [];
    }

    function Len(): nat
      reads this
    {
      |cachedNodes|
    }

    lemma Basics()
      requires Valid()
      ensures ValidTable(View(), k)
      ensures Shape(trie) && Vertex(trie, []) && [] in memory.tree && memory.tree[[]] == root
      ensures forall p :: p in memory.tree <==> Vertex(trie, p)
      ensures forall p :: p in trie.leaves ==> memory.tree[p].bucket != null && memory.tree[p] in objects
                                               && memory.tree[p].bucket in objects
                                               && memory.tree[p].bucket in cachedBuckets
                                               && memory.tree[p].bucket.View() == trie.leaves[p]
                                               && memory.tree[p].bucket.Valid() && memory.tree[p].bucket.path == p
    {
      hide WellFormed, Shape, Consistent;
      ValidShape(View(), k);
      Spelled(memory, trie, cachedBuckets);
    }

    /** The vertex below `cur` on the way to `id`, if `cur` is inner. */
    lemma Descend(cur: RoutingNode, id: Id, d: nat)
      requires Valid() && d < ID_BITS && Vertex(trie, PathTo(id, d)) && PathTo(id, d) in memory.tree
      requires cur == memory.tree[PathTo(id, d)]
      ensures PathTo(id, d) in trie.inner ==>
                && cur.Child(BitAt(id, d)) != null
                && Vertex(trie, PathTo(id, d + 1)) && PathTo(id, d + 1) in memory.tree
                && cur.Child(BitAt(id, d)) == memory.tree[PathTo(id, d + 1)]
      ensures PathTo(id, d) in trie.leaves ==> cur.Child(BitAt(id, d)) == null
    {
      hide WellFormed;
      assert Linked(memory, trie, cachedBuckets, PathTo(id, d));
      PathStep(id, d);
    }

    /** Stores the node in a leaf that has room for it or holds its id already. */
    method StoreAt(cur: RoutingNode, ghost p: Path, node: Node, now: int) returns (isNew: bool)
      requires Valid() && p in trie.leaves && p in memory.tree && cur == memory.tree[p] && p <= IdBits(node.id)
      requires |trie.leaves[p].nodes| < k || HasId(trie.leaves[p].nodes, node.id)
      modifies this, objects
      ensures Valid() && objects == old(objects)
      ensures trie == PutLeaf(old(trie), p, Buckets.Insert(old(trie).leaves[p], node, k, now).0)
      ensures isNew == Buckets.Insert(old(trie).leaves[p], node, k, now).1
      ensures cachedNodes == old(cachedNodes)[node.addr := node]
    {
      hide ValidTable, Shape, Buckets.Insert, Consistent, Snapshot, PutLeaf;
      Basics();
      StoreKeepsValid(View(), k, p, node, now);
      isNew, memory, trie := InsertAtLeaf(memory, trie, cachedBuckets, objects, cur, p, node, k, now);
      cachedNodes := cachedNodes[node.addr := node];
      if cur.bucket !in cachedBuckets {
        assert false; // a leaf's bucket is always on the list already
      }
    }

    /** Splits a leaf and puts its two halves on the list of buckets. */
    method SplitLeaf(cur: RoutingNode, ghost p: Path, now: int)
      requires Valid() && p in trie.leaves && p in memory.tree && cur == memory.tree[p] && |p| < ID_BITS
      requires WellFormed(SplitAt(trie, p, now), k)
      modifies this, objects
      ensures Valid() && old(objects) <= objects && fresh(objects - old(objects))
      ensures trie == SplitAt(old(trie), p, now) && cachedNodes == old(cachedNodes)
      ensures p in trie.inner && p in memory.tree && memory.tree[p] == cur
    {
      hide ValidTable, WellFormed, Shape, Consistent, Snapshot, SplitAt;
      Basics();
      SplitKeepsValid(View(), k, p, now);
      ghost var was := trie;
      memory, objects := SplitAtLeaf(memory, trie, cachedBuckets, objects, cur, p, now);
      cachedBuckets := cachedBuckets + [cur.left.bucket];
      cachedBuckets := cachedBuckets + [cur.right.bucket];
      trie := SplitAt(was, p, now);
    }

    /** Splits a full leaf and steps down on the way to the node's id. */
    method SplitTowards(cur: RoutingNode, node: Node, d: nat, now: int) returns (next: RoutingNode)
      requires Valid() && Shape(trie) && d < ID_BITS && PathTo(node.id, d) in trie.leaves
      requires PathTo(node.id, d) in memory.tree && cur == memory.tree[PathTo(node.id, d)]
      requires |trie.leaves[PathTo(node.id, d)].nodes| >= k && !HasId(trie.leaves[PathTo(node.id, d)].nodes, node.id)
      modifies this, objects
      ensures Valid() && old(objects) <= objects && fresh(objects - old(objects))
      ensures cachedNodes == old(cachedNodes) && Shape(trie) && Vertex(trie, PathTo(node.id, d + 1))
      ensures PathTo(node.id, d + 1) in memory.tree && next == memory.tree[PathTo(node.id, d + 1)]
      ensures Place(trie, k, node, now, d + 1) == Place(old(trie), k, node, now, d)
    {
      hide Valid, ValidTable, WellFormed, Shape, Place, SplitAt;
      Basics();
      PlaceSteps(trie, k, node, now, d);
      SplitForInsert(View(), k, PathTo(node.id, d), node, now);
      SplitLeaf(cur, PathTo(node.id, d), now);
      Descend(cur, node.id, d);
      next := cur.Child(BitAt(node.id, d));
    }

    /** One step of an insertion: down to a child, or at a leaf the end, or a split and then down. */
    method StepTowards(cur: RoutingNode, node: Node, d: nat, now: int) returns (next: RoutingNode?, isNew: bool)
      requires Valid() && Shape(trie) && d < ID_BITS && Vertex(trie, PathTo(node.id, d))
      requires PathTo(node.id, d) in memory.tree && cur == memory.tree[PathTo(node.id, d)]
      modifies this, objects
      ensures Valid() && old(objects) <= objects && fresh(objects - old(objects))
      ensures next != null ==>
                && cachedNodes == old(cachedNodes) && Shape(trie) && Vertex(trie, PathTo(node.id, d + 1))
                && PathTo(node.id, d + 1) in memory.tree && next == memory.tree[PathTo(node.id, d + 1)]
                && Place(trie, k, node, now, d + 1) == Place(old(trie), k, node, now, d)
      ensures next == null ==>
                && cachedNodes == old(cachedNodes)[node.addr := node]
                && (trie, Stored(isNew)) == Place(old(trie), k, node, now, d)
    {
      hide Valid, ValidTable, WellFormed, Shape, Place, SplitAt, PutLeaf, Buckets.Insert;
      isNew := false;
      Descend(cur, node.id, d);
      PlaceSteps(trie, k, node, now, d);
      next := cur.Child(BitAt(node.id, d));
      if next != null {
        return;
      }
      Basics();
      var bucket: KBucket := cur.bucket;
      if |bucket.nodes| < k || PositionOf(bucket.nodes, node.id) < |bucket.nodes| {
        PlaceStores(trie, k, node, now, d);
        isNew := StoreAt(cur, PathTo(node.id, d), node, now);
        return;
      }
      var matches := bucket.prefix.MatchesIdPrefix(node.id);
      if matches {
        next := SplitTowards(cur, node, d, now);
      } else {
        assert false; // every leaf on the way has a prefix of the id
      }
    }

    /** Inserts or updates a contact; see `Place` for what becomes of the trie. */
    method Insert(node: Node, now: int) returns (isNew: bool)
      requires Valid()
      modifies this, objects
      ensures Valid() && old(objects) <= objects && fresh(objects - old(objects))
      ensures View() == InsertInto(old(View()), k, node, now)
      ensures isNew == (InsertNode(old(trie), k, node, now).1 == Stored(true))
    {
      hide Valid, ValidTable, WellFormed, Shape, Place;
      Basics();
      assert PathTo(node.id, 0) == [];
      var cur := root;
      for prefixLen := 1 to ID_BITS + 1
        invariant Valid() && old(objects) <= objects && fresh(objects - old(objects))
        invariant cachedNodes == old(cachedNodes)
        invariant Shape(trie) && Vertex(trie, PathTo(node.id, prefixLen - 1))
        invariant PathTo(node.id, prefixLen - 1) in memory.tree && cur == memory.tree[PathTo(node.id, prefixLen - 1)]
        invariant Place(trie, k, node, now, prefixLen - 1) == Place(old(trie), k, node, now, 0)
      {
        var next, stored := StepTowards(cur, node, prefixLen - 1, now);
        if next == null {
          return stored;
        }
        cur := next;
      }
      PlaceAtFullDepth(trie, k, node, now);
      isNew := false;
    }

    method ReplaceAt(cur: RoutingNode, ghost p: Path, id: Id, now: int)
      requires Valid() && Shape(trie) && p == LeafOf(trie, id) && p in memory.tree && cur == memory.tree[p]
      modifies this, objects
      ensures Valid() && objects == old(objects) && cachedBuckets == old(cachedBuckets)
      ensures cachedNodes == old(cachedNodes) && trie == RemoveId(old(trie), id, now)
    {
      hide ValidTable, Shape, LeafFrom, Consistent, Snapshot, PutLeaf, Buckets.Replace;
      Basics();
      if cur.bucket != null {
        RemoveKeepsValid(View(), k, id, now);
        memory, trie := ReplaceAtLeaf(memory, trie, cachedBuckets, objects, cur, p, id, now);
      }
    }

    /** Finds the leaf of an id and takes the node with that id out of its bucket. */
    method RemoveFromBuckets(id: Id, now: int)
      requires Valid()
      modifies this, objects
      ensures Valid() && objects == old(objects) && cachedBuckets == old(cachedBuckets)
      ensures cachedNodes == old(cachedNodes) && trie == RemoveId(old(trie), id, now)
    {
      hide ValidTable, Shape, LeafFrom, Consistent, Snapshot, PutLeaf, Buckets.Replace;
      Basics();
      assert PathTo(id, 0) == [];
      var cur := root;
      ghost var d := 0;
      for prefixLen := 1 to ID_BITS + 1
        invariant d == prefixLen - 1
        invariant Vertex(trie, PathTo(id, d)) && PathTo(id, d) in memory.tree && cur == memory.tree[PathTo(id, d)]
        invariant LeafFrom(trie, id, d) == LeafOf(trie, id)
        modifies {}
      {
        Descend(cur, id, d);
        var next := cur.Child(BitAt(id, prefixLen - 1));
        if next == null {
          break;
        }
        LeafFromStep(trie, id, d);
        cur := next;
        d := d + 1;
      }
      LeafFromHere(trie, id, d);
      ReplaceAt(cur, PathTo(id, d), id, now);
    }

    method RemoveByAddr(addr: Addr, now: int)
      requires Valid()
      modifies this, objects
      ensures Valid() && objects == old(objects) && cachedBuckets == old(cachedBuckets)
      ensures View() == RemoveAddr(old(View()), addr, now)
    {
      hide ValidTable, Shape, LeafFrom, Consistent, Snapshot, RemoveId;
      Basics();
      if addr in cachedNodes {
        var node := cachedNodes[addr];
        CacheRemovalKeepsValid(View(), k, addr);
        cachedNodes := cachedNodes - {addr};
        RemoveFromBuckets(node.id, now);
      }
    }

    // ----- queries

    /** The `size` nodes nearest `target`, nearest first. */
    method NeighborsByTarget(target: Id, size: nat) returns (list: seq<Node>)
      requires Valid()
      ensures Nearest(list, cachedNodes, target, size)
    {
      hide WellFormed, Consistent, Snapshot, Nearest, NearestFirst, Lists;
      var nodes := ListNodes(cachedNodes);
      list := SortByDistance(nodes, target);
      CutOffIsNearest(nodes, list, cachedNodes, target, size);
      if |list| > size {
        list := list[..size];
      }
      assert list == list[..|list|];
    }

    /** The compact form of those nodes, one after another. */
    method GetNeighborsCompact(target: Id, size: nat) returns (out: seq<byte>)
      requires Valid()
      ensures exists list :: Nearest(list, cachedNodes, target, size) && out == EncodeContacts(Contacts(list))
    {
      hide WellFormed, Consistent, Snapshot, Nearest;
      var nodes := NeighborsByTarget(target, size);
      out := [];
      for i := 0 to |nodes|
        invariant out == EncodeContacts(Contacts(nodes[..i]))
      {
        assert Contacts(nodes[..i + 1]) == Contacts(nodes[..i]) + [Contact(nodes[i].id, nodes[i].addr)];
        out := out + nodes[i].id;
        var comp := EncodeIpPort(nodes[i].addr);
        if comp.Some? {
          out := out + comp.value;
        }
        assert out == EncodeContacts(Contacts(nodes[..i])) + EncodeContact(Contact(nodes[i].id, nodes[i].addr));
      }
      assert nodes[..|nodes|] == nodes;
    }

    // ----- pruning

    /** Removes the given cached nodes one by one. */
    method RemoveAll(addrs: seq<Addr>, now: int)
      requires Valid()
      modifies this, objects
      ensures Valid() && objects == old(objects) && cachedBuckets == old(cachedBuckets)
      ensures View() == RemoveAddrs(old(View()), addrs, now)
      ensures cachedNodes == old(cachedNodes) - AddrSet(addrs)
    {
      hide ValidTable, Consistent, Snapshot, AddrSet, RemoveAddr;
      ValidShape(View(), k);
      for i := 0 to |addrs|
        invariant Valid() && objects == old(objects) && cachedBuckets == old(cachedBuckets)
        invariant View() == RemoveAddrs(old(View()), addrs[..i], now)
      {
        assert addrs[..i + 1][..i] == addrs[..i];
        RemoveByAddr(addrs[i], now);
      }
      assert addrs[..|addrs|] == addrs;
      RemoveAddrsRemoves(old(View()), k, addrs, now);
    }

    /** Drops the oldest nodes in excess of `maxNodes`. */
    method TrimTo(maxNodes: nat, now: int) returns (ghost excess: seq<Addr>, ghost sorted: seq<Node>)
      requires Valid()
      modifies this, objects
      ensures Valid() && objects == old(objects) && cachedBuckets == old(cachedBuckets)
      ensures View() == RemoveAddrs(old(View()), excess, now)
      ensures |old(cachedNodes)| <= maxNodes ==> View() == old(View())
      ensures |old(cachedNodes)| > maxNodes ==>
                && Lists(sorted, old(cachedNodes)) && OldestFirst(sorted) && |sorted| == |old(cachedNodes)|
                && cachedNodes == old(cachedNodes) - AddrSet(Addrs(sorted[..|old(cachedNodes)| - maxNodes]))
    {
      hide ValidTable, Consistent, Snapshot, AddrSet, RemoveAddr, Lists, OldestFirst;
      ValidShape(View(), k);
      ValidKeys(View(), k);
      excess, sorted := [], [];
      var curLen := |cachedNodes|;
      if curLen > maxNodes {
        var nodes := ListNodes(cachedNodes);
        SortedLists(nodes, cachedNodes);
        nodes := Reordered(nodes);
        var drop := Addrs(nodes[..curLen - maxNodes]);
        excess, sorted := drop, nodes;
        RemoveAll(drop, now);
      }
    }

    /** Drops what is stale, and then the oldest nodes in excess of `maxNodes`. */
    method Prune(now: int, expiry: nat, maxNodes: nat) returns (ghost removed: seq<Addr>)
      requires Valid()
      modifies this, objects
      ensures Valid() && objects == old(objects) && cachedBuckets == old(cachedBuckets)
      ensures View() == RemoveAddrs(old(View()), removed, now)
      ensures Pruned(old(cachedNodes), cachedNodes, now, expiry, maxNodes)
      ensures AllNodes(trie) == LeftOf(AllNodes(old(trie)), old(cachedNodes), cachedNodes)
    {
      hide ValidTable, Consistent, Snapshot, AddrSet, RemoveAddrs, Lists, Pruned, OldestFirst, AllNodes, LeftOf, Shape;
      ValidShape(View(), k);
      var stale := StaleAddrs(cachedNodes, now, expiry);
      RemoveAll(stale, now);
      FreshAreLeft(old(cachedNodes), stale, now, expiry);
      ghost var live := cachedNodes;
      ghost var excess, sorted := TrimTo(maxNodes, now);
      RemoveAddrsInTwo(old(View()), stale, excess, now);
      removed := stale + excess;
      RemoveAddrsRemoves(old(View()), k, removed, now);
      if |live| > maxNodes {
        DroppingOldestPrunes(old(cachedNodes), live, cachedNodes, sorted, now, expiry, maxNodes);
      }
    }

    // ----- walks over the list of buckets

    ghost function Entries(): (entries: seq<Entry>)
      reads this, objects
      requires Valid()
      ensures |entries| == |cachedBuckets|
      ensures forall i :: 0 <= i < |entries| ==>
                cachedBuckets[i] in objects && entries[i] == Entry(cachedBuckets[i].path, cachedBuckets[i].View())
    {
      seq(|cachedBuckets|, i requires 0 <= i < |cachedBuckets| && cachedBuckets[i] in objects reads this, objects =>
        Entry(cachedBuckets[i].path, cachedBuckets[i].View()))
    }

    /** The list holds every leaf's bucket exactly once, and nothing else that is not empty. */
    lemma ListCoversLeaves()
      requires Valid()
      ensures CoversOnce(Entries(), trie)
    {
      hide ValidTable, WellFormed;
      var entries := Entries();
      forall e | e in entries
        ensures (e.path in trie.leaves && e.bucket == trie.leaves[e.path]) || e.bucket.nodes == []
      {
        var i :| 0 <= i < |entries| && entries[i] == e;
        var b := cachedBuckets[i];
        assert Listed(memory, trie, b);
        assert b.path in memory.tree ==> Linked(memory, trie, cachedBuckets, b.path);
      }
      forall p | p in trie.leaves
        ensures Entry(p, trie.leaves[p]) in entries
      {
        assert Linked(memory, trie, cachedBuckets, p);
        var i :| 0 <= i < |cachedBuckets| && cachedBuckets[i] == memory.links[p].bucket;
        assert entries[i] == Entry(p, trie.leaves[p]);
      }
    }

    /** The buckets due, a random id under each one's prefix, and the nodes to ask about it. */
    method FreshPlan(now: int, expiry: nat, refreshNodeNum: nat, crawl: bool, random: seq<Id>)
      returns (tasks: seq<Task>, clear: seq<Addr>, ghost targets: seq<Id>)
      requires Valid() && |random| == |cachedBuckets|
      ensures TargetsFit(Entries(), targets)
      ensures tasks == PlanOf(Entries(), targets, now, expiry, refreshNodeNum)
      ensures clear == if crawl then TaskAddrs(tasks) else []
      ensures forall i :: 0 <= i < |targets| ==> RandomBelow(targets[i], random[i], |cachedBuckets[i].path|)
    {
      hide ValidTable, Consistent, EntryTasks, BitsOf, PlanOf, RandomBelow;
      tasks, clear, targets := [], [], [];
      ghost var entries := Entries();
      PlanOfNothing(entries[..0], targets, now, expiry, refreshNodeNum);
      for i := 0 to |cachedBuckets|
        invariant |targets| == i && TargetsFit(entries[..i], targets)
        invariant tasks == PlanOf(entries[..i], targets, now, expiry, refreshNodeNum)
        invariant clear == if crawl then TaskAddrs(tasks) else []
        invariant forall l :: 0 <= l < i ==> RandomBelow(targets[l], random[l], |cachedBuckets[l].path|)
      {
        var target, mine := PlanBucket(cachedBuckets[i], random[i], now, expiry, refreshNodeNum);
        PlanOneMore(entries, targets, target, now, expiry, refreshNodeNum);
        assert TaskAddrs(tasks + mine) == TaskAddrs(tasks) + TaskAddrs(mine);
        targets := targets + [target];
        tasks := tasks + mine;
        if crawl {
          clear := clear + TaskAddrs(mine);
        }
      }
      assert entries[..|cachedBuckets|] == entries;
    }

    /** The addresses of the nodes that have been silent for too long. */
    method CollectExpiredNodes(now: int, expiry: nat) returns (out: seq<Addr>)
      requires Valid()
      ensures out == Addrs(StaleNodes(Entries(), now, expiry))
    {
      hide ValidTable, Consistent, StaleNodes, Addrs;
      out := [];
      ghost var entries := Entries();
      NothingIsStale(now, expiry);
      for i := 0 to |cachedBuckets|
        invariant out == Addrs(StaleNodes(entries[..i], now, expiry))
      {
        var mine := ExpiredIn(cachedBuckets[i].nodes, now, expiry);
        StaleOneMore(entries, i, now, expiry);
        out := out + mine;
      }
      assert entries[..|cachedBuckets|] == entries;
    }
  }

  /** The addresses of the stale nodes of one bucket. */
  method ExpiredIn(nodes: seq<Node>, now: int, expiry: nat) returns (out: seq<Addr>)
    ensures out == Addrs(StaleIn(nodes, now, expiry))
  {
    out := [];
    for i := 0 to |nodes|
      invariant out == Addrs(StaleIn(nodes[..i], now, expiry))
    {
      assert nodes[..i + 1][..i] == nodes[..i];
      if Stale(nodes[i], now, expiry) {
        out := out + [nodes[i].addr];
      }
    }
    assert nodes[..|nodes|] == nodes;
  }

  lemma NothingIsStale(now: int, expiry: nat)
    ensures Addrs(StaleNodes([], now, expiry)) == []
  {
  }

  lemma StaleOneMore(entries: seq<Entry>, i: nat, now: int, expiry: nat)
    requires i < |entries|
    ensures Addrs(StaleNodes(entries[..i + 1], now, expiry))
         == Addrs(StaleNodes(entries[..i], now, expiry)) + Addrs(StaleIn(entries[i].bucket.nodes, now, expiry))
  {
    assert entries[..i + 1][..i] == entries[..i];
  }

  /** From bit `d` on, the id has the given random bits. */
  ghost predicate RandomBelow(id: Id, random: Id, d: nat) {
    forall j :: d <= j < ID_BITS ==> BitAt(id, j) == BitAt(random, j)
  }

  /** The tasks for one bucket: none if it is empty or was changed lately. */
  method PlanBucket(b: KBucket, random: Id, now: int, expiry: nat, num: nat) returns (target: Id, tasks: seq<Task>)
    requires b.Valid()
    ensures b.path <= IdBits(target) && RandomBelow(target, random, |b.path|)
    ensures tasks == EntryTasks(Entry(b.path, b.View()), target, now, expiry, num)
  {
    target := b.RandomChildId(random);
    if b.nodes == [] {
      return target, [];
    }
    if now - b.lastChanged < expiry {
      return target, [];
    }
    tasks := [];
    for i := 0 to |b.nodes|
      invariant tasks == LeafTasks(b.nodes[..i], target, num)
    {
      if i >= num {
        break;
      }
      tasks := tasks + [Task(b.nodes[i].addr, target)];
    }
    assert tasks == LeafTasks(b.nodes, target, num);
  }
}
