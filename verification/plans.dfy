/** Walks over the list of buckets: which leaves to refresh, and which nodes to ping. */
module Plans {
  import opened Bits
  import opened Nodes
  import opened Sequences
  import opened Buckets
  import opened Tries
  import opened Pruning

  /** A bucket on the list, and the path it was made for. */
  datatype Entry = Entry(path: Path, bucket: Bucket)

  /** The list holds the bucket of every leaf once; the rest of it is empty. */
  ghost predicate CoversOnce(entries: seq<Entry>, t: Trie) {
    && (forall i, j :: 0 <= i < j < |entries| ==> entries[i].path != entries[j].path)
    && (forall e :: e in entries ==> (e.path in t.leaves && e.bucket == t.leaves[e.path]) || e.bucket.nodes == [])
    && (forall p :: p in t.leaves ==> Entry(p, t.leaves[p]) in entries)
  }

  // ----- nodes to ping

  function StaleIn(nodes: seq<Node>, now: int, expiry: nat): seq<Node> {
    if nodes == [] then []
    else
      var front, last := nodes[..|nodes| - 1], nodes[|nodes| - 1];
      StaleIn(front, now, expiry) + if Stale(last, now, expiry) then [last] else []
  }

  function StaleNodes(entries: seq<Entry>, now: int, expiry: nat): seq<Node> {
    if entries == [] then []
    else
      StaleNodes(entries[..|entries| - 1], now, expiry) + StaleIn(entries[|entries| - 1].bucket.nodes, now, expiry)
  }

  lemma {:induction false} StaleInMembers(nodes: seq<Node>, now: int, expiry: nat)
    ensures forall n :: n in StaleIn(nodes, now, expiry) <==> n in nodes && Stale(n, now, expiry)
    ensures DistinctIds(nodes) ==> NoDup(StaleIn(nodes, now, expiry))
  {
    if nodes != [] {
      var front, last := nodes[..|nodes| - 1], nodes[|nodes| - 1];
      StaleInMembers(front, now, expiry);
      assert nodes == front + [last];
      if DistinctIds(nodes) {
        assert forall n :: n in front ==> n.id != last.id;
      }
    }
  }

  lemma {:induction false} StaleNodesMembers(entries: seq<Entry>, now: int, expiry: nat)
    ensures forall n :: n in StaleNodes(entries, now, expiry) <==>
                        Stale(n, now, expiry) && exists e :: e in entries && n in e.bucket.nodes
  {
    if entries != [] {
      var front, last := entries[..|entries| - 1], entries[|entries| - 1];
      StaleNodesMembers(front, now, expiry);
      StaleInMembers(last.bucket.nodes, now, expiry);
      assert entries == front + [last];
    }
  }

  /** No two entries hold a node in common, and none holds one twice. */
  ghost predicate Apart(entries: seq<Entry>) {
    && (forall i :: 0 <= i < |entries| ==> DistinctIds(entries[i].bucket.nodes))
    && (forall i, j, n :: 0 <= i < j < |entries| && n in entries[i].bucket.nodes ==> n !in entries[j].bucket.nodes)
  }

  lemma {:induction false} StaleNodesOnce(entries: seq<Entry>, now: int, expiry: nat)
    requires Apart(entries)
    ensures NoDup(StaleNodes(entries, now, expiry))
  {
    if entries != [] {
      var front, last := entries[..|entries| - 1], entries[|entries| - 1];
      assert Apart(front);
      StaleNodesOnce(front, now, expiry);
      StaleNodesMembers(front, now, expiry);
      StaleInMembers(last.bucket.nodes, now, expiry);
      forall n | n in StaleNodes(front, now, expiry)
        ensures n !in StaleIn(last.bucket.nodes, now, expiry)
      {
        var e :| e in front && n in e.bucket.nodes;
        var i :| 0 <= i < |front| && front[i] == e;
        assert entries[i] == e;
      }
      assert DistinctIds(entries[|entries| - 1].bucket.nodes);
      NoDupConcat(StaleNodes(front, now, expiry), StaleIn(last.bucket.nodes, now, expiry));
    }
  }

  lemma CoveredApart(entries: seq<Entry>, t: Trie, k: nat)
    requires WellFormed(t, k) && CoversOnce(entries, t)
    ensures Apart(entries)
  {
    forall i | 0 <= i < |entries|
      ensures DistinctIds(entries[i].bucket.nodes)
    {
      assert entries[i] in entries;
      assert entries[i].path in t.leaves ==> BucketFits(entries[i].path, t.leaves[entries[i].path], k);
    }
    forall i, j, n | 0 <= i < j < |entries| && n in entries[i].bucket.nodes
      ensures n !in entries[j].bucket.nodes
    {
      assert entries[i] in entries && entries[j] in entries;
      if n in entries[j].bucket.nodes {
        InItsLeafOnly(t, k, n, entries[i].path);
        InItsLeafOnly(t, k, n, entries[j].path);
      }
    }
  }

  lemma InItsLeafOnly(t: Trie, k: nat, n: Node, p: Path)
    requires WellFormed(t, k) && p in t.leaves && n in t.leaves[p].nodes
    ensures p == LeafOf(t, n.id) && n in AllNodes(t)
  {
    OneLeafPerId(t, n.id, p);
  }

  /** The walk finds every stale node of the trie, and each only once. */
  lemma StaleNodesExactly(entries: seq<Entry>, t: Trie, k: nat, now: int, expiry: nat)
    requires WellFormed(t, k) && CoversOnce(entries, t)
    ensures NoDup(StaleNodes(entries, now, expiry))
    ensures forall n :: n in StaleNodes(entries, now, expiry) <==> n in AllNodes(t) && Stale(n, now, expiry)
  {
    CoveredApart(entries, t, k);
    StaleNodesOnce(entries, now, expiry);
    StaleNodesMembers(entries, now, expiry);
    forall n | n in AllNodes(t)
      ensures exists e :: e in entries && n in e.bucket.nodes
    {
      var p :| p in t.leaves && n in t.leaves[p].nodes;
      assert n in Entry(p, t.leaves[p]).bucket.nodes;
    }
    forall e, n | e in entries && n in e.bucket.nodes
      ensures n in AllNodes(t)
    {
      InItsLeafOnly(t, k, n, e.path);
    }
  }

  // ----- leaves to refresh

  datatype Task = Task(addr: Addr, target: Id)

  predicate Due(b: Bucket, now: int, expiry: nat) {
    b.nodes != [] && now - b.lastChanged >= expiry
  }

  /** One task for each of the first `num` nodes of a leaf. */
  function LeafTasks(nodes: seq<Node>, target: Id, num: nat): (r: seq<Task>)
    ensures |r| == if |nodes| < num then |nodes| else num
    ensures forall i :: 0 <= i < |r| ==> r[i] == Task(nodes[i].addr, target)
  {
    seq(if |nodes| < num then |nodes| else num, i requires 0 <= i < |nodes| => Task(nodes[i].addr, target))
  }

  function EntryTasks(e: Entry, target: Id, now: int, expiry: nat, num: nat): seq<Task> {
    if Due(e.bucket, now, expiry) then LeafTasks(e.bucket.nodes, target, num) else []
  }

  function PlanOf(entries: seq<Entry>, targets: seq<Id>, now: int, expiry: nat, num: nat): seq<Task>
    requires |targets| == |entries|
  {
    if entries == [] then []
    else
      var l := |entries| - 1;
      PlanOf(entries[..l], targets[..l], now, expiry, num) + EntryTasks(entries[l], targets[l], now, expiry, num)
  }

  function TaskAddrs(tasks: seq<Task>): seq<Addr> {
    seq(|tasks|, i requires 0 <= i < |tasks| => tasks[i].addr)
  }

  /** Every target lies under the path of its entry. */
  ghost predicate TargetsFit(entries: seq<Entry>, targets: seq<Id>) {
    |targets| == |entries| && forall i :: 0 <= i < |entries| ==> entries[i].path <= IdBits(targets[i])
  }

  lemma PlanOfNothing(entries: seq<Entry>, targets: seq<Id>, now: int, expiry: nat, num: nat)
    requires |targets| == |entries| == 0
    ensures PlanOf(entries, targets, now, expiry, num) == [] && TargetsFit(entries, targets)
  {
  }

  lemma PlanOneMore(entries: seq<Entry>, targets: seq<Id>, target: Id, now: int, expiry: nat, num: nat)
    requires |targets| < |entries| && entries[|targets|].path <= IdBits(target)
    requires TargetsFit(entries[..|targets|], targets)
    ensures TargetsFit(entries[..|targets| + 1], targets + [target])
    ensures PlanOf(entries[..|targets| + 1], targets + [target], now, expiry, num)
         == PlanOf(entries[..|targets|], targets, now, expiry, num)
            + EntryTasks(entries[|targets|], target, now, expiry, num)
  {
    hide EntryTasks;
    assert entries[..|targets| + 1][..|targets|] == entries[..|targets|];
    assert (targets + [target])[..|targets|] == targets;
  }

  lemma {:induction false} PlanMembers(entries: seq<Entry>, targets: seq<Id>, now: int, expiry: nat, num: nat,
                                       task: Task)
    returns (i: nat)
    requires |targets| == |entries| && task in PlanOf(entries, targets, now, expiry, num)
    ensures i < |entries| && task in EntryTasks(entries[i], targets[i], now, expiry, num)
  {
    var l := |entries| - 1;
    if task in EntryTasks(entries[l], targets[l], now, expiry, num) {
      i := l;
    } else {
      i := PlanMembers(entries[..l], targets[..l], now, expiry, num, task);
    }
  }

  /** No two of the nodes have an address in common. */
  ghost predicate AddrsDiffer(nodes: set<Node>) {
    forall n, m :: n in nodes && m in nodes && n.addr == m.addr ==> n == m
  }

  lemma EntryTasksOnce(e: Entry, target: Id, nodes: set<Node>, now: int, expiry: nat, num: nat)
    requires DistinctIds(e.bucket.nodes) && AddrsDiffer(nodes) && forall n :: n in e.bucket.nodes ==> n in nodes
    ensures NoDup(TaskAddrs(EntryTasks(e, target, now, expiry, num)))
    ensures forall a :: a in TaskAddrs(EntryTasks(e, target, now, expiry, num)) ==> IsAddrIn(a, e.bucket.nodes)
  {
    var list := e.bucket.nodes;
    var addrs := TaskAddrs(EntryTasks(e, target, now, expiry, num));
    assert forall i :: 0 <= i < |addrs| ==> addrs[i] == list[i].addr && list[i] in nodes;
  }

  ghost predicate IsAddrIn(a: Addr, nodes: seq<Node>) {
    exists i :: 0 <= i < |nodes| && nodes[i].addr == a
  }

  /** If no two nodes have an address in common, no two tasks of a refresh have. */
  lemma {:induction false} TasksOnce(entries: seq<Entry>, targets: seq<Id>, nodes: set<Node>, now: int, expiry: nat,
                                     num: nat)
    requires |targets| == |entries| && Apart(entries) && AddrsDiffer(nodes)
    requires forall e, n :: e in entries && n in e.bucket.nodes ==> n in nodes
    ensures NoDup(TaskAddrs(PlanOf(entries, targets, now, expiry, num)))
    ensures forall a :: a in TaskAddrs(PlanOf(entries, targets, now, expiry, num)) ==>
              exists i :: 0 <= i < |entries| && IsAddrIn(a, entries[i].bucket.nodes)
  {
    hide EntryTasks;
    if entries != [] {
      var l := |entries| - 1;
      var e, front := entries[l], entries[..l];
      var before, here := PlanOf(front, targets[..l], now, expiry, num), EntryTasks(e, targets[l], now, expiry, num);
      assert Apart(front) && e in entries && forall x :: x in front ==> x in entries;
      TasksOnce(front, targets[..l], nodes, now, expiry, num);
      EntryTasksOnce(e, targets[l], nodes, now, expiry, num);
      forall a | a in TaskAddrs(before)
        ensures a !in TaskAddrs(here)
      {
        var i :| 0 <= i < |front| && IsAddrIn(a, front[i].bucket.nodes);
        AddrsApart(entries, nodes, i, l, a);
      }
      assert TaskAddrs(before + here) == TaskAddrs(before) + TaskAddrs(here);
      NoDupConcat(TaskAddrs(before), TaskAddrs(here));
    }
  }

  lemma AddrsApart(entries: seq<Entry>, nodes: set<Node>, i: nat, j: nat, a: Addr)
    requires Apart(entries) && AddrsDiffer(nodes) && i < j < |entries|
    requires forall e, n :: e in entries && n in e.bucket.nodes ==> n in nodes
    requires IsAddrIn(a, entries[i].bucket.nodes)
    ensures !IsAddrIn(a, entries[j].bucket.nodes)
  {
    assert entries[i] in entries && entries[j] in entries;
    var m :| 0 <= m < |entries[i].bucket.nodes| && entries[i].bucket.nodes[m].addr == a;
    assert entries[i].bucket.nodes[m] in entries[i].bucket.nodes;
    if n :| 0 <= n < |entries[j].bucket.nodes| && entries[j].bucket.nodes[n].addr == a {
      assert entries[j].bucket.nodes[n] in entries[j].bucket.nodes;
    }
  }

  /** A refresh asks a node of a leaf about an id of that very leaf. */
  lemma TasksStayInLeaf(entries: seq<Entry>, targets: seq<Id>, t: Trie, k: nat,
                        now: int, expiry: nat, num: nat, task: Task)
    requires WellFormed(t, k) && CoversOnce(entries, t) && TargetsFit(entries, targets)
    requires task in PlanOf(entries, targets, now, expiry, num)
    ensures exists n :: n in AllNodes(t) && n.addr == task.addr && LeafOf(t, task.target) == LeafOf(t, n.id)
  {
    var i := PlanMembers(entries, targets, now, expiry, num, task);
    var e := entries[i];
    var j :| 0 <= j < |LeafTasks(e.bucket.nodes, targets[i], num)|
             && LeafTasks(e.bucket.nodes, targets[i], num)[j] == task;
    assert e in entries && e.bucket.nodes[j] in e.bucket.nodes;
    InItsLeafOnly(t, k, e.bucket.nodes[j], e.path);
    OneLeafPerId(t, task.target, e.path);
  }

  /** One for each of the first `num` nodes, unless the leaf has changed too lately. */
  ghost function LeafShare(t: Trie, now: int, expiry: nat, num: nat, p: Path): nat
    requires p in t.leaves
  {
    if now - t.leaves[p].lastChanged < expiry then 0
    else if |t.leaves[p].nodes| < num then |t.leaves[p].nodes| else num
  }

  /** The tasks whose target lies under `p`. */
  ghost function TasksUnder(tasks: seq<Task>, p: Path): seq<Task> {
    if tasks == [] then []
    else
      var l := |tasks| - 1;
      TasksUnder(tasks[..l], p) + if p <= IdBits(tasks[l].target) then [tasks[l]] else []
  }

  lemma {:induction false} TasksUnderConcat(a: seq<Task>, b: seq<Task>, p: Path)
    ensures TasksUnder(a + b, p) == TasksUnder(a, p) + TasksUnder(b, p)
    decreases |b|
  {
    if b == [] {
      assert a + b == a;
    } else {
      var l := |b| - 1;
      assert (a + b)[..|a + b| - 1] == a + b[..l];
      TasksUnderConcat(a, b[..l], p);
    }
  }

  lemma {:induction false} TasksUnderUniform(tasks: seq<Task>, target: Id, p: Path)
    requires forall task :: task in tasks ==> task.target == target
    ensures TasksUnder(tasks, p) == if p <= IdBits(target) then tasks else []
  {
    if tasks != [] {
      var l := |tasks| - 1;
      assert tasks == tasks[..l] + [tasks[l]];
      TasksUnderUniform(tasks[..l], target, p);
    }
  }

  /** Two different leaves have no id in common. */
  lemma LeavesApart(t: Trie, p: Path, q: Path, id: Id)
    requires Shape(t) && p in t.leaves && q in t.leaves && p <= IdBits(id) && q <= IdBits(id)
    ensures p == q
  {
    OneLeafPerId(t, id, p);
    OneLeafPerId(t, id, q);
  }

  lemma EntryShare(e: Entry, target: Id, t: Trie, now: int, expiry: nat, num: nat, p: Path)
    requires Shape(t) && e.path <= IdBits(target) && p in t.leaves
    requires (e.path in t.leaves && e.bucket == t.leaves[e.path]) || e.bucket.nodes == []
    ensures |TasksUnder(EntryTasks(e, target, now, expiry, num), p)| ==
            if e == Entry(p, t.leaves[p]) then LeafShare(t, now, expiry, num, p) else 0
  {
    var tasks := EntryTasks(e, target, now, expiry, num);
    TasksUnderUniform(tasks, target, p);
    if tasks != [] && p <= IdBits(target) {
      LeavesApart(t, p, e.path, target);
    }
  }

  /** Each leaf due gets one task for each of its first `num` nodes, and no other leaf gets any. */
  lemma {:induction false} EachLeafItsShare(entries: seq<Entry>, targets: seq<Id>, t: Trie,
                                            now: int, expiry: nat, num: nat, p: Path)
    requires Shape(t) && TargetsFit(entries, targets) && p in t.leaves
    requires forall i, j :: 0 <= i < j < |entries| ==> entries[i].path != entries[j].path
    requires forall e :: e in entries ==>
               (e.path in t.leaves && e.bucket == t.leaves[e.path]) || e.bucket.nodes == []
    ensures |TasksUnder(PlanOf(entries, targets, now, expiry, num), p)| ==
            if Entry(p, t.leaves[p]) in entries then LeafShare(t, now, expiry, num, p) else 0
  {
    hide Shape, EntryTasks, LeafShare;
    if entries != [] {
      var l := |entries| - 1;
      var e, front := entries[l], entries[..l];
      assert entries == front + [e] && e in entries;
      EachLeafItsShare(front, targets[..l], t, now, expiry, num, p);
      TasksUnderConcat(PlanOf(front, targets[..l], now, expiry, num),
                       EntryTasks(e, targets[l], now, expiry, num), p);
      EntryShare(e, targets[l], t, now, expiry, num, p);
      assert e !in front;
    }
  }
}
