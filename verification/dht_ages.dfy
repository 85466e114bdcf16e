/** The age of leaves in the running node. */
module DhtAges {
  import opened Bits
  import Words
  import opened Options
  import opened Nodes
  import opened Compact
  import Tries
  import opened Tables
  import opened Ages
  import opened Pruning
  import opened Plans
  import opened Transactions
  import opened DhtMachine
  import opened DhtSafety
  import opened DhtMemory
  import opened DhtAgreement

  /** Every leaf is as it was, or bears the time. */
  ghost predicate MarksChanges(t: Table, t': Table, now: int) {
    forall p :: p in t'.trie.leaves ==>
      (p in t.trie.leaves && t'.trie.leaves[p] == t.trie.leaves[p]) || t'.trie.leaves[p].lastChanged == now
  }

  lemma SameMarks(t: Table, now: int)
    ensures MarksChanges(t, t, now)
  {
  }

  lemma MarksOnward(a: Table, b: Table, c: Table, now: int)
    requires MarksChanges(a, b, now) && MarksChanges(b, c, now)
    ensures MarksChanges(a, c, now)
  {
  }

  lemma OpMarks(t: Table, k: nat, op: Tables.Op)
    requires ValidTable(t, k)
    ensures MarksChanges(t, Tables.Apply(t, k, op), op.now)
  {
    hide ValidTable, Tables.Apply, Touches;
    ValidShape(t, k);
    forall p | p in Tables.Apply(t, k, op).trie.leaves
      ensures || (p in t.trie.leaves && Tables.Apply(t, k, op).trie.leaves[p] == t.trie.leaves[p])
              || Tables.Apply(t, k, op).trie.leaves[p].lastChanged == op.now
    {
      ApplyMarks(t, k, op, p);
    }
  }

  lemma HearMarks(s: Dht, cfg: Config, id: Id, addr: Addr, now: int)
    requires Safe(s, cfg)
    ensures MarksChanges(s.table, Hear(s, cfg, id, addr, now).table, now)
  {
    hide Exclusive, Typed, Logged, ValidTable, InsertInto, MarksChanges;
    ValidShape(s.table, cfg.bucketSize);
    SameMarks(s.table, now);
    OpMarks(s.table, cfg.bucketSize, Tables.Insertion(Node(id, addr, now), now));
  }

  lemma DropMarks(t: Table, k: nat, addrs: seq<Addr>, now: int)
    requires ValidTable(t, k)
    ensures MarksChanges(t, Drop(t, addrs, now), now)
  {
    hide ValidTable, RemoveAddrs, MarksChanges;
    ValidShape(t, k);
    OpMarks(t, k, Tables.Pruning(addrs, now));
  }

  lemma {:induction false} LearnAllMarks(s: Dht, cfg: Config, cs: seq<Contact>, infoHash: Option<Id>,
                                         target: Option<Id>, now: int)
    requires Safe(s, cfg)
    ensures MarksChanges(s.table, LearnAll(s, cfg, cs, infoHash, target, now).table, now)
  {
    hide Safe, Learn, Hear, MarksChanges;
    SameMarks(s.table, now);
    if cs != [] {
      var front, last := cs[..|cs| - 1], cs[|cs| - 1];
      var s1 := LearnAll(s, cfg, front, infoHash, target, now);
      LearnAllKeeps(s, cfg, front, infoHash, target, now);
      LearnAllMarks(s, cfg, front, infoHash, target, now);
      LearnTable(s1, cfg, last, infoHash, target, now);
      HearMarks(s1, cfg, last.id, last.addr, now);
      MarksOnward(s.table, s1.table, Hear(s1, cfg, last.id, last.addr, now).table, now);
    }
  }

  lemma ResponseMarks(s: Dht, cfg: Config, tid: Tid, m: DhtMachine.Fields, addr: Addr, now: int)
    requires Safe(s, cfg)
    ensures MarksChanges(s.table, Response(s, cfg, tid, m, addr, now).table, now)
  {
    hide Safe, MarksChanges, LearnAll, Settle, DictAt, BytesAt, IdAt, DecodeContacts;
    SameMarks(s.table, now);
    match DictAt(m, Words.R) {
      case Some(r) =>
        var t := if tid in s.trans.live then Some(s.trans.live[tid]) else None;
        var nodes := BytesAt(r, Words.NODES);
        var s1 := s;
        if nodes.Some? {
          var cs := DecodeContacts(nodes.value);
          LearnAllKeeps(s, cfg, cs, InfoHashOf(t), SearchTargetOf(t), now);
          LearnAllMarks(s, cfg, cs, InfoHashOf(t), SearchTargetOf(t), now);
          s1 := LearnAll(s, cfg, cs, InfoHashOf(t), SearchTargetOf(t), now);
        }
        SettleKeeps(s1, cfg, t, tid, r, now);
      case None =>
    }
  }

  lemma RequestMarks(s: Dht, cfg: Config, m: DhtMachine.Fields, addr: Addr, tokenValid: bool, now: int)
    requires Safe(s, cfg)
    ensures MarksChanges(s.table, Request(s, cfg, m, addr, tokenValid, now).table, now)
  {
    hide Safe, MarksChanges, Hear, Request, Complete, DictAt, BytesAt, IdAt;
    SameMarks(s.table, now);
    match (BytesAt(m, Words.Q), DictAt(m, Words.A)) {
      case (Some(q), Some(a)) =>
        RequestHears(s, cfg, m, q, a, addr, tokenValid, now);
        if Complete(cfg, q, a, addr, tokenValid) {
          HearMarks(s, cfg, IdAt(a, Words.ID).value, addr, now);
        }
      case _ =>
        NoRequest(s, cfg, m, addr, tokenValid, now);
    }
  }

  lemma {:induction false} GiveUpAllMarks(s: Dht, cfg: Config, tids: seq<Tid>, now: int)
    requires Safe(s, cfg)
    ensures MarksChanges(s.table, GiveUpAll(s, cfg, tids, now).table, now)
  {
    hide Exclusive, Logged, Typed, ValidTable, MarksChanges, Drop;
    SameMarks(s.table, now);
    if tids != [] {
      var front, last := tids[..|tids| - 1], tids[|tids| - 1];
      var s1 := GiveUpAll(s, cfg, front, now);
      GiveUpAllMarks(s, cfg, front, now);
      GiveUpAllKeeps(s, cfg, front, now);
      if last in s.trans.live {
        var addr := s.trans.live[last].addr;
        DropMarks(s1.table, cfg.bucketSize, [addr], now);
        MarksOnward(s.table, s1.table, Drop(s1.table, [addr], now), now);
      }
    }
  }

  lemma RefreshMarks(s: Dht, cfg: Config, tasks: seq<Task>, now: int)
    requires Safe(s, cfg)
    ensures MarksChanges(s.table, Refresh(s, cfg, tasks, now).table, now)
  {
    hide Exclusive, Logged, Typed, ValidTable, MarksChanges, AskAll, Drop;
    SameMarks(s.table, now);
    AskAllKeeps(s, cfg, tasks, now);
    DropMarks(s.table, cfg.bucketSize, TaskAddrs(tasks), now);
  }

  lemma TickMarks(s: Dht, cfg: Config, f: Findings, now: int)
    requires Safe(s, cfg)
    ensures MarksChanges(s.table, Tick(s, cfg, f, now).table, now)
  {
    hide Safe, MarksChanges, Join, GiveUpAll, Refresh, PingAll, Drop;
    SameMarks(s.table, now);
    JoinKeeps(s, cfg, f.prime, now);
    StagesKeep(s, cfg, f, now);
    SafeTable(AfterPings(s, cfg, f, now), cfg);
    GiveUpAllMarks(s, cfg, f.dropped, now);
    RefreshMarks(AfterSweep(s, cfg, f, now), cfg, f.tasks, now);
    MarksOnward(s.table, AfterSweep(s, cfg, f, now).table, AfterRefresh(s, cfg, f, now).table, now);
    DropMarks(AfterPings(s, cfg, f, now).table, cfg.bucketSize, f.pruned, now);
    MarksOnward(s.table, AfterPings(s, cfg, f, now).table, Drop(AfterPings(s, cfg, f, now).table, f.pruned, now), now);
  }

  lemma StepMarks(s: Dht, cfg: Config, e: Timed)
    requires Safe(s, cfg)
    ensures MarksChanges(s.table, Next(s, cfg, e).table, e.now)
  {
    hide Safe, MarksChanges, Request, Response, ReadPacket, Blocked, Tick, SearchFrom;
    SameMarks(s.table, e.now);
    match e.event {
      case Received(data, addr, tokenValid) =>
        match ReadPacket(data) {
          case Some(Message(id, kind, m)) =>
            RequestMarks(s, cfg, m, addr, tokenValid, e.now);
            ResponseMarks(s, cfg, id, m, addr, e.now);
          case None =>
        }
      case Ticked(f) =>
        TickMarks(s, cfg, f, e.now);
      case Searched(ih, port, nodes) =>
        SearchKeeps(s, cfg, nodes, ih, port, e.now);
    }
  }

  /** Some event from `from` on happened at the time. */
  ghost predicate HappenedAt(run: seq<Timed>, from: nat, time: int) {
    exists i :: from <= i < |run| && run[i].now == time
  }

  /** A leaf that has changed in a run bears the time of an event since; else it is as it was before. */
  lemma {:induction false} LeafBearsTime(cfg: Config, start: int, run: seq<Timed>, from: nat, p: Path)
    requires from <= |run| && p in Reached(cfg, start, run).table.trie.leaves
    ensures
      var t, t' := Reached(cfg, start, run[..from]).table.trie, Reached(cfg, start, run).table.trie;
      || (p in t.leaves && t'.leaves[p] == t.leaves[p])
      || HappenedAt(run, from, t'.leaves[p].lastChanged)
    decreases |run|
  {
    hide Safe, Next;
    if from == |run| {
      assert run[..from] == run;
    } else {
      var l, front := |run| - 1, run[..|run| - 1];
      ReachedIsSafe(cfg, start, front);
      StepMarks(Reached(cfg, start, front), cfg, run[l]);
      if Reached(cfg, start, run).table.trie.leaves[p].lastChanged == run[l].now {
        assert HappenedAt(run, from, run[l].now);
      } else {
        assert front[..from] == run[..from];
        LeafBearsTime(cfg, start, front, from, p);
        assert forall i :: from <= i < |front| ==> front[i] == run[i];
      }
    }
  }

  // ----- what a refresh asks

  /**
   * A tick with nothing left in flight asks each of the first `refreshNodes` nodes of every leaf that has
   * not changed for `bucketExpiry`, and none of any other leaf.
   */
  lemma TickRefreshesExactly(cfg: Config, start: int, run: seq<Timed>, f: Findings, now: int, p: Path)
    requires Possible(Reached(cfg, start, run), cfg, At(now, Ticked(f)))
    requires Reached(cfg, start, run).table.cache != map[]
    requires AfterSweep(Reached(cfg, start, run), cfg, f, now).trans.live == map[]
    requires p in AfterSweep(Reached(cfg, start, run), cfg, f, now).table.trie.leaves
    ensures
      var b := AfterSweep(Reached(cfg, start, run), cfg, f, now).table.trie.leaves[p];
      |TasksUnder(f.tasks, p)| ==
      if now - b.lastChanged < cfg.bucketExpiry then 0
      else if |b.nodes| < cfg.refreshNodes then |b.nodes| else cfg.refreshNodes
  {
    hide Reached, Safe, AfterSweep, ListsTimedOut, ListsSilent, TasksUnder, PlanOf, TargetsFit;
    ReachedIsSafe(cfg, start, run);
    var s := Reached(cfg, start, run);
    var swept := AfterSweep(s, cfg, f, now);
    StagesKeep(s, cfg, f, now);
    SafeTable(swept, cfg);
    ValidShape(swept.table, cfg.bucketSize);
    var entries: seq<Entry>, targets: seq<Id> :|
      && CoversOnce(entries, swept.table.trie) && |targets| == |entries| && TargetsFit(entries, targets)
      && f.tasks == PlanOf(entries, targets, now, cfg.bucketExpiry, cfg.refreshNodes);
    EachLeafItsShare(entries, targets, swept.table.trie, now, cfg.bucketExpiry, cfg.refreshNodes, p);
  }

  /** It asks a node of a leaf about an id of that very leaf. */
  lemma TickAsksInLeaf(cfg: Config, start: int, run: seq<Timed>, f: Findings, now: int, task: Task)
    requires Possible(Reached(cfg, start, run), cfg, At(now, Ticked(f)))
    requires Reached(cfg, start, run).table.cache != map[]
    requires AfterSweep(Reached(cfg, start, run), cfg, f, now).trans.live == map[] && task in f.tasks
    ensures
      var t := AfterSweep(Reached(cfg, start, run), cfg, f, now).table.trie;
      && Tries.Shape(t)
      && exists n ::
           n in Tries.AllNodes(t) && n.addr == task.addr && Tries.LeafOf(t, task.target) == Tries.LeafOf(t, n.id)
  {
    hide Reached, Safe, AfterSweep, ListsTimedOut, ListsSilent, PlanOf, TargetsFit, CoversOnce;
    ReachedIsSafe(cfg, start, run);
    var s := Reached(cfg, start, run);
    var swept := AfterSweep(s, cfg, f, now);
    StagesKeep(s, cfg, f, now);
    SafeTable(swept, cfg);
    ValidShape(swept.table, cfg.bucketSize);
    var entries: seq<Entry>, targets: seq<Id> :|
      && CoversOnce(entries, swept.table.trie) && |targets| == |entries| && TargetsFit(entries, targets)
      && f.tasks == PlanOf(entries, targets, now, cfg.bucketExpiry, cfg.refreshNodes);
    TasksStayInLeaf(entries, targets, swept.table.trie, cfg.bucketSize, now, cfg.bucketExpiry, cfg.refreshNodes, task);
  }

  /** It pings at addresses of nodes silent for longer than `nodeExpiry`, and at all of them. */
  lemma TickPingsExactly(cfg: Config, start: int, run: seq<Timed>, f: Findings, now: int, a: Addr)
    requires Possible(Reached(cfg, start, run), cfg, At(now, Ticked(f)))
    requires Reached(cfg, start, run).table.cache != map[]
    ensures
      a in f.silent <==>
      exists n :: n in Tries.AllNodes(AfterRefresh(Reached(cfg, start, run), cfg, f, now).table.trie) &&
                  n.addr == a && now - n.lastActive > cfg.nodeExpiry
  {
    hide Reached, Safe, AfterRefresh, ListsTimedOut, IsPlan, CoversOnce, StaleNodes;
    ReachedIsSafe(cfg, start, run);
    var s := Reached(cfg, start, run);
    var mid := AfterRefresh(s, cfg, f, now);
    StagesKeep(s, cfg, f, now);
    SafeTable(mid, cfg);
    var entries: seq<Entry> :|
      CoversOnce(entries, mid.table.trie) && f.silent == Addrs(StaleNodes(entries, now, cfg.nodeExpiry));
    StaleNodesExactly(entries, mid.table.trie, cfg.bucketSize, now, cfg.nodeExpiry);
    AddrsAre(StaleNodes(entries, now, cfg.nodeExpiry), a);
  }

  lemma AddrsAre(nodes: seq<Node>, a: Addr)
    ensures a in Addrs(nodes) <==> exists n :: n in nodes && n.addr == a
  {
    if n :| n in nodes && n.addr == a {
      var i :| 0 <= i < |nodes| && nodes[i] == n;
      assert Addrs(nodes)[i] == a;
    }
  }
}
