/** What an id or an address that changes hands does to the node, and what needs one binding of both. */
module DhtMoves {
  import opened Bits
  import opened Nodes
  import opened Sequences
  import opened Compact
  import opened Buckets
  import Tries
  import opened Tables
  import opened Pruning
  import opened Plans
  import opened Transactions
  import opened Backoff
  import opened DhtMachine
  import opened DhtSafety
  import opened DhtFinds
  import opened DhtMemory
  import opened DhtAgreement
  import opened DhtPossible
  import opened DhtGreetings
  import opened DhtPingRuns

  // ----- under one binding only joins search twice

  lemma BoundAddrsDiffer(t: Table, known: iset<Contact>)
    requires AgreesOn(t, known) && KeyedByAddr(t.cache)
    ensures AddrsDiffer(Tries.AllNodes(t.trie))
  {
    hide Tries.AllNodes;
    assert forall n :: n in Tries.AllNodes(t.trie) ==> n in t.cache.Values;
  }

  lemma PlannedOnce(s: Dht, cfg: Config, tasks: seq<Task>, now: int)
    requires Safe(s, cfg) && AddrsDiffer(Tries.AllNodes(s.table.trie)) && IsPlan(s, cfg, tasks, now)
    ensures NoDup(TaskAddrs(tasks))
  {
    hide Exclusive, Typed, Logged, Tries.WellFormed, CoversOnce, TargetsFit, AddrsDiffer, NoDup;
    var entries: seq<Entry>, targets: seq<Id> :|
      && CoversOnce(entries, s.table.trie) && |targets| == |entries| && TargetsFit(entries, targets)
      && tasks == PlanOf(entries, targets, now, cfg.bucketExpiry, cfg.refreshNodes);
    CoveredApart(entries, s.table.trie, cfg.bucketSize);
    EntriesAreNodes(entries, s.table.trie, cfg.bucketSize);
    TasksOnce(entries, targets, Tries.AllNodes(s.table.trie), now, cfg.bucketExpiry, cfg.refreshNodes);
  }

  lemma EntriesAreNodes(entries: seq<Entry>, t: Tries.Trie, k: nat)
    requires Tries.WellFormed(t, k) && CoversOnce(entries, t)
    ensures forall e, n :: e in entries && n in e.bucket.nodes ==> n in Tries.AllNodes(t)
  {
    forall e, n | e in entries && n in e.bucket.nodes
      ensures n in Tries.AllNodes(t)
    {
      InItsLeafOnly(t, k, n, e.path);
    }
  }

  lemma BoundTickSearchesOnce(s: Dht, cfg: Config, f: Findings, now: int, known: iset<Contact>)
    requires Safe(s, cfg) && AgreesOn(s.table, known) && s.table.cache != map[] && CanFind(s, cfg, f, now)
    ensures RefreshesOnce(AfterSweep(s, cfg, f, now), f.tasks)
  {
    hide Safe, AgreesOn, AfterSweep, AfterRefresh, Tick, IsPlan, AddrsDiffer, ListsTimedOut, ListsSilent, Pruned;
    var swept := AfterSweep(s, cfg, f, now);
    StagesKeep(s, cfg, f, now);
    StagesAgree(s, cfg, f, now, known);
    SafeTable(swept, cfg);
    ValidKeys(swept.table, cfg.bucketSize);
    BoundAddrsDiffer(swept.table, known);
    if swept.trans.live == map[] {
      PlannedOnce(swept, cfg, f.tasks, now);
    }
  }

  /** What a join must not do: search an address twice, or one that is being searched. */
  ghost predicate JoinsOnce(s: Dht, e: Timed) {
    e.event.Ticked? && s.table.cache == map[] ==>
      Unasked(s, FindNode, e.event.findings.prime[..Room(s.trans, |e.event.findings.prime|)])
  }

  ghost predicate AlwaysJoinsOnce(cfg: Config, start: int, run: seq<Timed>) {
    forall i :: 0 <= i < |run| ==> JoinsOnce(Reached(cfg, start, run[..i]), run[i])
  }

  lemma KnownInPrefix(run: seq<Timed>, i: nat)
    requires i <= |run|
    ensures Known(run[..i]) <= Known(run)
  {
    hide Introduces;
    forall c | SpokenOf(run[..i], c)
      ensures SpokenOf(run, c)
    {
      var j :| 0 <= j < |run[..i]| && Introduces(run[..i][j], c);
      assert run[j] == run[..i][j];
    }
  }

  lemma BoundStep(cfg: Config, start: int, run: seq<Timed>, e: Timed, known: iset<Contact>)
    requires OneToOne(known) && Known(run) <= known && Possible(Reached(cfg, start, run), cfg, e)
    ensures SearchesOnce(Reached(cfg, start, run), cfg, e) <==> JoinsOnce(Reached(cfg, start, run), e)
  {
    hide Safe, AgreesOn, OneToOne, Known, Reached, CanFind, RefreshesOnce, AfterSweep, Unasked;
    var s := Reached(cfg, start, run);
    ReachedIsSafe(cfg, start, run);
    PrefixAgrees(cfg, start, run, known);
    if e.event.Ticked? && s.table.cache != map[] {
      BoundTickSearchesOnce(s, cfg, e.event.findings, e.now, known);
    }
  }

  /**
   * If all contacts the packets of a possible run speak of keep to one binding of ids and addresses,
   * the run has at most one search in flight per address, all along, if and only if no join in it
   * searches an address twice or one that is being searched: refreshes never do.
   */
  lemma BoundRunKeepsToOneExactly(cfg: Config, start: int, run: seq<Timed>)
    requires OneToOne(Known(run)) && CanRun(cfg, start, run) && Reached(cfg, start, run).drawn <= MAX_CURSOR
    ensures AlwaysOne(cfg, start, run) <==> AlwaysJoinsOnce(cfg, start, run)
  {
    hide Reached, OneToOne, Known, SearchesOnce, JoinsOnce, Possible, AlwaysOne;
    RunKeepsToOneExactly(cfg, start, run);
    forall i | 0 <= i < |run|
      ensures SearchesOnce(Reached(cfg, start, run[..i]), cfg, run[i]) <==>
              JoinsOnce(Reached(cfg, start, run[..i]), run[i])
    {
      KnownInPrefix(run, i);
      BoundStep(cfg, start, run[..i], run[i], Known(run));
    }
  }

  // ----- two greetings

  lemma OneGreeting(cfg: Config, start: int, x: Node) returns (run: seq<Timed>)
    requires cfg.bucketSize >= 2 && cfg.maxNodes >= 2
    ensures
      var s := Reached(cfg, start, run);
      && run == [Greeting(x.id, x.addr, x.lastActive)] && CanRun(cfg, start, run)
      && s.trans == EMPTY && s.drawn == 0 && s.blacklist == map[] && Flat(s.table)
      && s.table.cache == map[x.addr := x] && Tries.AllNodes(s.table.trie) == {x}
  {
    hide Reached, Possible, Next, Greeting, Tries.AllNodes, CanRun, Flat, NoPlace, Safe;
    NothingReached(cfg, start);
    ReachedIsSafe(cfg, start, []);
    SafeTable(Initial(start), cfg);
    FlatHasPlace(Initial(start).table, cfg.bucketSize, x.id);
    GreetingHeard(cfg, start, [], x.id, x.addr, x.lastActive);
    HearStaysFlat(Initial(start), cfg, x.id, x.addr, x.lastActive);
    run := [] + [Greeting(x.id, x.addr, x.lastActive)];
    RunOneMore(cfg, start, [], run[0]);
  }

  /** Both are cached under their addresses; the trie has them under their ids. */
  lemma TwoGreetings(cfg: Config, start: int, x: Node, y: Node) returns (run: seq<Timed>)
    requires cfg.bucketSize >= 2 && cfg.maxNodes >= 2
    ensures
      var s := Reached(cfg, start, run);
      && CanRun(cfg, start, run) && (forall e :: e in run ==> e.event.Received?)
      && s.trans == EMPTY && s.drawn == 0 && s.blacklist == map[] && Flat(s.table)
      && s.table.cache == map[x.addr := x][y.addr := y]
      && Tries.AllNodes(s.table.trie) == Without({x}, y.id) + {y}
  {
    hide Reached, Possible, Next, Tries.AllNodes, CanRun, Flat, NoPlace, Safe, Without;
    var first := OneGreeting(cfg, start, x);
    var s := Reached(cfg, start, first);
    ReachedIsSafe(cfg, start, first);
    SafeTable(s, cfg);
    FlatHasPlace(s.table, cfg.bucketSize, y.id);
    GreetingHeard(cfg, start, first, y.id, y.addr, y.lastActive);
    HearStaysFlat(s, cfg, y.id, y.addr, y.lastActive);
    run := first + [Greeting(y.id, y.addr, y.lastActive)];
    RunOneMore(cfg, start, first, Greeting(y.id, y.addr, y.lastActive));
  }

  lemma NothingTimedOut(s: Dht, cfg: Config, f: Findings, now: int)
    requires s.trans == EMPTY && ListsTimedOut(s, cfg, f.dropped, now)
    ensures AfterSweep(s, cfg, f, now) == s.(log := AfterSweep(s, cfg, f, now).log)
  {
    hide TimesOut, SentAgain;
    SetSize(f.dropped);
    assert (set tid | tid in f.dropped) == {};
    assert Sweep(s.trans, TIMEOUT, cfg.tries as nat, now, map[]).live == s.trans.live;
  }

  // ----- an id at two addresses

  /**
   * Who greets from a second address and is then met by a tick when his first has become stale leaves
   * the trie, fresh as he is, and stays cached under the second.
   */
  lemma TickLosesMoved(cfg: Config, start: int, id: Id, a: Addr, b: Addr)
    returns (run: seq<Timed>, f: Findings, now: int)
    requires a != b && cfg.bucketSize >= 2 && cfg.maxNodes >= 2 && !cfg.crawl
    ensures CanRun(cfg, start, run) && Possible(Reached(cfg, start, run), cfg, At(now, Ticked(f)))
    ensures
      var before, after := Reached(cfg, start, run).table, Tick(Reached(cfg, start, run), cfg, f, now).table;
      var n := Node(id, b, now);
      && Tries.AllNodes(before.trie) == {n} && before.cache != map[] && !Stale(n, now, cfg.nodeExpiry)
      && Tries.AllNodes(after.trie) == {} && after.cache == map[b := n]
  {
    hide Reached, CanFind, Tick, Tries.AllNodes, CanRun, Flat, Safe, AfterPings, LeftOf, Fresh;
    now := cfg.nodeExpiry + 1;
    var x, y := Node(id, a, 0), Node(id, b, now);
    run := TwoGreetings(cfg, start, x, y);
    var s := Reached(cfg, start, run);
    ReachedIsSafe(cfg, start, run);
    TickIsPossible(s, cfg, [], now);
    f :| f.prime == [] && CanFind(s, cfg, f, now);
    assert b in s.table.cache;
    QuietTable(s, cfg, f, now);
    PruningDropsOnlyStale(cfg, start, run, f, now);
    MovedIsFresh(s.table.cache, x, y, now, cfg.nodeExpiry);
  }

  lemma QuietTable(s: Dht, cfg: Config, f: Findings, now: int)
    requires Safe(s, cfg) && s.trans == EMPTY && !cfg.crawl && s.table.cache != map[] && CanFind(s, cfg, f, now)
    ensures AfterPings(s, cfg, f, now).table == s.table
  {
    hide Safe, AfterSweep, ListsTimedOut, IsPlan, ListsSilent, Pruned, Tick, AskAll;
    NothingTimedOut(s, cfg, f, now);
    StagesKeep(s, cfg, f, now);
    AskAllKeeps(AfterSweep(s, cfg, f, now), cfg, f.tasks, now);
  }

  lemma MovedIsFresh(c: Cache, x: Node, y: Node, now: int, expiry: nat)
    requires x.id == y.id && x.addr != y.addr && c == map[x.addr := x][y.addr := y]
    requires Stale(x, now, expiry) && !Stale(y, now, expiry)
    ensures Fresh(c, now, expiry) == map[y.addr := y]
    ensures LeftOf({y}, c, map[y.addr := y]) == {}
    ensures Without({x}, y.id) + {y} == {y}
  {
    assert c[x.addr] == x;
  }

  // ----- an address with two ids

  lemma {:induction false} AllUnderRoot(tasks: seq<Task>)
    ensures TasksUnder(tasks, []) == tasks
  {
    if tasks != [] {
      AllUnderRoot(tasks[..|tasks| - 1]);
      assert tasks == tasks[..|tasks| - 1] + [tasks[|tasks| - 1]];
    }
  }

  lemma FlatShare(entries: seq<Entry>, targets: seq<Id>, t: Table, k: nat, now: int, expiry: nat, num: nat)
    requires ValidTable(t, k) && Flat(t) && |Tries.AllNodes(t.trie)| == 2 && num >= 2
    requires [] in t.trie.leaves && now - t.trie.leaves[[]].lastChanged >= expiry
    requires CoversOnce(entries, t.trie) && TargetsFit(entries, targets)
    ensures |PlanOf(entries, targets, now, expiry, num)| == 2
  {
    ValidShape(t, k);
    hide ValidTable, PlanOf, TasksUnder, Flat, Tries.AllNodes, Tries.Shape;
    FlatLeaf(t, k);
    EachLeafItsShare(entries, targets, t.trie, now, expiry, num, []);
    AllUnderRoot(PlanOf(entries, targets, now, expiry, num));
  }

  /** When the root is the only leaf, and due, a refresh has a task for each of its first nodes. */
  lemma FlatPlan(s: Dht, cfg: Config, tasks: seq<Task>, now: int)
    requires Safe(s, cfg) && Flat(s.table) && |Tries.AllNodes(s.table.trie)| == 2 && cfg.refreshNodes >= 2
    requires [] in s.table.trie.leaves && now - s.table.trie.leaves[[]].lastChanged >= cfg.bucketExpiry
    requires IsPlan(s, cfg, tasks, now)
    ensures |tasks| == 2
    ensures forall task :: task in tasks ==> exists n :: n in Tries.AllNodes(s.table.trie) && n.addr == task.addr
  {
    hide Exclusive, Typed, Logged, Tries.WellFormed, PlanOf, Flat, Tries.AllNodes, CoversOnce, TargetsFit;
    var entries: seq<Entry>, targets: seq<Id> :|
      && CoversOnce(entries, s.table.trie) && |targets| == |entries| && TargetsFit(entries, targets)
      && tasks == PlanOf(entries, targets, now, cfg.bucketExpiry, cfg.refreshNodes);
    FlatShare(entries, targets, s.table, cfg.bucketSize, now, cfg.bucketExpiry, cfg.refreshNodes);
    forall task | task in tasks
      ensures exists n :: n in Tries.AllNodes(s.table.trie) && n.addr == task.addr
    {
      TasksStayInLeaf(entries, targets, s.table.trie, cfg.bucketSize, now, cfg.bucketExpiry, cfg.refreshNodes, task);
    }
  }

  lemma SilentAreFew(s: Dht, cfg: Config, silent: seq<Addr>, now: int)
    requires Safe(s, cfg) && ListsSilent(s, cfg, silent, now)
    ensures |silent| <= |Tries.AllNodes(s.table.trie)|
  {
    hide Exclusive, Typed, Logged, Tries.WellFormed, CoversOnce, StaleNodes, Tries.AllNodes;
    var entries: seq<Entry> :|
      CoversOnce(entries, s.table.trie) && silent == Addrs(StaleNodes(entries, now, cfg.nodeExpiry));
    var list := StaleNodes(entries, now, cfg.nodeExpiry);
    StaleNodesExactly(entries, s.table.trie, cfg.bucketSize, now, cfg.nodeExpiry);
    SetSize(list);
    Subset((set n | n in list), Tries.AllNodes(s.table.trie));
  }

  /** A tick with nothing in flight sends its tasks, and at most one ping for each node. */
  lemma TickDraws(s: Dht, cfg: Config, f: Findings, now: int)
    requires Safe(s, cfg) && s.trans == EMPTY && s.table.cache != map[] && CanFind(s, cfg, f, now)
    ensures Tick(s, cfg, f, now).drawn <= s.drawn + |f.tasks| + |Tries.AllNodes(s.table.trie)|
  {
    hide Safe, AfterSweep, ListsTimedOut, IsPlan, ListsSilent, Pruned, Drop, Tries.AllNodes, LeftOf;
    NothingTimedOut(s, cfg, f, now);
    StagesKeep(s, cfg, f, now);
    var swept, refreshed := AfterSweep(s, cfg, f, now), AfterRefresh(s, cfg, f, now);
    TasksAskEach(swept, f.tasks, now);
    AskEachDraws(swept, FindNode, TaskQueries(f.tasks), now);
    AskAllKeeps(swept, cfg, f.tasks, now);
    SafeTable(swept, cfg);
    DropIsValid(swept.table, cfg.bucketSize, TaskAddrs(f.tasks), now);
    LeftAreFewer(Tries.AllNodes(s.table.trie), s.table.cache, refreshed.table.cache);
    SilentAreFew(refreshed, cfg, f.silent, now);
    PingAllOpensFew(refreshed, f.silent, now);
  }

  lemma LeftAreFewer(nodes: set<Node>, before: Cache, after: Cache)
    ensures |LeftOf(nodes, before, after)| <= |nodes|
  {
    Subset(LeftOf(nodes, before, after), nodes);
  }

  /**
   * Without such a binding refreshes break it: two ids heard of at one address are both in the trie,
   * and a refresh, in a run without any join, searches the address twice.
   */
  lemma RefreshSearchesTwice(cfg: Config, start: int, id: Id, other: Id, addr: Addr) returns (run: seq<Timed>)
    requires id != other && cfg.bucketSize >= 2 && cfg.maxNodes >= 2 && cfg.refreshNodes >= 2
    ensures CanRun(cfg, start, run) && AlwaysJoinsOnce(cfg, start, run)
    ensures Reached(cfg, start, run).drawn <= MAX_CURSOR && !OnePerAddr(Reached(cfg, start, run).trans, FindNode)
  {
    hide Reached, CanFind, Tick, Tries.AllNodes, CanRun, Flat, Safe, OnePerAddr, AfterSweep, Without;
    var x, y := Node(id, addr, 0), Node(other, addr, 0);
    var hellos := TwoGreetings(cfg, start, x, y);
    var s := Reached(cfg, start, hellos);
    ReachedIsSafe(cfg, start, hellos);
    SafeTable(s, cfg);
    FlatLeaf(s.table, cfg.bucketSize);
    BothStay(x, y);
    var now := s.table.trie.leaves[[]].lastChanged + cfg.bucketExpiry;
    TickIsPossible(s, cfg, [], now);
    var f: Findings :| f.prime == [] && CanFind(s, cfg, f, now);
    assert addr in s.table.cache;
    TickSearchesTwice(s, cfg, f, now, addr);
    var e := At(now, Ticked(f));
    RunOneMore(cfg, start, hellos, e);
    run := hellos + [e];
    assert run[..|hellos|] == hellos;
  }

  lemma BothStay(x: Node, y: Node)
    requires x.id != y.id
    ensures Without({x}, y.id) + {y} == {x, y} && |{x, y}| == 2
  {
  }

  lemma TickSearchesTwice(s: Dht, cfg: Config, f: Findings, now: int, addr: Addr)
    requires Safe(s, cfg) && s.trans == EMPTY && s.drawn == 0 && Flat(s.table) && cfg.refreshNodes >= 2
    requires |Tries.AllNodes(s.table.trie)| == 2 && forall n :: n in Tries.AllNodes(s.table.trie) ==> n.addr == addr
    requires [] in s.table.trie.leaves && now - s.table.trie.leaves[[]].lastChanged >= cfg.bucketExpiry
    requires s.table.cache != map[] && CanFind(s, cfg, f, now)
    ensures Tick(s, cfg, f, now).drawn <= MAX_CURSOR
    ensures !OnePerAddr(Tick(s, cfg, f, now).trans, FindNode)
  {
    hide Safe, AfterSweep, ListsTimedOut, IsPlan, ListsSilent, Pruned, Tries.AllNodes, Flat, Tick, OnePerAddr;
    NothingTimedOut(s, cfg, f, now);
    StagesKeep(s, cfg, f, now);
    FlatPlan(AfterSweep(s, cfg, f, now), cfg, f.tasks, now);
    TickDraws(s, cfg, f, now);
    TickKeepsToOneExactly(s, cfg, f, now);
    assert f.tasks[0] in f.tasks && f.tasks[1] in f.tasks;
    var fitting := TaskAddrs(f.tasks)[..Room(AfterSweep(s, cfg, f, now).trans, 2)];
    assert fitting[0] == addr && fitting[1] == addr;
  }
}
