/** What an answer teaches the routing table, and what a tick makes it forget. */
module DhtLearning {
  import opened Bits
  import Words
  import opened Options
  import opened Nodes
  import opened Compact
  import opened Buckets
  import Tries
  import opened Tables
  import opened Pruning
  import opened Plans
  import opened Transactions
  import opened DhtMachine
  import opened DhtSafety
  import opened DhtAsking
  import opened DhtMemory
  import opened DhtPings
  import opened DhtSending

  // ----- answers

  /** The contact enters: it is not blocked, and there is room for it in cache and trie. */
  ghost predicate Enters(t: Table, cfg: Config, blacklist: map<Addr, int>, c: Contact, now: int) {
    !Blocked(blacklist, c.addr, now) && |t.cache| < cfg.maxNodes && !NoPlace(t, cfg.bucketSize, c.id)
  }

  /** A contact that enters is cached under its address and bound to its id in the trie; no other changes anything. */
  ghost predicate TakesIn(t: Table, t': Table, cfg: Config, blacklist: map<Addr, int>, c: Contact, now: int) {
    if Enters(t, cfg, blacklist, c, now) then
      && t'.cache == t.cache[c.addr := Node(c.id, c.addr, now)]
      && Tries.AllNodes(t'.trie) == Without(Tries.AllNodes(t.trie), c.id) + {Node(c.id, c.addr, now)}
    else t'.cache == t.cache && Tries.AllNodes(t'.trie) == Tries.AllNodes(t.trie)
  }

  /** From one table to another by way of the contacts, one after another. */
  ghost predicate TakesAllIn(stages: seq<Table>, cfg: Config, blacklist: map<Addr, int>, cs: seq<Contact>, now: int) {
    && |stages| == |cs| + 1 && (forall t :: t in stages ==> ValidTable(t, cfg.bucketSize))
    && forall i :: 0 <= i < |cs| ==> TakesIn(stages[i], stages[i + 1], cfg, blacklist, cs[i], now)
  }

  lemma LearnTakesIn(s: Dht, cfg: Config, c: Contact, infoHash: Option<Id>, target: Option<Id>, now: int)
    requires Safe(s, cfg)
    ensures TakesIn(s.table, Learn(s, cfg, c, infoHash, target, now).table, cfg, s.blacklist, c, now)
  {
    hide Safe, Keep, OpenUnless, Blocked, NoPlace, Tries.AllNodes;
    var s1 := Hear(s, cfg, c.id, c.addr, now);
    HearKeeps(s, cfg, c.id, c.addr, now);
    HearBinds(s, cfg, c.id, c.addr, now);
    OpenUnlessAsks(s1, c.addr, GetPeers, infoHash, None, None, now);
    var s2 := if infoHash.Some? then OpenUnless(s1, c.addr, GetPeers, infoHash, None, None, now) else s1;
    OpenUnlessAsks(s2, c.addr, FindNode, None, target, None, now);
  }

  lemma {:induction false} LearnAllTakesIn(s: Dht, cfg: Config, cs: seq<Contact>, infoHash: Option<Id>,
                                           target: Option<Id>, now: int) returns (stages: seq<Table>)
    requires Safe(s, cfg)
    ensures TakesAllIn(stages, cfg, s.blacklist, cs, now)
    ensures stages[0] == s.table && stages[|cs|] == LearnAll(s, cfg, cs, infoHash, target, now).table
  {
    hide Safe, Learn, TakesIn, ValidTable;
    LearnAllKeeps(s, cfg, cs, infoHash, target, now);
    SafeTable(LearnAll(s, cfg, cs, infoHash, target, now), cfg);
    if cs == [] {
      stages := [s.table];
    } else {
      var l, front := |cs| - 1, cs[..|cs| - 1];
      var before := LearnAllTakesIn(s, cfg, front, infoHash, target, now);
      var s1 := LearnAll(s, cfg, front, infoHash, target, now);
      LearnAllKeeps(s, cfg, front, infoHash, target, now);
      LearnTakesIn(s1, cfg, cs[l], infoHash, target, now);
      stages := before + [Learn(s1, cfg, cs[l], infoHash, target, now).table];
      forall i | 0 <= i < l
        ensures TakesIn(stages[i], stages[i + 1], cfg, s.blacklist, cs[i], now)
      {
        assert front[i] == cs[i];
      }
    }
  }

  /**
   * A complete answer, from the address that was asked or to nothing that is in flight, makes every
   * contact in it enter in turn: the cache is overwritten at its address and the trie at its id, unless it
   * is blocked, there are nodes enough, or the trie has no place. Nothing else enters.
   */
  lemma AnswerTeaches(cfg: Config, start: int, run: seq<Timed>, tid: Tid, m: DhtMachine.Fields, addr: Addr,
                      r: DhtMachine.Fields, now: int) returns (stages: seq<Table>)
    requires DictAt(m, Words.R) == Some(r) && IdAt(r, Words.ID).Some?
    requires tid in Reached(cfg, start, run).trans.live ==> Reached(cfg, start, run).trans.live[tid].addr == addr
    ensures
      var s := Reached(cfg, start, run);
      && TakesAllIn(stages, cfg, s.blacklist, Contents(m), now)
      && stages[0] == s.table && stages[|Contents(m)|] == Response(s, cfg, tid, m, addr, now).table
  {
    hide Reached, Safe, LearnAll, Settle, TakesAllIn, BytesAt, IdAt, DictAt, DecodeContacts;
    ReachedIsSafe(cfg, start, run);
    var s := Reached(cfg, start, run);
    var t := Answered(s.trans, tid);
    var s1 := LearnAll(s, cfg, Contents(m), InfoHashOf(t), SearchTargetOf(t), now);
    stages := LearnAllTakesIn(s, cfg, Contents(m), InfoHashOf(t), SearchTargetOf(t), now);
    LearnAllKeeps(s, cfg, Contents(m), InfoHashOf(t), SearchTargetOf(t), now);
    SettleKeeps(s1, cfg, t, tid, r, now);
    NoContacts(s, cfg, InfoHashOf(t), SearchTargetOf(t), now);
  }

  lemma NoContacts(s: Dht, cfg: Config, infoHash: Option<Id>, target: Option<Id>, now: int)
    ensures LearnAll(s, cfg, [], infoHash, target, now) == s
  {
  }

  lemma {:induction false} StageGrows(stages: seq<Table>, cfg: Config, blacklist: map<Addr, int>, cs: seq<Contact>,
                                      now: int, n: nat)
    requires TakesAllIn(stages, cfg, blacklist, cs, now) && n <= |cs|
    ensures |stages[n].cache| <= |stages[0].cache| + n
  {
    hide Enters;
    if n > 0 {
      StageGrows(stages, cfg, blacklist, cs, now, n - 1);
      assert TakesIn(stages[n - 1], stages[n], cfg, blacklist, cs[n - 1], now);
      OneMoreCached(stages[n - 1].cache, Node(cs[n - 1].id, cs[n - 1].addr, now));
    }
  }

  lemma OneMoreCached(c: Cache, n: Node)
    ensures |c[n.addr := n]| <= |c| + 1
  {
    assert c[n.addr := n].Keys == c.Keys + {n.addr};
  }

  lemma {:induction false} EnteredStays(stages: seq<Table>, cfg: Config, blacklist: map<Addr, int>, cs: seq<Contact>,
                                        now: int, i: nat, n: nat)
    requires TakesAllIn(stages, cfg, blacklist, cs, now) && cfg.bucketSize >= 2 && i < n <= |cs|
    requires |stages[0].cache| + |cs| <= cfg.maxNodes && !Blocked(blacklist, cs[i].addr, now)
    requires forall j :: i < j < n ==> cs[j].addr != cs[i].addr
    ensures cs[i].addr in stages[n].cache && stages[n].cache[cs[i].addr] == Node(cs[i].id, cs[i].addr, now)
  {
    hide ValidTable;
    assert TakesIn(stages[n - 1], stages[n], cfg, blacklist, cs[n - 1], now);
    if n - 1 > i {
      EnteredStays(stages, cfg, blacklist, cs, now, i, n - 1);
    } else {
      StageGrows(stages, cfg, blacklist, cs, now, i);
      HasPlace(stages[i], cfg.bucketSize, cs[i].id);
    }
  }

  lemma HasPlace(t: Table, k: nat, id: Id)
    requires ValidTable(t, k) && k >= 2
    ensures !NoPlace(t, k, id)
  {
    Tries.NeverRunsOut(t.trie, k, id);
  }

  /**
   * With buckets of two or more, and room for all of them, every contact of an answer that is not blocked
   * is cached afterwards, unless a later one has its address.
   */
  lemma ContactIsCached(cfg: Config, start: int, run: seq<Timed>, tid: Tid, m: DhtMachine.Fields, addr: Addr,
                        r: DhtMachine.Fields, now: int, i: nat)
    requires DictAt(m, Words.R) == Some(r) && IdAt(r, Words.ID).Some?
    requires tid in Reached(cfg, start, run).trans.live ==> Reached(cfg, start, run).trans.live[tid].addr == addr
    requires cfg.bucketSize >= 2 && |Reached(cfg, start, run).table.cache| + |Contents(m)| <= cfg.maxNodes
    requires i < |Contents(m)| && !Blocked(Reached(cfg, start, run).blacklist, Contents(m)[i].addr, now)
    requires forall j :: i < j < |Contents(m)| ==> Contents(m)[j].addr != Contents(m)[i].addr
    ensures
      var c, cache := Contents(m)[i], Response(Reached(cfg, start, run), cfg, tid, m, addr, now).table.cache;
      c.addr in cache && cache[c.addr] == Node(c.id, c.addr, now)
  {
    hide Reached, Response, TakesAllIn, Contents, Blocked, DictAt, IdAt;
    var stages := AnswerTeaches(cfg, start, run, tid, m, addr, r, now);
    EnteredStays(stages, cfg, Reached(cfg, start, run).blacklist, Contents(m), now, i, |Contents(m)|);
  }

  // ----- ticks

  /** Whom a tick forgets before it prunes: whose pings are overdue, and, in a crawler, whom a refresh asks. */
  ghost function ForgottenBy(s: Dht, cfg: Config, f: Findings, now: int): set<Addr> {
    OverdueAddrs(s, cfg, now) +
    if cfg.crawl && AfterSweep(s, cfg, f, now).trans.live == map[] then set task | task in f.tasks :: task.addr else {}
  }

  lemma RefreshForgets(s: Dht, cfg: Config, tasks: seq<Task>, now: int)
    requires Safe(s, cfg)
    ensures Refresh(s, cfg, tasks, now).table.cache == s.table.cache -
            if cfg.crawl && s.trans.live == map[] then set task | task in tasks :: task.addr else {}
  {
    hide Safe, AskAll, Drop;
    AskAllKeeps(s, cfg, tasks, now);
    SafeTable(s, cfg);
    DropIsValid(s.table, cfg.bucketSize, TaskAddrs(tasks), now);
    TaskAddrsAre(tasks);
  }

  /**
   * After a tick just those nodes are cached that were so before, are not forgotten by the sweep or the
   * refresh, and are not stale.
   */
  lemma TickLeavesExactly(cfg: Config, start: int, run: seq<Timed>, f: Findings, now: int)
    requires Possible(Reached(cfg, start, run), cfg, At(now, Ticked(f)))
    requires Reached(cfg, start, run).table.cache != map[]
    ensures
      var s := Reached(cfg, start, run);
      var left := s.table.cache - ForgottenBy(s, cfg, f, now);
      Tick(s, cfg, f, now).table.cache == map a | a in left && now - left[a].lastActive <= cfg.nodeExpiry :: left[a]
  {
    hide Reached, Safe, AfterSweep, Tick, OverdueAddrs, ListsTimedOut, IsPlan, ListsSilent, Pruned, Refresh, PingAll;
    ReachedIsSafe(cfg, start, run);
    var s := Reached(cfg, start, run);
    var swept := AfterSweep(s, cfg, f, now);
    StagesKeep(s, cfg, f, now);
    TimeoutsForgetExactly(cfg, start, run, f, now);
    PruningDropsOnlyStale(cfg, start, run, f, now);
    RefreshForgets(swept, cfg, f.tasks, now);
    assert AfterPings(s, cfg, f, now).table.cache == s.table.cache - ForgottenBy(s, cfg, f, now);
  }

  lemma TaskAddrsAre(tasks: seq<Task>)
    ensures AddrSet(TaskAddrs(tasks)) == set task | task in tasks :: task.addr
  {
    forall task | task in tasks
      ensures task.addr in TaskAddrs(tasks)
    {
      var i :| 0 <= i < |tasks| && tasks[i] == task;
      assert TaskAddrs(tasks)[i] == task.addr;
    }
  }
}
