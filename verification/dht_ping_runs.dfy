/** Runs of the node in which a ping is sent, and given up. */
module DhtPingRuns {
  import opened Bits
  import opened Options
  import opened Nodes
  import opened Sequences
  import opened Compact
  import Tries
  import opened Tables
  import opened Pruning
  import opened Plans
  import opened Neighbors
  import opened Transactions
  import opened Backoff
  import opened DhtMachine
  import opened DhtSafety
  import opened DhtFlights
  import opened DhtGreetings
  import opened DhtAsking
  import opened DhtMemory
  import opened DhtAgreement
  import opened DhtPings
  import opened DhtPossible

  // ----- a run in which a ping is sent

  lemma {:induction false} AllStale(nodes: seq<Node>, now: int, expiry: nat)
    requires forall n :: n in nodes ==> Stale(n, now, expiry)
    ensures |StaleIn(nodes, now, expiry)| == |nodes|
  {
    if nodes != [] {
      AllStale(nodes[..|nodes| - 1], now, expiry);
    }
  }

  /** In a table of one stale node, walks list it once. */
  lemma OneIsListed(entries: seq<Entry>, t: Table, k: nat, n: Node, now: int, expiry: nat)
    requires ValidTable(t, k) && CoversOnce(entries, t.trie) && Tries.AllNodes(t.trie) == {n} && Stale(n, now, expiry)
    ensures |StaleNodes(entries, now, expiry)| == 1
    ensures forall e, m :: e in entries && m in e.bucket.nodes ==> Stale(m, now, expiry)
  {
    hide StaleNodes;
    var list := StaleNodes(entries, now, expiry);
    StaleNodesExactly(entries, t.trie, k, now, expiry);
    assert (set m | m in list) == {n};
    SetSize(list);
    forall e, m | e in entries && m in e.bucket.nodes
      ensures Stale(m, now, expiry)
    {
      assert m in Tries.AllNodes(t.trie);
    }
  }

  lemma {:induction false} PingAllOpensFew(s: Dht, addrs: seq<Addr>, now: int)
    ensures PingAll(s, addrs, now).drawn <= s.drawn + |addrs|
    ensures |PingAll(s, addrs, now).trans.live| <= |s.trans.live| + |addrs|
  {
    hide OpenNew;
    if addrs != [] {
      PingAllOpensFew(s, addrs[..|addrs| - 1], now);
      OpensOne(PingAll(s, addrs[..|addrs| - 1], now), addrs[|addrs| - 1], Ping, None, None, now);
    }
  }

  lemma OpensOne(s: Dht, addr: Addr, qtype: QueryType, infoHash: Option<Id>, target: Option<Id>, now: int)
    ensures OpenNew(s, addr, qtype, infoHash, target, None, now).drawn == s.drawn + 1
    ensures |OpenNew(s, addr, qtype, infoHash, target, None, now).trans.live| <= |s.trans.live| + 1
  {
    hide NextId;
    var tid := NextId(s.trans, MAX_CURSOR);
    var s' := OpenNew(s, addr, qtype, infoHash, target, None, now);
    assert s'.trans.live.Keys <= s.trans.live.Keys + {tid};
    Subset(s'.trans.live.Keys, s.trans.live.Keys + {tid});
  }

  /** All that is in flight has just been sent. */
  predicate JustSent(s: Dht, now: int) {
    s.trans.live != map[] && forall tid :: tid in s.trans.live ==> s.trans.live[tid].createdAt == now
  }

  lemma NothingOverdue(s: Dht, cfg: Config, now: int, tid: Tid)
    requires JustSent(s, now) && tid in s.trans.live
    ensures !TimesOut(s.trans.live[tid], TIMEOUT, cfg.tries as nat, now)
    ensures !SentAgain(s.trans, tid, TIMEOUT, cfg.tries as nat, now)
  {
    assert Threshold(TIMEOUT, s.trans.live[tid].retries) * SECOND >= SECOND;
  }

  /** A tick right after a query has been sent sweeps and refreshes nothing. */
  lemma QuietTick(s: Dht, cfg: Config, f: Findings, now: int)
    requires JustSent(s, now) && ListsTimedOut(s, cfg, f.dropped, now)
    ensures AfterSweep(s, cfg, f, now) == s.(log := AfterSweep(s, cfg, f, now).log)
    ensures AfterRefresh(s, cfg, f, now) == AfterSweep(s, cfg, f, now)
  {
    hide TimesOut, SentAgain;
    forall tid | tid in s.trans.live
      ensures !TimesOut(s.trans.live[tid], TIMEOUT, cfg.tries as nat, now)
      ensures !SentAgain(s.trans, tid, TIMEOUT, cfg.tries as nat, now)
    {
      NothingOverdue(s, cfg, now, tid);
    }
    SetSize(f.dropped);
    assert (set tid | tid in f.dropped) == {};
    assert Sweep(s.trans, TIMEOUT, cfg.tries as nat, now, map[]).live == s.trans.live;
  }

  /** One node is known, and silent; it is being asked something else. Then a tick pings and forgets it. */
  lemma TickAfterSilence(s: Dht, cfg: Config, f: Findings, now: int, n: Node)
    requires Safe(s, cfg) && JustSent(s, now) && |s.trans.live| <= 1 && s.drawn <= 1 && s.blacklist == map[]
    requires s.table.cache == map[n.addr := n] && Tries.AllNodes(s.table.trie) == {n} && Flat(s.table)
    requires Stale(n, now, cfg.nodeExpiry) && CanFind(s, cfg, f, now)
    ensures
      var s' := Tick(s, cfg, f, now);
      && s'.drawn <= 2 && |s'.trans.live| <= 2 && s'.blacklist == map[] && Flat(s'.table)
      && n in Tries.AllNodes(AfterRefresh(s, cfg, f, now).table.trie)
      && AfterPings(s, cfg, f, now).table == s.table
  {
    hide Exclusive, Typed, Logged, ValidTable, Tries.AllNodes, CoversOnce, StaleNodes, ListsTimedOut, JustSent;
    hide Pruned, SweepOut, PingAll, Drop, Refresh, Flat;
    assert n.addr in s.table.cache;
    QuietTick(s, cfg, f, now);
    var refreshed := AfterRefresh(s, cfg, f, now);
    StagesKeep(s, cfg, f, now);
    PingAllOpensFew(refreshed, f.silent, now);
    SilentOfOne(refreshed, cfg, f.silent, now, n);
    StillNobodyBlocked(s, cfg, f, now);
    DropStaysFlat(s.table, f.pruned, now);
  }

  lemma SilentOfOne(s: Dht, cfg: Config, silent: seq<Addr>, now: int, n: Node)
    requires Safe(s, cfg) && Tries.AllNodes(s.table.trie) == {n} && Stale(n, now, cfg.nodeExpiry)
    requires ListsSilent(s, cfg, silent, now)
    ensures |silent| == 1
  {
    hide Exclusive, Typed, Logged, ValidTable, Tries.AllNodes, CoversOnce, StaleNodes;
    var entries: seq<Entry> :|
      CoversOnce(entries, s.table.trie) && silent == Addrs(StaleNodes(entries, now, cfg.nodeExpiry));
    OneIsListed(entries, s.table, cfg.bucketSize, n, now, cfg.nodeExpiry);
  }

  lemma StillNobodyBlocked(s: Dht, cfg: Config, f: Findings, now: int)
    requires Safe(s, cfg) && AfterSweep(s, cfg, f, now).blacklist == map[] && s.table.cache != map[]
    ensures Tick(s, cfg, f, now).blacklist == map[]
  {
    hide Safe, SweepOut, Refresh, PingAll, Drop;
    StagesKeep(s, cfg, f, now);
  }

  /** After a greeting, one node is known; when it has been silent it is asked something. */
  lemma AskedAfterSilence(cfg: Config, start: int, id: Id, addr: Addr) returns (run: seq<Timed>)
    requires cfg.bucketSize >= 1 && cfg.maxNodes >= 1
    ensures
      var s, n := Reached(cfg, start, run), Node(id, addr, 0);
      && CanRun(cfg, start, run) && s.drawn <= 1 && |s.trans.live| <= 1 && s.blacklist == map[]
      && JustSent(s, cfg.nodeExpiry + 1) && Flat(s.table)
      && s.table.cache == map[addr := n] && Tries.AllNodes(s.table.trie) == {n}
  {
    hide Reached, Possible, Next, Greeting, Tries.AllNodes, CanRun, Flat, JustSent, NoPlace, Nearest, SearchFrom;
    hide Safe;
    var hello, now, n := Greeting(id, addr, 0), cfg.nodeExpiry + 1, Node(id, addr, 0);
    NothingReached(cfg, start);
    ReachedIsSafe(cfg, start, []);
    SafeTable(Initial(start), cfg);
    FlatHasPlace(Initial(start).table, cfg.bucketSize, id);
    GreetingHeard(cfg, start, [], id, addr, 0);
    HearStaysFlat(Initial(start), cfg, id, addr, 0);
    RunOneMore(cfg, start, [], hello);
    assert [] + [hello] == [hello];
    var s := Reached(cfg, start, [hello]);
    ReachedIsSafe(cfg, start, [hello]);
    SearchIsPossible(s, cfg, id);
    var nodes :| Nearest(nodes, s.table.cache, id, |s.table.cache|);
    var ask := At(now, Searched(id, None, nodes));
    AskOne(s, nodes, id, now, n);
    SearchMayHappen(s, cfg, ask);
    RunOneMore(cfg, start, [hello], ask);
    run := [hello] + [ask];
  }

  lemma SearchMayHappen(s: Dht, cfg: Config, e: Timed)
    requires e.event.Searched? && Nearest(e.event.nodes, s.table.cache, e.event.ih, |s.table.cache|)
    ensures Possible(s, cfg, e)
    ensures Next(s, cfg, e) == SearchFrom(s, e.event.nodes, e.event.ih, e.event.port, e.now)
  {
    hide Nearest, SearchFrom;
  }

  lemma AskOne(s: Dht, nodes: seq<Node>, ih: Id, now: int, n: Node)
    requires s.table.cache == map[n.addr := n] && s.trans == EMPTY && s.drawn == 0
    requires Nearest(nodes, s.table.cache, ih, |s.table.cache|)
    ensures
      var s' := SearchFrom(s, nodes, ih, None, now);
      && s'.table == s.table && s'.blacklist == s.blacklist
      && s'.drawn <= 1 && |s'.trans.live| <= 1 && JustSent(s', now)
  {
    hide NearestFirst, NextId;
    assert |nodes| == 1;
    assert SearchFrom(s, nodes[..0], ih, None, now) == s;
    assert SearchFrom(s, nodes, ih, None, now) == OpenNew(s, nodes[0].addr, GetPeers, Some(ih), None, None, now);
    OpensOne(s, nodes[0].addr, GetPeers, Some(ih), None, now);
    var tid := NextId(s.trans, MAX_CURSOR);
    assert tid in OpenNew(s, nodes[0].addr, GetPeers, Some(ih), None, None, now).trans.live;
  }

  /** Who greets and then keeps silent for too long is pinged by the next tick, which forgets him. */
  lemma PingIsSent(cfg: Config, start: int, id: Id, addr: Addr) returns (run: seq<Timed>, tid: Tid)
    requires cfg.bucketSize >= 1 && cfg.maxNodes >= 1
    ensures CanRun(cfg, start, run) && IsPing(Reached(cfg, start, run), tid)
    ensures Reached(cfg, start, run).drawn <= 2 && Reached(cfg, start, run).blacklist == map[]
    ensures Reached(cfg, start, run).table.cache == map[] && Flat(Reached(cfg, start, run).table)
    ensures Tries.AllNodes(Reached(cfg, start, run).table.trie) == {}
  {
    hide Reached, Safe, Tick, CanFind, Tries.AllNodes, AfterRefresh, AfterPings, CanRun, IsPing, InFlight, Fresh;
    hide JustSent, Flat, Agrees;
    var now, n := cfg.nodeExpiry + 1, Node(id, addr, 0);
    var before := AskedAfterSilence(cfg, start, id, addr);
    var s := Reached(cfg, start, before);
    assert addr in s.table.cache;
    ReachedIsSafe(cfg, start, before);
    TickIsPossible(s, cfg, [], now);
    var f: Findings :| f.prime == [] && CanFind(s, cfg, f, now);
    var e := At(now, Ticked(f));
    TickAfterSilence(s, cfg, f, now, n);
    TickPingsTheSilent(cfg, start, before, f, now, n);
    PruningDropsOnlyStale(cfg, start, before, f, now);
    RunOneMore(cfg, start, before, e);
    run := before + [e];
    tid := FlyingPing(Tick(s, cfg, f, now), addr);
    NothingFresh(s.table.cache, n, now, cfg.nodeExpiry);
    NobodyLeft(s, cfg, f, now, n);
  }

  lemma NothingFresh(c: Cache, n: Node, now: int, expiry: nat)
    requires c == map[n.addr := n] && Stale(n, now, expiry)
    ensures Fresh(c, now, expiry) == map[]
  {
  }

  lemma OneCached(c: Cache, n: Node)
    requires c == map[n.addr := n]
    ensures c.Values == {n}
  {
    assert c[n.addr] == n;
  }

  lemma NobodyLeft(s: Dht, cfg: Config, f: Findings, now: int, n: Node)
    requires Safe(s, cfg) && s.table.cache == map[n.addr := n] && Tries.AllNodes(s.table.trie) == {n}
    requires Tick(s, cfg, f, now).table.cache == map[]
    ensures Tries.AllNodes(Tick(s, cfg, f, now).table.trie) == {}
  {
    hide Safe, Tick, Tries.AllNodes;
    var known := iset{Contact(n.id, n.addr)};
    OneCached(s.table.cache, n);
    TickAgrees(s, cfg, f, now, known);
  }

  lemma FlyingPing(s: Dht, addr: Addr) returns (tid: Tid)
    requires InFlight(s.trans, Ping, addr)
    ensures IsPing(s, tid)
  {
    tid :| tid in s.trans.live && KeyOf(s.trans.live[tid]) == Key(Ping, addr);
  }

  // ----- a run in which a ping is given up

  /** Some tick of some run gives up the ping. */
  ghost predicate GivesUpPing(cfg: Config, start: int, run: seq<Timed>, f: Findings, now: int, tid: Tid) {
    && CanRun(cfg, start, run) && Possible(Reached(cfg, start, run), cfg, At(now, Ticked(f)))
    && Reached(cfg, start, run).table.cache != map[] && IsPing(Reached(cfg, start, run), tid)
    && tid !in AfterSweep(Reached(cfg, start, run), cfg, f, now).trans.live
  }

  /** A ping in flight, some node known, and a tick after the ping's timeout. */
  lemma OverduePingIsMet(cfg: Config, start: int) returns (run: seq<Timed>, f: Findings, now: int, tid: Tid)
    requires cfg.bucketSize >= 1 && cfg.maxNodes >= 1
    ensures CanRun(cfg, start, run) && Possible(Reached(cfg, start, run), cfg, At(now, Ticked(f)))
    ensures Reached(cfg, start, run).table.cache != map[] && IsPing(Reached(cfg, start, run), tid)
    ensures now - Reached(cfg, start, run).trans.live[tid].createdAt >= 10 * 1_000_000_000
  {
    hide Reached, Safe, CanRun, CanFind, Greeting, Tries.AllNodes, Next, Flat, NoPlace;
    var addr := Addr(V4([0, 0, 0, 0]), 0);
    run, tid := PingIsSent(cfg, start, cfg.selfId, addr);
    ReachedIsSafe(cfg, start, run);
    SafeTable(Reached(cfg, start, run), cfg);
    FlatHasPlace(Reached(cfg, start, run).table, cfg.bucketSize, cfg.selfId);
    var hello := Greeting(cfg.selfId, addr, 0);
    GreetingHeard(cfg, start, run, cfg.selfId, addr, 0);
    RunOneMore(cfg, start, run, hello);
    run := run + [hello];
    var s := Reached(cfg, start, run);
    assert addr in s.table.cache;
    now := s.trans.live[tid].createdAt + 10 * 1_000_000_000;
    ReachedIsSafe(cfg, start, run);
    TickIsPossible(s, cfg, [], now);
    f :| f.prime == [] && CanFind(s, cfg, f, now);
  }

  /**
   * A node that keeps other nodes at all can have a tick give up a ping if and only if it retries nothing.
   */
  lemma PingsAreGivenUpExactly(cfg: Config, start: int)
    requires cfg.bucketSize >= 1 && cfg.maxNodes >= 1
    ensures (exists run, f, now, tid :: GivesUpPing(cfg, start, run, f, now, tid)) <==> cfg.tries == 0
  {
    hide Reached, Safe, CanRun, CanFind, AfterSweep;
    if cfg.tries == 0 {
      var run, f, now, tid := OverduePingIsMet(cfg, start);
      ReachedIsSafe(cfg, start, run);
      SweepEndsPing(Reached(cfg, start, run), cfg, f, now, tid);
      assert GivesUpPing(cfg, start, run, f, now, tid);
    }
    if run, f, now, tid :| GivesUpPing(cfg, start, run, f, now, tid) {
      ReachedIsSafe(cfg, start, run);
      SweepEndsPing(Reached(cfg, start, run), cfg, f, now, tid);
    }
  }
}
