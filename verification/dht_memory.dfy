/** What the node remembers: contacts heard from, and peers announced. */
module DhtMemory {
  import opened Bits
  import Words
  import opened Options
  import opened Nodes
  import opened Sequences
  import opened Bencode
  import opened Compact
  import opened Buckets
  import Tries
  import opened Tables
  import opened Pruning
  import opened Transactions
  import opened DhtMachine
  import opened DhtSafety
  import Peers
  import Utf8

  // ----- who is remembered

  /** A query, not a ping, that has all its arguments. */
  predicate Complete(cfg: Config, q: seq<byte>, a: DhtMachine.Fields, addr: Addr, tokenValid: bool) {
    && Utf8.Valid(q) && IdAt(a, Words.ID).Some? && q != Words.PING
    && (q == Words.FIND_NODE && !cfg.crawl ==> IdAt(a, Words.TARGET).Some?)
    && (q == Words.GET_PEERS ==> IdAt(a, Words.INFO_HASH).Some?)
    && (q == Words.ANNOUNCE_PEER ==>
          tokenValid && Announced(a, addr).Some? && |Announced(a, addr).value.0| == ID_BYTES)
  }

  /** There is no place in the trie for the id. */
  ghost predicate NoPlace(t: Table, k: nat, id: Id) {
    Tries.Shape(t.trie) && Tries.RunsOut(t.trie, k, id)
  }

  /**
   * The sender of a complete query is bound in the trie and cached. If there are nodes enough the
   * routing table stays the same instead; if the trie has no place for it, its nodes and the cache stay,
   * though leaves may be split. Any other query, a ping included, changes nothing at all.
   */
  lemma SendersAreRemembered(cfg: Config, start: int, run: seq<Timed>, m: DhtMachine.Fields, q: seq<byte>,
                             a: DhtMachine.Fields, addr: Addr, tokenValid: bool, now: int)
    requires BytesAt(m, Words.Q) == Some(q) && DictAt(m, Words.A) == Some(a)
    ensures
      var s := Reached(cfg, start, run);
      var s' := Request(s, cfg, m, addr, tokenValid, now);
      if !Complete(cfg, q, a, addr, tokenValid) then s' == s
      else
        var node := Node(IdAt(a, Words.ID).value, addr, now);
        if |s.table.cache| >= cfg.maxNodes then s'.table == s.table
        else if !NoPlace(s.table, cfg.bucketSize, node.id) then
          && Tries.AllNodes(s'.table.trie) == Without(Tries.AllNodes(s.table.trie), node.id) + {node}
          && s'.table.cache == s.table.cache[addr := node]
        else
          && Tries.AllNodes(s'.table.trie) == Tries.AllNodes(s.table.trie)
          && s'.table.cache == s.table.cache
  {
    hide Reached, Safe, Hear, Request, Complete, BytesAt, DictAt, IdAt, Announced, Without, NoPlace;
    ReachedIsSafe(cfg, start, run);
    var s := Reached(cfg, start, run);
    RequestHears(s, cfg, m, q, a, addr, tokenValid, now);
    if Complete(cfg, q, a, addr, tokenValid) {
      CompleteHasId(cfg, q, a, addr, tokenValid);
      HearBinds(s, cfg, IdAt(a, Words.ID).value, addr, now);
    }
  }

  lemma CompleteHasId(cfg: Config, q: seq<byte>, a: DhtMachine.Fields, addr: Addr, tokenValid: bool)
    requires Complete(cfg, q, a, addr, tokenValid)
    ensures IdAt(a, Words.ID).Some?
  {
  }

  lemma RequestHears(s: Dht, cfg: Config, m: DhtMachine.Fields, q: seq<byte>, a: DhtMachine.Fields, addr: Addr,
                     tokenValid: bool, now: int)
    requires BytesAt(m, Words.Q) == Some(q) && DictAt(m, Words.A) == Some(a)
    ensures
      var s' := Request(s, cfg, m, addr, tokenValid, now);
      if Complete(cfg, q, a, addr, tokenValid) then
        IdAt(a, Words.ID).Some? && s'.table == Hear(s, cfg, IdAt(a, Words.ID).value, addr, now).table
      else s' == s
  {
    hide Keep, BytesAt, DictAt, IdAt, Announced, Utf8.Valid, Peers.Arrive;
    Words.QueriesDiffer();
  }

  lemma HearBinds(s: Dht, cfg: Config, id: Id, addr: Addr, now: int)
    requires Safe(s, cfg)
    ensures
      var table := Hear(s, cfg, id, addr, now).table;
      if |s.table.cache| >= cfg.maxNodes then table == s.table
      else if !NoPlace(s.table, cfg.bucketSize, id) then
        && Tries.AllNodes(table.trie) == Without(Tries.AllNodes(s.table.trie), id) + {Node(id, addr, now)}
        && table.cache == s.table.cache[addr := Node(id, addr, now)]
      else
        Tries.AllNodes(table.trie) == Tries.AllNodes(s.table.trie) && table.cache == s.table.cache
  {
    hide InsertInto, ValidTable, Tries.AllNodes, Tries.RunsOut, Exclusive, Logged, Typed, Without;
    ValidShape(s.table, cfg.bucketSize);
    InsertIntoBinds(s.table, cfg.bucketSize, Node(id, addr, now), now);
  }

  // ----- pruning

  /**
   * There are never more nodes than allowed, so the pruning of a tick leaves just the fresh nodes
   * cached; the trie loses the nodes with the ids of the stale entries.
   */
  lemma PruningDropsOnlyStale(cfg: Config, start: int, run: seq<Timed>, f: Findings, now: int)
    requires Possible(Reached(cfg, start, run), cfg, At(now, Ticked(f)))
    requires Reached(cfg, start, run).table.cache != map[]
    ensures
      var before := AfterPings(Reached(cfg, start, run), cfg, f, now).table;
      var after := Tick(Reached(cfg, start, run), cfg, f, now).table;
      && after.cache == Fresh(before.cache, now, cfg.nodeExpiry)
      && Tries.AllNodes(after.trie) == LeftOf(Tries.AllNodes(before.trie), before.cache, after.cache)
  {
    hide Reached, AfterPings, Exclusive, Logged, ListsTimedOut, IsPlan, ListsSilent, ValidTable, Drop, Pruned, LeftOf;
    ReachedIsSafe(cfg, start, run);
    var s := Reached(cfg, start, run);
    StagesKeep(s, cfg, f, now);
    var before := AfterPings(s, cfg, f, now).table;
    DropIsValid(before, cfg.bucketSize, f.pruned, now);
    Subset(Fresh(before.cache, now, cfg.nodeExpiry).Keys, before.cache.Keys);
    NothingInExcess(before.cache, Tick(s, cfg, f, now).table.cache, now, cfg.nodeExpiry, cfg.maxNodes);
  }

  /**
   * A tick's pruning takes no fresh node out of the trie if and only if no stale entry of the cache
   * holds the id of one.
   */
  lemma TickKeepsFreshExactly(cfg: Config, start: int, run: seq<Timed>, f: Findings, now: int)
    requires Possible(Reached(cfg, start, run), cfg, At(now, Ticked(f)))
    requires Reached(cfg, start, run).table.cache != map[]
    ensures
      var before := AfterPings(Reached(cfg, start, run), cfg, f, now).table;
      var after := Tick(Reached(cfg, start, run), cfg, f, now).table;
      (forall n :: n in Tries.AllNodes(before.trie) && !Stale(n, now, cfg.nodeExpiry) ==>
         n in Tries.AllNodes(after.trie)) <==> !StaleTwin(before, now, cfg.nodeExpiry)
  {
    hide Reached, AfterPings, Tick, CanFind, Tries.AllNodes, StaleTwin, LeftOf, Fresh;
    PruningDropsOnlyStale(cfg, start, run, f, now);
    FreshLeaveExactly(AfterPings(Reached(cfg, start, run), cfg, f, now).table, now, cfg.nodeExpiry);
  }

  // ----- the peers kept

  ghost predicate HasHistory(t: Peers.Table, k: nat) {
    exists history: seq<Peers.Arrival> :: t == Peers.Run(k, history)
  }

  lemma ArrivalExtendsHistory(t: Peers.Table, k: nat, ih: Id, peer: Peers.Peer)
    requires HasHistory(t, k)
    ensures HasHistory(Peers.Arrive(t, k, ih, peer), k)
  {
    hide Peers.Arrive;
    var history: seq<Peers.Arrival> :| t == Peers.Run(k, history);
    var longer := history + [Peers.Arrival(ih, peer)];
    assert longer[..|longer| - 1] == history;
    assert Peers.Run(k, longer) == Peers.Arrive(t, k, ih, peer);
  }

  lemma {:induction false} ValuesExtendHistory(t: Peers.Table, k: nat, ih: Id, vs: seq<BVal>)
    requires HasHistory(t, k)
    ensures HasHistory(StoreValues(t, k, ih, vs), k)
  {
    hide HasHistory, Peers.Arrive;
    if vs != [] {
      ValuesExtendHistory(t, k, ih, vs[..|vs| - 1]);
      match vs[|vs| - 1] {
        case Bytes(b) =>
          if |b| == ADDR_BYTES {
            var peer := Peers.Peer(DecodeIpPort(b).value, None);
            ArrivalExtendsHistory(StoreValues(t, k, ih, vs[..|vs| - 1]), k, ih, peer);
          }
        case _ =>
      }
    }
  }

  lemma ResponseHistory(s: Dht, cfg: Config, tid: Tid, m: DhtMachine.Fields, addr: Addr, now: int)
    requires Safe(s, cfg) && HasHistory(s.peers, cfg.k)
    ensures HasHistory(Response(s, cfg, tid, m, addr, now).peers, cfg.k)
  {
    hide Safe, HasHistory, LearnAll, StoreValues, AnnounceBack, DecodeContacts, DictAt, BytesAt, IdAt, ListAt;
    match DictAt(m, Words.R) {
      case Some(r) =>
        var t := if tid in s.trans.live then Some(s.trans.live[tid]) else None;
        var nodes, values := BytesAt(r, Words.NODES), ListAt(r, Words.VALUES);
        var s1 := s;
        if nodes.Some? {
          LearnAllKeeps(s, cfg, DecodeContacts(nodes.value), InfoHashOf(t), SearchTargetOf(t), now);
          s1 := LearnAll(s, cfg, DecodeContacts(nodes.value), InfoHashOf(t), SearchTargetOf(t), now);
        }
        if values.Some? && InfoHashOf(t).Some? {
          ValuesExtendHistory(s.peers, cfg.k, InfoHashOf(t).value, values.value);
        }
        if t.Some? {
          TakeValuesKeeps(s1, cfg, InfoHashOf(t), tid, r);
          AnnounceBackKeeps(TakeValues(s1, cfg, InfoHashOf(t), tid, r), cfg, t.value, tid, r, now);
        }
      case None =>
    }
  }

  lemma RequestHistory(s: Dht, cfg: Config, m: DhtMachine.Fields, addr: Addr, tokenValid: bool, now: int)
    requires HasHistory(s.peers, cfg.k)
    ensures HasHistory(Request(s, cfg, m, addr, tokenValid, now).peers, cfg.k)
  {
    hide HasHistory, Keep, DictAt, BytesAt, IdAt, Announced, Peers.Arrive;
    match (BytesAt(m, Words.Q), DictAt(m, Words.A)) {
      case (Some(q), Some(a)) =>
        var what := Announced(a, addr);
        if what.Some? && |what.value.0| == ID_BYTES {
          ArrivalExtendsHistory(s.peers, cfg.k, what.value.0, what.value.1);
        }
      case _ =>
    }
  }

  lemma NextHistory(s: Dht, cfg: Config, e: Timed)
    requires Safe(s, cfg) && HasHistory(s.peers, cfg.k)
    ensures HasHistory(Next(s, cfg, e).peers, cfg.k)
  {
    hide Safe, HasHistory, Request, Response, ReadPacket, Blocked, Tick, SearchFrom;
    match e.event {
      case Received(data, addr, tokenValid) =>
        match ReadPacket(data) {
          case Some(Message(id, kind, m)) =>
            RequestHistory(s, cfg, m, addr, tokenValid, e.now);
            ResponseHistory(s, cfg, id, m, addr, e.now);
          case None =>
        }
      case Ticked(f) =>
        TickKeeps(s, cfg, f, e.now);
      case Searched(ih, port, nodes) =>
        SearchKeeps(s, cfg, nodes, ih, port, e.now);
    }
  }

  /**
   * In every reachable state the peers of each infohash are the last `k` distinct ones of one history
   * of arrivals, in the order of their latest arrival.
   */
  lemma PeersAreTheLatest(cfg: Config, start: int, run: seq<Timed>)
    ensures exists history: seq<Peers.Arrival> ::
              && Reached(cfg, start, run).peers == Peers.Run(cfg.k, history)
              && forall ih :: ih in Reached(cfg, start, run).peers ==>
                   Peers.KeepsLatest(Reached(cfg, start, run).peers, cfg.k, history, ih)
  {
    ReachedHasHistory(cfg, start, run);
    hide Reached, Peers.KeepsLatest;
    var history: seq<Peers.Arrival> :| Reached(cfg, start, run).peers == Peers.Run(cfg.k, history);
    Peers.RunKeepsLatest(cfg.k, history);
  }

  lemma {:induction false} ReachedHasHistory(cfg: Config, start: int, run: seq<Timed>)
    ensures HasHistory(Reached(cfg, start, run).peers, cfg.k)
  {
    hide Safe, Next;
    if run == [] {
      assert Initial(start).peers == Peers.Run(cfg.k, []);
    } else {
      ReachedIsSafe(cfg, start, run[..|run| - 1]);
      ReachedHasHistory(cfg, start, run[..|run| - 1]);
      NextHistory(Reached(cfg, start, run[..|run| - 1]), cfg, run[|run| - 1]);
    }
  }
}
