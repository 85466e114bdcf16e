/** What holds in every state the node can reach. */
module DhtSafety {
  import opened Bits
  import Words
  import opened Options
  import opened Nodes
  import opened Sequences
  import opened Bencode
  import opened Compact
  import Tries
  import opened Tables
  import opened Plans
  import opened TransactionIds
  import opened Transactions
  import opened Backoff
  import opened DhtMachine
  import Peers

  ghost predicate Bounded(s: Dht, cfg: Config) {
    && ValidTable(s.table, cfg.bucketSize) && |s.table.cache| <= cfg.maxNodes
    && |s.trans.live| <= MAX_TRANSACTIONS
    && |s.peers| <= Peers.MAX_INFOHASHES
    && |s.blacklist| <= cfg.blacklistSize
  }

  /** Until the ids wrap around, every lookup and every ping in flight is the one the index has. */
  ghost predicate Exclusive(s: State, drawn: nat) {
    drawn <= MAX_CURSOR ==>
      && Issued(s, drawn, MAX_CURSOR) && Transactions.Honest(s)
      && Indexed(s, GetPeers) && Indexed(s, Ping)
  }

  /** The log accounts for the transactions in flight. */
  ghost predicate Logged(s: Dht, cfg: Config) {
    && (forall e :: e in s.log ==> Proper(e))
    && TraceAll(s.log, TIMEOUT, cfg.tries as nat).s.live == s.trans.live
  }

  /** A query carries what its type needs and nothing else. */
  predicate WellTyped(qtype: QueryType, infoHash: Option<Id>, target: Option<Id>, port: Option<bv16>) {
    match qtype
    case Ping => infoHash.None? && target.None? && port.None?
    case FindNode => infoHash.None? && target.Some? && port.None?
    case GetPeers => infoHash.Some? && target.None?
    case AnnouncePeer => infoHash.Some? && target.None? && port.None?
  }

  ghost predicate Typed(s: State) {
    forall tid :: tid in s.live ==>
      var t := s.live[tid];
      t.tid == tid && WellTyped(t.qtype, t.infoHash, t.target, t.announcePort)
  }

  ghost predicate Safe(s: Dht, cfg: Config) {
    Bounded(s, cfg) && Exclusive(s.trans, s.drawn) && Typed(s.trans) && Logged(s, cfg)
  }

  /** Nothing but the transactions has changed. */
  ghost predicate OnlyQueries(s: Dht, s': Dht) {
    s' == s.(trans := s'.trans, drawn := s'.drawn, log := s'.log)
  }

  lemma SafeTable(s: Dht, cfg: Config)
    requires Safe(s, cfg)
    ensures ValidTable(s.table, cfg.bucketSize) && |s.table.cache| <= cfg.maxNodes
  {
    hide ValidTable;
  }

  // ----- what the transactions keep

  lemma OpenIsExclusive(s: State, drawn: nat, t: Transaction)
    requires Exclusive(s, drawn)
    requires t.qtype == GetPeers || t.qtype == Ping ==> GetByIndex(s, t.qtype, t.addr).None?
    ensures Exclusive(Open(s, MAX_CURSOR, t), drawn + 1)
  {
    hide Int2Bytes, Issued, Indexed, Transactions.Honest, Open;
    if drawn < MAX_CURSOR {
      OpenKeepsIssued(s, drawn, MAX_CURSOR, t);
      OpenKeepsIndexed(s, drawn, MAX_CURSOR, t, GetPeers);
      OpenKeepsIndexed(s, drawn, MAX_CURSOR, t, Ping);
      OpenIsHonest(s, drawn, t);
    }
  }

  lemma OpenIsHonest(s: State, drawn: nat, t: Transaction)
    requires Issued(s, drawn, MAX_CURSOR) && drawn < MAX_CURSOR && Transactions.Honest(s)
    ensures Transactions.Honest(Open(s, MAX_CURSOR, t))
  {
    hide Int2Bytes, Issued;
    NextIdIsFresh(s, drawn, MAX_CURSOR);
    if Accepts(s) {
      InsertionHonestExactly(Advance(s), t.(tid := NextId(s, MAX_CURSOR)));
    }
  }

  lemma FinishIsExclusive(s: State, drawn: nat, tid: Tid)
    requires Exclusive(s, drawn)
    ensures Exclusive(Finish(s, tid), drawn)
  {
    hide IsIssued;
  }

  lemma SweepIsExclusive(s: State, drawn: nat, timeout: nat, maxRetries: nat, now: int, marks: map<Tid, int>)
    requires Exclusive(s, drawn)
    ensures Exclusive(Sweep(s, timeout, maxRetries, now, marks), drawn)
  {
    hide IsIssued, TimesOut, SentAgain;
    var s' := Sweep(s, timeout, maxRetries, now, marks);
    assert forall tid :: tid in s'.live ==> tid in s.live && KeyOf(s'.live[tid]) == KeyOf(s.live[tid]);
  }

  lemma LogOneMore(s: Dht, cfg: Config, e: Backoff.Event)
    requires Logged(s, cfg) && Proper(e)
    ensures forall x :: x in s.log + [e] ==> Proper(x)
    ensures TraceAll(s.log + [e], TIMEOUT, cfg.tries as nat)
         == Trace(TraceAll(s.log, TIMEOUT, cfg.tries as nat), e, TIMEOUT, cfg.tries as nat)
  {
    hide Trace, Proper;
    assert (s.log + [e])[..|s.log + [e]| - 1] == s.log;
  }

  lemma OpenIsLogged(s: Dht, cfg: Config, t: Transaction)
    requires Logged(s, cfg) && t.retries == 0 && t.tid == NextId(s.trans, MAX_CURSOR)
    ensures Logged(s.(trans := Open(s.trans, MAX_CURSOR, t), drawn := s.drawn + 1, log := s.log + [Opened(t)]), cfg)
  {
    hide TraceAll, NextId;
    LogOneMore(s, cfg, Opened(t));
    assert t.(tid := NextId(s.trans, MAX_CURSOR)) == t;
  }

  lemma OpenIsBounded(s: State, t: Transaction)
    requires |s.live| <= MAX_TRANSACTIONS
    ensures |Open(s, MAX_CURSOR, t).live| <= MAX_TRANSACTIONS
  {
    hide NextId;
    var t' := t.(tid := NextId(s, MAX_CURSOR));
    assert s.live[t'.tid := t'].Keys == s.live.Keys + {t'.tid};
  }

  lemma OpenIsTyped(s: State, t: Transaction)
    requires Typed(s) && WellTyped(t.qtype, t.infoHash, t.target, t.announcePort)
    ensures Typed(Open(s, MAX_CURSOR, t))
  {
    hide NextId;
  }

  lemma OpenKeeps(s: Dht, cfg: Config, addr: Addr, qtype: QueryType, infoHash: Option<Id>, target: Option<Id>,
                  port: Option<bv16>, now: int)
    requires Safe(s, cfg) && WellTyped(qtype, infoHash, target, port)
    requires qtype == GetPeers || qtype == Ping ==> !Querying(s, qtype, addr)
    ensures Safe(OpenNew(s, addr, qtype, infoHash, target, port, now), cfg)
    ensures OnlyQueries(s, OpenNew(s, addr, qtype, infoHash, target, port, now))
  {
    hide Exclusive, ValidTable, Logged, Typed, Open, NextId;
    var t := Transaction(NextId(s.trans, MAX_CURSOR), addr, qtype, infoHash, target, port, false, now, 0);
    OpenIsExclusive(s.trans, s.drawn, t);
    OpenIsLogged(s, cfg, t);
    OpenIsBounded(s.trans, t);
    OpenIsTyped(s.trans, t);
  }

  lemma OpenUnlessKeeps(s: Dht, cfg: Config, addr: Addr, qtype: QueryType, infoHash: Option<Id>, target: Option<Id>,
                        port: Option<bv16>, now: int)
    requires Safe(s, cfg) && WellTyped(qtype, infoHash, target, port)
    ensures Safe(OpenUnless(s, addr, qtype, infoHash, target, port, now), cfg)
    ensures OnlyQueries(s, OpenUnless(s, addr, qtype, infoHash, target, port, now))
  {
    hide Safe, OpenNew, Querying;
    if !Querying(s, qtype, addr) {
      OpenKeeps(s, cfg, addr, qtype, infoHash, target, port, now);
    }
  }

  lemma CloseKeeps(s: Dht, cfg: Config, tid: Tid)
    requires Safe(s, cfg)
    ensures Safe(Close(s, tid), cfg)
    ensures OnlyQueries(s, Close(s, tid))
  {
    hide Exclusive, ValidTable, TraceAll;
    FinishIsExclusive(s.trans, s.drawn, tid);
    LogOneMore(s, cfg, Closed(tid));
    assert (s.trans.live - {tid}).Keys == s.trans.live.Keys - {tid};
  }

  // ----- what the tables keep

  lemma TableKeeps(s: Dht, cfg: Config, table: Table)
    requires Safe(s, cfg) && ValidTable(table, cfg.bucketSize) && |table.cache| <= cfg.maxNodes
    ensures Safe(s.(table := table), cfg)
  {
    hide Exclusive, ValidTable, TraceAll;
  }

  lemma KeepIsValid(t: Table, k: nat, node: Node, now: int)
    requires ValidTable(t, k)
    ensures ValidTable(Keep(t, k, node, now), k) && |t.cache| <= |Keep(t, k, node, now).cache| <= |t.cache| + 1
  {
    hide InsertInto, ValidTable, Tries.RunsOut;
    ValidShape(t, k);
    InsertIntoBinds(t, k, node, now);
    assert t.cache[node.addr := node].Keys == t.cache.Keys + {node.addr};
    Subset(t.cache.Keys, t.cache.Keys + {node.addr});
  }

  lemma HearKeeps(s: Dht, cfg: Config, id: Id, addr: Addr, now: int)
    requires Safe(s, cfg)
    ensures Safe(Hear(s, cfg, id, addr, now), cfg)
    ensures Hear(s, cfg, id, addr, now) == s.(table := Hear(s, cfg, id, addr, now).table)
  {
    hide Exclusive, ValidTable, Logged, Keep;
    if |s.table.cache| < cfg.maxNodes {
      KeepIsValid(s.table, cfg.bucketSize, Node(id, addr, now), now);
      TableKeeps(s, cfg, Keep(s.table, cfg.bucketSize, Node(id, addr, now), now));
    }
  }

  lemma DropIsValid(t: Table, k: nat, addrs: seq<Addr>, now: int)
    requires ValidTable(t, k)
    ensures ValidTable(Drop(t, addrs, now), k) && |Drop(t, addrs, now).cache| <= |t.cache|
    ensures Drop(t, addrs, now).cache == t.cache - AddrSet(addrs)
    ensures Tries.AllNodes(Drop(t, addrs, now).trie)
         == LeftOf(Tries.AllNodes(t.trie), t.cache, Drop(t, addrs, now).cache)
  {
    hide RemoveAddrs, ValidTable, AddrSet, Tries.AllNodes, LeftOf;
    ValidShape(t, k);
    RemoveAddrsRemoves(t, k, addrs, now);
    assert (t.cache - AddrSet(addrs)).Keys == t.cache.Keys - AddrSet(addrs);
    Subset(t.cache.Keys - AddrSet(addrs), t.cache.Keys);
  }

  lemma PeersKeep(s: Dht, cfg: Config, peers: Peers.Table)
    requires Safe(s, cfg) && |peers| <= Peers.MAX_INFOHASHES
    ensures Safe(s.(peers := peers), cfg)
  {
    hide Exclusive, ValidTable, TraceAll;
  }

  lemma BlacklistKeeps(s: Dht, cfg: Config, blacklist: map<Addr, int>)
    requires Safe(s, cfg) && |blacklist| <= cfg.blacklistSize
    ensures Safe(s.(blacklist := blacklist), cfg)
  {
    hide Exclusive, ValidTable, TraceAll;
  }

  lemma BlockIsBounded(blacklist: map<Addr, int>, max: nat, addr: Addr, now: int)
    requires |blacklist| <= max
    ensures |Block(blacklist, max, addr, now)| <= max
    ensures |Unblock(blacklist, now)| <= max
  {
    assert blacklist[addr := now].Keys == blacklist.Keys + {addr};
    Subset(Unblock(blacklist, now).Keys, blacklist.Keys);
  }

  lemma {:induction false} StoreValuesIsBounded(t: Peers.Table, k: nat, ih: Id, vs: seq<BVal>)
    requires |t| <= Peers.MAX_INFOHASHES
    ensures |StoreValues(t, k, ih, vs)| <= Peers.MAX_INFOHASHES
  {
    hide Peers.Arrive;
    if vs != [] {
      StoreValuesIsBounded(t, k, ih, vs[..|vs| - 1]);
      match vs[|vs| - 1] {
        case Bytes(b) =>
          if |b| == ADDR_BYTES {
            Peers.ArriveSize(StoreValues(t, k, ih, vs[..|vs| - 1]), k, ih, Peers.Peer(DecodeIpPort(b).value, None));
          }
        case _ =>
      }
    }
  }

  // ----- packets

  lemma LearnKeeps(s: Dht, cfg: Config, c: Contact, infoHash: Option<Id>, target: Option<Id>, now: int)
    requires Safe(s, cfg)
    ensures Safe(Learn(s, cfg, c, infoHash, target, now), cfg)
    ensures Learn(s, cfg, c, infoHash, target, now).peers == s.peers
    ensures Learn(s, cfg, c, infoHash, target, now).blacklist == s.blacklist
  {
    hide Safe, Hear, OpenUnless, Blocked;
    var s1 := Hear(s, cfg, c.id, c.addr, now);
    HearKeeps(s, cfg, c.id, c.addr, now);
    if infoHash.Some? {
      OpenUnlessKeeps(s1, cfg, c.addr, GetPeers, infoHash, None, None, now);
    }
    var s2 := if infoHash.Some? then OpenUnless(s1, c.addr, GetPeers, infoHash, None, None, now) else s1;
    if target.Some? {
      OpenUnlessKeeps(s2, cfg, c.addr, FindNode, None, target, None, now);
    }
  }

  lemma {:induction false} LearnAllKeeps(s: Dht, cfg: Config, cs: seq<Contact>, infoHash: Option<Id>,
                                         target: Option<Id>, now: int)
    requires Safe(s, cfg)
    ensures Safe(LearnAll(s, cfg, cs, infoHash, target, now), cfg)
    ensures LearnAll(s, cfg, cs, infoHash, target, now).peers == s.peers
    ensures LearnAll(s, cfg, cs, infoHash, target, now).blacklist == s.blacklist
  {
    hide Safe, Learn;
    if cs != [] {
      LearnAllKeeps(s, cfg, cs[..|cs| - 1], infoHash, target, now);
      LearnKeeps(LearnAll(s, cfg, cs[..|cs| - 1], infoHash, target, now), cfg, cs[|cs| - 1], infoHash, target, now);
    }
  }

  lemma TakeValuesKeeps(s: Dht, cfg: Config, ih: Option<Id>, tid: Tid, r: DhtMachine.Fields)
    requires Safe(s, cfg)
    ensures Safe(TakeValues(s, cfg, ih, tid, r), cfg)
    ensures OnlyQueries(s.(peers := TakeValues(s, cfg, ih, tid, r).peers), TakeValues(s, cfg, ih, tid, r))
  {
    hide Exclusive, Logged, ValidTable, Close, StoreValues, ListAt;
    var values := ListAt(r, Words.VALUES);
    if values.Some? && ih.Some? {
      var stored := StoreValues(s.peers, cfg.k, ih.value, values.value);
      StoreValuesIsBounded(s.peers, cfg.k, ih.value, values.value);
      PeersKeep(s, cfg, stored);
      CloseKeeps(s.(peers := stored), cfg, tid);
    }
  }

  lemma AnnounceBackKeeps(s: Dht, cfg: Config, t: Transaction, tid: Tid, r: DhtMachine.Fields, now: int)
    requires Safe(s, cfg)
    ensures Safe(AnnounceBack(s, t, tid, r, now), cfg)
    ensures OnlyQueries(s, AnnounceBack(s, t, tid, r, now))
  {
    hide Safe, OpenNew, Close, BytesAt;
    CloseKeeps(s, cfg, tid);
    if Announces(t) {
      OpenKeeps(s, cfg, t.addr, AnnouncePeer, t.infoHash, None, None, now);
      CloseKeeps(OpenNew(s, t.addr, AnnouncePeer, t.infoHash, None, None, now), cfg, tid);
    }
  }

  lemma SettleKeeps(s: Dht, cfg: Config, t: Option<Transaction>, tid: Tid, r: DhtMachine.Fields, now: int)
    requires Safe(s, cfg)
    ensures Safe(Settle(s, cfg, t, tid, r, now), cfg)
    ensures OnlyQueries(s.(peers := Settle(s, cfg, t, tid, r, now).peers), Settle(s, cfg, t, tid, r, now))
  {
    hide Safe, TakeValues, AnnounceBack, Close;
    var s1 := TakeValues(s, cfg, InfoHashOf(t), tid, r);
    TakeValuesKeeps(s, cfg, InfoHashOf(t), tid, r);
    if t.Some? {
      AnnounceBackKeeps(s1, cfg, t.value, tid, r, now);
      CloseKeeps(AnnounceBack(s1, t.value, tid, r, now), cfg, tid);
    }
  }

  lemma ResponseKeeps(s: Dht, cfg: Config, tid: Tid, m: DhtMachine.Fields, addr: Addr, now: int)
    requires Safe(s, cfg)
    ensures Safe(Response(s, cfg, tid, m, addr, now), cfg)
    ensures Response(s, cfg, tid, m, addr, now).blacklist == s.blacklist
  {
    hide Safe, LearnAll, Settle, DictAt, BytesAt, IdAt, DecodeContacts;
    match DictAt(m, Words.R) {
      case Some(r) =>
        var t := if tid in s.trans.live then Some(s.trans.live[tid]) else None;
        var nodes := BytesAt(r, Words.NODES);
        var s1 := s;
        if nodes.Some? {
          LearnAllKeeps(s, cfg, DecodeContacts(nodes.value), InfoHashOf(t), SearchTargetOf(t), now);
          s1 := LearnAll(s, cfg, DecodeContacts(nodes.value), InfoHashOf(t), SearchTargetOf(t), now);
        }
        SettleKeeps(s1, cfg, t, tid, r, now);
      case None =>
    }
  }

  lemma ArriveKeeps(s: Dht, cfg: Config, ih: Id, peer: Peers.Peer)
    requires Safe(s, cfg)
    ensures Safe(s.(peers := Peers.Arrive(s.peers, cfg.k, ih, peer)), cfg)
  {
    hide Exclusive, Logged, ValidTable, Peers.Arrive;
    Peers.ArriveSize(s.peers, cfg.k, ih, peer);
    PeersKeep(s, cfg, Peers.Arrive(s.peers, cfg.k, ih, peer));
  }

  lemma RequestKeeps(s: Dht, cfg: Config, m: DhtMachine.Fields, addr: Addr, tokenValid: bool, now: int)
    requires Safe(s, cfg)
    ensures Safe(Request(s, cfg, m, addr, tokenValid, now), cfg)
    ensures Request(s, cfg, m, addr, tokenValid, now).blacklist == s.blacklist
  {
    hide Safe, Hear, DictAt, BytesAt, IdAt, Announced, Peers.Arrive;
    match (BytesAt(m, Words.Q), DictAt(m, Words.A)) {
      case (Some(q), Some(a)) =>
        var id := IdAt(a, Words.ID);
        var what := Announced(a, addr);
        if id.Some? {
          HearKeeps(s, cfg, id.value, addr, now);
          if what.Some? && |what.value.0| == ID_BYTES {
            ArriveKeeps(s, cfg, what.value.0, what.value.1);
            HearKeeps(s.(peers := Peers.Arrive(s.peers, cfg.k, what.value.0, what.value.1)), cfg, id.value, addr, now);
          }
        }
      case _ =>
    }
  }

  lemma ReceiveKeeps(s: Dht, cfg: Config, data: Slice, addr: Addr, tokenValid: bool, now: int)
    requires Safe(s, cfg)
    ensures Safe(Receive(s, cfg, data, addr, tokenValid, now), cfg)
    ensures Receive(s, cfg, data, addr, tokenValid, now).blacklist == s.blacklist
  {
    hide Safe, Request, Response, Close, ReadPacket, Blocked;
    match ReadPacket(data) {
      case Some(Message(tid, kind, m)) =>
        RequestKeeps(s, cfg, m, addr, tokenValid, now);
        ResponseKeeps(s, cfg, tid, m, addr, now);
        CloseKeeps(s, cfg, tid);
      case None =>
    }
  }

  // ----- ticks

  lemma {:induction false} JoinKeeps(s: Dht, cfg: Config, prime: seq<Addr>, now: int)
    requires Safe(s, cfg)
    ensures Safe(Join(s, cfg, prime, now), cfg)
    ensures OnlyQueries(s, Join(s, cfg, prime, now))
  {
    hide Safe, OpenNew;
    if prime != [] {
      JoinKeeps(s, cfg, prime[..|prime| - 1], now);
      OpenKeeps(Join(s, cfg, prime[..|prime| - 1], now), cfg, prime[|prime| - 1], FindNode, None, Some(cfg.selfId),
                None, now);
    }
  }

  lemma DropKeeps(s: Dht, cfg: Config, addrs: seq<Addr>, now: int)
    requires Safe(s, cfg)
    ensures Safe(s.(table := Drop(s.table, addrs, now)), cfg)
  {
    hide Exclusive, Logged, ValidTable, Drop;
    DropIsValid(s.table, cfg.bucketSize, addrs, now);
    TableKeeps(s, cfg, Drop(s.table, addrs, now));
  }

  lemma GiveUpKeeps(s: Dht, cfg: Config, t: Transaction, now: int)
    requires Safe(s, cfg)
    ensures Safe(GiveUp(s, cfg, t, now), cfg)
    ensures GiveUp(s, cfg, t, now).peers == s.peers
  {
    hide Exclusive, Logged, ValidTable, Drop, Block;
    if t.qtype == Ping {
      DropKeeps(s, cfg, [t.addr], now);
    } else {
      BlockIsBounded(s.blacklist, cfg.blacklistSize, t.addr, now);
      BlacklistKeeps(s, cfg, Block(s.blacklist, cfg.blacklistSize, t.addr, now));
    }
  }

  lemma {:induction false} GiveUpAllKeeps(s: Dht, cfg: Config, tids: seq<Tid>, now: int)
    requires Safe(s, cfg)
    ensures Safe(GiveUpAll(s, cfg, tids, now), cfg)
    ensures GiveUpAll(s, cfg, tids, now).peers == s.peers
    ensures GiveUpAll(s, cfg, tids, now).trans == s.trans && GiveUpAll(s, cfg, tids, now).log == s.log
    ensures GiveUpAll(s, cfg, tids, now).drawn == s.drawn
  {
    hide Safe;
    if tids != [] {
      var front, last := tids[..|tids| - 1], tids[|tids| - 1];
      GiveUpAllKeeps(s, cfg, front, now);
      if last in s.trans.live {
        GiveUpKeeps(GiveUpAll(s, cfg, front, now), cfg, s.trans.live[last], now);
      }
    }
  }

  lemma SweepOutKeeps(s: Dht, cfg: Config, dropped: seq<Tid>, now: int)
    requires Safe(s, cfg)
    ensures Safe(SweepOut(s, cfg, dropped, now), cfg)
    ensures SweepOut(s, cfg, dropped, now).peers == s.peers
  {
    GiveUpAllKeeps(s, cfg, dropped, now);
    SweepKeeps(GiveUpAll(s, cfg, dropped, now), cfg, now);
  }

  lemma SweepKeeps(s: Dht, cfg: Config, now: int)
    requires Safe(s, cfg)
    ensures
      var swept := Sweep(s.trans, TIMEOUT, cfg.tries as nat, now, map[]);
      Safe(s.(trans := swept, log := s.log + [Swept(now, map[])]), cfg)
  {
    hide Exclusive, ValidTable, TraceAll, TimesOut, SentAgain;
    SweepIsExclusive(s.trans, s.drawn, TIMEOUT, cfg.tries as nat, now, map[]);
    LogOneMore(s, cfg, Swept(now, map[]));
    SweepReadsLive(TraceAll(s.log, TIMEOUT, cfg.tries as nat).s, s.trans, TIMEOUT, cfg.tries as nat, now, map[]);
    Subset(Sweep(s.trans, TIMEOUT, cfg.tries as nat, now, map[]).live.Keys, s.trans.live.Keys);
  }

  lemma SweepReadsLive(a: State, b: State, timeout: nat, maxRetries: nat, now: int, marks: map<Tid, int>)
    requires a.live == b.live
    ensures Sweep(a, timeout, maxRetries, now, marks).live == Sweep(b, timeout, maxRetries, now, marks).live
  {
    hide TimesOut, Retries;
  }

  lemma {:induction false} AskAllKeeps(s: Dht, cfg: Config, tasks: seq<Task>, now: int)
    requires Safe(s, cfg)
    ensures Safe(AskAll(s, tasks, now), cfg)
    ensures OnlyQueries(s, AskAll(s, tasks, now))
  {
    hide Safe, OpenNew;
    if tasks != [] {
      var task := tasks[|tasks| - 1];
      AskAllKeeps(s, cfg, tasks[..|tasks| - 1], now);
      OpenKeeps(AskAll(s, tasks[..|tasks| - 1], now), cfg, task.addr, FindNode, None, Some(task.target), None, now);
    }
  }

  lemma RefreshKeeps(s: Dht, cfg: Config, tasks: seq<Task>, now: int)
    requires Safe(s, cfg)
    ensures Safe(Refresh(s, cfg, tasks, now), cfg)
    ensures Refresh(s, cfg, tasks, now).peers == s.peers
    ensures Refresh(s, cfg, tasks, now).blacklist == s.blacklist
  {
    hide Safe, AskAll, Drop;
    AskAllKeeps(s, cfg, tasks, now);
    DropKeeps(AskAll(s, tasks, now), cfg, TaskAddrs(tasks), now);
  }

  lemma {:induction false} PingAllKeeps(s: Dht, cfg: Config, addrs: seq<Addr>, now: int)
    requires Safe(s, cfg)
    ensures Safe(PingAll(s, addrs, now), cfg)
    ensures OnlyQueries(s, PingAll(s, addrs, now))
  {
    hide Safe, OpenUnless;
    if addrs != [] {
      PingAllKeeps(s, cfg, addrs[..|addrs| - 1], now);
      OpenUnlessKeeps(PingAll(s, addrs[..|addrs| - 1], now), cfg, addrs[|addrs| - 1], Ping, None, None, None, now);
    }
  }

  lemma TidyKeeps(s: Dht, cfg: Config, pruned: seq<Addr>, now: int)
    requires Safe(s, cfg)
    ensures Safe(Tidy(s, pruned, now), cfg)
    ensures Tidy(s, pruned, now).peers == s.peers
  {
    hide Exclusive, Logged, ValidTable, Drop, Unblock;
    BlockIsBounded(s.blacklist, cfg.blacklistSize, Addr(V4([0, 0, 0, 0]), 0), now);
    BlacklistKeeps(s, cfg, Unblock(s.blacklist, now));
    DropKeeps(s.(blacklist := Unblock(s.blacklist, now)), cfg, pruned, now);
  }

  lemma StagesKeep(s: Dht, cfg: Config, f: Findings, now: int)
    requires Safe(s, cfg)
    ensures Safe(AfterSweep(s, cfg, f, now), cfg)
    ensures AfterSweep(s, cfg, f, now).peers == s.peers
    ensures Safe(AfterRefresh(s, cfg, f, now), cfg)
    ensures AfterRefresh(s, cfg, f, now).peers == s.peers
    ensures Safe(AfterPings(s, cfg, f, now), cfg)
    ensures AfterPings(s, cfg, f, now).peers == s.peers
    ensures AfterPings(s, cfg, f, now).blacklist == AfterSweep(s, cfg, f, now).blacklist
    ensures AfterPings(s, cfg, f, now).table == AfterRefresh(s, cfg, f, now).table
  {
    hide Safe, SweepOut, Refresh, PingAll;
    SweepOutKeeps(s, cfg, f.dropped, now);
    RefreshKeeps(AfterSweep(s, cfg, f, now), cfg, f.tasks, now);
    PingAllKeeps(AfterRefresh(s, cfg, f, now), cfg, f.silent, now);
  }

  lemma TickKeeps(s: Dht, cfg: Config, f: Findings, now: int)
    requires Safe(s, cfg)
    ensures Safe(Tick(s, cfg, f, now), cfg)
    ensures Tick(s, cfg, f, now).peers == s.peers
  {
    hide Safe, Join, AfterPings, Tidy;
    JoinKeeps(s, cfg, f.prime, now);
    StagesKeep(s, cfg, f, now);
    TidyKeeps(AfterPings(s, cfg, f, now), cfg, f.pruned, now);
  }

  lemma {:induction false} SearchKeeps(s: Dht, cfg: Config, nodes: seq<Node>, ih: Id, port: Option<bv16>, now: int)
    requires Safe(s, cfg)
    ensures Safe(SearchFrom(s, nodes, ih, port, now), cfg)
    ensures OnlyQueries(s, SearchFrom(s, nodes, ih, port, now))
  {
    hide Safe, OpenUnless;
    if nodes != [] {
      var front := nodes[..|nodes| - 1];
      SearchKeeps(s, cfg, front, ih, port, now);
      OpenUnlessKeeps(SearchFrom(s, front, ih, port, now), cfg, nodes[|nodes| - 1].addr, GetPeers, Some(ih), None,
                      port, now);
    }
  }

  // ----- whole runs

  lemma NextKeeps(s: Dht, cfg: Config, e: Timed)
    requires Safe(s, cfg)
    ensures Safe(Next(s, cfg, e), cfg)
  {
    hide Safe, Receive, Tick, SearchFrom;
    match e.event {
      case Received(data, addr, tokenValid) => ReceiveKeeps(s, cfg, data, addr, tokenValid, e.now);
      case Ticked(f) => TickKeeps(s, cfg, f, e.now);
      case Searched(ih, port, nodes) => SearchKeeps(s, cfg, nodes, ih, port, e.now);
    }
  }

  lemma InitialIsSafe(cfg: Config, start: int)
    ensures Safe(Initial(start), cfg)
  {
    hide Tries.WellFormed;
    EmptyTrieWellFormed(cfg.bucketSize, start);
  }

  /** Whatever arrives and whenever: every state the node reaches is safe. */
  lemma {:induction false} ReachedIsSafe(cfg: Config, start: int, run: seq<Timed>)
    ensures Safe(Reached(cfg, start, run), cfg)
  {
    hide Safe, Next, Initial;
    if run == [] {
      InitialIsSafe(cfg, start);
    } else {
      ReachedIsSafe(cfg, start, run[..|run| - 1]);
      NextKeeps(Reached(cfg, start, run[..|run| - 1]), cfg, run[|run| - 1]);
    }
  }
}
