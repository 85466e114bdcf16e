/** Cache and trie in the running node, under one binding of ids and addresses. */
module DhtAgreement {
  import opened Bits
  import Words
  import opened Options
  import opened Nodes
  import opened Compact
  import Tries
  import opened Tables
  import opened Pruning
  import opened Plans
  import opened Transactions
  import opened DhtMachine
  import opened DhtSafety
  import opened DhtMemory

  /** Ids and addresses are bound to one another. */
  ghost predicate OneToOne(known: iset<Contact>) {
    forall c, d :: c in known && d in known ==> (c.id == d.id <==> c.addr == d.addr)
  }

  /** Cache and trie hold the same nodes, all of them known. */
  ghost predicate AgreesOn(t: Table, known: iset<Contact>) {
    && Agrees(t)
    && forall n :: n in Tries.AllNodes(t.trie) ==> Contact(n.id, n.addr) in known
  }

  lemma HearAgrees(s: Dht, cfg: Config, id: Id, addr: Addr, now: int, known: iset<Contact>)
    requires Safe(s, cfg) && AgreesOn(s.table, known) && OneToOne(known) && Contact(id, addr) in known
    ensures AgreesOn(Hear(s, cfg, id, addr, now).table, known)
  {
    hide InsertInto, Agrees, Tries.AllNodes, Tries.RunsOut, Exclusive, Logged, Typed;
    var node := Node(id, addr, now);
    ValidShape(s.table, cfg.bucketSize);
    InsertIntoBinds(s.table, cfg.bucketSize, node, now);
    if !Tries.RunsOut(s.table.trie, cfg.bucketSize, id) {
      KnownIsBound(Tries.AllNodes(s.table.trie), node, known);
      InsertAgreesExactly(s.table, cfg.bucketSize, node, now);
    } else {
      SameAgrees(s.table, InsertInto(s.table, cfg.bucketSize, node, now));
    }
  }

  lemma SameAgrees(t: Table, t': Table)
    requires Agrees(t) && Tries.AllNodes(t'.trie) == Tries.AllNodes(t.trie) && t'.cache == t.cache
    ensures Agrees(t')
  {
  }

  lemma KnownIsBound(nodes: set<Node>, node: Node, known: iset<Contact>)
    requires OneToOne(known) && Contact(node.id, node.addr) in known
    requires forall n :: n in nodes ==> Contact(n.id, n.addr) in known
    ensures Bound(nodes, node)
  {
    forall m | m in nodes
      ensures m.id == node.id <==> m.addr == node.addr
    {
      assert Contact(m.id, m.addr) in known;
    }
  }

  lemma DropAgrees(t: Table, k: nat, addrs: seq<Addr>, now: int, known: iset<Contact>)
    requires ValidTable(t, k) && AgreesOn(t, known)
    ensures AgreesOn(Drop(t, addrs, now), known)
  {
    hide RemoveAddrs, Agrees, Tries.AllNodes, ValidTable;
    ValidShape(t, k);
    RemoveAddrsRemoves(t, k, addrs, now);
    RemoveAllAgrees(t, k, addrs, now);
  }

  // ----- packets

  lemma {:induction false} LearnAllAgrees(s: Dht, cfg: Config, cs: seq<Contact>, infoHash: Option<Id>,
                                          target: Option<Id>, now: int, known: iset<Contact>)
    requires Safe(s, cfg) && AgreesOn(s.table, known) && OneToOne(known) && forall c :: c in cs ==> c in known
    ensures AgreesOn(LearnAll(s, cfg, cs, infoHash, target, now).table, known)
  {
    hide Safe, AgreesOn, OneToOne, Learn;
    if cs != [] {
      var front, last := cs[..|cs| - 1], cs[|cs| - 1];
      var s1 := LearnAll(s, cfg, front, infoHash, target, now);
      LearnAllKeeps(s, cfg, front, infoHash, target, now);
      LearnAllAgrees(s, cfg, front, infoHash, target, now, known);
      LearnTable(s1, cfg, last, infoHash, target, now);
      HearAgrees(s1, cfg, last.id, last.addr, now, known);
    }
  }

  lemma LearnTable(s: Dht, cfg: Config, c: Contact, infoHash: Option<Id>, target: Option<Id>, now: int)
    requires Safe(s, cfg)
    ensures
      var table := Learn(s, cfg, c, infoHash, target, now).table;
      table == s.table || table == Hear(s, cfg, c.id, c.addr, now).table
  {
    hide Safe, Hear, OpenUnless, Blocked;
    var s1 := Hear(s, cfg, c.id, c.addr, now);
    HearKeeps(s, cfg, c.id, c.addr, now);
    var s2 := s1;
    if infoHash.Some? {
      OpenUnlessKeeps(s1, cfg, c.addr, GetPeers, infoHash, None, None, now);
      s2 := OpenUnless(s1, c.addr, GetPeers, infoHash, None, None, now);
    }
    if target.Some? {
      OpenUnlessKeeps(s2, cfg, c.addr, FindNode, None, target, None, now);
    }
  }

  /** The contacts a packet speaks of: the sender of a query, and the nodes of a response. */
  ghost predicate Introduces(e: Timed, c: Contact) {
    && e.event.Received?
    && match ReadPacket(e.event.data)
       case Some(Message(_, kind, m)) =>
         if kind == Words.Q then
           c.addr == e.event.addr && DictAt(m, Words.A).Some? && IdAt(DictAt(m, Words.A).value, Words.ID) == Some(c.id)
         else
           && kind == Words.R && DictAt(m, Words.R).Some?
           && BytesAt(DictAt(m, Words.R).value, Words.NODES).Some?
           && c in DecodeContacts(BytesAt(DictAt(m, Words.R).value, Words.NODES).value)
       case None => false
  }

  lemma ResponseAgrees(s: Dht, cfg: Config, tid: Tid, m: DhtMachine.Fields, addr: Addr, now: int, known: iset<Contact>)
    requires Safe(s, cfg) && AgreesOn(s.table, known) && OneToOne(known)
    requires DictAt(m, Words.R).Some? && BytesAt(DictAt(m, Words.R).value, Words.NODES).Some? ==>
               forall c :: c in DecodeContacts(BytesAt(DictAt(m, Words.R).value, Words.NODES).value) ==> c in known
    ensures AgreesOn(Response(s, cfg, tid, m, addr, now).table, known)
  {
    hide Safe, AgreesOn, OneToOne, LearnAll, Settle, DictAt, BytesAt, IdAt, DecodeContacts;
    match DictAt(m, Words.R) {
      case Some(r) =>
        var t := if tid in s.trans.live then Some(s.trans.live[tid]) else None;
        var nodes := BytesAt(r, Words.NODES);
        var s1 := s;
        if nodes.Some? {
          var cs := DecodeContacts(nodes.value);
          LearnAllKeeps(s, cfg, cs, InfoHashOf(t), SearchTargetOf(t), now);
          LearnAllAgrees(s, cfg, cs, InfoHashOf(t), SearchTargetOf(t), now, known);
          s1 := LearnAll(s, cfg, cs, InfoHashOf(t), SearchTargetOf(t), now);
        }
        SettleKeeps(s1, cfg, t, tid, r, now);
      case None =>
    }
  }

  lemma RequestAgrees(s: Dht, cfg: Config, m: DhtMachine.Fields, addr: Addr, tokenValid: bool, now: int,
                      known: iset<Contact>)
    requires Safe(s, cfg) && AgreesOn(s.table, known) && OneToOne(known)
    requires DictAt(m, Words.A).Some? && IdAt(DictAt(m, Words.A).value, Words.ID).Some? ==>
               Contact(IdAt(DictAt(m, Words.A).value, Words.ID).value, addr) in known
    ensures AgreesOn(Request(s, cfg, m, addr, tokenValid, now).table, known)
  {
    hide Safe, AgreesOn, OneToOne, Hear, Request, Complete, DictAt, BytesAt, IdAt;
    match (BytesAt(m, Words.Q), DictAt(m, Words.A)) {
      case (Some(q), Some(a)) =>
        RequestHears(s, cfg, m, q, a, addr, tokenValid, now);
        if Complete(cfg, q, a, addr, tokenValid) {
          HearAgrees(s, cfg, IdAt(a, Words.ID).value, addr, now, known);
        }
      case _ =>
        NoRequest(s, cfg, m, addr, tokenValid, now);
    }
  }

  lemma NoRequest(s: Dht, cfg: Config, m: DhtMachine.Fields, addr: Addr, tokenValid: bool, now: int)
    requires BytesAt(m, Words.Q).None? || DictAt(m, Words.A).None?
    ensures Request(s, cfg, m, addr, tokenValid, now) == s
  {
    hide BytesAt, DictAt;
  }

  // ----- ticks

  lemma {:induction false} GiveUpAllAgrees(s: Dht, cfg: Config, tids: seq<Tid>, now: int, known: iset<Contact>)
    requires Safe(s, cfg) && AgreesOn(s.table, known)
    ensures AgreesOn(GiveUpAll(s, cfg, tids, now).table, known)
  {
    hide Exclusive, Logged, Typed, ValidTable, AgreesOn, Drop;
    if tids != [] {
      var front, last := tids[..|tids| - 1], tids[|tids| - 1];
      GiveUpAllAgrees(s, cfg, front, now, known);
      GiveUpAllKeeps(s, cfg, front, now);
      if last in s.trans.live {
        DropAgrees(GiveUpAll(s, cfg, front, now).table, cfg.bucketSize, [s.trans.live[last].addr], now, known);
      }
    }
  }

  lemma RefreshAgrees(s: Dht, cfg: Config, tasks: seq<Task>, now: int, known: iset<Contact>)
    requires Safe(s, cfg) && AgreesOn(s.table, known)
    ensures AgreesOn(Refresh(s, cfg, tasks, now).table, known)
  {
    hide Exclusive, Logged, Typed, ValidTable, AgreesOn, AskAll, Drop;
    AskAllKeeps(s, cfg, tasks, now);
    DropAgrees(s.table, cfg.bucketSize, TaskAddrs(tasks), now, known);
  }

  lemma StagesAgree(s: Dht, cfg: Config, f: Findings, now: int, known: iset<Contact>)
    requires Safe(s, cfg) && AgreesOn(s.table, known)
    ensures AgreesOn(AfterSweep(s, cfg, f, now).table, known)
    ensures AgreesOn(AfterRefresh(s, cfg, f, now).table, known)
    ensures AgreesOn(AfterPings(s, cfg, f, now).table, known)
  {
    hide Safe, AgreesOn, GiveUpAll, Refresh, PingAll;
    StagesKeep(s, cfg, f, now);
    GiveUpAllAgrees(s, cfg, f.dropped, now, known);
    RefreshAgrees(AfterSweep(s, cfg, f, now), cfg, f.tasks, now, known);
  }

  lemma TickAgrees(s: Dht, cfg: Config, f: Findings, now: int, known: iset<Contact>)
    requires Safe(s, cfg) && AgreesOn(s.table, known)
    ensures AgreesOn(Tick(s, cfg, f, now).table, known)
  {
    hide Exclusive, Logged, Typed, ValidTable, AgreesOn, Join, AfterPings, Drop;
    JoinKeeps(s, cfg, f.prime, now);
    StagesKeep(s, cfg, f, now);
    StagesAgree(s, cfg, f, now, known);
    DropAgrees(AfterPings(s, cfg, f, now).table, cfg.bucketSize, f.pruned, now, known);
  }

  // ----- whole runs

  lemma NextAgrees(s: Dht, cfg: Config, e: Timed, known: iset<Contact>)
    requires Safe(s, cfg) && AgreesOn(s.table, known) && OneToOne(known)
    requires forall c :: Introduces(e, c) ==> c in known
    ensures AgreesOn(Next(s, cfg, e).table, known)
  {
    hide Safe, AgreesOn, OneToOne, Receive, Introduces, Tick, SearchFrom;
    match e.event {
      case Received(data, addr, tokenValid) =>
        ReceiveAgrees(s, cfg, e, known);
      case Ticked(f) =>
        TickAgrees(s, cfg, f, e.now, known);
      case Searched(ih, port, nodes) =>
        SearchKeeps(s, cfg, nodes, ih, port, e.now);
    }
  }

  lemma ReceiveAgrees(s: Dht, cfg: Config, e: Timed, known: iset<Contact>)
    requires Safe(s, cfg) && AgreesOn(s.table, known) && OneToOne(known) && e.event.Received?
    requires forall c :: Introduces(e, c) ==> c in known
    ensures AgreesOn(Next(s, cfg, e).table, known)
  {
    hide Safe, AgreesOn, OneToOne, Request, Response, ReadPacket, Blocked, DictAt, BytesAt, IdAt, DecodeContacts;
    var data, addr, tokenValid := e.event.data, e.event.addr, e.event.tokenValid;
    match ReadPacket(data) {
      case Some(Message(id, kind, m)) =>
        if kind == Words.Q {
          assert DictAt(m, Words.A).Some? && IdAt(DictAt(m, Words.A).value, Words.ID).Some? ==>
            Introduces(e, Contact(IdAt(DictAt(m, Words.A).value, Words.ID).value, addr));
          RequestAgrees(s, cfg, m, addr, tokenValid, e.now, known);
        } else if kind == Words.R {
          ResponseAgrees(s, cfg, id, m, addr, e.now, known);
        }
      case None =>
    }
  }

  ghost predicate SpokenOf(run: seq<Timed>, c: Contact) {
    exists i :: 0 <= i < |run| && Introduces(run[i], c)
  }

  ghost function Known(run: seq<Timed>): iset<Contact> {
    iset c | SpokenOf(run, c)
  }

  lemma KnownEarlier(run: seq<Timed>)
    requires run != []
    ensures Known(run[..|run| - 1]) <= Known(run)
    ensures forall c :: Introduces(run[|run| - 1], c) ==> c in Known(run)
  {
    hide Introduces;
    var front := run[..|run| - 1];
    forall c | SpokenOf(front, c)
      ensures SpokenOf(run, c)
    {
      var i :| 0 <= i < |front| && Introduces(front[i], c);
      assert run[i] == front[i];
    }
  }

  lemma {:induction false} PrefixAgrees(cfg: Config, start: int, run: seq<Timed>, known: iset<Contact>)
    requires OneToOne(known) && Known(run) <= known
    ensures AgreesOn(Reached(cfg, start, run).table, known)
  {
    hide Safe, AgreesOn, OneToOne, Next, Introduces, Known;
    if run == [] {
      NoneYet(cfg, start, known);
    } else {
      var front, e := run[..|run| - 1], run[|run| - 1];
      KnownEarlier(run);
      PrefixAgrees(cfg, start, front, known);
      ReachedIsSafe(cfg, start, front);
      NextAgrees(Reached(cfg, start, front), cfg, e, known);
    }
  }

  lemma NoneYet(cfg: Config, start: int, known: iset<Contact>)
    ensures AgreesOn(Initial(start).table, known)
  {
    EmptyTrieWellFormed(cfg.bucketSize, start);
  }

  /**
   * If all contacts the packets of a run speak of keep to one binding of ids and addresses, cache and
   * trie hold the same nodes in the state it reaches, and the size of the cache counts them.
   */
  lemma ReachedAgrees(cfg: Config, start: int, run: seq<Timed>)
    requires OneToOne(Known(run))
    ensures
      var table := Reached(cfg, start, run).table;
      Agrees(table) && |table.cache| == |Tries.AllNodes(table.trie)|
  {
    hide Reached, Exclusive, Logged, Typed, Known, OneToOne;
    PrefixAgrees(cfg, start, run, Known(run));
    ReachedIsSafe(cfg, start, run);
    AgreementCounts(Reached(cfg, start, run).table);
  }

  /**
   * Under such a binding a tick forgets every node it pings: the silence that calls for a ping is the
   * silence for which a node is pruned.
   */
  lemma PingedAreForgotten(cfg: Config, start: int, run: seq<Timed>, f: Findings, now: int, n: Node)
    requires OneToOne(Known(run)) && Reached(cfg, start, run).table.cache != map[]
    requires Possible(Reached(cfg, start, run), cfg, At(now, Ticked(f)))
    requires n in Tries.AllNodes(AfterRefresh(Reached(cfg, start, run), cfg, f, now).table.trie)
    requires Stale(n, now, cfg.nodeExpiry)
    ensures
      var table := Tick(Reached(cfg, start, run), cfg, f, now).table;
      n.addr !in table.cache && n !in Tries.AllNodes(table.trie)
  {
    hide Reached, Exclusive, Logged, Typed, Known, OneToOne, AfterRefresh, AfterPings, Tick, CanFind;
    hide Tries.AllNodes, ValidTable;
    var s := Reached(cfg, start, run);
    PrefixAgrees(cfg, start, run, Known(run));
    ReachedIsSafe(cfg, start, run);
    StagesKeep(s, cfg, f, now);
    StagesAgree(s, cfg, f, now, Known(run));
    TickAgrees(s, cfg, f, now, Known(run));
    TickKeeps(s, cfg, f, now);
    PruningDropsOnlyStale(cfg, start, run, f, now);
    var mid, table := AfterPings(s, cfg, f, now).table, Tick(s, cfg, f, now).table;
    ValidKeys(mid, cfg.bucketSize);
    ValidKeys(table, cfg.bucketSize);
    assert n in mid.cache.Values;
    assert mid.cache[n.addr] == n;
    assert n !in table.cache.Values;
  }
}
