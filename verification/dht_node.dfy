/** The node itself: its handlers and its tick, each a step of the state machine. */
module DhtNodes {
  import opened Bits
  import Words
  import opened Options
  import opened Nodes
  import opened Sequences
  import opened Bencode
  import opened Compact
  import opened Tables
  import opened Pruning
  import opened Plans
  import opened Neighbors
  import opened Transactions
  import opened Backoff
  import opened DhtMachine
  import opened Krpc
  import opened DhtReplies
  import opened DhtPossible
  import Tries
  import Peers
  import Utf8
  import Routing
  import TransactionManagers

  lemma GiveUpOneMore(s: DhtMachine.Dht, cfg: Config, tids: seq<Tid>, tid: Tid, now: int)
    requires tid in s.trans.live
    ensures GiveUpAll(s, cfg, tids + [tid], now) == GiveUp(GiveUpAll(s, cfg, tids, now), cfg, s.trans.live[tid], now)
  {
    assert (tids + [tid])[..|tids + [tid]| - 1] == tids;
  }

  lemma {:induction false} GiveUpTouches(s: DhtMachine.Dht, cfg: Config, tids: seq<Tid>, now: int)
    ensures
      var s' := GiveUpAll(s, cfg, tids, now);
      s' == s.(table := s'.table, blacklist := s'.blacklist)
  {
    if tids != [] {
      GiveUpTouches(s, cfg, tids[..|tids| - 1], now);
    }
  }

  class Dht {
    const cfg: Config
    const routing: Routing.RoutingTable
    const trans: TransactionManagers.TransactionManager
    const peers: Peers.PeersManager
    var blacklist: map<Addr, int>
    ghost var drawn: nat
    ghost var log: seq<Backoff.Event>

    ghost predicate Valid()
      reads this, routing, routing.objects, trans, peers
    {
      && routing.k == cfg.bucketSize && trans.maxCursor == MAX_CURSOR && peers.k == cfg.k
      && this !in routing.objects && trans !in routing.objects && peers !in routing.objects
      && routing.Valid() && trans.Valid()
    }

    ghost function View(): DhtMachine.Dht
      reads this, routing, trans, peers
    {
      DhtMachine.Dht(routing.View(), trans.View(), peers.table, blacklist, drawn, log)
    }

    constructor (cfg: Config, now: int)
      ensures Valid() && this.cfg == cfg && View() == Initial(now)
      ensures fresh(routing) && fresh(trans) && fresh(peers) && fresh(routing.objects)
    {
      hide Routing.RoutingTable.Valid, TransactionManagers.TransactionManager.Valid;
      this.cfg := cfg;
      var r := new Routing.RoutingTable(cfg.bucketSize, now);
      var t := new TransactionManagers.TransactionManager(MAX_CURSOR);
      var p := new Peers.PeersManager(cfg.k);
      routing, trans, peers := r, t, p;
      blacklist, drawn, log := map[], 0, [];
    }

    // ----- queries of our own

    method Ask(addr: Addr, qtype: QueryType, infoHash: Option<Id>, target: Option<Id>, port: Option<bv16>, now: int)
      requires Valid()
      modifies this, trans
      ensures Valid() && View() == OpenNew(old(View()), addr, qtype, infoHash, target, port, now)
    {
      hide NextId, Advance, Add, Routing.RoutingTable.Valid, TransactionManagers.TransactionManager.Valid;
      var tid := trans.GenId();
      var t := Transaction(tid, addr, qtype, infoHash, target, port, false, now, 0);
      var _ := trans.Insert(t);
      assert t.(tid := tid) == t;
      drawn, log := drawn + 1, log + [Opened(t)];
    }

    method AskUnless(addr: Addr, qtype: QueryType, infoHash: Option<Id>, target: Option<Id>, port: Option<bv16>,
                     now: int)
      requires Valid()
      modifies this, trans
      ensures Valid() && View() == OpenUnless(old(View()), addr, qtype, infoHash, target, port, now)
    {
      hide OpenNew;
      if trans.GetByIndex(qtype, addr).None? {
        Ask(addr, qtype, infoHash, target, port, now);
      }
    }

    method Finish(tid: Tid)
      requires Valid()
      modifies this, trans
      ensures Valid() && View() == Close(old(View()), tid)
    {
      trans.FinishByTransId(tid);
      log := log + [Closed(tid)];
    }

    /** Remembers a node as long as there is room. */
    method Remember(id: Id, addr: Addr, now: int)
      requires Valid()
      modifies routing, routing.objects
      ensures Valid() && old(routing.objects) <= routing.objects && fresh(routing.objects - old(routing.objects))
      ensures View() == Hear(old(View()), cfg, id, addr, now)
    {
      hide InsertInto, Tries.InsertNode, ValidTable;
      ValidShape(routing.View(), routing.k);
      if routing.Len() < cfg.maxNodes {
        var _ := routing.Insert(Node(id, addr, now), now);
      }
    }

    // ----- packets

    method Learn(c: Contact, infoHash: Option<Id>, target: Option<Id>, now: int)
      requires Valid()
      modifies this, routing, routing.objects, trans
      ensures Valid() && old(routing.objects) <= routing.objects && fresh(routing.objects - old(routing.objects))
      ensures View() == DhtMachine.Learn(old(View()), cfg, c, infoHash, target, now)
    {
      hide Keep, OpenUnless, Blocked, Routing.RoutingTable.Valid, TransactionManagers.TransactionManager.Valid;
      if Blocked(blacklist, c.addr, now) || routing.Len() >= cfg.maxNodes {
        return;
      }
      Remember(c.id, c.addr, now);
      if infoHash.Some? {
        AskUnless(c.addr, GetPeers, infoHash, None, None, now);
      }
      if target.Some? {
        AskUnless(c.addr, FindNode, None, target, None, now);
      }
    }

    method LearnFrom(nodes: seq<byte>, infoHash: Option<Id>, target: Option<Id>, now: int)
      requires Valid()
      modifies this, routing, routing.objects, trans
      ensures Valid() && old(routing.objects) <= routing.objects && fresh(routing.objects - old(routing.objects))
      ensures View() == LearnAll(old(View()), cfg, DecodeContacts(nodes), infoHash, target, now)
    {
      hide DhtMachine.Learn, DecodeContacts, Routing.RoutingTable.Valid, TransactionManagers.TransactionManager.Valid;
      var cs := DecodeCompactNodes(nodes);
      for i := 0 to |cs|
        invariant Valid() && old(routing.objects) <= routing.objects && fresh(routing.objects - old(routing.objects))
        invariant View() == LearnAll(old(View()), cfg, cs[..i], infoHash, target, now)
      {
        assert cs[..i + 1][..i] == cs[..i];
        Learn(cs[i], infoHash, target, now);
      }
      assert cs[..|cs|] == cs;
    }

    method StorePeers(ih: Id, values: seq<BVal>)
      requires Valid()
      modifies peers
      ensures Valid() && View() == old(View()).(peers := StoreValues(old(peers.table), cfg.k, ih, values))
    {
      hide Peers.Arrive, Routing.RoutingTable.Valid, TransactionManagers.TransactionManager.Valid;
      for i := 0 to |values|
        invariant Valid() && View() == old(View()).(peers := StoreValues(old(peers.table), cfg.k, ih, values[..i]))
      {
        assert values[..i + 1][..i] == values[..i];
        match values[i] {
          case Bytes(b) =>
            var addr := DecodeIpPort(b);
            if addr.Some? {
              peers.Insert(ih, Peers.Peer(addr.value, None));
            }
          case _ =>
        }
      }
      assert values[..|values|] == values;
    }

    /** Stores the peers a response brings, announces if that was wanted, and ends what is answered. */
    method Settle(t: Option<Transaction>, tid: Tid, r: DhtMachine.Fields, now: int)
      requires Valid()
      modifies this, trans, peers
      ensures Valid() && View() == DhtMachine.Settle(old(View()), cfg, t, tid, r, now)
    {
      hide StoreValues, OpenNew, Close, BytesAt, ListAt, Routing.RoutingTable.Valid;
      hide TransactionManagers.TransactionManager.Valid;
      var infoHash, values := InfoHashOf(t), ListAt(r, Words.VALUES);
      if values.Some? && infoHash.Some? {
        StorePeers(infoHash.value, values.value);
        Finish(tid);
      }
      if t.Some? && Announces(t.value) {
        if BytesAt(r, Words.TOKEN).Some? {
          Ask(t.value.addr, AnnouncePeer, t.value.infoHash, None, None, now);
        }
        Finish(tid);
      }
      if t.Some? && t.value.qtype == FindNode && t.value.infoHash.None? {
        Finish(tid);
      }
    }

    method HandleResponse(tid: Tid, m: DhtMachine.Fields, addr: Addr, now: int)
      requires Valid()
      modifies this, routing, routing.objects, trans, peers
      ensures Valid() && old(routing.objects) <= routing.objects && fresh(routing.objects - old(routing.objects))
      ensures View() == Response(old(View()), cfg, tid, m, addr, now)
    {
      hide LearnAll, DhtMachine.Settle, DecodeContacts, DictAt, BytesAt, IdAt, Routing.RoutingTable.Valid;
      hide TransactionManagers.TransactionManager.Valid;
      var body := DictAt(m, Words.R);
      if body.None? {
        return;
      }
      var r := body.value;
      if IdAt(r, Words.ID).None? {
        return;
      }
      var found := trans.GetByTransId(tid);
      if found.Some? && found.value.addr != addr {
        return;
      }
      var infoHash, target := InfoHashOf(found), SearchTargetOf(found);
      var nodes := BytesAt(r, Words.NODES);
      if nodes.Some? {
        LearnFrom(nodes.value, infoHash, target, now);
      }
      Settle(found, tid, r, now);
    }

    /** Answers a query about nodes near an id; a crawler does not. */
    method AnswerFindNode(tid: Tid, a: DhtMachine.Fields) returns (reply: Option<seq<byte>>, ghost nodes: seq<byte>)
      requires Valid()
      ensures reply == ReplyToFindNode(cfg, tid, a, nodes)
      ensures IdAt(a, Words.TARGET).Some? ==> NodesNear(nodes, routing.cachedNodes, IdAt(a, Words.TARGET).value, cfg.k)
    {
      hide IdAt, Nearest, MakeResponse, Refusal, NodesBody, Routing.RoutingTable.Valid;
      hide TransactionManagers.TransactionManager.Valid;
      nodes := [];
      var target := IdAt(a, Words.TARGET);
      if target.None? {
        reply := if cfg.crawl then None else Some(Refusal(tid, Words.INVALID_TARGET));
        return;
      }
      if cfg.crawl {
        routing.Basics();
        nodes := SomeNodes(routing.View(), routing.k, target.value, cfg.k);
        return None, nodes;
      }
      var compact := routing.GetNeighborsCompact(target.value, cfg.k);
      nodes := compact;
      reply := Some(MakeResponse(tid, Dict(NodesBody(SelectId(cfg, target), compact))));
    }

    /** Answers a lookup with the latest peers known, or with nodes near the infohash. */
    method AnswerGetPeers(tid: Tid, a: DhtMachine.Fields, token: seq<byte>)
      returns (reply: seq<byte>, ghost nodes: seq<byte>)
      requires Valid()
      ensures reply == ReplyToGetPeers(cfg, peers.table, tid, a, token, nodes)
      ensures IdAt(a, Words.INFO_HASH).Some? ==>
              NodesNear(nodes, routing.cachedNodes, IdAt(a, Words.INFO_HASH).value, cfg.k)
    {
      hide IdAt, Nearest, MakeResponse, Refusal, LookupBody, ValuesBody, PeerValues;
      hide Routing.RoutingTable.Valid, TransactionManagers.TransactionManager.Valid;
      nodes := [];
      var ih := IdAt(a, Words.INFO_HASH);
      if ih.None? {
        reply := Refusal(tid, Words.INVALID_INFO_HASH);
        return;
      }
      routing.Basics();
      nodes := SomeNodes(routing.View(), routing.k, ih.value, cfg.k);
      if cfg.crawl {
        reply := MakeResponse(tid, Dict(LookupBody(SelectId(cfg, ih), token, [])));
        return;
      }
      var known := peers.Get(ih.value, cfg.k);
      if known != [] {
        var values := ListPeers(known);
        reply := MakeResponse(tid, Dict(ValuesBody(SelectId(cfg, ih), token, values)));
        return;
      }
      var compact := routing.GetNeighborsCompact(ih.value, cfg.k);
      nodes := compact;
      reply := MakeResponse(tid, Dict(LookupBody(SelectId(cfg, ih), token, compact)));
    }

    /**
     * A query of another node: what is stored and who is remembered, and the reply, for which `token` is
     * the one handed out to the sender.
     */
    method HandleRequest(tid: Tid, m: DhtMachine.Fields, addr: Addr, token: seq<byte>, tokenValid: bool, now: int)
      returns (reply: Option<seq<byte>>, ghost nodes: seq<byte>)
      requires Valid()
      modifies this, routing, routing.objects, trans, peers
      ensures Valid() && old(routing.objects) <= routing.objects && fresh(routing.objects - old(routing.objects))
      ensures View() == Request(old(View()), cfg, m, addr, tokenValid, now)
      ensures reply == ReplyTo(cfg, old(peers.table), tid, m, addr, token, tokenValid, nodes)
      ensures AskedAbout(m).Some? ==> NodesNear(nodes, old(routing.cachedNodes), AskedAbout(m).value, cfg.k)
    {
      hide Keep, DictAt, BytesAt, IdAt, Peers.Arrive, Utf8.Valid, Announced, NodesNear;
      hide Routing.RoutingTable.Valid, TransactionManagers.TransactionManager.Valid;
      hide MakeResponse, Refusal, IdBody, ReplyToFindNode, ReplyToGetPeers;
      reply, nodes := None, [];
      if AskedAbout(m).Some? {
        routing.Basics();
        nodes := SomeNodes(routing.View(), routing.k, AskedAbout(m).value, cfg.k);
      }
      var q, body := BytesAt(m, Words.Q), DictAt(m, Words.A);
      if q.None? || !Utf8.Valid(q.value) || body.None? {
        return;
      }
      var a := body.value;
      var id := IdAt(a, Words.ID);
      if id.None? {
        reply := Some(Refusal(tid, Words.INVALID_ID));
        return;
      }
      if q.value == Words.PING {
        reply := Some(MakeResponse(tid, Dict(IdBody(SelectId(cfg, id)))));
        return;
      }
      if q.value == Words.FIND_NODE {
        reply, nodes := AnswerFindNode(tid, a);
        if !cfg.crawl && IdAt(a, Words.TARGET).None? {
          return;
        }
      } else if q.value == Words.GET_PEERS {
        var answer, near := AnswerGetPeers(tid, a, token);
        reply, nodes := Some(answer), near;
        if IdAt(a, Words.INFO_HASH).None? {
          return;
        }
      } else if q.value == Words.ANNOUNCE_PEER {
        var what := Announced(a, addr);
        if what.None? || !tokenValid || |what.value.0| != ID_BYTES {
          return;
        }
        if !cfg.crawl {
          peers.Insert(what.value.0, what.value.1);
          reply := Some(MakeResponse(tid, Dict(IdBody(SelectId(cfg, id)))));
        }
      }
      Remember(id.value, addr, now);
    }

    /** One packet; the reply, if any, goes back to its sender. */
    method HandlePacket(data: Slice, addr: Addr, token: seq<byte>, tokenValid: bool, now: int)
      returns (reply: Option<seq<byte>>, ghost nodes: seq<byte>)
      requires Valid()
      modifies this, routing, routing.objects, trans, peers
      ensures Valid() && old(routing.objects) <= routing.objects && fresh(routing.objects - old(routing.objects))
      ensures View() == Receive(old(View()), cfg, data, addr, tokenValid, now)
      ensures
        match ReadPacket(data)
        case Some(Message(tid, kind, m)) =>
          if kind == Words.Q && !Blocked(old(blacklist), addr, now) then
            && reply == ReplyTo(cfg, old(peers.table), tid, m, addr, token, tokenValid, nodes)
            && (AskedAbout(m).Some? ==> NodesNear(nodes, old(routing.cachedNodes), AskedAbout(m).value, cfg.k))
          else reply == None
        case None => reply == None
    {
      hide Request, Response, Close, ReadPacket, Blocked, Routing.RoutingTable.Valid;
      hide TransactionManagers.TransactionManager.Valid;
      hide ReplyTo, AskedAbout, NodesNear, BytesAt;
      reply, nodes := None, [];
      if Blocked(blacklist, addr, now) {
        return;
      }
      match ReadPacket(data) {
        case Some(Message(tid, kind, m)) =>
          if kind == Words.Q {
            reply, nodes := HandleRequest(tid, m, addr, token, tokenValid, now);
          } else if kind == Words.R {
            HandleResponse(tid, m, addr, now);
          } else if kind == Words.E {
            Finish(tid);
          }
        case None =>
      }
    }

    // ----- commands

    /** A lookup, or with a port an announcement. */
    method Search(ih: Id, port: Option<bv16>, now: int) returns (ghost nodes: seq<Node>)
      requires Valid()
      modifies this, trans
      ensures Valid() && Possible(old(View()), cfg, At(now, Searched(ih, port, nodes)))
      ensures View() == SearchFrom(old(View()), nodes, ih, port, now)
    {
      hide OpenUnless, Nearest, Routing.RoutingTable.Valid, TransactionManagers.TransactionManager.Valid;
      var list := routing.NeighborsByTarget(ih, routing.Len());
      nodes := list;
      for i := 0 to |list|
        invariant Valid() && View() == SearchFrom(old(View()), list[..i], ih, port, now)
      {
        assert list[..i + 1][..i] == list[..i];
        AskUnless(list[i].addr, GetPeers, Some(ih), None, port, now);
      }
      assert list[..|list|] == list;
    }

    // ----- ticks

    method Join(prime: seq<Addr>, now: int)
      requires Valid()
      modifies this, trans
      ensures Valid() && View() == DhtMachine.Join(old(View()), cfg, prime, now)
    {
      hide OpenNew, Routing.RoutingTable.Valid, TransactionManagers.TransactionManager.Valid;
      for i := 0 to |prime|
        invariant Valid() && View() == DhtMachine.Join(old(View()), cfg, prime[..i], now)
      {
        assert prime[..i + 1][..i] == prime[..i];
        Ask(prime[i], FindNode, None, Some(cfg.selfId), None, now);
      }
      assert prime[..|prime|] == prime;
    }

    /** Forgets the addressee of a ping, blocks that of any other query. */
    method GiveUpOn(t: Transaction, now: int)
      requires Valid()
      modifies this`blacklist, routing, routing.objects
      ensures Valid() && routing.objects == old(routing.objects) && routing.cachedBuckets == old(routing.cachedBuckets)
      ensures View() == GiveUp(old(View()), cfg, t, now)
    {
      hide RemoveAddr, ValidTable, Routing.RoutingTable.Valid, TransactionManagers.TransactionManager.Valid;
      routing.Basics();
      if t.qtype == Ping {
        routing.RemoveByAddr(t.addr, now);
        assert [t.addr][..0] == [];
        assert RemoveAddrs(old(routing.View()), [t.addr][..0], now) == old(routing.View());
      } else if |blacklist| < cfg.blacklistSize {
        blacklist := blacklist[t.addr := now];
      }
    }

    method DropOne(ghost s: DhtMachine.Dht, ghost order: seq<Tid>, tid: Tid, now: int)
      requires Valid() && tid in trans.live && tid in s.trans.live && trans.live[tid] == s.trans.live[tid]
      requires routing.View() == GiveUpAll(s, cfg, order, now).table
      requires blacklist == GiveUpAll(s, cfg, order, now).blacklist
      modifies this`blacklist, routing, routing.objects, trans
      ensures Valid() && routing.objects == old(routing.objects) && routing.cachedBuckets == old(routing.cachedBuckets)
      ensures routing.View() == GiveUpAll(s, cfg, order + [tid], now).table
      ensures blacklist == GiveUpAll(s, cfg, order + [tid], now).blacklist
      ensures trans.View() == Transactions.Finish(old(trans.View()), tid)
    {
      hide GiveUpAll, GiveUp, Routing.RoutingTable.Valid, TransactionManagers.TransactionManager.Valid;
      var found := trans.GetByTransId(tid);
      GiveUpOneMore(s, cfg, order, tid, now);
      GiveUpReads(View(), GiveUpAll(s, cfg, order, now), cfg, found.value, now);
      GiveUpOn(found.value, now);
      trans.FinishByTransId(tid);
    }

    /** Gives up on each of the queries, in some order, and finishes it. */
    method DropTimedOut(ghost s: DhtMachine.Dht, tids: set<Tid>, now: int) returns (ghost order: seq<Tid>)
      requires Valid() && routing.View() == s.table && blacklist == s.blacklist
      requires forall tid :: tid in tids ==>
                 tid in trans.live && tid in s.trans.live && trans.live[tid] == s.trans.live[tid]
      modifies this`blacklist, routing, routing.objects, trans
      ensures Valid() && routing.objects == old(routing.objects) && routing.cachedBuckets == old(routing.cachedBuckets)
      ensures Enumerates(order, tids)
      ensures routing.View() == GiveUpAll(s, cfg, order, now).table
      ensures blacklist == GiveUpAll(s, cfg, order, now).blacklist
      ensures trans.View() == old(trans.View()).(live := old(trans.live) - tids)
    {
      hide GiveUpAll, Enumerates, Routing.RoutingTable.Valid, TransactionManagers.TransactionManager.Valid;
      order := [];
      GiveUpNone(s, cfg, now);
      var rest := tids;
      ghost var done: set<Tid> := {};
      NothingEnumerates<Tid>();
      while rest != {}
        invariant done + rest == tids && rest !! done && Enumerates(order, done)
        invariant Valid() && routing.objects == old(routing.objects) &&
                  routing.cachedBuckets == old(routing.cachedBuckets)
        invariant routing.View() == GiveUpAll(s, cfg, order, now).table
        invariant blacklist == GiveUpAll(s, cfg, order, now).blacklist
        invariant trans.live == old(trans.live) - done
        invariant trans.cursor == old(trans.cursor) && trans.index == old(trans.index)
        decreases |rest|
      {
        var tid :| tid in rest;
        DropOne(s, order, tid, now);
        MinusOneMore(old(trans.live), done, tid);
        EnumerateOneMore(order, done, tid);
        MoveOne(done, rest, tid);
        order, done, rest := order + [tid], done + {tid}, rest - {tid};
      }
      assert tids == done;
    }

    /** Sends again what is overdue and gives up on what has been sent often enough. */
    method Sweep(now: int) returns (ghost dropped: seq<Tid>)
      requires Valid()
      modifies this, routing, routing.objects, trans
      ensures Valid() && routing.objects == old(routing.objects) && routing.cachedBuckets == old(routing.cachedBuckets)
      ensures ListsTimedOut(old(View()), cfg, dropped, now)
      ensures View() == SweepOut(old(View()), cfg, dropped, now)
    {
      hide GiveUpAll, TimesOut, SentAgain, Retries, Resends, Retried, Routing.RoutingTable.Valid;
      hide TransactionManagers.TransactionManager.Valid;
      ghost var s := View();
      var toRetry, toRemove := trans.ScanTimeouts(TIMEOUT, cfg.tries as nat, now);
      var resent := trans.ResendAll(toRetry, now, map[]);
      ghost var resentLive := trans.live;
      assert forall tid :: tid in toRemove ==> resentLive[tid] == s.trans.live[tid] by {
        NotBoth(s.trans, cfg.tries as nat, now);
      }
      dropped := DropTimedOut(s, toRemove, now);
      log := log + [Swept(now, map[])];
      GiveUpTouches(s, cfg, dropped, now);
      SweptLive(s.trans, cfg.tries as nat, now, toRetry, toRemove, resent, resentLive, trans.live);
    }

    method AskForNodes(tasks: seq<Task>, now: int)
      requires Valid()
      modifies this, trans
      ensures Valid() && View() == AskAll(old(View()), tasks, now)
    {
      hide OpenNew, Routing.RoutingTable.Valid, TransactionManagers.TransactionManager.Valid;
      for i := 0 to |tasks|
        invariant Valid() && View() == AskAll(old(View()), tasks[..i], now)
      {
        assert tasks[..i + 1][..i] == tasks[..i];
        Ask(tasks[i].addr, FindNode, None, Some(tasks[i].target), None, now);
      }
      assert tasks[..|tasks|] == tasks;
    }

    method Forget(addrs: seq<Addr>, now: int)
      requires Valid()
      modifies routing, routing.objects
      ensures Valid() && routing.objects == old(routing.objects) && routing.cachedBuckets == old(routing.cachedBuckets)
      ensures View() == old(View()).(table := Drop(old(routing.View()), addrs, now))
    {
      hide RemoveAddrs, ValidTable;
      ValidShape(routing.View(), routing.k);
      routing.RemoveAll(addrs, now);
    }

    /** Asks around in leaves that have not changed for long, if nothing is in flight. */
    method Refresh(random: seq<Id>, now: int) returns (ghost tasks: seq<Task>)
      requires Valid() && |random| == |routing.cachedBuckets|
      modifies this, routing, routing.objects, trans
      ensures Valid() && routing.objects == old(routing.objects)
      ensures old(trans.live) == map[] ==> IsPlan(old(View()), cfg, tasks, now)
      ensures View() == DhtMachine.Refresh(old(View()), cfg, tasks, now)
    {
      hide AskAll, PlanOf, CoversOnce, IsPlan, Drop, TaskAddrs, Routing.RoutingTable.Valid;
      hide TransactionManagers.TransactionManager.Valid;
      tasks := [];
      if trans.Len() == 0 {
        var plan, clear, targets := routing.FreshPlan(now, cfg.bucketExpiry, cfg.refreshNodes, cfg.crawl, random);
        tasks := plan;
        routing.ListCoversLeaves();
        PlanFound(View(), cfg, routing.Entries(), targets, plan, now);
        AskForNodes(plan, now);
        if cfg.crawl {
          Forget(clear, now);
        }
      }
    }

    method PingSilent(now: int) returns (ghost silent: seq<Addr>)
      requires Valid()
      modifies this, trans
      ensures Valid() && ListsSilent(old(View()), cfg, silent, now)
      ensures View() == PingAll(old(View()), silent, now)
    {
      hide OpenUnless, CoversOnce, StaleNodes, Addrs, Routing.RoutingTable.Valid;
      hide TransactionManagers.TransactionManager.Valid;
      var expired := routing.CollectExpiredNodes(now, cfg.nodeExpiry);
      routing.ListCoversLeaves();
      silent := expired;
      for i := 0 to |expired|
        invariant Valid() && View() == PingAll(old(View()), expired[..i], now)
      {
        assert expired[..i + 1][..i] == expired[..i];
        AskUnless(expired[i], Ping, None, None, None, now);
      }
      assert expired[..|expired|] == expired;
    }

    /** Lets expired entries leave the blacklist, and prunes the table. */
    method Tidy(now: int) returns (ghost pruned: seq<Addr>)
      requires Valid()
      modifies this`blacklist, routing, routing.objects
      ensures Valid() && routing.objects == old(routing.objects)
      ensures View() == DhtMachine.Tidy(old(View()), pruned, now)
      ensures Pruned(old(routing.cachedNodes), routing.cachedNodes, now, cfg.nodeExpiry, cfg.maxNodes)
    {
      hide RemoveAddrs, ValidTable, Pruned;
      ValidShape(routing.View(), routing.k);
      blacklist := Unblock(blacklist, now);
      pruned := routing.Prune(now, cfg.nodeExpiry, cfg.maxNodes);
    }

    /** One tick; `prime` are the resolved first contacts, and `random` a random id for each bucket. */
    method Tick(prime: seq<Addr>, random: seq<Id>, now: int) returns (ghost f: Findings)
      requires Valid() && |random| == |routing.cachedBuckets|
      modifies this, routing, routing.objects, trans
      ensures Valid() && routing.objects == old(routing.objects)
      ensures Possible(old(View()), cfg, At(now, Ticked(f)))
      ensures View() == DhtMachine.Tick(old(View()), cfg, f, now)
    {
      hide DhtMachine.Join, SweepOut, DhtMachine.Refresh, PingAll, DhtMachine.Tidy, ListsTimedOut;
      hide ListsSilent, IsPlan, Pruned, Routing.RoutingTable.Valid;
      hide TransactionManagers.TransactionManager.Valid;
      if routing.Len() == 0 {
        Join(prime, now);
        f := Findings(prime, [], [], [], []);
        return;
      }
      ghost var dropped := Sweep(now);
      ghost var tasks := Refresh(random, now);
      ghost var silent := PingSilent(now);
      ghost var before := routing.cachedNodes;
      ghost var pruned := Tidy(now);
      f := Findings(prime, dropped, tasks, silent, pruned);
      assert old(routing.cachedNodes) != map[];
    }
  }

  /** The compact form of the nodes nearest a target. */
  ghost predicate NodesNear(nodes: seq<byte>, c: Cache, target: Id, size: nat) {
    exists near :: Nearest(near, c, target, size) && nodes == EncodeContacts(Contacts(near))
  }

  lemma SomeNodes(t: Table, k: nat, target: Id, size: nat) returns (nodes: seq<byte>)
    requires ValidTable(t, k)
    ensures NodesNear(nodes, t.cache, target, size)
  {
    hide Nearest, ValidTable, EncodeContacts;
    ValidKeys(t, k);
    SomeAreNearest(t.cache, target, size);
    var near :| Nearest(near, t.cache, target, size);
    nodes := EncodeContacts(Contacts(near));
  }

  /** The compact forms of peers, as values of a reply. */
  method ListPeers(known: seq<Peers.Peer>) returns (values: seq<BVal>)
    ensures values == PeerValues(known)
  {
    values := [];
    for i := 0 to |known|
      invariant values == PeerValues(known[..i])
    {
      assert known[..i + 1][..i] == known[..i];
      var compact := EncodeIpPort(known[i].addr);
      if compact.Some? {
        values := values + [Bytes(compact.value)];
      }
    }
    assert known[..|known|] == known;
  }

  lemma PlanFound(s: DhtMachine.Dht, cfg: Config, entries: seq<Entry>, targets: seq<Id>, tasks: seq<Task>, now: int)
    requires CoversOnce(entries, s.table.trie) && TargetsFit(entries, targets)
    requires tasks == PlanOf(entries, targets, now, cfg.bucketExpiry, cfg.refreshNodes)
    ensures IsPlan(s, cfg, tasks, now)
  {
  }

  lemma MoveOne<T>(a: set<T>, b: set<T>, x: T)
    requires x in b && a !! b
    ensures (a + {x}) + (b - {x}) == a + b && (a + {x}) !! (b - {x}) && |b - {x}| < |b|
  {
  }

  lemma MinusOneMore<K, V>(m: map<K, V>, a: set<K>, x: K)
    ensures m - a - {x} == m - (a + {x})
  {
  }

  lemma NotBoth(s: State, tries: nat, now: int)
    ensures forall tid :: tid in s.live && TimesOut(s.live[tid], TIMEOUT, tries, now) ==>
              !Retries(s.live[tid], TIMEOUT, tries, now)
  {
    hide Overdue;
  }

  /** Marking what is sent again and then dropping what timed out is a sweep. */
  lemma SweptLive(s: State, tries: nat, now: int, toRetry: set<Tid>, toRemove: set<Tid>, resent: set<Tid>,
                  mid: map<Tid, Transaction>, end: map<Tid, Transaction>)
    requires toRetry == set tid | tid in s.live && Retries(s.live[tid], TIMEOUT, tries, now)
    requires toRemove == set tid | tid in s.live && TimesOut(s.live[tid], TIMEOUT, tries, now)
    requires resent == set tid | tid in toRetry && Resends(s.live[tid])
    requires mid.Keys == s.live.Keys && end == mid - toRemove
    requires forall tid :: tid in mid ==>
               mid[tid] == if tid in resent then Retried(s.live[tid], MarkedAt(map[], tid, now)) else s.live[tid]
    ensures end == Backoff.Sweep(s, TIMEOUT, tries, now, map[]).live
  {
    hide Retries, TimesOut, Resends, Retried;
  }

  lemma GiveUpNone(s: DhtMachine.Dht, cfg: Config, now: int)
    ensures GiveUpAll(s, cfg, [], now) == s
  {
  }

  /** Giving up a query reads and writes nothing but the table and the blacklist. */
  lemma GiveUpReads(a: DhtMachine.Dht, b: DhtMachine.Dht, cfg: Config, t: Transaction, now: int)
    requires a.table == b.table && a.blacklist == b.blacklist
    ensures GiveUp(a, cfg, t, now).table == GiveUp(b, cfg, t, now).table
    ensures GiveUp(a, cfg, t, now).blacklist == GiveUp(b, cfg, t, now).blacklist
  {
  }
}
