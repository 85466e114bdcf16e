/** Which queries are in flight: how they begin, what ends them, and how many there are to an address. */
module DhtFlights {
  import opened Bits
  import Words
  import opened Options
  import opened Nodes
  import opened Compact
  import opened Plans
  import opened TransactionIds
  import opened Transactions
  import opened DhtMachine
  import opened DhtSafety
  import Peers

  // ----- one lookup and one ping per address

  ghost predicate InFlight(s: State, qtype: QueryType, addr: Addr) {
    exists tid :: tid in s.live && KeyOf(s.live[tid]) == Key(qtype, addr)
  }

  lemma IndexFindsThem(s: State, qtype: QueryType, addr: Addr)
    requires Transactions.Honest(s) && Indexed(s, qtype)
    ensures GetByIndex(s, qtype, addr).Some? <==> InFlight(s, qtype, addr)
  {
    if GetByIndex(s, qtype, addr).Some? {
      var tid := s.index[Key(qtype, addr)];
      assert tid in s.live && KeyOf(s.live[tid]) == Key(qtype, addr);
    }
  }

  /**
   * In every reachable state, until the ids wrap around, at most one lookup and at most one ping is in
   * flight to an address; a lookup by index finds it exactly when there is one.
   */
  lemma OneLookupAndOnePing(cfg: Config, start: int, run: seq<Timed>, addr: Addr)
    requires Reached(cfg, start, run).drawn <= 0x7FFF_FFFF_FFFF_FFFF
    ensures
      var s := Reached(cfg, start, run);
      && OnePerAddr(s.trans, GetPeers) && OnePerAddr(s.trans, Ping)
      && (Querying(s, GetPeers, addr) <==> InFlight(s.trans, GetPeers, addr))
      && (Querying(s, Ping, addr) <==> InFlight(s.trans, Ping, addr))
  {
    hide Reached, Bounded, Logged, Issued;
    ReachedIsSafe(cfg, start, run);
    var s := Reached(cfg, start, run);
    IndexedIsOnePerAddr(s.trans, GetPeers);
    IndexedIsOnePerAddr(s.trans, Ping);
    IndexFindsThem(s.trans, GetPeers, addr);
    IndexFindsThem(s.trans, Ping, addr);
  }

  // ----- what stays in flight

  /**
   * Until the ids wrap around, nothing in flight is lost or changed but what is listed, and what is
   * new there or in the index has a new id.
   */
  ghost predicate Extends(s: Dht, s': Dht, closed: set<Tid>) {
    && s.drawn <= s'.drawn
    && (s'.drawn <= MAX_CURSOR ==>
          && (forall u :: u in s.trans.live && u !in closed ==>
                u in s'.trans.live && s'.trans.live[u] == s.trans.live[u])
          && (forall u :: u in s'.trans.live && u !in s.trans.live ==> !IsIssued(u, s.drawn))
          && (forall key :: key in s'.trans.index ==>
                (key in s.trans.index && s.trans.index[key] == s'.trans.index[key])
                || !IsIssued(s'.trans.index[key], s.drawn)))
  }

  lemma IssuedEarlier(u: Tid, m: nat, n: nat)
    requires m <= n && IsIssued(u, m)
    ensures IsIssued(u, n)
  {
    hide Int2Bytes;
    var i: nat :| i < m && u == Int2Bytes(i);
    assert i < n;
  }

  lemma ExtendsOn(a: Dht, b: Dht, c: Dht, first: set<Tid>, second: set<Tid>)
    requires Extends(a, b, first) && Extends(b, c, second)
    ensures Extends(a, c, first + second)
  {
    hide IsIssued;
    forall u | u in c.trans.live && u !in a.trans.live && c.drawn <= MAX_CURSOR
      ensures !IsIssued(u, a.drawn)
    {
      if IsIssued(u, a.drawn) {
        IssuedEarlier(u, a.drawn, b.drawn);
      }
    }
    forall key | key in c.trans.index && c.drawn <= MAX_CURSOR
      ensures (key in a.trans.index && a.trans.index[key] == c.trans.index[key])
              || !IsIssued(c.trans.index[key], a.drawn)
    {
      if IsIssued(c.trans.index[key], a.drawn) {
        IssuedEarlier(c.trans.index[key], a.drawn, b.drawn);
      }
    }
  }

  lemma ExtendsOnward(a: Dht, b: Dht, c: Dht)
    requires Extends(a, b, {}) && Extends(b, c, {})
    ensures Extends(a, c, {})
  {
    hide Extends;
    var none: set<Tid> := {};
    ExtendsOn(a, b, c, none, none);
    assert none + none == none;
  }

  /** A step that leaves the transactions alone. */
  lemma OtherwiseExtends(s: Dht, s': Dht)
    requires s'.trans == s.trans && s'.drawn == s.drawn
    ensures Extends(s, s', {})
  {
  }

  lemma CloseExtends(s: Dht, tid: Tid)
    ensures Extends(s, Close(s, tid), {tid}) && tid !in Close(s, tid).trans.live
  {
  }

  lemma ExtendsItself(s: Dht)
    ensures Extends(s, s, {})
  {
  }

  lemma ExtendsMore(s: Dht, s': Dht, few: set<Tid>, more: set<Tid>)
    requires few <= more
    ensures Extends(s, s', few) ==> Extends(s, s', more)
  {
  }

  lemma OpenExtends(s: Dht, cfg: Config, addr: Addr, qtype: QueryType, infoHash: Option<Id>, target: Option<Id>,
                    port: Option<bv16>, now: int)
    requires Safe(s, cfg)
    ensures Extends(s, OpenNew(s, addr, qtype, infoHash, target, port, now), {})
    ensures Extends(s, OpenUnless(s, addr, qtype, infoHash, target, port, now), {})
  {
    hide Bounded, Logged, NextId, Issued, IsIssued;
    if s.drawn < MAX_CURSOR {
      NextIdIsFresh(s.trans, s.drawn, MAX_CURSOR);
      IssuedGrows(s.drawn);
    }
  }

  lemma LearnExtends(s: Dht, cfg: Config, c: Contact, infoHash: Option<Id>, target: Option<Id>, now: int)
    requires Safe(s, cfg)
    ensures Extends(s, Learn(s, cfg, c, infoHash, target, now), {})
  {
    hide Safe, Hear, OpenUnless, Blocked, Extends;
    ExtendsItself(s);
    var s1 := Hear(s, cfg, c.id, c.addr, now);
    HearKeeps(s, cfg, c.id, c.addr, now);
    OtherwiseExtends(s, s1);
    var s2 := s1;
    if infoHash.Some? {
      OpenUnlessKeeps(s1, cfg, c.addr, GetPeers, infoHash, None, None, now);
      OpenExtends(s1, cfg, c.addr, GetPeers, infoHash, None, None, now);
      s2 := OpenUnless(s1, c.addr, GetPeers, infoHash, None, None, now);
      ExtendsOnward(s, s1, s2);
    }
    OpenExtends(s2, cfg, c.addr, FindNode, None, target, None, now);
    ExtendsOnward(s, s2, OpenUnless(s2, c.addr, FindNode, None, target, None, now));
  }

  lemma {:induction false} LearnAllExtends(s: Dht, cfg: Config, cs: seq<Contact>, infoHash: Option<Id>,
                                           target: Option<Id>, now: int)
    requires Safe(s, cfg)
    ensures Extends(s, LearnAll(s, cfg, cs, infoHash, target, now), {})
  {
    hide Safe, Learn, Extends;
    if cs == [] {
      ExtendsItself(s);
    } else {
      var front, last := cs[..|cs| - 1], cs[|cs| - 1];
      var s1 := LearnAll(s, cfg, front, infoHash, target, now);
      LearnAllKeeps(s, cfg, front, infoHash, target, now);
      LearnAllExtends(s, cfg, front, infoHash, target, now);
      LearnExtends(s1, cfg, last, infoHash, target, now);
      ExtendsOnward(s, s1, Learn(s1, cfg, last, infoHash, target, now));
    }
  }

  lemma {:induction false} JoinExtends(s: Dht, cfg: Config, prime: seq<Addr>, now: int)
    requires Safe(s, cfg)
    ensures Extends(s, Join(s, cfg, prime, now), {})
  {
    hide Safe, OpenNew, Extends;
    if prime == [] {
      ExtendsItself(s);
    } else {
      var front, last := prime[..|prime| - 1], prime[|prime| - 1];
      var s1 := Join(s, cfg, front, now);
      JoinKeeps(s, cfg, front, now);
      JoinExtends(s, cfg, front, now);
      OpenExtends(s1, cfg, last, FindNode, None, Some(cfg.selfId), None, now);
      ExtendsOnward(s, s1, Join(s, cfg, prime, now));
    }
  }

  lemma {:induction false} PingAllExtends(s: Dht, cfg: Config, addrs: seq<Addr>, now: int)
    requires Safe(s, cfg)
    ensures Extends(s, PingAll(s, addrs, now), {})
  {
    hide Safe, OpenUnless, Extends;
    if addrs == [] {
      ExtendsItself(s);
    } else {
      var front, last := addrs[..|addrs| - 1], addrs[|addrs| - 1];
      var s1 := PingAll(s, front, now);
      PingAllKeeps(s, cfg, front, now);
      PingAllExtends(s, cfg, front, now);
      OpenExtends(s1, cfg, last, Ping, None, None, None, now);
      ExtendsOnward(s, s1, PingAll(s, addrs, now));
    }
  }

  lemma {:induction false} SearchExtends(s: Dht, cfg: Config, nodes: seq<Node>, ih: Id, port: Option<bv16>, now: int)
    requires Safe(s, cfg)
    ensures Extends(s, SearchFrom(s, nodes, ih, port, now), {})
  {
    hide Safe, OpenUnless, Extends;
    if nodes == [] {
      ExtendsItself(s);
    } else {
      var front, last := nodes[..|nodes| - 1], nodes[|nodes| - 1];
      var s1 := SearchFrom(s, front, ih, port, now);
      SearchKeeps(s, cfg, front, ih, port, now);
      SearchExtends(s, cfg, front, ih, port, now);
      OpenExtends(s1, cfg, last.addr, GetPeers, Some(ih), None, port, now);
      ExtendsOnward(s, s1, SearchFrom(s, nodes, ih, port, now));
    }
  }

  lemma {:induction false} AskAllExtends(s: Dht, cfg: Config, tasks: seq<Task>, now: int)
    requires Safe(s, cfg)
    ensures Extends(s, AskAll(s, tasks, now), {})
  {
    hide Safe, OpenNew, Extends;
    if tasks == [] {
      ExtendsItself(s);
    } else {
      var front, task := tasks[..|tasks| - 1], tasks[|tasks| - 1];
      var s1 := AskAll(s, front, now);
      AskAllKeeps(s, cfg, front, now);
      AskAllExtends(s, cfg, front, now);
      OpenExtends(s1, cfg, task.addr, FindNode, None, Some(task.target), None, now);
      ExtendsOnward(s, s1, AskAll(s, tasks, now));
    }
  }

  lemma RefreshExtends(s: Dht, cfg: Config, tasks: seq<Task>, now: int)
    requires Safe(s, cfg)
    ensures Extends(s, Refresh(s, cfg, tasks, now), {})
  {
    hide Safe, AskAll, Drop;
    ExtendsItself(s);
    AskAllExtends(s, cfg, tasks, now);
  }

  // ----- what ends a query

  /** Whether an answer with these contents ends the query. */
  predicate Ends(t: Transaction, r: DhtMachine.Fields) {
    match t.qtype
    case Ping => false
    case FindNode => true
    case GetPeers => ListAt(r, Words.VALUES).Some? || t.announcePort.Some?
    case AnnouncePeer => ListAt(r, Words.VALUES).Some?
  }

  lemma TakeValuesCloses(s: Dht, cfg: Config, ih: Option<Id>, tid: Tid, r: DhtMachine.Fields)
    ensures
      var s' := TakeValues(s, cfg, ih, tid, r);
      if ih.Some? && ListAt(r, Words.VALUES).Some? then Extends(s, s', {tid}) && tid !in s'.trans.live
      else Extends(s, s', {})
  {
    hide Extends, StoreValues, ListAt;
    ExtendsItself(s);
    if ih.Some? && ListAt(r, Words.VALUES).Some? {
      CloseExtends(s.(peers := StoreValues(s.peers, cfg.k, ih.value, ListAt(r, Words.VALUES).value)), tid);
      SameToExtend(s, s.(peers := StoreValues(s.peers, cfg.k, ih.value, ListAt(r, Words.VALUES).value)),
                   TakeValues(s, cfg, ih, tid, r), {tid});
    }
  }

  lemma SameToExtend(s: Dht, same: Dht, s': Dht, closed: set<Tid>)
    requires same.trans == s.trans && same.drawn == s.drawn && Extends(same, s', closed)
    ensures Extends(s, s', closed)
  {
  }

  lemma AnnounceBackCloses(s: Dht, cfg: Config, t: Transaction, tid: Tid, r: DhtMachine.Fields, now: int)
    requires Safe(s, cfg)
    ensures
      var s' := AnnounceBack(s, t, tid, r, now);
      if Announces(t) then Extends(s, s', {tid}) && tid !in s'.trans.live else Extends(s, s', {})
  {
    hide Safe, Extends, OpenNew, Close, BytesAt;
    ExtendsItself(s);
    CloseExtends(s, tid);
    var s1 := OpenNew(s, t.addr, AnnouncePeer, t.infoHash, None, None, now);
    OpenExtends(s, cfg, t.addr, AnnouncePeer, t.infoHash, None, None, now);
    CloseExtends(s1, tid);
    var none: set<Tid> := {};
    ExtendsOn(s, s1, Close(s1, tid), none, {tid});
    assert none + {tid} == {tid};
  }

  lemma SettleCloses(s: Dht, cfg: Config, t: Transaction, tid: Tid, r: DhtMachine.Fields, now: int)
    requires Safe(s, cfg) && WellTyped(t.qtype, t.infoHash, t.target, t.announcePort)
    ensures Extends(s, Settle(s, cfg, Some(t), tid, r, now), if Ends(t, r) then {tid} else {})
    ensures Ends(t, r) ==> tid !in Settle(s, cfg, Some(t), tid, r, now).trans.live
  {
    hide Safe, Extends, Close, TakeValues, AnnounceBack, ListAt, BytesAt;
    var s1 := TakeValues(s, cfg, t.infoHash, tid, r);
    TakeValuesKeeps(s, cfg, t.infoHash, tid, r);
    TakeValuesCloses(s, cfg, t.infoHash, tid, r);
    var s2 := AnnounceBack(s1, t, tid, r, now);
    AnnounceBackCloses(s1, cfg, t, tid, r, now);
    CloseExtends(s2, tid);
    NoAnnouncement(s1, t, tid, r, now);
    NoValues(s, cfg, t.infoHash, tid, r);
    if Announces(t) {
      var first := if ListAt(r, Words.VALUES).Some? then {tid} else {};
      ExtendsOn(s, s1, s2, first, {tid});
      assert first + {tid} == {tid};
    }
  }

  lemma NoAnnouncement(s: Dht, t: Transaction, tid: Tid, r: DhtMachine.Fields, now: int)
    ensures !Announces(t) ==> AnnounceBack(s, t, tid, r, now) == s
  {
  }

  lemma NoValues(s: Dht, cfg: Config, ih: Option<Id>, tid: Tid, r: DhtMachine.Fields)
    ensures ih.None? || ListAt(r, Words.VALUES).None? ==> TakeValues(s, cfg, ih, tid, r) == s
  {
  }

  /**
   * An answer from the right address ends its query exactly when it should: a search for nodes
   * always, a lookup if it brings peers or was made to announce, a ping never. No other query in
   * flight is touched.
   */
  lemma AnswerEndsExactly(cfg: Config, start: int, run: seq<Timed>, tid: Tid, m: DhtMachine.Fields, addr: Addr,
                          now: int)
    requires tid in Reached(cfg, start, run).trans.live && Reached(cfg, start, run).trans.live[tid].addr == addr
    requires DictAt(m, Words.R).Some? && IdAt(DictAt(m, Words.R).value, Words.ID).Some?
    requires Response(Reached(cfg, start, run), cfg, tid, m, addr, now).drawn <= MAX_CURSOR
    ensures
      var s := Reached(cfg, start, run);
      var s' := Response(s, cfg, tid, m, addr, now);
      && (tid !in s'.trans.live <==> Ends(s.trans.live[tid], DictAt(m, Words.R).value))
      && forall u :: u in s.trans.live && u != tid ==> u in s'.trans.live && s'.trans.live[u] == s.trans.live[u]
  {
    hide Reached;
    ReachedIsSafe(cfg, start, run);
    AnswerEnds(Reached(cfg, start, run), cfg, tid, m, addr, now);
  }

  lemma AnswerEnds(s: Dht, cfg: Config, tid: Tid, m: DhtMachine.Fields, addr: Addr, now: int)
    requires Safe(s, cfg) && tid in s.trans.live && s.trans.live[tid].addr == addr
    requires DictAt(m, Words.R).Some? && IdAt(DictAt(m, Words.R).value, Words.ID).Some?
    ensures
      var s', ends := Response(s, cfg, tid, m, addr, now), Ends(s.trans.live[tid], DictAt(m, Words.R).value);
      Extends(s, s', if ends then {tid} else {}) && (ends ==> tid !in s'.trans.live)
  {
    hide Exclusive, Bounded, Logged, LearnAll, Settle, Ends, DecodeContacts, ListAt, BytesAt, IdAt;
    var t, r := s.trans.live[tid], DictAt(m, Words.R).value;
    var nodes := BytesAt(r, Words.NODES);
    var s1 := s;
    if nodes.Some? {
      var cs := DecodeContacts(nodes.value);
      LearnAllKeeps(s, cfg, cs, t.infoHash, SearchTargetOf(Some(t)), now);
      LearnAllExtends(s, cfg, cs, t.infoHash, SearchTargetOf(Some(t)), now);
      s1 := LearnAll(s, cfg, cs, t.infoHash, SearchTargetOf(Some(t)), now);
    }
    SettleCloses(s1, cfg, t, tid, r, now);
    ExtendsOn(s, s1, Settle(s1, cfg, Some(t), tid, r, now), {}, if Ends(t, r) then {tid} else {});
  }

  lemma RequestLeavesQueries(s: Dht, cfg: Config, m: DhtMachine.Fields, addr: Addr, tokenValid: bool, now: int)
    ensures Request(s, cfg, m, addr, tokenValid, now).trans == s.trans
    ensures Request(s, cfg, m, addr, tokenValid, now).drawn == s.drawn
  {
    hide Keep, BytesAt, DictAt, IdAt, Announced, Peers.Arrive;
  }

  /** An answer to nothing, or from the wrong address, leaves every query in flight. */
  lemma OtherAnswerExtends(s: Dht, cfg: Config, tid: Tid, m: DhtMachine.Fields, addr: Addr, now: int)
    requires Safe(s, cfg) && (tid in s.trans.live ==> s.trans.live[tid].addr != addr)
    ensures Extends(s, Response(s, cfg, tid, m, addr, now), {})
    ensures tid in s.trans.live ==> Response(s, cfg, tid, m, addr, now) == s
  {
    hide Safe, Extends, LearnAll, BytesAt, IdAt, DictAt, DecodeContacts;
    ExtendsItself(s);
    match DictAt(m, Words.R) {
      case Some(r) =>
        if BytesAt(r, Words.NODES).Some? {
          LearnAllExtends(s, cfg, DecodeContacts(BytesAt(r, Words.NODES).value), None, None, now);
        }
      case None =>
    }
  }

  /** A response closes at most the query it answers, and no ping. */
  lemma ResponseExtends(s: Dht, cfg: Config, tid: Tid, m: DhtMachine.Fields, addr: Addr, now: int)
    requires Safe(s, cfg)
    ensures Extends(s, Response(s, cfg, tid, m, addr, now),
                    if tid in s.trans.live && s.trans.live[tid].qtype != Ping then {tid} else {})
  {
    hide Safe, Extends, LearnAll, Settle, IdAt, BytesAt, DictAt;
    ExtendsItself(s);
    ExtendsMore(s, s, {}, {tid});
    if tid !in s.trans.live || s.trans.live[tid].addr != addr {
      OtherAnswerExtends(s, cfg, tid, m, addr, now);
      ExtendsMore(s, Response(s, cfg, tid, m, addr, now), {}, {tid});
    } else if DictAt(m, Words.R).Some? && IdAt(DictAt(m, Words.R).value, Words.ID).Some? {
      AnswerEnds(s, cfg, tid, m, addr, now);
      ExtendsMore(s, Response(s, cfg, tid, m, addr, now), {}, {tid});
    }
  }

  // ----- ids are only ever drawn

  lemma SweepDrawsNothing(s: Dht, cfg: Config, f: Findings, now: int)
    requires Safe(s, cfg)
    ensures AfterSweep(s, cfg, f, now).drawn == s.drawn
  {
    hide Safe, GiveUpAll;
    GiveUpAllKeeps(s, cfg, f.dropped, now);
  }

  lemma DrawnGrows(s: Dht, cfg: Config, e: Timed)
    requires Safe(s, cfg)
    ensures Next(s, cfg, e).drawn >= s.drawn
  {
    hide Safe, Request, Response, ReadPacket, Blocked, Join, SweepOut, Refresh, PingAll, SearchFrom;
    match e.event {
      case Received(data, addr, tokenValid) =>
        match ReadPacket(data) {
          case Some(Message(id, kind, m)) =>
            RequestLeavesQueries(s, cfg, m, addr, tokenValid, e.now);
            ResponseExtends(s, cfg, id, m, addr, e.now);
          case None =>
        }
      case Ticked(f) =>
        JoinExtends(s, cfg, f.prime, e.now);
        StagesKeep(s, cfg, f, e.now);
        SweepDrawsNothing(s, cfg, f, e.now);
        RefreshExtends(AfterSweep(s, cfg, f, e.now), cfg, f.tasks, e.now);
        PingAllExtends(AfterRefresh(s, cfg, f, e.now), cfg, f.silent, e.now);
      case Searched(ih, port, nodes) =>
        SearchExtends(s, cfg, nodes, ih, port, e.now);
    }
  }

  lemma {:induction false} RunDraws(cfg: Config, start: int, run: seq<Timed>, i: nat)
    requires i <= |run|
    ensures Reached(cfg, start, run[..i]).drawn <= Reached(cfg, start, run).drawn
    decreases |run|
  {
    hide Safe, Next;
    if i == |run| {
      assert run[..i] == run;
    } else {
      var front := run[..|run| - 1];
      assert front[..i] == run[..i];
      RunDraws(cfg, start, front, i);
      ReachedIsSafe(cfg, start, front);
      DrawnGrows(Reached(cfg, start, front), cfg, run[|run| - 1]);
    }
  }

  lemma Onward(cfg: Config, start: int, run: seq<Timed>, i: nat)
    requires i < |run|
    ensures Reached(cfg, start, run[..i + 1]) == Next(Reached(cfg, start, run[..i]), cfg, run[i])
  {
    hide Next;
    assert run[..i + 1][..i] == run[..i];
  }
}
