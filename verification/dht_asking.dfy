/** Who is asked: what lookups, answers and ticks put in flight. */
module DhtAsking {
  import opened Bits
  import Words
  import opened Options
  import opened Nodes
  import opened Sequences
  import opened Compact
  import Tries
  import opened Tables
  import opened Pruning
  import opened Plans
  import opened Neighbors
  import opened TransactionIds
  import opened Transactions
  import opened DhtMachine
  import opened DhtSafety
  import opened DhtFlights

  /** Queries the index knew before it still knows, and a full table stays full. */
  ghost predicate StillAsks(s: State, s': State) {
    && (forall qtype, addr :: GetByIndex(s, qtype, addr).Some? ==> GetByIndex(s', qtype, addr).Some?)
    && |s.live| <= |s'.live|
  }

  lemma AddAsks(s: State, t: Transaction)
    ensures StillAsks(s, Add(s, t))
    ensures GetByIndex(Add(s, t), t.qtype, t.addr).Some? || |s.live| >= MAX_TRANSACTIONS
  {
    Subset(s.live.Keys, s.live.Keys + {t.tid});
    assert s.live[t.tid := t].Keys == s.live.Keys + {t.tid};
  }

  lemma OpenAsks(s: Dht, addr: Addr, qtype: QueryType, infoHash: Option<Id>, target: Option<Id>,
                 port: Option<bv16>, now: int)
    ensures
      var s' := OpenNew(s, addr, qtype, infoHash, target, port, now);
      && StillAsks(s.trans, s'.trans) && s'.table == s.table && s'.blacklist == s.blacklist
      && (Querying(s', qtype, addr) || |s'.trans.live| >= MAX_TRANSACTIONS)
  {
    hide NextId, Add;
    var t := Transaction(NextId(s.trans, MAX_CURSOR), addr, qtype, infoHash, target, port, false, now, 0);
    assert t.(tid := NextId(s.trans, MAX_CURSOR)) == t;
    AddAsks(Advance(s.trans), t);
  }

  lemma OpenUnlessAsks(s: Dht, addr: Addr, qtype: QueryType, infoHash: Option<Id>, target: Option<Id>,
                       port: Option<bv16>, now: int)
    ensures
      var s' := OpenUnless(s, addr, qtype, infoHash, target, port, now);
      && StillAsks(s.trans, s'.trans) && s'.table == s.table && s'.blacklist == s.blacklist
      && (Querying(s', qtype, addr) || |s'.trans.live| >= MAX_TRANSACTIONS)
  {
    hide OpenNew;
    OpenAsks(s, addr, qtype, infoHash, target, port, now);
  }

  lemma {:induction false} SearchAsks(s: Dht, nodes: seq<Node>, ih: Id, port: Option<bv16>, now: int)
    ensures
      var s' := SearchFrom(s, nodes, ih, port, now);
      && StillAsks(s.trans, s'.trans)
      && forall n :: n in nodes ==> Querying(s', GetPeers, n.addr) || |s'.trans.live| >= MAX_TRANSACTIONS
  {
    hide OpenUnless;
    if nodes != [] {
      var front, last := nodes[..|nodes| - 1], nodes[|nodes| - 1];
      SearchAsks(s, front, ih, port, now);
      OpenUnlessAsks(SearchFrom(s, front, ih, port, now), last.addr, GetPeers, Some(ih), None, port, now);
      assert nodes == front + [last];
    }
  }

  lemma NearestOfAll(nodes: seq<Node>, c: Cache, target: Id)
    requires Nearest(nodes, c, target, |c|) && KeyedByAddr(c)
    ensures forall a :: a in c ==> c[a] in nodes
  {
    hide NearestFirst;
    var found := set n | n in nodes;
    SetSize(nodes);
    CacheSize(c);
    assert found <= c.Values by {
      forall n | n in found
        ensures n in c.Values
      {
        assert c[n.addr] == n;
      }
    }
    SameSize(found, c.Values);
    assert forall a :: a in c ==> c[a] in c.Values;
  }

  /**
   * After a lookup or an announcement, every cached node has a lookup in flight, and one only, unless
   * the table of transactions is full.
   */
  lemma SearchAsksEveryNode(cfg: Config, start: int, run: seq<Timed>, e: Timed, addr: Addr)
    requires e.event.Searched? && Possible(Reached(cfg, start, run), cfg, e)
    requires Next(Reached(cfg, start, run), cfg, e).drawn <= MAX_CURSOR
    requires addr in Reached(cfg, start, run).table.cache
    ensures
      var s' := Next(Reached(cfg, start, run), cfg, e);
      && OnePerAddr(s'.trans, GetPeers)
      && (InFlight(s'.trans, GetPeers, addr) || |s'.trans.live| == MAX_TRANSACTIONS)
  {
    hide Reached, SearchFrom, Nearest, Logged, Issued, ValidTable;
    ReachedIsSafe(cfg, start, run);
    var s := Reached(cfg, start, run);
    NextKeeps(s, cfg, e);
    var s' := Next(s, cfg, e);
    SearchAsks(s, e.event.nodes, e.event.ih, e.event.port, e.now);
    ValidKeys(s.table, cfg.bucketSize);
    NearestOfAll(e.event.nodes, s.table.cache, e.event.ih);
    assert s.table.cache[addr].addr == addr;
    IndexedIsOnePerAddr(s'.trans, GetPeers);
    IndexFindsThem(s'.trans, GetPeers, addr);
  }

  lemma {:induction false} PingAllAsks(s: Dht, addrs: seq<Addr>, now: int)
    ensures
      var s' := PingAll(s, addrs, now);
      && StillAsks(s.trans, s'.trans) && s'.table == s.table
      && forall a :: a in addrs ==> Querying(s', Ping, a) || |s'.trans.live| >= MAX_TRANSACTIONS
  {
    if addrs != [] {
      var front, last := addrs[..|addrs| - 1], addrs[|addrs| - 1];
      PingAllAsks(s, front, now);
      OpenUnlessAsks(PingAll(s, front, now), last, Ping, None, None, None, now);
      assert addrs == front + [last];
    }
  }

  lemma SilentAreListed(entries: seq<Entry>, t: Table, k: nat, n: Node, now: int, expiry: nat)
    requires ValidTable(t, k) && CoversOnce(entries, t.trie) && n in Tries.AllNodes(t.trie) && Stale(n, now, expiry)
    ensures n.addr in Addrs(StaleNodes(entries, now, expiry))
  {
    hide CoversOnce, StaleNodes, Tries.WellFormed;
    assert Tries.WellFormed(t.trie, k);
    StaleNodesExactly(entries, t.trie, k, now, expiry);
    var list := StaleNodes(entries, now, expiry);
    var i :| 0 <= i < |list| && list[i] == n;
    assert Addrs(list)[i] == n.addr;
  }

  /**
   * After a tick, every node that its sweep and its refresh leave in the trie, and that has been silent
   * for too long, has a ping in flight, and one only, unless the table of transactions is full. Whom the
   * tick has forgotten by then it does not ping.
   */
  lemma TickPingsTheSilent(cfg: Config, start: int, run: seq<Timed>, f: Findings, now: int, n: Node)
    requires Possible(Reached(cfg, start, run), cfg, At(now, Ticked(f)))
    requires Reached(cfg, start, run).table.cache != map[]
    requires Tick(Reached(cfg, start, run), cfg, f, now).drawn <= MAX_CURSOR
    requires n in Tries.AllNodes(AfterRefresh(Reached(cfg, start, run), cfg, f, now).table.trie) &&
             Stale(n, now, cfg.nodeExpiry)
    ensures
      var s' := Tick(Reached(cfg, start, run), cfg, f, now);
      && OnePerAddr(s'.trans, Ping)
      && (InFlight(s'.trans, Ping, n.addr) || |s'.trans.live| == MAX_TRANSACTIONS)
  {
    hide Reached, AfterRefresh, PingAll, Logged, Issued, ValidTable, ListsTimedOut, Pruned, CoversOnce, StaleNodes;
    ReachedIsSafe(cfg, start, run);
    var s := Reached(cfg, start, run);
    StagesKeep(s, cfg, f, now);
    TickKeeps(s, cfg, f, now);
    var mid := AfterRefresh(s, cfg, f, now);
    var entries: seq<Entry> :|
      CoversOnce(entries, mid.table.trie) && f.silent == Addrs(StaleNodes(entries, now, cfg.nodeExpiry));
    SilentAreListed(entries, mid.table, cfg.bucketSize, n, now, cfg.nodeExpiry);
    PingAllAsks(mid, f.silent, now);
    var s' := Tick(s, cfg, f, now);
    assert s'.trans == AfterPings(s, cfg, f, now).trans;
    IndexedIsOnePerAddr(s'.trans, Ping);
    IndexFindsThem(s'.trans, Ping, n.addr);
  }

  // ----- how answers spread

  /** What was asked still is, and room that has been taken stays taken. */
  ghost predicate GoesOn(s: Dht, s': Dht) {
    StillAsks(s.trans, s'.trans) && s'.blacklist == s.blacklist && |s.table.cache| <= |s'.table.cache|
  }

  lemma HearGoesOn(s: Dht, cfg: Config, id: Id, addr: Addr, now: int)
    requires Safe(s, cfg)
    ensures GoesOn(s, Hear(s, cfg, id, addr, now))
  {
    hide Exclusive, ValidTable, Typed, Logged, Keep;
    KeepIsValid(s.table, cfg.bucketSize, Node(id, addr, now), now);
  }

  lemma LearnGoesOn(s: Dht, cfg: Config, c: Contact, infoHash: Option<Id>, target: Option<Id>, now: int)
    requires Safe(s, cfg)
    ensures GoesOn(s, Learn(s, cfg, c, infoHash, target, now))
  {
    hide Safe, Hear, Blocked, OpenUnless;
    HearGoesOn(s, cfg, c.id, c.addr, now);
    var s1 := Hear(s, cfg, c.id, c.addr, now);
    OpenUnlessAsks(s1, c.addr, GetPeers, infoHash, None, None, now);
    var s2 := if infoHash.Some? then OpenUnless(s1, c.addr, GetPeers, infoHash, None, None, now) else s1;
    OpenUnlessAsks(s2, c.addr, FindNode, None, target, None, now);
  }

  lemma {:induction false} LearnAllGoesOn(s: Dht, cfg: Config, cs: seq<Contact>, infoHash: Option<Id>,
                                          target: Option<Id>, now: int)
    requires Safe(s, cfg)
    ensures GoesOn(s, LearnAll(s, cfg, cs, infoHash, target, now))
  {
    hide Safe, Learn;
    if cs != [] {
      var front, last := cs[..|cs| - 1], cs[|cs| - 1];
      LearnAllGoesOn(s, cfg, front, infoHash, target, now);
      LearnAllKeeps(s, cfg, front, infoHash, target, now);
      LearnGoesOn(LearnAll(s, cfg, front, infoHash, target, now), cfg, last, infoHash, target, now);
    }
  }

  /** There is room for one more node and one more query. */
  ghost predicate HasRoom(s: Dht, cfg: Config) {
    |s.table.cache| < cfg.maxNodes && |s.trans.live| < MAX_TRANSACTIONS
  }

  /** Some contact at the address comes while there is room. */
  ghost predicate FindsRoom(s: Dht, cfg: Config, cs: seq<Contact>, infoHash: Option<Id>, target: Option<Id>,
                            addr: Addr, now: int) {
    exists i :: 0 <= i < |cs| && cs[i].addr == addr &&
      HasRoom(LearnAll(s, cfg, cs[..i], infoHash, target, now), cfg)
  }

  lemma FindsRoomSnoc(s: Dht, cfg: Config, cs: seq<Contact>, infoHash: Option<Id>, target: Option<Id>, addr: Addr,
                      now: int)
    requires cs != []
    ensures
      var front, last := cs[..|cs| - 1], cs[|cs| - 1];
      FindsRoom(s, cfg, cs, infoHash, target, addr, now) <==>
      || FindsRoom(s, cfg, front, infoHash, target, addr, now)
      || (last.addr == addr && HasRoom(LearnAll(s, cfg, front, infoHash, target, now), cfg))
  {
    hide HasRoom, LearnAll;
    var front := cs[..|cs| - 1];
    assert forall i :: 0 <= i < |front| ==> front[i] == cs[i] && front[..i] == cs[..i];
    if i :| 0 <= i < |front| && front[i].addr == addr &&
            HasRoom(LearnAll(s, cfg, front[..i], infoHash, target, now), cfg) {
      assert cs[i].addr == addr && cs[..i] == front[..i];
    }
  }

  /** Every contact comes while there is room, if at the end there still is. */
  lemma {:induction false} RoomIsFound(s: Dht, cfg: Config, cs: seq<Contact>, infoHash: Option<Id>,
                                       target: Option<Id>, c: Contact, now: int)
    requires Safe(s, cfg) && c in cs && HasRoom(LearnAll(s, cfg, cs, infoHash, target, now), cfg)
    ensures FindsRoom(s, cfg, cs, infoHash, target, c.addr, now)
  {
    hide Safe, Learn, FindsRoom;
    var front, last := cs[..|cs| - 1], cs[|cs| - 1];
    LearnAllKeeps(s, cfg, front, infoHash, target, now);
    LearnGoesOn(LearnAll(s, cfg, front, infoHash, target, now), cfg, last, infoHash, target, now);
    FindsRoomSnoc(s, cfg, cs, infoHash, target, c.addr, now);
    if c != last {
      assert cs == front + [last];
      RoomIsFound(s, cfg, front, infoHash, target, c, now);
    }
  }

  /** What a contact is asked: a lookup of an infohash, or a search for a target. */
  predicate AsksAbout(qtype: QueryType, infoHash: Option<Id>, target: Option<Id>) {
    || (qtype == GetPeers && infoHash.Some? && target.None?)
    || (qtype == FindNode && infoHash.None? && target.Some?)
  }

  lemma OpenUnlessAsksExactly(s: Dht, cfg: Config, addr: Addr, qtype: QueryType, infoHash: Option<Id>,
                              target: Option<Id>, now: int, a: Addr)
    requires Safe(s, cfg) && OpenUnless(s, addr, qtype, infoHash, target, None, now).drawn <= MAX_CURSOR
    ensures Querying(OpenUnless(s, addr, qtype, infoHash, target, None, now), qtype, a) <==>
            Querying(s, qtype, a) || (addr == a && |s.trans.live| < MAX_TRANSACTIONS)
  {
    hide Bounded, Typed, Logged, NextId, IsIssued;
    if !Querying(s, qtype, addr) {
      NextIdIsFresh(s.trans, s.drawn, MAX_CURSOR);
    }
  }

  lemma LearnAsksExactly(s: Dht, cfg: Config, c: Contact, infoHash: Option<Id>, target: Option<Id>, now: int,
                         qtype: QueryType, a: Addr)
    requires Safe(s, cfg) && AsksAbout(qtype, infoHash, target)
    requires Learn(s, cfg, c, infoHash, target, now).drawn <= MAX_CURSOR
    ensures Querying(Learn(s, cfg, c, infoHash, target, now), qtype, a) <==>
            Querying(s, qtype, a) || (c.addr == a && !Blocked(s.blacklist, a, now) && HasRoom(s, cfg))
  {
    hide Safe, Keep, Blocked, OpenUnless;
    HearKeeps(s, cfg, c.id, c.addr, now);
    var s1 := Hear(s, cfg, c.id, c.addr, now);
    if !Blocked(s.blacklist, c.addr, now) && |s.table.cache| < cfg.maxNodes {
      OpenUnlessAsksExactly(s1, cfg, c.addr, qtype, infoHash, target, now, a);
    }
  }

  lemma {:induction false} LearnAllAsksExactly(s: Dht, cfg: Config, cs: seq<Contact>, infoHash: Option<Id>,
                                               target: Option<Id>, now: int, qtype: QueryType, a: Addr)
    requires Safe(s, cfg) && AsksAbout(qtype, infoHash, target)
    requires LearnAll(s, cfg, cs, infoHash, target, now).drawn <= MAX_CURSOR
    ensures Querying(LearnAll(s, cfg, cs, infoHash, target, now), qtype, a) <==>
            || Querying(s, qtype, a)
            || (!Blocked(s.blacklist, a, now) && FindsRoom(s, cfg, cs, infoHash, target, a, now))
  {
    hide Safe, Learn, FindsRoom, HasRoom, Querying, Blocked, AsksAbout, Extends;
    if cs == [] {
      NoRoomFound(s, cfg, infoHash, target, a, now);
    } else {
      var front, last := cs[..|cs| - 1], cs[|cs| - 1];
      var s1 := LearnAll(s, cfg, front, infoHash, target, now);
      LearnAllKeeps(s, cfg, front, infoHash, target, now);
      LearnExtends(s1, cfg, last, infoHash, target, now);
      ExtendsDraws(s1, LearnAll(s, cfg, cs, infoHash, target, now), {});
      LearnAllAsksExactly(s, cfg, front, infoHash, target, now, qtype, a);
      LearnAsksExactly(s1, cfg, last, infoHash, target, now, qtype, a);
      FindsRoomSnoc(s, cfg, cs, infoHash, target, a, now);
    }
  }

  lemma NoRoomFound(s: Dht, cfg: Config, infoHash: Option<Id>, target: Option<Id>, addr: Addr, now: int)
    ensures !FindsRoom(s, cfg, [], infoHash, target, addr, now)
  {
  }

  lemma ExtendsDraws(s: Dht, s': Dht, closed: set<Tid>)
    requires Extends(s, s', closed)
    ensures s.drawn <= s'.drawn
  {
  }

  // ----- what answers do not ask again

  /** Only what was not known to be in flight has been asked, and now it is known; nothing was announced. */
  ghost predicate AsksTheUnasked(s: Dht, s': Dht) {
    s'.drawn <= MAX_CURSOR ==>
      forall u :: u in s'.trans.live && u !in s.trans.live ==>
        var t := s'.trans.live[u];
        t.qtype != AnnouncePeer && !Querying(s, t.qtype, t.addr) && Querying(s', t.qtype, t.addr)
  }

  lemma UnaskedOnward(a: Dht, b: Dht, c: Dht)
    requires AsksTheUnasked(a, b) && AsksTheUnasked(b, c)
    requires StillAsks(a.trans, b.trans) && StillAsks(b.trans, c.trans)
    requires Extends(b, c, {})
    ensures AsksTheUnasked(a, c)
  {
  }

  lemma OpenUnlessUnasked(s: Dht, cfg: Config, addr: Addr, qtype: QueryType, infoHash: Option<Id>,
                          target: Option<Id>, port: Option<bv16>, now: int)
    requires Safe(s, cfg) && qtype != AnnouncePeer
    ensures AsksTheUnasked(s, OpenUnless(s, addr, qtype, infoHash, target, port, now))
  {
    hide NextId, Safe;
  }

  lemma LearnUnasked(s: Dht, cfg: Config, c: Contact, infoHash: Option<Id>, target: Option<Id>, now: int)
    requires Safe(s, cfg)
    ensures AsksTheUnasked(s, Learn(s, cfg, c, infoHash, target, now))
  {
    hide Safe, Blocked, OpenUnless, Extends, StillAsks, Keep;
    var s1 := Hear(s, cfg, c.id, c.addr, now);
    HearKeeps(s, cfg, c.id, c.addr, now);
    var s2 := s1;
    if infoHash.Some? {
      OpenUnlessUnasked(s1, cfg, c.addr, GetPeers, infoHash, None, None, now);
      OpenUnlessKeeps(s1, cfg, c.addr, GetPeers, infoHash, None, None, now);
      OpenUnlessAsks(s1, c.addr, GetPeers, infoHash, None, None, now);
      s2 := OpenUnless(s1, c.addr, GetPeers, infoHash, None, None, now);
    } else {
      StillAsksItself(s1.trans);
    }
    if target.Some? {
      OpenUnlessUnasked(s2, cfg, c.addr, FindNode, None, target, None, now);
      OpenExtends(s2, cfg, c.addr, FindNode, None, target, None, now);
      OpenUnlessAsks(s2, c.addr, FindNode, None, target, None, now);
      UnaskedOnward(s1, s2, OpenUnless(s2, c.addr, FindNode, None, target, None, now));
    }
  }

  lemma StillAsksItself(s: State)
    ensures StillAsks(s, s)
  {
  }

  lemma {:induction false} LearnAllUnasked(s: Dht, cfg: Config, cs: seq<Contact>, infoHash: Option<Id>,
                                           target: Option<Id>, now: int)
    requires Safe(s, cfg)
    ensures AsksTheUnasked(s, LearnAll(s, cfg, cs, infoHash, target, now))
  {
    hide Safe, Learn, Extends, Querying;
    if cs != [] {
      var front, last := cs[..|cs| - 1], cs[|cs| - 1];
      var s1 := LearnAll(s, cfg, front, infoHash, target, now);
      LearnAllUnasked(s, cfg, front, infoHash, target, now);
      LearnAllKeeps(s, cfg, front, infoHash, target, now);
      LearnAllGoesOn(s, cfg, front, infoHash, target, now);
      LearnGoesOn(s1, cfg, last, infoHash, target, now);
      LearnUnasked(s1, cfg, last, infoHash, target, now);
      LearnExtends(s1, cfg, last, infoHash, target, now);
      UnaskedOnward(s, s1, LearnAll(s, cfg, cs, infoHash, target, now));
    }
  }

  /** All new queries are announcements. */
  ghost predicate AnnouncesOnly(s: State, s': State) {
    forall u :: u in s'.live && s'.live[u].qtype != AnnouncePeer ==> u in s.live && s'.live[u] == s.live[u]
  }

  lemma CloseAnnouncesOnly(s: Dht, tid: Tid)
    ensures AnnouncesOnly(s.trans, Close(s, tid).trans)
  {
  }

  lemma OpenAnnouncesOnly(s: Dht, addr: Addr, infoHash: Option<Id>, now: int)
    ensures AnnouncesOnly(s.trans, OpenNew(s, addr, AnnouncePeer, infoHash, None, None, now).trans)
  {
    hide NextId;
  }

  /** After its contacts, an answer sends nothing but announcements. */
  lemma SettleAnnouncesOnly(s: Dht, cfg: Config, t: Transaction, tid: Tid, r: DhtMachine.Fields, now: int)
    ensures AnnouncesOnly(s.trans, Settle(s, cfg, Some(t), tid, r, now).trans)
  {
    hide StoreValues, ListAt, BytesAt, OpenNew, Close;
    var values := ListAt(r, Words.VALUES);
    var stored := s;
    if values.Some? && t.infoHash.Some? {
      stored := s.(peers := StoreValues(s.peers, cfg.k, t.infoHash.value, values.value));
      CloseAnnouncesOnly(stored, tid);
    }
    var s1 := TakeValues(s, cfg, t.infoHash, tid, r);
    OpenAnnouncesOnly(s1, t.addr, t.infoHash, now);
    CloseAnnouncesOnly(s1, tid);
    CloseAnnouncesOnly(OpenNew(s1, t.addr, AnnouncePeer, t.infoHash, None, None, now), tid);
    CloseAnnouncesOnly(AnnounceBack(s1, t, tid, r, now), tid);
  }

  // ----- an answer as a whole

  /** The contacts of an answer, if it has any. */
  function Told(nodes: Option<seq<byte>>): seq<Contact> {
    if nodes.None? then [] else DecodeContacts(nodes.value)
  }

  /** The state once the contacts of an answer have been learnt. */
  ghost function Learnt(s: Dht, cfg: Config, t: Transaction, nodes: Option<seq<byte>>, now: int): Dht {
    LearnAll(s, cfg, Told(nodes), t.infoHash, SearchTargetOf(Some(t)), now)
  }

  lemma AnswerInTwo(s: Dht, cfg: Config, tid: Tid, m: DhtMachine.Fields, addr: Addr, r: DhtMachine.Fields, now: int)
    requires tid in s.trans.live && s.trans.live[tid].addr == addr
    requires DictAt(m, Words.R) == Some(r) && IdAt(r, Words.ID).Some?
    ensures
      var t := s.trans.live[tid];
      Response(s, cfg, tid, m, addr, now) ==
      Settle(Learnt(s, cfg, t, BytesAt(r, Words.NODES), now), cfg, Some(t), tid, r, now)
  {
    hide Learn, Settle, DecodeContacts, BytesAt, DictAt, IdAt;
  }

  /** What is known of the state between the contacts and the rest, and of the state after. */
  lemma AnswerStages(s: Dht, cfg: Config, tid: Tid, t: Transaction, r: DhtMachine.Fields,
                     nodes: Option<seq<byte>>, now: int)
    requires Safe(s, cfg) && tid in s.trans.live && t == s.trans.live[tid]
    ensures
      var mid := Learnt(s, cfg, t, nodes, now);
      var s' := Settle(mid, cfg, Some(t), tid, r, now);
      && Safe(mid, cfg) && Safe(s', cfg) && Extends(s, mid, {}) && AsksTheUnasked(s, mid) && GoesOn(s, mid)
      && Extends(mid, s', if Ends(t, r) then {tid} else {}) && (Ends(t, r) ==> tid !in s'.trans.live)
      && AnnouncesOnly(mid.trans, s'.trans) && s'.table == mid.table
  {
    hide Exclusive, Bounded, Logged, LearnAll, Settle, Ends, DecodeContacts, ListAt, BytesAt, Extends;
    hide AsksTheUnasked, GoesOn;
    var mid := Learnt(s, cfg, t, nodes, now);
    var cs, target := Told(nodes), SearchTargetOf(Some(t));
    LearnAllKeeps(s, cfg, cs, t.infoHash, target, now);
    LearnAllExtends(s, cfg, cs, t.infoHash, target, now);
    LearnAllUnasked(s, cfg, cs, t.infoHash, target, now);
    LearnAllGoesOn(s, cfg, cs, t.infoHash, target, now);
    SettleKeeps(mid, cfg, Some(t), tid, r, now);
    SettleCloses(mid, cfg, t, tid, r, now);
    SettleAnnouncesOnly(mid, cfg, t, tid, r, now);
  }

  /** Known to the index, and so in flight, under an id that is not the one answered. */
  lemma OtherInFlight(s: Dht, mid: Dht, s': Dht, cfg: Config, tid: Tid, closed: set<Tid>, qtype: QueryType, addr: Addr)
    requires Safe(s, cfg) && Safe(mid, cfg) && Extends(s, mid, {}) && Extends(mid, s', closed) && closed <= {tid}
    requires s'.drawn <= MAX_CURSOR && tid in s.trans.live && Querying(mid, qtype, addr)
    requires KeyOf(s.trans.live[tid]) != Key(qtype, addr) || !Querying(s, qtype, addr)
    ensures InFlight(s'.trans, qtype, addr)
  {
    hide Bounded, Logged, Typed, IsIssued, Indexed;
    var u := mid.trans.index[Key(qtype, addr)];
    assert KeyOf(mid.trans.live[u]) == Key(qtype, addr);
    assert tid in mid.trans.live && mid.trans.live[tid] == s.trans.live[tid];
    assert u != tid;
    assert u in s'.trans.live && s'.trans.live[u] == mid.trans.live[u];
  }

  /** An answer makes the node ask an address: some contact there is not blocked, and comes while there is room. */
  ghost predicate Reaches(s: Dht, cfg: Config, t: Transaction, cs: seq<Contact>, addr: Addr, now: int) {
    !Blocked(s.blacklist, addr, now) && FindsRoom(s, cfg, cs, t.infoHash, SearchTargetOf(Some(t)), addr, now)
  }

  /** In flight to an address are the queries not answered, and a new one if the answer calls for it. */
  lemma AnswerSpreads(s: Dht, cfg: Config, tid: Tid, r: DhtMachine.Fields, nodes: Option<seq<byte>>, now: int,
                      qtype: QueryType, a: Addr)
    requires Safe(s, cfg) && tid in s.trans.live
    requires
      var t := s.trans.live[tid];
      && AsksAbout(qtype, t.infoHash, SearchTargetOf(Some(t)))
      && Settle(Learnt(s, cfg, t, nodes, now), cfg, Some(t), tid, r, now).drawn <= MAX_CURSOR
    ensures
      var t := s.trans.live[tid];
      InFlight(Settle(Learnt(s, cfg, t, nodes, now), cfg, Some(t), tid, r, now).trans, qtype, a) <==>
      || (exists u :: u in s.trans.live && KeyOf(s.trans.live[u]) == Key(qtype, a) && !(Ends(t, r) && u == tid))
      || (!Querying(s, qtype, a) && Reaches(s, cfg, t, Told(nodes), a, now))
  {
    hide LearnAll, Settle, Ends, Told, Blocked, FindsRoom, GoesOn, Safe, Querying, IsIssued;
    var t := s.trans.live[tid];
    var mid := Learnt(s, cfg, t, nodes, now);
    var s' := Settle(mid, cfg, Some(t), tid, r, now);
    var closed := if Ends(t, r) then {tid} else {};
    AnswerStages(s, cfg, tid, t, r, nodes, now);
    LearnAllAsksExactly(s, cfg, Told(nodes), t.infoHash, SearchTargetOf(Some(t)), now, qtype, a);
    if u :| u in s'.trans.live && KeyOf(s'.trans.live[u]) == Key(qtype, a) {
      assert u in mid.trans.live && mid.trans.live[u] == s'.trans.live[u];
    }
    if u :| u in s.trans.live && KeyOf(s.trans.live[u]) == Key(qtype, a) && !(Ends(t, r) && u == tid) {
      assert u in mid.trans.live && u in s'.trans.live && KeyOf(s'.trans.live[u]) == Key(qtype, a);
    }
    if !Querying(s, qtype, a) && Querying(mid, qtype, a) {
      OtherInFlight(s, mid, s', cfg, tid, closed, qtype, a);
    }
  }

  /**
   * A lookup, or an announcement, spreads: after an answer exactly those addresses have a lookup in
   * flight that had one before, or at which a contact of the answer is not blocked and finds room. Only
   * the lookup that was answered is in flight exactly if the answer does not end it.
   */
  lemma LookupSpreads(cfg: Config, start: int, run: seq<Timed>, tid: Tid, m: DhtMachine.Fields, addr: Addr,
                      r: DhtMachine.Fields, now: int, a: Addr)
    requires tid in Reached(cfg, start, run).trans.live && Reached(cfg, start, run).trans.live[tid].addr == addr
    requires Reached(cfg, start, run).trans.live[tid].infoHash.Some?
    requires DictAt(m, Words.R) == Some(r) && IdAt(r, Words.ID).Some?
    requires Response(Reached(cfg, start, run), cfg, tid, m, addr, now).drawn <= MAX_CURSOR
    ensures
      var s := Reached(cfg, start, run);
      var t, s' := s.trans.live[tid], Response(s, cfg, tid, m, addr, now);
      InFlight(s'.trans, GetPeers, a) <==>
      if t.qtype == GetPeers && a == addr then !Ends(t, r)
      else InFlight(s.trans, GetPeers, a) || Reaches(s, cfg, t, Told(BytesAt(r, Words.NODES)), a, now)
  {
    hide Reached, Response, Learnt, Settle, Ends, Told, Reaches, BytesAt, DictAt, IdAt, Bounded, Logged, Issued;
    ReachedIsSafe(cfg, start, run);
    var s := Reached(cfg, start, run);
    var t, nodes := s.trans.live[tid], BytesAt(r, Words.NODES);
    AnswerInTwo(s, cfg, tid, m, addr, r, now);
    AnswerDraws(s, cfg, tid, t, r, nodes, now);
    AnswerSpreads(s, cfg, tid, r, nodes, now, GetPeers, a);
    IndexFindsThem(s.trans, GetPeers, a);
    if t.qtype == GetPeers && a == addr {
      KnownToIndex(s.trans, tid);
    }
  }

  lemma AnswerDraws(s: Dht, cfg: Config, tid: Tid, t: Transaction, r: DhtMachine.Fields, nodes: Option<seq<byte>>,
                    now: int)
    requires Safe(s, cfg) && tid in s.trans.live && t == s.trans.live[tid]
    ensures s.drawn <= Settle(Learnt(s, cfg, t, nodes, now), cfg, Some(t), tid, r, now).drawn
  {
    hide Safe, Learnt, Settle, Ends, AsksTheUnasked, GoesOn, AnnouncesOnly;
    AnswerStages(s, cfg, tid, t, r, nodes, now);
  }

  /** A lookup in flight is the only one to its address, and the index knows it. */
  lemma KnownToIndex(s: State, tid: Tid)
    requires Indexed(s, GetPeers) && tid in s.live && s.live[tid].qtype == GetPeers
    ensures GetByIndex(s, GetPeers, s.live[tid].addr) == Some(s.live[tid])
    ensures forall u :: u in s.live && KeyOf(s.live[u]) == KeyOf(s.live[tid]) ==> u == tid
  {
  }

  /**
   * A search spreads in the same way: in flight are afterwards the searches besides the one that was
   * answered, and one to each address the index knew of none to and that the answer reaches.
   */
  lemma SearchSpreads(cfg: Config, start: int, run: seq<Timed>, tid: Tid, m: DhtMachine.Fields, addr: Addr,
                      r: DhtMachine.Fields, now: int, a: Addr)
    requires tid in Reached(cfg, start, run).trans.live && Reached(cfg, start, run).trans.live[tid].addr == addr
    requires Reached(cfg, start, run).trans.live[tid].qtype == FindNode
    requires DictAt(m, Words.R) == Some(r) && IdAt(r, Words.ID).Some?
    requires Response(Reached(cfg, start, run), cfg, tid, m, addr, now).drawn <= MAX_CURSOR
    ensures
      var s := Reached(cfg, start, run);
      var t, s' := s.trans.live[tid], Response(s, cfg, tid, m, addr, now);
      InFlight(s'.trans, FindNode, a) <==>
      || (exists u :: u in s.trans.live && u != tid && KeyOf(s.trans.live[u]) == Key(FindNode, a))
      || (!Querying(s, FindNode, a) && Reaches(s, cfg, t, Told(BytesAt(r, Words.NODES)), a, now))
  {
    hide Reached, Response, Learnt, Settle, Told, Reaches, Querying, BytesAt, DictAt, IdAt, Bounded, Logged, Issued;
    ReachedIsSafe(cfg, start, run);
    var s := Reached(cfg, start, run);
    AnswerInTwo(s, cfg, tid, m, addr, r, now);
    AnswerSpreads(s, cfg, tid, r, BytesAt(r, Words.NODES), now, FindNode, a);
  }

  // ----- announcements

  lemma AnnouncementOpens(s: Dht, cfg: Config, t: Transaction, tid: Tid, r: DhtMachine.Fields, now: int)
    requires Safe(s, cfg) && Announces(t) && BytesAt(r, Words.TOKEN).Some?
    requires IsIssued(tid, s.drawn) && s.drawn < MAX_CURSOR && |s.trans.live| < MAX_TRANSACTIONS
    ensures exists u :: Announcement(AnnounceBack(s, t, tid, r, now).trans, u, t, now) && !IsIssued(u, s.drawn)
  {
    hide Bounded, Typed, Logged, IsIssued, Int2Bytes, BytesAt;
    NextIdIsFresh(s.trans, s.drawn, MAX_CURSOR);
    IssuedGrows(s.drawn);
    var u := Int2Bytes(s.drawn);
    assert OpenNew(s, t.addr, AnnouncePeer, t.infoHash, None, None, now).trans.live[u]
        == Transaction(u, t.addr, AnnouncePeer, t.infoHash, None, None, false, now, 0);
    assert u != tid;
    assert Announcement(AnnounceBack(s, t, tid, r, now).trans, u, t, now);
  }

  /** An announcement for a lookup is in flight to the address that was asked. */
  ghost predicate Announcement(s: State, u: Tid, t: Transaction, now: int) {
    u in s.live && s.live[u] == Transaction(u, t.addr, AnnouncePeer, t.infoHash, None, None, false, now, 0)
  }

  lemma AnnounceBackDraws(s: Dht, t: Transaction, tid: Tid, r: DhtMachine.Fields, now: int)
    requires Announces(t) && BytesAt(r, Words.TOKEN).Some?
    ensures AnnounceBack(s, t, tid, r, now).drawn == s.drawn + 1
  {
  }

  lemma SettleOfAnnouncement(s: Dht, cfg: Config, t: Transaction, tid: Tid, r: DhtMachine.Fields, now: int)
    requires Announces(t)
    ensures Settle(s, cfg, Some(t), tid, r, now) == AnnounceBack(TakeValues(s, cfg, t.infoHash, tid, r), t, tid, r, now)
  {
    hide TakeValues, AnnounceBack;
  }

  /** The peers of an answer end the lookup, and so make room. */
  lemma ValuesMakeRoom(s: Dht, cfg: Config, t: Transaction, tid: Tid, r: DhtMachine.Fields)
    requires Safe(s, cfg) && t.infoHash.Some? && tid in s.trans.live
    ensures
      var s1 := TakeValues(s, cfg, t.infoHash, tid, r);
      && s1.drawn == s.drawn
      && (forall u :: u in s1.trans.live ==> u in s.trans.live && s1.trans.live[u] == s.trans.live[u])
      && (|s1.trans.live| < MAX_TRANSACTIONS <==> ListAt(r, Words.VALUES).Some? || |s.trans.live| < MAX_TRANSACTIONS)
  {
    hide StoreValues, ListAt, ValidTable, Exclusive, Typed, Logged;
    assert (s.trans.live - {tid}).Keys == s.trans.live.Keys - {tid};
  }

  /** An announcement is sent exactly if the table of transactions is not full. */
  lemma AnnouncementSentExactly(s: Dht, mid: Dht, s1: Dht, cfg: Config, t: Transaction, tid: Tid,
                                r: DhtMachine.Fields, now: int)
    requires Safe(s1, cfg) && Announces(t) && BytesAt(r, Words.TOKEN).Some?
    requires AsksTheUnasked(s, mid) && Extends(s, mid, {}) && mid.drawn == s1.drawn < MAX_CURSOR
    requires forall u :: u in s1.trans.live ==> u in mid.trans.live && s1.trans.live[u] == mid.trans.live[u]
    requires tid in s.trans.live && forall u :: u in s.trans.live ==> IsIssued(u, s.drawn)
    ensures (exists u :: u !in s.trans.live && Announcement(AnnounceBack(s1, t, tid, r, now).trans, u, t, now)) <==>
            |s1.trans.live| < MAX_TRANSACTIONS
  {
    hide Safe, NextId, BytesAt, IsIssued;
    if |s1.trans.live| < MAX_TRANSACTIONS {
      IssuedEarlier(tid, s.drawn, s1.drawn);
      AnnouncementOpens(s1, cfg, t, tid, r, now);
      var u :| Announcement(AnnounceBack(s1, t, tid, r, now).trans, u, t, now) && !IsIssued(u, s1.drawn);
      if u in s.trans.live {
        IssuedEarlier(u, s.drawn, s1.drawn);
      }
    }
  }

  /**
   * A lookup made to announce ends with its answer. If that has a token, an announcement under a new id
   * is in flight to the same address exactly if the answer brings peers as well, which end the lookup
   * before, or the table of transactions is not full once the contacts have been learnt.
   */
  lemma AnnouncementFollows(cfg: Config, start: int, run: seq<Timed>, tid: Tid, m: DhtMachine.Fields, addr: Addr,
                            r: DhtMachine.Fields, now: int)
    requires tid in Reached(cfg, start, run).trans.live && Reached(cfg, start, run).trans.live[tid].addr == addr
    requires Announces(Reached(cfg, start, run).trans.live[tid])
    requires DictAt(m, Words.R) == Some(r) && IdAt(r, Words.ID).Some? && BytesAt(r, Words.TOKEN).Some?
    requires Response(Reached(cfg, start, run), cfg, tid, m, addr, now).drawn <= MAX_CURSOR
    ensures
      var s := Reached(cfg, start, run);
      var t, s' := s.trans.live[tid], Response(s, cfg, tid, m, addr, now);
      && tid !in s'.trans.live
      && ((exists u :: u !in s.trans.live && Announcement(s'.trans, u, t, now)) <==>
          || ListAt(r, Words.VALUES).Some?
          || |Learnt(s, cfg, t, BytesAt(r, Words.NODES), now).trans.live| < MAX_TRANSACTIONS)
  {
    hide Reached, Response, Learnt, Settle, TakeValues, AnnounceBack, Told, BytesAt, DictAt, IdAt, ListAt;
    hide Bounded, Logged, Typed, AsksTheUnasked, GoesOn, AnnouncesOnly, IsIssued, Announcement;
    ReachedIsSafe(cfg, start, run);
    var s := Reached(cfg, start, run);
    var t, s', nodes := s.trans.live[tid], Response(s, cfg, tid, m, addr, now), BytesAt(r, Words.NODES);
    var mid := Learnt(s, cfg, t, nodes, now);
    AnswerInTwo(s, cfg, tid, m, addr, r, now);
    AnswerStages(s, cfg, tid, t, r, nodes, now);
    SettleOfAnnouncement(mid, cfg, t, tid, r, now);
    TakeValuesKeeps(mid, cfg, t.infoHash, tid, r);
    StaysInFlight(s, mid, tid);
    ValuesMakeRoom(mid, cfg, t, tid, r);
    var s1 := TakeValues(mid, cfg, t.infoHash, tid, r);
    AnnounceBackDraws(s1, t, tid, r, now);
    AnnouncementSentExactly(s, mid, s1, cfg, t, tid, r, now);
  }

  lemma StaysInFlight(s: Dht, s': Dht, tid: Tid)
    requires Extends(s, s', {}) && s'.drawn <= MAX_CURSOR && tid in s.trans.live
    ensures tid in s'.trans.live
  {
  }
}
