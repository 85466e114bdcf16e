/** What the queries say that a step sends. */
module DhtSending {
  import opened Bits
  import Words
  import opened Options
  import opened Nodes
  import opened Compact
  import opened Tables
  import opened Plans
  import opened Neighbors
  import opened Transactions
  import opened Backoff
  import opened DhtMachine
  import opened DhtSafety
  import opened DhtFlights
  import opened DhtEndings
  import opened DhtAsking

  /** In flight now and not before. */
  predicate New(s: State, s': State, u: Tid) {
    u in s'.live && u !in s.live
  }

  function Sent(u: Tid, addr: Addr, qtype: QueryType, infoHash: Option<Id>, target: Option<Id>, port: Option<bv16>,
                now: int): Transaction
  {
    Transaction(u, addr, qtype, infoHash, target, port, false, now, 0)
  }

  /** Whatever is new was new before, or is the one query. */
  ghost predicate SendsOne(s: State, s1: State, addr: Addr, qtype: QueryType, infoHash: Option<Id>, target: Option<Id>,
                           port: Option<bv16>, now: int) {
    forall u :: u in s1.live ==>
      (u in s.live && s1.live[u] == s.live[u]) || s1.live[u] == Sent(u, addr, qtype, infoHash, target, port, now)
  }

  lemma OpenSends(s: Dht, addr: Addr, qtype: QueryType, infoHash: Option<Id>, target: Option<Id>, port: Option<bv16>,
                  now: int)
    ensures SendsOne(s.trans, OpenNew(s, addr, qtype, infoHash, target, port, now).trans, addr, qtype, infoHash, target,
                     port, now)
    ensures SendsOne(s.trans, OpenUnless(s, addr, qtype, infoHash, target, port, now).trans, addr, qtype, infoHash,
                     target, port, now)
  {
    hide NextId;
  }

  // ----- commands

  ghost predicate IsLookup(t: Transaction, u: Tid, nodes: seq<Node>, ih: Id, port: Option<bv16>, now: int) {
    exists n :: n in nodes && t == Sent(u, n.addr, GetPeers, Some(ih), None, port, now)
  }

  lemma {:induction false} SearchSends(s: Dht, nodes: seq<Node>, ih: Id, port: Option<bv16>, now: int)
    ensures
      var s' := SearchFrom(s, nodes, ih, port, now);
      forall u :: u in s'.trans.live ==>
        || (u in s.trans.live && s'.trans.live[u] == s.trans.live[u])
        || IsLookup(s'.trans.live[u], u, nodes, ih, port, now)
  {
    hide OpenUnless;
    if nodes != [] {
      var front, last := nodes[..|nodes| - 1], nodes[|nodes| - 1];
      SearchSends(s, front, ih, port, now);
      OpenSends(SearchFrom(s, front, ih, port, now), last.addr, GetPeers, Some(ih), None, port, now);
      assert nodes == front + [last];
    }
  }

  /** The lookup a command for the infohash sends to the address. */
  ghost predicate Looked(s: State, s': State, u: Tid, addr: Addr, ih: Id, port: Option<bv16>, now: int) {
    New(s, s', u) && s'.live[u] == Sent(u, addr, GetPeers, Some(ih), None, port, now)
  }

  /**
   * All that a command sends are lookups of its infohash to cached nodes, each bearing the port to
   * announce, if one is given. Every cached node that is not being asked gets one, if in the end the
   * table of transactions is not full.
   */
  lemma CommandSendsExactly(cfg: Config, start: int, run: seq<Timed>, e: Timed, a: Addr)
    requires e.event.Searched? && Possible(Reached(cfg, start, run), cfg, e)
    requires Next(Reached(cfg, start, run), cfg, e).drawn <= MAX_CURSOR
    ensures
      var s, s' := Reached(cfg, start, run), Next(Reached(cfg, start, run), cfg, e);
      forall u :: New(s.trans, s'.trans, u) ==>
        && s'.trans.live[u].addr in s.table.cache && !InFlight(s.trans, GetPeers, s'.trans.live[u].addr)
        && Looked(s.trans, s'.trans, u, s'.trans.live[u].addr, e.event.ih, e.event.port, e.now)
    ensures
      var s, s' := Reached(cfg, start, run), Next(Reached(cfg, start, run), cfg, e);
      a in s.table.cache && !InFlight(s.trans, GetPeers, a) && |s'.trans.live| < 10000 ==>
        exists u :: Looked(s.trans, s'.trans, u, a, e.event.ih, e.event.port, e.now)
  {
    hide Reached, SearchFrom, Nearest, Bounded, Logged, Issued, IsIssued;
    var s, s' := Reached(cfg, start, run), Next(Reached(cfg, start, run), cfg, e);
    ReachedIsSafe(cfg, start, run);
    NextKeeps(s, cfg, e);
    IndexedIsOnePerAddr(s'.trans, GetPeers);
    SearchExtends(s, cfg, e.event.nodes, e.event.ih, e.event.port, e.now);
    SearchSends(s, e.event.nodes, e.event.ih, e.event.port, e.now);
    forall u | New(s.trans, s'.trans, u)
      ensures s'.trans.live[u].addr in s.table.cache && !InFlight(s.trans, GetPeers, s'.trans.live[u].addr)
      ensures Looked(s.trans, s'.trans, u, s'.trans.live[u].addr, e.event.ih, e.event.port, e.now)
    {
      LookedUpIsCached(e.event.nodes, s.table.cache, e.event.ih, s'.trans.live[u], u, e.event.port, e.now);
    }
    if a in s.table.cache && !InFlight(s.trans, GetPeers, a) && |s'.trans.live| < 10000 {
      SearchAsksEveryNode(cfg, start, run, e, a);
      var u :| u in s'.trans.live && KeyOf(s'.trans.live[u]) == Key(GetPeers, a);
      assert New(s.trans, s'.trans, u);
    }
  }

  lemma LookedUpIsCached(nodes: seq<Node>, c: Cache, ih: Id, t: Transaction, u: Tid, port: Option<bv16>, now: int)
    requires Nearest(nodes, c, ih, |c|) && IsLookup(t, u, nodes, ih, port, now)
    ensures t.addr in c && t == Sent(u, t.addr, GetPeers, Some(ih), None, port, now)
  {
    hide NearestFirst;
  }

  // ----- answers

  /** A lookup or a search of the contact at the address, for what the answered query was about. */
  predicate PassesOn(t: Transaction, u: Tid, answered: Option<Transaction>, addr: Addr, now: int) {
    match answered
    case None => false
    case Some(q) =>
      || (q.infoHash.Some? && t == Sent(u, addr, GetPeers, q.infoHash, None, None, now))
      || (q.qtype == FindNode && q.target.Some? && t == Sent(u, addr, FindNode, None, q.target, None, now))
  }

  /** Every query in flight was so before, or passes on what was answered to one of the contacts. */
  ghost predicate PassesOnly(s: State, s': State, answered: Option<Transaction>, cs: seq<Contact>, now: int) {
    forall u :: u in s'.live ==>
      (u in s.live && s'.live[u] == s.live[u]) || exists c :: c in cs && PassesOn(s'.live[u], u, answered, c.addr, now)
  }

  lemma LearnSends(s: Dht, cfg: Config, c: Contact, answered: Option<Transaction>, now: int)
    ensures PassesOnly(s.trans, Learn(s, cfg, c, InfoHashOf(answered), SearchTargetOf(answered), now).trans, answered,
                       [c], now)
  {
    hide Keep, Blocked, OpenUnless;
    var infoHash, target := InfoHashOf(answered), SearchTargetOf(answered);
    assert c in [c];
    var s1 := Hear(s, cfg, c.id, c.addr, now);
    OpenSends(s1, c.addr, GetPeers, infoHash, None, None, now);
    var s2 := if infoHash.Some? then OpenUnless(s1, c.addr, GetPeers, infoHash, None, None, now) else s1;
    OpenSends(s2, c.addr, FindNode, None, target, None, now);
  }

  lemma {:induction false} LearnAllSends(s: Dht, cfg: Config, cs: seq<Contact>, answered: Option<Transaction>, now: int)
    ensures PassesOnly(s.trans, LearnAll(s, cfg, cs, InfoHashOf(answered), SearchTargetOf(answered), now).trans,
                       answered, cs, now)
  {
    hide Learn, PassesOn;
    if cs != [] {
      var front, last := cs[..|cs| - 1], cs[|cs| - 1];
      LearnAllSends(s, cfg, front, answered, now);
      var s1 := LearnAll(s, cfg, front, InfoHashOf(answered), SearchTargetOf(answered), now);
      LearnSends(s1, cfg, last, answered, now);
      assert cs == front + [last];
    }
  }

  /** An announcement of the infohash that was looked up, to the node that was asked. */
  predicate AnnouncesFor(t: Transaction, u: Tid, answered: Option<Transaction>, now: int) {
    answered.Some? && Announces(answered.value) &&
    t == Sent(u, answered.value.addr, AnnouncePeer, answered.value.infoHash, None, None, now)
  }

  lemma SettleSends(s: Dht, cfg: Config, t: Option<Transaction>, tid: Tid, r: DhtMachine.Fields, now: int)
    ensures
      var s' := Settle(s, cfg, t, tid, r, now);
      forall u :: u in s'.trans.live ==>
        (u in s.trans.live && s'.trans.live[u] == s.trans.live[u]) || AnnouncesFor(s'.trans.live[u], u, t, now)
  {
    hide OpenNew, StoreValues, ListAt, BytesAt;
    if t.Some? {
      var s1 := TakeValues(s, cfg, InfoHashOf(t), tid, r);
      OpenSends(s1, t.value.addr, AnnouncePeer, t.value.infoHash, None, None, now);
    }
  }

  /** The query in flight under an id. */
  function Answered(s: State, tid: Tid): Option<Transaction> {
    if tid in s.live then Some(s.live[tid]) else None
  }

  /** The contacts an answer tells. */
  function Contents(m: DhtMachine.Fields): seq<Contact> {
    match DictAt(m, Words.R)
    case Some(r) => Told(BytesAt(r, Words.NODES))
    case None => []
  }

  /**
   * All that an answer makes the node send are queries about what the answered query was about, to the
   * contacts of the answer, and an announcement to the node that answered.
   */
  lemma AnswerSends(s: Dht, cfg: Config, tid: Tid, m: DhtMachine.Fields, addr: Addr, now: int)
    ensures
      var s', t := Response(s, cfg, tid, m, addr, now), Answered(s.trans, tid);
      forall u :: New(s.trans, s'.trans, u) ==>
        || AnnouncesFor(s'.trans.live[u], u, t, now)
        || exists c :: c in Contents(m) && PassesOn(s'.trans.live[u], u, t, c.addr, now)
  {
    hide LearnAll, Settle, PassesOn, AnnouncesFor, BytesAt, IdAt, DictAt, DecodeContacts;
    match DictAt(m, Words.R) {
      case Some(r) =>
        var t, nodes := Answered(s.trans, tid), BytesAt(r, Words.NODES);
        var s1 := s;
        if nodes.Some? {
          LearnAllSends(s, cfg, DecodeContacts(nodes.value), t, now);
          s1 := LearnAll(s, cfg, DecodeContacts(nodes.value), InfoHashOf(t), SearchTargetOf(t), now);
        }
        SettleSends(s1, cfg, t, tid, r, now);
      case None =>
    }
  }

  // ----- ticks

  lemma {:induction false} JoinSends(s: Dht, cfg: Config, prime: seq<Addr>, now: int)
    ensures
      var s' := Join(s, cfg, prime, now);
      forall u :: u in s'.trans.live ==>
        || (u in s.trans.live && s'.trans.live[u] == s.trans.live[u])
        || (s'.trans.live[u].addr in prime &&
            s'.trans.live[u] == Sent(u, s'.trans.live[u].addr, FindNode, None, Some(cfg.selfId), None, now))
  {
    hide OpenNew;
    if prime != [] {
      var front, last := prime[..|prime| - 1], prime[|prime| - 1];
      JoinSends(s, cfg, front, now);
      OpenSends(Join(s, cfg, front, now), last, FindNode, None, Some(cfg.selfId), None, now);
      assert prime == front + [last];
    }
  }

  predicate DoesTask(t: Transaction, u: Tid, task: Task, now: int) {
    t == Sent(u, task.addr, FindNode, None, Some(task.target), None, now)
  }

  lemma {:induction false} AskAllSends(s: Dht, tasks: seq<Task>, now: int)
    ensures
      var s' := AskAll(s, tasks, now);
      forall u :: u in s'.trans.live ==>
        || (u in s.trans.live && s'.trans.live[u] == s.trans.live[u])
        || exists task :: task in tasks && DoesTask(s'.trans.live[u], u, task, now)
  {
    hide OpenNew;
    if tasks != [] {
      var front, last := tasks[..|tasks| - 1], tasks[|tasks| - 1];
      AskAllSends(s, front, now);
      OpenSends(AskAll(s, front, now), last.addr, FindNode, None, Some(last.target), None, now);
      assert last in tasks && forall task :: task in front ==> task in tasks;
    }
  }

  lemma {:induction false} PingAllSends(s: Dht, addrs: seq<Addr>, now: int)
    ensures
      var s' := PingAll(s, addrs, now);
      forall u :: u in s'.trans.live ==>
        || (u in s.trans.live && s'.trans.live[u] == s.trans.live[u])
        || (s'.trans.live[u].addr in addrs &&
            s'.trans.live[u] == Sent(u, s'.trans.live[u].addr, Ping, None, None, None, now))
  {
    hide OpenUnless;
    if addrs != [] {
      var front, last := addrs[..|addrs| - 1], addrs[|addrs| - 1];
      PingAllSends(s, front, now);
      OpenSends(PingAll(s, front, now), last, Ping, None, None, None, now);
      assert addrs == front + [last];
    }
  }

  /**
   * A tick that knows nobody asks its first contacts about its own id. Any other asks, if nothing is left
   * in flight, for what the refresh plans, and pings who is silent.
   */
  lemma TickSends(s: Dht, cfg: Config, f: Findings, now: int, u: Tid)
    requires New(s.trans, Tick(s, cfg, f, now).trans, u)
    ensures
      var t := Tick(s, cfg, f, now).trans.live[u];
      if s.table.cache == map[] then
        t.addr in f.prime && t == Sent(u, t.addr, FindNode, None, Some(cfg.selfId), None, now)
      else
        || (t.addr in f.silent && t == Sent(u, t.addr, Ping, None, None, None, now))
        || (AfterSweep(s, cfg, f, now).trans.live == map[] &&
            exists task :: task in f.tasks && DoesTask(t, u, task, now))
  {
    hide Join, GiveUpAll, PingAll, AskAll, Drop, TimesOut, SentAgain, DoesTask;
    JoinSends(s, cfg, f.prime, now);
    AskAllSends(AfterSweep(s, cfg, f, now), f.tasks, now);
    PingAllSends(AfterRefresh(s, cfg, f, now), f.silent, now);
  }

  // ----- from a command to its announcements

  /** A complete answer with a token, that brings peers or finds room. */
  ghost predicate CallsForAnnouncement(s: Dht, cfg: Config, u: Tid, m: DhtMachine.Fields, r: DhtMachine.Fields,
                                       now: int)
    requires u in s.trans.live
  {
    && DictAt(m, Words.R) == Some(r) && IdAt(r, Words.ID).Some? && BytesAt(r, Words.TOKEN).Some?
    && (|| ListAt(r, Words.VALUES).Some?
        || |Learnt(s, cfg, s.trans.live[u], BytesAt(r, Words.NODES), now).trans.live| < 10000)
  }

  /**
   * A command to announce sends a lookup to every cached node not being asked, if there is room for all;
   * and as long as that lookup is in flight, an answer to it with a token makes the node announce the
   * infohash to that node.
   */
  lemma CommandIsFollowed(cfg: Config, start: int, run: seq<Timed>, i: nat, a: Addr, port: bv16) returns (u: Tid)
    requires i < |run| && Possible(Reached(cfg, start, run[..i]), cfg, run[i])
    requires run[i].event.Searched? && run[i].event.port == Some(port) && Reached(cfg, start, run).drawn <= MAX_CURSOR
    requires a in Reached(cfg, start, run[..i]).table.cache
    requires !InFlight(Reached(cfg, start, run[..i]).trans, GetPeers, a)
    requires |Reached(cfg, start, run[..i + 1]).trans.live| < 10000
    ensures Looked(Reached(cfg, start, run[..i]).trans, Reached(cfg, start, run[..i + 1]).trans, u, a, run[i].event.ih,
                   Some(port), run[i].now)
    ensures
      var s := Reached(cfg, start, run);
      u in s.trans.live ==> forall m, r, now ::
        CallsForAnnouncement(s, cfg, u, m, r, now) && Response(s, cfg, u, m, a, now).drawn <= MAX_CURSOR ==>
          exists v :: v !in s.trans.live && v in Response(s, cfg, u, m, a, now).trans.live &&
            Response(s, cfg, u, m, a, now).trans.live[v] ==
            Sent(v, a, AnnouncePeer, Some(run[i].event.ih), None, None, now)
  {
    hide Reached, Next, Response, CallsForAnnouncement, Learnt, DictAt, IdAt, BytesAt, ListAt, InFlight, Looked;
    var s := Reached(cfg, start, run);
    Onward(cfg, start, run, i);
    RunDraws(cfg, start, run, i + 1);
    CommandSendsExactly(cfg, start, run[..i], run[i], a);
    u :| Looked(Reached(cfg, start, run[..i]).trans, Reached(cfg, start, run[..i + 1]).trans, u, a, run[i].event.ih,
                Some(port), run[i].now);
    LookedIs(Reached(cfg, start, run[..i]).trans, Reached(cfg, start, run[..i + 1]).trans, u, a, run[i].event.ih,
             Some(port), run[i].now);
    if u in s.trans.live {
      QueryStaysExactly(cfg, start, run, i + 1, u);
      forall m, r, now |
        CallsForAnnouncement(s, cfg, u, m, r, now) && Response(s, cfg, u, m, a, now).drawn <= MAX_CURSOR
        ensures exists v :: v !in s.trans.live && v in Response(s, cfg, u, m, a, now).trans.live &&
                  Response(s, cfg, u, m, a, now).trans.live[v] ==
                  Sent(v, a, AnnouncePeer, Some(run[i].event.ih), None, None, now)
      {
        Follows(cfg, start, run, u, m, a, r, now);
      }
    }
  }

  lemma LookedIs(s: State, s': State, u: Tid, addr: Addr, ih: Id, port: Option<bv16>, now: int)
    requires Looked(s, s', u, addr, ih, port, now)
    ensures u in s'.live && s'.live[u] == Sent(u, addr, GetPeers, Some(ih), None, port, now)
  {
  }

  lemma Follows(cfg: Config, start: int, run: seq<Timed>, u: Tid, m: DhtMachine.Fields, addr: Addr,
                r: DhtMachine.Fields, now: int)
    requires u in Reached(cfg, start, run).trans.live && Reached(cfg, start, run).trans.live[u].addr == addr
    requires DhtMachine.Announces(Reached(cfg, start, run).trans.live[u])
    requires CallsForAnnouncement(Reached(cfg, start, run), cfg, u, m, r, now)
    requires Response(Reached(cfg, start, run), cfg, u, m, addr, now).drawn <= MAX_CURSOR
    ensures
      var s := Reached(cfg, start, run);
      var s' := Response(s, cfg, u, m, addr, now);
      exists v :: v !in s.trans.live && v in s'.trans.live &&
        s'.trans.live[v] == Sent(v, addr, AnnouncePeer, s.trans.live[u].infoHash, None, None, now)
  {
    hide Reached, Response, Learnt, DictAt, IdAt, BytesAt, ListAt;
    AnnouncementFollows(cfg, start, run, u, m, addr, r, now);
    var s := Reached(cfg, start, run);
    var v :| v !in s.trans.live && Announcement(Response(s, cfg, u, m, addr, now).trans, v, s.trans.live[u], now);
  }
}
