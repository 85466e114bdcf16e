/**
 * Queries sent without consulting the index: when joining, refreshing, and looking up on behalf of a
 * caller. They keep to one query of a kind per address under a condition that is known before.
 */
module DhtFinds {
  import opened Bits
  import Words
  import opened Options
  import opened Nodes
  import opened Sequences
  import opened Bencode
  import opened Compact
  import opened Tables
  import opened Plans
  import opened Neighbors
  import opened TransactionIds
  import opened Transactions
  import opened Backoff
  import opened DhtMachine
  import opened DhtSafety
  import opened DhtFlights

  datatype Query = Query(addr: Addr, infoHash: Option<Id>, target: Option<Id>)

  /** Sends queries of one type, whatever is in flight. */
  ghost function AskEach(s: Dht, qtype: QueryType, qs: seq<Query>, now: int): Dht {
    if qs == [] then s
    else
      var front, q := qs[..|qs| - 1], qs[|qs| - 1];
      OpenNew(AskEach(s, qtype, front, now), q.addr, qtype, q.infoHash, q.target, None, now)
  }

  /** How many queries there is room for, and which of the given ones are those. */
  ghost function Room(s: State, n: nat): nat {
    if |s.live| >= MAX_TRANSACTIONS then 0
    else if n <= MAX_TRANSACTIONS - |s.live| then n
    else MAX_TRANSACTIONS - |s.live|
  }

  /** The addresses are distinct, and none of them is being asked. */
  ghost predicate Unasked(s: Dht, qtype: QueryType, addrs: seq<Addr>) {
    && (forall i, j :: 0 <= i < j < |addrs| ==> addrs[i] != addrs[j])
    && (forall a :: a in addrs ==> !Querying(s, qtype, a))
  }

  ghost function QueryAddrs(qs: seq<Query>): (r: seq<Addr>)
    ensures |r| == |qs|
  {
    seq(|qs|, i requires 0 <= i < |qs| => qs[i].addr)
  }

  lemma AskEachOneMore(s: Dht, qtype: QueryType, qs: seq<Query>, q: Query, now: int)
    ensures AskEach(s, qtype, qs + [q], now)
         == OpenNew(AskEach(s, qtype, qs, now), q.addr, qtype, q.infoHash, q.target, None, now)
  {
    assert (qs + [q])[..|qs + [q]| - 1] == qs;
  }

  lemma {:induction false} AskEachInTwo(s: Dht, qtype: QueryType, first: seq<Query>, second: seq<Query>, now: int)
    ensures AskEach(s, qtype, first + second, now) == AskEach(AskEach(s, qtype, first, now), qtype, second, now)
    decreases |second|
  {
    hide OpenNew;
    if second == [] {
      assert first + second == first;
    } else {
      var front, q := second[..|second| - 1], second[|second| - 1];
      AskEachInTwo(s, qtype, first, front, now);
      assert first + second == (first + front) + [q] && second == front + [q];
      AskEachOneMore(s, qtype, first + front, q, now);
      AskEachOneMore(AskEach(s, qtype, first, now), qtype, front, q, now);
    }
  }

  // ----- sending one

  ghost predicate Truthful(s: Dht) {
    Issued(s.trans, s.drawn, MAX_CURSOR) && Transactions.Honest(s.trans)
  }

  /** All that was in flight still is. */
  ghost predicate Keeps(s: State, s': State) {
    forall u :: u in s.live ==> u in s'.live && s'.live[u] == s.live[u]
  }

  lemma OneAsked(s: Dht, qtype: QueryType, q: Query, now: int)
    requires Truthful(s) && s.drawn < MAX_CURSOR
    ensures
      var s' := OpenNew(s, q.addr, qtype, q.infoHash, q.target, None, now);
      && Truthful(s') && s'.drawn == s.drawn + 1 && Keeps(s.trans, s'.trans)
      && |s'.trans.live| == |s.trans.live| + Room(s.trans, 1)
      && (!Accepts(s.trans) ==> s'.trans.live == s.trans.live && s'.trans.index == s.trans.index)
  {
    hide Int2Bytes, IsIssued, Transactions.Honest;
    var t := Transaction(NextId(s.trans, MAX_CURSOR), q.addr, qtype, q.infoHash, q.target, None, false, now, 0);
    NextIdIsFresh(s.trans, s.drawn, MAX_CURSOR);
    OpenKeepsIssued(s.trans, s.drawn, MAX_CURSOR, t);
    OpenIsHonest(s.trans, s.drawn, t);
    var s' := OpenNew(s, q.addr, qtype, q.infoHash, q.target, None, now);
    assert Accepts(s.trans) ==> s'.trans.live.Keys == s.trans.live.Keys + {t.tid};
  }

  /** A query sent while another of its kind is in flight makes two. */
  lemma AskedAgain(s: Dht, qtype: QueryType, q: Query, now: int)
    requires Truthful(s) && s.drawn < MAX_CURSOR && Accepts(s.trans) && InFlight(s.trans, qtype, q.addr)
    ensures !OnePerAddr(OpenNew(s, q.addr, qtype, q.infoHash, q.target, None, now).trans, qtype)
  {
    hide Int2Bytes, IsIssued, Transactions.Honest;
    NextIdIsFresh(s.trans, s.drawn, MAX_CURSOR);
    var s' := OpenNew(s, q.addr, qtype, q.infoHash, q.target, None, now);
    var u :| u in s.trans.live && KeyOf(s.trans.live[u]) == Key(qtype, q.addr);
    var v := NextId(s.trans, MAX_CURSOR);
    assert u in s'.trans.live && v in s'.trans.live && KeyOf(s'.trans.live[u]) == KeyOf(s'.trans.live[v]);
  }

  lemma AskedIsInFlight(s: Dht, qtype: QueryType, q: Query, now: int)
    requires Accepts(s.trans)
    ensures InFlight(OpenNew(s, q.addr, qtype, q.infoHash, q.target, None, now).trans, qtype, q.addr)
  {
    hide NextId;
    var s', tid := OpenNew(s, q.addr, qtype, q.infoHash, q.target, None, now), NextId(s.trans, MAX_CURSOR);
    assert tid in s'.trans.live && KeyOf(s'.trans.live[tid]) == Key(qtype, q.addr);
  }

  /** A query sent where none of its kind is known leaves the index exact, and says nothing of others. */
  lemma AskedOnce(s: Dht, qtype: QueryType, q: Query, now: int)
    requires Truthful(s) && s.drawn < MAX_CURSOR && Indexed(s.trans, qtype) && !Querying(s, qtype, q.addr)
    ensures
      var s' := OpenNew(s, q.addr, qtype, q.infoHash, q.target, None, now);
      && Indexed(s'.trans, qtype)
      && forall a :: a != q.addr && !Querying(s, qtype, a) ==> !Querying(s', qtype, a)
  {
    hide Int2Bytes, IsIssued, Transactions.Honest, Indexed;
    var t := Transaction(NextId(s.trans, MAX_CURSOR), q.addr, qtype, q.infoHash, q.target, None, false, now, 0);
    NextIdIsFresh(s.trans, s.drawn, MAX_CURSOR);
    OpenKeepsIndexed(s.trans, s.drawn, MAX_CURSOR, t, qtype);
  }

  // ----- sending many

  lemma {:induction false} ManyAsked(s: Dht, qtype: QueryType, qs: seq<Query>, now: int)
    requires Truthful(s) && s.drawn + |qs| <= MAX_CURSOR && |s.trans.live| <= MAX_TRANSACTIONS
    ensures
      var s' := AskEach(s, qtype, qs, now);
      && Truthful(s') && s'.drawn == s.drawn + |qs| && Keeps(s.trans, s'.trans)
      && |s'.trans.live| == |s.trans.live| + Room(s.trans, |qs|)
      && (!Accepts(s.trans) ==> s'.trans.live == s.trans.live && s'.trans.index == s.trans.index)
  {
    hide Truthful, OpenNew;
    if qs != [] {
      var front, q := qs[..|qs| - 1], qs[|qs| - 1];
      ManyAsked(s, qtype, front, now);
      OneAsked(AskEach(s, qtype, front, now), qtype, q, now);
    }
  }

  lemma {:induction false} ManyAskedOnce(s: Dht, qtype: QueryType, qs: seq<Query>, now: int)
    requires Truthful(s) && s.drawn + |qs| <= MAX_CURSOR && |s.trans.live| <= MAX_TRANSACTIONS
    requires Indexed(s.trans, qtype) && Unasked(s, qtype, QueryAddrs(qs))
    ensures
      var s' := AskEach(s, qtype, qs, now);
      && Indexed(s'.trans, qtype)
      && forall a :: a !in QueryAddrs(qs) && !Querying(s, qtype, a) ==> !Querying(s', qtype, a)
  {
    hide Truthful, OpenNew, Querying, Indexed;
    if qs != [] {
      var front, q := qs[..|qs| - 1], qs[|qs| - 1];
      var addrs := QueryAddrs(qs);
      assert QueryAddrs(front) == addrs[..|addrs| - 1];
      assert addrs == QueryAddrs(front) + [q.addr];
      assert q.addr == addrs[|front|] && q.addr in addrs;
      assert q.addr !in QueryAddrs(front) by {
        assert forall i :: 0 <= i < |front| ==> QueryAddrs(front)[i] == addrs[i];
      }
      ManyAsked(s, qtype, front, now);
      ManyAskedOnce(s, qtype, front, now);
      AskedOnce(AskEach(s, qtype, front, now), qtype, q, now);
    }
  }

  /** Two of a kind stay two. */
  lemma StillTwo(s: State, s': State, qtype: QueryType)
    requires !OnePerAddr(s, qtype) && Keeps(s, s')
    ensures !OnePerAddr(s', qtype)
  {
  }

  lemma StillInFlight(s: State, s': State, qtype: QueryType, addr: Addr)
    requires InFlight(s, qtype, addr) && Keeps(s, s')
    ensures InFlight(s', qtype, addr)
  {
    var u :| u in s.live && KeyOf(s.live[u]) == Key(qtype, addr);
    assert u in s'.live && KeyOf(s'.live[u]) == Key(qtype, addr);
  }

  /** If by the time of the query at `j` its kind is in flight, there are two in the end. */
  lemma AskedTwice(s: Dht, qtype: QueryType, qs: seq<Query>, now: int, j: nat)
    requires Truthful(s) && s.drawn + |qs| <= MAX_CURSOR && |s.trans.live| + |qs| <= MAX_TRANSACTIONS
    requires j < |qs| && InFlight(AskEach(s, qtype, qs[..j], now).trans, qtype, qs[j].addr)
    ensures !OnePerAddr(AskEach(s, qtype, qs, now).trans, qtype)
  {
    hide Truthful, OpenNew, InFlight, OnePerAddr, Keeps;
    var s1 := AskEach(s, qtype, qs[..j], now);
    ManyAsked(s, qtype, qs[..j], now);
    AskedAgain(s1, qtype, qs[j], now);
    AskEachOneMore(s, qtype, qs[..j], qs[j], now);
    assert qs[..j] + [qs[j]] == qs[..j + 1];
    var s2 := AskEach(s, qtype, qs[..j + 1], now);
    OneAsked(s1, qtype, qs[j], now);
    ManyAsked(s2, qtype, qs[j + 1..], now);
    AskEachInTwo(s, qtype, qs[..j + 1], qs[j + 1..], now);
    assert qs == qs[..j + 1] + qs[j + 1..];
    StillTwo(s2.trans, AskEach(s, qtype, qs, now).trans, qtype);
  }

  /** By the time of the query at `j`, the one at `i` is in flight, and all that was before. */
  lemma EarlierIsInFlight(s: Dht, qtype: QueryType, qs: seq<Query>, now: int, i: nat, j: nat)
    requires Truthful(s) && s.drawn + |qs| <= MAX_CURSOR && |s.trans.live| + |qs| <= MAX_TRANSACTIONS
    requires i < j < |qs|
    ensures InFlight(AskEach(s, qtype, qs[..j], now).trans, qtype, qs[i].addr)
  {
    hide Truthful, OpenNew, InFlight, Keeps;
    var s1 := AskEach(s, qtype, qs[..i], now);
    ManyAsked(s, qtype, qs[..i], now);
    AskedIsInFlight(s1, qtype, qs[i], now);
    AskEachOneMore(s, qtype, qs[..i], qs[i], now);
    assert qs[..i] + [qs[i]] == qs[..i + 1];
    var s2 := AskEach(s, qtype, qs[..i + 1], now);
    OneAsked(s1, qtype, qs[i], now);
    ManyAsked(s2, qtype, qs[i + 1..j], now);
    AskEachInTwo(s, qtype, qs[..i + 1], qs[i + 1..j], now);
    assert qs[..j] == qs[..i + 1] + qs[i + 1..j];
    StillInFlight(s2.trans, AskEach(s, qtype, qs[..j], now).trans, qtype, qs[i].addr);
  }

  lemma FittingAskedExactly(s: Dht, qtype: QueryType, qs: seq<Query>, now: int)
    requires Truthful(s) && s.drawn + |qs| <= MAX_CURSOR && |s.trans.live| + |qs| <= MAX_TRANSACTIONS
    requires Indexed(s.trans, qtype)
    ensures OnePerAddr(AskEach(s, qtype, qs, now).trans, qtype) <==> Unasked(s, qtype, QueryAddrs(qs))
    ensures Unasked(s, qtype, QueryAddrs(qs)) ==> Indexed(AskEach(s, qtype, qs, now).trans, qtype)
  {
    hide OnePerAddr, InFlight, Indexed, Keeps, Issued, IsIssued, AskEach;
    var addrs := QueryAddrs(qs);
    if Unasked(s, qtype, addrs) {
      ManyAskedOnce(s, qtype, qs, now);
      IndexedIsOnePerAddr(AskEach(s, qtype, qs, now).trans, qtype);
    } else if i, j :| 0 <= i < j < |addrs| && addrs[i] == addrs[j] {
      EarlierIsInFlight(s, qtype, qs, now, i, j);
      AskedTwice(s, qtype, qs, now, j);
    } else {
      var j :| 0 <= j < |addrs| && Querying(s, qtype, addrs[j]);
      ManyAsked(s, qtype, qs[..j], now);
      IndexFindsThem(s.trans, qtype, addrs[j]);
      StillInFlight(s.trans, AskEach(s, qtype, qs[..j], now).trans, qtype, addrs[j]);
      AskedTwice(s, qtype, qs, now, j);
    }
  }

  lemma AddrsOfFirst(qs: seq<Query>, n: nat)
    requires n <= |qs|
    ensures QueryAddrs(qs[..n]) == QueryAddrs(qs)[..n]
  {
  }

  lemma SameTables(s: State, s': State, qtype: QueryType)
    requires s'.live == s.live && s'.index == s.index
    ensures OnePerAddr(s', qtype) <==> OnePerAddr(s, qtype)
    ensures Indexed(s', qtype) <==> Indexed(s, qtype)
  {
  }

  /**
   * Of the queries, those count for which there is room: in the end there is one per address exactly
   * if their addresses are distinct and none of them was being asked.
   */
  lemma AskedExactly(s: Dht, qtype: QueryType, qs: seq<Query>, now: int)
    requires Truthful(s) && s.drawn + |qs| <= MAX_CURSOR && |s.trans.live| <= MAX_TRANSACTIONS
    requires Indexed(s.trans, qtype)
    ensures
      var s', fitting := AskEach(s, qtype, qs, now), QueryAddrs(qs)[..Room(s.trans, |qs|)];
      && (OnePerAddr(s'.trans, qtype) <==> Unasked(s, qtype, fitting))
      && (Unasked(s, qtype, fitting) ==> Indexed(s'.trans, qtype))
  {
    hide Truthful, AskEach, Unasked, OnePerAddr, Indexed, Keeps, QueryAddrs;
    var n := Room(s.trans, |qs|);
    var s1 := AskEach(s, qtype, qs[..n], now);
    AddrsOfFirst(qs, n);
    FittingAskedExactly(s, qtype, qs[..n], now);
    ManyAsked(s, qtype, qs[..n], now);
    ManyAsked(s1, qtype, qs[n..], now);
    AskEachInTwo(s, qtype, qs[..n], qs[n..], now);
    assert qs == qs[..n] + qs[n..];
    if n == |qs| {
      assert qs[..n] == qs;
    } else {
      SameTables(s1.trans, AskEach(s, qtype, qs, now).trans, qtype);
    }
  }

  // ----- joining and refreshing

  function JoinQueries(cfg: Config, prime: seq<Addr>): seq<Query> {
    seq(|prime|, i requires 0 <= i < |prime| => Query(prime[i], None, Some(cfg.selfId)))
  }

  function TaskQueries(tasks: seq<Task>): seq<Query> {
    seq(|tasks|, i requires 0 <= i < |tasks| => Query(tasks[i].addr, None, Some(tasks[i].target)))
  }

  lemma {:induction false} JoinAsksEach(s: Dht, cfg: Config, prime: seq<Addr>, now: int)
    ensures Join(s, cfg, prime, now) == AskEach(s, FindNode, JoinQueries(cfg, prime), now)
  {
    hide OpenNew;
    if prime != [] {
      var front := prime[..|prime| - 1];
      JoinAsksEach(s, cfg, front, now);
      var qs := JoinQueries(cfg, prime);
      assert qs[..|qs| - 1] == JoinQueries(cfg, front);
    }
  }

  lemma {:induction false} TasksAskEach(s: Dht, tasks: seq<Task>, now: int)
    ensures AskAll(s, tasks, now) == AskEach(s, FindNode, TaskQueries(tasks), now)
  {
    hide OpenNew;
    if tasks != [] {
      var front := tasks[..|tasks| - 1];
      TasksAskEach(s, front, now);
      var qs := TaskQueries(tasks);
      assert qs[..|qs| - 1] == TaskQueries(front);
    }
  }

  /** Until the ids wrap around, every search in flight is the one the index has. */
  ghost predicate Finds(s: Dht) {
    s.drawn <= MAX_CURSOR ==> Indexed(s.trans, FindNode)
  }

  /**
   * Joining keeps to one search per address exactly if, of the first contacts there is room for, none
   * is listed twice and none is being searched already.
   */
  lemma JoinKeepsToOneExactly(s: Dht, cfg: Config, prime: seq<Addr>, now: int)
    requires Safe(s, cfg) && Finds(s) && Join(s, cfg, prime, now).drawn <= MAX_CURSOR
    ensures
      var s', fitting := Join(s, cfg, prime, now), prime[..Room(s.trans, |prime|)];
      && (OnePerAddr(s'.trans, FindNode) <==> Unasked(s, FindNode, fitting))
      && (Unasked(s, FindNode, fitting) ==> Indexed(s'.trans, FindNode))
  {
    hide AskEach, OnePerAddr, Indexed, Issued, Join, ValidTable, Logged;
    JoinAsksEach(s, cfg, prime, now);
    assert QueryAddrs(JoinQueries(cfg, prime)) == prime;
    AskEachDraws(s, FindNode, JoinQueries(cfg, prime), now);
    AskedExactly(s, FindNode, JoinQueries(cfg, prime), now);
  }

  lemma {:induction false} AskEachDraws(s: Dht, qtype: QueryType, qs: seq<Query>, now: int)
    ensures AskEach(s, qtype, qs, now).drawn == s.drawn + |qs|
  {
    if qs != [] {
      AskEachDraws(s, qtype, qs[..|qs| - 1], now);
    }
  }

  /**
   * A refresh, which only happens with nothing in flight, keeps to one search per address exactly if
   * the addresses of the tasks there is room for are distinct.
   */
  lemma RefreshKeepsToOneExactly(s: Dht, cfg: Config, tasks: seq<Task>, now: int)
    requires Safe(s, cfg) && s.trans.live == map[] && Refresh(s, cfg, tasks, now).drawn <= MAX_CURSOR
    ensures
      var s', fitting := Refresh(s, cfg, tasks, now), TaskAddrs(tasks)[..Room(s.trans, |tasks|)];
      && (OnePerAddr(s'.trans, FindNode) <==> NoDup(fitting))
      && (NoDup(fitting) ==> Indexed(s'.trans, FindNode))
  {
    hide AskEach, OnePerAddr, Issued, AskAll, ValidTable, Logged, Drop;
    TasksAskEach(s, tasks, now);
    assert QueryAddrs(TaskQueries(tasks)) == TaskAddrs(tasks);
    AskEachDraws(s, FindNode, TaskQueries(tasks), now);
    AskedExactly(s, FindNode, TaskQueries(tasks), now);
  }

  // ----- everything else keeps to one search per address

  lemma OpenFinds(s: Dht, cfg: Config, addr: Addr, qtype: QueryType, infoHash: Option<Id>, target: Option<Id>,
                  port: Option<bv16>, now: int)
    requires Safe(s, cfg) && Finds(s) && (qtype == FindNode ==> !Querying(s, FindNode, addr))
    ensures Finds(OpenNew(s, addr, qtype, infoHash, target, port, now))
  {
    hide Bounded, Logged, Issued, Indexed, Int2Bytes, Open;
    var t := Transaction(NextId(s.trans, MAX_CURSOR), addr, qtype, infoHash, target, port, false, now, 0);
    if s.drawn < MAX_CURSOR {
      OpenKeepsIndexed(s.trans, s.drawn, MAX_CURSOR, t, FindNode);
    }
  }

  lemma OpenUnlessFinds(s: Dht, cfg: Config, addr: Addr, qtype: QueryType, infoHash: Option<Id>, target: Option<Id>,
                        port: Option<bv16>, now: int)
    requires Safe(s, cfg) && Finds(s)
    ensures Finds(OpenUnless(s, addr, qtype, infoHash, target, port, now))
  {
    hide Safe, Finds, OpenNew, Querying;
    if !Querying(s, qtype, addr) {
      OpenFinds(s, cfg, addr, qtype, infoHash, target, port, now);
    }
  }

  lemma CloseFinds(s: Dht, tid: Tid)
    requires Finds(s)
    ensures Finds(Close(s, tid))
  {
  }

  lemma LearnFinds(s: Dht, cfg: Config, c: Contact, infoHash: Option<Id>, target: Option<Id>, now: int)
    requires Safe(s, cfg) && Finds(s)
    ensures Finds(Learn(s, cfg, c, infoHash, target, now))
  {
    hide Safe, Indexed, OpenUnless, Blocked, Keep;
    var s1 := Hear(s, cfg, c.id, c.addr, now);
    HearKeeps(s, cfg, c.id, c.addr, now);
    var s2 := s1;
    if infoHash.Some? {
      OpenUnlessKeeps(s1, cfg, c.addr, GetPeers, infoHash, None, None, now);
      OpenUnlessFinds(s1, cfg, c.addr, GetPeers, infoHash, None, None, now);
      s2 := OpenUnless(s1, c.addr, GetPeers, infoHash, None, None, now);
    }
    OpenUnlessFinds(s2, cfg, c.addr, FindNode, None, target, None, now);
  }

  lemma {:induction false} LearnAllFinds(s: Dht, cfg: Config, cs: seq<Contact>, infoHash: Option<Id>,
                                         target: Option<Id>, now: int)
    requires Safe(s, cfg) && Finds(s)
    ensures Finds(LearnAll(s, cfg, cs, infoHash, target, now))
  {
    hide Safe, Finds, Learn;
    if cs != [] {
      var front := cs[..|cs| - 1];
      LearnAllKeeps(s, cfg, front, infoHash, target, now);
      LearnAllFinds(s, cfg, front, infoHash, target, now);
      LearnFinds(LearnAll(s, cfg, front, infoHash, target, now), cfg, cs[|cs| - 1], infoHash, target, now);
    }
  }

  lemma SettleFinds(s: Dht, cfg: Config, t: Option<Transaction>, tid: Tid, r: DhtMachine.Fields, now: int)
    requires Safe(s, cfg) && Finds(s)
    ensures Finds(Settle(s, cfg, t, tid, r, now))
  {
    hide Safe, Indexed, OpenNew, StoreValues, ListAt, BytesAt;
    var s1 := TakeValues(s, cfg, InfoHashOf(t), tid, r);
    TakeValuesKeeps(s, cfg, InfoHashOf(t), tid, r);
    TakeValuesFinds(s, cfg, InfoHashOf(t), tid, r);
    if t.Some? {
      var s2 := AnnounceBack(s1, t.value, tid, r, now);
      CloseFinds(s1, tid);
      OpenFinds(s1, cfg, t.value.addr, AnnouncePeer, t.value.infoHash, None, None, now);
      CloseFinds(OpenNew(s1, t.value.addr, AnnouncePeer, t.value.infoHash, None, None, now), tid);
      CloseFinds(s2, tid);
    }
  }

  lemma TakeValuesFinds(s: Dht, cfg: Config, ih: Option<Id>, tid: Tid, r: DhtMachine.Fields)
    requires Finds(s)
    ensures Finds(TakeValues(s, cfg, ih, tid, r))
  {
    hide StoreValues, ListAt;
  }

  lemma ReceiveFinds(s: Dht, cfg: Config, data: Slice, addr: Addr, tokenValid: bool, now: int)
    requires Safe(s, cfg) && Finds(s)
    ensures Finds(Receive(s, cfg, data, addr, tokenValid, now))
  {
    hide Safe, Indexed, Request, Response, Close, ReadPacket, Blocked;
    match ReadPacket(data) {
      case Some(Message(tid, kind, m)) =>
        RequestLeavesQueries(s, cfg, m, addr, tokenValid, now);
        ResponseFinds(s, cfg, tid, m, addr, now);
        CloseFinds(s, tid);
      case None =>
    }
  }

  lemma ResponseFinds(s: Dht, cfg: Config, tid: Tid, m: DhtMachine.Fields, addr: Addr, now: int)
    requires Safe(s, cfg) && Finds(s)
    ensures Finds(Response(s, cfg, tid, m, addr, now))
  {
    hide Safe, Finds, LearnAll, Settle, DictAt, BytesAt, IdAt, DecodeContacts;
    match DictAt(m, Words.R) {
      case Some(r) =>
        var t := if tid in s.trans.live then Some(s.trans.live[tid]) else None;
        var nodes := BytesAt(r, Words.NODES);
        var s1 := s;
        if nodes.Some? {
          var cs := DecodeContacts(nodes.value);
          LearnAllKeeps(s, cfg, cs, InfoHashOf(t), SearchTargetOf(t), now);
          LearnAllFinds(s, cfg, cs, InfoHashOf(t), SearchTargetOf(t), now);
          s1 := LearnAll(s, cfg, cs, InfoHashOf(t), SearchTargetOf(t), now);
        }
        SettleFinds(s1, cfg, t, tid, r, now);
      case None =>
    }
  }

  lemma {:induction false} PingAllFinds(s: Dht, cfg: Config, addrs: seq<Addr>, now: int)
    requires Safe(s, cfg) && Finds(s)
    ensures Finds(PingAll(s, addrs, now))
  {
    hide Safe, Finds, OpenUnless;
    if addrs != [] {
      var front := addrs[..|addrs| - 1];
      PingAllKeeps(s, cfg, front, now);
      PingAllFinds(s, cfg, front, now);
      OpenUnlessFinds(PingAll(s, front, now), cfg, addrs[|addrs| - 1], Ping, None, None, None, now);
    }
  }

  lemma {:induction false} SearchFinds(s: Dht, cfg: Config, nodes: seq<Node>, ih: Id, port: Option<bv16>, now: int)
    requires Safe(s, cfg) && Finds(s)
    ensures Finds(SearchFrom(s, nodes, ih, port, now))
  {
    hide Safe, Finds, OpenUnless;
    if nodes != [] {
      var front := nodes[..|nodes| - 1];
      SearchKeeps(s, cfg, front, ih, port, now);
      SearchFinds(s, cfg, front, ih, port, now);
      OpenUnlessFinds(SearchFrom(s, front, ih, port, now), cfg, nodes[|nodes| - 1].addr, GetPeers, Some(ih), None,
                      port, now);
    }
  }

  lemma SweepFinds(s: Dht, cfg: Config, f: Findings, now: int)
    requires Safe(s, cfg) && Finds(s)
    ensures Finds(AfterSweep(s, cfg, f, now))
  {
    hide Safe, TimesOut, SentAgain, GiveUpAll;
    GiveUpAllKeeps(s, cfg, f.dropped, now);
    var s' := AfterSweep(s, cfg, f, now);
    assert forall tid :: tid in s'.trans.live ==>
             tid in s.trans.live && KeyOf(s'.trans.live[tid]) == KeyOf(s.trans.live[tid]);
  }

  // ----- steps and runs

  ghost predicate RefreshesOnce(s: Dht, tasks: seq<Task>) {
    s.trans.live == map[] ==> NoDup(TaskAddrs(tasks)[..Room(s.trans, |tasks|)])
  }

  /** What a step must not do: search an address twice, or one that is being searched. */
  ghost predicate SearchesOnce(s: Dht, cfg: Config, e: Timed) {
    match e.event
    case Ticked(f) =>
      if s.table.cache == map[] then Unasked(s, FindNode, f.prime[..Room(s.trans, |f.prime|)])
      else RefreshesOnce(AfterSweep(s, cfg, f, e.now), f.tasks)
    case _ => true
  }

  lemma TickKeepsToOneExactly(s: Dht, cfg: Config, f: Findings, now: int)
    requires Safe(s, cfg) && Finds(s) && s.table.cache != map[] && Tick(s, cfg, f, now).drawn <= MAX_CURSOR
    ensures
      var once := RefreshesOnce(AfterSweep(s, cfg, f, now), f.tasks);
      && (OnePerAddr(Tick(s, cfg, f, now).trans, FindNode) <==> once)
      && (once ==> Indexed(Tick(s, cfg, f, now).trans, FindNode))
  {
    hide Safe, SweepOut, Refresh, PingAll, Drop, OnePerAddr, Indexed, NoDup, IsIssued;
    var swept, refreshed := AfterSweep(s, cfg, f, now), AfterRefresh(s, cfg, f, now);
    var pinged := AfterPings(s, cfg, f, now);
    StagesKeep(s, cfg, f, now);
    SweepFinds(s, cfg, f, now);
    SweepDrawsNothing(s, cfg, f, now);
    RefreshExtends(swept, cfg, f.tasks, now);
    PingAllExtends(refreshed, cfg, f.silent, now);
    assert Tick(s, cfg, f, now).trans == pinged.trans;
    if swept.trans.live == map[] {
      RefreshKeepsToOneExactly(swept, cfg, f.tasks, now);
    } else {
      NoRefresh(swept, cfg, f.tasks, now);
    }
    if RefreshesOnce(swept, f.tasks) {
      PingAllFinds(refreshed, cfg, f.silent, now);
      IndexedIsOnePerAddr(pinged.trans, FindNode);
    } else {
      StillTwo(refreshed.trans, pinged.trans, FindNode);
    }
  }

  lemma NoRefresh(s: Dht, cfg: Config, tasks: seq<Task>, now: int)
    requires s.trans.live != map[]
    ensures Refresh(s, cfg, tasks, now) == s
  {
  }

  /** A step keeps to one search per address exactly if it is none of those. */
  lemma StepKeepsToOneExactly(s: Dht, cfg: Config, e: Timed)
    requires Safe(s, cfg) && Finds(s) && Next(s, cfg, e).drawn <= MAX_CURSOR
    ensures OnePerAddr(Next(s, cfg, e).trans, FindNode) <==> SearchesOnce(s, cfg, e)
    ensures SearchesOnce(s, cfg, e) ==> Finds(Next(s, cfg, e))
  {
    hide Safe, Receive, Tick, SearchFrom, AfterSweep, OnePerAddr, Indexed, Unasked, RefreshesOnce;
    var s' := Next(s, cfg, e);
    match e.event {
      case Received(data, addr, tokenValid) =>
        ReceiveFinds(s, cfg, data, addr, tokenValid, e.now);
        IndexedIsOnePerAddr(s'.trans, FindNode);
      case Ticked(f) =>
        if s.table.cache == map[] {
          JoinTick(s, cfg, f, e.now);
          JoinKeepsToOneExactly(s, cfg, f.prime, e.now);
        } else {
          TickKeepsToOneExactly(s, cfg, f, e.now);
        }
      case Searched(ih, port, nodes) =>
        SearchFinds(s, cfg, nodes, ih, port, e.now);
        IndexedIsOnePerAddr(s'.trans, FindNode);
    }
  }

  lemma JoinTick(s: Dht, cfg: Config, f: Findings, now: int)
    requires s.table.cache == map[]
    ensures Tick(s, cfg, f, now) == Join(s, cfg, f.prime, now)
  {
  }

  ghost predicate OneAfter(cfg: Config, start: int, run: seq<Timed>, i: nat)
    requires i <= |run|
  {
    OnePerAddr(Reached(cfg, start, run[..i]).trans, FindNode)
  }

  ghost predicate AlwaysOne(cfg: Config, start: int, run: seq<Timed>) {
    forall i :: 0 <= i <= |run| ==> OneAfter(cfg, start, run, i)
  }

  ghost predicate AlwaysSearchesOnce(cfg: Config, start: int, run: seq<Timed>) {
    forall i :: 0 <= i < |run| ==> SearchesOnce(Reached(cfg, start, run[..i]), cfg, run[i])
  }

  /**
   * Until the ids wrap around, a run has at most one search in flight per address, all along, if and
   * only if no join and no refresh in it searches an address twice or one that is being searched.
   */
  lemma {:induction false} RunKeepsToOneExactly(cfg: Config, start: int, run: seq<Timed>)
    requires Reached(cfg, start, run).drawn <= MAX_CURSOR
    ensures AlwaysOne(cfg, start, run) <==> AlwaysSearchesOnce(cfg, start, run)
    ensures AlwaysOne(cfg, start, run) ==> Finds(Reached(cfg, start, run))
  {
    hide Safe, Next, OnePerAddr, SearchesOnce, Indexed;
    if run == [] {
      NoSearchYet(start);
      assert forall i :: 0 <= i <= |run| ==> run[..i] == [];
    } else {
      var front, e := run[..|run| - 1], run[|run| - 1];
      var s := Reached(cfg, start, front);
      RunDraws(cfg, start, run, |front|);
      assert run[..|run|] == run && run[..|front|] == front;
      assert forall i :: 0 <= i <= |front| ==> front[..i] == run[..i];
      RunKeepsToOneExactly(cfg, start, front);
      ReachedIsSafe(cfg, start, front);
      AlwaysOneLonger(cfg, start, run);
      AlwaysOnceLonger(cfg, start, run);
      if AlwaysOne(cfg, start, front) {
        StepKeepsToOneExactly(s, cfg, e);
      }
    }
  }

  lemma NoSearchYet(start: int)
    ensures OnePerAddr(Initial(start).trans, FindNode) && Finds(Initial(start))
  {
  }

  lemma OneAfterPrefix(cfg: Config, start: int, run: seq<Timed>, i: nat)
    requires i < |run|
    ensures OneAfter(cfg, start, run[..|run| - 1], i) <==> OneAfter(cfg, start, run, i)
  {
    hide Reached, OnePerAddr;
    assert run[..|run| - 1][..i] == run[..i];
  }

  lemma OneInTheEnd(cfg: Config, start: int, run: seq<Timed>)
    ensures OneAfter(cfg, start, run, |run|) <==> OnePerAddr(Reached(cfg, start, run).trans, FindNode)
  {
    hide Reached, OnePerAddr;
    assert run[..|run|] == run;
  }

  lemma AlwaysOneLonger(cfg: Config, start: int, run: seq<Timed>)
    requires run != []
    ensures AlwaysOne(cfg, start, run) <==>
            AlwaysOne(cfg, start, run[..|run| - 1]) && OnePerAddr(Reached(cfg, start, run).trans, FindNode)
  {
    hide OneAfter, Reached, OnePerAddr;
    var front := run[..|run| - 1];
    forall i | 0 <= i < |run|
      ensures OneAfter(cfg, start, front, i) <==> OneAfter(cfg, start, run, i)
    {
      OneAfterPrefix(cfg, start, run, i);
    }
    OneInTheEnd(cfg, start, run);
    if AlwaysOne(cfg, start, run) {
      assert OneAfter(cfg, start, run, |run|);
    }
  }

  lemma AlwaysOnceLonger(cfg: Config, start: int, run: seq<Timed>)
    requires run != []
    ensures AlwaysSearchesOnce(cfg, start, run) <==>
            && AlwaysSearchesOnce(cfg, start, run[..|run| - 1])
            && SearchesOnce(Reached(cfg, start, run[..|run| - 1]), cfg, run[|run| - 1])
  {
    hide Reached, SearchesOnce;
    var front := run[..|run| - 1];
    assert forall i :: 0 <= i < |front| ==> front[..i] == run[..i] && front[i] == run[i];
  }

  // ----- a run in which two searches meet

  /** Joining twice asks the same first contact twice: searches for nodes are not kept to one. */
  lemma TwoJoinsAskTwice(cfg: Config, start: int, addr: Addr)
    ensures
      var join := Ticked(Findings([addr], [], [], [], []));
      var run := [At(0, join), At(1, join)];
      && CanRun(cfg, start, run)
      && !OnePerAddr(Reached(cfg, start, run).trans, FindNode)
  {
    hide OpenNew;
    var f := Findings([addr], [], [], [], []);
    var run := [At(0, Ticked(f)), At(1, Ticked(f))];
    var s0 := Initial(start);
    assert run[..0] == [] && run[..1] == [At(0, Ticked(f))] && run[..1][..0] == [];
    assert Reached(cfg, start, run[..0]) == s0;
    JoinOne(s0, cfg, addr, 0);
    var s1 := Join(s0, cfg, [addr], 0);
    assert Reached(cfg, start, run[..1]) == s1;
    JoinOne(s1, cfg, addr, 1);
    var s2 := Join(s1, cfg, [addr], 1);
    assert Reached(cfg, start, run) == s2;
    IdsDiffer(0, 1);
    TwoOpened(s0, cfg, addr);
  }

  lemma JoinOne(s: Dht, cfg: Config, addr: Addr, now: int)
    ensures Join(s, cfg, [addr], now) == OpenNew(s, addr, FindNode, None, Some(cfg.selfId), None, now)
    ensures Join(s, cfg, [addr], now).table == s.table
  {
    assert [addr][..0] == [];
    assert Join(s, cfg, [addr][..0], now) == s;
  }

  /** A query opened under a new id leaves two of its kind in flight. */
  lemma OpenedAgain(s: State, t: Transaction, u: Transaction)
    requires s.live == map[t.tid := t] && t.tid != u.tid && KeyOf(t) == KeyOf(u)
    ensures !OnePerAddr(Add(s, u), t.qtype)
  {
    var s' := Add(s, u);
    assert s'.live[t.tid] == t && s'.live[u.tid] == u;
  }

  lemma TwoOpened(s: Dht, cfg: Config, addr: Addr)
    requires s.trans == EMPTY
    ensures
      var s1 := OpenNew(s, addr, FindNode, None, Some(cfg.selfId), None, 0);
      !OnePerAddr(OpenNew(s1, addr, FindNode, None, Some(cfg.selfId), None, 1).trans, FindNode)
  {
    hide Int2Bytes, OnePerAddr;
    IdsDiffer(0, 1);
    var t := Transaction(Int2Bytes(0), addr, FindNode, None, Some(cfg.selfId), None, false, 0, 0);
    var u := Transaction(Int2Bytes(1), addr, FindNode, None, Some(cfg.selfId), None, false, 1, 0);
    var s1 := OpenNew(s, addr, FindNode, None, Some(cfg.selfId), None, 0);
    assert s1.trans == State(1, map[t.tid := t], map[KeyOf(t) := t.tid]);
    OpenedAgain(Advance(s1.trans), t, u);
  }

  // ----- the lookup offered to callers

  function Lookups(nodes: seq<Node>, ih: Id): seq<Query> {
    seq(|nodes|, i requires 0 <= i < |nodes| => Query(nodes[i].addr, Some(ih), None))
  }

  /** The public lookup asks its nodes one after another without consulting the index. */
  ghost function PublicSearch(s: Dht, nodes: seq<Node>, ih: Id, now: int): Dht {
    AskEach(s, GetPeers, Lookups(nodes, ih), now)
  }

  lemma NearestApart(nodes: seq<Node>, c: Cache, target: Id, size: nat)
    requires Nearest(nodes, c, target, size)
    ensures NoDup(QueryAddrs(Lookups(nodes, target)))
  {
    hide NearestFirst;
    forall i, j | 0 <= i < j < |nodes|
      ensures nodes[i].addr != nodes[j].addr
    {
      assert nodes[i] in nodes && nodes[j] in nodes;
    }
  }

  /**
   * The unguarded lookup keeps to one lookup per address exactly if none of the nodes there is room
   * for was being asked already.
   */
  lemma PublicSearchKeepsToOneExactly(cfg: Config, start: int, run: seq<Timed>, nodes: seq<Node>, ih: Id, now: int)
    requires Nearest(nodes, Reached(cfg, start, run).table.cache, ih, |Reached(cfg, start, run).table.cache|)
    requires Reached(cfg, start, run).drawn + |nodes| <= MAX_CURSOR
    ensures
      var s := Reached(cfg, start, run);
      OnePerAddr(PublicSearch(s, nodes, ih, now).trans, GetPeers) <==>
      forall i :: 0 <= i < Room(s.trans, |nodes|) ==> !Querying(s, GetPeers, nodes[i].addr)
  {
    hide Reached, Nearest, AskEach, Issued, ValidTable, Logged, Typed, OnePerAddr, Querying;
    ReachedIsSafe(cfg, start, run);
    var s := Reached(cfg, start, run);
    var qs := Lookups(nodes, ih);
    var n := Room(s.trans, |qs|);
    NearestApart(nodes, s.table.cache, ih, |s.table.cache|);
    AskedExactly(s, GetPeers, qs, now);
    var fitting := QueryAddrs(qs)[..n];
    assert forall i :: 0 <= i < n ==> fitting[i] == nodes[i].addr && fitting[i] in fitting;
  }
}
