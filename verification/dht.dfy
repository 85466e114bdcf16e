/**
 * The node as a state machine: what a packet, a tick and a lookup do to the routing table, the
 * transactions, the peers and the blacklist. What the code leaves to hash order, to chance and to the
 * name service is part of the event.
 */
module DhtMachine {
  import opened Bits
  import Words
  import opened Options
  import opened Nodes
  import opened Sequences
  import opened SortedMaps
  import opened Bencode
  import opened Compact
  import opened Tries
  import opened Tables
  import opened Pruning
  import opened Plans
  import opened Neighbors
  import opened Transactions
  import opened Backoff
  import Peers
  import Utf8

  datatype Config = Config(
    k: nat,
    bucketSize: nat,
    bucketExpiry: nat,
    nodeExpiry: nat,
    maxNodes: nat,
    refreshNodes: nat,
    tries: byte,
    blacklistSize: nat,
    crawl: bool,
    selfId: Id)

  const MAX_CURSOR := 0x7FFF_FFFF_FFFF_FFFF
  const TIMEOUT := 10
  const BLOCKED_FOR := 3600 * SECOND

  /** Beside the state proper, how many ids have been drawn and what happened to transactions. */
  datatype Dht = Dht(
    table: Table,
    trans: State,
    peers: Peers.Table,
    blacklist: map<Addr, int>,
    drawn: nat,
    log: seq<Backoff.Event>)

  type Fields = seq<Pair<BVal>>

  // ----- the parts of a step

  /** Draws an id and puts a new query in flight, if there is room for it. */
  ghost function OpenNew(s: Dht, addr: Addr, qtype: QueryType, infoHash: Option<Id>, target: Option<Id>,
                         port: Option<bv16>, now: int): Dht
  {
    var t := Transaction(NextId(s.trans, MAX_CURSOR), addr, qtype, infoHash, target, port, false, now, 0);
    s.(trans := Open(s.trans, MAX_CURSOR, t), drawn := s.drawn + 1, log := s.log + [Opened(t)])
  }

  ghost predicate Querying(s: Dht, qtype: QueryType, addr: Addr) {
    GetByIndex(s.trans, qtype, addr).Some?
  }

  /** The same, unless the index knows of such a query to the address. */
  ghost function OpenUnless(s: Dht, addr: Addr, qtype: QueryType, infoHash: Option<Id>, target: Option<Id>,
                            port: Option<bv16>, now: int): Dht
  {
    if Querying(s, qtype, addr) then s else OpenNew(s, addr, qtype, infoHash, target, port, now)
  }

  ghost function Close(s: Dht, tid: Tid): Dht {
    s.(trans := Finish(s.trans, tid), log := s.log + [Closed(tid)])
  }

  predicate Blocked(blacklist: map<Addr, int>, addr: Addr, now: int) {
    addr in blacklist && Elapsed(now, blacklist[addr]) < BLOCKED_FOR
  }

  function Block(blacklist: map<Addr, int>, max: nat, addr: Addr, now: int): map<Addr, int> {
    if |blacklist| >= max then blacklist else blacklist[addr := now]
  }

  function Unblock(blacklist: map<Addr, int>, now: int): map<Addr, int> {
    map addr | addr in blacklist && Elapsed(now, blacklist[addr]) < BLOCKED_FOR :: blacklist[addr]
  }

  /** Tables that are no tries do not occur. */
  ghost function Keep(t: Table, k: nat, node: Node, now: int): Table {
    if Shape(t.trie) then InsertInto(t, k, node, now) else t
  }

  ghost function Drop(t: Table, addrs: seq<Addr>, now: int): Table {
    if Shape(t.trie) then RemoveAddrs(t, addrs, now) else t
  }

  /** A node is inserted or updated while there is room for it. */
  ghost function Hear(s: Dht, cfg: Config, id: Id, addr: Addr, now: int): Dht {
    if |s.table.cache| < cfg.maxNodes then s.(table := Keep(s.table, cfg.bucketSize, Node(id, addr, now), now)) else s
  }

  // ----- packets

  datatype Message = Message(tid: Tid, kind: seq<byte>, fields: Fields)

  function BytesAt(m: Fields, key: seq<byte>): Option<seq<byte>> {
    match Get<BVal>(m, key)
    case Some(Bytes(b)) => Some(b)
    case _ => None
  }

  function DictAt(m: Fields, key: seq<byte>): Option<Fields> {
    match Get<BVal>(m, key)
    case Some(Dict(d)) => Some(d)
    case _ => None
  }

  function ListAt(m: Fields, key: seq<byte>): Option<seq<BVal>> {
    match Get<BVal>(m, key)
    case Some(List(l)) => Some(l)
    case _ => None
  }

  function IdAt(m: Fields, key: seq<byte>): Option<Id> {
    match BytesAt(m, key)
    case Some(b) => if |b| == ID_BYTES then Some(b) else None
    case None => None
  }

  /** Id, kind and dictionary of a message; text that is not UTF-8 is refused. */
  function ParseMessage(v: BVal): Option<Message> {
    match v
    case Dict(m) =>
      (match (BytesAt(m, Words.T), BytesAt(m, Words.Y))
       case (Some(tid), Some(kind)) => if Utf8.Valid(kind) then Some(Message(tid, kind, m)) else None
       case _ => None)
    case _ => None
  }

  function ReadPacket(data: Slice): Option<Message> {
    match Decode(data)
    case Ok(v, _) => ParseMessage(v)
    case Err(_) => None
  }

  /** A 64-bit integer cut to 32 bits with sign, and to a port if it is not negative. */
  function PortOf(n: int): bv16 {
    var low := n % 0x1_0000_0000;
    if low >= 0x8000_0000 then 0 else (low % 0x1_0000) as bv16
  }

  function AnnouncedPort(a: Fields, n: int, addr: Addr): bv16 {
    match Get<BVal>(a, Words.IMPLIED_PORT)
    case Some(Int(implied)) => if implied != 0 then addr.port else PortOf(n)
    case _ => PortOf(n)
  }

  /** What an announcement asks to store: nothing without all its keys. */
  function Announced(a: Fields, addr: Addr): Option<(seq<byte>, Peers.Peer)> {
    match (BytesAt(a, Words.INFO_HASH), Get<BVal>(a, Words.PORT), BytesAt(a, Words.TOKEN))
    case (Some(ih), Some(Int(n)), Some(token)) =>
      Some((ih, Peers.Peer(addr.(port := AnnouncedPort(a, n, addr)), Some(Utf8.Lossy(token)))))
    case _ => None
  }

  /** Another node's query. Replies are not part of the state; the sender is remembered at the end. */
  ghost function Request(s: Dht, cfg: Config, m: Fields, addr: Addr, tokenValid: bool, now: int): Dht {
    match (BytesAt(m, Words.Q), DictAt(m, Words.A))
    case (Some(q), Some(a)) =>
      var id := IdAt(a, Words.ID);
      if !Utf8.Valid(q) || id.None? then s
      else if q == Words.PING then s
      else if q == Words.FIND_NODE then
        if !cfg.crawl && IdAt(a, Words.TARGET).None? then s else Hear(s, cfg, id.value, addr, now)
      else if q == Words.GET_PEERS then
        if IdAt(a, Words.INFO_HASH).None? then s else Hear(s, cfg, id.value, addr, now)
      else if q == Words.ANNOUNCE_PEER then
        var what := Announced(a, addr);
        if what.None? || !tokenValid || |what.value.0| != ID_BYTES then s
        else if cfg.crawl then Hear(s, cfg, id.value, addr, now)
        else Hear(s.(peers := Peers.Arrive(s.peers, cfg.k, what.value.0, what.value.1)), cfg, id.value, addr, now)
      else Hear(s, cfg, id.value, addr, now)
    case _ => s
  }

  /** A contact learnt from a response: inserted, and asked in turn what the response was about. */
  ghost function Learn(s: Dht, cfg: Config, c: Contact, infoHash: Option<Id>, target: Option<Id>, now: int): Dht {
    if Blocked(s.blacklist, c.addr, now) || |s.table.cache| >= cfg.maxNodes then s
    else
      var s1 := Hear(s, cfg, c.id, c.addr, now);
      var s2 := if infoHash.Some? then OpenUnless(s1, c.addr, GetPeers, infoHash, None, None, now) else s1;
      if target.Some? then OpenUnless(s2, c.addr, FindNode, None, target, None, now) else s2
  }

  ghost function LearnAll(s: Dht, cfg: Config, cs: seq<Contact>, infoHash: Option<Id>, target: Option<Id>,
                          now: int): Dht {
    if cs == [] then s
    else Learn(LearnAll(s, cfg, cs[..|cs| - 1], infoHash, target, now), cfg, cs[|cs| - 1], infoHash, target, now)
  }

  function StoreValue(t: Peers.Table, k: nat, ih: Id, v: BVal): Peers.Table {
    match v
    case Bytes(b) =>
      if |b| == ADDR_BYTES then Peers.Arrive(t, k, ih, Peers.Peer(DecodeIpPort(b).value, None)) else t
    case _ => t
  }

  function StoreValues(t: Peers.Table, k: nat, ih: Id, vs: seq<BVal>): Peers.Table {
    if vs == [] then t else StoreValue(StoreValues(t, k, ih, vs[..|vs| - 1]), k, ih, vs[|vs| - 1])
  }

  function InfoHashOf(t: Option<Transaction>): Option<Id> {
    if t.Some? then t.value.infoHash else None
  }

  function SearchTargetOf(t: Option<Transaction>): Option<Id> {
    if t.Some? && t.value.qtype == FindNode then t.value.target else None
  }

  predicate Announces(t: Transaction) {
    t.qtype == GetPeers && t.infoHash.Some? && t.announcePort.Some?
  }

  /** The peers a response lists are stored, and end the lookup. */
  ghost function TakeValues(s: Dht, cfg: Config, ih: Option<Id>, tid: Tid, r: Fields): Dht {
    var values := ListAt(r, Words.VALUES);
    if values.None? || ih.None? then s
    else Close(s.(peers := StoreValues(s.peers, cfg.k, ih.value, values.value)), tid)
  }

  /** A lookup made to announce ends, with an announcement if it brought a token. */
  ghost function AnnounceBack(s: Dht, t: Transaction, tid: Tid, r: Fields, now: int): Dht {
    if !Announces(t) then s
    else if BytesAt(r, Words.TOKEN).None? then Close(s, tid)
    else Close(OpenNew(s, t.addr, AnnouncePeer, t.infoHash, None, None, now), tid)
  }

  /** What follows the nodes of a response: its peers, an announcement, and the end of the transaction. */
  ghost function Settle(s: Dht, cfg: Config, t: Option<Transaction>, tid: Tid, r: Fields, now: int): Dht {
    var s1 := TakeValues(s, cfg, InfoHashOf(t), tid, r);
    var s2 := if t.Some? then AnnounceBack(s1, t.value, tid, r, now) else s1;
    if t.Some? && t.value.qtype == FindNode && t.value.infoHash.None? then Close(s2, tid) else s2
  }

  /** An answer to one of our queries; one from another address than was asked is ignored. */
  ghost function Response(s: Dht, cfg: Config, tid: Tid, m: Fields, addr: Addr, now: int): Dht {
    match DictAt(m, Words.R)
    case Some(r) =>
      var t := if tid in s.trans.live then Some(s.trans.live[tid]) else None;
      if IdAt(r, Words.ID).None? || (t.Some? && t.value.addr != addr) then s
      else
        var nodes := BytesAt(r, Words.NODES);
        var s1 :=
          if nodes.Some? then LearnAll(s, cfg, DecodeContacts(nodes.value), InfoHashOf(t), SearchTargetOf(t), now)
          else s;
        Settle(s1, cfg, t, tid, r, now)
    case None => s
  }

  ghost function Receive(s: Dht, cfg: Config, data: Slice, addr: Addr, tokenValid: bool, now: int): Dht {
    if Blocked(s.blacklist, addr, now) then s
    else
      match ReadPacket(data)
      case Some(Message(tid, kind, m)) =>
        if kind == Words.Q then Request(s, cfg, m, addr, tokenValid, now)
        else if kind == Words.R then Response(s, cfg, tid, m, addr, now)
        else if kind == Words.E then Close(s, tid)
        else s
      case None => s
  }

  // ----- ticks

  ghost function Join(s: Dht, cfg: Config, prime: seq<Addr>, now: int): Dht {
    if prime == [] then s
    else OpenNew(Join(s, cfg, prime[..|prime| - 1], now), prime[|prime| - 1], FindNode, None, Some(cfg.selfId),
                 None, now)
  }

  /** What giving up a query does to its addressee: a ping's is forgotten, any other's blocked. */
  ghost function GiveUp(s: Dht, cfg: Config, t: Transaction, now: int): Dht {
    if t.qtype == Ping then s.(table := Drop(s.table, [t.addr], now))
    else s.(blacklist := Block(s.blacklist, cfg.blacklistSize, t.addr, now))
  }

  ghost function GiveUpAll(s: Dht, cfg: Config, tids: seq<Tid>, now: int): Dht {
    if tids == [] then s
    else
      var s1, last := GiveUpAll(s, cfg, tids[..|tids| - 1], now), tids[|tids| - 1];
      if last in s.trans.live then GiveUp(s1, cfg, s.trans.live[last], now) else s1
  }

  ghost predicate ListsTimedOut(s: Dht, cfg: Config, tids: seq<Tid>, now: int) {
    && NoDup(tids)
    && forall tid :: tid in tids <==> tid in s.trans.live && TimesOut(s.trans.live[tid], TIMEOUT, cfg.tries as nat, now)
  }

  ghost function SweepOut(s: Dht, cfg: Config, dropped: seq<Tid>, now: int): Dht {
    GiveUpAll(s, cfg, dropped, now).(
      trans := Sweep(s.trans, TIMEOUT, cfg.tries as nat, now, map[]), log := s.log + [Swept(now, map[])])
  }

  ghost function AskAll(s: Dht, tasks: seq<Task>, now: int): Dht {
    if tasks == [] then s
    else
      var task := tasks[|tasks| - 1];
      OpenNew(AskAll(s, tasks[..|tasks| - 1], now), task.addr, FindNode, None, Some(task.target), None, now)
  }

  /** With nothing in flight the stale leaves are refreshed; a crawler forgets whom it asks. */
  ghost function Refresh(s: Dht, cfg: Config, tasks: seq<Task>, now: int): Dht {
    if s.trans.live != map[] then s
    else
      var s1 := AskAll(s, tasks, now);
      if cfg.crawl then s1.(table := Drop(s1.table, TaskAddrs(tasks), now)) else s1
  }

  ghost predicate IsPlan(s: Dht, cfg: Config, tasks: seq<Task>, now: int) {
    exists entries: seq<Entry>, targets: seq<Id> ::
      && CoversOnce(entries, s.table.trie) && |targets| == |entries| && TargetsFit(entries, targets)
      && tasks == PlanOf(entries, targets, now, cfg.bucketExpiry, cfg.refreshNodes)
  }

  ghost function PingAll(s: Dht, addrs: seq<Addr>, now: int): Dht {
    if addrs == [] then s
    else OpenUnless(PingAll(s, addrs[..|addrs| - 1], now), addrs[|addrs| - 1], Ping, None, None, None, now)
  }

  ghost predicate ListsSilent(s: Dht, cfg: Config, addrs: seq<Addr>, now: int) {
    exists entries: seq<Entry> ::
      CoversOnce(entries, s.table.trie) && addrs == Addrs(StaleNodes(entries, now, cfg.nodeExpiry))
  }

  /** Ends a tick: expired entries leave the blacklist, and the table is pruned. */
  ghost function Tidy(s: Dht, pruned: seq<Addr>, now: int): Dht {
    s.(blacklist := Unblock(s.blacklist, now), table := Drop(s.table, pruned, now))
  }

  /** What a tick finds: the resolved first contacts, and the lists its walks yield. */
  datatype Findings = Findings(prime: seq<Addr>, dropped: seq<Tid>, tasks: seq<Task>, silent: seq<Addr>,
                               pruned: seq<Addr>)

  ghost function AfterSweep(s: Dht, cfg: Config, f: Findings, now: int): Dht {
    SweepOut(s, cfg, f.dropped, now)
  }

  ghost function AfterRefresh(s: Dht, cfg: Config, f: Findings, now: int): Dht {
    Refresh(AfterSweep(s, cfg, f, now), cfg, f.tasks, now)
  }

  ghost function AfterPings(s: Dht, cfg: Config, f: Findings, now: int): Dht {
    PingAll(AfterRefresh(s, cfg, f, now), f.silent, now)
  }

  ghost function Tick(s: Dht, cfg: Config, f: Findings, now: int): Dht {
    if s.table.cache == map[] then Join(s, cfg, f.prime, now) else Tidy(AfterPings(s, cfg, f, now), f.pruned, now)
  }

  ghost predicate CanFind(s: Dht, cfg: Config, f: Findings, now: int) {
    s.table.cache != map[] ==>
      && ListsTimedOut(s, cfg, f.dropped, now)
      && (AfterSweep(s, cfg, f, now).trans.live == map[] ==> IsPlan(AfterSweep(s, cfg, f, now), cfg, f.tasks, now))
      && ListsSilent(AfterRefresh(s, cfg, f, now), cfg, f.silent, now)
      && Pruned(AfterPings(s, cfg, f, now).table.cache, Tick(s, cfg, f, now).table.cache, now, cfg.nodeExpiry,
                cfg.maxNodes)
  }

  // ----- commands

  /** A lookup, or with a port an announcement: every node known is asked, unless it is being asked. */
  ghost function SearchFrom(s: Dht, nodes: seq<Node>, ih: Id, port: Option<bv16>, now: int): Dht {
    if nodes == [] then s
    else
      OpenUnless(SearchFrom(s, nodes[..|nodes| - 1], ih, port, now), nodes[|nodes| - 1].addr,
                 GetPeers, Some(ih), None, port, now)
  }

  // ----- runs

  datatype Event =
    | Received(data: Slice, addr: Addr, tokenValid: bool)
    | Ticked(findings: Findings)
    | Searched(ih: Id, port: Option<bv16>, nodes: seq<Node>)

  datatype Timed = At(now: int, event: Event)

  ghost predicate Possible(s: Dht, cfg: Config, e: Timed) {
    match e.event
    case Received(_, _, _) => true
    case Ticked(f) => CanFind(s, cfg, f, e.now)
    case Searched(ih, _, nodes) => Nearest(nodes, s.table.cache, ih, |s.table.cache|)
  }

  ghost function Next(s: Dht, cfg: Config, e: Timed): Dht {
    match e.event
    case Received(data, addr, tokenValid) => Receive(s, cfg, data, addr, tokenValid, e.now)
    case Ticked(f) => Tick(s, cfg, f, e.now)
    case Searched(ih, port, nodes) => SearchFrom(s, nodes, ih, port, e.now)
  }

  ghost function Initial(start: int): Dht {
    Dht(Table(EmptyTrie(start), map[]), EMPTY, map[], map[], 0, [])
  }

  ghost function Reached(cfg: Config, start: int, run: seq<Timed>): Dht {
    if run == [] then Initial(start) else Next(Reached(cfg, start, run[..|run| - 1]), cfg, run[|run| - 1])
  }

  ghost predicate CanRun(cfg: Config, start: int, run: seq<Timed>) {
    forall i :: 0 <= i < |run| ==> Possible(Reached(cfg, start, run[..i]), cfg, run[i])
  }
}
