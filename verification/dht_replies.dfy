/** What the node answers to the queries of others, and what they read in the answer. */
module DhtReplies {
  import opened Bits
  import Texts
  import Words
  import opened Options
  import opened Nodes
  import opened SortedMaps
  import opened Bencode
  import opened Compact
  import opened Krpc
  import opened Transactions
  import opened DhtMachine
  import opened DhtAsking
  import Peers
  import Utf8

  const SHOWN := 15

  /** A crawler shows those who ask about an id one that shares its first bytes. */
  function SelectId(cfg: Config, target: Option<Id>): Id {
    if !cfg.crawl || target.None? then cfg.selfId
    else target.value[..SHOWN] + cfg.selfId[SHOWN..]
  }

  function Refusal(tid: Tid, why: seq<byte>): seq<byte> {
    MakeError(tid, 203, why)
  }

  function IdBody(id: Id): Krpc.Fields {
    DictOf([Pair(Words.ID, Bytes(id))])
  }

  function NodesBody(id: Id, nodes: seq<byte>): Krpc.Fields {
    DictOf([Pair(Words.ID, Bytes(id)), Pair(Words.NODES, Bytes(nodes))])
  }

  function LookupBody(id: Id, token: seq<byte>, nodes: seq<byte>): Krpc.Fields {
    DictOf([Pair(Words.ID, Bytes(id)), Pair(Words.TOKEN, Bytes(token)), Pair(Words.NODES, Bytes(nodes))])
  }

  function ValuesBody(id: Id, token: seq<byte>, values: seq<BVal>): Krpc.Fields {
    DictOf([Pair(Words.ID, Bytes(id)), Pair(Words.VALUES, List(values)), Pair(Words.TOKEN, Bytes(token))])
  }

  /** The compact form of every peer that has one. */
  function PeerValues(peers: seq<Peers.Peer>): seq<BVal> {
    if peers == [] then []
    else
      var last := EncodeIpPort(peers[|peers| - 1].addr);
      PeerValues(peers[..|peers| - 1]) + if last.Some? then [Bytes(last.value)] else []
  }

  function LatestPeers(t: Peers.Table, ih: Id, k: nat): seq<Peers.Peer> {
    if ih in t then Peers.LastK(t[ih], k) else []
  }

  /** The id a query asks about, if it is one that is answered with nodes near it. */
  function AskedAbout(m: DhtMachine.Fields): Option<Id> {
    match (BytesAt(m, Words.Q), DictAt(m, Words.A))
    case (Some(q), Some(a)) =>
      if q == Words.FIND_NODE then IdAt(a, Words.TARGET)
      else if q == Words.GET_PEERS then IdAt(a, Words.INFO_HASH)
      else None
    case _ => None
  }

  function ReplyToFindNode(cfg: Config, tid: Tid, a: DhtMachine.Fields, nodes: seq<byte>): Option<seq<byte>> {
    var target := IdAt(a, Words.TARGET);
    if cfg.crawl then None
    else if target.None? then Some(Refusal(tid, Words.INVALID_TARGET))
    else Some(MakeResponse(tid, Dict(NodesBody(SelectId(cfg, target), nodes))))
  }

  /** The peers known, or the nodes near; a crawler tells neither. */
  function GetPeersBody(cfg: Config, peers: Peers.Table, ih: Id, token: seq<byte>, nodes: seq<byte>): Krpc.Fields {
    var id, known := SelectId(cfg, Some(ih)), LatestPeers(peers, ih, cfg.k);
    if cfg.crawl then LookupBody(id, token, [])
    else if known != [] then ValuesBody(id, token, PeerValues(known))
    else LookupBody(id, token, nodes)
  }

  function ReplyToGetPeers(cfg: Config, peers: Peers.Table, tid: Tid, a: DhtMachine.Fields, token: seq<byte>,
                           nodes: seq<byte>): seq<byte>
  {
    var ih := IdAt(a, Words.INFO_HASH);
    if ih.None? then Refusal(tid, Words.INVALID_INFO_HASH)
    else MakeResponse(tid, Dict(GetPeersBody(cfg, peers, ih.value, token, nodes)))
  }

  function ReplyToAnnounce(cfg: Config, tid: Tid, id: Id, a: DhtMachine.Fields, addr: Addr,
                           tokenValid: bool): Option<seq<byte>> {
    var what := Announced(a, addr);
    if what.None? || !tokenValid || |what.value.0| != ID_BYTES || cfg.crawl then None
    else Some(MakeResponse(tid, Dict(IdBody(SelectId(cfg, Some(id))))))
  }

  /** The answer to a query, given the compact nodes near what it asks about. */
  function ReplyTo(cfg: Config, peers: Peers.Table, tid: Tid, m: DhtMachine.Fields, addr: Addr, token: seq<byte>,
                   tokenValid: bool, nodes: seq<byte>): Option<seq<byte>>
  {
    match (BytesAt(m, Words.Q), DictAt(m, Words.A))
    case (Some(q), Some(a)) =>
      var id := IdAt(a, Words.ID);
      if !Utf8.Valid(q) then None
      else if id.None? then Some(Refusal(tid, Words.INVALID_ID))
      else if q == Words.PING then Some(MakeResponse(tid, Dict(IdBody(SelectId(cfg, id)))))
      else if q == Words.FIND_NODE then ReplyToFindNode(cfg, tid, a, nodes)
      else if q == Words.GET_PEERS then Some(ReplyToGetPeers(cfg, peers, tid, a, token, nodes))
      else if q == Words.ANNOUNCE_PEER then ReplyToAnnounce(cfg, tid, id.value, a, addr, tokenValid)
      else None
    case _ => None
  }

  // ----- what is read in an answer

  /** A response is read as one, under the id of the query it answers, with its body. */
  lemma ResponseIsRead(tid: Tid, r: Krpc.Fields)
    requires WellFormed(Dict(r)) && |MakeResponse(tid, Dict(r))| < SLICE_LIMIT
    ensures ReadPacket(MakeResponse(tid, Dict(r)))
         == Some(Message(tid, Words.R, Envelope(tid, Words.R, Words.R, Dict(r))))
    ensures DictAt(Envelope(tid, Words.R, Words.R, Dict(r)), Words.R) == Some(r)
  {
    hide Encode, DecodeItem, DictOf, WellFormed, Get, Texts.Text, Utf8.Valid;
    Words.KeysAreValid();
    Words.KeysDiffer();
    PlainIsWellFormed(tid);
    PlainIsWellFormed(Words.R);
    ThreeAreRead(Pair(Words.T, Bytes(tid)), Pair(Words.Y, Bytes(Words.R)), Pair(Words.R, Dict(r)));
    RoundTrip(Dict(Envelope(tid, Words.R, Words.R, Dict(r))), []);
    assert MakeResponse(tid, Dict(r)) + [] == MakeResponse(tid, Dict(r));
  }

  /** What follows a message in a packet is ignored. */
  lemma TrailingIsIgnored(data: Slice, more: seq<byte>)
    requires |data| + |more| < SLICE_LIMIT && ReadPacket(data).Some?
    ensures ReadPacket(data + more) == ReadPacket(data)
  {
    hide DecodeItem, ParseMessage;
    var n := DecodeItem(data, 0).next;
    DecodingIsLocal(data, 0, n, [], data[n..] + more);
    assert [] + data[0..n] + (data[n..] + more) == data + more;
  }

  lemma PlainIsWellFormed(s: seq<byte>)
    ensures WellFormed(Bytes(s))
  {
  }

  lemma NodesBodyIsRead(id: Id, nodes: seq<byte>)
    ensures WellFormed(Dict(NodesBody(id, nodes)))
    ensures IdAt(NodesBody(id, nodes), Words.ID) == Some(id)
    ensures BytesAt(NodesBody(id, nodes), Words.NODES) == Some(nodes)
    ensures ListAt(NodesBody(id, nodes), Words.VALUES).None?
  {
    hide DictOf, WellFormed, Get, Utf8.Valid, Texts.Text;
    Words.KeysAreValid();
    Words.KeysDiffer();
    PlainIsWellFormed(id);
    PlainIsWellFormed(nodes);
    TwoAreRead(Pair(Words.ID, Bytes(id)), Pair(Words.NODES, Bytes(nodes)));
  }

  lemma {:induction false} PeerValuesAreWellFormed(peers: seq<Peers.Peer>)
    ensures WellFormed(List(PeerValues(peers)))
  {
    if peers != [] {
      PeerValuesAreWellFormed(peers[..|peers| - 1]);
    }
  }

  lemma ValuesBodyIsRead(id: Id, token: seq<byte>, values: seq<BVal>)
    requires WellFormed(List(values))
    ensures WellFormed(Dict(ValuesBody(id, token, values)))
    ensures IdAt(ValuesBody(id, token, values), Words.ID) == Some(id)
    ensures ListAt(ValuesBody(id, token, values), Words.VALUES) == Some(values)
    ensures BytesAt(ValuesBody(id, token, values), Words.TOKEN) == Some(token)
    ensures BytesAt(ValuesBody(id, token, values), Words.NODES).None?
  {
    hide DictOf, WellFormed, Get, Utf8.Valid, Texts.Text;
    Words.KeysAreValid();
    Words.KeysDiffer();
    PlainIsWellFormed(id);
    PlainIsWellFormed(token);
    ThreeAreRead(Pair(Words.ID, Bytes(id)), Pair(Words.VALUES, List(values)), Pair(Words.TOKEN, Bytes(token)));
  }

  // ----- what one node tells, another learns

  /** The addresses in a list of values, as a node that stores them reads them. */
  function ValueAddrs(values: seq<BVal>): seq<Addr> {
    if values == [] then []
    else
      ValueAddrs(values[..|values| - 1]) +
      match values[|values| - 1]
      case Bytes(b) => if |b| == ADDR_BYTES then [DecodeIpPort(b).value] else []
      case _ => []
  }

  function V4Addrs(peers: seq<Peers.Peer>): seq<Addr> {
    if peers == [] then []
    else
      V4Addrs(peers[..|peers| - 1]) +
      if peers[|peers| - 1].addr.ip.V4? then [peers[|peers| - 1].addr] else []
  }

  lemma {:induction false} PeerValuesAreRead(peers: seq<Peers.Peer>)
    ensures ValueAddrs(PeerValues(peers)) == V4Addrs(peers)
  {
    if peers != [] {
      var front, last := peers[..|peers| - 1], peers[|peers| - 1];
      PeerValuesAreRead(front);
      if last.addr.ip.V4? {
        IpPortRoundTrip(last.addr);
        var values := PeerValues(peers);
        assert values[..|values| - 1] == PeerValues(front);
      } else {
        assert PeerValues(front) + [] == PeerValues(front) && V4Addrs(front) + [] == V4Addrs(front);
      }
    }
  }

  ghost function ArriveAll(t: Peers.Table, k: nat, ih: Id, addrs: seq<Addr>): Peers.Table {
    if addrs == [] then t
    else Peers.Arrive(ArriveAll(t, k, ih, addrs[..|addrs| - 1]), k, ih, Peers.Peer(addrs[|addrs| - 1], None))
  }

  lemma {:induction false} StoringArrives(t: Peers.Table, k: nat, ih: Id, values: seq<BVal>)
    ensures StoreValues(t, k, ih, values) == ArriveAll(t, k, ih, ValueAddrs(values))
  {
    hide Peers.Arrive;
    if values != [] {
      var front, addrs := values[..|values| - 1], ValueAddrs(values);
      StoringArrives(t, k, ih, front);
      match values[|values| - 1] {
        case Bytes(b) =>
          if |b| == ADDR_BYTES {
            assert addrs[..|addrs| - 1] == ValueAddrs(front);
          } else {
            assert addrs == ValueAddrs(front);
          }
        case _ =>
          assert addrs == ValueAddrs(front);
      }
    }
  }

  lemma SearchIsAnswered(cfg: Config, peers: Peers.Table, tid: Tid, m: DhtMachine.Fields, a: DhtMachine.Fields,
                         addr: Addr, token: seq<byte>, tokenValid: bool, nodes: seq<byte>)
    requires BytesAt(m, Words.Q) == Some(Words.FIND_NODE) && DictAt(m, Words.A) == Some(a)
    requires IdAt(a, Words.ID).Some? && IdAt(a, Words.TARGET).Some? && !cfg.crawl
    ensures ReplyTo(cfg, peers, tid, m, addr, token, tokenValid, nodes)
         == Some(MakeResponse(tid, Dict(NodesBody(cfg.selfId, nodes))))
  {
    hide Texts.Text, Utf8.Valid, MakeResponse, NodesBody, BytesAt, DictAt, IdAt;
    Words.QueriesDiffer();
    Words.TextIsValid("find_node");
    Words.NamesAre();
  }

  lemma LookupIsAnswered(cfg: Config, peers: Peers.Table, tid: Tid, m: DhtMachine.Fields, a: DhtMachine.Fields,
                         addr: Addr, token: seq<byte>, tokenValid: bool, nodes: seq<byte>, ih: Id)
    requires BytesAt(m, Words.Q) == Some(Words.GET_PEERS) && DictAt(m, Words.A) == Some(a)
    requires IdAt(a, Words.ID).Some? && IdAt(a, Words.INFO_HASH) == Some(ih) && !cfg.crawl
    requires LatestPeers(peers, ih, cfg.k) != []
    ensures ReplyTo(cfg, peers, tid, m, addr, token, tokenValid, nodes)
         == Some(MakeResponse(tid, Dict(ValuesBody(cfg.selfId, token, PeerValues(LatestPeers(peers, ih, cfg.k))))))
  {
    hide Texts.Text, Utf8.Valid, MakeResponse, ValuesBody, BytesAt, DictAt, IdAt, LatestPeers, PeerValues;
    Words.QueriesDiffer();
    Words.TextIsValid("get_peers");
    Words.NamesAre();
  }

  /** What is received of a response that answers a query in flight. */
  lemma AnswerReceived(s: Dht, cfg: Config, tid: Tid, r: Krpc.Fields, addr: Addr, tokenValid: bool, now: int)
    requires WellFormed(Dict(r)) && |MakeResponse(tid, Dict(r))| < SLICE_LIMIT && IdAt(r, Words.ID).Some?
    requires tid in s.trans.live && s.trans.live[tid].addr == addr && !Blocked(s.blacklist, addr, now)
    ensures
      var t := s.trans.live[tid];
      Receive(s, cfg, MakeResponse(tid, Dict(r)), addr, tokenValid, now) ==
      Settle(Learnt(s, cfg, t, BytesAt(r, Words.NODES), now), cfg, Some(t), tid, r, now)
  {
    hide Texts.Text, ReadPacket, MakeResponse, Envelope, Request, Response, Learnt, Settle, BytesAt, DictAt;
    hide IdAt, Blocked;
    hide WellFormed;
    Words.KeysDiffer();
    ResponseIsRead(tid, r);
    AnswerInTwo(s, cfg, tid, Envelope(tid, Words.R, Words.R, Dict(r)), addr, r, now);
  }

  /**
   * What one node tells about nodes, another learns: the answer to a search lists the given nodes, and
   * the node that asked learns exactly those, in that order, if and only if all their addresses are IPv4.
   */
  lemma NodesToldAreLearnt(cfg: Config, peers: Peers.Table, tid: Tid, m: DhtMachine.Fields, a: DhtMachine.Fields,
                           from: Addr, token: seq<byte>, near: seq<Node>, s: Dht, cfg': Config, addr: Addr,
                           tokenValid: bool, now: int)
    requires BytesAt(m, Words.Q) == Some(Words.FIND_NODE) && DictAt(m, Words.A) == Some(a)
    requires IdAt(a, Words.ID).Some? && IdAt(a, Words.TARGET).Some? && !cfg.crawl
    requires |MakeResponse(tid, Dict(NodesBody(cfg.selfId, EncodeContacts(Contacts(near)))))| < SLICE_LIMIT
    requires tid in s.trans.live && s.trans.live[tid].addr == addr && !Blocked(s.blacklist, addr, now)
    ensures
      var nodes := EncodeContacts(Contacts(near));
      var t, r := s.trans.live[tid], NodesBody(cfg.selfId, nodes);
      var reply := MakeResponse(tid, Dict(r));
      var learnt := LearnAll(s, cfg', DecodeContacts(nodes), t.infoHash, SearchTargetOf(Some(t)), now);
      && ReplyTo(cfg, peers, tid, m, from, token, tokenValid, nodes) == Some(reply)
      && Receive(s, cfg', reply, addr, tokenValid, now) == Settle(learnt, cfg', Some(t), tid, r, now)
      && (DecodeContacts(nodes) == Contacts(near) <==> AllV4(Contacts(near)))
  {
    hide Texts.Text, ReplyTo, Receive, MakeResponse, LearnAll, Settle, EncodeContacts, DecodeContacts, Contacts, AllV4;
    hide BytesAt, DictAt, IdAt, NodesBody, Blocked, WellFormed;
    var nodes := EncodeContacts(Contacts(near));
    SearchIsAnswered(cfg, peers, tid, m, a, from, token, tokenValid, nodes);
    NodesBodyIsRead(cfg.selfId, nodes);
    AnswerReceived(s, cfg', tid, NodesBody(cfg.selfId, nodes), addr, tokenValid, now);
    ContactsRoundTripExactly(Contacts(near));
  }

  /**
   * And what it tells about peers: the node that asked stores the latest peers that have an IPv4
   * address, oldest first, and its lookup is over.
   */
  lemma PeersToldAreStored(cfg: Config, peers: Peers.Table, tid: Tid, m: DhtMachine.Fields, a: DhtMachine.Fields,
                           from: Addr, token: seq<byte>, nodes: seq<byte>, ih: Id, s: Dht, cfg': Config, addr: Addr,
                           tokenValid: bool, now: int)
    requires BytesAt(m, Words.Q) == Some(Words.GET_PEERS) && DictAt(m, Words.A) == Some(a)
    requires IdAt(a, Words.ID).Some? && IdAt(a, Words.INFO_HASH) == Some(ih) && !cfg.crawl
    requires LatestPeers(peers, ih, cfg.k) != []
    requires
      var values := PeerValues(LatestPeers(peers, ih, cfg.k));
      |MakeResponse(tid, Dict(ValuesBody(cfg.selfId, token, values)))| < SLICE_LIMIT
    requires tid in s.trans.live && s.trans.live[tid].addr == addr && !Blocked(s.blacklist, addr, now)
    requires s.trans.live[tid].qtype == GetPeers && s.trans.live[tid].infoHash == Some(ih)
    ensures
      var reply := MakeResponse(tid, Dict(ValuesBody(cfg.selfId, token, PeerValues(LatestPeers(peers, ih, cfg.k)))));
      && ReplyTo(cfg, peers, tid, m, from, token, tokenValid, nodes) == Some(reply)
      && Receive(s, cfg', reply, addr, tokenValid, now).peers
      == ArriveAll(s.peers, cfg'.k, ih, V4Addrs(LatestPeers(peers, ih, cfg.k)))
  {
    hide Texts.Text, ReplyTo, Receive, MakeResponse, PeerValues, LatestPeers, StoreValues, ArriveAll, V4Addrs;
    hide ValueAddrs;
    hide BytesAt, DictAt, IdAt, ListAt, ValuesBody, Blocked, WellFormed;
    var values := PeerValues(LatestPeers(peers, ih, cfg.k));
    var r := ValuesBody(cfg.selfId, token, values);
    LookupIsAnswered(cfg, peers, tid, m, a, from, token, tokenValid, nodes, ih);
    PeerValuesAreWellFormed(LatestPeers(peers, ih, cfg.k));
    ValuesBodyIsRead(cfg.selfId, token, values);
    AnswerReceived(s, cfg', tid, r, addr, tokenValid, now);
    SettleStores(s, cfg', s.trans.live[tid], tid, r, now);
    StoringArrives(s.peers, cfg'.k, ih, values);
    PeerValuesAreRead(LatestPeers(peers, ih, cfg.k));
  }

  lemma SettleStores(s: Dht, cfg: Config, t: Transaction, tid: Tid, r: Krpc.Fields, now: int)
    requires t.infoHash.Some? && ListAt(r, Words.VALUES).Some?
    ensures Settle(s, cfg, Some(t), tid, r, now).peers
         == StoreValues(s.peers, cfg.k, t.infoHash.value, ListAt(r, Words.VALUES).value)
  {
    hide StoreValues, ListAt, BytesAt;
  }
}
