/** Every reply of the node, as its receiver reads it. */
module DhtAnswers {
  import opened Bits
  import Words
  import opened Options
  import opened Nodes
  import opened SortedMaps
  import opened Decimals
  import opened Bencode
  import opened Compact
  import opened Krpc
  import opened Transactions
  import opened DhtMachine
  import opened DhtReplies
  import Peers
  import Utf8

  /** A response under the id, with the body. */
  ghost predicate Responds(reply: seq<byte>, tid: Tid, r: Krpc.Fields)
    requires |reply| < SLICE_LIMIT
  {
    match ReadPacket(reply)
    case Some(Message(id, kind, m)) => id == tid && kind == Words.R && DictAt(m, Words.R) == Some(r)
    case None => false
  }

  /** An error message under the id, of code 203, with the reason. */
  ghost predicate Refuses(reply: seq<byte>, tid: Tid, why: seq<byte>)
    requires |reply| < SLICE_LIMIT
  {
    match ReadPacket(reply)
    case Some(Message(id, kind, m)) =>
      id == tid && kind == Words.E && ListAt(m, Words.E) == Some([Int(203), Bytes(why)])
    case None => false
  }

  /** The node shows its own id; a crawler one with the first fifteen bytes of what it is asked about. */
  ghost predicate Shows(cfg: Config, about: Id, r: Krpc.Fields) {
    match IdAt(r, Words.ID)
    case Some(id) =>
      forall i :: 0 <= i < 20 ==> id[i] == if cfg.crawl && i < 15 then about[i] else cfg.selfId[i]
    case None => false
  }

  lemma Selects(cfg: Config, about: Id, r: Krpc.Fields)
    requires IdAt(r, Words.ID) == Some(SelectId(cfg, Some(about)))
    ensures Shows(cfg, about, r)
  {
    hide IdAt;
  }

  // ----- the bodies

  lemma IdBodyIsRead(id: Id)
    ensures WellFormed(Dict(IdBody(id))) && IdAt(IdBody(id), Words.ID) == Some(id)
  {
    hide DictOf, WellFormed, Get, Utf8.Valid;
    Words.KeysAreValid();
    PlainIsWellFormed(id);
    OneIsRead(Pair(Words.ID, Bytes(id)));
  }

  lemma LookupBodyIsRead(id: Id, token: seq<byte>, nodes: seq<byte>)
    ensures WellFormed(Dict(LookupBody(id, token, nodes)))
    ensures IdAt(LookupBody(id, token, nodes), Words.ID) == Some(id)
    ensures BytesAt(LookupBody(id, token, nodes), Words.TOKEN) == Some(token)
    ensures BytesAt(LookupBody(id, token, nodes), Words.NODES) == Some(nodes)
    ensures ListAt(LookupBody(id, token, nodes), Words.VALUES).None?
  {
    hide DictOf, WellFormed, Get, Utf8.Valid;
    Words.KeysAreValid();
    Words.KeysDiffer();
    PlainIsWellFormed(id);
    PlainIsWellFormed(token);
    PlainIsWellFormed(nodes);
    ThreeAreRead(Pair(Words.ID, Bytes(id)), Pair(Words.TOKEN, Bytes(token)), Pair(Words.NODES, Bytes(nodes)));
  }

  lemma ResponseResponds(tid: Tid, r: Krpc.Fields)
    requires WellFormed(Dict(r)) && |MakeResponse(tid, Dict(r))| < SLICE_LIMIT
    ensures Responds(MakeResponse(tid, Dict(r)), tid, r)
  {
    hide ReadPacket, MakeResponse, DictAt, WellFormed, Envelope;
    ResponseIsRead(tid, r);
  }

  lemma RefusalRefuses(tid: Tid, why: seq<byte>)
    requires |Refusal(tid, why)| < SLICE_LIMIT
    ensures Refuses(Refusal(tid, why), tid, why)
  {
    hide Encode, DecodeItem, DictOf, WellFormed, Get, Utf8.Valid;
    Words.KeysAreValid();
    Words.KeysDiffer();
    PlainIsWellFormed(tid);
    PlainIsWellFormed(Words.E);
    ReasonIsWellFormed(why);
    var body := List([Int(203), Bytes(why)]);
    ThreeAreRead(Pair(Words.T, Bytes(tid)), Pair(Words.Y, Bytes(Words.E)), Pair(Words.E, body));
    RoundTrip(Dict(Envelope(tid, Words.E, Words.E, body)), []);
    assert Refusal(tid, why) + [] == Refusal(tid, why);
  }

  lemma ReasonIsWellFormed(why: seq<byte>)
    ensures WellFormed(List([Int(203), Bytes(why)]))
  {
    PlainIsWellFormed(why);
  }

  // ----- the replies

  /** A query by this name, with these arguments. */
  ghost predicate Asks(m: DhtMachine.Fields, name: seq<byte>, a: DhtMachine.Fields) {
    BytesAt(m, Words.Q) == Some(name) && DictAt(m, Words.A) == Some(a)
  }

  /** Without an id of twenty bytes any query in UTF-8 is refused. */
  lemma InvalidIdIsRefused(cfg: Config, peers: Peers.Table, tid: Tid, m: DhtMachine.Fields, a: DhtMachine.Fields,
                           q: seq<byte>, addr: Addr, token: seq<byte>, tokenValid: bool, nodes: seq<byte>)
    requires Asks(m, q, a) && Utf8.Valid(q) && IdAt(a, Words.ID).None?
    ensures
      var reply := ReplyTo(cfg, peers, tid, m, addr, token, tokenValid, nodes);
      reply.Some? && (|reply.value| < SLICE_LIMIT ==> Refuses(reply.value, tid, Words.INVALID_ID))
  {
    hide Utf8.Valid, BytesAt, DictAt, IdAt, Refusal, Refuses;
    if |Refusal(tid, Words.INVALID_ID)| < SLICE_LIMIT {
      RefusalRefuses(tid, Words.INVALID_ID);
    }
  }

  /** A ping is answered with an id. */
  lemma PingIsAnswered(cfg: Config, peers: Peers.Table, tid: Tid, m: DhtMachine.Fields, a: DhtMachine.Fields,
                       addr: Addr, token: seq<byte>, tokenValid: bool, nodes: seq<byte>)
    requires Asks(m, Words.PING, a) && IdAt(a, Words.ID).Some?
    ensures
      var reply := ReplyTo(cfg, peers, tid, m, addr, token, tokenValid, nodes);
      && reply.Some?
      && (|reply.value| < SLICE_LIMIT ==>
            exists r :: Responds(reply.value, tid, r) && Shows(cfg, IdAt(a, Words.ID).value, r))
  {
    hide Utf8.Valid, BytesAt, DictAt, IdAt, IdBody, MakeResponse, Responds, SelectId, Shows;
    Words.NamesAre();
    Words.TextIsValid("ping");
    var id := IdAt(a, Words.ID).value;
    var r := IdBody(SelectId(cfg, Some(id)));
    IdBodyIsRead(SelectId(cfg, Some(id)));
    Selects(cfg, id, r);
    if |MakeResponse(tid, Dict(r))| < SLICE_LIMIT {
      ResponseResponds(tid, r);
    }
  }

  /** The reply lists the nodes; a search without a target is refused. */
  ghost predicate ListsNodes(reply: seq<byte>, tid: Tid, cfg: Config, about: Option<Id>, nodes: seq<byte>)
    requires |reply| < SLICE_LIMIT
  {
    match about
    case Some(target) =>
      exists r :: Responds(reply, tid, r) && Shows(cfg, target, r) && BytesAt(r, Words.NODES) == Some(nodes)
    case None => Refuses(reply, tid, Words.INVALID_TARGET)
  }

  /** A search is answered with the nodes near what it asks about, its target; by a crawler not at all. */
  lemma FindNodeIsAnswered(cfg: Config, peers: Peers.Table, tid: Tid, m: DhtMachine.Fields, a: DhtMachine.Fields,
                           addr: Addr, token: seq<byte>, tokenValid: bool, nodes: seq<byte>)
    requires Asks(m, Words.FIND_NODE, a) && IdAt(a, Words.ID).Some?
    ensures
      var reply := ReplyTo(cfg, peers, tid, m, addr, token, tokenValid, nodes);
      && (reply.None? <==> cfg.crawl) && AskedAbout(m) == IdAt(a, Words.TARGET)
      && (reply.Some? && |reply.value| < SLICE_LIMIT ==>
            ListsNodes(reply.value, tid, cfg, IdAt(a, Words.TARGET), nodes))
  {
    hide Utf8.Valid, BytesAt, DictAt, IdAt, NodesBody, MakeResponse, Responds, SelectId, Shows, Refusal, Refuses;
    Words.QueriesDiffer();
    Words.NamesAre();
    Words.TextIsValid("find_node");
    match IdAt(a, Words.TARGET) {
      case Some(target) =>
        var r := NodesBody(SelectId(cfg, Some(target)), nodes);
        NodesBodyIsRead(SelectId(cfg, Some(target)), nodes);
        Selects(cfg, target, r);
        if |MakeResponse(tid, Dict(r))| < SLICE_LIMIT {
          ResponseResponds(tid, r);
        }
      case None =>
        if |Refusal(tid, Words.INVALID_TARGET)| < SLICE_LIMIT {
          RefusalRefuses(tid, Words.INVALID_TARGET);
        }
    }
  }

  /** The last `k` peers of the infohash, all if there are fewer. */
  function Latest(peers: Peers.Table, ih: Id, k: nat): seq<Peers.Peer> {
    if ih !in peers then []
    else if |peers[ih]| <= k then peers[ih]
    else peers[ih][|peers[ih]| - k..]
  }

  /** What a lookup is answered with: the peers known, or the given nodes; by a crawler neither. */
  ghost predicate TellsOf(cfg: Config, peers: Peers.Table, ih: Id, token: seq<byte>, nodes: seq<byte>, r: Krpc.Fields) {
    && Shows(cfg, ih, r) && BytesAt(r, Words.TOKEN) == Some(token)
    && if !cfg.crawl && Latest(peers, ih, cfg.k) != [] then
         && ListAt(r, Words.VALUES).Some? && BytesAt(r, Words.NODES).None?
         && ValueAddrs(ListAt(r, Words.VALUES).value) == V4Addrs(Latest(peers, ih, cfg.k))
       else
         && ListAt(r, Words.VALUES).None?
         && BytesAt(r, Words.NODES) == Some(if cfg.crawl then [] else nodes)
  }

  /** The reply tells of the infohash; a lookup without one is refused. */
  ghost predicate Tells(reply: seq<byte>, tid: Tid, cfg: Config, peers: Peers.Table, about: Option<Id>,
                        token: seq<byte>, nodes: seq<byte>)
    requires |reply| < SLICE_LIMIT
  {
    match about
    case Some(ih) => exists r :: Responds(reply, tid, r) && TellsOf(cfg, peers, ih, token, nodes, r)
    case None => Refuses(reply, tid, Words.INVALID_INFO_HASH)
  }

  /** A lookup is answered about its infohash, which the given nodes are near. */
  lemma GetPeersIsAnswered(cfg: Config, peers: Peers.Table, tid: Tid, m: DhtMachine.Fields, a: DhtMachine.Fields,
                           addr: Addr, token: seq<byte>, tokenValid: bool, nodes: seq<byte>)
    requires Asks(m, Words.GET_PEERS, a) && IdAt(a, Words.ID).Some?
    ensures
      var reply := ReplyTo(cfg, peers, tid, m, addr, token, tokenValid, nodes);
      && reply.Some? && AskedAbout(m) == IdAt(a, Words.INFO_HASH)
      && (|reply.value| < SLICE_LIMIT ==>
            Tells(reply.value, tid, cfg, peers, IdAt(a, Words.INFO_HASH), token, nodes))
  {
    hide Utf8.Valid, BytesAt, DictAt, IdAt, MakeResponse, Responds, SelectId, Refusal, Refuses, LookupBody;
    hide ValuesBody, TellsOf, LatestPeers, PeerValues;
    Words.QueriesDiffer();
    Words.NamesAre();
    Words.TextIsValid("get_peers");
    match IdAt(a, Words.INFO_HASH) {
      case Some(ih) =>
        var r := GetPeersBody(cfg, peers, ih, token, nodes);
        GetPeersBodyTells(cfg, peers, ih, token, nodes);
        if |MakeResponse(tid, Dict(r))| < SLICE_LIMIT {
          ResponseResponds(tid, r);
        }
      case None =>
        if |Refusal(tid, Words.INVALID_INFO_HASH)| < SLICE_LIMIT {
          RefusalRefuses(tid, Words.INVALID_INFO_HASH);
        }
    }
  }

  lemma GetPeersBodyTells(cfg: Config, peers: Peers.Table, ih: Id, token: seq<byte>, nodes: seq<byte>)
    ensures WellFormed(Dict(GetPeersBody(cfg, peers, ih, token, nodes)))
    ensures TellsOf(cfg, peers, ih, token, nodes, GetPeersBody(cfg, peers, ih, token, nodes))
  {
    hide BytesAt, ListAt, IdAt, SelectId, LookupBody, ValuesBody, WellFormed, PeerValues, V4Addrs, ValueAddrs;
    hide Shows;
    var id, known := SelectId(cfg, Some(ih)), LatestPeers(peers, ih, cfg.k);
    assert known == Latest(peers, ih, cfg.k);
    if cfg.crawl {
      LookupBodyIsRead(id, token, []);
    } else if known != [] {
      PeerValuesAreWellFormed(known);
      PeerValuesAreRead(known);
      ValuesBodyIsRead(id, token, PeerValues(known));
    } else {
      LookupBodyIsRead(id, token, nodes);
    }
    Selects(cfg, ih, GetPeersBody(cfg, peers, ih, token, nodes));
  }

  /** A complete announcement with a valid token is answered with an id, by a crawler not at all. */
  lemma AnnouncementIsAnswered(cfg: Config, peers: Peers.Table, tid: Tid, m: DhtMachine.Fields, a: DhtMachine.Fields,
                               addr: Addr, token: seq<byte>, tokenValid: bool, nodes: seq<byte>)
    requires Asks(m, Words.ANNOUNCE_PEER, a) && IdAt(a, Words.ID).Some?
    ensures
      var reply := ReplyTo(cfg, peers, tid, m, addr, token, tokenValid, nodes);
      && (reply.Some? <==>
            && !cfg.crawl && tokenValid && IdAt(a, Words.INFO_HASH).Some?
            && Get<BVal>(a, Words.PORT).Some? && Get<BVal>(a, Words.PORT).value.Int? && BytesAt(a, Words.TOKEN).Some?)
      && (reply.Some? && |reply.value| < SLICE_LIMIT ==>
            exists r :: Responds(reply.value, tid, r) && Shows(cfg, IdAt(a, Words.ID).value, r))
  {
    hide Utf8.Valid, DictAt, IdBody, MakeResponse, Responds, SelectId, Shows, Get;
    hide Utf8.Lossy, AnnouncedPort;
    Words.QueriesDiffer();
    Words.NamesAre();
    Words.TextIsValid("announce_peer");
    var id := IdAt(a, Words.ID).value;
    var r := IdBody(SelectId(cfg, Some(id)));
    IdBodyIsRead(SelectId(cfg, Some(id)));
    Selects(cfg, id, r);
    if |MakeResponse(tid, Dict(r))| < SLICE_LIMIT {
      ResponseResponds(tid, r);
    }
  }

  /** Queries by any other name are not answered, and neither is one that is no text. */
  lemma OthersAreNotAnswered(cfg: Config, peers: Peers.Table, tid: Tid, m: DhtMachine.Fields, a: DhtMachine.Fields,
                             q: seq<byte>, addr: Addr, token: seq<byte>, tokenValid: bool, nodes: seq<byte>)
    requires Asks(m, q, a) && (Utf8.Valid(q) ==> IdAt(a, Words.ID).Some?)
    requires q != Words.PING && q != Words.FIND_NODE && q != Words.GET_PEERS && q != Words.ANNOUNCE_PEER
    ensures ReplyTo(cfg, peers, tid, m, addr, token, tokenValid, nodes) == None
  {
    hide Utf8.Valid, BytesAt, DictAt, IdAt;
  }

  // ----- the example of BEP 5

  lemma LettersAre()
    ensures Words.R == [0x72] && Words.T == [0x74] && Words.Y == [0x79] && Words.ID == [0x69, 0x64]
  {
    Words.KeysDiffer();
  }

  lemma ReplyFields(id: Id)
    ensures IdBody(id) == [Pair([0x69, 0x64], Bytes(id))]
    ensures Envelope([0x61, 0x61], Words.R, Words.R, Dict(IdBody(id)))
         == [Pair([0x72], Dict(IdBody(id))), Pair([0x74], Bytes([0x61, 0x61])), Pair([0x79], Bytes([0x72]))]
  {
    LettersAre();
    var t, y := Pair(Words.T, Bytes([0x61, 0x61])), Pair(Words.Y, Bytes(Words.R));
    var r := Pair(Words.R, Dict(IdBody(id)));
    var p := Pair(Words.ID, Bytes(id));
    var none: Krpc.Fields := [];
    assert [p][..0] == none && DictOf([p]) == Put(none, p.key, p.value) == [p];
    assert [t, y, r][..2] == [t, y] && [t, y][..1] == [t] && [t][..0] == none;
    assert DictOf([t]) == [t];
    assert [t][1..] == none;
    assert DictOf([t, y]) == Put([t], y.key, y.value) == [t, y];
    assert DictOf([t, y, r]) == Put([t, y], r.key, r.value) == [r, t, y];
  }

  lemma ThreeEntries(m: Krpc.Fields)
    requires |m| == 3
    ensures Encode(Dict(m))
         == [0x64] + EncodeBytes(m[0].key) + Encode(m[0].value) + EncodeBytes(m[1].key) + Encode(m[1].value)
            + EncodeBytes(m[2].key) + Encode(m[2].value) + [0x65]
  {
    hide EncodeBytes;
    assert m[1..][1..] == m[2..] && m[2..][1..] == [];
    assert EncodeEntries(m[2..]) == EncodeBytes(m[2].key) + Encode(m[2].value) + EncodeEntries(m[2..][1..]);
    assert EncodeEntries(m[1..]) == EncodeBytes(m[1].key) + Encode(m[1].value) + EncodeEntries(m[1..][1..]);
    assert EncodeEntries(m) == EncodeBytes(m[0].key) + Encode(m[0].value) + EncodeEntries(m[1..]);
  }

  lemma BodySample(id: Id)
    ensures Encode(Dict(IdBody(id))) == [0x64, 0x32, 0x3A, 0x69, 0x64, 0x32, 0x30, 0x3A] + id + [0x65]
  {
    hide EncodeBytes, IdBody, Envelope;
    ReplyFields(id);
    ShortStrings(id);
    var a := IdBody(id);
    assert a[1..] == [];
    assert EncodeEntries(a) == EncodeBytes(a[0].key) + Encode(a[0].value) + EncodeEntries(a[1..]);
  }

  lemma BytesAreEncoded(s: seq<byte>)
    ensures Encode(Bytes(s)) == EncodeBytes(s)
  {
  }

  /** The reply to a ping under the id `aa`: `d1:rd2:id20:`, the twenty bytes, and `e1:t2:aa1:y1:re`. */
  lemma PingReplySample(id: Id)
    ensures MakeResponse([0x61, 0x61], Dict(IdBody(id)))
         == [0x64, 0x31, 0x3A, 0x72, 0x64, 0x32, 0x3A, 0x69, 0x64, 0x32, 0x30, 0x3A] + id
            + [0x65, 0x31, 0x3A, 0x74, 0x32, 0x3A, 0x61, 0x61, 0x31, 0x3A, 0x79, 0x31, 0x3A, 0x72, 0x65]
  {
    hide Encode, EncodeBytes, IdBody, Envelope;
    ReplyFields(id);
    ThreeEntries(Envelope([0x61, 0x61], Words.R, Words.R, Dict(IdBody(id))));
    BodySample(id);
    ShortStrings(id);
    BytesAreEncoded([0x61, 0x61]);
    BytesAreEncoded([0x72]);
  }

  lemma ShortStrings(id: Id)
    ensures forall b: byte :: EncodeBytes([b]) == [0x31, 0x3A, b]
    ensures forall b: byte, c: byte :: EncodeBytes([b, c]) == [0x32, 0x3A, b, c]
    ensures EncodeBytes(id) == [0x32, 0x30, 0x3A] + id
  {
    DigitsAre();
    TwentyIs();
  }

  lemma TwentyIs()
    ensures Print(20) == [0x32, 0x30]
  {
    DigitsAre();
    assert Print(20) == Print(2) + [DigitOf(0)];
    assert DigitOf(0) == 0x30;
  }
}
