/** What an announcement stores, and who is told of it. */
module DhtAnnouncements {
  import opened Bits
  import Words
  import opened Options
  import opened Nodes
  import opened SortedMaps
  import opened Bencode
  import opened Compact
  import opened Krpc
  import opened DhtMachine
  import opened DhtReplies
  import opened DhtAnswers
  import Peers
  import Utf8

  /** The query announces a port for an infohash, with a token and the sender's id. */
  ghost predicate Announces(m: DhtMachine.Fields, a: DhtMachine.Fields, ih: Id, port: int, token: seq<byte>) {
    && BytesAt(m, Words.Q) == Some(Words.ANNOUNCE_PEER) && DictAt(m, Words.A) == Some(a)
    && IdAt(a, Words.ID).Some? && IdAt(a, Words.INFO_HASH) == Some(ih)
    && Get<BVal>(a, Words.PORT) == Some(Int(port)) && BytesAt(a, Words.TOKEN) == Some(token)
  }

  /** The sender's own port if a nonzero number asks for it, else the given one, cut to 16 bits by way of 32. */
  ghost predicate IsAnnouncedPort(a: DhtMachine.Fields, addr: Addr, port: int, stored: bv16) {
    if exists n :: n != 0 && Get<BVal>(a, Words.IMPLIED_PORT) == Some(Int(n)) then stored == addr.port
    else if port % 0x1_0000_0000 >= 0x8000_0000 then stored == 0
    else stored == (port % 0x1_0000) as bv16
  }

  lemma CutTwice(n: int)
    ensures n % 0x1_0000_0000 % 0x1_0000 == n % 0x1_0000
  {
    assert n == n / 0x1_0000_0000 * 0x1_0000 * 0x1_0000 + n % 0x1_0000_0000;
  }

  lemma PortIsAnnounced(a: DhtMachine.Fields, addr: Addr, port: int)
    ensures IsAnnouncedPort(a, addr, port, AnnouncedPort(a, port, addr))
  {
    hide Get;
    CutTwice(port);
    match Get<BVal>(a, Words.IMPLIED_PORT) {
      case Some(Int(n)) =>
      case _ =>
    }
  }

  /** The newest peer of the infohash, if it has any. */
  function Newest(t: Peers.Table, ih: Id): Option<Peers.Peer> {
    if ih in t && t[ih] != [] then Some(t[ih][|t[ih]| - 1]) else None
  }

  /** All infohashes but one have the peers they had. */
  ghost predicate SameBut(t: Peers.Table, t': Peers.Table, ih: Id) {
    forall other :: other != ih ==> (other in t <==> other in t') && (other in t ==> t[other] == t'[other])
  }

  lemma ArrivesLast(t: Peers.Table, k: nat, ih: Id, peer: Peers.Peer)
    requires k > 0 && (|t| < 50000 || ih in t)
    ensures Newest(Peers.Arrive(t, k, ih, peer), ih) == Some(peer) && SameBut(t, Peers.Arrive(t, k, ih, peer), ih)
    ensures ih in t && |t[ih]| < k ==>
              forall p :: p in t[ih] && p.addr != peer.addr ==> p in Peers.Arrive(t, k, ih, peer)[ih]
  {
    hide Peers.WithoutAddr;
    if ih in t {
      WithoutKeeps(t[ih], peer.addr);
    }
  }

  lemma {:induction false} WithoutKeeps(peers: seq<Peers.Peer>, addr: Addr)
    ensures |Peers.WithoutAddr(peers, addr)| <= |peers|
    ensures forall p :: p in peers && p.addr != addr ==> p in Peers.WithoutAddr(peers, addr)
  {
    if peers != [] {
      WithoutKeeps(peers[1..], addr);
      assert peers == [peers[0]] + peers[1..];
    }
  }

  /**
   * A valid announcement to a node that is no crawler stores the sender, under the announced port, as the
   * newest peer of the infohash, keeps the others while there is room, and touches no other infohash; an
   * infohash is refused if it is new and there are 50000 already.
   */
  lemma AnnouncementIsStored(s: Dht, cfg: Config, m: DhtMachine.Fields, a: DhtMachine.Fields, ih: Id, port: int,
                             token: seq<byte>, addr: Addr, now: int)
    requires Announces(m, a, ih, port, token) && !cfg.crawl && cfg.k > 0
    ensures
      var peers := Request(s, cfg, m, addr, true, now).peers;
      if |s.peers| >= 50000 && ih !in s.peers then peers == s.peers
      else
        && Newest(peers, ih).Some? && Newest(peers, ih).value.addr.ip == addr.ip
        && IsAnnouncedPort(a, addr, port, Newest(peers, ih).value.addr.port)
        && Newest(peers, ih).value.token == Some(Utf8.Lossy(token))
        && SameBut(s.peers, peers, ih)
        && (ih in s.peers && |s.peers[ih]| < cfg.k ==>
              forall p :: p in s.peers[ih] && p.addr != Newest(peers, ih).value.addr ==> p in peers[ih])
  {
    hide Hear, Get, Utf8.Valid, Utf8.Lossy, Peers.Arrive, IsAnnouncedPort, AnnouncedPort;
    Words.QueriesDiffer();
    Words.NamesAre();
    Words.TextIsValid("announce_peer");
    PortIsAnnounced(a, addr, port);
    var peer := Peers.Peer(addr.(port := AnnouncedPort(a, port, addr)), Some(Utf8.Lossy(token)));
    if |s.peers| < 50000 || ih in s.peers {
      ArrivesLast(s.peers, cfg.k, ih, peer);
    }
    Refused(s.peers, cfg.k, ih, peer);
    assert Announced(a, addr) == Some((ih, peer));
    HearsOnly(s.(peers := Peers.Arrive(s.peers, cfg.k, ih, peer)), cfg, IdAt(a, Words.ID).value, addr, now);
  }

  lemma Refused(t: Peers.Table, k: nat, ih: Id, peer: Peers.Peer)
    ensures |t| >= 50000 && ih !in t ==> Peers.Arrive(t, k, ih, peer) == t
  {
  }

  lemma HearsOnly(s: Dht, cfg: Config, id: Id, addr: Addr, now: int)
    ensures Hear(s, cfg, id, addr, now).peers == s.peers
  {
    hide Keep;
  }

  /** Any other query leaves the peers alone, whatever it asks. */
  lemma OthersStoreNothing(s: Dht, cfg: Config, m: DhtMachine.Fields, addr: Addr, tokenValid: bool, now: int)
    requires cfg.crawl || !tokenValid || forall a, ih, port, token :: !Announces(m, a, ih, port, token)
    ensures Request(s, cfg, m, addr, tokenValid, now).peers == s.peers
  {
    hide Hear, Get, Utf8.Valid, Utf8.Lossy, Peers.Arrive, AnnouncedPort;
    match (BytesAt(m, Words.Q), DictAt(m, Words.A)) {
      case (Some(q), Some(a)) =>
        if IdAt(a, Words.ID).Some? {
          HearsOnly(s, cfg, IdAt(a, Words.ID).value, addr, now);
          if q == Words.ANNOUNCE_PEER && Announced(a, addr).Some? && |Announced(a, addr).value.0| == ID_BYTES {
            var ih, port := BytesAt(a, Words.INFO_HASH).value, Get<BVal>(a, Words.PORT).value.n;
            assert Announces(m, a, ih, port, BytesAt(a, Words.TOKEN).value);
          }
        }
      case _ =>
    }
  }

  // ----- who is told

  lemma NewestIsListed(peers: Peers.Table, ih: Id, k: nat)
    requires Newest(peers, ih).Some? && Newest(peers, ih).value.addr.ip.V4? && k > 0
    ensures Latest(peers, ih, k) != [] && Newest(peers, ih).value.addr in V4Addrs(Latest(peers, ih, k))
  {
    var list := Latest(peers, ih, k);
    assert list[|list| - 1] == Newest(peers, ih).value;
  }

  /** The reply lists an address that the announcement stands for. */
  ghost predicate Lists(reply: seq<byte>, tid: seq<byte>, r: Krpc.Fields, a: DhtMachine.Fields, addr: Addr, port: int,
                        listed: Addr)
    requires |reply| < SLICE_LIMIT
  {
    && Responds(reply, tid, r) && ListAt(r, Words.VALUES).Some? && listed in ValueAddrs(ListAt(r, Words.VALUES).value)
    && listed.ip == addr.ip && IsAnnouncedPort(a, addr, port, listed.port)
  }

  /** Whoever asks for the infohash after an announcement over IPv4 reads the announced address in the reply. */
  lemma AnnouncedIsListed(s: Dht, cfg: Config, m: DhtMachine.Fields, a: DhtMachine.Fields, ih: Id, port: int,
                          token: seq<byte>, addr: Addr, now: int, tid: seq<byte>, m': DhtMachine.Fields,
                          a': DhtMachine.Fields, addr': Addr, token': seq<byte>, tokenValid: bool, nodes: seq<byte>)
    requires Announces(m, a, ih, port, token) && !cfg.crawl && cfg.k > 0 && addr.ip.V4?
    requires |s.peers| < 50000 || ih in s.peers
    requires Asks(m', Words.GET_PEERS, a') && IdAt(a', Words.ID).Some? && IdAt(a', Words.INFO_HASH) == Some(ih)
    ensures
      var peers := Request(s, cfg, m, addr, true, now).peers;
      var reply := ReplyTo(cfg, peers, tid, m', addr', token', tokenValid, nodes);
      && reply.Some?
      && (|reply.value| < SLICE_LIMIT ==> exists r, listed :: Lists(reply.value, tid, r, a, addr, port, listed))
  {
    hide Request, ReplyTo, Responds, Announces, Asks, IdAt, ListAt, BytesAt, IsAnnouncedPort, Newest, SameBut;
    hide V4Addrs, ValueAddrs, Latest, Shows;
    var peers := Request(s, cfg, m, addr, true, now).peers;
    var reply := ReplyTo(cfg, peers, tid, m', addr', token', tokenValid, nodes);
    AnnouncementIsStored(s, cfg, m, a, ih, port, token, addr, now);
    NewestIsListed(peers, ih, cfg.k);
    GetPeersIsAnswered(cfg, peers, tid, m', a', addr', token', tokenValid, nodes);
    if |reply.value| < SLICE_LIMIT {
      var r :| Responds(reply.value, tid, r) && TellsOf(cfg, peers, ih, token', nodes, r);
      assert Lists(reply.value, tid, r, a, addr, port, Newest(peers, ih).value.addr);
    }
  }
}
