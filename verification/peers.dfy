/** The peers known for each infohash: a bounded, most-recent-last list for a bounded number of them. */
module Peers {
  import opened Bits
  import opened Options
  import opened Nodes

  /** A peer is known by its address; the token it announced itself with travels along. */
  datatype Peer = Peer(addr: Addr, token: Option<seq<byte>>)

  type Table = map<Id, seq<Peer>>

  const MAX_INFOHASHES := 50000

  function Position(peers: seq<Peer>, addr: Addr): (i: nat)
    ensures i <= |peers|
    ensures i < |peers| ==> peers[i].addr == addr
    ensures forall j :: 0 <= j < i ==> peers[j].addr != addr
  {
    if peers == [] then 0
    else if peers[0].addr == addr then 0
    else 1 + Position(peers[1..], addr)
  }

  /** Without the first peer at the address. */
  function WithoutAddr(peers: seq<Peer>, addr: Addr): seq<Peer> {
    if peers == [] then []
    else if peers[0].addr == addr then peers[1..]
    else [peers[0]] + WithoutAddr(peers[1..], addr)
  }

  lemma {:induction false} RemoveAtPosition(peers: seq<Peer>, addr: Addr)
    ensures
      var pos := Position(peers, addr);
      WithoutAddr(peers, addr) == if pos < |peers| then peers[..pos] + peers[pos + 1..] else peers
  {
    if peers != [] && peers[0].addr != addr {
      RemoveAtPosition(peers[1..], addr);
      var pos := Position(peers[1..], addr);
      assert peers == [peers[0]] + peers[1..];
      if pos < |peers| - 1 {
        assert peers[..pos + 1] == [peers[0]] + peers[1..][..pos];
        assert peers[pos + 2..] == peers[1..][pos + 1..];
      }
    }
  }

  function LastK<T>(s: seq<T>, k: nat): seq<T> {
    if |s| <= k then s else s[|s| - k..]
  }

  function InsertPeer(peers: seq<Peer>, peer: Peer, k: nat): seq<Peer> {
    LastK(WithoutAddr(peers, peer.addr) + [peer], k)
  }

  predicate Refuses(t: Table, ih: Id) {
    |t| >= MAX_INFOHASHES && ih !in t
  }

  function Arrive(t: Table, k: nat, ih: Id, peer: Peer): Table {
    if Refuses(t, ih) then t
    else t[ih := InsertPeer(if ih in t then t[ih] else [], peer, k)]
  }

  // ----- a whole history

  datatype Arrival = Arrival(ih: Id, peer: Peer)

  function Run(k: nat, history: seq<Arrival>): Table {
    if history == [] then map[]
    else
      var l := |history| - 1;
      Arrive(Run(k, history[..l]), k, history[l].ih, history[l].peer)
  }

  /** The peers that arrived for one infohash, in order. */
  function For(history: seq<Arrival>, ih: Id): seq<Peer> {
    if history == [] then []
    else
      var l := |history| - 1;
      For(history[..l], ih) + if history[l].ih == ih then [history[l].peer] else []
  }

  predicate Occurs(peers: seq<Peer>, addr: Addr) {
    exists p :: p in peers && p.addr == addr
  }

  /** Of each address only its last arrival. */
  function LastArrivals(peers: seq<Peer>): seq<Peer> {
    if peers == [] then []
    else
      (if Occurs(peers[1..], peers[0].addr) then [] else [peers[0]]) + LastArrivals(peers[1..])
  }

  ghost predicate DistinctAddrs(peers: seq<Peer>) {
    forall i, j :: 0 <= i < j < |peers| ==> peers[i].addr != peers[j].addr
  }

  lemma {:induction false} LastArrivalsFacts(peers: seq<Peer>)
    ensures DistinctAddrs(LastArrivals(peers))
    ensures forall p :: p in LastArrivals(peers) ==> p in peers
    ensures forall addr :: Occurs(peers, addr) <==> Occurs(LastArrivals(peers), addr)
  {
    if peers != [] {
      LastArrivalsFacts(peers[1..]);
      assert peers == [peers[0]] + peers[1..];
      forall addr
        ensures Occurs(peers, addr) <==> Occurs(LastArrivals(peers), addr)
      {
        OccursSplit([peers[0]], peers[1..], addr);
        if !Occurs(peers[1..], peers[0].addr) {
          OccursSplit([peers[0]], LastArrivals(peers[1..]), addr);
        }
        assert Occurs([peers[0]], addr) <==> addr == peers[0].addr by {
          assert peers[0] in [peers[0]];
        }
      }
      if !Occurs(peers[1..], peers[0].addr) {
        forall p | p in LastArrivals(peers[1..])
          ensures p.addr != peers[0].addr
        {
          assert p in peers[1..];
        }
      }
    }
  }

  lemma OccursSplit(a: seq<Peer>, b: seq<Peer>, addr: Addr)
    ensures Occurs(a + b, addr) <==> Occurs(a, addr) || Occurs(b, addr)
  {
    if Occurs(a, addr) {
      var p :| p in a && p.addr == addr;
      assert p in a + b;
    }
    if Occurs(b, addr) {
      var p :| p in b && p.addr == addr;
      assert p in a + b;
    }
  }

  lemma {:induction false} WithoutAbsent(peers: seq<Peer>, addr: Addr)
    requires !Occurs(peers, addr)
    ensures WithoutAddr(peers, addr) == peers
  {
    if peers != [] {
      assert peers[0] in peers;
      assert forall p :: p in peers[1..] ==> p in peers;
      WithoutAbsent(peers[1..], addr);
      assert peers == [peers[0]] + peers[1..];
    }
  }

  lemma AbsentFromLast(peers: seq<Peer>, addr: Addr)
    requires !Occurs(peers, addr)
    ensures WithoutAddr(LastArrivals(peers), addr) == LastArrivals(peers)
  {
    LastArrivalsFacts(peers);
    WithoutAbsent(LastArrivals(peers), addr);
  }

  lemma WithoutCons(first: Peer, rest: seq<Peer>, addr: Addr)
    ensures WithoutAddr([first] + rest, addr) ==
            if first.addr == addr then rest else [first] + WithoutAddr(rest, addr)
  {
    assert ([first] + rest)[1..] == rest;
  }

  /** A new arrival displaces the earlier one of its address and comes last. */
  lemma {:induction false} LastArrivalsAppend(peers: seq<Peer>, peer: Peer)
    ensures LastArrivals(peers + [peer]) == WithoutAddr(LastArrivals(peers), peer.addr) + [peer]
  {
    hide Occurs, WithoutAddr;
    var all := peers + [peer];
    if peers == [] {
      assert all == [peer];
      NoneOccurs(peer.addr);
      assert LastArrivals(all[1..]) == [];
      WithoutNothing(peer.addr);
    } else {
      var first, rest := peers[0], peers[1..];
      var tail := LastArrivals(rest);
      assert all[0] == first && all[1..] == rest + [peer];
      LastArrivalsAppend(rest, peer);
      OccursSplit(rest, [peer], first.addr);
      OccursAlone(peer, first.addr);
      if Occurs(rest, first.addr) {
        assert LastArrivals(peers) == tail;
      } else {
        assert LastArrivals(peers) == [first] + tail;
        WithoutCons(first, tail, peer.addr);
        if first.addr == peer.addr {
          AbsentFromLast(rest, peer.addr);
        } else {
          assert LastArrivals(all) == [first] + (WithoutAddr(tail, peer.addr) + [peer]);
        }
      }
    }
  }

  lemma WithoutNothing(addr: Addr)
    ensures WithoutAddr([], addr) == []
  {
  }

  lemma NoneOccurs(addr: Addr)
    ensures !Occurs([], addr)
  {
  }

  lemma OccursAlone(peer: Peer, addr: Addr)
    ensures Occurs([peer], addr) <==> peer.addr == addr
  {
    assert peer in [peer];
  }

  lemma {:induction false} WithoutLength(peers: seq<Peer>, addr: Addr)
    ensures |peers| - 1 <= |WithoutAddr(peers, addr)| <= |peers|
  {
    if peers != [] {
      WithoutLength(peers[1..], addr);
    }
  }

  /** Cutting off before or after an insertion makes no difference. */
  lemma {:induction false} InsertAfterCut(all: seq<Peer>, peer: Peer, k: nat)
    requires DistinctAddrs(all)
    ensures InsertPeer(LastK(all, k), peer, k) == LastK(WithoutAddr(all, peer.addr) + [peer], k)
  {
    if |all| > k {
      var first, rest := all[0], all[1..];
      assert LastK(all, k) == LastK(rest, k);
      HeadIsApart(all);
      InsertAfterCut(rest, peer, k);
      if first.addr == peer.addr {
        WithoutAbsent(rest, peer.addr);
      } else {
        WithoutLength(rest, peer.addr);
        CutDropsFirst(first, WithoutAddr(rest, peer.addr) + [peer], k);
        assert [first] + WithoutAddr(rest, peer.addr) + [peer] == [first] + (WithoutAddr(rest, peer.addr) + [peer]);
      }
    }
  }

  lemma HeadIsApart(peers: seq<Peer>)
    requires peers != [] && DistinctAddrs(peers)
    ensures DistinctAddrs(peers[1..]) && !Occurs(peers[1..], peers[0].addr)
  {
  }

  lemma CutDropsFirst<T>(x: T, s: seq<T>, k: nat)
    requires |s| >= k
    ensures LastK([x] + s, k) == LastK(s, k)
  {
  }

  lemma ForOneMore(history: seq<Arrival>, ih: Id)
    requires history != []
    ensures
      var l := |history| - 1;
      For(history, ih) ==
      if history[l].ih == ih then For(history[..l], ih) + [history[l].peer] else For(history[..l], ih)
  {
    assert For(history[..|history| - 1], ih) + [] == For(history[..|history| - 1], ih);
  }

  /** The peers of an infohash are the latest of its distinct ones. */
  ghost predicate KeepsLatest(t: Table, k: nat, history: seq<Arrival>, ih: Id)
    requires ih in t
  {
    t[ih] == LastK(LastArrivals(For(history, ih)), k) && For(history, ih) != []
  }

  lemma ArriveKeepsLatest(k: nat, history: seq<Arrival>, t: Table, ih: Id)
    requires history != [] && ih in Arrive(t, k, history[|history| - 1].ih, history[|history| - 1].peer)
    requires ih in t ==> KeepsLatest(t, k, history[..|history| - 1], ih)
    requires ih !in t && !Refuses(t, ih) ==> For(history[..|history| - 1], ih) == []
    ensures KeepsLatest(Arrive(t, k, history[|history| - 1].ih, history[|history| - 1].peer), k, history, ih)
  {
    var l := |history| - 1;
    var before, last := For(history[..l], ih), history[l];
    ForOneMore(history, ih);
    if last.ih == ih {
      LastArrivalsFacts(before);
      LastArrivalsAppend(before, last.peer);
      InsertAfterCut(LastArrivals(before), last.peer, k);
    }
  }

  /**
   * For every infohash in the table, its peers are the last `k` of the distinct peers in the whole
   * history of arrivals, in the order of their latest arrival; and the table stays within its bound.
   */
  lemma {:induction false} RunKeepsLatest(k: nat, history: seq<Arrival>)
    ensures |Run(k, history)| <= MAX_INFOHASHES
    ensures forall ih :: ih in Run(k, history) ==> KeepsLatest(Run(k, history), k, history, ih)
  {
    hide KeepsLatest;
    if history != [] {
      var l := |history| - 1;
      var t := Run(k, history[..l]);
      RunKeepsLatest(k, history[..l]);
      ArriveSize(t, k, history[l].ih, history[l].peer);
      forall ih | ih in Run(k, history)
        ensures KeepsLatest(Run(k, history), k, history, ih)
      {
        RefusedHasNoPast(k, history[..l], ih);
        ArriveKeepsLatest(k, history, t, ih);
      }
    }
  }

  lemma ArriveSize(t: Table, k: nat, ih: Id, peer: Peer)
    ensures Arrive(t, k, ih, peer).Keys == if Refuses(t, ih) then t.Keys else t.Keys + {ih}
    ensures |t| <= MAX_INFOHASHES ==> |Arrive(t, k, ih, peer)| <= MAX_INFOHASHES
    ensures |Arrive(t, k, ih, peer)| >= |t|
  {
    assert |t| == |t.Keys| && |Arrive(t, k, ih, peer)| == |Arrive(t, k, ih, peer).Keys|;
    assert Arrive(t, k, ih, peer).Keys == if Refuses(t, ih) then t.Keys else t.Keys + {ih};
  }

  /** An infohash that has arrived is missing from the table only if it was refused. */
  lemma {:induction false} RefusedHasNoPast(k: nat, history: seq<Arrival>, ih: Id)
    ensures ih !in Run(k, history) && For(history, ih) != [] ==> Refuses(Run(k, history), ih)
  {
    hide Arrive;
    if history != [] {
      var l := |history| - 1;
      RefusedHasNoPast(k, history[..l], ih);
      ForOneMore(history, ih);
      ArriveSize(Run(k, history[..l]), k, history[l].ih, history[l].peer);
    }
  }

  /** Once refused, always refused: from then on the table holds the same infohashes. */
  lemma {:induction false} RefusedForGood(k: nat, history: seq<Arrival>, later: seq<Arrival>, ih: Id)
    requires Refuses(Run(k, history), ih)
    ensures Run(k, history + later).Keys == Run(k, history).Keys
    ensures Refuses(Run(k, history + later), ih)
    decreases |later|
  {
    hide Arrive;
    if later == [] {
      assert history + later == history;
    } else {
      var l := |later| - 1;
      RefusedForGood(k, history, later[..l], ih);
      var all := history + later;
      assert all[..|all| - 1] == history + later[..l] && all[|all| - 1] == later[l];
      ArriveSize(Run(k, history + later[..l]), k, later[l].ih, later[l].peer);
      FullStaysFull(Run(k, history + later[..l]), later[l].ih);
    }
  }

  lemma FullStaysFull(t: Table, ih: Id)
    requires |t| >= MAX_INFOHASHES
    ensures !Refuses(t, ih) ==> ih in t && t.Keys + {ih} == t.Keys
  {
  }

  /** Drops from the front what exceeds `k`. */
  method Truncate(entry: seq<Peer>, k: nat) returns (r: seq<Peer>)
    ensures r == LastK(entry, k)
  {
    r := entry;
    while |r| > k
      invariant |r| <= |entry| && r == entry[|entry| - |r|..]
      invariant |r| < |entry| ==> |r| >= k
    {
      r := r[1..];
    }
  }

  class PeersManager {
    var table: Table
    const k: nat

    constructor (k: nat)
      ensures table == map[] && this.k == k
    {
      table := map[];
      this.k := k;
    }

    method Insert(ih: Id, peer: Peer)
      modifies this
      ensures table == Arrive(old(table), k, ih, peer)
    {
      if |table| >= MAX_INFOHASHES && ih !in table {
        return;
      }
      var entry := if ih in table then table[ih] else [];
      var pos := Position(entry, peer.addr);
      RemoveAtPosition(entry, peer.addr);
      if pos < |entry| {
        entry := entry[..pos] + entry[pos + 1..];
      }
      entry := entry + [peer];
      entry := Truncate(entry, k);
      table := table[ih := entry];
    }

    /** The most recent peers, at most `size`. */
    method Get(ih: Id, size: nat) returns (peers: seq<Peer>)
      ensures peers == if ih in table then LastK(table[ih], size) else []
    {
      if ih !in table {
        return [];
      }
      var len := |table[ih]|;
      var start := if len > size then len - size else 0;
      return table[ih][start..];
    }
  }
}
