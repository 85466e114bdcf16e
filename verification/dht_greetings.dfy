/** Runs in which nodes greet: a query of no meaning makes its sender known. */
module DhtGreetings {
  import opened Bits
  import Words
  import opened Options
  import opened Nodes
  import opened Sequences
  import opened SortedMaps
  import opened Decimals
  import opened Bencode
  import opened Buckets
  import Tries
  import opened Tables
  import opened DhtMachine
  import opened DhtSafety
  import opened DhtFlights
  import opened DhtMemory
  import Utf8

  // ----- a query that makes its sender known

  /** The query `x` with nothing but the sender's id: it has no meaning, and makes the sender known. */
  function GreetingArgs(id: Id): DhtMachine.Fields {
    [Pair([0x69, 0x64], Bytes(id))]
  }

  function GreetingFields(id: Id): DhtMachine.Fields {
    [Pair([0x61], Dict(GreetingArgs(id))), Pair([0x71], Bytes([0x78])), Pair([0x74], Bytes([])),
     Pair([0x79], Bytes([0x71]))]
  }

  const UNKNOWN: seq<byte> := [0x78]

  lemma Letters()
    ensures Words.A == [0x61] && Words.Q == [0x71] && Words.T == [0x74] && Words.Y == [0x79] && Words.ID == [0x69, 0x64]
    ensures Words.R != Words.Q && Words.E != Words.Q
  {
    Words.KeysDiffer();
  }

  lemma GreetingIsWellFormed(id: Id)
    ensures WellFormed(Dict(GreetingFields(id)))
  {
    var m := GreetingFields(id);
    assert Less(m[0].key, m[1].key) && Less(m[1].key, m[2].key) && Less(m[2].key, m[3].key);
    assert Less(m[0].key, m[2].key) && Less(m[0].key, m[3].key) && Less(m[1].key, m[3].key);
    var key := GreetingArgs(id)[0].key;
    assert key[1..] == [0x64] && Utf8.Valid(key[1..][1..]);
  }

  lemma GreetingIsShort(id: Id)
    ensures |Encode(Dict(GreetingFields(id)))| < 100
  {
    hide Encode, EncodeEntries, EncodeBytes;
    var m := GreetingFields(id);
    assert m[1..][1..] == m[2..] && m[2..][1..] == m[3..] && m[3..][1..] == [];
    EntryLength(m);
    EntryLength(m[1..]);
    EntryLength(m[2..]);
    EntryLength(m[3..]);
    Lengths(m, []);
    Lengths([], [0x61]);
    Lengths([], [0x71]);
    Lengths([], [0x74]);
    Lengths([], [0x79]);
    Lengths([], [0x78]);
    ArgsAreShort(id);
  }

  lemma Lengths(m: DhtMachine.Fields, s: seq<byte>)
    requires |s| < 100
    ensures |Encode(Dict(m))| == |EncodeEntries(m)| + 2 && |EncodeEntries([])| == 0
    ensures |Encode(Bytes(s))| == |EncodeBytes(s)| <= |s| + 3
  {
    if |s| >= 10 {
      assert Print(|s|) == Print(|s| / 10) + [DigitOf(|s| % 10)];
      assert |Print(|s| / 10)| == 1;
    }
  }

  lemma EntryLength(m: DhtMachine.Fields)
    requires m != []
    ensures |EncodeEntries(m)| == |EncodeBytes(m[0].key)| + |Encode(m[0].value)| + |EncodeEntries(m[1..])|
  {
    hide EncodeBytes, Encode;
  }

  lemma ArgsAreShort(id: Id)
    ensures |Encode(Dict(GreetingArgs(id)))| <= 30
  {
    hide Encode, EncodeEntries, EncodeBytes;
    var m := GreetingArgs(id);
    EntryLength(m);
    Lengths(m, m[0].key);
    Lengths(m, id);
    assert m[1..] == [];
  }

  lemma GreetingIsRead(id: Id)
    ensures ParseMessage(Dict(GreetingFields(id))) == Some(Message([], Words.Q, GreetingFields(id)))
    ensures BytesAt(GreetingFields(id), Words.Q) == Some(UNKNOWN)
    ensures DictAt(GreetingFields(id), Words.A) == Some(GreetingArgs(id))
    ensures IdAt(GreetingArgs(id), Words.ID) == Some(id)
  {
    hide Get;
    Letters();
    var m := GreetingFields(id);
    assert m[1..][1..] == m[2..] && m[2..][1..] == m[3..];
    GetNext(m, Words.Q);
    GetNext(m, Words.T);
    GetNext(m, Words.Y);
    GetNext(m[1..], Words.Q);
    GetNext(m[1..], Words.T);
    GetNext(m[1..], Words.Y);
    GetNext(m[2..], Words.T);
    GetNext(m[2..], Words.Y);
    GetNext(m[3..], Words.Y);
    GetNext(m, Words.A);
    GetNext(GreetingArgs(id), Words.ID);
  }

  lemma GetNext(m: DhtMachine.Fields, key: seq<byte>)
    requires m != []
    ensures Get(m, key) == if m[0].key == key then Some(m[0].value) else Get(m[1..], key)
  {
  }

  function Greeting(id: Id, addr: Addr, now: int): Timed {
    GreetingIsShort(id);
    At(now, Received(Encode(Dict(GreetingFields(id))), addr, false))
  }

  lemma GreetingIsPacket(id: Id, addr: Addr, now: int)
    ensures ReadPacket(Greeting(id, addr, now).event.data) == Some(Message([], Words.Q, GreetingFields(id)))
  {
    hide Encode, DecodeItem, GreetingFields, WellFormed, ParseMessage;
    GreetingIsShort(id);
    GreetingIsWellFormed(id);
    var v := Dict(GreetingFields(id));
    RoundTrip(v, []);
    assert Encode(v) + [] == Encode(v);
    GreetingIsRead(id);
  }

  lemma GreetingIsComplete(cfg: Config, id: Id, addr: Addr)
    ensures Complete(cfg, UNKNOWN, GreetingArgs(id), addr, false)
  {
    hide GreetingArgs;
    GreetingIsRead(id);
    Letters();
    Words.QueriesDiffer();
    assert Utf8.Valid([0x78][1..]);
  }

  /** With room for him, and if he is not blocked, the sender of a greeting is remembered. */
  lemma GreetingHeard(cfg: Config, start: int, run: seq<Timed>, id: Id, addr: Addr, now: int)
    requires |Reached(cfg, start, run).table.cache| < cfg.maxNodes
    requires !NoPlace(Reached(cfg, start, run).table, cfg.bucketSize, id)
    requires !Blocked(Reached(cfg, start, run).blacklist, addr, now)
    ensures
      var s := Reached(cfg, start, run);
      var s', node := Next(s, cfg, Greeting(id, addr, now)), Node(id, addr, now);
      && Possible(s, cfg, Greeting(id, addr, now))
      && s'.trans == s.trans && s'.drawn == s.drawn && s'.blacklist == s.blacklist
      && s'.table == Hear(s, cfg, id, addr, now).table
      && s'.table.cache == s.table.cache[addr := node]
      && Tries.AllNodes(s'.table.trie) == Without(Tries.AllNodes(s.table.trie), id) + {node}
  {
    hide Reached, ReadPacket, Request, GreetingFields, GreetingArgs, Complete, Without, NoPlace, Hear, Safe;
    var s := Reached(cfg, start, run);
    var m := GreetingFields(id);
    ReachedIsSafe(cfg, start, run);
    Letters();
    GreetingIsPacket(id, addr, now);
    GreetingIsRead(id);
    GreetingIsComplete(cfg, id, addr);
    RequestHears(s, cfg, m, UNKNOWN, GreetingArgs(id), addr, false, now);
    HearBinds(s, cfg, id, addr, now);
    RequestLeavesQueries(s, cfg, m, addr, false, now);
    RequestKeeps(s, cfg, m, addr, false, now);
  }

  // ----- a trie that is a single leaf

  ghost predicate Flat(t: Table) {
    t.trie.inner == {}
  }

  /** The root is the only leaf, and holds every node. */
  lemma FlatLeaf(t: Table, k: nat)
    requires ValidTable(t, k) && Flat(t)
    ensures [] in t.trie.leaves && Tries.AllNodes(t.trie) == NodeSet(t.trie.leaves[[]].nodes)
    ensures |t.trie.leaves[[]].nodes| == |Tries.AllNodes(t.trie)|
  {
    assert Tries.Vertex(t.trie, []);
    assert forall p :: p in t.trie.leaves ==> Tries.Vertex(t.trie, p) && [] <= p;
    var nodes := t.trie.leaves[[]].nodes;
    assert Tries.BucketFits([], t.trie.leaves[[]], k);
    assert NoDup(nodes);
    SetSize(nodes);
  }

  /** While the root is not full there is a place for everybody. */
  lemma FlatHasPlace(t: Table, k: nat, id: Id)
    requires ValidTable(t, k) && Flat(t) && |Tries.AllNodes(t.trie)| < k
    ensures !NoPlace(t, k, id)
  {
    hide Tries.Twins, Tries.AllNodes;
    FlatLeaf(t, k);
    assert Tries.PathTo(id, 0) == [];
    TwinsAreFewer(t.trie.leaves[[]].nodes, id);
    Tries.OneLeafPerId(t.trie, id, []);
  }

  lemma {:induction false} TwinsAreFewer(nodes: seq<Node>, id: Id)
    ensures |Tries.Twins(nodes, id)| <= |nodes|
  {
    if nodes != [] {
      TwinsAreFewer(nodes[1..], id);
    }
  }

  /** Nodes are stored at the root, without a split, while it is not full. */
  lemma HearStaysFlat(s: Dht, cfg: Config, id: Id, addr: Addr, now: int)
    requires Safe(s, cfg) && Flat(s.table) && |Tries.AllNodes(s.table.trie)| < cfg.bucketSize
    ensures Flat(Hear(s, cfg, id, addr, now).table)
  {
    hide Exclusive, Typed, Logged, ValidTable, Tries.AllNodes, Tries.Shape, Tries.Place, Buckets.Insert;
    ValidShape(s.table, cfg.bucketSize);
    FlatLeaf(s.table, cfg.bucketSize);
    assert Tries.PathTo(id, 0) == [];
    Tries.PlaceStores(s.table.trie, cfg.bucketSize, Node(id, addr, now), now, 0);
  }

  lemma {:induction false} RemovalStaysFlat(t: Table, addrs: seq<Addr>, now: int)
    requires Tries.Shape(t.trie)
    ensures RemoveAddrs(t, addrs, now).trie.inner == t.trie.inner
  {
    hide Tries.Shape, Tries.LeafFrom, Buckets.Replace;
    if addrs != [] {
      RemovalStaysFlat(t, addrs[..|addrs| - 1], now);
    }
  }

  lemma DropStaysFlat(t: Table, addrs: seq<Addr>, now: int)
    requires Flat(t)
    ensures Flat(Drop(t, addrs, now))
  {
    hide RemoveAddrs, Tries.Shape;
    if Tries.Shape(t.trie) {
      RemovalStaysFlat(t, addrs, now);
    }
  }

  // ----- runs, one step at a time

  lemma NothingReached(cfg: Config, start: int)
    ensures CanRun(cfg, start, []) && Reached(cfg, start, []) == Initial(start)
    ensures Tries.AllNodes(Initial(start).table.trie) == {} && Flat(Initial(start).table)
  {
    EmptyTrieWellFormed(cfg.bucketSize, start);
  }

  lemma RunOneMore(cfg: Config, start: int, run: seq<Timed>, e: Timed)
    requires CanRun(cfg, start, run) && Possible(Reached(cfg, start, run), cfg, e)
    ensures CanRun(cfg, start, run + [e])
    ensures Reached(cfg, start, run + [e]) == Next(Reached(cfg, start, run), cfg, e)
  {
    hide Possible, Next;
    var longer := run + [e];
    assert longer[..|longer| - 1] == run;
    assert forall i :: 0 <= i < |run| ==> longer[..i] == run[..i] && longer[i] == run[i];
    assert longer[..|run|] == run;
  }
}
