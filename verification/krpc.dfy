/** The envelopes of BEP 5 messages: a dictionary with an id, a kind, and a body. */
module Krpc {
  import opened Bits
  import Words
  import opened Options
  import opened SortedMaps
  import opened Bencode
  import Utf8

  type Fields = seq<Pair<BVal>>

  /** A dictionary of the given pairs; of two with the same key the later counts. */
  function DictOf(pairs: seq<Pair<BVal>>): Fields {
    if pairs == [] then []
    else Put(DictOf(pairs[..|pairs| - 1]), pairs[|pairs| - 1].key, pairs[|pairs| - 1].value)
  }

  function Envelope(tid: seq<byte>, kind: seq<byte>, key: seq<byte>, body: BVal): Fields {
    DictOf([Pair(Words.T, Bytes(tid)), Pair(Words.Y, Bytes(kind)), Pair(key, body)])
  }

  function MakeResponse(tid: seq<byte>, r: BVal): seq<byte> {
    Encode(Dict(Envelope(tid, Words.R, Words.R, r)))
  }

  function MakeError(tid: seq<byte>, code: int, msg: seq<byte>): seq<byte> {
    Encode(Dict(Envelope(tid, Words.E, Words.E, List([Int(code), Bytes(msg)]))))
  }

  /** Keys are text and values are well formed. */
  ghost predicate GoodPairs(pairs: seq<Pair<BVal>>) {
    forall p :: p in pairs ==> Utf8.Valid(p.key) && WellFormed(p.value)
  }

  lemma {:induction false} DictOfIsWellFormed(pairs: seq<Pair<BVal>>)
    requires GoodPairs(pairs)
    ensures WellFormed(Dict(DictOf(pairs)))
  {
    hide Put;
    if pairs != [] {
      var front, last := pairs[..|pairs| - 1], pairs[|pairs| - 1];
      assert last in pairs;
      DictOfIsWellFormed(front);
      PutKeepsTextual(DictOf(front), last.key, last.value);
    }
  }

  /** The value last given to a key. */
  function LastOf(pairs: seq<Pair<BVal>>, key: seq<byte>): Option<BVal> {
    if pairs == [] then None
    else if pairs[|pairs| - 1].key == key then Some(pairs[|pairs| - 1].value)
    else LastOf(pairs[..|pairs| - 1], key)
  }

  lemma {:induction false} GetOfDict(pairs: seq<Pair<BVal>>, key: seq<byte>)
    requires GoodPairs(pairs)
    ensures Get(DictOf(pairs), key) == LastOf(pairs, key)
  {
    hide Put;
    if pairs != [] {
      var front, last := pairs[..|pairs| - 1], pairs[|pairs| - 1];
      assert last in pairs;
      GetOfDict(front, key);
      DictOfIsWellFormed(front);
      GetPut(DictOf(front), last.key, last.value, key);
    }
  }

  lemma OneIsRead(a: Pair<BVal>)
    requires GoodPairs([a])
    ensures WellFormed(Dict(DictOf([a]))) && Get(DictOf([a]), a.key) == Some(a.value)
    ensures forall key :: key != a.key ==> Get(DictOf([a]), key).None?
  {
    hide DictOf, WellFormed, Get;
    DictOfIsWellFormed([a]);
    assert [a][..0] == [];
    forall key
      ensures Get(DictOf([a]), key) == if key == a.key then Some(a.value) else None
    {
      GetOfDict([a], key);
      assert LastOf([], key) == None;
    }
  }

  lemma LastOfTwo(a: Pair<BVal>, b: Pair<BVal>, key: seq<byte>)
    ensures LastOf([a, b], key) == if key == b.key then Some(b.value) else if key == a.key then Some(a.value) else None
  {
    assert [a, b][..1] == [a];
    assert [a][..0] == [];
    assert LastOf([a], key) == if key == a.key then Some(a.value) else None;
  }

  lemma TwoAreRead(a: Pair<BVal>, b: Pair<BVal>)
    requires GoodPairs([a, b]) && a.key != b.key
    ensures WellFormed(Dict(DictOf([a, b])))
    ensures Get(DictOf([a, b]), a.key) == Some(a.value) && Get(DictOf([a, b]), b.key) == Some(b.value)
    ensures forall key :: key != a.key && key != b.key ==> Get(DictOf([a, b]), key).None?
  {
    hide DictOf, WellFormed, Get;
    var pairs := [a, b];
    DictOfIsWellFormed(pairs);
    forall key
      ensures Get(DictOf(pairs), key) ==
              if key == b.key then Some(b.value) else if key == a.key then Some(a.value) else None
    {
      GetOfDict(pairs, key);
      LastOfTwo(a, b, key);
    }
  }

  lemma ThreeAreRead(a: Pair<BVal>, b: Pair<BVal>, c: Pair<BVal>)
    requires GoodPairs([a, b, c]) && a.key != b.key && a.key != c.key && b.key != c.key
    ensures WellFormed(Dict(DictOf([a, b, c])))
    ensures Get(DictOf([a, b, c]), a.key) == Some(a.value) && Get(DictOf([a, b, c]), b.key) == Some(b.value)
    ensures Get(DictOf([a, b, c]), c.key) == Some(c.value)
    ensures forall key :: key != a.key && key != b.key && key != c.key ==> Get(DictOf([a, b, c]), key).None?
  {
    hide DictOf, WellFormed, Get;
    var pairs := [a, b, c];
    DictOfIsWellFormed(pairs);
    assert pairs[..2] == [a, b];
    forall key
      ensures Get(DictOf(pairs), key) ==
              if key == c.key then Some(c.value) else if key == b.key then Some(b.value)
              else if key == a.key then Some(a.value) else None
    {
      GetOfDict(pairs, key);
      LastOfTwo(a, b, key);
    }
  }
}
