/** The bencode printer and parser with their loops, proved against the functions of `Bencode`. */
module BencodeCodec {
  import opened Bits
  import opened SortedMaps
  import opened Decimals
  import opened Bencode
  import Utf8

  class Buffer {
    var bytes: seq<byte>

    constructor ()
      ensures bytes == []
    {
      bytes := [];
    }

    method Push(b: byte)
      modifies this
      ensures bytes == old(bytes) + [b]
    {
      bytes := bytes + [b];
    }

    method Extend(s: seq<byte>)
      modifies this
      ensures bytes == old(bytes) + s
    {
      bytes := bytes + s;
    }
  }

  method WriteBytes(buf: Buffer, s: seq<byte>)
    modifies buf
    ensures buf.bytes == old(buf.bytes) + EncodeBytes(s)
  {
    buf.Extend(Print(|s|));
    buf.Push(COLON);
    buf.Extend(s);
  }

  method WriteInt(buf: Buffer, n: int)
    modifies buf
    ensures buf.bytes == old(buf.bytes) + Encode(Int(n))
  {
    buf.Push(I);
    buf.Extend(PrintSigned(n));
    buf.Push(E);
  }

  method WriteItem(buf: Buffer, v: BVal)
    modifies buf
    ensures buf.bytes == old(buf.bytes) + Encode(v)
    decreases v, 1
  {
    hide EncodeItems, EncodeEntries, EncodeBytes;
    match v {
      case Bytes(s) =>
        WriteBytes(buf, s);
      case Int(n) =>
        WriteInt(buf, n);
      case List(items) =>
        buf.Push(L);
        WriteItems(buf, items);
        buf.Push(E);
      case Dict(entries) =>
        buf.Push(D);
        WriteEntries(buf, entries);
        buf.Push(E);
    }
  }

  method WriteItems(buf: Buffer, items: seq<BVal>)
    modifies buf
    ensures buf.bytes == old(buf.bytes) + EncodeItems(items)
    decreases items, 0
  {
    hide Encode;
    for i := 0 to |items|
      invariant buf.bytes == old(buf.bytes) + EncodeItems(items[..i])
    {
      WriteItem(buf, items[i]);
      ItemsSnoc(items, i);
    }
    assert items[..|items|] == items;
  }

  method WriteEntries(buf: Buffer, entries: seq<Pair<BVal>>)
    modifies buf
    ensures buf.bytes == old(buf.bytes) + EncodeEntries(entries)
    decreases entries, 0
  {
    hide Encode, EncodeBytes;
    for i := 0 to |entries|
      invariant buf.bytes == old(buf.bytes) + EncodeEntries(entries[..i])
    {
      WriteBytes(buf, entries[i].key);
      WriteItem(buf, entries[i].value);
      EntriesSnoc(entries, i);
      Associative(old(buf.bytes) + EncodeEntries(entries[..i]), EncodeBytes(entries[i].key), Encode(entries[i].value));
    }
    assert entries[..|entries|] == entries;
  }

  method Serialize(v: BVal) returns (r: seq<byte>)
    ensures r == Encode(v)
  {
    var buf := new Buffer();
    WriteItem(buf, v);
    r := buf.bytes;
  }

  lemma Associative(a: seq<byte>, b: seq<byte>, c: seq<byte>)
    ensures (a + b) + c == a + (b + c)
  {
  }

  lemma {:induction false} ItemsAppend(items: seq<BVal>, v: BVal)
    ensures EncodeItems(items + [v]) == EncodeItems(items) + Encode(v)
  {
    hide Encode;
    var all := items + [v];
    if items == [] {
      assert all == [v];
      assert EncodeItems(all[1..]) == [];
    } else {
      assert all[0] == items[0] && all[1..] == items[1..] + [v];
      ItemsAppend(items[1..], v);
      Associative(Encode(items[0]), EncodeItems(items[1..]), Encode(v));
    }
  }

  lemma ItemsSnoc(items: seq<BVal>, i: nat)
    requires i < |items|
    ensures EncodeItems(items[..i + 1]) == EncodeItems(items[..i]) + Encode(items[i])
  {
    hide Encode;
    ItemsAppend(items[..i], items[i]);
    assert items[..i + 1] == items[..i] + [items[i]];
  }

  lemma {:induction false} EntriesAppend(entries: seq<Pair<BVal>>, e: Pair<BVal>)
    ensures EncodeEntries(entries + [e]) == EncodeEntries(entries) + (EncodeBytes(e.key) + Encode(e.value))
  {
    hide Encode, EncodeBytes;
    var all := entries + [e];
    if entries == [] {
      assert all == [e];
      assert EncodeEntries(all[1..]) == [];
    } else {
      var first := entries[0];
      assert all[0] == first && all[1..] == entries[1..] + [e];
      EntriesAppend(entries[1..], e);
      Associative(EncodeBytes(first.key) + Encode(first.value), EncodeEntries(entries[1..]),
                  EncodeBytes(e.key) + Encode(e.value));
    }
  }

  lemma EntriesSnoc(entries: seq<Pair<BVal>>, i: nat)
    requires i < |entries|
    ensures EncodeEntries(entries[..i + 1])
         == EncodeEntries(entries[..i]) + (EncodeBytes(entries[i].key) + Encode(entries[i].value))
  {
    hide Encode, EncodeBytes;
    EntriesAppend(entries[..i], entries[i]);
    assert entries[..i + 1] == entries[..i] + [entries[i]];
  }

  // ----- reading

  method ReadItem(data: Slice, i: nat) returns (r: Result<BVal>)
    ensures r == DecodeItem(data, i)
    decreases |data| - i, 1
  {
    hide DecodeList, DecodeDict, DecodeInt, DecodeString;
    if i >= |data| {
      return Err(OutOfRange);
    }
    if data[i] == L {
      var items := ReadList(data, i);
      match items {
        case Ok(value, j) => return Ok(List(value), j);
        case Err(error) => return Err(error);
      }
    } else if data[i] == D {
      var entries := ReadDict(data, i);
      match entries {
        case Ok(value, j) => return Ok(Dict(value), j);
        case Err(error) => return Err(error);
      }
    } else if data[i] == I {
      match DecodeInt(data, i) {
        case Ok(n, j) => return Ok(Int(n), j);
        case Err(error) => return Err(error);
      }
    } else if IsDigit(data[i]) {
      match DecodeString(data, i) {
        case Ok(s, j) => return Ok(Bytes(s), j);
        case Err(error) => return Err(error);
      }
    } else {
      return Err(Invalid);
    }
  }

  method ReadList(data: Slice, start: nat) returns (r: Result<seq<BVal>>)
    ensures r == DecodeList(data, start)
    decreases |data| - start, 0
  {
    hide DecodeItem;
    if start >= |data| || data[start] != L {
      return Err(Invalid);
    }
    var i, out := start + 1, [];
    while i < |data|
      invariant start < i <= |data|
      invariant DecodeItems(data, i, out) == DecodeItems(data, start + 1, [])
    {
      if data[i] == E {
        return Ok(out, i + 1);
      }
      var item := ReadItem(data, i);
      match item {
        case Err(error) => return Err(error);
        case Ok(value, j) =>
          out := out + [value];
          i := j;
      }
    }
    return Err(Invalid);
  }

  method ReadDict(data: Slice, start: nat) returns (r: Result<seq<Pair<BVal>>>)
    ensures r == DecodeDict(data, start)
    decreases |data| - start, 0
  {
    hide DecodeItem, DecodeString, Put, Utf8.Lossy;
    if start >= |data| || data[start] != D {
      return Err(Invalid);
    }
    var i, out := start + 1, [];
    while i < |data|
      invariant start < i <= |data|
      invariant DecodeEntries(data, i, out) == DecodeEntries(data, start + 1, [])
    {
      if data[i] == E {
        return Ok(out, i + 1);
      }
      if !IsDigit(data[i]) {
        return Err(Invalid);
      }
      var k := DecodeString(data, i);
      if k.Err? {
        return Err(k.error);
      }
      if k.next >= |data| {
        return Err(OutOfRange);
      }
      var v := ReadItem(data, k.next);
      match v {
        case Err(error) => return Err(error);
        case Ok(value, j) =>
          out := Put(out, Utf8.Lossy(k.value), value);
          i := j;
      }
    }
    return Err(Invalid);
  }
}
