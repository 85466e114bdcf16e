/** Bencoded values, their encoding, and the decoder as functions of the data and an index. */
module Bencode {
  import opened Bits
  import opened Options
  import opened SortedMaps
  import opened Decimals
  import Utf8

  /** A dictionary's keys are text, held as its bytes. */
  datatype BVal =
    | Bytes(bytes: seq<byte>)
    | Int(n: int)
    | List(items: seq<BVal>)
    | Dict(entries: seq<Pair<BVal>>)

  datatype Error = Invalid | OutOfRange | ParseInt

  datatype Result<+T> = Ok(value: T, next: nat) | Err(error: Error)

  /** What a slice of memory can hold. */
  const SLICE_LIMIT := 0x8000_0000_0000_0000

  type Slice = s: seq<byte> | |s| < SLICE_LIMIT

  const I: byte := 0x69
  const E: byte := 0x65
  const L: byte := 0x6C
  const D: byte := 0x64
  const COLON: byte := 0x3A

  /** The values there can be: 64-bit integers, and dictionaries with ascending textual keys. */
  ghost predicate WellFormed(v: BVal)
    decreases v
  {
    match v
    case Bytes(_) => true
    case Int(n) => I64_MIN <= n <= I64_MAX
    case List(items) => forall i :: 0 <= i < |items| ==> WellFormed(items[i])
    case Dict(entries) =>
      && Ascending(entries)
      && forall i :: 0 <= i < |entries| ==> Utf8.Valid(entries[i].key) && WellFormed(entries[i].value)
  }

  // ----- the encoding

  function EncodeBytes(s: seq<byte>): seq<byte> {
    Print(|s|) + [COLON] + s
  }

  function Encode(v: BVal): (r: seq<byte>)
    ensures r != []
    decreases v, 1
  {
    match v
    case Bytes(s) => EncodeBytes(s)
    case Int(n) => [I] + PrintSigned(n) + [E]
    case List(items) => [L] + EncodeItems(items) + [E]
    case Dict(entries) => [D] + EncodeEntries(entries) + [E]
  }

  function EncodeItems(items: seq<BVal>): seq<byte>
    decreases items, 0
  {
    if items == [] then [] else Encode(items[0]) + EncodeItems(items[1..])
  }

  function EncodeEntries(entries: seq<Pair<BVal>>): seq<byte>
    decreases entries, 0
  {
    if entries == [] then []
    else EncodeBytes(entries[0].key) + Encode(entries[0].value) + EncodeEntries(entries[1..])
  }

  // ----- the decoder

  /** The first index from `start` on that holds `target`. */
  function Find(data: seq<byte>, start: nat, target: byte): (r: Option<nat>)
    requires start <= |data|
    ensures r.Some? ==> start <= r.value < |data| && data[r.value] == target && target !in data[start..r.value]
    ensures r.None? ==> target !in data[start..]
    decreases |data| - start
  {
    if start == |data| then None
    else if data[start] == target then Some(start)
    else
      var r := Find(data, start + 1, target);
      assert data[start..] == [data[start]] + data[start + 1..];
      assert r.Some? ==> data[start..r.value] == [data[start]] + data[start + 1..r.value];
      r
  }

  /** Addition of machine words. */
  function WrappingAdd(a: nat, b: nat): nat {
    (a + b) % USIZE_LIMIT
  }

  function DecodeString(data: Slice, i: nat): (r: Result<seq<byte>>)
    ensures r.Ok? ==> i < r.next <= |data| && IsDigit(data[i])
  {
    if i >= |data| || !IsDigit(data[i]) then Err(Invalid)
    else
      var colon := Find(data, i, COLON);
      if colon.None? then Err(Invalid)
      else
        var len := ParseUsize(data[i..colon.value]);
        if len.None? then Err(ParseInt)
        else
          var end := WrappingAdd(colon.value + 1, len.value);
          if end > |data| || end < colon.value + 1 then Err(OutOfRange)
          else Ok(data[colon.value + 1..end], end)
  }

  function DecodeInt(data: Slice, i: nat): (r: Result<int>)
    ensures r.Ok? ==> i < r.next <= |data| && I64_MIN <= r.value <= I64_MAX && data[i] == I
  {
    if i >= |data| || data[i] != I then Err(Invalid)
    else
      var end := Find(data, i + 1, E);
      if end.None? then Err(Invalid)
      else
        var num := ParseI64(data[i + 1..end.value]);
        if num.None? then Err(ParseInt) else Ok(num.value, end.value + 1)
  }

  function DecodeItem(data: Slice, i: nat): (r: Result<BVal>)
    ensures r.Ok? ==> i < r.next <= |data|
    decreases |data| - i, 1
  {
    if i >= |data| then Err(OutOfRange)
    else if data[i] == L then
      match DecodeList(data, i)
      case Ok(items, j) => Ok(List(items), j)
      case Err(error) => Err(error)
    else if data[i] == D then
      match DecodeDict(data, i)
      case Ok(entries, j) => Ok(Dict(entries), j)
      case Err(error) => Err(error)
    else if data[i] == I then
      match DecodeInt(data, i)
      case Ok(n, j) => Ok(Int(n), j)
      case Err(error) => Err(error)
    else if IsDigit(data[i]) then
      match DecodeString(data, i)
      case Ok(s, j) => Ok(Bytes(s), j)
      case Err(error) => Err(error)
    else Err(Invalid)
  }

  function DecodeList(data: Slice, i: nat): (r: Result<seq<BVal>>)
    ensures r.Ok? ==> i < r.next <= |data|
    decreases |data| - i, 0
  {
    if i >= |data| || data[i] != L then Err(Invalid) else DecodeItems(data, i + 1, [])
  }

  /** The items from `i` on up to the closing mark, after those already read. */
  function DecodeItems(data: Slice, i: nat, out: seq<BVal>): (r: Result<seq<BVal>>)
    ensures r.Ok? ==> i < r.next <= |data|
    decreases |data| - i, 2
  {
    if i >= |data| then Err(Invalid)
    else if data[i] == E then Ok(out, i + 1)
    else
      match DecodeItem(data, i)
      case Err(error) => Err(error)
      case Ok(item, j) => DecodeItems(data, j, out + [item])
  }

  function DecodeDict(data: Slice, i: nat): (r: Result<seq<Pair<BVal>>>)
    ensures r.Ok? ==> i < r.next <= |data|
    decreases |data| - i, 0
  {
    if i >= |data| || data[i] != D then Err(Invalid) else DecodeEntries(data, i + 1, [])
  }

  function DecodeEntries(data: Slice, i: nat, out: seq<Pair<BVal>>): (r: Result<seq<Pair<BVal>>>)
    ensures r.Ok? ==> i < r.next <= |data|
    decreases |data| - i, 2
  {
    if i >= |data| then Err(Invalid)
    else if data[i] == E then Ok(out, i + 1)
    else if !IsDigit(data[i]) then Err(Invalid)
    else
      match DecodeString(data, i)
      case Err(error) => Err(error)
      case Ok(key, j) =>
        if j >= |data| then Err(OutOfRange)
        else
          match DecodeItem(data, j)
          case Err(error) => Err(error)
          case Ok(value, j2) => DecodeEntries(data, j2, Put(out, Utf8.Lossy(key), value))
  }

  function Decode(data: Slice): Result<BVal> {
    DecodeItem(data, 0)
  }

  // ----- what is decoded depends only on the bytes read

  /** `bytes` stand in `data` at index `i`. */
  ghost predicate At(data: seq<byte>, i: nat, bytes: seq<byte>) {
    i + |bytes| <= |data| && data[i..i + |bytes|] == bytes
  }

  lemma AtConcat(data: seq<byte>, i: nat, a: seq<byte>, b: seq<byte>)
    ensures At(data, i, a + b) <==> At(data, i, a) && At(data, i + |a|, b)
  {
    if At(data, i, a + b) {
      assert a == (a + b)[..|a|] == data[i..i + |a + b|][..|a|];
      assert b == (a + b)[|a|..] == data[i..i + |a + b|][|a|..];
    }
    if At(data, i, a) && At(data, i + |a|, b) {
      assert data[i..i + |a + b|] == data[i..i + |a|] + data[i + |a|..i + |a| + |b|];
    }
  }

  lemma AtIndex(data: seq<byte>, i: nat, bytes: seq<byte>, l: nat)
    requires At(data, i, bytes) && l < |bytes|
    ensures i + l < |data| && data[i + l] == bytes[l]
  {
    assert data[i..i + |bytes|][l] == data[i + l];
  }

  lemma {:induction false} FindFirst(data: seq<byte>, start: nat, target: byte, at: nat)
    requires start <= at < |data| && data[at] == target && target !in data[start..at]
    ensures Find(data, start, target) == Some(at)
    decreases at - start
  {
    if start < at {
      assert data[start..at] == [data[start]] + data[start + 1..at];
      FindFirst(data, start + 1, target, at);
    }
  }

  /** The same stretch of `n` bytes at `i` in one string and at `i'` in another. */
  ghost predicate Same(data: seq<byte>, i: nat, data': seq<byte>, i': nat, n: nat) {
    i + n <= |data| && i' + n <= |data'| && data[i..i + n] == data'[i'..i' + n]
  }

  lemma SameByte(data: seq<byte>, i: nat, data': seq<byte>, i': nat, n: nat, l: nat)
    requires Same(data, i, data', i', n) && l < n
    ensures i + n <= |data| && i' + n <= |data'| && data[i + l] == data'[i' + l]
  {
    assert data[i..i + n][l] == data'[i'..i' + n][l];
  }

  lemma SameSlice(data: seq<byte>, i: nat, data': seq<byte>, i': nat, n: nat, from: nat, to: nat)
    requires Same(data, i, data', i', n) && from <= to <= n
    ensures i + n <= |data| && i' + n <= |data'| && data[i + from..i + to] == data'[i' + from..i' + to]
  {
    var a, b := data[i + from..i + to], data'[i' + from..i' + to];
    forall l | 0 <= l < |a|
      ensures a[l] == b[l]
    {
      SameByte(data, i, data', i', n, from + l);
    }
  }

  lemma SameFind(data: seq<byte>, i: nat, data': seq<byte>, i': nat, n: nat, from: nat, target: byte)
    requires Same(data, i, data', i', n) && from <= n && i + n <= |data|
    requires Find(data, i + from, target).Some? && Find(data, i + from, target).value < i + n
    ensures i' + n <= |data'| && Find(data', i' + from, target) == Some(Find(data, i + from, target).value - i + i')
  {
    var at := Find(data, i + from, target).value - i;
    SameSlice(data, i, data', i', n, from, at);
    SameByte(data, i, data', i', n, at);
    FindFirst(data', i' + from, target, i' + at);
  }

  lemma StringIs(data: Slice, i: nat, colon: nat, len: nat)
    requires i < |data| && IsDigit(data[i]) && Find(data, i, COLON) == Some(colon) && i <= colon
    requires colon + 1 + len <= |data| && ParseUsize(data[i..colon]) == Some(len)
    ensures DecodeString(data, i) == Ok(data[colon + 1..colon + 1 + len], colon + 1 + len)
  {
    hide Find, ParseUsize, WrappingAdd;
    NoWrap(colon + 1, len);
  }

  lemma NoWrap(a: nat, b: nat)
    requires a + b < SLICE_LIMIT
    ensures WrappingAdd(a, b) == a + b
  {
  }

  lemma StringParts(data: Slice, i: nat) returns (colon: nat, len: nat)
    requires DecodeString(data, i).Ok?
    ensures i < |data| && IsDigit(data[i]) && Find(data, i, COLON) == Some(colon) && i <= colon
    ensures colon + 1 + len <= |data| && ParseUsize(data[i..colon]) == Some(len)
    ensures DecodeString(data, i) == Ok(data[colon + 1..colon + 1 + len], colon + 1 + len)
  {
    hide ParseUsize;
    colon := Find(data, i, COLON).value;
    len := ParseUsize(data[i..colon]).value;
  }

  lemma SameString(data: Slice, i: nat, data': Slice, i': nat, n: nat)
    requires DecodeString(data, i).Ok? && DecodeString(data, i).next == i + n
    requires Same(data, i, data', i', n)
    ensures DecodeString(data', i') == Ok(DecodeString(data, i).value, i' + n)
  {
    hide DecodeString, Find, ParseUsize, Same;
    var end, len := StringParts(data, i);
    var colon := end - i;
    SameByte(data, i, data', i', n, 0);
    SameFind(data, i, data', i', n, 0, COLON);
    SameSlice(data, i, data', i', n, 0, colon);
    SameSlice(data, i, data', i', n, colon + 1, n);
    StringIs(data', i', i' + colon, len);
  }

  lemma SameInt(data: Slice, i: nat, data': Slice, i': nat, n: nat)
    requires DecodeInt(data, i).Ok? && DecodeInt(data, i).next == i + n
    requires Same(data, i, data', i', n)
    ensures DecodeInt(data', i') == Ok(DecodeInt(data, i).value, i' + n)
  {
    hide Find, ParseI64, Same;
    SameByte(data, i, data', i', n, 0);
    var end := Find(data, i + 1, E).value - i;
    SameFind(data, i, data', i', n, 1, E);
    SameSlice(data, i, data', i', n, 1, end);
  }

  lemma SameTail(data: seq<byte>, i: nat, data': seq<byte>, i': nat, n: nat, m: nat)
    requires Same(data, i, data', i', n) && m <= n
    ensures Same(data, i + m, data', i' + m, n - m)
    ensures Same(data, i, data', i', m)
  {
    SameSlice(data, i, data', i', n, m, n);
    SameSlice(data, i, data', i', n, 0, m);
  }

  /** Wherever the bytes an item was read from stand, the same item is read from them. */
  lemma {:induction false} SameItem(data: Slice, i: nat, data': Slice, i': nat, n: nat)
    requires DecodeItem(data, i).Ok? && DecodeItem(data, i).next == i + n
    requires Same(data, i, data', i', n)
    ensures DecodeItem(data', i') == Ok(DecodeItem(data, i).value, i' + n)
    decreases |data| - i, 1
  {
    hide DecodeString, DecodeInt, DecodeItems, DecodeEntries, Same;
    SameByte(data, i, data', i', n, 0);
    if data[i] == L {
      SameTail(data, i, data', i', n, 1);
      SameItems(data, i + 1, data', i' + 1, n - 1, []);
    } else if data[i] == D {
      SameTail(data, i, data', i', n, 1);
      SameEntries(data, i + 1, data', i' + 1, n - 1, []);
    } else if data[i] == I {
      SameInt(data, i, data', i', n);
    } else {
      SameString(data, i, data', i', n);
    }
  }

  lemma {:induction false} SameItems(data: Slice, i: nat, data': Slice, i': nat, n: nat, out: seq<BVal>)
    requires DecodeItems(data, i, out).Ok? && DecodeItems(data, i, out).next == i + n
    requires Same(data, i, data', i', n)
    ensures DecodeItems(data', i', out) == Ok(DecodeItems(data, i, out).value, i' + n)
    decreases |data| - i, 2
  {
    hide DecodeItem, Same;
    SameByte(data, i, data', i', n, 0);
    if data[i] != E {
      var item := DecodeItem(data, i);
      var m := item.next - i;
      SameTail(data, i, data', i', n, m);
      SameItem(data, i, data', i', m);
      SameItems(data, i + m, data', i' + m, n - m, out + [item.value]);
    }
  }

  /** A key and what follows it. */
  lemma SameKey(data: Slice, i: nat, data': Slice, i': nat, n: nat, m: nat)
    requires DecodeString(data, i).Ok? && DecodeString(data, i).next == i + m && m < n
    requires Same(data, i, data', i', n)
    ensures DecodeString(data', i') == Ok(DecodeString(data, i).value, i' + m)
    ensures Same(data, i + m, data', i' + m, n - m) && i' + n <= |data'|
  {
    hide DecodeString;
    SameTail(data, i, data', i', n, m);
    SameString(data, i, data', i', m);
  }

  /** What reading entries does with the next one. */
  lemma EntriesStep(data: Slice, i: nat, out: seq<Pair<BVal>>)
    ensures i < |data| && data[i] == E ==> DecodeEntries(data, i, out) == Ok(out, i + 1)
    ensures i < |data| && IsDigit(data[i]) && DecodeString(data, i).Ok? && DecodeString(data, i).next < |data|
            && DecodeItem(data, DecodeString(data, i).next).Ok? ==>
              var key := DecodeString(data, i);
              var value := DecodeItem(data, key.next);
              DecodeEntries(data, i, out) ==
              DecodeEntries(data, value.next, Put(out, Utf8.Lossy(key.value), value.value))
    ensures DecodeEntries(data, i, out).Ok? ==>
              && i < |data|
              && (data[i] != E ==>
                    && IsDigit(data[i]) && DecodeString(data, i).Ok? && DecodeString(data, i).next < |data|
                    && DecodeItem(data, DecodeString(data, i).next).Ok?)
  {
    hide DecodeString, DecodeItem, Put, Utf8.Lossy;
  }

  lemma {:induction false} SameEntries(data: Slice, i: nat, data': Slice, i': nat, n: nat, out: seq<Pair<BVal>>)
    requires DecodeEntries(data, i, out).Ok? && DecodeEntries(data, i, out).next == i + n
    requires Same(data, i, data', i', n)
    ensures DecodeEntries(data', i', out) == Ok(DecodeEntries(data, i, out).value, i' + n)
    decreases |data| - i, 2
  {
    hide DecodeEntries, DecodeItem, DecodeString, Same, Put, Utf8.Lossy;
    SameByte(data, i, data', i', n, 0);
    EntriesStep(data, i, out);
    EntriesStep(data', i', out);
    if data[i] != E {
      var key := DecodeString(data, i);
      var value := DecodeItem(data, key.next);
      var m, m2 := key.next - i, value.next - i;
      SameKey(data, i, data', i', n, m);
      SameTail(data, i + m, data', i' + m, n - m, m2 - m);
      SameItem(data, i + m, data', i' + m, m2 - m);
      SameEntries(data, i + m2, data', i' + m2, n - m2, Put(out, Utf8.Lossy(key.value), value.value));
    }
  }

  lemma InTheMiddle(data: seq<byte>, i: nat, n: nat, before: seq<byte>, after: seq<byte>)
    requires i + n <= |data|
    ensures |before + data[i..i + n] + after| == |before| + n + |after|
    ensures Same(data, i, before + data[i..i + n] + after, |before|, n)
  {
    var all := before + data[i..i + n] + after;
    assert all[|before|..|before| + n] == data[i..i + n];
  }

  /** An item read somewhere is read from its own bytes between any two others. */
  lemma DecodingIsLocal(data: Slice, i: nat, n: nat, before: seq<byte>, after: seq<byte>)
    requires DecodeItem(data, i).Ok? && DecodeItem(data, i).next == i + n
    requires |before| + n + |after| < SLICE_LIMIT
    ensures DecodeItem(before + data[i..i + n] + after, |before|) == Ok(DecodeItem(data, i).value, |before| + n)
  {
    hide DecodeItem, Same;
    InTheMiddle(data, i, n, before, after);
    var all := before + data[i..i + n] + after;
    SameItem(data, i, all, |before|, n);
  }

  // ----- what is encoded is what is decoded

  lemma StringRoundTrip(s: seq<byte>, data: Slice, i: nat)
    requires At(data, i, EncodeBytes(s))
    ensures DecodeString(data, i) == Ok(s, i + |EncodeBytes(s)|)
    ensures i < |data| && IsDigit(data[i])
  {
    hide Print, ParseUsize, Find;
    var digits := Print(|s|);
    AtConcat(data, i, digits + [COLON], s);
    AtConcat(data, i, digits, [COLON]);
    assert digits[0] in digits && COLON !in digits;
    AtIndex(data, i, digits, 0);
    AtIndexed(data, i + |digits|, COLON);
    FindFirst(data, i, COLON, i + |digits|);
    SizeRoundTrip(|s|);
    assert WrappingAdd(i + |digits| + 1, |s|) == i + |digits| + 1 + |s|;
  }

  lemma IntRoundTrip(n: int, data: Slice, i: nat)
    requires I64_MIN <= n <= I64_MAX && At(data, i, [I] + PrintSigned(n) + [E])
    ensures DecodeInt(data, i) == Ok(n, i + |PrintSigned(n)| + 2)
  {
    hide At, Find, PrintSigned, ParseI64;
    var digits := PrintSigned(n);
    AtConcat(data, i, [I] + digits, [E]);
    AtConcat(data, i, [I], digits);
    AtIndex(data, i, [I], 0);
    AtIndex(data, i + 1 + |digits|, [E], 0);
    AtIs(data, i + 1, digits);
    SignedHasNoE(n);
    FindFirst(data, i + 1, E, i + 1 + |digits|);
    SignedRoundTrip(n);
  }

  lemma AtIs(data: seq<byte>, i: nat, bytes: seq<byte>)
    requires At(data, i, bytes)
    ensures i + |bytes| <= |data| && data[i..i + |bytes|] == bytes
  {
  }

  lemma SignedHasNoE(n: int)
    ensures E !in PrintSigned(n)
  {
    var digits := Print(if n < 0 then -n else n);
    assert E !in digits;
  }

  lemma ReadsList(data: Slice, i: nat, items: seq<BVal>, j: nat)
    requires i < |data| && data[i] == L && DecodeItems(data, i + 1, []) == Ok(items, j)
    ensures DecodeItem(data, i) == Ok(List(items), j)
  {
    hide DecodeItems, DecodeDict, DecodeInt, DecodeString;
  }

  lemma ReadsDict(data: Slice, i: nat, entries: seq<Pair<BVal>>, j: nat)
    requires i < |data| && data[i] == D && DecodeEntries(data, i + 1, []) == Ok(entries, j)
    ensures DecodeItem(data, i) == Ok(Dict(entries), j)
  {
    hide DecodeEntries, DecodeList, DecodeInt, DecodeString;
  }

  lemma ListRoundTrip(items: seq<BVal>, data: Slice, i: nat)
    requires At(data, i, [L] + EncodeItems(items) + [E])
    requires At(data, i + 1, EncodeItems(items)) && At(data, i + 1 + |EncodeItems(items)|, [E]) ==>
               DecodeItems(data, i + 1, []) == Ok([] + items, i + 1 + |EncodeItems(items)| + 1)
    ensures DecodeItem(data, i) == Ok(List(items), i + |EncodeItems(items)| + 2)
  {
    hide DecodeItem, DecodeItems, EncodeItems, At;
    Bracketed(data, i, L, EncodeItems(items));
    assert [] + items == items;
    ReadsList(data, i, items, i + |EncodeItems(items)| + 2);
  }

  lemma DictRoundTrip(entries: seq<Pair<BVal>>, data: Slice, i: nat)
    requires At(data, i, [D] + EncodeEntries(entries) + [E])
    requires At(data, i + 1, EncodeEntries(entries)) && At(data, i + 1 + |EncodeEntries(entries)|, [E]) ==>
               DecodeEntries(data, i + 1, []) == Ok([] + entries, i + 1 + |EncodeEntries(entries)| + 1)
    ensures DecodeItem(data, i) == Ok(Dict(entries), i + |EncodeEntries(entries)| + 2)
  {
    hide DecodeItem, DecodeEntries, EncodeEntries, At;
    Bracketed(data, i, D, EncodeEntries(entries));
    assert [] + entries == entries;
    ReadsDict(data, i, entries, i + |EncodeEntries(entries)| + 2);
  }

  lemma ReadsBytes(s: seq<byte>, data: Slice, i: nat)
    requires At(data, i, EncodeBytes(s))
    ensures DecodeItem(data, i) == Ok(Bytes(s), i + |EncodeBytes(s)|)
  {
    hide DecodeString, DecodeInt, DecodeList, DecodeDict, EncodeBytes, At;
    StringRoundTrip(s, data, i);
  }

  lemma ReadsInt(n: int, data: Slice, i: nat)
    requires I64_MIN <= n <= I64_MAX && At(data, i, [I] + PrintSigned(n) + [E])
    ensures DecodeItem(data, i) == Ok(Int(n), i + |PrintSigned(n)| + 2)
  {
    hide DecodeString, DecodeInt, DecodeList, DecodeDict, PrintSigned, At;
    Bracketed(data, i, I, PrintSigned(n));
    IntRoundTrip(n, data, i);
  }

  /** Every well-formed value is read back from its encoding, wherever that stands. */
  lemma {:induction false} ItemRoundTrip(v: BVal, data: Slice, i: nat)
    requires WellFormed(v) && At(data, i, Encode(v))
    ensures DecodeItem(data, i) == Ok(v, i + |Encode(v)|)
    decreases v, 1
  {
    hide DecodeItem, DecodeItems, DecodeEntries, EncodeItems, EncodeEntries, EncodeBytes, PrintSigned, At;
    match v {
      case Bytes(s) =>
        ReadsBytes(s, data, i);
      case Int(n) =>
        ReadsInt(n, data, i);
      case List(items) =>
        if At(data, i + 1, EncodeItems(items)) && At(data, i + 1 + |EncodeItems(items)|, [E]) {
          ItemsRoundTrip(items, data, i + 1, []);
        }
        ListRoundTrip(items, data, i);
      case Dict(entries) =>
        if At(data, i + 1, EncodeEntries(entries)) && At(data, i + 1 + |EncodeEntries(entries)|, [E]) {
          EntriesRoundTrip(entries, data, i + 1, []);
        }
        DictRoundTrip(entries, data, i);
    }
  }

  lemma Bracketed(data: seq<byte>, i: nat, opening: byte, body: seq<byte>)
    requires At(data, i, [opening] + body + [E])
    ensures i < |data| && data[i] == opening
    ensures At(data, i + 1, body) && At(data, i + 1 + |body|, [E])
  {
    hide At;
    AtConcat(data, i, [opening] + body, [E]);
    AtConcat(data, i, [opening], body);
    AtIndexed(data, i, opening);
  }

  lemma AtIndexed(data: seq<byte>, i: nat, b: byte)
    requires At(data, i, [b])
    ensures i < |data| && data[i] == b
  {
    AtIndex(data, i, [b], 0);
  }

  /** The encoding of an item starts with none of the closing marks. */
  lemma EncodingOpens(v: BVal, data: Slice, i: nat)
    requires At(data, i, Encode(v))
    ensures i < |data| && data[i] != E
  {
    AtIndex(data, i, Encode(v), 0);
    match v {
      case Bytes(s) =>
        assert Print(|s|)[0] in Print(|s|);
      case _ =>
    }
  }

  lemma {:induction false} ItemsRoundTrip(items: seq<BVal>, data: Slice, i: nat, out: seq<BVal>)
    requires forall l :: 0 <= l < |items| ==> WellFormed(items[l])
    requires At(data, i, EncodeItems(items)) && At(data, i + |EncodeItems(items)|, [E])
    ensures DecodeItems(data, i, out) == Ok(out + items, i + |EncodeItems(items)| + 1)
    decreases items, 0
  {
    hide DecodeItem, At, Encode;
    if items == [] {
      AtIndexed(data, i, E);
      assert out + items == out;
    } else {
      AtConcat(data, i, Encode(items[0]), EncodeItems(items[1..]));
      EncodingOpens(items[0], data, i);
      ItemRoundTrip(items[0], data, i);
      ItemsRoundTrip(items[1..], data, i + |Encode(items[0])|, out + [items[0]]);
      assert out + [items[0]] + items[1..] == out + items;
    }
  }

  lemma {:induction false} EntriesRoundTrip(entries: seq<Pair<BVal>>, data: Slice, i: nat, out: seq<Pair<BVal>>)
    requires Ascending(out + entries)
    requires forall l :: 0 <= l < |entries| ==> Utf8.Valid(entries[l].key) && WellFormed(entries[l].value)
    requires At(data, i, EncodeEntries(entries)) && At(data, i + |EncodeEntries(entries)|, [E])
    ensures DecodeEntries(data, i, out) == Ok(out + entries, i + |EncodeEntries(entries)| + 1)
    decreases entries, 0
  {
    hide DecodeItem, DecodeString, At, Encode, EncodeBytes, Put, Utf8.Lossy;
    if entries == [] {
      AtIndexed(data, i, E);
      assert out + entries == out;
    } else {
      var e, rest := entries[0], entries[1..];
      AtConcat(data, i, EncodeBytes(e.key) + Encode(e.value), EncodeEntries(rest));
      AtConcat(data, i, EncodeBytes(e.key), Encode(e.value));
      StringRoundTrip(e.key, data, i);
      EncodingOpens(e.value, data, i + |EncodeBytes(e.key)|);
      ItemRoundTrip(e.value, data, i + |EncodeBytes(e.key)|);
      Utf8.LossyKeepsValid(e.key);
      assert entries == [e] + rest;
      NextKeyAppends(out, e, rest);
      EntriesRoundTrip(rest, data, i + |EncodeBytes(e.key) + Encode(e.value)|, out + [e]);
      assert out + [e] + rest == out + entries;
    }
  }

  lemma NextKeyAppends(out: seq<Pair<BVal>>, e: Pair<BVal>, rest: seq<Pair<BVal>>)
    requires Ascending(out + ([e] + rest))
    ensures Put(out, e.key, e.value) == out + [e]
    ensures Ascending(out + [e] + rest)
  {
    var all := out + ([e] + rest);
    assert all == out + [e] + rest;
    forall p | p in out
      ensures Less(p.key, e.key)
    {
      var l :| 0 <= l < |out| && out[l] == p;
      assert all[l] == p && all[|out|] == e;
    }
    PutAppends(out, e.key, e.value);
  }

  lemma AtStart(v: BVal, suffix: seq<byte>)
    ensures At(Encode(v) + suffix, 0, Encode(v))
  {
    hide Encode;
    assert (Encode(v) + suffix)[0..|Encode(v)|] == Encode(v);
  }

  /** Reading back an encoding gives the value and stops right behind it, whatever follows. */
  lemma RoundTrip(v: BVal, suffix: seq<byte>)
    requires WellFormed(v) && |Encode(v)| + |suffix| < SLICE_LIMIT
    ensures DecodeItem(Encode(v) + suffix, 0) == Ok(v, |Encode(v)|)
  {
    hide Encode, DecodeItem;
    AtStart(v, suffix);
    ItemRoundTrip(v, Encode(v) + suffix, 0);
  }

  /** No encoding is the beginning of another. */
  lemma PrefixFree(v: BVal, w: BVal)
    requires WellFormed(v) && WellFormed(w) && |Encode(w)| < SLICE_LIMIT
    ensures Encode(v) <= Encode(w) <==> v == w
  {
    hide Encode, DecodeItem, WellFormed;
    if Encode(v) <= Encode(w) {
      var suffix := Encode(w)[|Encode(v)|..];
      assert Encode(w) == Encode(v) + suffix;
      RoundTrip(v, suffix);
      assert Encode(w) + [] == Encode(w);
      RoundTrip(w, []);
    }
  }

  // ----- what can be decoded at all

  lemma PutKeepsTextual(m: seq<Pair<BVal>>, key: seq<byte>, value: BVal)
    requires WellFormed(Dict(m)) && Utf8.Valid(key) && WellFormed(value)
    ensures WellFormed(Dict(Put(m, key, value)))
  {
    PutKeepsAscending(m, key, value);
    PutMembers(m, key, value);
    var m' := Put(m, key, value);
    forall i | 0 <= i < |m'|
      ensures Utf8.Valid(m'[i].key) && WellFormed(m'[i].value)
    {
      assert m'[i] in m';
    }
  }

  /** Whatever the decoder accepts, what it returns is a proper value. */
  lemma {:induction false} DecodedIsWellFormed(data: Slice, i: nat)
    requires DecodeItem(data, i).Ok?
    ensures WellFormed(DecodeItem(data, i).value)
    decreases |data| - i, 1
  {
    hide DecodeItems, DecodeEntries, DecodeInt, DecodeString;
    if data[i] == L {
      ItemsAreWellFormed(data, i + 1, []);
    } else if data[i] == D {
      EntriesAreWellFormed(data, i + 1, []);
    }
  }

  lemma {:induction false} ItemsAreWellFormed(data: Slice, i: nat, out: seq<BVal>)
    requires DecodeItems(data, i, out).Ok? && WellFormed(List(out))
    ensures WellFormed(List(DecodeItems(data, i, out).value))
    decreases |data| - i, 2
  {
    hide DecodeItem;
    if data[i] != E {
      DecodedIsWellFormed(data, i);
      var item := DecodeItem(data, i);
      ItemsAreWellFormed(data, item.next, out + [item.value]);
    }
  }

  lemma {:induction false} EntriesAreWellFormed(data: Slice, i: nat, out: seq<Pair<BVal>>)
    requires DecodeEntries(data, i, out).Ok? && WellFormed(Dict(out))
    ensures WellFormed(Dict(DecodeEntries(data, i, out).value))
    decreases |data| - i, 2
  {
    hide DecodeItem, DecodeString, WellFormed, Put;
    if data[i] != E {
      var key := DecodeString(data, i);
      var value := DecodeItem(data, key.next);
      DecodedIsWellFormed(data, key.next);
      Utf8.LossyIsValid(key.value);
      PutKeepsTextual(out, Utf8.Lossy(key.value), value.value);
      EntriesAreWellFormed(data, value.next, Put(out, Utf8.Lossy(key.value), value.value));
    }
  }

  /** Encoding what was decoded and decoding again changes nothing. */
  lemma RecodingIsStable(data: Slice, suffix: seq<byte>)
    requires Decode(data).Ok? && |Encode(Decode(data).value)| + |suffix| < SLICE_LIMIT
    ensures Decode(Encode(Decode(data).value) + suffix) == Ok(Decode(data).value, |Encode(Decode(data).value)|)
  {
    hide Encode, DecodeItem, WellFormed;
    DecodedIsWellFormed(data, 0);
    RoundTrip(Decode(data).value, suffix);
  }

  // ----- the format, byte by byte

  /** A dictionary, a list, a negative number and a string, as the format writes them: `d1:ali-12e2:xyee`. */
  lemma FormatSample()
    ensures Encode(Dict([Pair([0x61], List([Int(-12), Bytes([0x78, 0x79])]))]))
         == [0x64, 0x31, 0x3A, 0x61, 0x6C, 0x69, 0x2D, 0x31, 0x32, 0x65, 0x32, 0x3A, 0x78, 0x79, 0x65, 0x65]
  {
  }

  lemma DigitsAre()
    ensures DigitOf(1) == 0x31 && DigitOf(2) == 0x32 && Print(1) == [0x31] && Print(2) == [0x32]
    ensures Print(12) == [0x31, 0x32]
  {
    assert Print(12) == Print(1) + [DigitOf(2)];
  }

  /** Numerals are read with a plus sign and leading zeros too: `i+05e` is five. */
  lemma LenientSample()
    ensures DecodeInt([0x69, 0x2B, 0x30, 0x35, 0x65], 0) == Ok(5, 5)
  {
    var data := [0x69 as byte, 0x2B, 0x30, 0x35, 0x65];
    FindFirst(data, 1, E, 4);
    var numeral := data[1..4];
    assert numeral == [0x2B, 0x30, 0x35] && numeral[1..] == [0x30, 0x35];
    var digits := numeral[1..];
    assert digits[..1] == [0x30] && digits[..1][..0] == [];
    assert Read(digits[..1]) == 10 * Read([]) + DigitValue(0x30) == 0;
    assert Read(digits) == 10 * Read(digits[..1]) + DigitValue(0x35) == 5;
  }
}
