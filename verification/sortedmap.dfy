/** Maps from byte strings kept as lists in ascending order of their keys. */
module SortedMaps {
  import opened Bits
  import opened Options

  datatype Pair<+T> = Pair(key: seq<byte>, value: T)

  /** Lexicographic order on bytes. */
  predicate Less(a: seq<byte>, b: seq<byte>) {
    if b == [] then false
    else if a == [] then true
    else a[0] < b[0] || (a[0] == b[0] && Less(a[1..], b[1..]))
  }

  lemma {:induction false} LessIsTotal(a: seq<byte>, b: seq<byte>)
    ensures Less(a, b) || Less(b, a) || a == b
    ensures !(Less(a, b) && Less(b, a)) && !Less(a, a)
  {
    if a != [] {
      LessIsTotal(a[1..], a[1..]);
    }
    if a != [] && b != [] {
      LessIsTotal(a[1..], b[1..]);
      if a[0] == b[0] && a[1..] == b[1..] {
        assert a == [a[0]] + a[1..] == b;
      }
    }
  }

  lemma {:induction false} LessIsTransitive(a: seq<byte>, b: seq<byte>, c: seq<byte>)
    requires Less(a, b) && Less(b, c)
    ensures Less(a, c)
  {
    if a != [] && a[0] == b[0] == c[0] {
      LessIsTransitive(a[1..], b[1..], c[1..]);
    }
  }

  ghost predicate Ascending<T>(m: seq<Pair<T>>) {
    forall i, j :: 0 <= i < j < |m| ==> Less(m[i].key, m[j].key)
  }

  /** Overwrites the value of a key, or adds the key at its place. */
  function Put<T>(m: seq<Pair<T>>, key: seq<byte>, value: T): seq<Pair<T>> {
    if m == [] then [Pair(key, value)]
    else if m[0].key == key then [Pair(key, value)] + m[1..]
    else if Less(key, m[0].key) then [Pair(key, value)] + m
    else [m[0]] + Put(m[1..], key, value)
  }

  function Get<T>(m: seq<Pair<T>>, key: seq<byte>): Option<T> {
    if m == [] then None
    else if m[0].key == key then Some(m[0].value)
    else Get(m[1..], key)
  }

  lemma {:induction false} PutMembers<T>(m: seq<Pair<T>>, key: seq<byte>, value: T)
    ensures forall p :: p in Put(m, key, value) ==> p == Pair(key, value) || p in m
  {
    if m != [] && m[0].key != key && !Less(key, m[0].key) {
      PutMembers(m[1..], key, value);
    }
  }

  lemma {:induction false} PutKeepsAscending<T>(m: seq<Pair<T>>, key: seq<byte>, value: T)
    requires Ascending(m)
    ensures Ascending(Put(m, key, value))
  {
    if m != [] {
      LessIsTotal(key, m[0].key);
      if Less(key, m[0].key) {
        forall i | 0 < i < |m|
          ensures Less(key, m[i].key)
        {
          LessIsTransitive(key, m[0].key, m[i].key);
        }
      } else if m[0].key != key {
        var rest := Put(m[1..], key, value);
        PutKeepsAscending(m[1..], key, value);
        PutMembers(m[1..], key, value);
        forall p | p in rest
          ensures Less(m[0].key, p.key)
        {
        }
      }
    }
  }

  /** Putting behaves as updating a map. */
  lemma {:induction false} GetPut<T>(m: seq<Pair<T>>, key: seq<byte>, value: T, other: seq<byte>)
    requires Ascending(m)
    ensures Get(Put(m, key, value), other) == if other == key then Some(value) else Get(m, other)
  {
    if m != [] {
      if m[0].key == key {
        assert ([Pair(key, value)] + m[1..])[1..] == m[1..];
      } else if Less(key, m[0].key) {
        assert ([Pair(key, value)] + m)[1..] == m;
      } else {
        GetPut(m[1..], key, value, other);
        assert Put(m, key, value)[1..] == Put(m[1..], key, value);
      }
    }
  }

  /** Putting a key above all others appends it. */
  lemma {:induction false} PutAppends<T>(m: seq<Pair<T>>, key: seq<byte>, value: T)
    requires forall p :: p in m ==> Less(p.key, key)
    ensures Put(m, key, value) == m + [Pair(key, value)]
  {
    if m != [] {
      assert m[0] in m;
      LessIsTotal(m[0].key, key);
      PutAppends(m[1..], key, value);
    }
  }
}
