/** Sequences without repetition, and the sizes of finite sets. */
module Sequences {
  ghost predicate NoDup<T>(s: seq<T>) {
    forall i, j :: 0 <= i < j < |s| ==> s[i] != s[j]
  }

  lemma Twice<T>(s: seq<T>, i: nat, j: nat)
    requires i < j < |s| && s[i] == s[j]
    ensures multiset(s)[s[i]] >= 2
  {
    assert s == s[..j] + [s[j]] + s[j + 1..];
    assert s[i] in s[..j];
  }

  lemma {:induction false} Once<T>(s: seq<T>, x: T)
    requires NoDup(s)
    ensures multiset(s)[x] <= 1
  {
    if s != [] {
      Once(s[1..], x);
      assert s == [s[0]] + s[1..];
      if s[0] == x {
        assert x !in s[1..];
      }
    }
  }

  /** A permutation of a sequence without repetition has none either, and the same members. */
  lemma Permuted<T>(s: seq<T>, r: seq<T>)
    requires multiset(s) == multiset(r) && NoDup(s)
    ensures NoDup(r) && |r| == |s|
    ensures forall x :: x in s <==> x in r
  {
    assert |multiset(s)| == |s| && |multiset(r)| == |r|;
    forall x
      ensures x in s <==> x in r
    {
      assert x in s <==> x in multiset(s);
      assert x in r <==> x in multiset(r);
    }
    forall i, j | 0 <= i < j < |r|
      ensures r[i] != r[j]
    {
      if r[i] == r[j] {
        Twice(r, i, j);
        Once(s, r[i]);
      }
    }
  }

  lemma {:induction false} SetSize<T>(s: seq<T>)
    requires NoDup(s)
    ensures |set x | x in s| == |s|
  {
    if s == [] {
      assert (set x | x in s) == {};
    } else {
      SetSize(s[1..]);
      assert s == [s[0]] + s[1..];
      assert (set x | x in s) == (set x | x in s[1..]) + {s[0]};
    }
  }

  lemma NoDupConcat<T>(a: seq<T>, b: seq<T>)
    requires NoDup(a) && NoDup(b) && forall x :: x in a ==> x !in b
    ensures NoDup(a + b)
  {
    forall i, j | 0 <= i < j < |a + b|
      ensures (a + b)[i] != (a + b)[j]
    {
      if i < |a| <= j {
        assert a[i] in a && b[j - |a|] in b;
      }
    }
  }

  lemma {:induction false} Subset<T>(a: set<T>, b: set<T>)
    requires a <= b
    ensures |a| <= |b|
  {
    if a != {} {
      var x :| x in a;
      Subset(a - {x}, b - {x});
    }
  }

  lemma SameSize<T>(a: set<T>, b: set<T>)
    requires a <= b && |a| >= |b|
    ensures a == b
  {
    if a != b {
      var x :| x in b && x !in a;
      Subset(a, b - {x});
    }
  }

  // ----- the elements of a finite set in some order

  ghost predicate Enumerates<T(!new)>(order: seq<T>, items: set<T>) {
    NoDup(order) && forall x :: x in order <==> x in items
  }

  lemma NothingEnumerates<T(!new)>()
    ensures Enumerates<T>([], {})
  {
  }

  lemma EnumerateOneMore<T(!new)>(order: seq<T>, items: set<T>, x: T)
    requires Enumerates(order, items) && x !in items
    ensures Enumerates(order + [x], items + {x})
  {
  }

  lemma {:induction false} CanEnumerate<T(!new)>(items: set<T>)
    ensures exists order :: Enumerates(order, items)
  {
    if items == {} {
      NothingEnumerates<T>();
    } else {
      var x :| x in items;
      CanEnumerate(items - {x});
      var order :| Enumerates(order, items - {x});
      EnumerateOneMore(order, items - {x}, x);
      assert items - {x} + {x} == items;
    }
  }
}
