// Keyed indexes: what collecting a list into a map by a key keeps.
module Indexing {
  import opened Prelude

  // A later element of the same key replaces an earlier one.
  function IndexBy<T, K(==)>(key: T -> K, s: seq<T>): map<K, T> {
    if s == [] then map[] else IndexBy(key, s[..|s| - 1])[key(Last(s)) := Last(s)]
  }

  lemma IndexAppend<T, K>(key: T -> K, s: seq<T>, x: T)
    ensures IndexBy(key, s + [x]) == IndexBy(key, s)[key(x) := x]
  {
    assert (s + [x])[..|s|] == s;
  }

  lemma KeyUnique<T, K>(key: T -> K, s: seq<T>, x: T, y: T)
    requires KeysDistinct(key, s) && x in s && y in s && key(x) == key(y)
    ensures x == y
  {
    var i :| 0 <= i < |s| && s[i] == x;
    var j :| 0 <= j < |s| && s[j] == y;
    assert i == j;
  }

  lemma DropLast<T, K>(key: T -> K, s: seq<T>)
    requires s != []
    ensures var t, l := s[..|s| - 1], Last(s);
            s == t + [l] && (KeysDistinct(key, s) ==> KeysDistinct(key, t) && forall x :: x in t ==> key(x) != key(l))
  {
    var t, l := s[..|s| - 1], Last(s);
    if KeysDistinct(key, s) {
      forall i, j | 0 <= i < j < |t|
        ensures key(t[i]) != key(t[j])
      {
        assert key(s[i]) != key(s[j]);
      }
      forall x | x in t
        ensures key(x) != key(l)
      {
        var i :| 0 <= i < |t| && t[i] == x;
        assert key(s[i]) != key(s[|s| - 1]);
      }
    }
  }

  lemma {:induction false} IndexSound<T, K>(key: T -> K, s: seq<T>, n: K)
    requires n in IndexBy(key, s)
    ensures IndexBy(key, s)[n] in s && key(IndexBy(key, s)[n]) == n
    decreases |s|
  {
    if key(Last(s)) != n { IndexSound(key, s[..|s| - 1], n); }
  }

  lemma {:induction false} IndexComplete<T, K>(key: T -> K, s: seq<T>, x: T)
    requires x in s
    ensures key(x) in IndexBy(key, s)
    decreases |s|
  {
    DropLast(key, s);
    if x != Last(s) { IndexComplete(key, s[..|s| - 1], x); }
  }

  // The entry under `n` is the last element with that key.
  lemma {:induction false} IndexIsLast<T, K>(key: T -> K, s: seq<T>, n: K) returns (i: nat)
    requires n in IndexBy(key, s)
    ensures i < |s| && s[i] == IndexBy(key, s)[n] && key(s[i]) == n
    ensures forall j :: i < j < |s| ==> key(s[j]) != n
    decreases |s|
  {
    if key(Last(s)) == n {
      i := |s| - 1;
    } else {
      i := IndexIsLast(key, s[..|s| - 1], n);
    }
  }

  lemma IndexExact<T, K>(key: T -> K, s: seq<T>, x: T)
    requires KeysDistinct(key, s)
    ensures x in s <==> key(x) in IndexBy(key, s) && IndexBy(key, s)[key(x)] == x
  {
    if x in s { IndexComplete(key, s, x); }
    if key(x) in IndexBy(key, s) {
      IndexSound(key, s, key(x));
      if x in s { KeyUnique(key, s, x, IndexBy(key, s)[key(x)]); }
    }
  }

  lemma {:induction false} IndexSize<T, K>(key: T -> K, s: seq<T>)
    requires KeysDistinct(key, s)
    ensures |IndexBy(key, s)| == |s|
    decreases |s|
  {
    if s != [] {
      var t, l := s[..|s| - 1], Last(s);
      DropLast(key, s);
      IndexSize(key, t);
      assert key(l) !in IndexBy(key, t) by {
        if key(l) in IndexBy(key, t) { IndexSound(key, t, key(l)); }
      }
    }
  }

  lemma AtMostOnce<T, K>(key: T -> K, s: seq<T>, x: T)
    requires KeysDistinct(key, s)
    ensures multiset(s)[x] == if x in s then 1 else 0
  {
    RepeatedElement(s, x);
    assert forall i, j :: 0 <= i < j < |s| ==> key(s[i]) != key(s[j]);
    assert x in multiset(s) <==> x in s;
  }

  lemma SameElementsSameMultiset<T, K>(key: T -> K, s: seq<T>, t: seq<T>)
    requires KeysDistinct(key, s) && KeysDistinct(key, t)
    requires forall x :: x in s <==> x in t
    ensures multiset(s) == multiset(t)
  {
    forall x
      ensures multiset(s)[x] == multiset(t)[x]
    {
      AtMostOnce(key, s, x);
      AtMostOnce(key, t, x);
    }
  }
}
