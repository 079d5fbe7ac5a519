// Shared vocabulary: optional values, results, machine integers and small
// facts about sequences that several components need.
module Prelude {
  datatype Option<+T> = None | Some(value: T)
  datatype Result<+T, +E> = Ok(value: T) | Err(error: E)

  type Byte = b: int | 0 <= b < 0x100
  type U16 = n: int | 0 <= n < 0x1_0000
  type U32 = n: int | 0 <= n < 0x1_0000_0000
  type U64 = n: int | 0 <= n < 0x1_0000_0000_0000_0000

  type Bytes = seq<Byte>

  const U64_MAX: U64 := 0xFFFF_FFFF_FFFF_FFFF

  function Min(a: int, b: int): int { if a <= b then a else b }

  function Max(a: int, b: int): int { if a <= b then b else a }

  // Unsigned subtraction that stops at zero.
  function SaturatingSub(a: nat, b: nat): nat { if a <= b then 0 else a - b }

  function Pow2(n: nat): (r: nat)
    ensures r > 0
  {
    if n == 0 then 1 else 2 * Pow2(n - 1)
  }

  function Last<T>(s: seq<T>): T
    requires s != []
  {
    s[|s| - 1]
  }

  // No two positions of `s` carry the same key.
  ghost predicate KeysDistinct<T, K>(key: T -> K, s: seq<T>) {
    forall i, j :: 0 <= i < j < |s| ==> key(s[i]) != key(s[j])
  }

  lemma NothingInside<T>(s: seq<T>)
    ensures (forall x :: x !in s) ==> s == []
  {
    if s != [] { assert s[0] in s; }
  }

  lemma {:induction false} RepeatedElement<T>(s: seq<T>, x: T)
    ensures multiset(s)[x] >= 2 <==> exists i, j :: 0 <= i < j < |s| && s[i] == x && s[j] == x
    decreases |s|
  {
    if s != [] {
      var t := s[..|s| - 1];
      assert s == t + [Last(s)];
      RepeatedElement(t, x);
      if multiset(s)[x] >= 2 && multiset(t)[x] < 2 {
        assert Last(s) == x && x in t;
        var i :| 0 <= i < |t| && t[i] == x;
        assert s[i] == x && s[|s| - 1] == x;
      }
      if i, j :| 0 <= i < j < |s| && s[i] == x && s[j] == x {
        if j == |s| - 1 {
          assert t[i] == x;
        } else {
          assert t[i] == x && t[j] == x;
        }
      }
    }
  }

  lemma FirstTwoDiffer<T>(s: seq<T>)
    requires forall i, j :: 0 <= i < j < |s| ==> s[i] != s[j]
    ensures |s| >= 2 ==> s[0] != s[1]
  {
  }

  // Distinct elements that are all the same.
  lemma SoleElement<T>(s: seq<T>, x: T)
    requires forall i :: 0 <= i < |s| ==> s[i] == x
    requires forall i, j :: 0 <= i < j < |s| ==> s[i] != s[j]
    ensures s == if x in s then [x] else []
  {
    FirstTwoDiffer(s);
  }

  lemma Associate<T>(a: seq<T>, b: seq<T>, c: seq<T>)
    ensures a + (b + c) == (a + b) + c
  {
  }

  lemma MultisetWithout<T>(s: seq<T>, i: nat)
    requires i < |s|
    ensures multiset(s[..i] + s[i + 1..]) == multiset(s) - multiset{s[i]}
  {
    assert s == s[..i] + [s[i]] + s[i + 1..];
  }

  // The parts of every element, concatenated.
  function FlattenBy<F, T>(part: F -> seq<T>, s: seq<F>): seq<T> {
    if s == [] then [] else part(s[0]) + FlattenBy(part, s[1..])
  }

  ghost function TallyBy<F, T>(part: F -> seq<T>, s: seq<F>): multiset<T> {
    if s == [] then multiset{} else multiset(part(s[0])) + TallyBy(part, s[1..])
  }

  lemma {:induction false} FlattenTally<F, T>(part: F -> seq<T>, s: seq<F>)
    ensures multiset(FlattenBy(part, s)) == TallyBy(part, s)
  {
    if s != [] { FlattenTally(part, s[1..]); }
  }

  lemma {:induction false} TallyWithout<F, T>(part: F -> seq<T>, s: seq<F>, i: nat)
    requires i < |s|
    ensures TallyBy(part, s) == multiset(part(s[i])) + TallyBy(part, s[..i] + s[i + 1..])
  {
    var r := s[..i] + s[i + 1..];
    if i == 0 {
      assert r == s[1..];
    } else {
      TallyWithout(part, s[1..], i - 1);
      assert r[0] == s[0] && r[1..] == s[1..][..i - 1] + s[1..][i..];
    }
  }

  lemma {:induction false} TallyPermutes<F, T>(part: F -> seq<T>, a: seq<F>, b: seq<F>)
    requires multiset(a) == multiset(b)
    ensures TallyBy(part, a) == TallyBy(part, b)
    decreases |a|
  {
    assert |a| == |multiset(a)| == |multiset(b)| == |b|;
    if a != [] {
      assert a[0] in multiset(b);
      var i :| 0 <= i < |b| && b[i] == a[0];
      MultisetWithout(a, 0);
      MultisetWithout(b, i);
      assert a[..0] + a[1..] == a[1..];
      TallyPermutes(part, a[1..], b[..i] + b[i + 1..]);
      TallyWithout(part, b, i);
    }
  }

  // Reordering the elements reorders, and keeps, the concatenated parts.
  lemma FlattenPermutes<F, T>(part: F -> seq<T>, a: seq<F>, b: seq<F>)
    requires multiset(a) == multiset(b)
    ensures multiset(FlattenBy(part, a)) == multiset(FlattenBy(part, b))
  {
    FlattenTally(part, a);
    FlattenTally(part, b);
    TallyPermutes(part, a, b);
  }

  function Map<T, U>(f: T -> U, s: seq<T>): (r: seq<U>)
    ensures |r| == |s| && forall i :: 0 <= i < |s| ==> r[i] == f(s[i])
  {
    seq(|s|, i requires 0 <= i < |s| => f(s[i]))
  }

  function Single<T, U>(f: T -> U): T -> seq<U> { x => [f(x)] }

  lemma {:induction false} MapIsFlatten<T, U>(f: T -> U, s: seq<T>)
    ensures Map(f, s) == FlattenBy(Single(f), s)
  {
    if s != [] {
      MapIsFlatten(f, s[1..]);
      assert Map(f, s) == [f(s[0])] + Map(f, s[1..]);
    }
  }

  lemma MapPermutes<T, U>(f: T -> U, a: seq<T>, b: seq<T>)
    requires multiset(a) == multiset(b)
    ensures multiset(Map(f, a)) == multiset(Map(f, b))
  {
    MapIsFlatten(f, a);
    MapIsFlatten(f, b);
    FlattenPermutes(Single(f), a, b);
  }

  // Whether keys repeat is a property of the multiset, not of the order.
  lemma KeysDistinctPermutes<T, K>(key: T -> K, s: seq<T>, t: seq<T>)
    requires multiset(s) == multiset(t)
    requires KeysDistinct(key, s)
    ensures KeysDistinct(key, t)
  {
    forall i, j | 0 <= i < j < |t|
      ensures key(t[i]) != key(t[j])
    {
      if t[i] == t[j] {
        RepeatedElement(t, t[i]);
        RepeatedElement(s, t[i]);
        assert false;
      } else {
        assert t[i] in multiset(s) && t[j] in multiset(s);
        assert t[i] in s && t[j] in s;
      }
    }
  }

  // A symmetric, irreflexive relation between all pairs of positions is a
  // property of the multiset too.
  lemma PairwisePermutes<T(!new)>(rel: (T, T) -> bool, s: seq<T>, t: seq<T>)
    requires forall x, y :: rel(x, y) ==> rel(y, x)
    requires forall x :: !rel(x, x)
    requires multiset(s) == multiset(t)
    requires forall i, j :: 0 <= i < j < |s| ==> rel(s[i], s[j])
    ensures forall i, j :: 0 <= i < j < |t| ==> rel(t[i], t[j])
  {
    forall i, j | 0 <= i < j < |t|
      ensures rel(t[i], t[j])
    {
      if t[i] == t[j] {
        RepeatedElement(t, t[i]);
        RepeatedElement(s, t[i]);
        assert false;
      } else {
        assert t[i] in multiset(s) && t[j] in multiset(s);
        var p :| 0 <= p < |s| && s[p] == t[i];
        var q :| 0 <= q < |s| && s[q] == t[j];
      }
    }
  }

  lemma {:induction false} FlattenSource<F, T>(part: F -> seq<T>, s: seq<F>, x: T)
    requires x in FlattenBy(part, s)
    ensures exists i :: 0 <= i < |s| && x in part(s[i])
  {
    if x !in part(s[0]) {
      FlattenSource(part, s[1..], x);
      var i :| 0 <= i < |s[1..]| && x in part(s[1..][i]);
      assert x in part(s[i + 1]);
    }
  }

  lemma {:induction false} FlattenDistinct<F, T, K>(part: F -> seq<T>, key: T -> K, s: seq<F>)
    requires forall i :: 0 <= i < |s| ==> KeysDistinct(key, part(s[i]))
    requires forall i, j :: 0 <= i < j < |s| ==> KeysApart(key, part(s[i]), part(s[j]))
    ensures KeysDistinct(key, FlattenBy(part, s))
  {
    if s != [] {
      FlattenDistinct(part, key, s[1..]);
      var head, tail := part(s[0]), FlattenBy(part, s[1..]);
      forall x, y | x in head && y in tail
        ensures key(x) != key(y)
      {
        FlattenSource(part, s[1..], y);
        var j :| 0 <= j < |s[1..]| && y in part(s[1..][j]);
        assert KeysApart(key, part(s[0]), part(s[j + 1]));
      }
      DistinctAppend(key, head, tail);
    }
  }

  ghost predicate KeysApart<T, K>(key: T -> K, s: seq<T>, t: seq<T>) {
    forall x, y :: x in s && y in t ==> key(x) != key(y)
  }

  lemma DistinctAppend<T, K>(key: T -> K, s: seq<T>, t: seq<T>)
    requires KeysDistinct(key, s) && KeysDistinct(key, t) && KeysApart(key, s, t)
    ensures KeysDistinct(key, s + t)
  {
    var u := s + t;
    forall i, j | 0 <= i < j < |u|
      ensures key(u[i]) != key(u[j])
    {
      if i < |s| <= j { assert u[i] in s && u[j] in t; }
    }
  }

  lemma {:induction false} FlattenAppend<F, T>(part: F -> seq<T>, a: seq<F>, b: seq<F>)
    ensures FlattenBy(part, a + b) == FlattenBy(part, a) + FlattenBy(part, b)
  {
    if a == [] {
      assert a + b == b;
    } else {
      assert (a + b)[1..] == a[1..] + b;
      FlattenAppend(part, a[1..], b);
    }
  }
}
