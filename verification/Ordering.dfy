// Order on names and the stable sort used wherever the daemon promises
// deterministic output (`sort_by(|a, b| a.name.cmp(&b.name))`).
//
// Rust compares strings byte by byte in UTF-8; `ByteOrder` shows that this and
// the code point order below agree.
module Ordering {
  import opened Prelude
  import Utf8

  predicate Leq(a: string, b: string) {
    a == [] || (b != [] && (a[0] < b[0] || (a[0] == b[0] && Leq(a[1..], b[1..]))))
  }

  lemma {:induction false} LeqReflexive(a: string)
    ensures Leq(a, a)
  {
    if a != [] { LeqReflexive(a[1..]); }
  }

  lemma {:induction false} LeqTotal(a: string, b: string)
    ensures Leq(a, b) || Leq(b, a)
  {
    if a != [] && b != [] && a[0] == b[0] { LeqTotal(a[1..], b[1..]); }
  }

  lemma {:induction false} LeqAntisymmetric(a: string, b: string)
    requires Leq(a, b) && Leq(b, a)
    ensures a == b
  {
    if a != [] && b != [] {
      LeqAntisymmetric(a[1..], b[1..]);
      assert a == [a[0]] + a[1..] && b == [b[0]] + b[1..];
    }
  }

  lemma {:induction false} LeqTransitive(a: string, b: string, c: string)
    requires Leq(a, b) && Leq(b, c)
    ensures Leq(a, c)
  {
    if a != [] && a[0] == b[0] && b[0] == c[0] { LeqTransitive(a[1..], b[1..], c[1..]); }
  }

  // ---- Byte order ----

  predicate BytesLeq(a: Bytes, b: Bytes) {
    a == [] || (b != [] && (a[0] < b[0] || (a[0] == b[0] && BytesLeq(a[1..], b[1..]))))
  }

  // Sequences that first differ at `j` are ordered by what they hold there.
  lemma {:induction false} FirstDifference(a: Bytes, b: Bytes, j: nat)
    requires j < |a| && j < |b| && a[..j] == b[..j] && a[j] < b[j]
    ensures BytesLeq(a, b) && !BytesLeq(b, a)
    decreases j
  {
    if j > 0 {
      assert a[0] == a[..j][0] == b[..j][0] == b[0];
      assert a[1..][..j - 1] == a[..j][1..] == b[..j][1..] == b[1..][..j - 1];
      FirstDifference(a[1..], b[1..], j - 1);
    }
  }

  lemma {:induction false} CommonFront(front: Bytes, a: Bytes, b: Bytes)
    ensures BytesLeq(front + a, front + b) <==> BytesLeq(a, b)
  {
    if front == [] {
      assert front + a == a && front + b == b;
    } else {
      assert (front + a)[1..] == front[1..] + a && (front + b)[1..] == front[1..] + b;
      CommonFront(front[1..], a, b);
    }
  }

  // The encoding of a smaller character is smaller at the first byte that differs.
  lemma CharOrder(c: char, d: char) returns (j: nat)
    requires c < d
    ensures var x, y := Utf8.EncodeChar(c), Utf8.EncodeChar(d);
            j < |x| && j < |y| && x[..j] == y[..j] && x[j] < y[j]
  {
    var x, y := Utf8.EncodeChar(c), Utf8.EncodeChar(d);
    if |x| != |y| {
      j := 0;
    } else {
      j := SameWidthOrder(c, d);
    }
  }

  lemma SameWidthOrder(c: char, d: char) returns (j: nat)
    requires c < d && |Utf8.EncodeChar(c)| == |Utf8.EncodeChar(d)|
    ensures var x, y := Utf8.EncodeChar(c), Utf8.EncodeChar(d);
            j < |x| && x[..j] == y[..j] && x[j] < y[j]
  {
    var x, y := Utf8.EncodeChar(c), Utf8.EncodeChar(d);
    if x[0] != y[0] {
      j := 0;
    } else if x[1] != y[1] {
      j := 1;
    } else if x[2] != y[2] {
      j := 2;
    } else {
      j := 3;
    }
  }

  // Names are ordered as their bytes are.
  lemma {:induction false} ByteOrder(a: string, b: string)
    ensures Leq(a, b) <==> BytesLeq(Utf8.Encode(a), Utf8.Encode(b))
  {
    if a != [] && b != [] {
      var x, y := Utf8.EncodeChar(a[0]), Utf8.EncodeChar(b[0]);
      var u, v := Utf8.Encode(a[1..]), Utf8.Encode(b[1..]);
      if a[0] == b[0] {
        ByteOrder(a[1..], b[1..]);
        CommonFront(x, u, v);
      } else if a[0] < b[0] {
        var j := CharOrder(a[0], b[0]);
        CharsFirst(x, y, u, v, j);
      } else {
        var j := CharOrder(b[0], a[0]);
        CharsFirst(y, x, v, u, j);
      }
    }
  }

  lemma CharsFirst(x: Bytes, y: Bytes, u: Bytes, v: Bytes, j: nat)
    requires j < |x| && j < |y| && x[..j] == y[..j] && x[j] < y[j]
    ensures BytesLeq(x + u, y + v) && !BytesLeq(y + v, x + u)
  {
    assert (x + u)[..j] == x[..j] && (y + v)[..j] == y[..j];
    FirstDifference(x + u, y + v, j);
  }

  ghost predicate SortedBy<T>(key: T -> string, s: seq<T>) {
    forall i, j :: 0 <= i < j < |s| ==> Leq(key(s[i]), key(s[j]))
  }

  // The elements carrying key `k`, in order.
  function WithKey<T>(key: T -> string, k: string, s: seq<T>): seq<T> {
    if s == [] then [] else (if key(s[0]) == k then [s[0]] else []) + WithKey(key, k, s[1..])
  }

  // Insert behind every element whose key is at most the new one.
  function InsertBy<T>(key: T -> string, s: seq<T>, x: T): seq<T> {
    if s == [] || Leq(key(Last(s)), key(x)) then s + [x]
    else InsertBy(key, s[..|s| - 1], x) + [Last(s)]
  }

  function StableSort<T>(key: T -> string, s: seq<T>): seq<T> {
    if s == [] then [] else InsertBy(key, StableSort(key, s[..|s| - 1]), Last(s))
  }

  lemma {:induction false} WithKeyAppend<T>(key: T -> string, k: string, s: seq<T>, t: seq<T>)
    ensures WithKey(key, k, s + t) == WithKey(key, k, s) + WithKey(key, k, t)
  {
    if s == [] {
      assert s + t == t;
    } else {
      assert (s + t)[1..] == s[1..] + t && (s + t)[0] == s[0];
      WithKeyAppend(key, k, s[1..], t);
      var head := if key(s[0]) == k then [s[0]] else [];
      var a, b := WithKey(key, k, s[1..]), WithKey(key, k, t);
      assert head + (a + b) == (head + a) + b;
    }
  }

  lemma {:induction false} InsertKeepsElements<T>(key: T -> string, s: seq<T>, x: T)
    ensures multiset(InsertBy(key, s, x)) == multiset(s) + multiset{x}
  {
    if s != [] && !Leq(key(Last(s)), key(x)) {
      InsertKeepsElements(key, s[..|s| - 1], x);
      assert s == s[..|s| - 1] + [Last(s)];
    }
  }

  lemma {:induction false} SortKeepsElements<T>(key: T -> string, s: seq<T>)
    ensures multiset(StableSort(key, s)) == multiset(s)
    decreases |s|
  {
    if s != [] {
      SortKeepsElements(key, s[..|s| - 1]);
      InsertKeepsElements(key, StableSort(key, s[..|s| - 1]), Last(s));
      assert s == s[..|s| - 1] + [Last(s)];
    }
  }

  lemma {:induction false} InsertSorts<T>(key: T -> string, s: seq<T>, x: T)
    requires SortedBy(key, s)
    ensures SortedBy(key, InsertBy(key, s, x))
  {
    var r := InsertBy(key, s, x);
    if s == [] {
    } else if Leq(key(Last(s)), key(x)) {
      forall i | 0 <= i < |s|
        ensures Leq(key(s[i]), key(x))
      {
        LeqReflexive(key(s[i]));
        LeqTransitive(key(s[i]), key(Last(s)), key(x));
      }
    } else {
      var t := s[..|s| - 1];
      InsertSorts(key, t, x);
      InsertKeepsElements(key, t, x);
      LeqTotal(key(x), key(Last(s)));
      var u := InsertBy(key, t, x);
      forall i | 0 <= i < |u|
        ensures Leq(key(u[i]), key(Last(s)))
      {
        assert u[i] in multiset(u);
        assert u[i] == x || u[i] in t;
      }
    }
  }

  lemma {:induction false} SortSorts<T>(key: T -> string, s: seq<T>)
    ensures SortedBy(key, StableSort(key, s))
    decreases |s|
  {
    if s != [] {
      SortSorts(key, s[..|s| - 1]);
      InsertSorts(key, StableSort(key, s[..|s| - 1]), Last(s));
    }
  }

  lemma {:induction false} InsertIsStable<T>(key: T -> string, k: string, s: seq<T>, x: T)
    ensures WithKey(key, k, InsertBy(key, s, x)) == WithKey(key, k, s) + WithKey(key, k, [x])
  {
    if s == [] || Leq(key(Last(s)), key(x)) {
      WithKeyAppend(key, k, s, [x]);
    } else {
      var t, l := s[..|s| - 1], Last(s);
      assert s == t + [l];
      InsertIsStable(key, k, t, x);
      WithKeyAppend(key, k, InsertBy(key, t, x), [l]);
      WithKeyAppend(key, k, t, [l]);
      LeqReflexive(key(x));
      assert WithKey(key, k, [l]) == [] || WithKey(key, k, [x]) == [];
    }
  }

  // Equal keys keep their input order.
  lemma {:induction false} SortIsStable<T>(key: T -> string, k: string, s: seq<T>)
    ensures WithKey(key, k, StableSort(key, s)) == WithKey(key, k, s)
    decreases |s|
  {
    if s != [] {
      var t := s[..|s| - 1];
      assert s == t + [Last(s)];
      SortIsStable(key, k, t);
      InsertIsStable(key, k, StableSort(key, t), Last(s));
      WithKeyAppend(key, k, t, [Last(s)]);
    }
  }

  lemma {:induction false} WithKeyMember<T>(key: T -> string, k: string, s: seq<T>)
    ensures WithKey(key, k, s) != [] <==> exists i :: 0 <= i < |s| && key(s[i]) == k
  {
    if s != [] {
      WithKeyMember(key, k, s[1..]);
      if i :| 0 <= i < |s| && key(s[i]) == k {
        if i > 0 { assert s[1..][i - 1] == s[i]; }
      }
      if i :| 0 <= i < |s[1..]| && key(s[1..][i]) == k {
        assert s[i + 1] == s[1..][i];
      }
    }
  }

  // A sorted sequence is determined by what it holds under each key, so any
  // stable sorting algorithm returns the same result.
  lemma {:induction false} SortedDetermined<T>(key: T -> string, s: seq<T>, t: seq<T>)
    requires SortedBy(key, s) && SortedBy(key, t)
    requires forall k :: WithKey(key, k, s) == WithKey(key, k, t)
    ensures s == t
  {
    if s == [] || t == [] {
      if s != [] { WithKeyMember(key, key(s[0]), t); }
      if t != [] { WithKeyMember(key, key(t[0]), s); }
    } else {
      SameFirstKey(key, s, t);
      SameFirstKey(key, t, s);
      LeqAntisymmetric(key(s[0]), key(t[0]));
      assert WithKey(key, key(s[0]), s)[0] == s[0];
      assert WithKey(key, key(s[0]), t)[0] == t[0];
      forall k
        ensures WithKey(key, k, s[1..]) == WithKey(key, k, t[1..])
      {
        var head := if key(s[0]) == k then [s[0]] else [];
        assert head + WithKey(key, k, s[1..]) == WithKey(key, k, s) == WithKey(key, k, t);
        assert WithKey(key, k, s[1..]) == WithKey(key, k, s)[|head|..];
        assert WithKey(key, k, t[1..]) == WithKey(key, k, t)[|head|..];
      }
      SortedDetermined(key, s[1..], t[1..]);
      assert s == [s[0]] + s[1..] && t == [t[0]] + t[1..];
    }
  }

  lemma SameFirstKey<T>(key: T -> string, s: seq<T>, t: seq<T>)
    requires s != [] && t != [] && SortedBy(key, t)
    requires WithKey(key, key(s[0]), s) == WithKey(key, key(s[0]), t)
    ensures Leq(key(t[0]), key(s[0]))
  {
    WithKeyMember(key, key(s[0]), t);
    var i :| 0 <= i < |t| && key(t[i]) == key(s[0]);
    LeqReflexive(key(t[0]));
    assert i > 0 ==> Leq(key(t[0]), key(t[i]));
  }

  lemma SortDetermined<T>(key: T -> string, s: seq<T>, t: seq<T>)
    requires forall k :: WithKey(key, k, s) == WithKey(key, k, t)
    ensures StableSort(key, s) == StableSort(key, t)
  {
    SortSorts(key, s);
    SortSorts(key, t);
    forall k
      ensures WithKey(key, k, StableSort(key, s)) == WithKey(key, k, StableSort(key, t))
    {
      SortIsStable(key, k, s);
      SortIsStable(key, k, t);
      assert WithKey(key, k, s) == WithKey(key, k, t);
    }
    SortedDetermined(key, StableSort(key, s), StableSort(key, t));
  }

  lemma {:induction false} WithKeySingle<T>(key: T -> string, s: seq<T>, x: T)
    requires KeysDistinct(key, s) && x in s
    ensures WithKey(key, key(x), s) == [x]
  {
    assert KeysDistinct(key, s[1..]);
    if s[0] == x {
      WithKeyMember(key, key(x), s[1..]);
    } else {
      WithKeySingle(key, s[1..], x);
      var i :| 0 <= i < |s| && s[i] == x;
      assert key(s[0]) != key(s[i]);
    }
  }

  // With distinct keys, what sits under each key depends on the multiset only.
  lemma WithKeyPermutes<T>(key: T -> string, k: string, s: seq<T>, t: seq<T>)
    requires KeysDistinct(key, s) && multiset(s) == multiset(t)
    ensures WithKey(key, k, s) == WithKey(key, k, t)
  {
    KeysDistinctPermutes(key, s, t);
    WithKeyMember(key, k, s);
    WithKeyMember(key, k, t);
    assert forall i :: 0 <= i < |t| ==> t[i] in multiset(s);
    if i :| 0 <= i < |s| && key(s[i]) == k {
      assert s[i] in multiset(t);
      WithKeySingle(key, s, s[i]);
      WithKeySingle(key, t, s[i]);
    }
  }

  lemma SortPermutes<T>(key: T -> string, s: seq<T>, t: seq<T>)
    requires KeysDistinct(key, s) && multiset(s) == multiset(t)
    ensures StableSort(key, s) == StableSort(key, t)
  {
    forall k
      ensures WithKey(key, k, s) == WithKey(key, k, t)
    {
      WithKeyPermutes(key, k, s, t);
    }
    SortDetermined(key, s, t);
  }
}
