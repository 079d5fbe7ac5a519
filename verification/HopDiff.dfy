// The operator's `chain diff`: compare neighbouring hops' predicate sets.
module HopDiff {
  import opened Prelude
  import opened Ordering
  import opened Indexing
  import opened Postcard
  import opened Predicates
  import opened Extractor
  import opened Introspection

  datatype PredicateChange = PredicateChange(name: string, local: Predicate, upstream: Predicate)

  datatype PredicateDiff = PredicateDiff(
    missingUpstream: seq<Predicate>, extraUpstream: seq<Predicate>, changed: seq<PredicateChange>,
    localOrigin: Option<PubKey>, upstreamOrigin: Option<PubKey>)
  {
    predicate IsInSync() {
      missingUpstream == [] && extraUpstream == [] && changed == [] && localOrigin == upstreamOrigin
    }
  }

  const ChangeName: PredicateChange -> string := (c: PredicateChange) => c.name

  function NameMap(v: View): map<string, Predicate> { IndexBy(PredicateName, v.predicates) }

  // A boundary without predicates, or between two known and different
  // origins, is skipped.
  predicate Comparable(publisher: View, receiver: View) {
    (publisher.predicates != [] || receiver.predicates != [])
    && (publisher.chain.predicateOrigin.Some? && receiver.chain.predicateOrigin.Some?
        ==> publisher.chain.predicateOrigin == receiver.chain.predicateOrigin)
  }

  // Each list holds exactly what its name says, once, in name order.
  ghost predicate Describes(d: PredicateDiff, local: map<string, Predicate>, upstream: map<string, Predicate>) {
    (forall p :: p in d.missingUpstream <==> p.name in local && p.name !in upstream && local[p.name] == p)
    && (forall p :: p in d.extraUpstream <==> p.name in upstream && p.name !in local && upstream[p.name] == p)
    && (forall c :: c in d.changed <==>
          c.name in local && c.name in upstream && local[c.name] == c.local != c.upstream == upstream[c.name])
    && SortedBy(PredicateName, d.missingUpstream) && SortedBy(PredicateName, d.extraUpstream)
    && SortedBy(ChangeName, d.changed)
    && KeysDistinct(PredicateName, d.missingUpstream) && KeysDistinct(PredicateName, d.extraUpstream)
    && KeysDistinct(ChangeName, d.changed)
  }

  ghost predicate Least(keys: set<string>, k: string) { k in keys && forall x :: x in keys ==> Leq(k, x) }

  lemma {:induction false} LeastExists(keys: set<string>) returns (k: string)
    requires keys != {}
    ensures Least(keys, k)
    decreases |keys|
  {
    var a :| a in keys;
    LeqReflexive(a);
    var rest := keys - {a};
    if rest == {} {
      k := a;
      assert keys == rest + {a};
    } else {
      k := LeastExists(rest);
      LeqTotal(a, k);
      if Leq(a, k) {
        LeastStepsDown(rest, k, a);
        k := a;
      }
      assert forall x :: x in keys ==> x == a || x in rest;
    }
  }

  lemma LeastStepsDown(keys: set<string>, k: string, a: string)
    requires Least(keys, k) && Leq(a, k)
    ensures forall x :: x in keys ==> Leq(a, x)
  {
    forall x | x in keys
      ensures Leq(a, x)
    {
      LeqTransitive(a, k, x);
    }
  }

  lemma NotAmong<T>(s: seq<T>, x: T)
    requires x !in s
    ensures forall i :: 0 <= i < |s| ==> s[i] != x
  {
  }

  // The keys in the order an ordered map hands them out.
  method KeysInOrder(keys: set<string>) returns (ks: seq<string>)
    ensures forall k :: k in ks <==> k in keys
    ensures forall i, j :: 0 <= i < j < |ks| ==> Leq(ks[i], ks[j]) && ks[i] != ks[j]
  {
    ks := [];
    var rest := keys;
    while rest != {}
      invariant rest <= keys
      invariant forall i, j :: 0 <= i < j < |ks| ==> ks[i] != ks[j]
      invariant forall k :: k in ks <==> k in keys - rest
      invariant forall i, j :: 0 <= i < j < |ks| ==> Leq(ks[i], ks[j])
      invariant forall i, x :: 0 <= i < |ks| && x in rest ==> Leq(ks[i], x)
      decreases |rest|
    {
      ghost var least := LeastExists(rest);
      var k :| k in rest && forall x :: x in rest ==> Leq(k, x);
      NotAmong(ks, k);
      ks := ks + [k];
      rest := rest - {k};
    }
  }

  ghost predicate InOrder(ks: seq<string>) {
    forall i, j :: 0 <= i < j < |ks| ==> Leq(ks[i], ks[j]) && ks[i] != ks[j]
  }

  // `out` was collected in order under some of the first `i` keys.
  ghost predicate Collected<T>(key: T -> string, ks: seq<string>, i: nat, out: seq<T>)
    requires i <= |ks|
  {
    (forall m :: 0 <= m < |out| ==> key(out[m]) in ks[..i]) && SortedBy(key, out) && KeysDistinct(key, out)
  }

  lemma CollectNext<T>(key: T -> string, ks: seq<string>, i: nat, out: seq<T>, x: T)
    requires InOrder(ks) && i < |ks| && Collected(key, ks, i, out)
    ensures Collected(key, ks, i + 1, out)
    ensures key(x) == ks[i] ==> Collected(key, ks, i + 1, out + [x])
  {
    assert ks[..i + 1] == ks[..i] + [ks[i]];
    forall m | 0 <= m < |out|
      ensures Leq(key(out[m]), ks[i]) && key(out[m]) != ks[i]
    {
      var j :| 0 <= j < i && ks[j] == key(out[m]);
    }
  }

  // The entries of `a` under names that `b` lacks, in name order.
  method OnlyIn(a: map<string, Predicate>, b: map<string, Predicate>) returns (out: seq<Predicate>)
    requires forall n :: n in a ==> a[n].name == n
    ensures forall p :: p in out <==> p.name in a && p.name !in b && a[p.name] == p
    ensures SortedBy(PredicateName, out) && KeysDistinct(PredicateName, out)
  {
    var ks := KeysInOrder(a.Keys);
    out := [];
    for i := 0 to |ks|
      invariant Collected(PredicateName, ks, i, out)
      invariant forall p :: p in out <==> p.name in ks[..i] && p.name !in b && a[p.name] == p
    {
      assert ks[i] in ks;
      CollectNext(PredicateName, ks, i, out, a[ks[i]]);
      if ks[i] !in b {
        out := out + [a[ks[i]]];
      }
      assert ks[..i + 1] == ks[..i] + [ks[i]];
    }
    assert ks[..|ks|] == ks;
  }

  ghost predicate Changes(local: map<string, Predicate>, upstream: map<string, Predicate>, c: PredicateChange) {
    c.name in local && c.name in upstream && local[c.name] == c.local != c.upstream == upstream[c.name]
  }

  method ChangedBetween(local: map<string, Predicate>, upstream: map<string, Predicate>)
    returns (out: seq<PredicateChange>)
    ensures forall c :: c in out <==>
              c.name in local && c.name in upstream && local[c.name] == c.local != c.upstream == upstream[c.name]
    ensures SortedBy(ChangeName, out) && KeysDistinct(ChangeName, out)
  {
    var ks := KeysInOrder(local.Keys);
    out := [];
    for i := 0 to |ks|
      invariant Collected(ChangeName, ks, i, out)
      invariant forall c :: c in out <==> c.name in ks[..i] && Changes(local, upstream, c)
    {
      var k := ks[i];
      assert k in ks;
      if k in upstream && local[k] != upstream[k] {
        CollectNext(ChangeName, ks, i, out, PredicateChange(k, local[k], upstream[k]));
        out := out + [PredicateChange(k, local[k], upstream[k])];
      } else {
        CollectNext(ChangeName, ks, i, out, PredicateChange(k, local[k], local[k]));
      }
      assert ks[..i + 1] == ks[..i] + [k];
    }
    assert ks[..|ks|] == ks;
  }

  method ComputeDiff(publisher: View, receiver: View) returns (d: Option<PredicateDiff>)
    ensures d.Some? <==> Comparable(publisher, receiver)
    ensures d.None? <==> || (publisher.predicates == [] && receiver.predicates == [])
                         || (publisher.chain.predicateOrigin.Some? && receiver.chain.predicateOrigin.Some?
                             && publisher.chain.predicateOrigin.value != receiver.chain.predicateOrigin.value)
    ensures d.Some? ==> Describes(d.value, NameMap(publisher), NameMap(receiver))
    ensures d.Some? ==> d.value.localOrigin == publisher.chain.predicateOrigin
    ensures d.Some? ==> d.value.upstreamOrigin == receiver.chain.predicateOrigin
  {
    if publisher.predicates == [] && receiver.predicates == [] { return None; }
    var po, ro := publisher.chain.predicateOrigin, receiver.chain.predicateOrigin;
    if po.Some? && ro.Some? && po.value != ro.value { return None; }
    var local, upstream := NameMap(publisher), NameMap(receiver);
    NameMapNames(publisher);
    NameMapNames(receiver);
    var missing := OnlyIn(local, upstream);
    var changed := ChangedBetween(local, upstream);
    var extra := OnlyIn(upstream, local);
    d := Some(PredicateDiff(missing, extra, changed, po, ro));
  }

  lemma NameMapNames(v: View)
    ensures forall n :: n in NameMap(v) ==> NameMap(v)[n].name == n
  {
    forall n | n in NameMap(v)
      ensures NameMap(v)[n].name == n
    {
      IndexSound(PredicateName, v.predicates, n);
    }
  }

  // ---- What the diff means ----

  ghost function NamesIn(ps: seq<Predicate>): set<string> { set p | p in ps :: p.name }

  // Drop the extras, add the missing, replace the changed.
  ghost function Repaired(upstream: map<string, Predicate>, d: PredicateDiff): map<string, Predicate> {
    var missing := IndexBy(PredicateName, d.missingUpstream);
    var changed := IndexBy(ChangeName, d.changed);
    map n | n in (upstream.Keys - NamesIn(d.extraUpstream)) + missing.Keys ::
      if n in missing then missing[n] else if n in changed then changed[n].local else upstream[n]
  }

  // A diff is what it takes to turn the receiver's names into the publisher's.
  lemma DiffRepairs(d: PredicateDiff, local: map<string, Predicate>, upstream: map<string, Predicate>)
    requires Describes(d, local, upstream)
    requires forall n :: n in local ==> local[n].name == n
    requires forall n :: n in upstream ==> upstream[n].name == n
    ensures Repaired(upstream, d) == local
  {
    var r := Repaired(upstream, d);
    forall n
      ensures n in r <==> n in local
      ensures n in r && n in local ==> r[n] == local[n]
    {
      RepairedAt(d, local, upstream, n);
    }
  }

  lemma RepairedAt(d: PredicateDiff, local: map<string, Predicate>, upstream: map<string, Predicate>, n: string)
    requires Describes(d, local, upstream)
    requires forall n :: n in local ==> local[n].name == n
    requires forall n :: n in upstream ==> upstream[n].name == n
    ensures var r := Repaired(upstream, d); (n in r <==> n in local) && (n in r && n in local ==> r[n] == local[n])
  {
    var missing := IndexBy(PredicateName, d.missingUpstream);
    var changed := IndexBy(ChangeName, d.changed);
    if n in missing { IndexSound(PredicateName, d.missingUpstream, n); }
    if n in changed { IndexSound(ChangeName, d.changed, n); }
    if n in local && n !in upstream { IndexComplete(PredicateName, d.missingUpstream, local[n]); }
    if n in local && n in upstream && local[n] != upstream[n] {
      IndexComplete(ChangeName, d.changed, PredicateChange(n, local[n], upstream[n]));
    }
    if n in upstream && n !in local { assert upstream[n] in d.extraUpstream; }
  }

  // In sync means: same names, same predicates, same origin.
  lemma InSyncMeansEqual(d: PredicateDiff, local: map<string, Predicate>, upstream: map<string, Predicate>)
    requires Describes(d, local, upstream)
    requires forall n :: n in local ==> local[n].name == n
    requires forall n :: n in upstream ==> upstream[n].name == n
    ensures d.IsInSync() <==> local == upstream && d.localOrigin == d.upstreamOrigin
  {
    DiffRepairs(d, local, upstream);
    if d.IsInSync() { assert Repaired(upstream, d) == upstream; }
    if local == upstream {
      NothingInside(d.missingUpstream);
      NothingInside(d.extraUpstream);
      NothingInside(d.changed);
    }
  }

  // ---- The walk over a chain ----

  ghost predicate Agree(a: View, b: View) {
    NameMap(a) == NameMap(b) && a.chain.predicateOrigin == b.chain.predicateOrigin
  }

  // Drift at the boundary below hop `i`.
  ghost predicate DriftAt(hops: seq<View>, i: int)
    requires 0 < i < |hops|
  {
    Comparable(hops[i - 1], hops[i]) && !Agree(hops[i - 1], hops[i])
  }

  // What the report says about the boundary below hop `i`.
  ghost predicate Reported(hops: seq<View>, i: int, drift: Option<PredicateDiff>)
    requires 0 < i < |hops|
  {
    (drift.Some? <==> Comparable(hops[i - 1], hops[i]))
    && (drift.Some? ==> Describes(drift.value, NameMap(hops[i - 1]), NameMap(hops[i])))
    && (drift.Some? && !drift.value.IsInSync() <==> DriftAt(hops, i))
  }

  method DiffBoundary(hops: seq<View>, i: int) returns (drift: Option<PredicateDiff>)
    requires 0 < i < |hops|
    ensures Reported(hops, i, drift)
  {
    drift := ComputeDiff(hops[i - 1], hops[i]);
    if drift.Some? {
      NameMapNames(hops[i - 1]);
      NameMapNames(hops[i]);
      InSyncMeansEqual(drift.value, NameMap(hops[i - 1]), NameMap(hops[i]));
    }
  }

  method DiffChain(hops: seq<View>) returns (drifts: seq<Option<PredicateDiff>>, driftDetected: bool)
    ensures |drifts| == |hops| && (hops != [] ==> drifts[0].None?)
    ensures forall i :: 0 < i < |hops| ==> Reported(hops, i, drifts[i])
    ensures driftDetected <==> exists i :: 0 < i < |hops| && DriftAt(hops, i)
  {
    drifts := [];
    driftDetected := false;
    for i := 0 to |hops|
      invariant |drifts| == i && (i > 0 ==> drifts[0].None?)
      invariant forall k :: 0 < k < i ==> Reported(hops, k, drifts[k])
      invariant driftDetected <==> exists k :: 0 < k < i && DriftAt(hops, k)
    {
      var drift: Option<PredicateDiff> := None;
      if i > 0 {
        drift := DiffBoundary(hops, i);
        driftDetected := driftDetected || (drift.Some? && !drift.value.IsInSync());
      }
      drifts := drifts + [drift];
    }
  }

  // A clean report over fully comparable boundaries means the whole chain
  // agrees.
  lemma {:induction false} NoDriftMeansAgreement(hops: seq<View>, i: nat, j: nat)
    requires i <= j < |hops|
    requires forall k :: 0 < k < |hops| ==> Comparable(hops[k - 1], hops[k]) && !DriftAt(hops, k)
    ensures Agree(hops[i], hops[j])
    decreases j - i
  {
    if i < j {
      NoDriftMeansAgreement(hops, i, j - 1);
      assert Comparable(hops[j - 1], hops[j]) && !DriftAt(hops, j);
    }
  }
}
