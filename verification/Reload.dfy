// The name-keyed diff between two rule sets that drives hot reload.
module Reload {
  import opened Prelude
  import opened Ordering
  import opened Indexing
  import opened Rules

  datatype RuleChange = RuleChange(before: Rule, after: Rule)

  datatype RuleDiff = RuleDiff(
    added: seq<Rule>, removed: seq<Rule>, changed: seq<RuleChange>, kept: seq<string>, routesChanged: bool)
  {
    predicate IsNoop() { added == [] && removed == [] && changed == [] && !routesChanged }
  }

  function ByName(rules: seq<Rule>): map<string, Rule> { IndexBy(NameOf, rules) }

  function Added(known: map<string, Rule>, rules: seq<Rule>): seq<Rule> {
    if rules == [] then []
    else Added(known, rules[..|rules| - 1]) + (if Last(rules).name in known then [] else [Last(rules)])
  }

  function Changed(known: map<string, Rule>, rules: seq<Rule>): seq<RuleChange> {
    if rules == [] then []
    else
      var r := Last(rules);
      Changed(known, rules[..|rules| - 1])
      + (if r.name in known && known[r.name] != r then [RuleChange(known[r.name], r)] else [])
  }

  function Kept(known: map<string, Rule>, rules: seq<Rule>): seq<string> {
    if rules == [] then []
    else
      var r := Last(rules);
      Kept(known, rules[..|rules| - 1]) + (if r.name in known && known[r.name] == r then [r.name] else [])
  }

  // What the diff is: new rules split by what the old set knows, in file
  // order, and the forgotten old rules by name.
  function DiffOf(old': RuleSet, new': RuleSet): RuleDiff {
    var known := ByName(old'.rules);
    RuleDiff(
      Added(known, new'.rules),
      StableSort(NameOf, Added(ByName(new'.rules), old'.rules)),
      Changed(known, new'.rules),
      Kept(known, new'.rules),
      old'.routes != new'.routes)
  }

  function InitialDiff(s: RuleSet): RuleDiff {
    RuleDiff(s.rules, [], [], [], s.routes != [])
  }

  // ---- Facts about the parts ----

  lemma {:induction false} AddedAt(known: map<string, Rule>, rules: seq<Rule>, r: Rule)
    ensures r in Added(known, rules) <==> r in rules && r.name !in known
    decreases |rules|
  {
    if rules != [] {
      DropLast(NameOf, rules);
      AddedAt(known, rules[..|rules| - 1], r);
    }
  }

  lemma {:induction false} AddedDistinct(known: map<string, Rule>, rules: seq<Rule>)
    requires KeysDistinct(NameOf, rules)
    ensures KeysDistinct(NameOf, Added(known, rules))
    decreases |rules|
  {
    if rules != [] {
      var t := rules[..|rules| - 1];
      DropLast(NameOf, rules);
      AddedDistinct(known, t);
      var a := Added(known, t);
      forall i | 0 <= i < |a|
        ensures NameOf(a[i]) != NameOf(Last(rules))
      {
        AddedAt(known, t, a[i]);
      }
    }
  }

  lemma {:induction false} ChangedAt(known: map<string, Rule>, rules: seq<Rule>, c: RuleChange)
    ensures c in Changed(known, rules)
       <==> c.after in rules && c.after.name in known && known[c.after.name] == c.before != c.after
    decreases |rules|
  {
    if rules != [] {
      DropLast(NameOf, rules);
      ChangedAt(known, rules[..|rules| - 1], c);
    }
  }

  lemma {:induction false} KeptAt(known: map<string, Rule>, rules: seq<Rule>, n: string)
    requires n in known ==> known[n].name == n
    ensures n in Kept(known, rules) <==> n in known && known[n] in rules
    decreases |rules|
  {
    if rules != [] {
      DropLast(NameOf, rules);
      KeptAt(known, rules[..|rules| - 1], n);
    }
  }

  lemma {:induction false} SplitCount(known: map<string, Rule>, rules: seq<Rule>)
    ensures |Added(known, rules)| + |Changed(known, rules)| + |Kept(known, rules)| == |rules|
    decreases |rules|
  {
    if rules != [] { SplitCount(known, rules[..|rules| - 1]); }
  }

  // The old rules that the new set has no name for.
  lemma RemovedAt(old': RuleSet, new': RuleSet, r: Rule)
    ensures r in DiffOf(old', new').removed <==> r in old'.rules && r.name !in ByName(new'.rules)
  {
    var absent := Added(ByName(new'.rules), old'.rules);
    AddedAt(ByName(new'.rules), old'.rules, r);
    SortKeepsElements(NameOf, absent);
    assert r in StableSort(NameOf, absent) <==> r in multiset(StableSort(NameOf, absent));
    assert r in absent <==> r in multiset(absent);
  }

  // ---- The algorithm ----

  // The daemon's algorithm: index the old rules, take each new rule's name
  // out of the index, and report what is left. The index hands out what is
  // left in no particular order; the sort makes the result a function of the
  // inputs again.
  method Diff(old': RuleSet, new': RuleSet) returns (d: RuleDiff)
    requires Accepted(old') && Accepted(new')
    ensures d == DiffOf(old', new')
  {
    var known := ByName(old'.rules);
    var rest := known;
    var added: seq<Rule> := [];
    var changed: seq<RuleChange> := [];
    var kept: seq<string> := [];
    for i := 0 to |new'.rules|
      invariant rest == known - (set k | 0 <= k < i :: new'.rules[k].name)
      invariant added == Added(known, new'.rules[..i])
      invariant changed == Changed(known, new'.rules[..i])
      invariant kept == Kept(known, new'.rules[..i])
    {
      var r := new'.rules[i];
      assert new'.rules[..i + 1][..i] == new'.rules[..i];
      NameIsFresh(new'.rules, i);
      if r.name in rest {
        var before := rest[r.name];
        if before == r {
          kept := kept + [r.name];
        } else {
          changed := changed + [RuleChange(before, r)];
        }
      } else {
        added := added + [r];
      }
      rest := rest - {r.name};
    }
    assert new'.rules[..|new'.rules|] == new'.rules;
    var removed := Drain(rest) by {
      forall n | n in rest ensures rest[n].name == n { IndexSound(NameOf, old'.rules, n); }
    }
    DrainedIsAbsent(old'.rules, new'.rules, rest, removed);
    d := RuleDiff(added, StableSort(NameOf, removed), changed, kept, old'.routes != new'.routes);
  }

  lemma NameIsFresh(rules: seq<Rule>, i: nat)
    requires KeysDistinct(NameOf, rules) && i < |rules|
    ensures rules[i].name !in (set k | 0 <= k < i :: rules[k].name)
  {
    assert forall k :: 0 <= k < i ==> NameOf(rules[k]) != NameOf(rules[i]);
  }

  // Empty an index in whatever order it offers its entries.
  method Drain(index: map<string, Rule>) returns (out: seq<Rule>)
    requires forall n :: n in index ==> index[n].name == n
    ensures KeysDistinct(NameOf, out)
    ensures forall r :: r in out <==> r.name in index && index[r.name] == r
  {
    out := [];
    var rest := index;
    while rest.Keys != {}
      invariant Drained(index, rest, out)
      decreases |rest.Keys|
    {
      var n :| n in rest.Keys;
      DrainNext(index, rest, out, n);
      out := out + [rest[n]];
      ghost var before := rest;
      rest := rest - {n};
      assert rest.Keys == before.Keys - {n};
    }
  }

  // `out` holds what is gone from the index, once each.
  ghost predicate Drained(index: map<string, Rule>, rest: map<string, Rule>, out: seq<Rule>) {
    && (forall n :: n in rest ==> n in index && rest[n] == index[n]) && KeysDistinct(NameOf, out)
    && (forall r :: r in out <==> r.name in index && r.name !in rest && index[r.name] == r)
  }

  lemma DrainNext(index: map<string, Rule>, rest: map<string, Rule>, out: seq<Rule>, n: string)
    requires (forall m :: m in index ==> index[m].name == m) && Drained(index, rest, out) && n in rest
    ensures Drained(index, rest - {n}, out + [rest[n]])
  {
    assert forall i :: 0 <= i < |out| ==> out[i] in out;
  }

  lemma DrainedIsAbsent(old': seq<Rule>, new': seq<Rule>, rest: map<string, Rule>, removed: seq<Rule>)
    requires KeysDistinct(NameOf, old') && KeysDistinct(NameOf, new')
    requires rest == ByName(old') - (set k | 0 <= k < |new'| :: new'[k].name)
    requires KeysDistinct(NameOf, removed)
    requires forall r :: r in removed <==> r.name in rest && rest[r.name] == r
    ensures StableSort(NameOf, removed) == StableSort(NameOf, Added(ByName(new'), old'))
  {
    var absent := Added(ByName(new'), old');
    AddedDistinct(ByName(new'), old');
    forall r
      ensures r in removed <==> r in absent
    {
      AddedAt(ByName(new'), old', r);
      IndexExact(NameOf, old', r);
      if r.name in ByName(new') { IndexSound(NameOf, new', r.name); }
      if k :| 0 <= k < |new'| && new'[k].name == r.name { IndexComplete(NameOf, new', new'[k]); }
    }
    SameElementsSameMultiset(NameOf, removed, absent);
    SortPermutes(NameOf, removed, absent);
  }

  // ---- Order ----

  function Afters(changes: seq<RuleChange>): seq<Rule> {
    seq(|changes|, i requires 0 <= i < |changes| => changes[i].after)
  }

  // `part` is what is left of `whole` after leaving some out.
  ghost predicate Within<T>(part: seq<T>, whole: seq<T>)
    decreases |whole|
  {
    || part == []
    || (whole != []
        && var rest := whole[..|whole| - 1];
           Within(part, rest) || (Last(part) == Last(whole) && Within(part[..|part| - 1], rest)))
  }

  lemma WithinNext<T>(part: seq<T>, whole: seq<T>, x: T, next: seq<T>, all: seq<T>)
    requires Within(part, whole) && all == whole + [x] && (next == part || next == part + [x])
    ensures Within(next, all)
  {
    assert all[..|whole|] == whole;
    if next == part + [x] { assert next[..|part|] == part; }
  }

  lemma {:induction false} AddedInOrder(known: map<string, Rule>, rules: seq<Rule>)
    ensures Within(Added(known, rules), rules)
    decreases |rules|
  {
    if rules != [] {
      var t, r := rules[..|rules| - 1], Last(rules);
      AddedInOrder(known, t);
      WithinNext(Added(known, t), t, r, Added(known, rules), rules);
    }
  }

  lemma AftersNext(known: map<string, Rule>, rules: seq<Rule>)
    requires rules != []
    ensures var a, r := Afters(Changed(known, rules[..|rules| - 1])), Last(rules);
            Afters(Changed(known, rules)) == a || Afters(Changed(known, rules)) == a + [r]
  {
  }

  lemma {:induction false} ChangedInOrder(known: map<string, Rule>, rules: seq<Rule>)
    ensures Within(Afters(Changed(known, rules)), rules)
    decreases |rules|
  {
    if rules != [] {
      var t, r := rules[..|rules| - 1], Last(rules);
      ChangedInOrder(known, t);
      AftersNext(known, rules);
      WithinNext(Afters(Changed(known, t)), t, r, Afters(Changed(known, rules)), rules);
    }
  }

  lemma {:induction false} KeptInOrder(known: map<string, Rule>, rules: seq<Rule>)
    ensures Within(Kept(known, rules), Map(NameOf, rules))
    decreases |rules|
  {
    if rules != [] {
      var t, r := rules[..|rules| - 1], Last(rules);
      KeptInOrder(known, t);
      WithinNext(Kept(known, t), Map(NameOf, t), r.name, Kept(known, rules), Map(NameOf, rules));
    }
  }

  // The parts of a diff keep the order of the new set, and what is removed
  // goes by name.
  lemma DiffKeepsOrder(old': RuleSet, new': RuleSet)
    ensures var d := DiffOf(old', new');
            && Within(d.added, new'.rules) && Within(Afters(d.changed), new'.rules)
            && Within(d.kept, Map(NameOf, new'.rules)) && SortedBy(NameOf, d.removed)
  {
    var known := ByName(old'.rules);
    AddedInOrder(known, new'.rules);
    ChangedInOrder(known, new'.rules);
    KeptInOrder(known, new'.rules);
    SortSorts(NameOf, Added(ByName(new'.rules), old'.rules));
  }

  // ---- What the diff means ----

  ghost function NamesOf(rules: seq<Rule>): set<string> { set r | r in rules :: r.name }

  // Carry a diff out on a name index.
  ghost function Patch(index: map<string, Rule>, d: RuleDiff): map<string, Rule> {
    (index - NamesOf(d.removed)) + ByName(Afters(d.changed)) + ByName(d.added)
  }

  // The diff is a patch: carried out on the old rules it yields the new ones.
  lemma DiffPatches(old': RuleSet, new': RuleSet)
    requires Accepted(old') && Accepted(new')
    ensures Patch(ByName(old'.rules), DiffOf(old', new')) == ByName(new'.rules)
  {
    var p, n := Patch(ByName(old'.rules), DiffOf(old', new')), ByName(new'.rules);
    forall k
      ensures k in p <==> k in n
      ensures k in p && k in n ==> p[k] == n[k]
    {
      PatchAt(old', new', k);
    }
  }

  lemma PatchAt(old': RuleSet, new': RuleSet, k: string)
    requires Accepted(old') && Accepted(new')
    ensures var p, n := Patch(ByName(old'.rules), DiffOf(old', new')), ByName(new'.rules);
            (k in p <==> k in n) && (k in p && k in n ==> p[k] == n[k])
  {
    var d := DiffOf(old', new');
    AddedKeys(old', new', k);
    ChangedKeys(old', new', k);
    RemovedKeys(old', new', k);
  }

  lemma AddedKeys(old': RuleSet, new': RuleSet, k: string)
    requires Accepted(old') && Accepted(new')
    ensures var o, n, a := ByName(old'.rules), ByName(new'.rules), ByName(DiffOf(old', new').added);
            (k in a <==> k in n && k !in o) && (k in a ==> a[k] == n[k])
  {
    var o, n, added := ByName(old'.rules), ByName(new'.rules), DiffOf(old', new').added;
    if k in n {
      IndexSound(NameOf, new'.rules, k);
      AddedAt(o, new'.rules, n[k]);
      if k !in o { IndexComplete(NameOf, added, n[k]); }
    }
    if k in ByName(added) {
      var r := ByName(added)[k];
      IndexSound(NameOf, added, k);
      AddedAt(o, new'.rules, r);
      IndexExact(NameOf, new'.rules, r);
    }
  }

  lemma ChangedKeys(old': RuleSet, new': RuleSet, k: string)
    requires Accepted(old') && Accepted(new')
    ensures var o, n, a := ByName(old'.rules), ByName(new'.rules), ByName(Afters(DiffOf(old', new').changed));
            (k in a <==> k in n && k in o && o[k] != n[k]) && (k in a ==> a[k] == n[k])
  {
    var o, n, changed := ByName(old'.rules), ByName(new'.rules), DiffOf(old', new').changed;
    var afters := Afters(changed);
    if k in n && k in o && o[k] != n[k] {
      IndexSound(NameOf, new'.rules, k);
      var c := RuleChange(o[k], n[k]);
      ChangedAt(o, new'.rules, c);
      var i :| 0 <= i < |changed| && changed[i] == c;
      assert afters[i] == n[k];
      IndexComplete(NameOf, afters, n[k]);
    }
    if k in ByName(afters) {
      var r := ByName(afters)[k];
      IndexSound(NameOf, afters, k);
      var i :| 0 <= i < |afters| && afters[i] == r;
      ChangedAt(o, new'.rules, changed[i]);
      IndexExact(NameOf, new'.rules, r);
    }
  }

  lemma RemovedKeys(old': RuleSet, new': RuleSet, k: string)
    requires Accepted(old') && Accepted(new')
    ensures k in NamesOf(DiffOf(old', new').removed) <==> k in ByName(old'.rules) && k !in ByName(new'.rules)
  {
    var o := ByName(old'.rules);
    if k in NamesOf(DiffOf(old', new').removed) {
      var r :| r in DiffOf(old', new').removed && r.name == k;
      RemovedAt(old', new', r);
      IndexComplete(NameOf, old'.rules, r);
    }
    if k in o {
      IndexSound(NameOf, old'.rules, k);
      RemovedAt(old', new', o[k]);
    }
  }

  // The four parts cover both sides without overlap.
  lemma DiffCounts(old': RuleSet, new': RuleSet)
    requires Accepted(old') && Accepted(new')
    ensures var d := DiffOf(old', new');
            |d.added| + |d.changed| + |d.kept| == |new'.rules|
            && |d.removed| + |d.changed| + |d.kept| == |old'.rules|
  {
    var o, n, d := ByName(old'.rules), ByName(new'.rules), DiffOf(old', new');
    SplitCount(o, new'.rules);
    SharedCount(old'.rules, new'.rules);
    SharedCount(new'.rules, old'.rules);
    assert o.Keys * n.Keys == n.Keys * o.Keys;
    SortKeepsElements(NameOf, Added(n, old'.rules));
    assert |d.removed| == |multiset(d.removed)| == |multiset(Added(n, old'.rules))| == |Added(n, old'.rules)|;
  }

  // How many of `rules` carry a name that `others` carries too.
  lemma SharedCount(others: seq<Rule>, rules: seq<Rule>)
    requires KeysDistinct(NameOf, rules)
    ensures |rules| - |Added(ByName(others), rules)| == |ByName(others).Keys * ByName(rules).Keys|
  {
    var a := Added(ByName(others), rules);
    var shared := ByName(others).Keys * ByName(rules).Keys;
    AddedDistinct(ByName(others), rules);
    IndexSize(NameOf, rules);
    IndexSize(NameOf, a);
    forall k
      ensures k in ByName(a).Keys <==> k in ByName(rules).Keys - shared
    {
      if k in ByName(a) {
        IndexSound(NameOf, a, k);
        AddedAt(ByName(others), rules, ByName(a)[k]);
        IndexComplete(NameOf, rules, ByName(a)[k]);
      }
      if k in ByName(rules) {
        IndexSound(NameOf, rules, k);
        AddedAt(ByName(others), rules, ByName(rules)[k]);
        if k !in shared { IndexComplete(NameOf, a, ByName(rules)[k]); }
      }
    }
    assert ByName(a).Keys == ByName(rules).Keys - shared;
  }

  // Diffing the other way round swaps additions with removals and the two
  // sides of every change.
  lemma DiffSwaps(old': RuleSet, new': RuleSet)
    requires Accepted(old') && Accepted(new')
    ensures var d, e := DiffOf(old', new'), DiffOf(new', old');
            multiset(d.added) == multiset(e.removed) && multiset(d.removed) == multiset(e.added)
            && (forall c :: c in d.changed <==> RuleChange(c.after, c.before) in e.changed)
            && (forall n :: n in d.kept <==> n in e.kept)
            && d.routesChanged == e.routesChanged
  {
    var o, n := ByName(old'.rules), ByName(new'.rules);
    SortKeepsElements(NameOf, Added(n, old'.rules));
    SortKeepsElements(NameOf, Added(o, new'.rules));
    forall c: RuleChange
      ensures c in DiffOf(old', new').changed <==> RuleChange(c.after, c.before) in DiffOf(new', old').changed
    {
      ChangedAt(o, new'.rules, c);
      ChangedAt(n, old'.rules, RuleChange(c.after, c.before));
      IndexExact(NameOf, old'.rules, c.before);
      IndexExact(NameOf, new'.rules, c.after);
      if c.after.name in o { IndexSound(NameOf, old'.rules, c.after.name); }
      if c.before.name in n { IndexSound(NameOf, new'.rules, c.before.name); }
    }
    forall k
      ensures k in DiffOf(old', new').kept <==> k in DiffOf(new', old').kept
    {
      if k in o { IndexSound(NameOf, old'.rules, k); IndexExact(NameOf, new'.rules, o[k]); }
      if k in n { IndexSound(NameOf, new'.rules, k); IndexExact(NameOf, old'.rules, n[k]); }
      KeptAt(o, new'.rules, k);
      KeptAt(n, old'.rules, k);
    }
  }

  // A diff changes nothing exactly when the rules agree up to order and the
  // routes agree as sequences.
  lemma NoopMeansEqual(old': RuleSet, new': RuleSet)
    requires Accepted(old') && Accepted(new')
    ensures DiffOf(old', new').IsNoop()
       <==> multiset(old'.rules) == multiset(new'.rules) && old'.routes == new'.routes
  {
    var d := DiffOf(old', new');
    if d.IsNoop() {
      forall r
        ensures r in old'.rules <==> r in new'.rules
      {
        NoopAt(old', new', r);
      }
      SameElementsSameMultiset(NameOf, old'.rules, new'.rules);
    }
    if multiset(old'.rules) == multiset(new'.rules) && old'.routes == new'.routes {
      EqualIsNoop(old', new');
    }
  }

  lemma NoopAt(old': RuleSet, new': RuleSet, r: Rule)
    requires Accepted(old') && Accepted(new') && DiffOf(old', new').IsNoop()
    ensures r in old'.rules <==> r in new'.rules
  {
    var o, n := ByName(old'.rules), ByName(new'.rules);
    AddedAt(o, new'.rules, r);
    RemovedAt(old', new', r);
    IndexExact(NameOf, old'.rules, r);
    IndexExact(NameOf, new'.rules, r);
    if r.name in o && r.name in n {
      IndexSound(NameOf, new'.rules, r.name);
      ChangedAt(o, new'.rules, RuleChange(o[r.name], n[r.name]));
    }
  }

  lemma EqualIsNoop(old': RuleSet, new': RuleSet)
    requires Accepted(old') && Accepted(new')
    requires multiset(old'.rules) == multiset(new'.rules) && old'.routes == new'.routes
    ensures DiffOf(old', new').IsNoop()
  {
    var o, n, d := ByName(old'.rules), ByName(new'.rules), DiffOf(old', new');
    if d.added != [] {
      var r := d.added[0];
      AddedAt(o, new'.rules, r);
      assert r in multiset(old'.rules);
      IndexComplete(NameOf, old'.rules, r);
    }
    if d.removed != [] {
      var r := d.removed[0];
      RemovedAt(old', new', r);
      assert r in multiset(new'.rules);
      IndexComplete(NameOf, new'.rules, r);
    }
    if d.changed != [] {
      var c := d.changed[0];
      ChangedAt(o, new'.rules, c);
      assert c.after in multiset(old'.rules);
      IndexExact(NameOf, old'.rules, c.after);
    }
  }

  lemma {:induction false} NothingKnown(known: map<string, Rule>, rules: seq<Rule>)
    requires forall n :: n !in known
    ensures Added(known, rules) == rules && Changed(known, rules) == [] && Kept(known, rules) == []
    decreases |rules|
  {
    if rules != [] {
      NothingKnown(known, rules[..|rules| - 1]);
      assert rules == rules[..|rules| - 1] + [Last(rules)];
    }
  }

  // The watcher's first event is the diff from nothing.
  lemma InitialDiffIsDiffFromEmpty(s: RuleSet)
    ensures DiffOf(EMPTY_RULE_SET, s) == InitialDiff(s)
  {
    NothingKnown(map[], s.rules);
    assert Added(ByName(s.rules), []) == [];
  }
}
