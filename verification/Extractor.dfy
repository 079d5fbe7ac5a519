// The terminal's projection of its rule set onto the predicates it publishes.
module Extractor {
  import opened Prelude
  import opened Ordering
  import opened Postcard
  import opened Rules
  import opened Predicates

  datatype HttpsMeta = HttpsMeta(listenPort: U16, http3: bool)

  const PUBLIC_HTTPS := "public-https"

  const NANOS_PER_MILLI := 1_000_000

  function Millis(d: Duration): U64 { Min(d / NANOS_PER_MILLI, U64_MAX) }

  function ProjectRule(r: Rule): Predicate {
    Predicate(
      r.name,
      r.listen.port,
      r.protocol,
      if r.protocol.Udp? && r.idleTimeout.Some? then Some(Millis(r.idleTimeout.value)) else None,
      false)
  }

  // One HTTPS predicate however many routes there are.
  function ProjectRoutes(meta: HttpsMeta): Predicate {
    Predicate(PUBLIC_HTTPS, meta.listenPort, Https, None, meta.http3)
  }

  const PredicateName: Predicate -> string := (p: Predicate) => p.name

  function Projected(s: RuleSet, meta: HttpsMeta): seq<Predicate> {
    Map(ProjectRule, s.rules) + if s.routes == [] then [] else [ProjectRoutes(meta)]
  }

  function ExtractOf(s: RuleSet, meta: HttpsMeta, origin: PubKey): PredicateSet {
    PredicateSet(StableSort(PredicateName, Projected(s, meta)), origin)
  }

  // Per-rule validation has refused HTTPS rules before a set gets here.
  ghost predicate OnlyL4(s: RuleSet) { forall i :: 0 <= i < |s.rules| ==> !s.rules[i].protocol.Https? }

  method Extract(s: RuleSet, meta: HttpsMeta, origin: PubKey) returns (out: PredicateSet)
    requires OnlyL4(s)
    ensures out == ExtractOf(s, meta, origin) && out.origin == origin
  {
    var predicates: seq<Predicate> := [];
    for i := 0 to |s.rules|
      invariant predicates == Map(ProjectRule, s.rules)[..i]
    {
      match s.rules[i].protocol {
        case Tcp | Udp => predicates := predicates + [ProjectRule(s.rules[i])];
      }
    }
    if s.routes != [] {
      predicates := predicates + [ProjectRoutes(meta)];
    }
    assert predicates == Projected(s, meta);
    out := PredicateSet(StableSort(PredicateName, predicates), origin);
  }

  lemma ProjectedNamesDistinct(s: RuleSet)
    requires Accepted(s)
    ensures KeysDistinct(PredicateName, Map(ProjectRule, s.rules))
  {
    assert forall i, j :: 0 <= i < j < |s.rules| ==> NameOf(s.rules[i]) != NameOf(s.rules[j]);
  }

  // Equal logical rule sets publish equal predicate sets, hence equal bytes:
  // the order of the rules does not matter, nor what the routes are.
  lemma ExtractIsCanonical(s: RuleSet, t: RuleSet, meta: HttpsMeta, origin: PubKey)
    requires Accepted(s)
    requires multiset(s.rules) == multiset(t.rules) && (s.routes == [] <==> t.routes == [])
    ensures ExtractOf(s, meta, origin) == ExtractOf(t, meta, origin)
  {
    var a, b := Map(ProjectRule, s.rules), Map(ProjectRule, t.rules);
    var tail := if s.routes == [] then [] else [ProjectRoutes(meta)];
    ProjectedNamesDistinct(s);
    MapPermutes(ProjectRule, s.rules, t.rules);
    forall k
      ensures WithKey(PredicateName, k, a + tail) == WithKey(PredicateName, k, b + tail)
    {
      WithKeyPermutes(PredicateName, k, a, b);
      WithKeyAppend(PredicateName, k, a, tail);
      WithKeyAppend(PredicateName, k, b, tail);
    }
    SortDetermined(PredicateName, a + tail, b + tail);
  }

  // An idle time of whole milliseconds, as far as 64 bits go.
  predicate IdleIn(idle: Option<Duration>, ms: Option<U64>) {
    match idle
    case None => ms == None
    case Some(d) => ms == Some(if d < 0x1_0000_0000_0000_0000 * 1_000_000 then d / 1_000_000 else U64_MAX)
  }

  // A rule's predicate: its name, port and protocol, for UDP its idle time,
  // and nothing about addresses or targets.
  ghost predicate Publishes(r: Rule, p: Predicate) {
    && p.name == r.name && p.listenPort == r.listen.port && p.protocol == r.protocol && !p.httpsHttp3
    && IdleIn(if r.protocol.Udp? then r.idleTimeout else None, p.idleTimeoutMs)
  }

  lemma ProjectionPublishes(r: Rule)
    ensures Publishes(r, ProjectRule(r))
  {
  }

  // What is published: the terminal's own key, and in the order of names one
  // predicate per rule and, if there are routes, one for all of them.
  lemma ExtractIsSortedProjection(s: RuleSet, meta: HttpsMeta, origin: PubKey) returns (ps: seq<Predicate>)
    ensures |ps| == |s.rules| && forall i :: 0 <= i < |ps| ==> Publishes(s.rules[i], ps[i])
    ensures var out := ExtractOf(s, meta, origin);
            && out.origin == origin && SortedBy(PredicateName, out.predicates)
            && multiset(out.predicates)
               == multiset(ps + if s.routes == [] then []
                                else [Predicate("public-https", meta.listenPort, Https, None, meta.http3)])
  {
    ps := Map(ProjectRule, s.rules);
    forall i | 0 <= i < |ps|
      ensures Publishes(s.rules[i], ps[i])
    {
      ProjectionPublishes(s.rules[i]);
    }
    assert ProjectRoutes(meta) == Predicate("public-https", meta.listenPort, Https, None, meta.http3);
    SortSorts(PredicateName, Projected(s, meta));
    SortKeepsElements(PredicateName, Projected(s, meta));
  }

  // Rebinding any of the rules, each to its own address, publishes the same set.
  lemma ExtractIgnoresBindOverride(binds: seq<Option<IpAddr>>, s: RuleSet, meta: HttpsMeta, origin: PubKey)
    requires |binds| == |s.rules|
    ensures var rebound := seq(|s.rules|, i requires 0 <= i < |s.rules| => WithBindOverride(binds[i], s.rules[i]));
            ExtractOf(RuleSet(rebound, s.routes), meta, origin) == ExtractOf(s, meta, origin)
  {
    var rebound := seq(|s.rules|, i requires 0 <= i < |s.rules| => WithBindOverride(binds[i], s.rules[i]));
    assert Map(ProjectRule, rebound) == Map(ProjectRule, s.rules);
  }

  ghost predicate TakesPublicHttps(s: RuleSet) {
    s.routes != [] && exists i :: 0 <= i < |s.rules| && s.rules[i].name == PUBLIC_HTTPS
  }

  lemma ProjectedNamesUnique(s: RuleSet, meta: HttpsMeta)
    requires Accepted(s)
    ensures KeysDistinct(PredicateName, Projected(s, meta)) <==> !TakesPublicHttps(s)
  {
    var p := Projected(s, meta);
    ProjectedNamesDistinct(s);
    assert forall i :: 0 <= i < |s.rules| ==> p[i] == Map(ProjectRule, s.rules)[i] && p[i].name == s.rules[i].name;
    if s.routes != [] { assert p[|s.rules|].name == PUBLIC_HTTPS; }
    if TakesPublicHttps(s) {
      var i :| 0 <= i < |s.rules| && s.rules[i].name == PUBLIC_HTTPS;
      assert PredicateName(p[i]) == PredicateName(p[|s.rules|]);
    }
  }

  // Published names are unique unless an L4 rule took the routes' name.
  lemma ExtractNamesUnique(s: RuleSet, meta: HttpsMeta, origin: PubKey)
    requires Accepted(s)
    ensures KeysDistinct(PredicateName, ExtractOf(s, meta, origin).predicates) <==> !TakesPublicHttps(s)
  {
    var p := Projected(s, meta);
    var sorted := StableSort(PredicateName, p);
    SortKeepsElements(PredicateName, p);
    ProjectedNamesUnique(s, meta);
    if KeysDistinct(PredicateName, p) { KeysDistinctPermutes(PredicateName, p, sorted); }
    if KeysDistinct(PredicateName, sorted) { KeysDistinctPermutes(PredicateName, sorted, p); }
  }
}
