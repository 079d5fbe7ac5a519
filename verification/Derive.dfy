// The relay's derivation of a local rule set from a received predicate set.
module Derive {
  import opened Prelude
  import opened Ordering
  import opened Postcard
  import opened Rules
  import opened Predicates
  import opened Extractor

  datatype DeriveConfig = DeriveConfig(bindAddr: IpAddr, proxyProtocol: Option<ProxyProto>)

  datatype DeriveError =
    | InvalidName(name: string)
    | ZeroListenPort(name: string)
    | DuplicateName(name: string)
    | DuplicateRuleName(ruleName: string, first: string, second: string)
    | DuplicateListenPort(first: string, second: string, port: U16)
    | HttpsListenCollision(httpsName: string, otherName: string, port: U16)

  const HTTPS_UDP_IDLE: Duration := 30_000_000_000

  function HttpsRuleName(p: Predicate, protocol: Protocol): string
    requires !protocol.Https?
  {
    p.name + if protocol.Tcp? then "-tcp" else "-udp"
  }

  function L4Rule(cfg: DeriveConfig, p: Predicate): Rule {
    Rule(
      p.name,
      SocketAddr(cfg.bindAddr, p.listenPort),
      p.protocol,
      Some(p.listenPort),
      None,
      if p.protocol.Udp? && p.idleTimeoutMs.Some? then Some(p.idleTimeoutMs.value * NANOS_PER_MILLI) else None,
      if p.protocol.Tcp? then cfg.proxyProtocol else None)
  }

  function HttpsRuleFor(cfg: DeriveConfig, p: Predicate, protocol: Protocol): Rule
    requires !protocol.Https?
  {
    Rule(
      HttpsRuleName(p, protocol),
      SocketAddr(cfg.bindAddr, p.listenPort),
      protocol,
      Some(p.listenPort),
      None,
      if protocol.Udp? then Some(HTTPS_UDP_IDLE) else None,
      Some(V2))
  }

  // The rules one predicate becomes.
  function RulesFor(cfg: DeriveConfig, p: Predicate): seq<Rule> {
    if !p.protocol.Https? then [L4Rule(cfg, p)]
    else [HttpsRuleFor(cfg, p, Tcp)] + if p.httpsHttp3 then [HttpsRuleFor(cfg, p, Udp)] else []
  }

  function RulesWith(cfg: DeriveConfig): Predicate -> seq<Rule> { (p: Predicate) => RulesFor(cfg, p) }

  function DerivedRules(cfg: DeriveConfig, ps: seq<Predicate>): seq<Rule> { FlattenBy(RulesWith(cfg), ps) }

  // ---- When a predicate set is derivable ----

  // The rule names a predicate claims.
  function ClaimedNames(p: Predicate): seq<string> {
    if !p.protocol.Https? then [p.name]
    else [HttpsRuleName(p, Tcp)] + if p.httpsHttp3 then [HttpsRuleName(p, Udp)] else []
  }

  // HTTPS reserves its port for both transports.
  predicate PortsClash(p: Predicate, q: Predicate) {
    p.listenPort == q.listenPort && (p.protocol == q.protocol || p.protocol.Https? || q.protocol.Https?)
  }

  predicate NamesClash(p: Predicate, q: Predicate) {
    exists n :: n in ClaimedNames(p) && n in ClaimedNames(q)
  }

  predicate Compatible(p: Predicate, q: Predicate) { p.name != q.name && !NamesClash(p, q) && !PortsClash(p, q) }

  // Nothing here mentions the relay: every relay of a chain takes the same
  // decision on the same body.
  ghost predicate Derivable(ps: seq<Predicate>) {
    (forall i :: 0 <= i < |ps| ==> NameOk(ps[i].name) && ps[i].listenPort != 0)
    && (forall i, j :: 0 <= i < j < |ps| ==> Compatible(ps[i], ps[j]))
  }

  // ---- The algorithm ----

  datatype ListenClaim = ListenClaim(protocol: Protocol, port: U16, predicateName: string, fromHttps: bool)

  predicate Conflict(a: ListenClaim, b: ListenClaim) {
    a.port == b.port && (a.protocol == b.protocol || a.fromHttps != b.fromHttps)
  }

  function ClaimFor(p: Predicate, protocol: Protocol): ListenClaim {
    ListenClaim(protocol, p.listenPort, p.name, p.protocol.Https?)
  }

  function Claims(p: Predicate): seq<ListenClaim> {
    if p.protocol.Https? then [ClaimFor(p, Tcp), ClaimFor(p, Udp)] else [ClaimFor(p, p.protocol)]
  }

  ghost predicate Free(seen: seq<ListenClaim>, c: ListenClaim) {
    forall k :: 0 <= k < |seen| ==> !Conflict(seen[k], c)
  }

  function CollisionError(existing: ListenClaim, incoming: ListenClaim): DeriveError {
    if existing.fromHttps && !incoming.fromHttps then
      HttpsListenCollision(existing.predicateName, incoming.predicateName, existing.port)
    else if incoming.fromHttps && !existing.fromHttps then
      HttpsListenCollision(incoming.predicateName, existing.predicateName, incoming.port)
    else DuplicateListenPort(existing.predicateName, incoming.predicateName, incoming.port)
  }

  ghost predicate Collision(existing: ListenClaim, incoming: ListenClaim, e: DeriveError) {
    Conflict(existing, incoming) && e == CollisionError(existing, incoming)
  }

  // Two searches: the same transport first, then the HTTPS reservation.
  method InsertListenClaim(seen: seq<ListenClaim>, claim: ListenClaim)
    returns (r: Result<seq<ListenClaim>, DeriveError>)
    ensures r.Ok? <==> Free(seen, claim)
    ensures r.Ok? ==> r.value == seen + [claim]
    ensures r.Err? ==> exists s :: s in seen && Collision(s, claim, r.error)
  {
    for k := 0 to |seen|
      invariant forall m :: 0 <= m < k ==> !(seen[m].port == claim.port && seen[m].protocol == claim.protocol)
    {
      if seen[k].protocol == claim.protocol && seen[k].port == claim.port {
        assert Collision(seen[k], claim, CollisionError(seen[k], claim));
        return Err(CollisionError(seen[k], claim));
      }
    }
    for k := 0 to |seen|
      invariant forall m :: 0 <= m < k ==> !Conflict(seen[m], claim)
    {
      if seen[k].port == claim.port && seen[k].fromHttps != claim.fromHttps {
        assert Collision(seen[k], claim, CollisionError(seen[k], claim));
        return Err(CollisionError(seen[k], claim));
      }
    }
    return Ok(seen + [claim]);
  }

  method InsertListenClaims(seen: seq<ListenClaim>, p: Predicate) returns (r: Result<seq<ListenClaim>, DeriveError>)
    ensures r.Ok? <==> forall c :: c in Claims(p) ==> Free(seen, c)
    ensures r.Ok? ==> r.value == seen + Claims(p)
    ensures r.Err? ==> exists s, c :: s in seen && c in Claims(p) && Collision(s, c, r.error)
  {
    if p.protocol.Https? {
      r := InsertListenClaim(seen, ClaimFor(p, Tcp));
      if r.Ok? {
        ghost var mid := r.value;
        r := InsertListenClaim(r.value, ClaimFor(p, Udp));
        assert Free(mid, ClaimFor(p, Udp)) <==> Free(seen, ClaimFor(p, Udp)) by {
          assert forall k :: 0 <= k < |seen| ==> mid[k] == seen[k];
        }
      }
    } else {
      r := InsertListenClaim(seen, ClaimFor(p, p.protocol));
    }
    assert forall c :: c in Claims(p) <==>
             if p.protocol.Https? then c == ClaimFor(p, Tcp) || c == ClaimFor(p, Udp) else c == ClaimFor(p, p.protocol);
  }

  method InsertRuleNames(seen: map<string, string>, p: Predicate) returns (r: Result<map<string, string>, DeriveError>)
    ensures r.Ok? <==> forall n :: n in ClaimedNames(p) ==> n !in seen
    ensures r.Ok? ==> forall n :: n in r.value <==> n in seen || n in ClaimedNames(p)
    ensures r.Ok? ==> forall n :: n in r.value ==> r.value[n] == if n in seen then seen[n] else p.name
    ensures r.Err? ==> exists n :: n in ClaimedNames(p) && n in seen && r.error == DuplicateRuleName(n, seen[n], p.name)
  {
    var names := ClaimedNames(p);
    var out := seen;
    assert KeysDistinctNames(names) by { LastCharDiffers(p.name); }
    for k := 0 to |names|
      invariant forall n :: n in out <==> n in seen || n in names[..k]
      invariant forall m :: 0 <= m < k ==> names[m] !in seen
      invariant forall n :: n in out ==> out[n] == if n in seen then seen[n] else p.name
    {
      if names[k] in out {
        assert names[k] in seen;
        return Err(DuplicateRuleName(names[k], out[names[k]], p.name));
      }
      out := out[names[k] := p.name];
      assert names[..k + 1] == names[..k] + [names[k]];
    }
    assert names[..|names|] == names;
    return Ok(out);
  }

  ghost predicate KeysDistinctNames(names: seq<string>) {
    forall i, j :: 0 <= i < j < |names| ==> names[i] != names[j]
  }

  lemma LastCharDiffers(name: string)
    ensures name + "-tcp" != name + "-udp"
  {
    assert (name + "-tcp")[|name| + 1] == 't' && (name + "-udp")[|name| + 1] == 'u';
  }

  // Everything claimed so far.
  datatype Seen = Seen(names: set<string>, ruleNames: map<string, string>, listens: seq<ListenClaim>)

  ghost predicate NamesFrom(ruleNames: map<string, string>, ps: seq<Predicate>) {
    && (forall n :: n in ruleNames <==> exists k :: 0 <= k < |ps| && n in ClaimedNames(ps[k]))
    && (forall n :: n in ruleNames ==> OwnedBy(ps, n, ruleNames[n]))
  }

  // Rule name `n` is claimed by a predicate called `owner`.
  ghost predicate OwnedBy(ps: seq<Predicate>, n: string, owner: string) {
    exists k :: 0 <= k < |ps| && n in ClaimedNames(ps[k]) && ps[k].name == owner
  }

  ghost predicate ListensFrom(listens: seq<ListenClaim>, ps: seq<Predicate>) {
    forall c :: c in listens <==> exists k :: 0 <= k < |ps| && c in Claims(ps[k])
  }

  ghost predicate SeenFrom(seen: Seen, ps: seq<Predicate>) {
    && seen.names == (set k | 0 <= k < |ps| :: ps[k].name)
    && NamesFrom(seen.ruleNames, ps) && ListensFrom(seen.listens, ps)
  }

  // What an error says about `p` and the predicates before it.
  ghost predicate Blames(ps: seq<Predicate>, p: Predicate, e: DeriveError) {
    match e
    case InvalidName(n) => n == p.name && !NameOk(n)
    case ZeroListenPort(n) => n == p.name && NameOk(n) && p.listenPort == 0
    case DuplicateName(n) => n == p.name && exists k :: 0 <= k < |ps| && ps[k].name == n
    case DuplicateRuleName(n, first, second) => n in ClaimedNames(p) && OwnedBy(ps, n, first) && second == p.name
    case DuplicateListenPort(first, second, port) =>
      && second == p.name && port == p.listenPort
      && exists k :: 0 <= k < |ps| && ps[k].name == first && PortsClash(ps[k], p)
                  && ps[k].protocol.Https? == p.protocol.Https?
    case HttpsListenCollision(https, other, port) =>
      && port == p.listenPort
      && exists k :: 0 <= k < |ps| && PortsClash(ps[k], p) && ps[k].protocol.Https? != p.protocol.Https?
                  && (https, other) == if p.protocol.Https? then (p.name, ps[k].name) else (ps[k].name, p.name)
  }

  lemma CollisionBlames(seen: seq<ListenClaim>, ps: seq<Predicate>, p: Predicate, e: DeriveError)
    requires ListensFrom(seen, ps) && exists s, c :: s in seen && c in Claims(p) && Collision(s, c, e)
    ensures Blames(ps, p, e)
  {
    var s, c :| s in seen && c in Claims(p) && Collision(s, c, e);
    var k :| 0 <= k < |ps| && s in Claims(ps[k]);
    ClaimsConflict(ps[k], p);
    ClaimIs(ps[k], s);
    ClaimIs(p, c);
  }

  lemma ClaimIs(p: Predicate, c: ListenClaim)
    requires c in Claims(p)
    ensures c.predicateName == p.name && c.fromHttps == p.protocol.Https? && c.port == p.listenPort
  {
  }

  // One round of the loop: validate `p`, then claim its names and listeners.
  method Claim(seen: Seen, ghost ps: seq<Predicate>, p: Predicate) returns (r: Result<Seen, DeriveError>)
    requires SeenFrom(seen, ps)
    ensures r.Ok? <==> NameOk(p.name) && p.listenPort != 0 && forall k :: 0 <= k < |ps| ==> Compatible(ps[k], p)
    ensures r.Ok? ==> SeenFrom(r.value, ps + [p])
    ensures r.Err? ==> Blames(ps, p, r.error)
  {
    if !NameOk(p.name) { return Err(InvalidName(p.name)); }
    if p.listenPort == 0 { return Err(DeriveError.ZeroListenPort(p.name)); }
    if p.name in seen.names {
      ghost var k :| 0 <= k < |ps| && ps[k].name == p.name;
      assert !Compatible(ps[k], p);
      return Err(DeriveError.DuplicateName(p.name));
    }
    var names := InsertRuleNames(seen.ruleNames, p);
    NamesDecide(seen.ruleNames, ps, p);
    if names.Err? { return Err(names.error); }
    var listens := InsertListenClaims(seen.listens, p);
    ListensDecide(seen.listens, ps, p);
    if listens.Err? {
      CollisionBlames(seen.listens, ps, p, listens.error);
      return Err(listens.error);
    }
    NamesExtend(seen.ruleNames, names.value, ps, p);
    ListensExtend(seen.listens, ps, p);
    ghost var qs := ps + [p];
    assert forall k :: 0 <= k < |ps| ==> qs[k] == ps[k];
    assert seen.names + {p.name} == set k | 0 <= k < |qs| :: qs[k].name by {
      forall n | n in seen.names + {p.name}
        ensures exists k :: 0 <= k < |qs| && qs[k].name == n
      {
        if n == p.name {
          assert qs[|ps|].name == n;
        } else {
          var k :| 0 <= k < |ps| && ps[k].name == n;
          assert qs[k].name == n;
        }
      }
    }
    return Ok(Seen(seen.names + {p.name}, names.value, listens.value));
  }

  lemma NamesDecide(ruleNames: map<string, string>, ps: seq<Predicate>, p: Predicate)
    requires NamesFrom(ruleNames, ps)
    ensures (forall n :: n in ClaimedNames(p) ==> n !in ruleNames)
       <==> forall k :: 0 <= k < |ps| ==> !NamesClash(ps[k], p)
  {
    if n :| n in ClaimedNames(p) && n in ruleNames {
      var k :| 0 <= k < |ps| && n in ClaimedNames(ps[k]);
      assert NamesClash(ps[k], p);
    }
  }

  lemma NamesExtend(before: map<string, string>, after: map<string, string>, ps: seq<Predicate>, p: Predicate)
    requires NamesFrom(before, ps) && forall n :: n in after <==> n in before || n in ClaimedNames(p)
    requires forall n :: n in after ==> after[n] == if n in before then before[n] else p.name
    ensures NamesFrom(after, ps + [p])
  {
    forall n
      ensures n in after <==> exists k :: 0 <= k < |ps + [p]| && n in ClaimedNames((ps + [p])[k])
    {
      ClaimedBy(ps, p, n);
    }
    forall n | n in after
      ensures OwnedBy(ps + [p], n, after[n])
    {
      OwnedStill(ps, p, n, after[n]);
    }
  }

  lemma ClaimedBy(ps: seq<Predicate>, p: Predicate, n: string)
    ensures (exists k :: 0 <= k < |ps + [p]| && n in ClaimedNames((ps + [p])[k]))
       <==> (exists k :: 0 <= k < |ps| && n in ClaimedNames(ps[k])) || n in ClaimedNames(p)
  {
    var qs := ps + [p];
    if k :| 0 <= k < |ps| && n in ClaimedNames(ps[k]) { assert n in ClaimedNames(qs[k]); }
    if n in ClaimedNames(p) { assert n in ClaimedNames(qs[|ps|]); }
  }

  lemma OwnedStill(ps: seq<Predicate>, p: Predicate, n: string, owner: string)
    requires OwnedBy(ps, n, owner) || (n in ClaimedNames(p) && p.name == owner)
    ensures OwnedBy(ps + [p], n, owner)
  {
    var qs := ps + [p];
    if OwnedBy(ps, n, owner) {
      var k :| 0 <= k < |ps| && n in ClaimedNames(ps[k]) && ps[k].name == owner;
      assert n in ClaimedNames(qs[k]) && qs[k].name == owner;
    } else {
      assert n in ClaimedNames(qs[|ps|]) && qs[|ps|].name == owner;
    }
  }

  lemma ListensExtend(seen: seq<ListenClaim>, ps: seq<Predicate>, p: Predicate)
    requires ListensFrom(seen, ps)
    ensures ListensFrom(seen + Claims(p), ps + [p])
  {
    var qs := ps + [p];
    forall c
      ensures c in seen + Claims(p) <==> exists k :: 0 <= k < |qs| && c in Claims(qs[k])
    {
      if c in seen {
        var k :| 0 <= k < |ps| && c in Claims(ps[k]);
        assert c in Claims(qs[k]);
      }
      if c in Claims(p) { assert c in Claims(qs[|ps|]); }
    }
  }

  lemma ListensDecide(seen: seq<ListenClaim>, ps: seq<Predicate>, p: Predicate)
    requires ListensFrom(seen, ps)
    ensures (forall c :: c in Claims(p) ==> Free(seen, c)) <==> forall k :: 0 <= k < |ps| ==> !PortsClash(ps[k], p)
  {
    forall k | 0 <= k < |ps|
      ensures PortsClash(ps[k], p) ==> exists c :: c in Claims(p) && !Free(seen, c)
    {
      ClaimsConflict(ps[k], p);
      if a, b :| a in Claims(ps[k]) && b in Claims(p) && Conflict(a, b) {
        assert a in seen;
        var s :| 0 <= s < |seen| && seen[s] == a;
        assert !Free(seen, b);
      }
    }
    if c :| c in Claims(p) && !Free(seen, c) {
      var s :| 0 <= s < |seen| && Conflict(seen[s], c);
      assert seen[s] in seen;
      var k :| 0 <= k < |ps| && seen[s] in Claims(ps[k]);
      ClaimsConflict(ps[k], p);
      assert PortsClash(ps[k], p);
    }
  }

  method Derive(set': PredicateSet, cfg: DeriveConfig) returns (r: Result<RuleSet, DeriveError>)
    ensures r.Ok? <==> Derivable(set'.predicates)
    ensures r.Ok? ==> r.value == RuleSet(DerivedRules(cfg, set'.predicates), [])
    ensures r.Err? ==> exists i :: 0 <= i < |set'.predicates| && Derivable(set'.predicates[..i])
                                && Blames(set'.predicates[..i], set'.predicates[i], r.error)
  {
    var ps := set'.predicates;
    var seen := Seen({}, map[], []);
    var rules: seq<Rule> := [];
    for i := 0 to |ps|
      invariant SeenFrom(seen, ps[..i])
      invariant rules + DerivedRules(cfg, ps[i..]) == DerivedRules(cfg, ps)
      invariant Derivable(ps[..i])
    {
      var step := Claim(seen, ps[..i], ps[i]);
      ExtendDerivable(ps, i);
      if step.Err? { return Err(step.error); }
      seen := step.value;
      assert ps[..i + 1] == ps[..i] + [ps[i]];
      assert ps[i..][1..] == ps[i + 1..];
      rules := rules + RulesFor(cfg, ps[i]);
    }
    assert ps[|ps|..] == [] && ps[..|ps|] == ps;
    assert rules == DerivedRules(cfg, ps);
    r := Construct(cfg, ps, rules);
  }

  // The construction check repeats what the claims established and never
  // fails here.
  method Construct(cfg: DeriveConfig, ghost ps: seq<Predicate>, rules: seq<Rule>)
    returns (r: Result<RuleSet, DeriveError>)
    requires Derivable(ps) && rules == DerivedRules(cfg, ps)
    ensures r == Ok(RuleSet(rules, []))
  {
    DerivedRulesAreValid(cfg, ps);
    DerivedRulesAreAccepted(cfg, ps);
    assert forall i :: 0 <= i < |rules| ==> rules[i] in rules;
    var each := ValidateEach((s: string) => false, (route: HttpRoute) => true, RuleFile(rules, []));
    var built := CheckDuplicates(rules, []);
    assert each.Ok? && built.Ok?;
    return Ok(built.value);
  }

  lemma ClaimsConflict(p: Predicate, q: Predicate)
    ensures PortsClash(p, q) <==> exists a, b :: a in Claims(p) && b in Claims(q) && Conflict(a, b)
  {
    assert Claims(p)[0] in Claims(p) && Claims(q)[0] in Claims(q);
    if PortsClash(p, q) { assert Conflict(Claims(p)[0], Claims(q)[0]); }
  }

  // One more predicate keeps a prefix derivable exactly when it is fine by
  // itself and compatible with every earlier one.
  lemma ExtendDerivable(ps: seq<Predicate>, i: nat)
    requires i < |ps| && Derivable(ps[..i])
    ensures var fits :=
              NameOk(ps[i].name) && ps[i].listenPort != 0 && forall k :: 0 <= k < i ==> Compatible(ps[..i][k], ps[i]);
            (fits ==> Derivable(ps[..i + 1])) && (!fits ==> !Derivable(ps))
  {
    var s := ps[..i + 1];
    assert forall k :: 0 <= k < i ==> s[k] == ps[..i][k] == ps[k];
    if forall k :: 0 <= k < i ==> Compatible(ps[..i][k], ps[i]) {
      forall a, b | 0 <= a < b < |s|
        ensures Compatible(s[a], s[b])
      {
        if b < i {
          assert Compatible(ps[..i][a], ps[..i][b]);
        } else {
          assert Compatible(ps[..i][a], ps[i]);
        }
      }
    }
  }

  lemma SuffixKeepsName(name: string, suffix: string)
    requires NameOk(name) && (suffix == "-tcp" || suffix == "-udp")
    ensures NameOk(name + suffix)
  {
    var n := name + suffix;
    forall i | 0 <= i < |n|
      ensures !IsSpaceOrControl(n[i])
    {
      if i < |name| { assert n[i] == name[i]; } else { assert n[i] == suffix[i - |name|]; }
    }
  }

  lemma DerivedRulesAreValid(cfg: DeriveConfig, ps: seq<Predicate>)
    requires Derivable(ps)
    ensures forall parses: string -> bool, r :: r in DerivedRules(cfg, ps) ==> WellFormed(parses, r)
  {
    forall parses: string -> bool, r | r in DerivedRules(cfg, ps)
      ensures WellFormed(parses, r)
    {
      FlattenSource(RulesWith(cfg), ps, r);
      var i :| 0 <= i < |ps| && r in RulesFor(cfg, ps[i]);
      if ps[i].protocol.Https? {
        SuffixKeepsName(ps[i].name, "-tcp");
        SuffixKeepsName(ps[i].name, "-udp");
      }
    }
  }

  lemma DerivedRulesAreAccepted(cfg: DeriveConfig, ps: seq<Predicate>)
    requires Derivable(ps)
    ensures Accepted(RuleSet(DerivedRules(cfg, ps), []))
  {
    var part := RulesWith(cfg);
    forall i | 0 <= i < |ps|
      ensures KeysDistinct(NameOf, part(ps[i])) && KeysDistinct(ListenKeyOf, part(ps[i]))
    {
      LastCharDiffers(ps[i].name);
    }
    forall i, j | 0 <= i < j < |ps|
      ensures KeysApart(NameOf, part(ps[i]), part(ps[j])) && KeysApart(ListenKeyOf, part(ps[i]), part(ps[j]))
    {
      assert Compatible(ps[i], ps[j]);
      RulesApart(cfg, ps[i], ps[j]);
    }
    FlattenDistinct(part, NameOf, ps);
    FlattenDistinct(part, ListenKeyOf, ps);
  }

  lemma RulesApart(cfg: DeriveConfig, p: Predicate, q: Predicate)
    requires Compatible(p, q)
    ensures KeysApart(NameOf, RulesFor(cfg, p), RulesFor(cfg, q))
    ensures KeysApart(ListenKeyOf, RulesFor(cfg, p), RulesFor(cfg, q))
  {
    forall x, y | x in RulesFor(cfg, p) && y in RulesFor(cfg, q)
      ensures NameOf(x) != NameOf(y) && ListenKeyOf(x) != ListenKeyOf(y)
    {
      assert x.name in ClaimedNames(p) && y.name in ClaimedNames(q);
    }
  }

  // ---- From a terminal's rules to a relay's rules ----

  lemma CompatibleIsSymmetric()
    ensures forall p, q :: Compatible(p, q) ==> Compatible(q, p)
    ensures forall p :: !Compatible(p, p)
  {
  }

  lemma DerivablePermutes(s: seq<Predicate>, t: seq<Predicate>)
    requires multiset(s) == multiset(t) && Derivable(s)
    ensures Derivable(t)
  {
    CompatibleIsSymmetric();
    PairwisePermutes(Compatible, s, t);
    forall i | 0 <= i < |t|
      ensures NameOk(t[i].name) && t[i].listenPort != 0
    {
      assert t[i] in multiset(s);
    }
  }

  // Two rules on one transport and port, hence on different addresses: fine
  // for the terminal, one listener too many for a relay.
  ghost predicate PortReused(s: RuleSet) {
    exists i, j :: 0 <= i < j < |s.rules| && s.rules[i].protocol == s.rules[j].protocol
                && s.rules[i].listen.port == s.rules[j].listen.port
  }

  // Two rules on port 80 of different addresses: loaded, and not derivable.
  lemma PortReuseIsNotDerivable(meta: HttpsMeta, origin: PubKey)
    ensures var r := Rule("a", SocketAddr(V4(1), 80), Tcp, None, Some("127.0.0.1:80"), None, None);
            var s := RuleSet([r, r.(name := "b", listen := SocketAddr(V4(2), 80))], []);
            Accepted(s) && EachRuleValid(s) && !Derivable(ExtractOf(s, meta, origin).predicates)
  {
    var r := Rule("a", SocketAddr(V4(1), 80), Tcp, None, Some("127.0.0.1:80"), None, None);
    var s := RuleSet([r, r.(name := "b", listen := SocketAddr(V4(2), 80))], []);
    assert s.rules[0].protocol == s.rules[1].protocol && s.rules[0].listen.port == s.rules[1].listen.port;
    assert PortReused(s);
    PublishedSetIsDerivable(s, meta, origin);
  }

  ghost predicate RoutesFit(s: RuleSet, meta: HttpsMeta) {
    meta.listenPort != 0 && forall i :: 0 <= i < |s.rules| ==> RouteFitsRule(s.rules[i], meta)
  }

  predicate RouteFitsRule(r: Rule, meta: HttpsMeta) {
    r.listen.port != meta.listenPort && r.name != PUBLIC_HTTPS && r.name != PUBLIC_HTTPS + "-tcp"
    && (meta.http3 ==> r.name != PUBLIC_HTTPS + "-udp")
  }

  ghost predicate EachRuleValid(s: RuleSet) {
    forall i :: 0 <= i < |s.rules| ==>
      NameOk(s.rules[i].name) && s.rules[i].listen.port != 0 && !s.rules[i].protocol.Https?
  }

  // What loads has valid rules.
  lemma WellFormedIsValid(parses: string -> bool, s: RuleSet)
    requires forall r :: r in s.rules ==> WellFormed(parses, r)
    ensures EachRuleValid(s) && OnlyL4(s)
  {
    forall i | 0 <= i < |s.rules|
      ensures WellFormed(parses, s.rules[i])
    {
      assert s.rules[i] in s.rules;
    }
  }

  lemma L4Compatible(r: Rule, q: Rule)
    requires !r.protocol.Https? && !q.protocol.Https?
    ensures Compatible(ProjectRule(r), ProjectRule(q))
       <==> r.name != q.name && !(r.protocol == q.protocol && r.listen.port == q.listen.port)
  {
    assert r.name in ClaimedNames(ProjectRule(r)) && q.name in ClaimedNames(ProjectRule(q));
  }

  lemma RoutesCompatible(r: Rule, meta: HttpsMeta)
    requires !r.protocol.Https?
    ensures Compatible(ProjectRule(r), ProjectRoutes(meta)) <==> RouteFitsRule(r, meta)
  {
    var p, h := ProjectRule(r), ProjectRoutes(meta);
    assert forall n :: n in ClaimedNames(p) <==> n == r.name;
    assert forall n :: n in ClaimedNames(h)
                  <==> n == PUBLIC_HTTPS + "-tcp" || (meta.http3 && n == PUBLIC_HTTPS + "-udp");
    assert NamesClash(p, h) <==> r.name in ClaimedNames(h);
  }

  // Which rule sets a terminal can publish: exactly those a relay can derive.
  lemma PublishedSetIsDerivable(s: RuleSet, meta: HttpsMeta, origin: PubKey)
    requires Accepted(s) && EachRuleValid(s)
    ensures Derivable(ExtractOf(s, meta, origin).predicates)
       <==> !PortReused(s) && (s.routes != [] ==> RoutesFit(s, meta))
  {
    var p := Projected(s, meta);
    SortKeepsElements(PredicateName, p);
    ProjectionDerivable(s, meta);
    if Derivable(p) { DerivablePermutes(p, StableSort(PredicateName, p)); }
    if Derivable(StableSort(PredicateName, p)) { DerivablePermutes(StableSort(PredicateName, p), p); }
  }

  lemma ProjectionDerivable(s: RuleSet, meta: HttpsMeta)
    requires Accepted(s) && EachRuleValid(s)
    ensures Derivable(Projected(s, meta)) <==> !PortReused(s) && (s.routes != [] ==> RoutesFit(s, meta))
  {
    var p, n := Projected(s, meta), |s.rules|;
    assert forall i :: 0 <= i < n ==> p[i] == ProjectRule(s.rules[i]);
    forall i, j | 0 <= i < j < n
      ensures Compatible(p[i], p[j])
         <==> !(s.rules[i].protocol == s.rules[j].protocol && s.rules[i].listen.port == s.rules[j].listen.port)
    {
      L4Compatible(s.rules[i], s.rules[j]);
      assert NameOf(s.rules[i]) != NameOf(s.rules[j]);
    }
    if s.routes != [] {
      assert p[n] == ProjectRoutes(meta);
      PublicNameOk();
      forall i | 0 <= i < n
        ensures Compatible(p[i], p[n]) <==> RouteFitsRule(s.rules[i], meta)
      {
        RoutesCompatible(s.rules[i], meta);
      }
    }
  }

  lemma PublicNameOk()
    ensures NameOk(PUBLIC_HTTPS)
  {
  }

  // What a listener is to a client: its name, transport, port and UDP idle
  // window at the wire's millisecond resolution.
  datatype Listener = Listener(name: string, protocol: Protocol, port: U16, idleMs: Option<U64>)

  const ListenerOf: Rule -> Listener := (r: Rule) =>
    Listener(r.name, r.protocol, r.listen.port,
             if r.protocol.Udp? && r.idleTimeout.Some? then Some(Millis(r.idleTimeout.value)) else None)

  // The routes share one HTTPS listener over TCP and, with HTTP/3, one over UDP
  // with a thirty-second idle timeout.
  function RouteListeners(s: RuleSet, meta: HttpsMeta): seq<Listener> {
    if s.routes == [] then []
    else
      [Listener("public-https-tcp", Tcp, meta.listenPort, None)]
      + if meta.http3 then [Listener("public-https-udp", Udp, meta.listenPort, Some(30_000))] else []
  }

  // ---- Where traffic goes ----

  // A relay binds its own address and hands on to the same port of its peer.
  ghost predicate HandsOn(cfg: DeriveConfig, r: Rule) {
    r.listen.ip == cfg.bindAddr && r.targetPort == Some(r.listen.port) && r.target.None?
  }

  // With a PROXY header always and in version 2 for HTTPS, as configured for
  // TCP, and none for UDP.
  function HeaderFor(cfg: DeriveConfig, p: Predicate): Option<ProxyProto> {
    match p.protocol
    case Https => Some(V2)
    case Tcp => cfg.proxyProtocol
    case Udp => None
  }

  lemma DerivedRulesHandOn(cfg: DeriveConfig, ps: seq<Predicate>, r: Rule)
    requires r in DerivedRules(cfg, ps)
    ensures HandsOn(cfg, r)
    ensures exists p :: p in ps && r.listen.port == p.listenPort && r.proxyProtocol == HeaderFor(cfg, p)
  {
    FlattenSource(RulesWith(cfg), ps, r);
    var i :| 0 <= i < |ps| && r in RulesFor(cfg, ps[i]);
    assert ps[i] in ps && r.listen.port == ps[i].listenPort && r.proxyProtocol == HeaderFor(cfg, ps[i]);
  }

  // The rule a relay runs for a terminal's rule ...
  function RelayRule(cfg: DeriveConfig, r: Rule): Rule {
    Rule(
      r.name,
      SocketAddr(cfg.bindAddr, r.listen.port),
      r.protocol,
      Some(r.listen.port),
      None,
      if r.protocol.Udp? && r.idleTimeout.Some? then Some(Millis(r.idleTimeout.value) * 1_000_000) else None,
      if r.protocol.Tcp? then cfg.proxyProtocol else None)
  }

  function RelayRuleWith(cfg: DeriveConfig): Rule -> Rule { (r: Rule) => RelayRule(cfg, r) }

  // ... and for its routes.
  function RouteRules(cfg: DeriveConfig, s: RuleSet, meta: HttpsMeta): seq<Rule> {
    var at := SocketAddr(cfg.bindAddr, meta.listenPort);
    if s.routes == [] then []
    else
      [Rule("public-https-tcp", at, Tcp, Some(meta.listenPort), None, None, Some(V2))]
      + if !meta.http3 then []
        else [Rule("public-https-udp", at, Udp, Some(meta.listenPort), None, Some(30_000_000_000), Some(V2))]
  }

  lemma DerivedRouteRules(cfg: DeriveConfig, s: RuleSet, meta: HttpsMeta)
    requires s.routes != []
    ensures RulesFor(cfg, ProjectRoutes(meta)) == RouteRules(cfg, s, meta)
  {
    assert PUBLIC_HTTPS + "-tcp" == "public-https-tcp" && PUBLIC_HTTPS + "-udp" == "public-https-udp";
  }

  lemma {:induction false} DerivedL4Rules(cfg: DeriveConfig, rules: seq<Rule>)
    requires forall i :: 0 <= i < |rules| ==> !rules[i].protocol.Https?
    ensures DerivedRules(cfg, Map(ProjectRule, rules)) == Map(RelayRuleWith(cfg), rules)
  {
    if rules != [] {
      var ps := Map(ProjectRule, rules);
      assert ps[1..] == Map(ProjectRule, rules[1..]);
      DerivedL4Rules(cfg, rules[1..]);
      assert DerivedRules(cfg, ps) == [L4Rule(cfg, ps[0])] + DerivedRules(cfg, ps[1..]);
      assert L4Rule(cfg, ps[0]) == RelayRule(cfg, rules[0]);
    }
  }

  lemma ProjectedRules(cfg: DeriveConfig, s: RuleSet, meta: HttpsMeta)
    requires OnlyL4(s)
    ensures DerivedRules(cfg, Projected(s, meta)) == Map(RelayRuleWith(cfg), s.rules) + RouteRules(cfg, s, meta)
  {
    var l4 := Map(ProjectRule, s.rules);
    DerivedL4Rules(cfg, s.rules);
    if s.routes == [] {
      assert Projected(s, meta) == l4;
    } else {
      var route := ProjectRoutes(meta);
      FlattenAppend(RulesWith(cfg), l4, [route]);
      assert [route][1..] == [];
      assert DerivedRules(cfg, [route]) == RulesFor(cfg, route);
      DerivedRouteRules(cfg, s, meta);
    }
  }

  // What a relay runs for what a terminal publishes, rule by rule: the same
  // names, transports, ports and idle times on its own address, handed on to
  // the same ports.
  lemma RelayRulesForTerminal(cfg: DeriveConfig, s: RuleSet, meta: HttpsMeta, origin: PubKey)
    requires OnlyL4(s)
    ensures multiset(DerivedRules(cfg, ExtractOf(s, meta, origin).predicates))
         == multiset(Map(RelayRuleWith(cfg), s.rules) + RouteRules(cfg, s, meta))
  {
    var p := Projected(s, meta);
    SortKeepsElements(PredicateName, p);
    FlattenPermutes(RulesWith(cfg), StableSort(PredicateName, p), p);
    ProjectedRules(cfg, s, meta);
  }

  lemma MapAppend<T, U>(f: T -> U, a: seq<T>, b: seq<T>)
    ensures Map(f, a + b) == Map(f, a) + Map(f, b)
  {
  }

  lemma SameListener(cfg: DeriveConfig, r: Rule)
    ensures ListenerOf(RelayRule(cfg, r)) == ListenerOf(r)
  {
    if r.protocol.Udp? && r.idleTimeout.Some? {
      var m := Millis(r.idleTimeout.value);
      assert m * NANOS_PER_MILLI / NANOS_PER_MILLI == m;
    }
  }

  lemma SameListeners(cfg: DeriveConfig, s: RuleSet, meta: HttpsMeta)
    ensures Map(ListenerOf, Map(RelayRuleWith(cfg), s.rules)) == Map(ListenerOf, s.rules)
    ensures Map(ListenerOf, RouteRules(cfg, s, meta)) == RouteListeners(s, meta)
  {
    forall i | 0 <= i < |s.rules|
      ensures ListenerOf(RelayRule(cfg, s.rules[i])) == ListenerOf(s.rules[i])
    {
      SameListener(cfg, s.rules[i]);
    }
  }

  // Publishing and deriving keeps the meaning: a relay listens for exactly
  // what the terminal serves, under the same names.
  lemma RelayListensForTerminal(cfg: DeriveConfig, s: RuleSet, meta: HttpsMeta, origin: PubKey)
    requires OnlyL4(s)
    ensures multiset(Map(ListenerOf, DerivedRules(cfg, ExtractOf(s, meta, origin).predicates)))
         == multiset(Map(ListenerOf, s.rules) + RouteListeners(s, meta))
  {
    var derived := DerivedRules(cfg, ExtractOf(s, meta, origin).predicates);
    var mine, routes := Map(RelayRuleWith(cfg), s.rules), RouteRules(cfg, s, meta);
    RelayRulesForTerminal(cfg, s, meta, origin);
    MapPermutes(ListenerOf, derived, mine + routes);
    MapAppend(ListenerOf, mine, routes);
    SameListeners(cfg, s, meta);
  }
}
