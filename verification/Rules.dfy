// Rules, HTTPS routes and the cross-file validated `RuleSet`.
module Rules {
  import opened Prelude
  import opened Text

  datatype Protocol = Tcp | Udp | Https
  datatype ProxyProto = V1 | V2

  // An address as its numeric value.
  datatype IpAddr = V4(bits: nat) | V6(bits: nat) {
    predicate IsUnspecified() { bits == 0 }
    predicate SameFamily(other: IpAddr) { V4? == other.V4? }
  }

  datatype SocketAddr = SocketAddr(ip: IpAddr, port: U16)

  // Nanoseconds.
  type Duration = nat

  datatype Rule = Rule(
    name: string,
    listen: SocketAddr,
    protocol: Protocol,
    targetPort: Option<U16>,
    target: Option<string>,
    idleTimeout: Option<Duration>,
    proxyProtocol: Option<ProxyProto>)

  datatype HttpRoute = HttpRoute(hostname: string, target: string, hsts: Option<nat>, headers: map<string, string>)

  datatype RuleError =
    | EmptyName
    | BadNameCharacter(name: string)
    | ZeroListenPort(name: string)
    | HttpsRule(name: string)
    | BadTarget(name: string)
    | BadProxyProtocol(name: string)
    | BadIdleTimeout(name: string)
    | BadRoute(hostname: string)
    | DuplicateName(name: string)
    | DuplicateListen(listen: SocketAddr, protocol: Protocol)
    | DuplicateHostname(hostname: string)

  // Unicode White_Space or general category Cc.
  predicate IsSpaceOrControl(c: char) {
    IsWhitespace(c) || c as int < 0x20 || 0x7F <= c as int < 0xA0
  }

  predicate HasBadCharacter(name: string) {
    exists i :: 0 <= i < |name| && IsSpaceOrControl(name[i])
  }

  predicate NameOk(name: string) { name != [] && !HasBadCharacter(name) }

  // In code points: nothing up to the blank, nothing from delete to the
  // no-break space, and none of the blanks further up.
  lemma NameOkIff(name: string)
    ensures NameOk(name)
       <==> && name != []
            && forall i :: 0 <= i < |name| ==>
                 var n := name[i] as int;
                 && n > 0x20 && !(0x7F <= n <= 0xA0) && n != 0x1680 && !(0x2000 <= n <= 0x200A)
                 && n != 0x2028 && n != 0x2029 && n != 0x202F && n != 0x205F && n != 0x3000
  {
  }

  // A rule of a relay names a port of its peer, one of a terminal names a
  // target, which `parses`, and writes no PROXY header.
  predicate RelayMode(r: Rule) { r.targetPort.Some? && r.targetPort.value != 0 && r.target.None? }

  predicate TerminalMode(parses: string -> bool, r: Rule) {
    r.target.Some? && parses(r.target.value) && r.targetPort.None? && r.proxyProtocol.None?
  }

  // What a rule has to be: of exactly one mode, with an idle time only for
  // UDP and a version 1 header only for TCP.
  predicate WellFormed(parses: string -> bool, r: Rule) {
    && NameOk(r.name) && r.listen.port != 0 && (r.protocol == Tcp || r.protocol == Udp)
    && (RelayMode(r) || TerminalMode(parses, r))
    && (r.idleTimeout.Some? ==> r.protocol == Udp) && (r.proxyProtocol == Some(V1) ==> r.protocol == Tcp)
  }

  // `parses` stands for `Target::parse`, which depends on the platform's
  // address parser.
  function ValidateRule(parses: string -> bool, r: Rule): (v: Result<(), RuleError>)
    ensures v.Ok? <==> WellFormed(parses, r)
  {
    if r.name == [] then Err(EmptyName)
    else if HasBadCharacter(r.name) then Err(BadNameCharacter(r.name))
    else if r.listen.port == 0 then Err(ZeroListenPort(r.name))
    else if r.protocol.Https? then Err(HttpsRule(r.name))
    else ValidateL4(parses, r)
  }

  function ValidateL4(parses: string -> bool, r: Rule): Result<(), RuleError>
    requires !r.protocol.Https?
  {
    if r.targetPort.Some? == r.target.Some? then Err(BadTarget(r.name))
    else if r.targetPort == Some(0) then Err(BadTarget(r.name))
    else if r.target.Some? && !parses(r.target.value) then Err(BadTarget(r.name))
    else if r.target.Some? && r.proxyProtocol.Some? then Err(BadProxyProtocol(r.name))
    else if r.protocol.Tcp? && r.idleTimeout.Some? then Err(BadIdleTimeout(r.name))
    else if r.protocol.Udp? && r.proxyProtocol == Some(V1) then Err(BadProxyProtocol(r.name))
    else Ok(())
  }

  datatype RuleSet = RuleSet(rules: seq<Rule>, routes: seq<HttpRoute>)

  const EMPTY_RULE_SET := RuleSet([], [])

  const NameOf: Rule -> string := (r: Rule) => r.name
  const ListenKeyOf: Rule -> (SocketAddr, Protocol) := (r: Rule) => (r.listen, r.protocol)
  const HostKeyOf: HttpRoute -> string := (r: HttpRoute) => Lower(r.hostname)

  // What a rule set promises after construction: names, listener claims and
  // case-folded hostnames are each pairwise distinct.
  ghost predicate Accepted(s: RuleSet) {
    KeysDistinct(NameOf, s.rules) && KeysDistinct(ListenKeyOf, s.rules) && KeysDistinct(HostKeyOf, s.routes)
  }

  // Letters that differ at most in ASCII case.
  predicate SameLetter(c: char, d: char) {
    c == d || ('A' <= c <= 'Z' && d as int == c as int + 32) || ('A' <= d <= 'Z' && c as int == d as int + 32)
  }

  predicate SameHost(a: string, b: string) { |a| == |b| && forall i :: 0 <= i < |a| ==> SameLetter(a[i], b[i]) }

  lemma LowerEqualIff(a: string, b: string)
    ensures Lower(a) == Lower(b) <==> SameHost(a, b)
  {
    if Lower(a) == Lower(b) {
      assert |a| == |Lower(a)| == |Lower(b)| == |b|;
      forall i | 0 <= i < |a|
        ensures SameLetter(a[i], b[i])
      {
        assert Lower(a)[i] == Lower(b)[i];
      }
    }
  }

  // In terms of the fields: no name twice, no address twice on one protocol,
  // and no hostname twice in any case.
  lemma AcceptedIff(s: RuleSet)
    ensures Accepted(s)
       <==> && (forall i, j :: 0 <= i < j < |s.rules| ==>
                  && s.rules[i].name != s.rules[j].name
                  && !(s.rules[i].listen == s.rules[j].listen && s.rules[i].protocol == s.rules[j].protocol))
            && (forall i, j :: 0 <= i < j < |s.routes| ==> !SameHost(s.routes[i].hostname, s.routes[j].hostname))
  {
    forall i, j | 0 <= i < j < |s.routes|
      ensures HostKeyOf(s.routes[i]) != HostKeyOf(s.routes[j])
         <==> !SameHost(s.routes[i].hostname, s.routes[j].hostname)
    {
      LowerEqualIff(s.routes[i].hostname, s.routes[j].hostname);
    }
    forall i, j | 0 <= i < j < |s.rules|
      ensures NameOf(s.rules[i]) != NameOf(s.rules[j]) <==> s.rules[i].name != s.rules[j].name
      ensures ListenKeyOf(s.rules[i]) != ListenKeyOf(s.rules[j])
         <==> !(s.rules[i].listen == s.rules[j].listen && s.rules[i].protocol == s.rules[j].protocol)
    {
    }
  }

  method FirstDuplicateName(rules: seq<Rule>) returns (dup: Option<string>)
    ensures dup.None? <==> KeysDistinct(NameOf, rules)
    ensures dup.Some? ==> exists i, j :: 0 <= i < j < |rules| && rules[i].name == rules[j].name == dup.value
                                      && KeysDistinct(NameOf, rules[..j])
  {
    var seen: set<string> := {};
    for k := 0 to |rules|
      invariant KeysDistinct(NameOf, rules[..k])
      invariant forall n :: n in seen <==> exists i :: 0 <= i < k && rules[i].name == n
    {
      if rules[k].name in seen {
        ghost var i :| 0 <= i < k && rules[i].name == rules[k].name;
        assert NameOf(rules[i]) == NameOf(rules[k]);
        return Some(rules[k].name);
      }
      seen := seen + {rules[k].name};
      assert forall i, j :: 0 <= i < j < k ==> NameOf(rules[..k][i]) != NameOf(rules[..k][j]);
    }
    assert rules[..|rules|] == rules;
    dup := None;
  }

  // TCP and UDP may share an address; the same protocol may not.
  method FirstDuplicateListen(rules: seq<Rule>) returns (dup: Option<(SocketAddr, Protocol)>)
    ensures dup.None? <==> KeysDistinct(ListenKeyOf, rules)
    ensures dup.Some? ==>
              exists i, j :: 0 <= i < j < |rules| && ListenKeyOf(rules[i]) == ListenKeyOf(rules[j]) == dup.value
  {
    var listens: map<SocketAddr, seq<(string, Protocol)>> := map[];
    for k := 0 to |rules|
      invariant KeysDistinct(ListenKeyOf, rules[..k])
      invariant forall a, p :: Claimed(listens, a, p) <==> exists i :: 0 <= i < k && ListenKeyOf(rules[i]) == (a, p)
    {
      var r := rules[k];
      var existing := if r.listen in listens then listens[r.listen] else [];
      for e := 0 to |existing|
        invariant forall m :: 0 <= m < e ==> existing[m].1 != r.protocol
      {
        if existing[e].1 == r.protocol {
          assert Claimed(listens, r.listen, r.protocol);
          ghost var i :| 0 <= i < k && ListenKeyOf(rules[i]) == (r.listen, r.protocol);
          assert ListenKeyOf(rules[i]) == ListenKeyOf(rules[k]);
          return Some((r.listen, r.protocol));
        }
      }
      assert !Claimed(listens, r.listen, r.protocol);
      ghost var before := listens;
      listens := listens[r.listen := existing + [(r.name, r.protocol)]];
      ClaimedAfterPush(before, r.listen, existing, r.name, r.protocol);
      forall i | 0 <= i < k
        ensures ListenKeyOf(rules[i]) != ListenKeyOf(r)
      {
        assert Claimed(before, rules[i].listen, rules[i].protocol);
      }
      assert forall i, j :: 0 <= i < j < k ==> ListenKeyOf(rules[..k][i]) != ListenKeyOf(rules[..k][j]);
      assert forall i :: 0 <= i < k ==> rules[..k + 1][i] == rules[..k][i];
    }
    assert rules[..|rules|] == rules;
    dup := None;
  }

  ghost predicate Claimed(listens: map<SocketAddr, seq<(string, Protocol)>>, a: SocketAddr, p: Protocol) {
    a in listens && exists m :: 0 <= m < |listens[a]| && listens[a][m].1 == p
  }

  lemma ClaimedAfterPush(
    listens: map<SocketAddr, seq<(string, Protocol)>>, a: SocketAddr, existing: seq<(string, Protocol)>, name: string,
    p: Protocol)
    requires existing == if a in listens then listens[a] else []
    ensures forall b, q :: Claimed(listens[a := existing + [(name, p)]], b, q)
                      <==> (Claimed(listens, b, q) || (b == a && q == p))
  {
    var after := listens[a := existing + [(name, p)]];
    forall b, q
      ensures Claimed(after, b, q) <==> (Claimed(listens, b, q) || (b == a && q == p))
    {
      if b == a {
        if q == p { assert after[a][|existing|].1 == p; }
        if Claimed(listens, a, q) {
          var m :| 0 <= m < |listens[a]| && listens[a][m].1 == q;
          assert after[a][m].1 == q;
        }
      }
    }
  }

  method FirstDuplicateHostname(routes: seq<HttpRoute>) returns (dup: Option<string>)
    ensures dup.None? <==> KeysDistinct(HostKeyOf, routes)
    ensures dup.Some? ==> exists i, j :: 0 <= i < j < |routes| && HostKeyOf(routes[i]) == HostKeyOf(routes[j])
                                      && routes[j].hostname == dup.value
  {
    var seen: set<string> := {};
    for k := 0 to |routes|
      invariant KeysDistinct(HostKeyOf, routes[..k])
      invariant forall n :: n in seen <==> exists i :: 0 <= i < k && HostKeyOf(routes[i]) == n
    {
      var lower := Lower(routes[k].hostname);
      if lower in seen {
        ghost var i :| 0 <= i < k && HostKeyOf(routes[i]) == lower;
        assert HostKeyOf(routes[i]) == HostKeyOf(routes[k]);
        return Some(routes[k].hostname);
      }
      seen := seen + {lower};
      assert forall i, j :: 0 <= i < j < k ==> HostKeyOf(routes[..k][i]) != HostKeyOf(routes[..k][j]);
    }
    assert routes[..|routes|] == routes;
    dup := None;
  }

  // The cross-collection check: it succeeds exactly on pairwise distinct
  // names, listener claims and hostnames, and reports them in that order.
  method CheckDuplicates(rules: seq<Rule>, routes: seq<HttpRoute>) returns (r: Result<RuleSet, RuleError>)
    ensures r.Ok? <==> Accepted(RuleSet(rules, routes))
    ensures r.Ok? ==> r.value == RuleSet(rules, routes)
    ensures r.Err? ==>
              (r.error.DuplicateName? <==> !KeysDistinct(NameOf, rules))
              && (r.error.DuplicateListen? <==> KeysDistinct(NameOf, rules) && !KeysDistinct(ListenKeyOf, rules))
              && (r.error.DuplicateHostname? <==> KeysDistinct(NameOf, rules) && KeysDistinct(ListenKeyOf, rules))
    ensures r.Err? && r.error.DuplicateName? ==>
              exists i, j :: 0 <= i < j < |rules| && rules[i].name == rules[j].name == r.error.name
    ensures r.Err? && r.error.DuplicateListen? ==>
              exists i, j :: 0 <= i < j < |rules| && ListenKeyOf(rules[i]) == ListenKeyOf(rules[j])
                                                  == (r.error.listen, r.error.protocol)
    ensures r.Err? && r.error.DuplicateHostname? ==>
              exists i, j :: 0 <= i < j < |routes| && HostKeyOf(routes[i]) == HostKeyOf(routes[j])
                          && routes[j].hostname == r.error.hostname
  {
    var name := FirstDuplicateName(rules);
    if name.Some? { return Err(DuplicateName(name.value)); }
    var listen := FirstDuplicateListen(rules);
    if listen.Some? { return Err(DuplicateListen(listen.value.0, listen.value.1)); }
    var host := FirstDuplicateHostname(routes);
    if host.Some? { return Err(DuplicateHostname(host.value)); }
    return Ok(RuleSet(rules, routes));
  }

  datatype RuleFile = RuleFile(rules: seq<Rule>, routes: seq<HttpRoute>)

  ghost predicate EachValid(parses: string -> bool, routeOk: HttpRoute -> bool, f: RuleFile) {
    (forall i :: 0 <= i < |f.rules| ==> WellFormed(parses, f.rules[i]))
    && (forall i :: 0 <= i < |f.routes| ==> routeOk(f.routes[i]))
  }

  const RulesIn: RuleFile -> seq<Rule> := (f: RuleFile) => f.rules
  const RoutesIn: RuleFile -> seq<HttpRoute> := (f: RuleFile) => f.routes

  // Every rule and route of every file, in file order.
  function Merged(files: seq<RuleFile>): RuleSet {
    RuleSet(FlattenBy(RulesIn, files), FlattenBy(RoutesIn, files))
  }

  // The files' contents one after the other: nothing is lost, added or moved.
  lemma MergedIs(f: RuleFile, rest: seq<RuleFile>)
    ensures Merged([]) == RuleSet([], [])
    ensures Merged([f] + rest) == RuleSet(f.rules + Merged(rest).rules, f.routes + Merged(rest).routes)
  {
    assert ([f] + rest)[1..] == rest;
  }

  lemma MergedIsWellFormed(parses: string -> bool, routeOk: HttpRoute -> bool, files: seq<RuleFile>)
    requires forall i :: 0 <= i < |files| ==> EachValid(parses, routeOk, files[i])
    ensures forall r :: r in Merged(files).rules ==> WellFormed(parses, r)
  {
    forall r | r in Merged(files).rules
      ensures WellFormed(parses, r)
    {
      FlattenSource(RulesIn, files, r);
      var i :| 0 <= i < |files| && r in RulesIn(files[i]);
      assert EachValid(parses, routeOk, files[i]);
    }
  }

  method ValidateEach(parses: string -> bool, routeOk: HttpRoute -> bool, f: RuleFile)
    returns (r: Result<(), RuleError>)
    ensures r.Ok? <==> EachValid(parses, routeOk, f)
  {
    for i := 0 to |f.rules|
      invariant forall k :: 0 <= k < i ==> WellFormed(parses, f.rules[k])
    {
      var v := ValidateRule(parses, f.rules[i]);
      if v.Err? { return Err(v.error); }
    }
    for i := 0 to |f.routes|
      invariant forall k :: 0 <= k < i ==> routeOk(f.routes[k])
    {
      if !routeOk(f.routes[i]) { return Err(BadRoute(f.routes[i].hostname)); }
    }
    return Ok(());
  }

  lemma NextFile<T>(part: RuleFile -> seq<T>, done: seq<T>, files: seq<RuleFile>, i: nat)
    requires i < |files|
    ensures done + FlattenBy(part, files[i..]) == (done + part(files[i])) + FlattenBy(part, files[i + 1..])
  {
    assert files[i..][1..] == files[i + 1..];
    var a, b := part(files[i]), FlattenBy(part, files[i + 1..]);
    assert done + (a + b) == (done + a) + b;
  }

  method Collect(parses: string -> bool, routeOk: HttpRoute -> bool, files: seq<RuleFile>)
    returns (r: Result<RuleSet, RuleError>)
    ensures r.Ok? <==> forall i :: 0 <= i < |files| ==> EachValid(parses, routeOk, files[i])
    ensures r.Ok? ==> r.value == Merged(files)
  {
    var rules: seq<Rule> := [];
    var routes: seq<HttpRoute> := [];
    for i := 0 to |files|
      invariant rules + FlattenBy(RulesIn, files[i..]) == FlattenBy(RulesIn, files)
      invariant routes + FlattenBy(RoutesIn, files[i..]) == FlattenBy(RoutesIn, files)
      invariant forall k :: 0 <= k < i ==> EachValid(parses, routeOk, files[k])
    {
      var v := ValidateEach(parses, routeOk, files[i]);
      if v.Err? { return Err(v.error); }
      NextFile(RulesIn, rules, files, i);
      NextFile(RoutesIn, routes, files, i);
      rules := rules + files[i].rules;
      routes := routes + files[i].routes;
    }
    assert files[|files|..] == [];
    return Ok(RuleSet(rules, routes));
  }

  // `routeOk` stands for the per-route field checks.
  method FromFiles(parses: string -> bool, routeOk: HttpRoute -> bool, files: seq<RuleFile>)
    returns (r: Result<RuleSet, RuleError>)
    ensures r.Ok?
       <==> (forall i :: 0 <= i < |files| ==> EachValid(parses, routeOk, files[i])) && Accepted(Merged(files))
    ensures r.Ok? ==> r.value == Merged(files)
    ensures r.Ok? ==> forall rule :: rule in r.value.rules ==> WellFormed(parses, rule)
  {
    r := Collect(parses, routeOk, files);
    if r.Ok? {
      MergedIsWellFormed(parses, routeOk, files);
      r := CheckDuplicates(r.value.rules, r.value.routes);
    }
  }

  // Loading order does not decide acceptance.
  lemma AcceptanceIgnoresFileOrder(a: seq<RuleFile>, b: seq<RuleFile>)
    requires multiset(a) == multiset(b)
    ensures Accepted(Merged(a)) <==> Accepted(Merged(b))
  {
    FlattenPermutes(RulesIn, a, b);
    FlattenPermutes(RoutesIn, a, b);
    if Accepted(Merged(a)) { AcceptancePermutes(Merged(a), Merged(b)); }
    if Accepted(Merged(b)) { AcceptancePermutes(Merged(b), Merged(a)); }
  }

  lemma AcceptancePermutes(s: RuleSet, t: RuleSet)
    requires multiset(s.rules) == multiset(t.rules) && multiset(s.routes) == multiset(t.routes)
    requires Accepted(s)
    ensures Accepted(t)
  {
    KeysDistinctPermutes(NameOf, s.rules, t.rules);
    KeysDistinctPermutes(ListenKeyOf, s.rules, t.rules);
    KeysDistinctPermutes(HostKeyOf, s.routes, t.routes);
  }

  // ---- Bind override ----

  predicate Overridden(ip: IpAddr, r: Rule) { r.listen.ip.IsUnspecified() && r.listen.ip.SameFamily(ip) }

  function WithBindOverride(bind: Option<IpAddr>, r: Rule): Rule {
    match bind
    case None => r
    case Some(ip) => if Overridden(ip, r) then r.(listen := SocketAddr(ip, r.listen.port)) else r
  }

  // Nothing but the address changes, and that only from the wildcard of the
  // same family.
  lemma BindOverrideIs(bind: Option<IpAddr>, r: Rule)
    ensures var o := WithBindOverride(bind, r);
            && o.name == r.name && o.listen.port == r.listen.port && o.protocol == r.protocol
            && o.targetPort == r.targetPort && o.target == r.target
            && o.idleTimeout == r.idleTimeout && o.proxyProtocol == r.proxyProtocol
            && o.listen.ip == (if bind.Some? && ((bind.value.V4? && r.listen.ip == V4(0))
                                                 || (bind.value.V6? && r.listen.ip == V6(0)))
                               then bind.value else r.listen.ip)
  {
  }

  function OverrideAll(bind: Option<IpAddr>, rules: seq<Rule>): seq<Rule> {
    seq(|rules|, i requires 0 <= i < |rules| => WithBindOverride(bind, rules[i]))
  }

  // A wildcard rule that the override moves onto an explicit rule's claim.
  ghost predicate BindCollision(ip: IpAddr, rules: seq<Rule>) {
    exists i, j :: 0 <= i < |rules| && 0 <= j < |rules| && Collides(ip, rules[i], rules[j])
  }

  predicate Collides(ip: IpAddr, wild: Rule, explicit: Rule) {
    Overridden(ip, wild) && !Overridden(ip, explicit)
    && explicit.listen == SocketAddr(ip, wild.listen.port) && explicit.protocol == wild.protocol
  }

  // The override keeps a rule set acceptable exactly when no wildcard rule
  // lands on a rule already explicit on that address, port and protocol.
  lemma BindOverrideAcceptance(bind: Option<IpAddr>, s: RuleSet)
    requires Accepted(s)
    ensures Accepted(RuleSet(OverrideAll(bind, s.rules), s.routes))
       <==> (bind.None? || !BindCollision(bind.value, s.rules))
  {
    var after := OverrideAll(bind, s.rules);
    forall i, j | 0 <= i < j < |after|
      ensures NameOf(after[i]) != NameOf(after[j])
    {
      assert NameOf(s.rules[i]) != NameOf(s.rules[j]);
    }
    if bind.None? {
      assert after == s.rules;
    } else {
      var ip := bind.value;
      forall i, j | 0 <= i < j < |after|
        ensures ListenKeyOf(after[i]) == ListenKeyOf(after[j])
           <==> Collides(ip, s.rules[i], s.rules[j]) || Collides(ip, s.rules[j], s.rules[i])
      {
        assert ListenKeyOf(s.rules[i]) != ListenKeyOf(s.rules[j]);
      }
      if i, j :| 0 <= i < |s.rules| && 0 <= j < |s.rules| && Collides(ip, s.rules[i], s.rules[j]) {
        assert i != j;
        if i < j {
          assert ListenKeyOf(after[i]) == ListenKeyOf(after[j]);
        } else {
          assert ListenKeyOf(after[j]) == ListenKeyOf(after[i]);
        }
      }
    }
  }

  // A wildcard rule and one explicit on the override's address.
  lemma BindOverrideMayCollide()
    ensures var wild := Rule("wild", SocketAddr(V4(0), 80), Tcp, Some(80), None, None, None);
            var s := RuleSet([wild, wild.(name := "explicit", listen := SocketAddr(V4(1), 80))], []);
            Accepted(s) && !Accepted(RuleSet(OverrideAll(Some(V4(1)), s.rules), s.routes))
  {
    var wild := Rule("wild", SocketAddr(V4(0), 80), Tcp, Some(80), None, None, None);
    var s := RuleSet([wild, wild.(name := "explicit", listen := SocketAddr(V4(1), 80))], []);
    assert "wild"[0] != "explicit"[0];
    assert Collides(V4(1), s.rules[0], s.rules[1]);
    BindOverrideAcceptance(Some(V4(1)), s);
  }
}
