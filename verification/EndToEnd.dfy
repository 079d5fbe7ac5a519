// From the terminal's rules to every node's listeners: the parts joined.
module EndToEnd {
  import opened Prelude
  import opened Ordering
  import opened Postcard
  import opened Rules
  import opened Predicates
  import opened Extractor
  import opened Derive
  import opened Forwarding
  import opened Relay
  import opened ControlFrame
  import opened HopDiff
  import opened Indexing
  import opened Introspection
  import Reliability
  import Propagation
  import Restarts
  import Utf8

  // What fits the cap has sizes a 64-bit machine can count.
  lemma SmallSetIsEncodable(s: PredicateSet)
    requires |EncodeSet(s)| <= PREDICATE_SET_MAX_WIRE_BYTES
    ensures EncodableSet(s)
  {
    ListAtLeast(EncodePredicate, s.predicates, 1);
    forall i | 0 <= i < |s.predicates|
      ensures Encodable(WithoutHttp3(s.predicates[i]))
    {
      ElementSize(EncodePredicate, s.predicates, i);
    }
  }

  // A small valid set is read as what it was, and taken if it is derivable.
  lemma AckForSmall(s: PredicateSet)
    requires |EncodeSet(s)| <= PREDICATE_SET_MAX_WIRE_BYTES && ValidSet(s)
    ensures SetIn(EncodeSet(s)) == s
    ensures AckFor(EncodeSet(s), true) == if Derivable(s.predicates) then AckOk else Reject(INVALID_PREDICATE)
  {
    SmallSetIsEncodable(s);
    assert EncodeSet(s) + [] == EncodeSet(s);
    CurrentRoundTrip(s, []);
  }

  lemma PublishedIsValid(s: RuleSet, meta: HttpsMeta, origin: PubKey)
    requires EachRuleValid(s)
    ensures ValidSet(ExtractOf(s, meta, origin))
  {
    var out, p := ExtractOf(s, meta, origin).predicates, Projected(s, meta);
    SortKeepsElements(PredicateName, p);
    forall i | 0 <= i < |out|
      ensures ValidPredicate(out[i])
    {
      assert out[i] in multiset(p);
    }
  }

  // What a terminal publishes is taken by every relay, and read as what it
  // was, exactly when it is small enough, no port is reused on one transport
  // and the routes' port and names are free.
  lemma PublishedIsAcceptableIff(s: RuleSet, meta: HttpsMeta, origin: PubKey)
    requires Accepted(s) && EachRuleValid(s)
    ensures var set' := ExtractOf(s, meta, origin);
            && (Acceptable(EncodeSet(set')) <==>
                && |EncodeSet(set')| <= PREDICATE_SET_MAX_WIRE_BYTES
                && !PortReused(s) && (s.routes != [] ==> RoutesFit(s, meta)))
            && (Acceptable(EncodeSet(set')) ==> SetIn(EncodeSet(set')) == set')
  {
    var set' := ExtractOf(s, meta, origin);
    if |EncodeSet(set')| <= PREDICATE_SET_MAX_WIRE_BYTES {
      PublishedIsValid(s, meta, origin);
      PublishedSetIsDerivable(s, meta, origin);
      AckForSmall(set');
    }
  }

  // A relay that applied what the terminal published: its snapshot names the
  // terminal's key as the origin and carries one predicate per rule and one
  // for the routes; it listens for exactly the terminal's listeners, on its own
  // address, and hands on to the same ports.
  ghost predicate ServedBy(cfg: DeriveConfig, s: RuleSet, meta: HttpsMeta, origin: PubKey) {
    var published := ExtractOf(s, meta, origin);
    && published.origin == origin
    && (forall id, at, rules :: SnapshotOf(id, Some(published), at, rules).chain.predicateOrigin == Some(origin))
    && (forall id, at, rules :: |SnapshotOf(id, Some(published), at, rules).predicates|
                                == |s.rules| + if s.routes == [] then 0 else 1)
    && multiset(DerivedRules(cfg, published.predicates))
       == multiset(Map(RelayRuleWith(cfg), s.rules) + RouteRules(cfg, s, meta))
    && multiset(Map(ListenerOf, DerivedRules(cfg, published.predicates)))
       == multiset(Map(ListenerOf, s.rules) + RouteListeners(s, meta))
  }

  lemma PublishedIsServed(cfg: DeriveConfig, s: RuleSet, meta: HttpsMeta, origin: PubKey)
    requires EachRuleValid(s)
    ensures ServedBy(cfg, s, meta, origin)
  {
    var published := ExtractOf(s, meta, origin);
    var ps := ExtractIsSortedProjection(s, meta, origin);
    assert |published.predicates| == |multiset(published.predicates)| == |s.rules| + if s.routes == [] then 0 else 1;
    RelayRulesForTerminal(cfg, s, meta, origin);
    RelayListensForTerminal(cfg, s, meta, origin);
  }

  // What loads from files is what these results ask for.
  lemma LoadedIsPublishable(parses: string -> bool, routeOk: HttpRoute -> bool, files: seq<RuleFile>)
    requires (forall i :: 0 <= i < |files| ==> EachValid(parses, routeOk, files[i])) && Accepted(Merged(files))
    ensures Accepted(Merged(files)) && EachRuleValid(Merged(files)) && OnlyL4(Merged(files))
  {
    MergedIsWellFormed(parses, routeOk, files);
    WellFormedIsValid(parses, Merged(files));
  }

  // An accepted body of a terminal is stored, and later resent, under the
  // terminal's own key; other terminals' entries stay.
  lemma PublishedIsStoredUnderOrigin(
    s: RuleSet, meta: HttpsMeta, origin: PubKey, relay: RelayState, clientUp: bool, other: PubKey)
    requires Accepted(s) && EachRuleValid(s) && Acceptable(EncodeSet(ExtractOf(s, meta, origin))) && other != origin
    ensures var body := EncodeSet(ExtractOf(s, meta, origin));
            var after := Accept(RelayPolicy(), relay, body, clientUp);
            && origin in after.stored && after.stored[origin] == body
            && after.latest == Some(ExtractOf(s, meta, origin))
            && (other in after.stored <==> other in relay.stored)
            && (other in after.stored ==> after.stored[other] == relay.stored[other])
  {
    PublishedIsAcceptableIff(s, meta, origin);
    var ps := ExtractIsSortedProjection(s, meta, origin);
  }

  lemma ShowsLast(p: Policy, bodies: seq<Bytes>)
    requires bodies != [] && p.ok(Last(bodies))
    ensures Propagation.Shown(p, bodies) == Some(p.shown(Last(bodies)))
  {
    var before := bodies[..|bodies| - 1];
    assert bodies == before + [Last(bodies)];
    Propagation.GoodAppend(p, before, Last(bodies));
  }

  // Once a chain of any length has drained a published rule set last, every
  // relay shows it, and whatever its own configuration derives from it exactly
  // the terminal's listeners; a terminal that was told the truth shows it too.
  lemma PublishedReachesEveryNode(
    relays: nat, run: seq<Propagation.Action>, s: RuleSet, meta: HttpsMeta, origin: PubKey, i: nat, cfg: DeriveConfig)
    requires Accepted(s) && EachRuleValid(s) && Acceptable(EncodeSet(ExtractOf(s, meta, origin)))
    requires relays > 0 && i <= relays && Propagation.LegalRun(RelayPolicy(), relays, run)
    requires i > 0 || Propagation.HearsTruly(RelayPolicy(), relays, run)
    requires var c := Propagation.After(RelayPolicy(), relays, run);
             Propagation.Drained(c) && c.published != [] && Last(c.published) == EncodeSet(ExtractOf(s, meta, origin))
    ensures var slots := Propagation.After(RelayPolicy(), relays, run).slots;
            i < |slots| && slots[i] == Some(ExtractOf(s, meta, origin))
    ensures Derivable(ExtractOf(s, meta, origin).predicates)
    ensures ServedBy(cfg, s, meta, origin)
  {
    var c := Propagation.After(RelayPolicy(), relays, run);
    PublishedIsAcceptableIff(s, meta, origin);
    PublishedSetIsDerivable(s, meta, origin);
    Propagation.DrainedChainAgrees(RelayPolicy(), relays, run, i);
    ShowsLast(RelayPolicy(), c.published);
    PublishedIsServed(cfg, s, meta, origin);
  }

  // ---- Restarts ----

  lemma RelayPolicyIsCapped()
    ensures Restarts.Capped(RelayPolicy())
  {
  }

  // The same for a chain whose relays restart and whose sessions come and go,
  // as long as what the publisher pushes arrives and is answered.
  lemma RestartedChainServesTerminal(
    relays: nat, run: seq<Restarts.Action>, s: RuleSet, meta: HttpsMeta, origin: PubKey, i: nat, cfg: DeriveConfig)
    requires Accepted(s) && EachRuleValid(s) && Acceptable(EncodeSet(ExtractOf(s, meta, origin)))
    requires i < relays && Restarts.LegalRun(RelayPolicy(), origin, relays, run)
    requires Restarts.Calm(RelayPolicy(), origin, relays, run)
    requires var c := Restarts.After(RelayPolicy(), origin, relays, run);
             Restarts.Drained(c) && c.session && !c.pending && c.rules == Some(EncodeSet(ExtractOf(s, meta, origin)))
    ensures var rs := Restarts.After(RelayPolicy(), origin, relays, run).relays;
            i < |rs| && rs[i].latest == Some(ExtractOf(s, meta, origin))
    ensures ServedBy(cfg, s, meta, origin)
  {
    PublishedIsAcceptableIff(s, meta, origin);
    RelayPolicyIsCapped();
    Restarts.InvHolds(RelayPolicy(), origin, relays, run);
    Restarts.CalmChainShowsRules(RelayPolicy(), origin, relays, run);
    PublishedIsServed(cfg, s, meta, origin);
  }

  // And where a resync is interrupted: a set every relay accepts, and a first
  // relay that no later session tells of it.
  lemma RestartedRelayStaysEmpty(origin: PubKey, outcome: Restarts.Outcome) returns (run: seq<Restarts.Action>)
    ensures var one := PredicateSet([OnPort80("a")], origin);
            && Acceptable(EncodeSet(one)) && Restarts.LegalRun(RelayPolicy(), origin, 2, run)
            && var c := Restarts.After(RelayPolicy(), origin, 2, run);
               && Restarts.Drained(c) && c.session && !c.pending && c.rules == Some(EncodeSet(one))
               && |c.relays| == 2 && c.relays[0].latest.None? && c.relays[1].latest == Some(one)
  {
    var one := PredicateSet([OnPort80("a")], origin);
    OneIsAccepted(origin);
    run := Restarts.InterruptedResync(RelayPolicy(), origin, EncodeSet(one), outcome);
  }

  // ---- A refusal that is lost ----

  function OnPort80(name: string): Predicate { Predicate(name, 80, Tcp, None, false) }

  lemma OneIsAccepted(origin: PubKey)
    ensures var one := PredicateSet([OnPort80("a")], origin);
            Acceptable(EncodeSet(one)) && SetIn(EncodeSet(one)) == one
  {
    var one := PredicateSet([OnPort80("a")], origin);
    SmallName("a");
    assert one.predicates[1..] == [] && |EncodeVarint(1)| == 1;
    AckForSmall(one);
  }

  lemma TwoAreRefused(origin: PubKey)
    ensures var two := PredicateSet([OnPort80("a"), OnPort80("b")], origin);
            AckFor(EncodeSet(two), true) == Reject(INVALID_PREDICATE) && SetIn(EncodeSet(two)) == two
  {
    var two := PredicateSet([OnPort80("a"), OnPort80("b")], origin);
    SmallName("a");
    SmallName("b");
    assert two.predicates[1..] == [OnPort80("b")] && two.predicates[1..][1..] == [] && |EncodeVarint(2)| == 1;
    AckForSmall(two);
    assert !Compatible(two.predicates[0], two.predicates[1]);
  }

  lemma SmallName(name: string)
    requires |name| == 1
    ensures |Utf8.Encode(name)| <= 4 && |EncodePredicate(OnPort80(name))| <= 10
  {
    assert name[1..] == [];
    assert |EncodeVarint(|Utf8.Encode(name)|)| == 1 && |EncodeVarint(80)| == 1;
  }

  // A terminal publishes one predicate, then a second on the same port. Its
  // relay refuses, the answer is lost, and the resent body is answered Ok: the
  // chain is drained, and the boundary above the terminal drifts.
  lemma LostRefusalDrifts(origin: PubKey, nodes: seq<Propagation.Node>, number: U32)
    returns (run: seq<Propagation.Action>)
    requires |nodes| == 2
    ensures var body := EncodeSet(PredicateSet([OnPort80("a"), OnPort80("b")], origin));
            Reliability.Told(AckFor(body, true), number, [Reliability.Mine(false), Reliability.Mine(true)])
            == Some(AckOk)
    ensures Propagation.LegalRun(RelayPolicy(), 1, run)
    ensures var c := Propagation.After(RelayPolicy(), 1, run);
            Propagation.Drained(c) && |c.slots| == 2 && DriftAt(Propagation.Views(c, nodes), 1)
  {
    var p := RelayPolicy();
    var one, two := PredicateSet([OnPort80("a")], origin), PredicateSet([OnPort80("a"), OnPort80("b")], origin);
    OneIsAccepted(origin);
    TwoAreRefused(origin);
    Reliability.RefusalLost(INVALID_PREDICATE, number);
    run := PublishTwice(p, EncodeSet(one), EncodeSet(two));
    var c := Propagation.After(p, 1, run);
    var views := Propagation.Views(c, nodes);
    IndexComplete(PredicateName, two.predicates, OnPort80("b"));
    assert "b" in NameMap(views[0]);
    if "b" in NameMap(views[1]) { IndexSound(PredicateName, one.predicates, "b"); }
  }

  // Two bodies published and processed, both times with an Ok heard, by a
  // relay that accepts only the first.
  lemma PublishTwice(p: Policy, good: Bytes, bad: Bytes) returns (run: seq<Propagation.Action>)
    requires p.ok(good) && !p.ok(bad)
    ensures Propagation.LegalRun(p, 1, run) && Propagation.Drained(Propagation.After(p, 1, run))
    ensures Propagation.After(p, 1, run).slots == [Some(p.shown(bad)), Some(p.shown(good))]
  {
    run := [];
    Propagation.Extend(p, 1, run, Propagation.Publish(good));
    run := run + [Propagation.Publish(good)];
    Propagation.Extend(p, 1, run, Propagation.Deliver(0, true));
    run := run + [Propagation.Deliver(0, true)];
    Propagation.Extend(p, 1, run, Propagation.Publish(bad));
    run := run + [Propagation.Publish(bad)];
    Propagation.Extend(p, 1, run, Propagation.Deliver(0, true));
    run := run + [Propagation.Deliver(0, true)];
  }

  // ---- Two terminals behind one relay ----

  lemma EmptySetIsAcceptable(origin: PubKey)
    ensures Acceptable(EncodeSet(PredicateSet([], origin)))
    ensures SetIn(EncodeSet(PredicateSet([], origin))) == PredicateSet([], origin)
  {
    assert |EncodeVarint(0)| == 1;
    AckForSmall(PredicateSet([], origin));
  }

  // Two updates from different terminals, and a new session that ends wrong.
  lemma TwoTerminalsDiverge(a: PubKey, b: PubKey) returns (run: seq<Event>)
    requires a != b
    ensures LegalRun(RelayPolicy(), run)
    ensures UpstreamAfter(RelayPolicy(), After(RelayPolicy(), run).outbox) != After(RelayPolicy(), run).latest
  {
    var p := RelayPolicy();
    var u := Update(EncodeSet(PredicateSet([], a)), true, true);
    var v := Update(EncodeSet(PredicateSet([], b)), true, true);
    EmptySetIsAcceptable(a);
    EmptySetIsAcceptable(b);
    assert [u][..0] == [] && [u, v][..1] == [u];
    assert LegalRun(p, []) && LegalRun(p, [u]) && LegalRun(p, [u, v]);
    assert After(p, [u]) == Accept(p, INITIAL, u.body, true);
    assert After(p, [u, v]) == Accept(p, After(p, [u]), v.body, true);
    assert p.origin(u.body) == a && p.origin(v.body) == b;
    var order := TwoOriginsMayDiverge(p, [u, v], a, b);
    run := [u, v] + [NewSession(order, _ => true)];
  }
}
