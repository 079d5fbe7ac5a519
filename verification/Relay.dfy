// The relay's predicate path: accept, apply, remember per origin, forward
// byte for byte, and re-forward after a new upstream session.
module Relay {
  import opened Prelude
  import opened Postcard
  import opened ControlFrame
  import opened Rules
  import opened Predicates
  import opened Derive
  import opened Introspection
  import opened Forwarding

  const PREDICATE_SET_TOO_LARGE: U16 := 101
  const INVALID_PREDICATE: U16 := 102

  // What a relay answers to an update. Its own configuration plays no part.
  ghost function AckFor(body: Bytes, supervisorUp: bool): AckStatus {
    if |body| > PREDICATE_SET_MAX_WIRE_BYTES then Reject(PREDICATE_SET_TOO_LARGE)
    else
      match FromWireBytes(body)
      case Err(_) => Reject(INVALID_PREDICATE)
      case Ok(s) => if Derivable(s.predicates) && supervisorUp then AckOk else Reject(INVALID_PREDICATE)
  }

  // Too long a body is told apart from everything else that is wrong with one.
  lemma AckForIs(body: Bytes, supervisorUp: bool)
    ensures AckFor(body, supervisorUp) == Reject(101) <==> |body| > 8192
    ensures AckFor(body, supervisorUp) == AckOk
       <==> && |body| <= 8192 && supervisorUp && FromWireBytes(body).Ok?
            && Derivable(FromWireBytes(body).value.predicates)
    ensures AckFor(body, supervisorUp) in {AckOk, Reject(101), Reject(102)}
  {
  }

  // A body every relay takes while its supervisor runs.
  ghost predicate Acceptable(body: Bytes) { AckFor(body, true).AckOk? }

  // The set in a body; what a body that does not decode maps to is never used.
  function SetIn(body: Bytes): PredicateSet {
    match FromWireBytes(body)
    case Ok(s) => s
    case Err(_) => PredicateSet([], Zeros(X25519_PUBLIC_LEN))
  }

  // Every relay's policy.
  ghost function RelayPolicy(): Policy { Policy((b: Bytes) => Acceptable(b), (b: Bytes) => SetIn(b)) }

  class ChainAcceptor {
    const cfg: DeriveConfig
    const hasUpstream: bool
    const introspection: IntrospectionState
    var lastForwarded: map<PubKey, Bytes>
    // What the proxy supervisor was given last.
    var supervised: RuleSet
    var outbox: seq<Bytes>

    constructor (cfg: DeriveConfig, hasUpstream: bool, introspection: IntrospectionState)
      requires introspection.latest == None
      ensures this.cfg == cfg && this.hasUpstream == hasUpstream && this.introspection == introspection
      ensures State() == INITIAL && supervised == EMPTY_RULE_SET
    {
      this.cfg := cfg;
      this.hasUpstream := hasUpstream;
      this.introspection := introspection;
      lastForwarded := map[];
      supervised := EMPTY_RULE_SET;
      outbox := [];
    }

    ghost function State(): RelayState
      reads this, introspection
    {
      RelayState(introspection.latest, lastForwarded, outbox)
    }

    // `supervisorUp` is whether the proxy supervisor takes the rules,
    // `clientUp` whether the chain client takes the forwarded body.
    method HandlePredicateSetUpdate(body: Bytes, supervisorUp: bool, clientUp: bool, now: int) returns (ack: AckStatus)
      modifies this, introspection
      ensures ack == AckFor(body, supervisorUp)
      ensures !ack.AckOk? ==> State() == old(State()) && supervised == old(supervised)
      ensures ack.AckOk? ==> supervised == RuleSet(DerivedRules(cfg, SetIn(body).predicates), [])
      ensures ack.AckOk? ==> introspection.lastApplyUnix == now
      ensures ack.AckOk? && hasUpstream ==> State() == Accept(RelayPolicy(), old(State()), body, clientUp)
      ensures ack.AckOk? && !hasUpstream ==> State() == old(State()).(latest := Some(SetIn(body)))
    {
      if |body| > PREDICATE_SET_MAX_WIRE_BYTES { return Reject(PREDICATE_SET_TOO_LARGE); }
      var decoded := FromWireBytes(body);
      if decoded.Err? { return Reject(INVALID_PREDICATE); }
      var set' := decoded.value;
      var rules := Derive.Derive(set', cfg);
      if rules.Err? { return Reject(INVALID_PREDICATE); }
      if !supervisorUp { return Reject(INVALID_PREDICATE); }
      supervised := rules.value;
      introspection.RecordApply(set', now);
      if hasUpstream {
        lastForwarded := lastForwarded[set'.origin := body];
        if clientUp {
          outbox := outbox + [body];
        }
      }
      return AckOk;
    }

    // One round of the resync task: copy the map, then send in whatever order
    // the copy came out.
    method Resync(up: nat -> bool) returns (ghost order: seq<PubKey>)
      modifies this`outbox
      ensures Enumerates(order, lastForwarded.Keys)
      ensures State() == old(State()).(outbox := old(outbox) + Resent(lastForwarded, order, up))
    {
      order := [];
      var bodies := lastForwarded;
      var rest := bodies.Keys;
      var sent := 0;
      while rest != {}
        invariant rest <= bodies.Keys && sent == |order|
        invariant Enumerates(order, bodies.Keys - rest)
        invariant outbox == old(outbox) + Resent(bodies, order, up)
        decreases |rest|
      {
        var k :| k in rest;
        assert (order + [k])[..sent] == order;
        order := order + [k];
        if up(sent) {
          outbox := outbox + [bodies[k]];
        }
        sent := sent + 1;
        rest := rest - {k};
      }
      assert bodies.Keys - rest == bodies.Keys;
    }
  }
}
