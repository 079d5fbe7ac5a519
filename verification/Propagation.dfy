// A whole chain: a terminal that publishes, relays that accept and forward in
// order, and what `chain diff` says once the queues are empty.
module Propagation {
  import opened Prelude
  import opened Rules
  import opened Predicates
  import opened Introspection
  import opened Forwarding
  import opened HopDiff

  // Node 0 is the terminal, node i the i-th relay. `queues[i]` holds what is
  // on its way from node i to node i + 1; `slots[i]` is what node i shows.
  // `received[i]` records everything node i + 1 has processed, `heard` what the
  // terminal was told its relay had accepted.
  datatype Chain = Chain(
    published: seq<Bytes>, queues: seq<seq<Bytes>>, received: seq<seq<Bytes>>, slots: seq<Option<PredicateSet>>,
    heard: seq<Bytes>)

  // A terminal and `relays` relays, nothing published yet.
  function Fresh(relays: nat): Chain {
    Chain([], seq(relays, _ => []), seq(relays, _ => []), seq(relays + 1, _ => None), [])
  }

  // `told` is whether the terminal hears Ok for a body it published; on other
  // links it plays no part.
  datatype Action = Publish(body: Bytes) | Deliver(link: nat, told: bool)

  ghost predicate Enabled(c: Chain, a: Action) {
    match a
    case Publish(_) => c.queues != []
    case Deliver(i, _) =>
      i < |c.queues| && c.queues[i] != [] && |c.received| == |c.queues| && |c.slots| == |c.queues| + 1
  }

  // A relay that accepts shows the set and passes the body on; the terminal
  // shows a set once it is told that its relay has accepted it.
  ghost function Do(p: Policy, c: Chain, a: Action): (d: Chain)
    requires Enabled(c, a)
    ensures |d.queues| == |c.queues| && |d.received| == |c.received| && |d.slots| == |c.slots|
  {
    match a
    case Publish(body) => c.(published := c.published + [body], queues := c.queues[0 := c.queues[0] + [body]])
    case Deliver(i, told) =>
      var body := c.queues[i][0];
      var popped := c.queues[i := c.queues[i][1..]];
      var noted := c.received[i := c.received[i] + [body]];
      var own := if i == 0 && told then c.slots[0 := Some(p.shown(body))] else c.slots;
      var heard := if i == 0 && told then c.heard + [body] else c.heard;
      if !p.ok(body) then Chain(c.published, popped, noted, own, heard)
      else
        Chain(
          c.published,
          if i + 1 < |popped| then popped[i + 1 := popped[i + 1] + [body]] else popped,
          noted,
          own[i + 1 := Some(p.shown(body))],
          heard)
  }

  ghost predicate LegalRun(p: Policy, relays: nat, run: seq<Action>)
    decreases |run|, 0
  {
    run == [] || (LegalRun(p, relays, run[..|run| - 1]) && Enabled(After(p, relays, run[..|run| - 1]), Last(run)))
  }

  ghost function After(p: Policy, relays: nat, run: seq<Action>): Chain
    requires LegalRun(p, relays, run)
    decreases |run|, 1
  {
    if run == [] then Fresh(relays) else Do(p, After(p, relays, run[..|run| - 1]), Last(run))
  }

  // The acceptable bodies, in order.
  ghost function Good(p: Policy, bodies: seq<Bytes>): seq<Bytes> {
    if bodies == [] then []
    else Good(p, bodies[..|bodies| - 1]) + if p.ok(Last(bodies)) then [Last(bodies)] else []
  }

  // What a node that processed `bodies` shows.
  ghost function Shown(p: Policy, bodies: seq<Bytes>): Option<PredicateSet> {
    if Good(p, bodies) == [] then None else Some(p.shown(Last(Good(p, bodies))))
  }

  // What enters link i.
  ghost function Fed(p: Policy, c: Chain, i: nat): seq<Bytes>
    requires i == 0 || i <= |c.received|
  {
    if i == 0 then c.published else Good(p, c.received[i - 1])
  }

  // Link i loses, alters and reorders nothing, and the node at its upper end
  // shows the last acceptable body it has processed.
  ghost predicate LinkOk(p: Policy, c: Chain, i: nat)
    requires i < |c.queues| == |c.received| && |c.slots| == |c.queues| + 1
  {
    c.received[i] + c.queues[i] == Fed(p, c, i) && c.slots[i + 1] == Shown(p, c.received[i])
  }

  ghost predicate Inv(p: Policy, relays: nat, c: Chain) {
    |c.queues| == |c.received| == relays && |c.slots| == relays + 1
    && (forall i :: 0 <= i < relays ==> LinkOk(p, c, i))
    && c.slots[0] == if c.heard == [] then None else Some(p.shown(Last(c.heard)))
  }

  lemma GoodAppend(p: Policy, bodies: seq<Bytes>, body: Bytes)
    ensures Good(p, bodies + [body]) == Good(p, bodies) + if p.ok(body) then [body] else []
    ensures Shown(p, bodies + [body]) == if p.ok(body) then Some(p.shown(body)) else Shown(p, bodies)
  {
    assert (bodies + [body])[..|bodies|] == bodies;
  }

  lemma DeliverKeepsLink(p: Policy, c: Chain, i: nat, told: bool, k: nat)
    requires Enabled(c, Deliver(i, told)) && k < |c.queues| && LinkOk(p, c, k)
    ensures LinkOk(p, Do(p, c, Deliver(i, told)), k)
  {
    if k == i {
      DeliverKeepsOwnLink(p, c, i, told);
    } else if k == i + 1 {
      DeliverKeepsNextLink(p, c, i, told);
    }
  }

  lemma DeliverKeepsOwnLink(p: Policy, c: Chain, i: nat, told: bool)
    requires Enabled(c, Deliver(i, told)) && LinkOk(p, c, i)
    ensures LinkOk(p, Do(p, c, Deliver(i, told)), i)
  {
    var body, rest := c.queues[i][0], c.queues[i][1..];
    GoodAppend(p, c.received[i], body);
    assert c.received[i] + [body] + rest == c.received[i] + c.queues[i];
  }

  lemma DeliverKeepsNextLink(p: Policy, c: Chain, i: nat, told: bool)
    requires Enabled(c, Deliver(i, told)) && i + 1 < |c.queues| && LinkOk(p, c, i + 1)
    ensures LinkOk(p, Do(p, c, Deliver(i, told)), i + 1)
  {
    var k, body := i + 1, c.queues[i][0];
    GoodAppend(p, c.received[i], body);
    assert c.received[k] + (c.queues[k] + [body]) == (c.received[k] + c.queues[k]) + [body];
    assert Fed(p, c, k) + [] == Fed(p, c, k);
  }

  lemma DeliverKeepsInv(p: Policy, relays: nat, c: Chain, i: nat, told: bool)
    requires Inv(p, relays, c) && Enabled(c, Deliver(i, told))
    ensures Inv(p, relays, Do(p, c, Deliver(i, told)))
  {
    forall k | 0 <= k < relays
      ensures LinkOk(p, Do(p, c, Deliver(i, told)), k)
    {
      DeliverKeepsLink(p, c, i, told, k);
    }
  }

  lemma PublishKeepsInv(p: Policy, relays: nat, c: Chain, body: Bytes)
    requires Inv(p, relays, c) && Enabled(c, Publish(body))
    ensures Inv(p, relays, Do(p, c, Publish(body)))
  {
    forall k | 0 <= k < relays
      ensures LinkOk(p, Do(p, c, Publish(body)), k)
    {
      assert LinkOk(p, c, k);
    }
  }

  lemma {:induction false} InvHolds(p: Policy, relays: nat, run: seq<Action>)
    requires LegalRun(p, relays, run)
    ensures Inv(p, relays, After(p, relays, run))
    decreases |run|
  {
    if run != [] {
      var before, a := run[..|run| - 1], Last(run);
      InvHolds(p, relays, before);
      match a
      case Publish(body) => PublishKeepsInv(p, relays, After(p, relays, before), body);
      case Deliver(i, told) => DeliverKeepsInv(p, relays, After(p, relays, before), i, told);
    }
  }

  lemma {:induction false} GoodIsIdempotent(p: Policy, bodies: seq<Bytes>)
    ensures Good(p, Good(p, bodies)) == Good(p, bodies)
    decreases |bodies|
  {
    if bodies != [] {
      GoodIsIdempotent(p, bodies[..|bodies| - 1]);
      if p.ok(Last(bodies)) {
        GoodAppend(p, Good(p, bodies[..|bodies| - 1]), Last(bodies));
      } else {
        assert Good(p, bodies) == Good(p, bodies[..|bodies| - 1]);
      }
    }
  }

  ghost predicate Drained(c: Chain) { forall i :: 0 <= i < |c.queues| ==> c.queues[i] == [] }

  lemma {:induction false} ReceivedWhenDrained(p: Policy, relays: nat, c: Chain, i: nat)
    requires Inv(p, relays, c) && Drained(c) && i < relays
    ensures Good(p, c.received[i]) == Good(p, c.published)
  {
    assert LinkOk(p, c, i);
    assert c.received[i] == Fed(p, c, i);
    if i > 0 {
      ReceivedWhenDrained(p, relays, c, i - 1);
      GoodIsIdempotent(p, c.received[i - 1]);
    }
  }

  // The terminal hears Ok for exactly the bodies its relay accepts.
  ghost predicate HearsTruly(p: Policy, relays: nat, run: seq<Action>)
    requires LegalRun(p, relays, run)
  {
    run == []
    || (var before, a := run[..|run| - 1], Last(run);
        && HearsTruly(p, relays, before)
        && (a.Deliver? && a.link == 0 ==> (a.told <==> p.ok(After(p, relays, before).queues[0][0]))))
  }

  lemma {:induction false} HeardIsGood(p: Policy, relays: nat, run: seq<Action>)
    requires relays > 0 && LegalRun(p, relays, run) && HearsTruly(p, relays, run)
    ensures |After(p, relays, run).received| == relays
    ensures After(p, relays, run).heard == Good(p, After(p, relays, run).received[0])
    decreases |run|
  {
    InvHolds(p, relays, run);
    if run != [] {
      var before, a := run[..|run| - 1], Last(run);
      var c := After(p, relays, before);
      HeardIsGood(p, relays, before);
      InvHolds(p, relays, before);
      if a.Deliver? && a.link == 0 { GoodAppend(p, c.received[0], c.queues[0][0]); }
    }
  }

  // Quiescence: with empty queues every relay shows the last acceptable set
  // that was published, however the deliveries were interleaved and whatever
  // the terminal was told; so does the terminal if it was told the truth.
  lemma DrainedChainAgrees(p: Policy, relays: nat, run: seq<Action>, i: nat)
    requires relays > 0 && LegalRun(p, relays, run) && Drained(After(p, relays, run)) && i <= relays
    requires i > 0 || HearsTruly(p, relays, run)
    ensures i < |After(p, relays, run).slots|
    ensures After(p, relays, run).slots[i] == Shown(p, After(p, relays, run).published)
  {
    var c := After(p, relays, run);
    InvHolds(p, relays, run);
    var k := if i == 0 then 0 else i - 1;
    assert LinkOk(p, c, k);
    ReceivedWhenDrained(p, relays, c, k);
    if i == 0 { HeardIsGood(p, relays, run); }
  }

  // In general the terminal agrees with its drained chain exactly when the
  // last body it was told of and the last acceptable one are the same set.
  lemma TerminalAgreesIff(p: Policy, relays: nat, run: seq<Action>)
    requires relays > 0 && LegalRun(p, relays, run) && Drained(After(p, relays, run))
    ensures var c := After(p, relays, run);
            && |c.slots| == relays + 1
            && (c.slots[0] == c.slots[1] <==>
                if c.heard == [] then Good(p, c.published) == []
                else Good(p, c.published) != [] && p.shown(Last(c.heard)) == p.shown(Last(Good(p, c.published))))
  {
    InvHolds(p, relays, run);
    DrainedChainAgrees(p, relays, run, 1);
  }

  // What each node's snapshot says, whatever its identity, clock and rules.
  datatype Node = Node(identity: Identity, lastApplyUnix: int, rules: seq<Rule>)

  function Views(c: Chain, nodes: seq<Node>): seq<View>
    requires |nodes| == |c.slots|
  {
    seq(|nodes|, i requires 0 <= i < |nodes| =>
      SnapshotOf(nodes[i].identity, c.slots[i], nodes[i].lastApplyUnix, nodes[i].rules))
  }

  // Then `chain diff` over the nodes' snapshots flags no boundary between
  // relays, nor the one above the terminal if it was told the truth.
  lemma DrainedChainHasNoDrift(p: Policy, relays: nat, run: seq<Action>, nodes: seq<Node>, i: nat)
    requires relays > 0 && LegalRun(p, relays, run) && Drained(After(p, relays, run))
    requires |nodes| == |After(p, relays, run).slots| && 0 < i < |nodes|
    requires i > 1 || HearsTruly(p, relays, run)
    ensures !DriftAt(Views(After(p, relays, run), nodes), i)
  {
    InvHolds(p, relays, run);
    DrainedChainAgrees(p, relays, run, i - 1);
    DrainedChainAgrees(p, relays, run, i);
  }

  // A run that goes on by one action.
  lemma Extend(p: Policy, relays: nat, run: seq<Action>, a: Action)
    requires LegalRun(p, relays, run) && Enabled(After(p, relays, run), a)
    ensures LegalRun(p, relays, run + [a]) && After(p, relays, run + [a]) == Do(p, After(p, relays, run), a)
  {
    assert (run + [a])[..|run|] == run;
  }
}
