// A whole chain whose nodes lose their state and whose sessions come and go: a
// terminal with its publisher, relays that resync on every new session, and
// what they show once the queues are empty. One terminal, so one origin.
module Restarts {
  import opened Prelude
  import opened Postcard
  import opened Predicates
  import opened Forwarding
  import Publisher

  // Relay 0 is the terminal's, relay i + 1 is relay i's upstream. A relay's
  // outbox is what waits or is on its way over link i; `up[i]` is whether that
  // link has a session, `session` whether the terminal's has. `pending` is
  // whether the publisher has yet to look at `rules`. `Restart` is a relay's,
  // `Reboot` the terminal's.
  datatype Chain = Chain(
    terminal: Publisher.State, rules: Option<Bytes>, pending: bool, session: bool, relays: seq<RelayState>,
    up: seq<bool>)

  function Fresh(relays: nat): Chain
    requires relays > 0
  {
    Chain(Publisher.IDLE, None, false, true, seq(relays, _ => INITIAL), seq(relays - 1, _ => true))
  }

  // What becomes of a push, if there is one: whether relay 0 handles it, and
  // what the terminal hears.
  datatype Outcome = Outcome(arrived: bool, answer: Publisher.Answer)

  datatype Action =
    | Change(body: Bytes)
    | Tell(outcome: Outcome)
    | Session(outcome: Outcome)
    | Hangup
    | Deliver(link: nat)
    | Down(link: nat)
    | Up(link: nat, lost: nat, order: seq<PubKey>)
    | Restart(relay: nat)
    | Reboot

  ghost predicate Enabled(p: Policy, origin: PubKey, c: Chain, a: Action) {
    && c.relays != [] && |c.up| == |c.relays| - 1
    && match a
       case Change(body) => p.ok(body) ==> p.origin(body) == origin
       case Tell(_) => c.pending && c.rules.Some?
       case Session(_) => true
       case Hangup => true
       case Deliver(i) => i < |c.up| && c.up[i] && c.relays[i].outbox != []
       case Down(i) => i < |c.up|
       case Up(i, lost, order) =>
         i < |c.up| && lost <= |c.relays[i].outbox| && Enumerates(order, c.relays[i].stored.Keys)
       case Restart(i) => i < |c.relays|
       case Reboot => true
  }

  // A relay that has handled an acceptable body; the top one has nowhere to
  // forward it.
  ghost function Taken(p: Policy, s: RelayState, top: bool, body: Bytes): RelayState {
    if top then s.(latest := Some(p.shown(body))) else Accept(p, s, body, true)
  }

  ghost function Receive(p: Policy, relays: seq<RelayState>, i: nat, body: Bytes): (r: seq<RelayState>)
    requires i < |relays|
    ensures |r| == |relays|
  {
    if p.ok(body) then relays[i := Taken(p, relays[i], i + 1 == |relays|, body)] else relays
  }

  // A relay that resyncs: what was in flight is lost, what waited is not.
  ghost function Resynced(s: RelayState, lost: nat, order: seq<PubKey>): RelayState
    requires lost <= |s.outbox| && Enumerates(order, s.stored.Keys)
  {
    s.(outbox := s.outbox[lost..] + Resent(s.stored, order, _ => true))
  }

  // The publisher takes an event.
  ghost function Publish(p: Policy, c: Chain, e: Publisher.Event, arrived: bool): (d: Chain)
    requires c.relays != []
    ensures |d.relays| == |c.relays| && d.up == c.up
  {
    var pushed := Publisher.Pushed(c.terminal, e);
    c.(terminal := Publisher.Step(c.terminal, e),
       relays := if pushed.Some? && arrived then Receive(p, c.relays, 0, pushed.value) else c.relays)
  }

  // What the publisher is told by an action, if anything.
  ghost function Event(c: Chain, a: Action): Option<Publisher.Event> {
    match a
    case Tell(o) => if c.rules.Some? then Some(Publisher.RulesChanged(c.rules.value, o.answer)) else None
    case Session(o) => if c.rules.Some? then Some(Publisher.NewSession(c.rules.value, o.answer)) else None
    case _ => None
  }

  ghost function Do(p: Policy, origin: PubKey, c: Chain, a: Action): (d: Chain)
    requires Enabled(p, origin, c, a)
    ensures |d.relays| == |c.relays| && |d.up| == |c.up|
  {
    match a
    case Change(body) => c.(rules := Some(body), pending := true)
    case Tell(o) => Publish(p, c, Event(c, a).value, o.arrived).(pending := false)
    case Session(o) =>
      (if c.rules.Some? then Publish(p, c, Event(c, a).value, o.arrived) else c).(session := true)
    case Hangup => c.(session := false)
    case Deliver(i) =>
      var s := c.relays[i];
      c.(relays := Receive(p, c.relays[i := s.(outbox := s.outbox[1..])], i + 1, s.outbox[0]))
    case Down(i) => c.(up := c.up[i := false])
    case Up(i, lost, order) =>
      c.(relays := c.relays[i := Resynced(c.relays[i], lost, order)], up := c.up[i := true])
    case Restart(i) =>
      c.(relays := c.relays[i := INITIAL], session := c.session && i != 0,
         up := seq(|c.up|, k requires 0 <= k < |c.up| => c.up[k] && k != i && k + 1 != i))
    case Reboot => c.(terminal := Publisher.IDLE, rules := None, pending := false, session := false)
  }

  ghost predicate LegalRun(p: Policy, origin: PubKey, relays: nat, run: seq<Action>)
    requires relays > 0
    decreases |run|, 0
  {
    run == []
    || (LegalRun(p, origin, relays, run[..|run| - 1])
        && Enabled(p, origin, After(p, origin, relays, run[..|run| - 1]), Last(run)))
  }

  ghost function After(p: Policy, origin: PubKey, relays: nat, run: seq<Action>): Chain
    requires relays > 0 && LegalRun(p, origin, relays, run)
    decreases |run|, 1
  {
    if run == [] then Fresh(relays) else Do(p, origin, After(p, origin, relays, run[..|run| - 1]), Last(run))
  }

  // ---- What every run keeps ----

  // A forwarding relay stores what it shows, and sends only acceptable bodies
  // of the one origin.
  ghost predicate NodeOk(p: Policy, origin: PubKey, s: RelayState) {
    && (forall k :: k in s.stored ==> k == origin)
    && (if origin !in s.stored then s.latest == None
        else Sendable(p, origin, s.stored[origin]) && s.latest == Some(p.shown(s.stored[origin])))
    && (forall b :: b in s.outbox ==> Sendable(p, origin, b))
  }

  ghost predicate Sendable(p: Policy, origin: PubKey, body: Bytes) { p.ok(body) && p.origin(body) == origin }

  // Over a session, what a relay shows is the last thing on its way, or has
  // already reached its upstream.
  ghost predicate LinkOk(origin: PubKey, lower: RelayState, upper: RelayState, up: bool) {
    up && origin in lower.stored ==>
      if lower.outbox == [] then upper.latest == lower.latest else Last(lower.outbox) == lower.stored[origin]
  }

  // One relay and its link, in place.
  ghost predicate PlaceOk(p: Policy, origin: PubKey, relays: seq<RelayState>, up: seq<bool>, k: nat)
    requires k < |up| == |relays| - 1
  {
    NodeOk(p, origin, relays[k]) && LinkOk(origin, relays[k], relays[k + 1], up[k])
  }

  ghost predicate Inv(p: Policy, origin: PubKey, relays: nat, c: Chain) {
    && |c.relays| == relays > 0 && |c.up| == relays - 1
    && (c.rules.Some? && p.ok(c.rules.value) ==> p.origin(c.rules.value) == origin)
    && (forall i :: 0 <= i < relays - 1 ==> PlaceOk(p, origin, c.relays, c.up, i))
  }

  lemma AcceptKeeps(p: Policy, origin: PubKey, s: RelayState, body: Bytes, upper: RelayState, up: bool)
    requires NodeOk(p, origin, s) && p.ok(body) && p.origin(body) == origin
    ensures NodeOk(p, origin, Accept(p, s, body, true))
    ensures LinkOk(origin, Accept(p, s, body, true), upper, up)
  {
  }

  // Handing over the first body keeps a link, whether it is taken or refused.
  lemma PopKeeps(p: Policy, origin: PubKey, s: RelayState, upper: RelayState, top: bool)
    requires NodeOk(p, origin, s) && LinkOk(origin, s, upper, true) && s.outbox != []
    ensures NodeOk(p, origin, s.(outbox := s.outbox[1..]))
    ensures LinkOk(origin, s.(outbox := s.outbox[1..]), Taken(p, upper, top, s.outbox[0]), true)
  {
    if s.outbox[1..] != [] { assert Last(s.outbox[1..]) == Last(s.outbox); }
  }

  lemma OnlyKey(origin: PubKey, keys: set<PubKey>, order: seq<PubKey>)
    requires (forall k :: k in keys ==> k == origin) && Enumerates(order, keys)
    ensures order == if origin in keys then [origin] else []
  {
    assert forall i :: 0 <= i < |order| ==> order[i] in order;
    SoleElement(order, origin);
  }

  lemma ResyncKeeps(
    p: Policy, origin: PubKey, s: RelayState, lost: nat, order: seq<PubKey>, upper: RelayState, up: bool)
    requires NodeOk(p, origin, s) && lost <= |s.outbox| && Enumerates(order, s.stored.Keys)
    ensures NodeOk(p, origin, Resynced(s, lost, order)) && LinkOk(origin, Resynced(s, lost, order), upper, up)
  {
    OnlyKey(origin, s.stored.Keys, order);
    if origin in s.stored {
      assert order[..0] == [];
      assert Resent(s.stored, order, _ => true) == [s.stored[origin]];
    }
  }

  lemma ReceiveKeepsPlace(p: Policy, origin: PubKey, c: Chain, body: Bytes, k: nat)
    requires k < |c.up| == |c.relays| - 1 && PlaceOk(p, origin, c.relays, c.up, k)
    requires p.ok(body) ==> p.origin(body) == origin
    ensures PlaceOk(p, origin, Receive(p, c.relays, 0, body), c.up, k)
  {
    if k == 0 && p.ok(body) { AcceptKeeps(p, origin, c.relays[0], body, c.relays[1], c.up[0]); }
  }

  lemma PublishKeeps(p: Policy, origin: PubKey, relays: nat, c: Chain, e: Publisher.Event, arrived: bool)
    requires Inv(p, origin, relays, c) && (p.ok(e.body) ==> p.origin(e.body) == origin)
    ensures Inv(p, origin, relays, Publish(p, c, e, arrived))
  {
    var d := Publish(p, c, e, arrived);
    forall k | 0 <= k < relays - 1
      ensures PlaceOk(p, origin, d.relays, d.up, k)
    {
      ReceiveKeepsPlace(p, origin, c, e.body, k);
    }
  }

  lemma DeliverKeepsOwn(p: Policy, origin: PubKey, c: Chain, i: nat)
    requires Enabled(p, origin, c, Deliver(i)) && PlaceOk(p, origin, c.relays, c.up, i)
    ensures var d := Do(p, origin, c, Deliver(i)); PlaceOk(p, origin, d.relays, d.up, i)
  {
    var s := c.relays[i];
    assert s.outbox[0] in s.outbox;
    PopKeeps(p, origin, s, c.relays[i + 1], i + 2 == |c.relays|);
  }

  lemma DeliverKeepsNext(p: Policy, origin: PubKey, c: Chain, i: nat)
    requires Enabled(p, origin, c, Deliver(i)) && i + 1 < |c.up|
    requires PlaceOk(p, origin, c.relays, c.up, i) && PlaceOk(p, origin, c.relays, c.up, i + 1)
    ensures var d := Do(p, origin, c, Deliver(i)); PlaceOk(p, origin, d.relays, d.up, i + 1)
  {
    var body := c.relays[i].outbox[0];
    assert body in c.relays[i].outbox;
    AcceptKeeps(p, origin, c.relays[i + 1], body, c.relays[i + 2], c.up[i + 1]);
  }

  lemma DeliverKeepsPlace(p: Policy, origin: PubKey, c: Chain, i: nat, k: nat)
    requires Enabled(p, origin, c, Deliver(i)) && k < |c.up|
    requires PlaceOk(p, origin, c.relays, c.up, i) && PlaceOk(p, origin, c.relays, c.up, k)
    ensures var d := Do(p, origin, c, Deliver(i)); PlaceOk(p, origin, d.relays, d.up, k)
  {
    if k == i {
      DeliverKeepsOwn(p, origin, c, i);
    } else if k == i + 1 {
      DeliverKeepsNext(p, origin, c, i);
    }
  }

  lemma DeliverKeeps(p: Policy, origin: PubKey, relays: nat, c: Chain, i: nat)
    requires Inv(p, origin, relays, c) && Enabled(p, origin, c, Deliver(i))
    ensures Inv(p, origin, relays, Do(p, origin, c, Deliver(i)))
  {
    var d := Do(p, origin, c, Deliver(i));
    forall k | 0 <= k < relays - 1
      ensures PlaceOk(p, origin, d.relays, d.up, k)
    {
      DeliverKeepsPlace(p, origin, c, i, k);
    }
  }

  lemma UpKeeps(p: Policy, origin: PubKey, relays: nat, c: Chain, i: nat, lost: nat, order: seq<PubKey>)
    requires Inv(p, origin, relays, c) && Enabled(p, origin, c, Up(i, lost, order))
    ensures Inv(p, origin, relays, Do(p, origin, c, Up(i, lost, order)))
  {
    var d := Do(p, origin, c, Up(i, lost, order));
    forall k | 0 <= k < relays - 1
      ensures PlaceOk(p, origin, d.relays, d.up, k)
    {
      assert PlaceOk(p, origin, c.relays, c.up, k) && PlaceOk(p, origin, c.relays, c.up, i);
      ResyncKeeps(p, origin, c.relays[i], lost, order, c.relays[i + 1], true);
    }
  }

  lemma RestartKeeps(p: Policy, origin: PubKey, relays: nat, c: Chain, i: nat)
    requires Inv(p, origin, relays, c) && Enabled(p, origin, c, Restart(i))
    ensures Inv(p, origin, relays, Do(p, origin, c, Restart(i)))
  {
    var d := Do(p, origin, c, Restart(i));
    forall k | 0 <= k < relays - 1
      ensures PlaceOk(p, origin, d.relays, d.up, k)
    {
      assert PlaceOk(p, origin, c.relays, c.up, k);
    }
  }

  lemma DownKeeps(p: Policy, origin: PubKey, relays: nat, c: Chain, i: nat)
    requires Inv(p, origin, relays, c) && Enabled(p, origin, c, Down(i))
    ensures Inv(p, origin, relays, Do(p, origin, c, Down(i)))
  {
    var d := Do(p, origin, c, Down(i));
    forall k | 0 <= k < relays - 1
      ensures PlaceOk(p, origin, d.relays, d.up, k)
    {
      assert PlaceOk(p, origin, c.relays, c.up, k);
    }
  }

  lemma StepKeeps(p: Policy, origin: PubKey, relays: nat, c: Chain, a: Action)
    requires Inv(p, origin, relays, c) && Enabled(p, origin, c, a)
    ensures Inv(p, origin, relays, Do(p, origin, c, a))
  {
    match a
    case Change(_) =>
    case Tell(o) => PublishKeeps(p, origin, relays, c, Event(c, a).value, o.arrived);
    case Session(o) => if c.rules.Some? { PublishKeeps(p, origin, relays, c, Event(c, a).value, o.arrived); }
    case Hangup =>
    case Deliver(i) => DeliverKeeps(p, origin, relays, c, i);
    case Down(i) => DownKeeps(p, origin, relays, c, i);
    case Up(i, lost, order) => UpKeeps(p, origin, relays, c, i, lost, order);
    case Restart(i) => RestartKeeps(p, origin, relays, c, i);
    case Reboot =>
  }

  lemma {:induction false} InvHolds(p: Policy, origin: PubKey, relays: nat, run: seq<Action>)
    requires relays > 0 && LegalRun(p, origin, relays, run)
    ensures Inv(p, origin, relays, After(p, origin, relays, run))
    decreases |run|
  {
    if run != [] {
      InvHolds(p, origin, relays, run[..|run| - 1]);
      StepKeeps(p, origin, relays, After(p, origin, relays, run[..|run| - 1]), Last(run));
    }
  }

  // ---- Once everything is delivered ----

  // Every link has a session and nothing is on its way.
  ghost predicate Drained(c: Chain) {
    |c.up| == |c.relays| - 1 && forall i :: 0 <= i < |c.up| ==> c.up[i] && c.relays[i].outbox == []
  }

  // Whatever restarted, hung up and was lost on the way: when the first relay
  // shows a set, every relay shows it.
  lemma {:induction false} DrainedRelaysAgree(p: Policy, origin: PubKey, relays: nat, run: seq<Action>, i: nat)
    requires relays > 0 && LegalRun(p, origin, relays, run) && Drained(After(p, origin, relays, run)) && i < relays
    ensures var rs := After(p, origin, relays, run).relays;
            |rs| == relays && (rs[0].latest.Some? ==> rs[i].latest == rs[0].latest)
    decreases i
  {
    InvHolds(p, origin, relays, run);
    if i > 0 {
      DrainedRelaysAgree(p, origin, relays, run, i - 1);
      var c := After(p, origin, relays, run);
      assert PlaceOk(p, origin, c.relays, c.up, i - 1);
    }
  }

  // ---- What the first relay shows ----

  // The body that an action brings to the first relay, if it is acceptable.
  ghost function Brings(p: Policy, c: Chain, a: Action): Option<Bytes> {
    match Event(c, a)
    case None => None
    case Some(e) =>
      if Publisher.Pushed(c.terminal, e).Some? && (a.Tell? || a.Session?) && a.outcome.arrived && p.ok(e.body)
      then Some(e.body) else None
  }

  // The acceptable pushes that reached the first relay since it last restarted.
  ghost function Arrived(p: Policy, origin: PubKey, relays: nat, run: seq<Action>): seq<Bytes>
    requires relays > 0 && LegalRun(p, origin, relays, run)
  {
    if run == [] then []
    else
      var before, a := run[..|run| - 1], Last(run);
      var new' := Brings(p, After(p, origin, relays, before), a);
      if a == Restart(0) then []
      else Arrived(p, origin, relays, before) + if new'.Some? then [new'.value] else []
  }

  lemma FirstRelayStep(p: Policy, origin: PubKey, c: Chain, a: Action)
    requires Enabled(p, origin, c, a)
    ensures Do(p, origin, c, a).relays[0].latest
            == if a == Restart(0) then None
               else if Brings(p, c, a).Some? then Some(p.shown(Brings(p, c, a).value)) else c.relays[0].latest
  {
  }

  lemma {:induction false} FirstRelayShowsArrived(p: Policy, origin: PubKey, relays: nat, run: seq<Action>)
    requires relays > 0 && LegalRun(p, origin, relays, run)
    ensures var c, arrived := After(p, origin, relays, run), Arrived(p, origin, relays, run);
            && |c.relays| == relays
            && c.relays[0].latest == if arrived == [] then None else Some(p.shown(Last(arrived)))
    decreases |run|
  {
    InvHolds(p, origin, relays, run);
    if run != [] {
      var before := run[..|run| - 1];
      FirstRelayShowsArrived(p, origin, relays, before);
      FirstRelayStep(p, origin, After(p, origin, relays, before), Last(run));
    }
  }

  ghost predicate AllShow(c: Chain, set': PredicateSet) {
    forall i :: 0 <= i < |c.relays| ==> c.relays[i].latest == Some(set')
  }

  // A drained chain shows the terminal's rules throughout exactly when the last
  // acceptable push that arrived since the first relay's last restart was of them.
  lemma DrainedShowsRulesIff(p: Policy, origin: PubKey, relays: nat, run: seq<Action>)
    requires relays > 0 && LegalRun(p, origin, relays, run)
    requires Drained(After(p, origin, relays, run)) && After(p, origin, relays, run).rules.Some?
    ensures var c, arrived := After(p, origin, relays, run), Arrived(p, origin, relays, run);
            AllShow(c, p.shown(c.rules.value))
            <==> arrived != [] && p.shown(Last(arrived)) == p.shown(c.rules.value)
  {
    var c := After(p, origin, relays, run);
    FirstRelayShowsArrived(p, origin, relays, run);
    forall i | 0 <= i < relays
      ensures c.relays[0].latest.Some? ==> c.relays[i].latest == c.relays[0].latest
    {
      DrainedRelaysAgree(p, origin, relays, run, i);
    }
  }

  // ---- A network that answers ----

  // No relay accepts what the publisher would not send.
  ghost predicate Capped(p: Policy) { forall b :: p.ok(b) ==> Publisher.Fits(b) }

  // What is pushed reaches the first relay, and the terminal hears its verdict.
  ghost predicate CalmStep(p: Policy, c: Chain, a: Action) {
    match Event(c, a)
    case None => true
    case Some(e) =>
      Publisher.Pushed(c.terminal, e).Some? && (a.Tell? || a.Session?)
      ==> a.outcome.arrived && (a.outcome.answer.Accepted? <==> p.ok(e.body))
  }

  ghost predicate Calm(p: Policy, origin: PubKey, relays: nat, run: seq<Action>)
    requires relays > 0 && LegalRun(p, origin, relays, run)
  {
    run == []
    || (var before := run[..|run| - 1];
        Calm(p, origin, relays, before) && CalmStep(p, After(p, origin, relays, before), Last(run)))
  }

  // What the publisher remembers is shown while there is a session, and is
  // the rules if they are acceptable and looked at.
  ghost predicate TerminalOk(p: Policy, c: Chain) {
    && c.relays != [] && (c.terminal.remembered.Some? ==> p.ok(c.terminal.remembered.value) && c.rules.Some?)
    && (c.session && c.terminal.remembered.Some?
        ==> c.relays[0].latest == Some(p.shown(c.terminal.remembered.value)))
    && (!c.pending && c.rules.Some? && p.ok(c.rules.value) ==> c.terminal.remembered == c.rules)
  }

  lemma CalmStepKeeps(p: Policy, origin: PubKey, c: Chain, a: Action)
    requires Capped(p) && Enabled(p, origin, c, a) && TerminalOk(p, c) && CalmStep(p, c, a)
    ensures TerminalOk(p, Do(p, origin, c, a))
  {
    FirstRelayStep(p, origin, c, a);
  }

  lemma {:induction false} CalmTerminal(p: Policy, origin: PubKey, relays: nat, run: seq<Action>)
    requires relays > 0 && Capped(p) && LegalRun(p, origin, relays, run) && Calm(p, origin, relays, run)
    ensures TerminalOk(p, After(p, origin, relays, run))
    decreases |run|
  {
    if run != [] {
      var before := run[..|run| - 1];
      CalmTerminal(p, origin, relays, before);
      CalmStepKeeps(p, origin, After(p, origin, relays, before), Last(run));
    }
  }

  // Convergence: if what is pushed arrives and is answered, then whatever
  // restarted in between, a drained chain whose terminal has a session shows
  // the terminal's rules at every relay, as soon as they are acceptable.
  lemma CalmChainShowsRules(p: Policy, origin: PubKey, relays: nat, run: seq<Action>)
    requires relays > 0 && Capped(p) && LegalRun(p, origin, relays, run) && Calm(p, origin, relays, run)
    requires var c := After(p, origin, relays, run);
             Drained(c) && c.session && !c.pending && c.rules.Some? && p.ok(c.rules.value)
    ensures var c := After(p, origin, relays, run); AllShow(c, p.shown(c.rules.value))
  {
    var c := After(p, origin, relays, run);
    InvHolds(p, origin, relays, run);
    CalmTerminal(p, origin, relays, run);
    forall i | 0 <= i < relays
      ensures c.relays[i].latest == c.relays[0].latest
    {
      DrainedRelaysAgree(p, origin, relays, run, i);
    }
  }

  // ---- A network that does not ----

  // What the publisher went through since the terminal last started.
  ghost function Events(p: Policy, origin: PubKey, relays: nat, run: seq<Action>): seq<Publisher.Event>
    requires relays > 0 && LegalRun(p, origin, relays, run)
  {
    if run == [] then []
    else
      var before := run[..|run| - 1];
      var e := Event(After(p, origin, relays, before), Last(run));
      if Last(run).Reboot? then []
      else Events(p, origin, relays, before) + if e.Some? then [e.value] else []
  }

  lemma {:induction false} TerminalFollowsEvents(p: Policy, origin: PubKey, relays: nat, run: seq<Action>)
    requires relays > 0 && LegalRun(p, origin, relays, run)
    ensures After(p, origin, relays, run).terminal == Publisher.After(Events(p, origin, relays, run))
    decreases |run|
  {
    if run != [] {
      var before := run[..|run| - 1];
      var events, e := Events(p, origin, relays, before), Event(After(p, origin, relays, before), Last(run));
      TerminalFollowsEvents(p, origin, relays, before);
      if e.Some? {
        assert (events + [e.value])[..|events|] == events;
      } else if !Last(run).Reboot? {
        assert Events(p, origin, relays, run) == events;
      }
    }
  }

  // A run that goes on by one action.
  lemma Extend(p: Policy, origin: PubKey, relays: nat, run: seq<Action>, a: Action)
    requires relays > 0 && LegalRun(p, origin, relays, run) && Enabled(p, origin, After(p, origin, relays, run), a)
    ensures LegalRun(p, origin, relays, run + [a])
    ensures After(p, origin, relays, run + [a]) == Do(p, origin, After(p, origin, relays, run), a)
  {
    assert (run + [a])[..|run|] == run;
  }

  // A relay that came back empty learns the rules from the terminal's new
  // session exactly when they are acceptable and the publisher's last news was
  // good: some change of the rules accepted, and every new session since.
  lemma SessionRepairsIff(p: Policy, origin: PubKey, relays: nat, run: seq<Action>, answer: Publisher.Answer)
    requires relays > 0 && Capped(p) && LegalRun(p, origin, relays, run)
    requires var c := After(p, origin, relays, run); c.rules.Some? && c.relays != [] && c.relays[0].latest.None?
    ensures LegalRun(p, origin, relays, run + [Session(Outcome(true, answer))])
    ensures var c, d := After(p, origin, relays, run), After(p, origin, relays, run + [Session(Outcome(true, answer))]);
            d.relays != []
            && (d.relays[0].latest == Some(p.shown(c.rules.value))
                <==> p.ok(c.rules.value) && Publisher.Confirmed(Events(p, origin, relays, run)))
  {
    var c := After(p, origin, relays, run);
    InvHolds(p, origin, relays, run);
    Extend(p, origin, relays, run, Session(Outcome(true, answer)));
    FirstRelayStep(p, origin, c, Session(Outcome(true, answer)));
    TerminalFollowsEvents(p, origin, relays, run);
    Publisher.SessionPushesIff(Events(p, origin, relays, run), c.rules.value, answer);
  }

  // The two relays of a chain show an accepted set; the first restarts, and
  // the session in which it would be told again breaks before an answer. From
  // then on new sessions push nothing: the chain is up and drained, the rules
  // are acceptable, and the first relay shows nothing.
  lemma InterruptedResync(p: Policy, origin: PubKey, body: Bytes, outcome: Outcome) returns (run: seq<Action>)
    requires p.ok(body) && p.origin(body) == origin && Publisher.Fits(body)
    ensures LegalRun(p, origin, 2, run)
    ensures var c := After(p, origin, 2, run);
            && Drained(c) && c.session && !c.pending && c.rules == Some(body)
            && |c.relays| == 2 && c.relays[0].latest.None? && c.relays[1].latest == Some(p.shown(body))
  {
    run := AcceptedAndForwarded(p, origin, body);
    Extend(p, origin, 2, run, Restart(0));
    run := run + [Restart(0)];
    Extend(p, origin, 2, run, Session(Outcome(false, Publisher.Unanswered)));
    run := run + [Session(Outcome(false, Publisher.Unanswered))];
    Extend(p, origin, 2, run, Hangup);
    run := run + [Hangup];
    Extend(p, origin, 2, run, Session(outcome));
    run := run + [Session(outcome)];
    Extend(p, origin, 2, run, Up(0, 0, []));
    run := run + [Up(0, 0, [])];
  }

  lemma AcceptedAndForwarded(p: Policy, origin: PubKey, body: Bytes) returns (run: seq<Action>)
    requires p.ok(body) && p.origin(body) == origin && Publisher.Fits(body)
    ensures LegalRun(p, origin, 2, run)
    ensures var c := After(p, origin, 2, run);
            && c.terminal == Publisher.State(Some(body), Some(body)) && c.rules == Some(body) && !c.pending
            && c.up == [true] && |c.relays| == 2 && c.relays[1].latest == Some(p.shown(body))
  {
    run := [];
    Extend(p, origin, 2, run, Change(body));
    run := run + [Change(body)];
    Extend(p, origin, 2, run, Tell(Outcome(true, Publisher.Accepted)));
    run := run + [Tell(Outcome(true, Publisher.Accepted))];
    Extend(p, origin, 2, run, Deliver(0));
    run := run + [Deliver(0)];
  }

  // Rules that are changed and changed back: the second set arrives but its
  // acknowledgement does not, so the first one still counts as sent and is not
  // pushed again.
  lemma RevertIsNotPushed(p: Policy, origin: PubKey, first: Bytes, second: Bytes, outcome: Outcome)
    returns (run: seq<Action>)
    requires p.ok(first) && p.ok(second) && p.origin(first) == p.origin(second) == origin
    requires Publisher.Fits(first) && Publisher.Fits(second) && first != second
    ensures LegalRun(p, origin, 1, run)
    ensures var c := After(p, origin, 1, run);
            && Drained(c) && c.session && !c.pending && c.rules == Some(first)
            && |c.relays| == 1 && c.relays[0].latest == Some(p.shown(second))
  {
    run := [];
    Extend(p, origin, 1, run, Change(first));
    run := run + [Change(first)];
    Extend(p, origin, 1, run, Tell(Outcome(true, Publisher.Accepted)));
    run := run + [Tell(Outcome(true, Publisher.Accepted))];
    Extend(p, origin, 1, run, Change(second));
    run := run + [Change(second)];
    Extend(p, origin, 1, run, Tell(Outcome(true, Publisher.Unanswered)));
    run := run + [Tell(Outcome(true, Publisher.Unanswered))];
    Extend(p, origin, 1, run, Change(first));
    run := run + [Change(first)];
    Extend(p, origin, 1, run, Tell(outcome));
    run := run + [Tell(outcome)];
  }
}
