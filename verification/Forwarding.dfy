// Predicate forwarding by one relay with an upstream, over every run. What the
// relay accepts and what a body means is a parameter, the relay's policy.
module Forwarding {
  import opened Prelude
  import opened Indexing
  import opened Postcard
  import opened Predicates

  // `ok` decides acceptance, `shown` is the decoded set.
  datatype Policy = Policy(ok: Bytes -> bool, shown: Bytes -> PredicateSet) {
    const origin: Bytes -> PubKey := (b: Bytes) => shown(b).origin
  }

  // What the predicate path reads and writes. `outbox` is everything handed
  // to the chain client, oldest first.
  datatype RelayState = RelayState(latest: Option<PredicateSet>, stored: map<PubKey, Bytes>, outbox: seq<Bytes>)

  const INITIAL := RelayState(None, map[], [])

  // The effect of an accepted update.
  function Accept(p: Policy, s: RelayState, body: Bytes, clientUp: bool): RelayState {
    RelayState(Some(p.shown(body)), s.stored[p.origin(body) := body], if clientUp then s.outbox + [body] else s.outbox)
  }

  // The bodies a resync hands over: `order` is the map's iteration order and
  // `up(i)` whether the client takes the i-th one.
  function Resent(stored: map<PubKey, Bytes>, order: seq<PubKey>, up: nat -> bool): seq<Bytes>
    requires forall k :: k in order ==> k in stored
  {
    if order == [] then []
    else
      var n := |order| - 1;
      Resent(stored, order[..n], up) + if up(n) then [stored[order[n]]] else []
  }

  ghost predicate Enumerates(order: seq<PubKey>, keys: set<PubKey>) {
    (forall k :: k in order <==> k in keys) && (forall i, j :: 0 <= i < j < |order| ==> order[i] != order[j])
  }

  // ---- Every run of a relay with an upstream ----

  datatype Event =
    | Update(body: Bytes, supervisorUp: bool, clientUp: bool)
    | NewSession(order: seq<PubKey>, up: nat -> bool)

  ghost predicate Legal(s: RelayState, e: Event) {
    e.NewSession? ==> Enumerates(e.order, s.stored.Keys)
  }

  ghost function Step(p: Policy, s: RelayState, e: Event): RelayState
    requires Legal(s, e)
  {
    match e
    case Update(body, supervisorUp, clientUp) =>
      if p.ok(body) && supervisorUp then Accept(p, s, body, clientUp) else s
    case NewSession(order, up) => s.(outbox := s.outbox + Resent(s.stored, order, up))
  }

  ghost predicate LegalRun(p: Policy, run: seq<Event>)
    decreases |run|, 0
  {
    run == [] || (LegalRun(p, run[..|run| - 1]) && Legal(After(p, run[..|run| - 1]), Last(run)))
  }

  ghost function After(p: Policy, run: seq<Event>): RelayState
    requires LegalRun(p, run)
    decreases |run|, 1
  {
    if run == [] then INITIAL else Step(p, After(p, run[..|run| - 1]), Last(run))
  }

  // The bodies accepted in a run, oldest first.
  ghost function AcceptedIn(p: Policy, run: seq<Event>): seq<Bytes> {
    if run == [] then []
    else
      var e := Last(run);
      AcceptedIn(p, run[..|run| - 1]) + if e.Update? && p.ok(e.body) && e.supervisorUp then [e.body] else []
  }

  lemma {:induction false} AcceptedAreAcceptable(p: Policy, run: seq<Event>, body: Bytes)
    requires body in AcceptedIn(p, run)
    ensures p.ok(body)
    decreases |run|
  {
    if body in AcceptedIn(p, run[..|run| - 1]) { AcceptedAreAcceptable(p, run[..|run| - 1], body); }
  }

  lemma {:induction false} StoreIsIndex(p: Policy, run: seq<Event>)
    requires LegalRun(p, run)
    ensures After(p, run).stored == IndexBy(p.origin, AcceptedIn(p, run))
    decreases |run|
  {
    if run != [] {
      var before, e := run[..|run| - 1], Last(run);
      StoreIsIndex(p, before);
      if e.Update? && p.ok(e.body) && e.supervisorUp {
        IndexAppend(p.origin, AcceptedIn(p, before), e.body);
      } else {
        assert AcceptedIn(p, run) == AcceptedIn(p, before);
      }
    }
  }

  // `body` is the latest of `bodies` from its origin.
  ghost predicate LatestFrom(p: Policy, bodies: seq<Bytes>, origin: PubKey, body: Bytes) {
    exists i :: 0 <= i < |bodies| && bodies[i] == body && p.origin(body) == origin
             && forall j :: i < j < |bodies| ==> p.origin(bodies[j]) != origin
  }

  // In every run the store holds, per origin ever accepted, that origin's
  // latest accepted body, and nothing else.
  lemma StoreIsLatestPerOrigin(p: Policy, run: seq<Event>, origin: PubKey)
    requires LegalRun(p, run)
    ensures origin in After(p, run).stored <==> exists b :: b in AcceptedIn(p, run) && p.origin(b) == origin
    ensures origin in After(p, run).stored ==> LatestFrom(p, AcceptedIn(p, run), origin, After(p, run).stored[origin])
  {
    var bodies := AcceptedIn(p, run);
    StoreIsIndex(p, run);
    if origin in After(p, run).stored {
      var i := IndexIsLast(p.origin, bodies, origin);
      assert bodies[i] in bodies;
    }
    if b :| b in bodies && p.origin(b) == origin { IndexComplete(p.origin, bodies, b); }
  }

  lemma {:induction false} ResentFromStore(stored: map<PubKey, Bytes>, order: seq<PubKey>, up: nat -> bool, body: Bytes)
    requires forall k :: k in order ==> k in stored
    requires body in Resent(stored, order, up)
    ensures exists k :: k in order && stored[k] == body
    decreases |order|
  {
    var n := |order| - 1;
    if body in Resent(stored, order[..n], up) {
      ResentFromStore(stored, order[..n], up, body);
    } else {
      assert order[n] in order;
    }
  }

  // Forwarding never alters a body and never forwards a rejected one.
  lemma {:induction false} OutboxHoldsAcceptedBodies(p: Policy, run: seq<Event>, body: Bytes)
    requires LegalRun(p, run)
    requires body in After(p, run).outbox
    ensures body in AcceptedIn(p, run)
    decreases |run|
  {
    var before, e := run[..|run| - 1], Last(run);
    if body in After(p, before).outbox {
      OutboxHoldsAcceptedBodies(p, before, body);
    } else if e.NewSession? {
      ResentFromStore(After(p, before).stored, e.order, e.up, body);
      var k :| k in e.order && After(p, before).stored[k] == body;
      StoreIsLatestPerOrigin(p, before, k);
    }
  }

  // The introspection slot shows the latest accepted set.
  lemma {:induction false} SlotIsLatestAccepted(p: Policy, run: seq<Event>)
    requires LegalRun(p, run)
    ensures After(p, run).latest == if AcceptedIn(p, run) == [] then None else Some(p.shown(Last(AcceptedIn(p, run))))
    decreases |run|
  {
    if run != [] { SlotIsLatestAccepted(p, run[..|run| - 1]); }
  }

  lemma {:induction false} ResentEach(stored: map<PubKey, Bytes>, order: seq<PubKey>, up: nat -> bool, i: nat)
    requires forall k :: k in order ==> k in stored
    requires i < |order| && up(i)
    ensures stored[order[i]] in Resent(stored, order, up)
    decreases |order|
  {
    var n := |order| - 1;
    if i < n {
      assert order[..n][i] == order[i];
      ResentEach(stored, order[..n], up, i);
    }
  }

  // With a running client every stored body goes out exactly once, in order.
  lemma {:induction false} ResentIs(stored: map<PubKey, Bytes>, order: seq<PubKey>, up: nat -> bool)
    requires (forall k :: k in order ==> k in stored) && forall i: nat :: i < |order| ==> up(i)
    ensures Resent(stored, order, up) == seq(|order|, i requires 0 <= i < |order| => stored[order[i]])
    decreases |order|
  {
    if order != [] { ResentIs(stored, order[..|order| - 1], up); }
  }

  // Whatever happened to earlier sends, a new session with a running client
  // offers the upstream every origin's latest accepted body.
  lemma NewSessionOffersLatest(p: Policy, run: seq<Event>, order: seq<PubKey>, up: nat -> bool, origin: PubKey)
    requires LegalRun(p, run) && Enumerates(order, After(p, run).stored.Keys)
    requires forall i: nat :: i < |order| ==> up(i)
    requires exists b :: b in AcceptedIn(p, run) && p.origin(b) == origin
    ensures exists b :: b in Resent(After(p, run).stored, order, up) && LatestFrom(p, AcceptedIn(p, run), origin, b)
  {
    StoreIsLatestPerOrigin(p, run, origin);
    var i :| 0 <= i < |order| && order[i] == origin;
    ResentEach(After(p, run).stored, order, up, i);
    var b := After(p, run).stored[origin];
    assert b in Resent(After(p, run).stored, order, up) && LatestFrom(p, AcceptedIn(p, run), origin, b);
  }

  // ---- Convergence of the upstream, with whole accepts and whole resyncs ----

  // What an upstream that starts empty shows after processing `bodies`: it
  // takes the same decisions as this relay.
  ghost function UpstreamAfter(p: Policy, bodies: seq<Bytes>): Option<PredicateSet> {
    if bodies == [] then None
    else if p.ok(Last(bodies)) then Some(p.shown(Last(bodies)))
    else UpstreamAfter(p, bodies[..|bodies| - 1])
  }

  // From event `cut` on the chain client takes everything it is handed.
  ghost predicate UpFrom(run: seq<Event>, cut: nat) {
    forall i :: cut <= i < |run| ==>
      (run[i].Update? ==> run[i].clientUp) && (run[i].NewSession? ==> forall k: nat :: run[i].up(k))
  }

  ghost predicate OneOrigin(p: Policy, run: seq<Event>, origin: PubKey) {
    forall b :: b in AcceptedIn(p, run) ==> p.origin(b) == origin
  }

  // The body the upstream sees last.
  ghost predicate SentLast(p: Policy, run: seq<Event>, body: Bytes)
    requires LegalRun(p, run)
  {
    After(p, run).outbox != [] && Last(After(p, run).outbox) == body
  }

  // A session that follows an accept and whose last send succeeds ends the
  // outbox with the body of the origin its iteration order puts last.
  lemma SessionSendsLast(p: Policy, run: seq<Event>)
    requires LegalRun(p, run) && AcceptedIn(p, run) != []
    requires Last(run).NewSession? && Last(run).up(SaturatingSub(|Last(run).order|, 1))
    ensures var order := Last(run).order;
            && order != [] && Last(order) in After(p, run).stored
            && |After(p, run[..|run| - 1]).outbox| < |After(p, run).outbox|
            && SentLast(p, run, After(p, run).stored[Last(order)])
  {
    var before, e := run[..|run| - 1], Last(run);
    var b := AcceptedIn(p, before)[0];
    assert b in AcceptedIn(p, before);
    StoreIsLatestPerOrigin(p, before, p.origin(b));
    assert p.origin(b) in e.order;
    assert Last(e.order) in e.order;
  }

  lemma {:induction false} Prefix(p: Policy, run: seq<Event>, n: nat)
    requires LegalRun(p, run) && n <= |run|
    ensures LegalRun(p, run[..n])
    ensures After(p, run[..n]).outbox <= After(p, run).outbox
    decreases |run|
  {
    if n < |run| {
      var before := run[..|run| - 1];
      Prefix(p, before, n);
      assert before[..n] == run[..n];
    } else {
      assert run[..n] == run;
    }
  }

  lemma {:induction false} NothingAcceptedNothingSent(p: Policy, run: seq<Event>)
    requires LegalRun(p, run) && AcceptedIn(p, run) == []
    ensures After(p, run).outbox == [] && After(p, run).stored == map[]
    decreases |run|
  {
    StoreIsIndex(p, run);
    if run != [] {
      NothingAcceptedNothingSent(p, run[..|run| - 1]);
      var e := Last(run);
      if e.NewSession? { NothingInside(e.order); }
    }
  }

  lemma LastAcceptedIsStored(p: Policy, run: seq<Event>)
    requires LegalRun(p, run) && AcceptedIn(p, run) != []
    ensures var b := Last(AcceptedIn(p, run));
            p.ok(b) && p.origin(b) in After(p, run).stored && After(p, run).stored[p.origin(b)] == b
  {
    var bodies := AcceptedIn(p, run);
    assert Last(bodies) in bodies;
    AcceptedAreAcceptable(p, run, Last(bodies));
    StoreIsIndex(p, run);
  }

  lemma OneOriginStored(p: Policy, run: seq<Event>, origin: PubKey, k: PubKey)
    requires LegalRun(p, run) && OneOrigin(p, run, origin) && AcceptedIn(p, run) != [] && k in After(p, run).stored
    ensures After(p, run).stored[k] == Last(AcceptedIn(p, run))
  {
    StoreIsLatestPerOrigin(p, run, k);
    LastAcceptedIsStored(p, run);
    assert Last(AcceptedIn(p, run)) in AcceptedIn(p, run);
  }

  // From a new session on, however many sends failed before it, the last body
  // handed over is the latest accepted one, and something has been handed over.
  lemma {:induction false} OneOriginSentLast(p: Policy, run: seq<Event>, cut: nat, origin: PubKey)
    requires LegalRun(p, run) && OneOrigin(p, run, origin) && AcceptedIn(p, run) != []
    requires cut < |run| && run[cut].NewSession? && UpFrom(run, cut) && LegalRun(p, run[..cut])
    ensures |After(p, run[..cut]).outbox| < |After(p, run).outbox|
    ensures SentLast(p, run, Last(AcceptedIn(p, run)))
    decreases |run|
  {
    var before, e := run[..|run| - 1], Last(run);
    Prefix(p, run, |run| - 1);
    Prefix(p, before, cut);
    assert before[..cut] == run[..cut];
    if e.NewSession? {
      SessionSendsLast(p, run);
      OneOriginStored(p, run, origin, Last(e.order));
    } else if !(p.ok(e.body) && e.supervisorUp) {
      assert AcceptedIn(p, run) == AcceptedIn(p, before);
      OneOriginSentLast(p, before, cut, origin);
    }
  }

  // Convergence after an upstream restart. The upstream lost everything up to
  // some point `m` of what had been handed over, any sends before may have
  // failed, a new session began at `cut`, and the rest of the run is
  // arbitrary but for a running client: once the upstream has drained what it
  // was sent, it shows the relay's latest accepted set.
  lemma RestartConverges(p: Policy, run: seq<Event>, cut: nat, m: nat, origin: PubKey)
    requires LegalRun(p, run) && OneOrigin(p, run, origin)
    requires cut < |run| && run[cut].NewSession? && UpFrom(run, cut)
    requires LegalRun(p, run[..cut]) && m <= |After(p, run[..cut]).outbox|
    ensures m <= |After(p, run).outbox|
    ensures UpstreamAfter(p, After(p, run).outbox[m..]) == After(p, run).latest
  {
    SlotIsLatestAccepted(p, run);
    if AcceptedIn(p, run) == [] {
      Prefix(p, run, cut);
      NothingAcceptedNothingSent(p, run);
    } else {
      OneOriginSentLast(p, run, cut, origin);
      LastAcceptedIsStored(p, run);
      UpstreamShowsLast(p, After(p, run).outbox, m);
    }
  }

  lemma UpstreamShowsLast(p: Policy, bodies: seq<Bytes>, m: nat)
    requires m < |bodies| && p.ok(Last(bodies))
    ensures UpstreamAfter(p, bodies[m..]) == Some(p.shown(Last(bodies)))
  {
    assert Last(bodies[m..]) == Last(bodies);
  }

  // With several stored origins a resync whose last send succeeds leaves the
  // upstream on the latest accepted set exactly when its iteration order ends
  // with that set's origin, whatever happened to earlier sends.
  lemma ResyncConvergesIff(p: Policy, run: seq<Event>)
    requires LegalRun(p, run) && AcceptedIn(p, run) != []
    requires Last(run).NewSession? && Last(run).up(SaturatingSub(|Last(run).order|, 1))
    ensures Last(run).order != []
    ensures UpstreamAfter(p, After(p, run).outbox) == After(p, run).latest
       <==> Last(Last(run).order) == p.origin(Last(AcceptedIn(p, run)))
  {
    SessionSendsLast(p, run);
    var k := Last(Last(run).order);
    SlotIsLatestAccepted(p, run);
    LastAcceptedIsStored(p, run);
    StoreIsLatestPerOrigin(p, run, k);
    var body := After(p, run).stored[k];
    assert body in AcceptedIn(p, run);
    AcceptedAreAcceptable(p, run, body);
  }

  lemma {:induction false} OrderEndingIn(keys: set<PubKey>, k: PubKey) returns (order: seq<PubKey>)
    requires k in keys
    ensures Enumerates(order, keys) && order != [] && Last(order) == k
  {
    var rest := keys - {k};
    if rest == {} {
      order := [k];
      assert keys == {k};
    } else {
      var x :| x in rest;
      var inner := OrderEndingIn(rest, x);
      order := inner + [k];
    }
  }

  // Two origins are enough for an unlucky order.
  lemma TwoOriginsMayDiverge(p: Policy, run: seq<Event>, a: PubKey, b: PubKey) returns (order: seq<PubKey>)
    requires LegalRun(p, run) && a != b && a in After(p, run).stored && b in After(p, run).stored
    ensures LegalRun(p, run + [NewSession(order, _ => true)])
    ensures UpstreamAfter(p, After(p, run + [NewSession(order, _ => true)]).outbox)
         != After(p, run + [NewSession(order, _ => true)]).latest
  {
    StoreIsLatestPerOrigin(p, run, a);
    var latest := p.origin(Last(AcceptedIn(p, run)));
    order := OrderEndingIn(After(p, run).stored.Keys, if a == latest then b else a);
    var next := run + [NewSession(order, _ => true)];
    assert next[..|run|] == run && Last(next) == NewSession(order, _ => true);
    assert AcceptedIn(p, next) == AcceptedIn(p, run);
    ResyncConvergesIff(p, next);
  }
}
