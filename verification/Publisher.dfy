// The terminal's publisher: what it pushes to its relay when the rules change
// or a new session begins, and what it remembers in between.
module Publisher {
  import opened Prelude
  import opened Predicates

  // What comes back for a push: an Ok, a rejection, or nothing in time.
  datatype Answer = Accepted | Refused | Unanswered

  // `body` is what the rules are at that moment, `answer` what comes back if
  // something is pushed.
  datatype Event = RulesChanged(body: Bytes, answer: Answer) | NewSession(body: Bytes, answer: Answer)

  // The body last accepted, unless a new session made the publisher forget it,
  // and the body whose set the terminal shows. A body stands for its digest.
  datatype State = State(remembered: Option<Bytes>, shown: Option<Bytes>)

  const IDLE := State(None, None)

  predicate Fits(body: Bytes) { |body| <= PREDICATE_SET_MAX_WIRE_BYTES }

  // What an event makes the publisher push.
  function Pushed(s: State, e: Event): Option<Bytes> {
    match e
    case RulesChanged(body, _) => if Fits(body) && s.remembered != Some(body) then Some(body) else None
    case NewSession(body, _) => if Fits(body) && s.remembered.Some? then Some(body) else None
  }

  function Step(s: State, e: Event): State {
    var pushed := Pushed(s, e);
    if pushed.Some? && e.answer.Accepted? then State(pushed, pushed)
    else State(if e.NewSession? then None else s.remembered, s.shown)
  }

  function After(history: seq<Event>): State {
    if history == [] then IDLE else Step(After(history[..|history| - 1]), Last(history))
  }

  class Publisher {
    var lastSent: Option<Bytes>
    var shown: Option<Bytes>

    constructor ()
      ensures Now() == IDLE
    {
      lastSent, shown := None, None;
    }

    function Now(): State
      reads this
    {
      State(lastSent, shown)
    }

    // One push attempt: whether there was one, and whether it was accepted.
    method PublishOne(body: Bytes, answer: Answer) returns (sent: bool, applied: bool)
      modifies this`shown
      ensures sent <==> Fits(body) && lastSent != Some(body)
      ensures applied <==> sent && answer.Accepted?
      ensures shown == if applied then Some(body) else old(shown)
    {
      if |body| > PREDICATE_SET_MAX_WIRE_BYTES { return false, false; }
      if lastSent.Some? {
        if lastSent.value == body { return false, false; }
      }
      match answer {
        case Accepted =>
          shown := Some(body);
          return true, true;
        case Refused => return true, false;
        case Unanswered => return true, false;
      }
    }

    method OnRulesChanged(body: Bytes, answer: Answer) returns (sent: bool)
      modifies this
      ensures Now() == Step(old(Now()), RulesChanged(body, answer))
      ensures sent <==> Pushed(old(Now()), RulesChanged(body, answer)).Some?
    {
      var applied;
      sent, applied := PublishOne(body, answer);
      if applied { lastSent := Some(body); }
    }

    method OnNewSession(body: Bytes, answer: Answer) returns (sent: bool)
      modifies this
      ensures Now() == Step(old(Now()), NewSession(body, answer))
      ensures sent <==> Pushed(old(Now()), NewSession(body, answer)).Some?
    {
      if lastSent.None? { return false; }
      lastSent := None;
      var applied;
      sent, applied := PublishOne(body, answer);
      if applied { lastSent := Some(body); }
    }
  }

  // ---- When a new session pushes anything ----

  predicate Confirms(e: Event) { Fits(e.body) && e.answer.Accepted? }

  // The rules were accepted at `k`, and so was everything pushed for a new
  // session since.
  ghost predicate ConfirmedAt(history: seq<Event>, k: int) {
    && 0 <= k < |history| && history[k].RulesChanged? && Confirms(history[k])
    && forall j :: k < j < |history| && history[j].NewSession? ==> Confirms(history[j])
  }

  ghost predicate Confirmed(history: seq<Event>) { exists k :: ConfirmedAt(history, k) }

  lemma ConfirmedStep(history: seq<Event>, e: Event)
    ensures Confirmed(history + [e])
       <==> (Confirmed(history) && (e.NewSession? ==> Confirms(e))) || (e.RulesChanged? && Confirms(e))
  {
    var more := history + [e];
    assert forall j :: 0 <= j < |history| ==> history[j] == more[j];
    if k :| ConfirmedAt(more, k) {
      assert more[|history|] == e;
      if k < |history| { assert ConfirmedAt(history, k); }
    }
    if k :| ConfirmedAt(history, k) {
      if e.NewSession? ==> Confirms(e) { assert ConfirmedAt(more, k); }
    }
    if e.RulesChanged? && Confirms(e) { assert ConfirmedAt(more, |history|); }
  }

  // A new session pushes the rules exactly when some change of them was
  // accepted and every session since ended in an acceptance too: one push that
  // is not confirmed makes the publisher forget that there is anything to push.
  lemma {:induction false} SessionPushesIff(history: seq<Event>, body: Bytes, answer: Answer)
    ensures Pushed(After(history), NewSession(body, answer)).Some? <==> Fits(body) && Confirmed(history)
    decreases |history|
  {
    if history != [] {
      var before, e := history[..|history| - 1], Last(history);
      assert history == before + [e];
      ConfirmedStep(before, e);
      SessionPushesIff(before, [], answer);
    }
  }
}
