// The same relay at the granularity of its locks. The store's lock is
// released before anything is sent, so the update handler (insert, send) and
// the resync task (copy, send one by one) may interleave, and each send may
// fail. Accepted bodies are numbered 1, 2, 3, ... over all origins; origins are
// numbers too.
module ResyncRace {
  import opened Prelude

  // `up` is whether the chain client takes what it is handed.
  datatype Action = Insert(origin: nat) | SendAccepted(up: bool) | Copy(order: seq<nat>) | SendCopy(up: bool)

  // `inserting` is the handler between insert and send, `copied` what the
  // resync task still has to send.
  datatype State = State(
    stored: map<nat, nat>, accepted: nat, inserting: Option<nat>, copied: seq<nat>, outbox: seq<nat>)

  const START := State(map[], 0, None, [], [])

  // The handler takes one update at a time; the resync task has one copy at a
  // time, in whatever order the map came out, and skips an empty store.
  ghost predicate Enabled(s: State, a: Action) {
    match a
    case Insert(_) => s.inserting.None?
    case SendAccepted(_) => s.inserting.Some?
    case Copy(order) =>
      s.copied == [] && order != [] && (forall o :: o in order <==> o in s.stored)
      && forall i, j :: 0 <= i < j < |order| ==> order[i] != order[j]
    case SendCopy(_) => s.copied != []
  }

  ghost function Do(s: State, a: Action): State
    requires Enabled(s, a)
  {
    match a
    case Insert(o) =>
      s.(stored := s.stored[o := s.accepted + 1], accepted := s.accepted + 1, inserting := Some(s.accepted + 1))
    case SendAccepted(up) =>
      s.(inserting := None, outbox := if up then s.outbox + [s.inserting.value] else s.outbox)
    case Copy(order) => s.(copied := seq(|order|, i requires 0 <= i < |order| => s.stored[order[i]]))
    case SendCopy(up) =>
      s.(copied := s.copied[1..], outbox := if up then s.outbox + [s.copied[0]] else s.outbox)
  }

  ghost predicate Schedule(run: seq<Action>)
    decreases |run|, 0
  {
    run == [] || (Schedule(run[..|run| - 1]) && Enabled(After(run[..|run| - 1]), Last(run)))
  }

  ghost function After(run: seq<Action>): State
    requires Schedule(run)
    decreases |run|, 1
  {
    if run == [] then START else Do(After(run[..|run| - 1]), Last(run))
  }

  // How many bodies were accepted in the first `n` actions, and from whom the
  // last of them came.
  ghost function Inserts(run: seq<Action>, n: nat): nat
    requires n <= |run|
  {
    if n == 0 then 0 else Inserts(run, n - 1) + if run[n - 1].Insert? then 1 else 0
  }

  ghost function LatestOrigin(run: seq<Action>, n: nat): Option<nat>
    requires n <= |run|
  {
    if n == 0 then None else if run[n - 1].Insert? then Some(run[n - 1].origin) else LatestOrigin(run, n - 1)
  }

  // How many copied bodies were tried between `i` and `n`.
  ghost function Tried(run: seq<Action>, i: nat, n: nat): nat
    requires n <= |run|
  {
    if n <= i then 0 else Tried(run, i, n - 1) + if run[n - 1].SendCopy? then 1 else 0
  }

  // A send that went through.
  predicate IsSend(a: Action) { (a.SendAccepted? || a.SendCopy?) && a.up }

  // Position `i` is the last copy before `n`.
  ghost predicate LastCopy(run: seq<Action>, i: int, n: int) {
    0 <= i < n <= |run| && run[i].Copy? && forall k :: i < k < n ==> !run[k].Copy?
  }

  ghost predicate LastSend(run: seq<Action>, j: int) {
    0 <= j < |run| && IsSend(run[j]) && forall k :: j < k < |run| ==> !IsSend(run[k])
  }

  // ---- When the last body sent is not the newest ----

  ghost predicate AcceptedAfter(run: seq<Action>, i: int) {
    exists k :: i < k < |run| && 0 <= k && run[k].Insert?
  }

  // The copy taken at `i` is sent at `j` on behalf of another origin than the
  // latest one.
  ghost predicate Misordered(run: seq<Action>, i: int, j: int) {
    && 0 <= i < j <= |run| && run[i].Copy?
    && Tried(run, i, j) < |run[i].order| && LatestOrigin(run, i) != Some(run[i].order[Tried(run, i, j)])
  }

  // The last send that went through was the handler's, and a newer body was
  // accepted since; or it was of a copy, and a newer body was accepted since
  // the copy was taken, or the copy's order put another origin there.
  ghost predicate UnluckyAt(run: seq<Action>, j: int) {
    && LastSend(run, j)
    && if run[j].SendAccepted? then AcceptedAfter(run, j)
       else exists i :: LastCopy(run, i, j) && (AcceptedAfter(run, i) || Misordered(run, i, j))
  }

  ghost predicate EndsUnluckily(run: seq<Action>) { exists j :: UnluckyAt(run, j) }

  lemma {:induction false} PrefixFacts(run: seq<Action>, longer: seq<Action>, n: nat)
    requires n <= |run| && run <= longer
    ensures Inserts(run, n) == Inserts(longer, n) && LatestOrigin(run, n) == LatestOrigin(longer, n)
  {
    if n > 0 { PrefixFacts(run, longer, n - 1); }
  }

  lemma {:induction false} PrefixTried(run: seq<Action>, longer: seq<Action>, i: nat, n: nat)
    requires n <= |run| && run <= longer
    ensures Tried(run, i, n) == Tried(longer, i, n)
    decreases n
  {
    if i < n { PrefixTried(run, longer, i, n - 1); }
  }

  lemma {:induction false} InsertsGrow(run: seq<Action>, m: nat, n: nat)
    requires m <= n <= |run|
    ensures Inserts(run, m) <= Inserts(run, n)
    ensures Inserts(run, m) < Inserts(run, n) <==> exists k :: m <= k < n && run[k].Insert?
    decreases n
  {
    if m < n {
      InsertsGrow(run, m, n - 1);
      if run[n - 1].Insert? { assert m <= n - 1 < n && run[n - 1].Insert?; }
    }
  }

  // The store holds each origin's latest number; only the latest origin's is
  // the newest of all.
  ghost predicate StoreOk(run: seq<Action>, s: State) {
    && s.accepted == Inserts(run, |run|) && (s.inserting.Some? ==> s.inserting.value == s.accepted)
    && (forall o :: o in s.stored ==>
          s.stored[o] <= s.accepted && (s.stored[o] == s.accepted <==> LatestOrigin(run, |run|) == Some(o)))
  }

  // What a copy taken at `i` holds at position `p`.
  ghost predicate Piece(run: seq<Action>, i: int, p: int, v: nat) {
    && 0 <= i < |run| && run[i].Copy? && 0 <= p < |run[i].order|
    && v <= Inserts(run, i) && (v == Inserts(run, i) <==> LatestOrigin(run, i) == Some(run[i].order[p]))
  }

  // `copied` is what is left of the copy taken at `i`.
  ghost predicate CopyAt(run: seq<Action>, i: int, copied: seq<nat>) {
    && LastCopy(run, i, |run|) && Tried(run, i, |run|) + |copied| == |run[i].order|
    && forall t :: 0 <= t < |copied| ==> Piece(run, i, Tried(run, i, |run|) + t, copied[t])
  }

  ghost predicate CopyOk(run: seq<Action>, s: State) { s.copied != [] ==> exists i :: CopyAt(run, i, s.copied) }

  lemma {:induction false} InvHolds(run: seq<Action>)
    requires Schedule(run)
    ensures StoreOk(run, After(run)) && CopyOk(run, After(run))
    decreases |run|
  {
    if run != [] {
      var before, n := run[..|run| - 1], |run| - 1;
      InvHolds(before);
      PrefixFacts(before, run, n);
      CopyStep(run);
    }
  }

  lemma CopyTaken(run: seq<Action>)
    requires run != [] && Schedule(run) && Last(run).Copy?
    requires var before := run[..|run| - 1]; StoreOk(before, After(before))
    ensures CopyAt(run, |run| - 1, After(run).copied)
  {
    var before, n := run[..|run| - 1], |run| - 1;
    var order, copied := Last(run).order, After(run).copied;
    PrefixFacts(before, run, n);
    forall t | 0 <= t < |copied|
      ensures Piece(run, n, t, copied[t])
    {
      assert order[t] in order;
    }
  }

  // Any other action keeps what is left of a copy, or takes its first body.
  lemma CopyKept(run: seq<Action>, i: int)
    requires run != [] && Schedule(run) && !Last(run).Copy?
    requires var before := run[..|run| - 1]; CopyAt(before, i, After(before).copied)
    ensures CopyAt(run, i, After(run).copied)
  {
    var before, n := run[..|run| - 1], |run| - 1;
    var was, copied := After(before).copied, After(run).copied;
    PrefixFacts(before, run, i);
    PrefixTried(before, run, i, n);
    var d := |was| - |copied|;
    forall t | 0 <= t < |copied|
      ensures Piece(run, i, Tried(run, i, |run|) + t, copied[t])
    {
      assert Piece(before, i, Tried(before, i, n) + (t + d), was[t + d]);
    }
  }

  lemma CopyStep(run: seq<Action>)
    requires run != [] && Schedule(run)
    requires var before := run[..|run| - 1]; StoreOk(before, After(before)) && CopyOk(before, After(before))
    ensures CopyOk(run, After(run))
  {
    if After(run).copied != [] {
      if Last(run).Copy? {
        CopyTaken(run);
      } else {
        var before := run[..|run| - 1];
        var i :| CopyAt(before, i, After(before).copied);
        CopyKept(run, i);
      }
    }
  }

  // What the last send that went through put into the outbox.
  ghost predicate SentValue(run: seq<Action>, j: int)
    requires Schedule(run)
  {
    LastSend(run, j) && After(run).outbox != []
    && (run[j].SendAccepted? ==> Last(After(run).outbox) == Inserts(run, j))
    && (run[j].SendCopy? ==> exists i :: SentPiece(run, i, j, Last(After(run).outbox)))
  }

  ghost predicate SentPiece(run: seq<Action>, i: int, j: int, v: nat) {
    LastCopy(run, i, j) && Piece(run, i, Tried(run, i, j), v)
  }

  lemma SentPiecePrefix(run: seq<Action>, longer: seq<Action>, i: int, j: int, v: nat)
    requires run <= longer && SentPiece(run, i, j, v)
    ensures SentPiece(longer, i, j, v)
  {
    PrefixFacts(run, longer, i);
    PrefixTried(run, longer, i, j);
  }

  lemma AcceptedSent(run: seq<Action>)
    requires run != [] && Schedule(run) && Last(run).SendAccepted? && Last(run).up
    ensures SentValue(run, |run| - 1)
  {
    var before, n := run[..|run| - 1], |run| - 1;
    InvHolds(before);
    PrefixFacts(before, run, n);
  }

  // The first body of a copy is the one to be sent.
  lemma FirstPiece(run: seq<Action>) returns (i: int)
    requires Schedule(run) && After(run).copied != []
    ensures SentPiece(run, i, |run|, After(run).copied[0])
  {
    InvHolds(run);
    var copied := After(run).copied;
    i :| CopyAt(run, i, copied);
    assert Piece(run, i, Tried(run, i, |run|) + 0, copied[0]);
  }

  lemma CopySent(run: seq<Action>)
    requires run != [] && Schedule(run) && Last(run).SendCopy? && Last(run).up
    ensures SentValue(run, |run| - 1)
  {
    var before, n := run[..|run| - 1], |run| - 1;
    var copied := After(before).copied;
    var i := FirstPiece(before);
    SentPiecePrefix(before, run, i, n, copied[0]);
    OutboxStep(After(before), Last(run));
    assert Last(After(run).outbox) == copied[0];
  }

  lemma OutboxStep(s: State, a: Action)
    requires Enabled(s, a)
    ensures !IsSend(a) ==> Do(s, a).outbox == s.outbox
    ensures IsSend(a) && a.SendCopy? ==> Do(s, a).outbox == s.outbox + [s.copied[0]]
  {
  }

  lemma LastSendKept(before: seq<Action>, run: seq<Action>, j: int)
    requires run != [] && before == run[..|run| - 1] && !IsSend(Last(run)) && LastSend(before, j)
    ensures LastSend(run, j)
  {
    forall k | j < k < |run|
      ensures !IsSend(run[k])
    {
      if k < |before| { assert run[k] == before[k]; }
    }
  }

  lemma OtherStep(run: seq<Action>, j: int)
    requires run != [] && Schedule(run) && !IsSend(Last(run)) && SentValue(run[..|run| - 1], j)
    ensures SentValue(run, j)
  {
    var before := run[..|run| - 1];
    OutboxStep(After(before), Last(run));
    LastSendKept(before, run, j);
    PrefixFacts(before, run, j);
    assert before[j] == run[j];
    if before[j].SendCopy? {
      var i :| SentPiece(before, i, j, Last(After(before).outbox));
      SentPiecePrefix(before, run, i, j, Last(After(before).outbox));
    }
  }

  lemma {:induction false} LastSendDecides(run: seq<Action>) returns (j: int)
    requires Schedule(run) && After(run).outbox != []
    ensures SentValue(run, j)
    decreases |run|
  {
    if IsSend(Last(run)) {
      j := |run| - 1;
      if Last(run).SendCopy? { CopySent(run); } else { AcceptedSent(run); }
    } else {
      j := LastSendDecides(run[..|run| - 1]);
      OtherStep(run, j);
    }
  }

  // In every schedule, whichever sends fail, the last body the upstream was
  // sent is not the newest one exactly when the run ends unluckily.
  lemma StaleExactlyWhenUnlucky(run: seq<Action>)
    requires Schedule(run) && After(run).outbox != []
    ensures Last(After(run).outbox) != After(run).accepted <==> EndsUnluckily(run)
  {
    InvHolds(run);
    var j := LastSendDecides(run);
    OnlyLastSend(run, j);
    if run[j].SendAccepted? {
      InsertedSince(run, j);
    } else {
      var i :| SentPiece(run, i, j, Last(After(run).outbox));
      OnlyLastCopy(run, i, j);
      InsertedSince(run, i);
    }
  }

  lemma InsertedSince(run: seq<Action>, i: int)
    requires 0 <= i < |run| && !run[i].Insert?
    ensures Inserts(run, i) <= Inserts(run, |run|)
    ensures Inserts(run, i) < Inserts(run, |run|) <==> AcceptedAfter(run, i)
  {
    InsertsGrow(run, i, |run|);
  }

  lemma OnlyLastSend(run: seq<Action>, j: int)
    requires LastSend(run, j)
    ensures EndsUnluckily(run) <==> UnluckyAt(run, j)
  {
    assert forall j' :: LastSend(run, j') ==> j' == j;
  }

  lemma OnlyLastCopy(run: seq<Action>, i: int, j: int)
    requires LastSend(run, j) && run[j].SendCopy? && LastCopy(run, i, j)
    ensures UnluckyAt(run, j) <==> AcceptedAfter(run, i) || Misordered(run, i, j)
  {
    assert forall i' :: LastCopy(run, i', j) ==> i' == i;
  }

  // A schedule that extends another by one action.
  lemma Extend(run: seq<Action>, a: Action)
    requires Schedule(run) && Enabled(After(run), a)
    ensures Schedule(run + [a]) && After(run + [a]) == Do(After(run), a)
  {
    assert (run + [a])[..|run|] == run;
  }

  // Overtaken: a new body is accepted and sent while a resync still holds the
  // previous one.
  lemma StaleSchedule() returns (run: seq<Action>)
    ensures Schedule(run) && After(run) == State(map[0 := 2], 2, None, [], [1, 2, 1])
  {
    run := [];
    Extend(run, Insert(0));
    run := run + [Insert(0)];
    Extend(run, SendAccepted(true));
    run := run + [SendAccepted(true)];
    Extend(run, Copy([0]));
    run := run + [Copy([0])];
    assert After(run) == State(map[0 := 1], 1, None, [1], [1]);
    Extend(run, Insert(0));
    run := run + [Insert(0)];
    Extend(run, SendAccepted(true));
    run := run + [SendAccepted(true)];
    Extend(run, SendCopy(true));
    run := run + [SendCopy(true)];
  }

  // A handler's send that fails leaves the upstream behind; the next session
  // brings it up to date.
  lemma FailedSendSchedule() returns (run: seq<Action>)
    ensures Schedule(run) && After(run) == State(map[0 := 2], 2, None, [], [1])
    ensures var next := run + [Copy([0])] + [SendCopy(true)];
            Schedule(next) && After(next) == State(map[0 := 2], 2, None, [], [1, 2])
  {
    run := [];
    Extend(run, Insert(0));
    run := run + [Insert(0)];
    Extend(run, SendAccepted(true));
    run := run + [SendAccepted(true)];
    Extend(run, Insert(0));
    run := run + [Insert(0)];
    Extend(run, SendAccepted(false));
    run := run + [SendAccepted(false)];
    Extend(run, Copy([0]));
    assert After(run + [Copy([0])]) == State(map[0 := 2], 2, None, [2], [1]);
    Extend(run + [Copy([0])], SendCopy(true));
  }

  // Misordered: nothing overlaps, and the copy sends the older origin last.
  lemma MisorderedSchedule() returns (run: seq<Action>)
    ensures Schedule(run) && After(run) == State(map[0 := 1, 1 := 2], 2, None, [], [1, 2, 2, 1])
  {
    run := [];
    Extend(run, Insert(0));
    run := run + [Insert(0)];
    Extend(run, SendAccepted(true));
    run := run + [SendAccepted(true)];
    Extend(run, Insert(1));
    run := run + [Insert(1)];
    Extend(run, SendAccepted(true));
    run := run + [SendAccepted(true)];
    assert After(run) == State(map[0 := 1, 1 := 2], 2, None, [], [1, 2]);
    Extend(run, Copy([1, 0]));
    run := run + [Copy([1, 0])];
    assert After(run) == State(map[0 := 1, 1 := 2], 2, None, [2, 1], [1, 2]);
    Extend(run, SendCopy(true));
    run := run + [SendCopy(true)];
    assert After(run) == State(map[0 := 1, 1 := 2], 2, None, [1], [1, 2, 2]);
    Extend(run, SendCopy(true));
    run := run + [SendCopy(true)];
  }
}
