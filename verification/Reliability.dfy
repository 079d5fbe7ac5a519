// The per-session reliability layer: numbering, retransmission, resolution of
// waiting senders and duplicate suppression.
module Reliability {
  import opened Prelude
  import opened ControlFrame

  // Milliseconds, sends and window entries.
  const RETX_INITIAL := 200
  const RETX_MAX := 2000
  const RETX_MAX_ATTEMPTS := 5
  const DEDUP_WINDOW := 256

  const U32_MAX: U32 := 0xFFFF_FFFF

  // The wait after the given number of sends.
  function Backoff(attempts: nat): nat { Min(RETX_INITIAL * Pow2(Min(SaturatingSub(attempts, 1), 8)), RETX_MAX) }

  datatype Entry = Entry(envelope: Envelope, attempts: nat, nextSendAt: nat)

  // What a waiting sender is told.
  datatype SendResult = Acked | Rejected(code: U16) | UnknownBodyType | TimedOut(attempts: nat) | ChannelClosed

  function ResultOf(status: AckStatus): SendResult {
    match status
    case AckOk => Acked
    case Reject(code) => Rejected(code)
    case AckUnknown => UnknownBodyType
  }

  predicate Due(e: Entry, now: nat) { e.nextSendAt <= now }

  predicate Resend(e: Entry, now: nat) { Due(e, now) && e.attempts < RETX_MAX_ATTEMPTS }

  predicate GiveUp(e: Entry, now: nat) { Due(e, now) && e.attempts >= RETX_MAX_ATTEMPTS }

  function Rescheduled(e: Entry, now: nat): Entry {
    if Resend(e, now) then Entry(e.envelope, e.attempts + 1, now + Backoff(e.attempts + 1)) else e
  }

  lemma BackoffIs(attempts: nat)
    ensures Backoff(attempts)
            == if attempts <= 1 then 200 else if attempts == 2 then 400 else if attempts == 3 then 800
               else if attempts == 4 then 1600 else 2000
  {
    if attempts > 5 { PowerAtLeast(Min(attempts - 1, 8)); }
  }

  lemma {:induction false} PowerAtLeast(n: nat)
    requires n >= 4
    ensures Pow2(n) >= 16
    decreases n
  {
    if n > 4 { PowerAtLeast(n - 1); }
  }

  // An envelope enqueued at `t` and never answered is due again 200, 600, 1400
  // and 3000 milliseconds later, not one millisecond before, and given up after
  // five seconds.
  lemma UnansweredSchedule(e: Envelope, t: nat)
    ensures var e1, e2, e3 := Entry(e, 1, t + 200), Entry(e, 2, t + 600), Entry(e, 3, t + 1400);
            var e4, e5 := Entry(e, 4, t + 3000), Entry(e, 5, t + 5000);
            && Rescheduled(e1, t + 199) == e1 && Rescheduled(e1, t + 200) == e2
            && Rescheduled(e2, t + 599) == e2 && Rescheduled(e2, t + 600) == e3
            && Rescheduled(e3, t + 1399) == e3 && Rescheduled(e3, t + 1400) == e4
            && Rescheduled(e4, t + 2999) == e4 && Rescheduled(e4, t + 3000) == e5
            && Rescheduled(e5, t + 5000) == e5 && !GiveUp(e5, t + 4999) && GiveUp(e5, t + 5000)
            && !GiveUp(e1, t + 200) && !GiveUp(e2, t + 600) && !GiveUp(e3, t + 1400) && !GiveUp(e4, t + 3000)
  {
    BackoffIs(2);
    BackoffIs(3);
    BackoffIs(4);
    BackoffIs(5);
  }

  // One entry's turn: sent again if due, or dropped and its sender told once
  // it has used all its sends.
  function VisitOne(o: map<U32, Entry>, now: nat, s: U32): map<U32, Entry> {
    if s !in o then o else if GiveUp(o[s], now) then o - {s} else o[s := Rescheduled(o[s], now)]
  }

  function ResolveOne(r: map<U32, SendResult>, o: map<U32, Entry>, now: nat, s: U32): map<U32, SendResult> {
    if s in o && GiveUp(o[s], now) then r[s := TimedOut(RETX_MAX_ATTEMPTS)] else r
  }

  function SendOne(o: map<U32, Entry>, now: nat, s: U32): seq<Envelope> {
    if s in o && Resend(o[s], now) then [o[s].envelope] else []
  }

  // A channel's waiting entries, fired completions and sends after one pass
  // over the numbers below `bound`.
  datatype Pass = Pass(outbound: map<U32, Entry>, resolved: map<U32, SendResult>, out: seq<Envelope>)

  function Visited(o: map<U32, Entry>, r: map<U32, SendResult>, now: nat, bound: U32): Pass {
    if bound == 0 then Pass(o, r, [])
    else Onward(Visited(o, r, now, bound - 1), now, bound - 1)
  }

  // One more number's turn.
  function Onward(p: Pass, now: nat, s: U32): Pass {
    Pass(VisitOne(p.outbound, now, s), ResolveOne(p.resolved, p.outbound, now, s), p.out + SendOne(p.outbound, now, s))
  }

  // A pass touches each number below the bound exactly once: due entries with
  // sends left are rescheduled and sent again, lowest number first; due
  // entries without are dropped and resolved; nothing else changes.
  lemma {:induction false} PassExact(o: map<U32, Entry>, r: map<U32, SendResult>, now: nat, bound: U32)
    requires o.Keys !! r.Keys
    ensures var p := Visited(o, r, now, bound);
            && (forall s :: s in p.outbound <==> s in o && !(s < bound && GiveUp(o[s], now)))
            && (forall s :: s in p.outbound ==> p.outbound[s] == if s < bound then Rescheduled(o[s], now) else o[s])
            && (forall s :: s in p.resolved <==> s in r || (s in o && s < bound && GiveUp(o[s], now)))
            && (forall s :: s in p.resolved ==> p.resolved[s] == if s in r then r[s] else TimedOut(RETX_MAX_ATTEMPTS))
  {
    if bound > 0 { PassExact(o, r, now, bound - 1); }
  }

  // Exactly the due envelopes with sends left go out ...
  lemma {:induction false} PassSends(o: map<U32, Entry>, r: map<U32, SendResult>, now: nat, bound: U32, e: Envelope)
    requires o.Keys !! r.Keys && forall s :: s in o ==> o[s].envelope.number == s
    ensures e in Visited(o, r, now, bound).out
            <==> e.number in o && e.number < bound && Resend(o[e.number], now) && e == o[e.number].envelope
  {
    if bound > 0 {
      PassSends(o, r, now, bound - 1, e);
      PassExact(o, r, now, bound - 1);
    }
  }

  // ... each once, lowest number first.
  lemma {:induction false} PassAscends(o: map<U32, Entry>, r: map<U32, SendResult>, now: nat, bound: U32)
    requires o.Keys !! r.Keys && forall s :: s in o ==> o[s].envelope.number == s
    ensures var out := Visited(o, r, now, bound).out;
            && (forall i :: 0 <= i < |out| ==> out[i].number < bound)
            && (forall i, j :: 0 <= i < j < |out| ==> out[i].number < out[j].number)
  {
    if bound > 0 {
      PassAscends(o, r, now, bound - 1);
      PassExact(o, r, now, bound - 1);
      var p := Visited(o, r, now, bound - 1);
      assert forall e :: e in SendOne(p.outbound, now, bound - 1) ==> e.number == bound - 1;
    }
  }

  // What the window holds after `number` was looked up.
  function Remember(window: seq<U32>, number: U32): seq<U32> {
    if number in window then window
    else (if |window| >= DEDUP_WINDOW then window[1..] else window) + [number]
  }

  function NumbersOf(out: seq<Envelope>): seq<U32> { seq(|out|, i requires 0 <= i < |out| => out[i].number) }

  lemma NumbersAppend(log: seq<U32>, a: seq<Envelope>, b: seq<Envelope>)
    ensures log + NumbersOf(a) + NumbersOf(b) == log + NumbersOf(a + b)
  {
  }

  function Times(log: seq<U32>, s: U32): nat {
    if log == [] then 0 else Times(log[..|log| - 1], s) + if Last(log) == s then 1 else 0
  }

  lemma TimesAppend(log: seq<U32>, x: U32)
    ensures forall s :: Times(log + [x], s) == Times(log, s) + if s == x then 1 else 0
  {
    assert (log + [x])[..|log|] == log;
  }

  // Every number handed out is either waiting or resolved, never both; a
  // waiting envelope was sent as often as its entry says; none ever more
  // than five times.
  ghost predicate Ledger(nextSeq: U32, o: map<U32, Entry>, r: map<U32, SendResult>, sends: seq<U32>) {
    && 1 <= nextSeq && (forall s :: s in o || s in r <==> 1 <= s < nextSeq) && o.Keys !! r.Keys
    && (forall s :: s in o ==> o[s].envelope.number == s && 1 <= o[s].attempts == Times(sends, s))
    && (forall s: U32 :: Times(sends, s) <= RETX_MAX_ATTEMPTS && (s >= nextSeq ==> Times(sends, s) == 0))
  }

  lemma VisitKeepsLedger(
    nextSeq: U32, o: map<U32, Entry>, r: map<U32, SendResult>, sends: seq<U32>, now: nat, s: U32)
    requires Ledger(nextSeq, o, r, sends)
    ensures Ledger(nextSeq, VisitOne(o, now, s), ResolveOne(r, o, now, s), sends + NumbersOf(SendOne(o, now, s)))
  {
    if s in o && Resend(o[s], now) {
      assert NumbersOf(SendOne(o, now, s)) == [s];
      TimesAppend(sends, s);
    } else {
      assert sends + NumbersOf(SendOne(o, now, s)) == sends;
    }
  }

  class ControlChannel {
    var nextSeq: U32
    var outbound: map<U32, Entry>
    var window: seq<U32>
    // Every completion fired so far, and every send made so far.
    var resolved: map<U32, SendResult>
    ghost var sends: seq<U32>

    ghost predicate Valid()
      reads this
    {
      |window| <= DEDUP_WINDOW && Ledger(nextSeq, outbound, resolved, sends)
    }

    constructor ()
      ensures Valid() && nextSeq == 1 && outbound == map[] && resolved == map[] && window == [] && sends == []
    {
      nextSeq, outbound, window, resolved, sends := 1, map[], [], map[], [];
    }

    method Enqueue(bodyType: Byte, body: Bytes, now: nat) returns (e: Envelope)
      requires Valid() && nextSeq < U32_MAX
      modifies this
      ensures Valid() && e == Envelope(old(nextSeq), bodyType, body) && nextSeq == old(nextSeq) + 1
      ensures outbound == old(outbound)[e.number := Entry(e, 1, now + RETX_INITIAL)]
      ensures resolved == old(resolved) && window == old(window)
      ensures sends == old(sends) + [e.number]
    {
      e := Envelope(nextSeq, bodyType, body);
      TimesAppend(sends, nextSeq);
      nextSeq := nextSeq + 1;
      outbound := outbound[e.number := Entry(e, 1, now + RETX_INITIAL)];
      sends := sends + [e.number];
    }

    // The numbers below `s` have had their turn, in a pass that began with
    // entries `o`, completions `r` and send log `log`.
    ghost predicate Midway(o: map<U32, Entry>, r: map<U32, SendResult>, log: seq<U32>, now: nat, s: U32,
                           out: seq<Envelope>)
      reads this
    {
      Valid() && Pass(outbound, resolved, out) == Visited(o, r, now, s) && sends == log + NumbersOf(out)
    }

    method Visit(s: U32, now: nat) returns (out: seq<Envelope>)
      requires Valid()
      modifies this`outbound, this`resolved, this`sends
      ensures Valid() && out == SendOne(old(outbound), now, s)
      ensures outbound == VisitOne(old(outbound), now, s)
      ensures resolved == ResolveOne(old(resolved), old(outbound), now, s)
      ensures sends == old(sends) + NumbersOf(out)
    {
      VisitKeepsLedger(nextSeq, outbound, resolved, sends, now, s);
      out := [];
      if s in outbound {
        var entry := outbound[s];
        if Due(entry, now) {
          if entry.attempts >= RETX_MAX_ATTEMPTS {
            outbound := outbound - {s};
            resolved := resolved[s := TimedOut(RETX_MAX_ATTEMPTS)];
          } else {
            outbound := outbound[s := Rescheduled(entry, now)];
            sends := sends + [s];
            out := [entry.envelope];
          }
        }
      }
    }

    method Turn(ghost o: map<U32, Entry>, ghost r: map<U32, SendResult>, ghost log: seq<U32>, now: nat, s: U32,
                before: seq<Envelope>) returns (out: seq<Envelope>)
      requires Midway(o, r, log, now, s, before) && s < nextSeq
      modifies this`outbound, this`resolved, this`sends
      ensures Midway(o, r, log, now, s + 1, out)
    {
      var sent := Visit(s, now);
      NumbersAppend(log, before, sent);
      out := before + sent;
    }

    // All entries in ascending order.
    method NextDue(now: nat) returns (out: seq<Envelope>)
      requires Valid()
      modifies this`outbound, this`resolved, this`sends
      ensures Valid() && Pass(outbound, resolved, out) == Visited(old(outbound), old(resolved), now, nextSeq)
      ensures sends == old(sends) + NumbersOf(out)
    {
      out := [];
      ghost var o, r, log := outbound, resolved, sends;
      var s: U32 := 0;
      while s < nextSeq
        invariant s <= nextSeq && Midway(o, r, log, now, s, out)
      {
        out := Turn(o, r, log, now, s, out);
        s := s + 1;
      }
    }

    method OnAck(ack: Ack) returns (known: bool)
      requires Valid()
      modifies this`outbound, this`resolved
      ensures Valid() && (known <==> ack.number in old(outbound))
      ensures outbound == old(outbound) - {ack.number}
      ensures resolved == if known then old(resolved)[ack.number := ResultOf(ack.status)] else old(resolved)
      ensures known && ack.status.AckOk? ==> resolved[ack.number] == Acked
      ensures known && ack.status.Reject? ==> resolved[ack.number] == Rejected(ack.status.code)
      ensures known && ack.status.AckUnknown? ==> resolved[ack.number] == UnknownBodyType
    {
      known := ack.number in outbound;
      if known {
        outbound := outbound - {ack.number};
        resolved := resolved[ack.number := ResultOf(ack.status)];
      }
    }

    // Whether to deliver; a duplicate is acknowledged again instead.
    method OnInbound(e: Envelope) returns (deliver: bool)
      requires Valid()
      modifies this`window
      ensures Valid() && (deliver <==> e.number !in old(window)) && window == Remember(old(window), e.number)
    {
      if e.number in window { return false; }
      if |window| == DEDUP_WINDOW { window := window[1..]; }
      window := window + [e.number];
      deliver := true;
    }

    method AbortAll()
      requires Valid()
      modifies this`outbound, this`resolved
      ensures Valid() && outbound == map[]
      ensures resolved == old(resolved) + map s | s in old(outbound) :: ChannelClosed
    {
      resolved := resolved + map s | s in outbound :: ChannelClosed;
      outbound := map[];
    }
  }

  // Two envelopes sent together and not acknowledged in time are both sent
  // again, the older one after the newer: sends need not ascend.
  method ResendAfterNewer(body1: Bytes, body2: Bytes, now: nat) returns (c: ControlChannel)
    ensures fresh(c) && c.sends == [1, 2, 1, 2]
    ensures !NonDescending(c.sends)
  {
    c := new ControlChannel();
    var e1 := c.Enqueue(AsByte(PredicateSetUpdate), body1, now);
    var e2 := c.Enqueue(AsByte(PredicateSetUpdate), body2, now);
    assert c.outbound == map[1 := Entry(e1, 1, now + RETX_INITIAL), 2 := Entry(e2, 1, now + RETX_INITIAL)];
    TwoDue(c.outbound, e1, e2, now + RETX_INITIAL);
    var out := c.NextDue(now + RETX_INITIAL);
    assert c.sends == [1, 2, 1, 2] && c.sends[1] > c.sends[2];
  }

  lemma TwoDue(o: map<U32, Entry>, e1: Envelope, e2: Envelope, now: nat)
    requires o == map[1 := Entry(e1, 1, now), 2 := Entry(e2, 1, now)]
    ensures Visited(o, map[], now, 3).out == [e1, e2]
  {
    assert Visited(o, map[], now, 0) == Pass(o, map[], []) && 0 !in o;
    assert Visited(o, map[], now, 1) == Pass(o, map[], []);
    var v2 := Visited(o, map[], now, 2);
    assert v2.out == [e1] && v2.outbound[2] == o[2];
  }

  // ---- What the receiver hands up ----

  function Window(arrivals: seq<U32>): seq<U32> {
    if arrivals == [] then [] else Remember(Window(arrivals[..|arrivals| - 1]), Last(arrivals))
  }

  // The numbers delivered upward, in order.
  function Delivered(arrivals: seq<U32>): seq<U32> {
    if arrivals == [] then []
    else
      var before := arrivals[..|arrivals| - 1];
      Delivered(before) + if Last(arrivals) in Window(before) then [] else [Last(arrivals)]
  }

  function LastOf(s: seq<U32>, count: nat): seq<U32> { s[SaturatingSub(|s|, count)..] }

  // The window always holds the 256 most recent deliveries.
  lemma {:induction false} WindowIsRecent(arrivals: seq<U32>)
    ensures Window(arrivals) == LastOf(Delivered(arrivals), DEDUP_WINDOW)
    decreases |arrivals|
  {
    if arrivals != [] {
      var before := arrivals[..|arrivals| - 1];
      WindowIsRecent(before);
      RecentAppend(Delivered(before), Last(arrivals));
    }
  }

  lemma RecentAppend(d: seq<U32>, x: U32)
    ensures LastOf(if x in LastOf(d, DEDUP_WINDOW) then d else d + [x], DEDUP_WINDOW)
            == Remember(LastOf(d, DEDUP_WINDOW), x)
  {
  }

  ghost predicate Distinct(s: seq<U32>) { forall i, j :: 0 <= i < j < |s| ==> s[i] != s[j] }

  // The arrivals with repetitions left out.
  function Firsts(arrivals: seq<U32>): (r: seq<U32>)
    ensures forall x :: x in r <==> x in arrivals
  {
    if arrivals == [] then []
    else
      var before := arrivals[..|arrivals| - 1];
      assert arrivals == before + [Last(arrivals)];
      Firsts(before) + if Last(arrivals) in before then [] else [Last(arrivals)]
  }

  // Every repetition comes while its number is among the 256 numbers that
  // arrived last for the first time.
  ghost predicate DuplicatesComeSoon(arrivals: seq<U32>) {
    arrivals == []
    || (var before := arrivals[..|arrivals| - 1];
        && DuplicatesComeSoon(before)
        && (Last(arrivals) in before ==> Last(arrivals) in LastOf(Firsts(before), DEDUP_WINDOW)))
  }

  lemma DistinctAppend(d: seq<U32>, x: U32)
    ensures Distinct(d + [x]) <==> Distinct(d) && x !in d
  {
    var e := d + [x];
    if Distinct(e) {
      assert forall i :: 0 <= i < |d| ==> d[i] == e[i];
      assert e[|d|] == x;
    }
  }

  // At most once, exactly when no duplicate comes 256 new numbers late; and
  // then every number that arrives is delivered, in order of first arrival.
  lemma {:induction false} AtMostOnceIff(arrivals: seq<U32>)
    ensures Distinct(Delivered(arrivals)) <==> DuplicatesComeSoon(arrivals)
    ensures DuplicatesComeSoon(arrivals) ==> Delivered(arrivals) == Firsts(arrivals)
    decreases |arrivals|
  {
    if arrivals != [] {
      var before, x := arrivals[..|arrivals| - 1], Last(arrivals);
      AtMostOnceIff(before);
      WindowIsRecent(before);
      RecentIn(Delivered(before));
      DistinctAppend(Delivered(before), x);
      assert x in Window(before) ==> Delivered(arrivals) == Delivered(before);
    }
  }

  // ---- Order ----

  // What is left of `sends` when only the kept ones get through.
  function Surviving(sends: seq<U32>, kept: seq<bool>): seq<U32>
    requires |kept| == |sends|
  {
    if sends == [] then []
    else
      var n := |sends| - 1;
      Surviving(sends[..n], kept[..n]) + if kept[n] then [sends[n]] else []
  }

  ghost predicate Ascending(s: seq<U32>) { forall i, j :: 0 <= i < j < |s| ==> s[i] < s[j] }

  ghost predicate NonDescending(s: seq<U32>) { forall i, j :: 0 <= i < j < |s| ==> s[i] <= s[j] }

  lemma NonDescendingAppend(s: seq<U32>, x: U32)
    requires NonDescending(s) && forall y :: y in s ==> y <= x
    ensures NonDescending(s + [x])
  {
    assert forall i :: 0 <= i < |s| ==> s[i] in s;
  }

  lemma {:induction false} SurvivingNonDescending(sends: seq<U32>, kept: seq<bool>)
    requires |kept| == |sends| && NonDescending(sends)
    ensures NonDescending(Surviving(sends, kept))
    ensures forall x :: x in Surviving(sends, kept) ==> x in sends
  {
    if sends != [] {
      var n := |sends| - 1;
      var head := Surviving(sends[..n], kept[..n]);
      SurvivingNonDescending(sends[..n], kept[..n]);
      forall x | x in head
        ensures x in sends && x <= sends[n]
      {
        var i :| 0 <= i < n && sends[..n][i] == x;
        assert sends[i] == x;
      }
      NonDescendingAppend(head, sends[n]);
      assert sends[n] in sends;
    }
  }

  lemma AscendingAppend(d: seq<U32>, x: U32)
    requires Ascending(d) && (d != [] ==> Last(d) < x)
    ensures Ascending(d + [x]) && x !in d
  {
  }

  lemma RecentIn(d: seq<U32>)
    ensures forall y :: y in LastOf(d, DEDUP_WINDOW) ==> y in d
    ensures d != [] ==> Last(d) in LastOf(d, DEDUP_WINDOW)
  {
    var w := LastOf(d, DEDUP_WINDOW);
    assert d != [] ==> w[|w| - 1] == Last(d);
  }

  // Arrivals in order leave the last of them as the last delivery.
  lemma {:induction false} DeliveredAscending(arrivals: seq<U32>)
    requires NonDescending(arrivals)
    ensures Ascending(Delivered(arrivals))
    ensures arrivals != [] ==> Delivered(arrivals) != [] && Last(Delivered(arrivals)) == Last(arrivals)
    decreases |arrivals|
  {
    if arrivals != [] {
      var before, x := arrivals[..|arrivals| - 1], Last(arrivals);
      var d, w := Delivered(before), Window(before);
      DeliveredAscending(before);
      WindowIsRecent(before);
      RecentIn(d);
      if before != [] && Last(before) == x {
        assert x in w;
      } else {
        AscendingAppend(d, x);
      }
    }
  }

  // Keeping only positions i and j.
  function Only(count: nat, i: nat, j: nat): seq<bool> { seq(count, t => t == i || t == j) }

  lemma {:induction false} SurvivingNone(sends: seq<U32>, i: nat, j: nat)
    requires |sends| <= i && |sends| <= j
    ensures Surviving(sends, Only(|sends|, i, j)) == []
  {
    if sends != [] {
      var n := |sends| - 1;
      assert Only(|sends|, i, j)[..n] == Only(n, i, j);
      SurvivingNone(sends[..n], i, j);
    }
  }

  lemma {:induction false} SurvivingOnly(sends: seq<U32>, i: nat, j: nat)
    requires i < |sends| && i < j
    ensures Surviving(sends, Only(|sends|, i, j)) == [sends[i]] + if j < |sends| then [sends[j]] else []
  {
    var n := |sends| - 1;
    assert Only(|sends|, i, j)[..n] == Only(n, i, j);
    if n == i { SurvivingNone(sends[..n], i, j); } else { SurvivingOnly(sends[..n], i, j); }
  }

  lemma DeliveredPair(a: U32, b: U32)
    requires a != b
    ensures Delivered([a, b]) == [a, b]
  {
    assert [a, b][..1] == [a];
    assert Window([a]) == [a] by { assert [a][..0] == []; }
    assert Delivered([a]) == [a] by { assert [a][..0] == []; }
  }

  // Deliveries are in order under every loss pattern exactly when nothing was
  // ever sent again after something newer: this layer does not restore order.
  lemma InOrderIff(sends: seq<U32>)
    ensures NonDescending(sends)
            <==> forall kept: seq<bool> :: |kept| == |sends| ==> Ascending(Delivered(Surviving(sends, kept)))
  {
    if NonDescending(sends) {
      forall kept: seq<bool> | |kept| == |sends|
        ensures Ascending(Delivered(Surviving(sends, kept)))
      {
        SurvivingNonDescending(sends, kept);
        DeliveredAscending(Surviving(sends, kept));
      }
    } else {
      var i, j :| 0 <= i < j < |sends| && sends[i] > sends[j];
      SurvivingOnly(sends, i, j);
      DeliveredPair(sends[i], sends[j]);
      assert !Ascending([sends[i], sends[j]]) by { assert [sends[i], sends[j]][0] > [sends[i], sends[j]][1]; }
      assert |Only(|sends|, i, j)| == |sends|;
    }
  }

  // ---- Acknowledgements ----

  // What arrives at the receiver: a send of the envelope in question, whose
  // answer the sender gets or not, or another envelope.
  datatype Event = Mine(answered: bool) | Other(number: U32)

  function Numbers(number: U32, events: seq<Event>): seq<U32> {
    seq(|events|, i requires 0 <= i < |events| => if events[i].Mine? then number else events[i].number)
  }

  // What the sender is told first, if anything. The receiver answers Ok when
  // the number is in its window and otherwise dispatches, with this verdict.
  function Told(verdict: AckStatus, number: U32, events: seq<Event>): Option<AckStatus> {
    if events == [] then None
    else
      var before := events[..|events| - 1];
      if Told(verdict, number, before).Some? then Told(verdict, number, before)
      else if Last(events) != Mine(true) then None
      else Some(if number in Window(Numbers(number, before)) then AckOk else verdict)
  }

  // What arrived before the first answer that reached the sender.
  function Unanswered(events: seq<Event>): (r: seq<Event>)
    ensures Mine(true) !in r && r <= events && (r < events ==> events[|r|] == Mine(true))
  {
    if events == [] then []
    else
      var r := Unanswered(events[..|events| - 1]);
      if |r| < |events| - 1 || Last(events) == Mine(true) then r else events
  }

  lemma {:induction false} ToldIs(verdict: AckStatus, number: U32, events: seq<Event>)
    ensures Told(verdict, number, events)
            == if Unanswered(events) == events then None
               else Some(if number in Window(Numbers(number, Unanswered(events))) then AckOk else verdict)
    decreases |events|
  {
    if events != [] {
      var before := events[..|events| - 1];
      ToldIs(verdict, number, before);
      assert |Unanswered(before)| < |before| <==> Unanswered(before) != before;
    }
  }

  // A sender that hears anything hears the dispatcher's verdict exactly when
  // the verdict was Ok or the send it hears about was not taken for a
  // duplicate: its number had never come or had left the window.
  lemma VerdictReportedIff(verdict: AckStatus, number: U32, events: seq<Event>)
    requires Told(verdict, number, events).Some?
    ensures Told(verdict, number, events).value == verdict
            <==> verdict.AckOk? || number !in LastOf(Delivered(Numbers(number, Unanswered(events))), DEDUP_WINDOW)
  {
    ToldIs(verdict, number, events);
    WindowIsRecent(Numbers(number, Unanswered(events)));
  }

  lemma MineAmong(number: U32, events: seq<Event>)
    requires Other(number) !in events && Mine(true) !in events
    ensures number in Numbers(number, events) <==> Mine(false) in events
  {
    var ns := Numbers(number, events);
    if number in ns {
      var i :| 0 <= i < |ns| && ns[i] == number;
      assert events[i] in events;
    }
    if Mine(false) in events {
      var i :| 0 <= i < |events| && events[i] == Mine(false);
      assert ns[i] == number;
    }
  }

  // While duplicates come soon, the sender hears the verdict exactly when it
  // was Ok or no earlier send had arrived: a refusal whose answer is lost is
  // reported as success.
  lemma RefusalLostIff(verdict: AckStatus, number: U32, events: seq<Event>)
    requires Told(verdict, number, events).Some? && Other(number) !in events
    requires DuplicatesComeSoon(Numbers(number, Unanswered(events)) + [number])
    ensures Told(verdict, number, events).value == verdict <==> verdict.AckOk? || Mine(false) !in Unanswered(events)
  {
    var u := Unanswered(events);
    var ns := Numbers(number, u);
    assert (ns + [number])[..|ns|] == ns;
    assert forall i :: 0 <= i < |u| ==> u[i] in events;
    VerdictReportedIff(verdict, number, events);
    AtMostOnceIff(ns);
    RecentIn(Firsts(ns));
    MineAmong(number, u);
  }

  // One lost answer is enough.
  lemma RefusalLost(code: U16, number: U32)
    ensures Told(Reject(code), number, [Mine(false), Mine(true)]) == Some(AckOk)
  {
    var one, two := [Mine(false)], [Mine(false), Mine(true)];
    assert two[..1] == one && one[..0] == [];
    assert Told(Reject(code), number, one) == None;
    assert Numbers(number, one) == [number] && [number][..0] == [];
    assert number in Window([number]);
    assert Last(two) == Mine(true);
  }

  lemma {:induction false} DistinctAreDelivered(arrivals: seq<U32>)
    requires Distinct(arrivals)
    ensures Delivered(arrivals) == arrivals
    decreases |arrivals|
  {
    if arrivals != [] {
      var before, x := arrivals[..|arrivals| - 1], Last(arrivals);
      assert arrivals == before + [x];
      DistinctAppend(before, x);
      DistinctAreDelivered(before);
      WindowIsRecent(before);
      RecentIn(before);
    }
  }

  lemma {:induction false} NoneAnswered(events: seq<Event>)
    requires Mine(true) !in events
    ensures Unanswered(events) == events
    decreases |events|
  {
    if events != [] { NoneAnswered(events[..|events| - 1]); }
  }

  lemma ToldAtEnd(verdict: AckStatus, number: U32, lost: seq<Event>)
    requires Mine(true) !in lost
    ensures Told(verdict, number, lost + [Mine(true)])
            == Some(if number in Window(Numbers(number, lost)) then AckOk else verdict)
  {
    assert (lost + [Mine(true)])[..|lost|] == lost && Last(lost + [Mine(true)]) == Mine(true);
    NoneAnswered(lost);
    ToldIs(verdict, number, lost);
  }

  function Others(numbers: seq<U32>): (r: seq<Event>)
    ensures Mine(true) !in r
  {
    seq(|numbers|, i requires 0 <= i < |numbers| => Other(numbers[i]))
  }

  // After 255 other deliveries the number is still remembered ...
  lemma DuplicateAtTheEdge(code: U16, number: U32, others: seq<U32>)
    requires Distinct([number] + others) && |others| == 255
    ensures Told(Reject(code), number, [Mine(false)] + Others(others) + [Mine(true)]) == Some(AckOk)
  {
    var lost, all := [Mine(false)] + Others(others), [number] + others;
    ToldAtEnd(Reject(code), number, lost);
    assert Numbers(number, lost) == all;
    DistinctAreDelivered(all);
    WindowIsRecent(all);
    assert LastOf(all, DEDUP_WINDOW) == all && all[0] == number;
  }

  // ... and after 256 the same refusal is reported again.
  lemma LateDuplicateIsRefusedAgain(code: U16, number: U32, others: seq<U32>)
    requires Distinct([number] + others) && |others| == 256
    ensures Told(Reject(code), number, [Mine(false)] + Others(others) + [Mine(true)]) == Some(Reject(code))
  {
    var lost, all := [Mine(false)] + Others(others), [number] + others;
    ToldAtEnd(Reject(code), number, lost);
    assert Numbers(number, lost) == all;
    DistinctAreDelivered(all);
    WindowIsRecent(all);
    assert LastOf(all, DEDUP_WINDOW) == others;
    assert forall i :: 0 <= i < |others| ==> all[i + 1] == others[i] && all[0] != all[i + 1];
  }
}
