// The canary reply on the wire, how large it can get, and how long a walk can
// get before it has to be cut.
module Canary {
  import opened Prelude
  import opened Postcard
  import opened ChainWalk
  import Utf8

  datatype CanaryInfo = CanaryInfo(
    pubkey: PubKey, name: Option<string>, mode: Mode, rulePresent: bool, echoArmed: bool)

  const CANARY_REPLY_MAX_WIRE_BYTES := 4 * 1024
  const SERVER_NAME_MAX_BYTES := 32

  function EncodeHop(h: Hop<CanaryInfo>): Bytes {
    EncodeVarint(h.index) + EncodeKey(h.info.pubkey) + EncodeOptionString(h.info.name) + [ModeTag(h.info.mode)]
    + EncodeBool(h.info.rulePresent) + EncodeBool(h.info.echoArmed) + EncodeOptionU64(h.rtt)
  }

  function EncodeReply(queryId: U32, r: Reply<CanaryInfo>): Bytes {
    EncodeVarint(queryId) + EncodeVarint(|r.hops|) + EncodeList(EncodeHop, r.hops) + EncodeBool(r.partial)
    + EncodeOptionString(r.error)
  }

  ghost predicate TextFits(s: Option<string>, limit: nat) { s.Some? ==> |Utf8.Encode(s.value)| <= limit }

  const ERROR_MAX_BYTES := 200

  lemma TextSize(s: Option<string>, limit: nat)
    requires TextFits(s, limit) && limit < 0x4000
    ensures |EncodeOptionString(s)| <= 1 + (if limit < 0x80 then 1 else 2) + limit
  {
    if s.Some? {
      var n := |Utf8.Encode(s.value)|;
      assert |EncodeVarint(n)| <= if limit < 0x80 then 1 else 2;
    }
  }

  // ---- Decoding ----

  function TakeMode(b: Bytes): Parsed<Mode> {
    var (tag, rest) :- TakeU32(b);
    if tag == 0 then Got(Gateway, rest)
    else if tag == 1 then Got(Relay, rest)
    else if tag == 2 then Got(Terminal, rest)
    else Fail
  }

  function TakeOptionString(b: Bytes): Parsed<Option<string>> {
    var (present, rest) :- TakeBool(b);
    if present then
      var (s, rest') :- TakeString(rest);
      Got(Some(s), rest')
    else Got(None, rest)
  }

  function TakeHop(b: Bytes): Parsed<Hop<CanaryInfo>> {
    var (index, b1) :- TakeU32(b);
    var (key, b2) :- TakeKey(b1);
    var (name, b3) :- TakeOptionString(b2);
    var (mode, b4) :- TakeMode(b3);
    var (present, b5) :- TakeBool(b4);
    var (armed, b6) :- TakeBool(b5);
    var (rtt, b7) :- TakeOptionU64(b6);
    Got(Hop(CanaryInfo(key, name, mode, present, armed), index, rtt), b7)
  }

  function TakeReply(b: Bytes): Parsed<(U32, Reply<CanaryInfo>)> {
    var (queryId, b1) :- TakeU32(b);
    var (count, b2) :- TakeU64(b1);
    var (hops, b3) :- TakeList(TakeHop, b2, count);
    var (partial, b4) :- TakeBool(b3);
    var (error, b5) :- TakeOptionString(b4);
    Got((queryId, Reply(hops, partial, error)), b5)
  }

  ghost predicate Sendable(s: Option<string>) { s.Some? ==> |Utf8.Encode(s.value)| <= U64_MAX }

  lemma ModeRoundTrip(m: Mode, rest: Bytes)
    ensures TakeMode([ModeTag(m)] + rest) == Got(m, rest)
  {
    assert EncodeVarint(ModeTag(m)) == [ModeTag(m)];
    U32RoundTrip(ModeTag(m), rest);
  }

  lemma OptionStringRoundTrip(s: Option<string>, rest: Bytes)
    requires Sendable(s)
    ensures TakeOptionString(EncodeOptionString(s) + rest) == Got(s, rest)
  {
    match s
    case None =>
      assert EncodeOptionString(s) + rest == EncodeBool(false) + rest;
      BoolRoundTrip(false, rest);
    case Some(t) =>
      assert EncodeOptionString(s) + rest == EncodeBool(true) + (EncodeString(t) + rest);
      BoolRoundTrip(true, EncodeString(t) + rest);
      StringRoundTrip(t, rest);
  }

  lemma Regroup7(a: Bytes, b: Bytes, c: Bytes, d: Bytes, e: Bytes, f: Bytes, g: Bytes, rest: Bytes)
    ensures a + b + c + d + e + f + g + rest == a + (b + (c + (d + (e + (f + (g + rest))))))
  {
  }

  lemma HopRoundTrip(h: Hop<CanaryInfo>, rest: Bytes)
    requires Sendable(h.info.name)
    ensures TakeHop(EncodeHop(h) + rest) == Got(h, rest)
  {
    var i := h.info;
    var b6 := EncodeOptionU64(h.rtt) + rest;
    var b5 := EncodeBool(i.echoArmed) + b6;
    var b4 := EncodeBool(i.rulePresent) + b5;
    var b3 := [ModeTag(i.mode)] + b4;
    var b2 := EncodeOptionString(i.name) + b3;
    var b1 := EncodeKey(i.pubkey) + b2;
    Regroup7(
      EncodeVarint(h.index), EncodeKey(i.pubkey), EncodeOptionString(i.name), [ModeTag(i.mode)],
      EncodeBool(i.rulePresent), EncodeBool(i.echoArmed), EncodeOptionU64(h.rtt), rest);
    U32RoundTrip(h.index, b1);
    KeyRoundTrip(i.pubkey, b2);
    OptionStringRoundTrip(i.name, b3);
    ModeRoundTrip(i.mode, b4);
    BoolRoundTrip(i.rulePresent, b5);
    BoolRoundTrip(i.echoArmed, b6);
    OptionU64RoundTrip(h.rtt, rest);
  }

  lemma HopsRoundTrip(hops: seq<Hop<CanaryInfo>>, rest: Bytes)
    requires forall k :: 0 <= k < |hops| ==> Sendable(hops[k].info.name)
    ensures TakeList(TakeHop, EncodeList(EncodeHop, hops) + rest, |hops|) == Got(hops, rest)
  {
    forall h, tail | h in hops
      ensures TakeHop(EncodeHop(h) + tail) == Got(h, tail)
    {
      HopRoundTrip(h, tail);
    }
    ListRoundTrip(EncodeHop, TakeHop, hops, rest);
  }

  lemma Regroup5(a: Bytes, b: Bytes, c: Bytes, d: Bytes, e: Bytes)
    ensures a + b + c + d + e == a + (b + (c + (d + (e + []))))
  {
  }

  // Whoever asked reads back the query id, every hop with every field, and why
  // the walk stopped.
  lemma ReplyRoundTrip(queryId: U32, r: Reply<CanaryInfo>)
    requires |r.hops| <= U64_MAX && Sendable(r.error)
    requires forall k :: 0 <= k < |r.hops| ==> Sendable(r.hops[k].info.name)
    ensures TakeReply(EncodeReply(queryId, r)) == Got((queryId, r), [])
  {
    var b4 := EncodeOptionString(r.error) + [];
    var b3 := EncodeBool(r.partial) + b4;
    var b2 := EncodeList(EncodeHop, r.hops) + b3;
    var b1 := EncodeVarint(|r.hops|) + b2;
    Regroup5(
      EncodeVarint(queryId), EncodeVarint(|r.hops|), EncodeList(EncodeHop, r.hops), EncodeBool(r.partial),
      EncodeOptionString(r.error));
    U32RoundTrip(queryId, b1);
    U64RoundTrip(|r.hops|, b2);
    HopsRoundTrip(r.hops, b3);
    BoolRoundTrip(r.partial, b4);
    OptionStringRoundTrip(r.error, []);
  }

  // ---- Sizes ----

  // What a hop takes beside its number.
  const HOP_MIN_BYTES := 38
  const HOP_MAX_BYTES := 81

  lemma HopSize(h: Hop<CanaryInfo>)
    requires TextFits(h.info.name, SERVER_NAME_MAX_BYTES)
    ensures |EncodeHop(h)| <= HOP_MAX_BYTES + |EncodeVarint(h.index)| <= 86
  {
    U32RoundTrip(h.index, []);
    TextSize(h.info.name, SERVER_NAME_MAX_BYTES);
    if h.rtt.Some? { U64RoundTrip(h.rtt.value, []); }
  }

  lemma {:induction false} LongVarint(n: nat, width: nat)
    requires width > 0 && n >= VarintLimit(width, 0x7F)
    ensures |EncodeVarint(n)| > width
  {
    if width > 1 { LongVarint(n / 0x80, width - 1); }
  }

  // No smaller bound would do, whatever the number: a 32-byte name and a
  // ten-byte round trip take all of it.
  lemma HopSizeIsTight(h: Hop<CanaryInfo>)
    requires h.info.name.Some? && |Utf8.Encode(h.info.name.value)| == SERVER_NAME_MAX_BYTES
    requires h.rtt.Some? && h.rtt.value >= VarintLimit(9, 0x7F)
    ensures |EncodeHop(h)| == HOP_MAX_BYTES + |EncodeVarint(h.index)|
  {
    HopSize(h);
    LongVarint(h.rtt.value, 9);
  }

  lemma SmallestHop(h: Hop<CanaryInfo>)
    ensures |EncodeHop(h)| >= HOP_MIN_BYTES + |EncodeVarint(h.index)| + if h.rtt.Some? then 1 else 0
    ensures h.info.name.None? && (h.rtt.Some? ==> h.rtt.value < 0x80)
            ==> |EncodeHop(h)| == HOP_MIN_BYTES + |EncodeVarint(h.index)| + if h.rtt.Some? then 1 else 0
  {
  }

  // A reply is at most 210 bytes more than its hops.
  lemma ReplySize(queryId: U32, r: Reply<CanaryInfo>, most: nat)
    requires |r.hops| < 0x80 && TextFits(r.error, ERROR_MAX_BYTES)
    requires forall k :: 0 <= k < |r.hops| ==> |EncodeHop(r.hops[k])| <= most
    ensures |EncodeReply(queryId, r)| <= 210 + most * |r.hops|
  {
    U32RoundTrip(queryId, []);
    assert |EncodeVarint(|r.hops|)| == 1;
    ListAtMost(EncodeHop, r.hops, most);
    TextSize(r.error, ERROR_MAX_BYTES);
  }

  // ---- The walk ----

  // A world whose replies are measured with the real encoding, with whatever
  // query id each link carries ...
  ghost predicate Measured(w: World<CanaryInfo>, queryId: nat -> U32) {
    w.cap == CANARY_REPLY_MAX_WIRE_BYTES && forall depth, r :: w.size(depth, r) == |EncodeReply(queryId(depth), r)|
  }

  // ... and whose texts are bounded.
  ghost predicate CanaryWorld(w: World<CanaryInfo>, queryId: nat -> U32) {
    && Measured(w, queryId) && ShortTexts(w.texts)
    && (forall id, depth :: w.info(id, depth).Some? ==> NameFits(w.info(id, depth).value))
    && (forall depth :: w.link(depth).Undelivered? ==> ErrorFits(w.link(depth).reason))
  }

  predicate ShortTexts(t: Texts) {
    |t.noIntrospection| <= 50 && |t.depthExhausted| <= 50 && |t.deadlineExhausted| <= 50 && |t.oversize| <= 50
  }

  predicate NameFits(i: CanaryInfo) { i.name.Some? ==> |Utf8.Encode(i.name.value)| <= SERVER_NAME_MAX_BYTES }

  predicate ErrorFits(e: string) { |Utf8.Encode(e)| <= ERROR_MAX_BYTES }

  lemma {:induction false} TextLength(s: string)
    ensures |Utf8.Encode(s)| <= 4 * |s|
  {
    if s != [] { TextLength(s[1..]); }
  }

  lemma ShortTextFits(s: string)
    requires |s| <= 50
    ensures ErrorFits(s)
  {
    TextLength(s);
  }

  lemma ShortTextsFit(t: Texts)
    requires ShortTexts(t)
    ensures ErrorFits(t.noIntrospection) && ErrorFits(t.depthExhausted)
    ensures ErrorFits(t.deadlineExhausted) && ErrorFits(t.oversize)
  {
    ShortTextFits(t.noIntrospection);
    ShortTextFits(t.depthExhausted);
    ShortTextFits(t.deadlineExhausted);
    ShortTextFits(t.oversize);
  }

  lemma HandlerTextsAreShort()
    ensures ShortTexts(CANARY_TEXTS)
  {
  }

  // So many hops always fit: their numbers take one byte.
  const SAFE_HOPS := 47

  lemma NumberedHopSize(w: World<CanaryInfo>, queryId: nat -> U32, id: nat, depth: nat, k: nat, h: Hop<CanaryInfo>)
    requires CanaryWorld(w, queryId) && IsHopAt(w, id, depth, k, h) && k < SAFE_HOPS
    ensures |EncodeHop(h)| <= HOP_MAX_BYTES + 1
  {
    HopSize(h);
    assert |EncodeVarint(h.index)| == 1;
  }

  lemma AssembledSize(
    w: World<CanaryInfo>, queryId: nat -> U32, id: nat, depth: nat, budget: U32, deadline: U32)
    requires CanaryWorld(w, queryId) && w.info(id, depth).Some? && Within(w, id, budget, deadline, SAFE_HOPS)
    ensures w.size(depth, Assembled(w, id, depth, budget, deadline)) < CANARY_REPLY_MAX_WIRE_BYTES
  {
    var r := Assembled(w, id, depth, budget, deadline);
    ShortTextsFit(w.texts);
    ErrorsSatisfy(w, ErrorFits, id, depth, budget, deadline);
    AssembledHops(w, id, depth, budget, deadline, SAFE_HOPS);
    forall k | 0 <= k < |r.hops|
      ensures |EncodeHop(r.hops[k])| <= HOP_MAX_BYTES + 1
    {
      NumberedHopSize(w, queryId, id, depth, k, r.hops[k]);
    }
    ReplySize(queryId(depth), r, HOP_MAX_BYTES + 1);
  }

  // As long as limits or path allow for at most 47 hops, the default limits
  // included, no node ever cuts a canary reply, and every reply is within the cap.
  lemma CanaryNeverTruncates(
    w: World<CanaryInfo>, queryId: nat -> U32, id: nat, depth: nat, budget: U32, deadline: U32)
    requires CanaryWorld(w, queryId) && Within(w, id, budget, deadline, SAFE_HOPS)
    ensures w.info(id, depth).Some?
            ==> Walk(w, id, depth, budget, deadline) == Assembled(w, id, depth, budget, deadline)
    ensures w.size(depth, Walk(w, id, depth, budget, deadline)) < CANARY_REPLY_MAX_WIRE_BYTES
  {
    if w.info(id, depth).Some? {
      AssembledSize(w, queryId, id, depth, budget, deadline);
    } else {
      ShortTextFits(w.texts.noIntrospection);
      ReplySize(queryId(depth), Walk(w, id, depth, budget, deadline), 0);
    }
  }

  // ---- Healthy chains ----

  lemma HealthyCanaryIsClear(
    w: World<CanaryInfo>, queryId: nat -> U32, id: nat, depth: nat, budget: U32, deadline: U32)
    requires CanaryWorld(w, queryId) && Healthy(w) && Within(w, id, budget, deadline, SAFE_HOPS)
    ensures Clear(w, id, depth, budget, deadline)
  {
    forall i, d, b: U32, e: U32 | Within(w, i, b, e, SAFE_HOPS)
      ensures w.size(d, Assembled(w, i, d, b, e)) <= w.cap
    {
      AssembledSize(w, queryId, i, d, b, e);
    }
    HealthyIsClear(w, id, depth, budget, deadline, SAFE_HOPS);
  }

  // Where every node answers and every link delivers, hop numbers are
  // positions exactly when limits or path allow for at most two hops.
  lemma HealthyNumbersPositionsIff(
    w: World<CanaryInfo>, queryId: nat -> U32, id: nat, depth: nat, budget: U32, deadline: U32)
    requires CanaryWorld(w, queryId) && Healthy(w) && Within(w, id, budget, deadline, SAFE_HOPS)
    ensures var hops := Walk(w, id, depth, budget, deadline).hops;
            (forall k :: 0 <= k < |hops| ==> hops[k].index == k) <==> Within(w, id, budget, deadline, 2)
  {
    HealthyCanaryIsClear(w, queryId, id, depth, budget, deadline);
    ClearNumbersPositionsIff(w, id, depth, budget, deadline);
  }

  // On a path without a top the walk has exactly as many hops as the asker's
  // limits allow: no node has a ceiling of its own.
  lemma NoCeiling(w: World<CanaryInfo>, queryId: nat -> U32, id: nat, depth: nat, budget: U32, deadline: U32)
    requires CanaryWorld(w, queryId) && Healthy(w) && forall i :: w.upstream(i).Some?
    requires HopLimit(budget, deadline) <= SAFE_HOPS
    ensures |Walk(w, id, depth, budget, deadline).hops| == HopLimit(budget, deadline)
  {
    HealthyCanaryIsClear(w, queryId, id, depth, budget, deadline);
    EndlessWalk(w, id, depth, budget, deadline);
  }

  // A healthy world of any shape, measured with the real encoding.
  function Chained(
    upstream: nat -> Option<nat>, infos: nat -> CanaryInfo, rtt: U64, queryId: nat -> U32): World<CanaryInfo>
  {
    World(
      upstream, (id, _) => Some(infos(id)), _ => Delivered(rtt), (depth, r) => |EncodeReply(queryId(depth), r)|,
      CANARY_REPLY_MAX_WIRE_BYTES, CANARY_TEXTS)
  }

  lemma ChainedIsCanaryWorld(
    upstream: nat -> Option<nat>, infos: nat -> CanaryInfo, rtt: U64, queryId: nat -> U32)
    requires forall id :: NameFits(infos(id))
    ensures CanaryWorld(Chained(upstream, infos, rtt, queryId), queryId)
    ensures Healthy(Chained(upstream, infos, rtt, queryId))
  {
    HandlerTextsAreShort();
  }

  // Nodes 0 to n - 1 in a row.
  function Row(n: nat): nat -> Option<nat> { id => if id + 1 < n then Some(id + 1) else None }

  lemma {:induction false} RowAbove<T>(w: World<T>, n: nat, id: nat, k: nat)
    requires w.upstream == Row(n) && id < n
    ensures Above(w, id, k) == if id + k < n then Some(id + k) else None
    decreases k
  {
    if k > 0 && id + 1 < n { RowAbove(w, n, id + 1, k - 1); }
  }

  // Three nodes in a row, whoever they are, are numbered 0, 1, 3; and a budget
  // of two reaches two of them.
  lemma ThreeNodesAreMisnumbered(infos: nat -> CanaryInfo, rtt: U64, queryId: nat -> U32)
    requires forall id :: NameFits(infos(id))
    ensures var r := Walk(Chained(Row(3), infos, rtt, queryId), 0, 0, 16, 5000);
            |r.hops| == 3 && r.hops[0].index == 0 && r.hops[1].index == 1 && r.hops[2].index == 3 && !r.partial
    ensures var r := Walk(Chained(Row(3), infos, rtt, queryId), 0, 0, 2, 5000); |r.hops| == 2 && r.partial
  {
    var w := Chained(Row(3), infos, rtt, queryId);
    ChainedIsCanaryWorld(Row(3), infos, rtt, queryId);
    ThreeHops(w, queryId, 16);
    ThreeHops(w, queryId, 2);
    IndexIsPositionIff(w, 0, 0, 16, 5000);
  }

  lemma ThreeHops(w: World<CanaryInfo>, queryId: nat -> U32, budget: U32)
    requires CanaryWorld(w, queryId) && Healthy(w) && w.upstream == Row(3) && 0 < budget <= 16
    ensures var r := Walk(w, 0, 0, budget, 5000); |r.hops| == Min(budget, 3) && (r.partial <==> budget < 3)
  {
    HealthyCanaryIsClear(w, queryId, 0, 0, budget, 5000);
    ClearWalk(w, 0, 0, budget, 5000);
    var n := |Walk(w, 0, 0, budget, 5000).hops|;
    RowAbove(w, 3, 0, n);
    RowAbove(w, 3, 0, n - 1);
  }

  // Two nodes that are each other's upstream: a walk passes sixteen hops.
  function Cycle(): nat -> Option<nat> { id => Some(if id == 0 then 1 else 0) }

  lemma CyclePassesSixteen(infos: nat -> CanaryInfo, rtt: U64, queryId: nat -> U32)
    requires forall id :: NameFits(infos(id))
    ensures |Walk(Chained(Cycle(), infos, rtt, queryId), 0, 0, 40, 10_000).hops| == 40
  {
    CycleWalk(infos, rtt, queryId, 40, 10_000);
  }

  lemma CycleWalk(infos: nat -> CanaryInfo, rtt: U64, queryId: nat -> U32, budget: U32, deadline: U32)
    requires (forall id :: NameFits(infos(id))) && HopLimit(budget, deadline) <= SAFE_HOPS
    ensures |Walk(Chained(Cycle(), infos, rtt, queryId), 0, 0, budget, deadline).hops| == HopLimit(budget, deadline)
  {
    ChainedIsCanaryWorld(Cycle(), infos, rtt, queryId);
    NoCeiling(Chained(Cycle(), infos, rtt, queryId), queryId, 0, 0, budget, deadline);
  }

  // Each forward costs 250 milliseconds: five seconds pay for twenty hops, and
  // one millisecond more for the next.
  lemma FiveSecondsPayForTwenty(infos: nat -> CanaryInfo, rtt: U64, queryId: nat -> U32)
    requires forall id :: NameFits(infos(id))
    ensures |Walk(Chained(Cycle(), infos, rtt, queryId), 0, 0, 100, 5000).hops| == 20
    ensures |Walk(Chained(Cycle(), infos, rtt, queryId), 0, 0, 100, 5001).hops| == 21
  {
    CycleWalk(infos, rtt, queryId, 100, 5000);
    CycleWalk(infos, rtt, queryId, 100, 5001);
  }

  // ---- How long a canary reply can get ----

  // The smallest hop at position k: untimed, timed, and with a two-byte number.
  function Smallest(k: nat): nat { if k == 0 then 39 else if k <= 64 then 40 else 41 }

  lemma SmallestNumberedHop(w: World<CanaryInfo>, id: nat, depth: nat, k: nat, h: Hop<CanaryInfo>)
    requires IsHopAt(w, id, depth, k, h) && k < 0x8000_0000
    ensures |EncodeHop(h)| >= Smallest(k)
  {
    SmallestHop(h);
    if k > 64 { LongVarint(h.index, 1); }
  }

  lemma StepsAtLeast<T>(encode: T -> Bytes, xs: seq<T>)
    requires |xs| >= 65 && forall k :: 0 <= k < |xs| ==> |encode(xs[k])| >= Smallest(k)
    ensures |EncodeList(encode, xs)| >= 39 + 40 * 64 + 41 * (|xs| - 65)
  {
    var front := xs[..65];
    ListSplit(encode, xs, 65);
    ListSplit(encode, front, 1);
    ListAtLeast(encode, front[..1], 39);
    ListAtLeast(encode, front[1..], 40);
    ListAtLeast(encode, xs[65..], 41);
  }

  lemma StepsAtMost<T>(encode: T -> Bytes, xs: seq<T>)
    requires forall k :: 0 <= k < |xs| ==> |encode(xs[k])| <= Smallest(k)
    ensures |EncodeList(encode, xs)| <= 40 * |xs| + SaturatingSub(|xs|, 65)
  {
    var m := Min(|xs|, 65);
    ListSplit(encode, xs, m);
    ListAtMost(encode, xs[..m], 40);
    ListAtMost(encode, xs[m..], 41);
  }

  lemma SmallestLongList(w: World<CanaryInfo>, id: nat, depth: nat, hops: seq<Hop<CanaryInfo>>)
    requires FollowsPath(w, id, depth, hops) && 65 <= |hops| < 0x8000_0000
    ensures |EncodeList(EncodeHop, hops)| >= 39 + 40 * 64 + 41 * (|hops| - 65)
  {
    forall k | 0 <= k < |hops|
      ensures |EncodeHop(hops[k])| >= Smallest(k)
    {
      SmallestNumberedHop(w, id, depth, k, hops[k]);
    }
    StepsAtLeast(EncodeHop, hops);
  }

  // The reply cap ends every canary walk at 101 hops, whatever is asked for.
  lemma AtMost101Hops(w: World<CanaryInfo>, queryId: nat -> U32, id: nat, depth: nat, budget: U32, deadline: U32)
    requires Measured(w, queryId)
    ensures |Walk(w, id, depth, budget, deadline).hops| <= 101
  {
    var r := Walk(w, id, depth, budget, deadline);
    WalkIsBounded(w, id, depth, budget, deadline);
    WalkFollowsPath(w, id, depth, budget, deadline);
    if |r.hops| >= 65 { SmallestLongList(w, id, depth, r.hops); }
  }

  // Nodes without a name behind fast links and small query ids.
  ghost predicate Slim(w: World<CanaryInfo>, queryId: nat -> U32) {
    && Measured(w, queryId) && Healthy(w) && (forall depth :: queryId(depth) < 0x80)
    && (forall id, depth :: w.info(id, depth).value.name.None?)
    && (forall depth :: w.link(depth).rtt < 0x80)
  }

  lemma SlimHop(w: World<CanaryInfo>, queryId: nat -> U32, id: nat, depth: nat, k: nat)
    requires Slim(w, queryId) && Above(w, id, k).Some? && k <= 100
    ensures |EncodeHop(HopAt(w, id, depth, k))| <= Smallest(k)
  {
    var h := HopAt(w, id, depth, k);
    SmallestHop(h);
    if k > 64 { assert |EncodeVarint(h.index / 0x80)| == 1; }
  }

  lemma SlimWholeFits(w: World<CanaryInfo>, queryId: nat -> U32, id: nat, depth: nat, h: nat)
    requires Slim(w, queryId) && Answering(w, id, depth, h) && h <= 100
    ensures w.size(depth, Whole(w, id, depth, h)) <= w.cap
  {
    var hops := Whole(w, id, depth, h).hops;
    forall k | 0 <= k < |hops|
      ensures |EncodeHop(hops[k])| <= Smallest(k)
    {
      AnsweringAt(w, id, depth, h, k);
      SlimHop(w, queryId, id, depth, k);
    }
    StepsAtMost(EncodeHop, hops);
    assert |EncodeVarint(|hops|)| == 1;
  }

  lemma {:induction false} SlimFitting(w: World<CanaryInfo>, queryId: nat -> U32, id: nat, depth: nat, h: nat)
    requires Slim(w, queryId) && Answering(w, id, depth, h) && h <= 100
    ensures Fitting(w, id, depth, h)
    decreases h
  {
    SlimWholeFits(w, queryId, id, depth, h);
    if h > 0 { SlimFitting(w, queryId, w.upstream(id).value, depth + 1, h - 1); }
  }

  lemma {:induction false} RowAnswers<T>(w: World<T>, n: nat, id: nat, depth: nat, h: nat)
    requires Healthy(w) && w.upstream == Row(n) && id + h < n
    ensures Answering(w, id, depth, h)
    decreases h
  {
    if h > 0 { RowAnswers(w, n, id + 1, depth + 1, h - 1); }
  }

  // And 101 is exact: with limits that reach the top, a row of such nodes
  // comes back whole exactly when it has at most 101 of them.
  lemma SlimRowIsWholeIff(w: World<CanaryInfo>, queryId: nat -> U32, n: nat, budget: U32, deadline: U32)
    requires Slim(w, queryId) && n > 0 && w.upstream == Row(n)
    requires budget >= n && deadline > FORWARDING_OVERHEAD_MS * (n - 1)
    ensures !Walk(w, 0, 0, budget, deadline).partial <==> n <= 101
    ensures n <= 101 ==> |Walk(w, 0, 0, budget, deadline).hops| == n
  {
    if n <= 101 {
      RowAnswers(w, n, 0, 0, n - 1);
      RowAbove(w, n, 0, n);
      SlimFitting(w, queryId, 0, 0, n - 1);
      ReachingIsComplete(w, 0, 0, budget, deadline, n - 1);
    } else if !Walk(w, 0, 0, budget, deadline).partial {
      var h := CompleteReaches(w, 0, 0, budget, deadline);
      RowAbove(w, n, 0, h + 1);
      AtMost101Hops(w, queryId, 0, 0, budget, deadline);
    }
  }
}
