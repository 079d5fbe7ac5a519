// The chain-hop reply on the wire: what a node's own hop takes, and when a
// reply cut down to it still exceeds the cap.
module ChainHopWire {
  import opened Prelude
  import opened Postcard
  import opened Rules
  import opened Predicates
  import opened Derive
  import opened Introspection
  import opened ChainWalk
  import opened ControlFrame
  import opened Relay
  import Canary
  import Wire
  import Session
  import Utf8

  const CHAIN_HOP_REPLY_MAX_WIRE_BYTES := 16 * 1024

  datatype ChainHopInfo = ChainHopInfo(mode: Mode, uptimeSecs: U64, name: Option<string>, view: View)

  // How a duration is written out; which text it is plays no part here.
  type HumanTime = Duration -> string

  // ---- Encoding: fields in declaration order ----

  function EncodeIp(ip: IpAddr): Bytes {
    if ip.V4? then [0] + Wire.BigEndian(ip.bits, 4) else [1] + Wire.BigEndian(ip.bits, 16)
  }

  function EncodeSocketAddr(a: SocketAddr): Bytes { EncodeIp(a.ip) + EncodeVarint(a.port) }

  function EncodePort(p: U16): Bytes { EncodeVarint(p) }

  function EncodeProxyProto(p: ProxyProto): Bytes { if p.V1? then [0] else [1] }

  // Signed integers are zigzag-coded first.
  function EncodeSigned(n: int): Bytes { EncodeVarint(if n >= 0 then 2 * n else -2 * n - 1) }

  function EncodeRule(ht: HumanTime, r: Rule): Bytes {
    EncodeString(r.name) + EncodeSocketAddr(r.listen) + [ProtocolTag(r.protocol)]
    + EncodeOption(EncodePort, r.targetPort)
    + EncodeOptionString(r.target) + EncodeOption((d: Duration) => EncodeString(ht(d)), r.idleTimeout)
    + EncodeOption(EncodeProxyProto, r.proxyProtocol)
  }

  function RuleEncoder(ht: HumanTime): Rule -> Bytes { (r: Rule) => EncodeRule(ht, r) }

  function EncodeIdentity(c: ChainIdentity): Bytes {
    EncodeKey(c.local) + EncodeOption(EncodeKey, c.upstream) + EncodeOption(EncodeKey, c.downstream)
    + EncodeOption(EncodeKey, c.predicateOrigin) + EncodeOption(EncodeSigned, c.lastApplyUnix)
  }

  function EncodeView(ht: HumanTime, v: View): Bytes {
    EncodeVarint(|v.predicates|) + EncodeList(EncodePredicate, v.predicates)
    + EncodeVarint(|v.derivedRules|) + EncodeList(RuleEncoder(ht), v.derivedRules) + EncodeIdentity(v.chain)
  }

  function EncodeChainHop(ht: HumanTime, h: Hop<ChainHopInfo>): Bytes {
    EncodeVarint(h.index) + [ModeTag(h.info.mode)] + EncodeVarint(h.info.uptimeSecs) + EncodeOptionString(h.info.name)
    + EncodeView(ht, h.info.view) + EncodeOptionU64(h.rtt)
  }

  function HopEncoder(ht: HumanTime): Hop<ChainHopInfo> -> Bytes { (h: Hop<ChainHopInfo>) => EncodeChainHop(ht, h) }

  function EncodeChainHopReply(ht: HumanTime, queryId: U32, r: Reply<ChainHopInfo>): Bytes {
    EncodeVarint(queryId) + EncodeVarint(|r.hops|) + EncodeList(HopEncoder(ht), r.hops) + EncodeBool(r.partial)
    + EncodeOptionString(r.error)
  }

  // What a hop and a reply take, field by field.
  lemma ChainHopSize(ht: HumanTime, h: Hop<ChainHopInfo>)
    ensures |EncodeChainHop(ht, h)|
            == |EncodeVarint(h.index)| + 1 + |EncodeVarint(h.info.uptimeSecs)| + |EncodeOptionString(h.info.name)|
               + |EncodeView(ht, h.info.view)| + |EncodeOptionU64(h.rtt)|
    ensures var v := h.info.view;
            |EncodeView(ht, v)|
            == |EncodeVarint(|v.predicates|)| + |EncodeList(EncodePredicate, v.predicates)|
               + |EncodeVarint(|v.derivedRules|)| + |EncodeList(RuleEncoder(ht), v.derivedRules)|
               + 33 + |EncodeOption(EncodeKey, v.chain.upstream)| + |EncodeOption(EncodeKey, v.chain.downstream)|
               + |EncodeOption(EncodeKey, v.chain.predicateOrigin)|
               + |EncodeOption(EncodeSigned, v.chain.lastApplyUnix)|
  {
  }

  // ---- When a reply fits ----

  // A world whose replies are measured with the real encoding.
  ghost predicate ChainHopWorld(w: World<ChainHopInfo>, ht: HumanTime, queryId: nat -> U32) {
    && w.cap == CHAIN_HOP_REPLY_MAX_WIRE_BYTES
    && forall depth, r :: w.size(depth, r) == |EncodeChainHopReply(ht, queryId(depth), r)|
  }

  // What a truncated reply takes beside its one hop: the query id, a hop count
  // and a flag of one byte each, and the note.
  function TruncatedOverhead(queryId: U32, note: string): nat {
    |EncodeVarint(queryId)| + 2 + |EncodeOptionString(Some(note))|
  }

  lemma TruncatedSize(ht: HumanTime, queryId: U32, h: Hop<ChainHopInfo>, note: string)
    ensures |EncodeChainHopReply(ht, queryId, Reply([h], true, Some(note)))|
         == |EncodeChainHop(ht, h)| + TruncatedOverhead(queryId, note)
  {
    var hops := [h];
    assert hops[1..] == [];
    assert EncodeList(HopEncoder(ht), hops[1..]) == [];
    assert |EncodeList(HopEncoder(ht), hops)| == |EncodeChainHop(ht, h)|;
    assert |EncodeVarint(1)| == 1;
  }

  // An emitted chain-hop reply is within the cap exactly when it was as
  // assembled, or the node's own encoded hop leaves room for what a truncated
  // reply adds to it.
  lemma ChainHopFitsIff(
    w: World<ChainHopInfo>, ht: HumanTime, queryId: nat -> U32, id: nat, depth: nat, budget: U32, deadline: U32)
    requires ChainHopWorld(w, ht, queryId) && w.info(id, depth).Some?
    ensures w.size(depth, Walk(w, id, depth, budget, deadline)) <= w.cap
            <==> || w.size(depth, Assembled(w, id, depth, budget, deadline)) <= w.cap
                 || |EncodeChainHop(ht, Hop(w.info(id, depth).value, 0, None))|
                    <= 16_384 - TruncatedOverhead(queryId(depth), w.texts.oversize)
  {
    var local := Hop(w.info(id, depth).value, 0, None);
    EmittedFitsIff(w, id, depth, budget, deadline);
    TruncatedSize(ht, queryId(depth), local, w.texts.oversize);
  }

  // ---- Healthy chains of small hops ----

  // No node's own hop takes more than `most` bytes.
  ghost predicate SmallHops(w: World<ChainHopInfo>, ht: HumanTime, most: nat) {
    forall id, depth :: w.info(id, depth).Some? ==> OwnHopSize(ht, w.info(id, depth).value) <= most
  }

  function OwnHopSize(ht: HumanTime, info: ChainHopInfo): nat { |EncodeChainHop(ht, Hop(info, 0, None))| }

  // Number and round trip add at most 14 bytes on the way down.
  lemma MovedHopSize(ht: HumanTime, h: Hop<ChainHopInfo>)
    ensures |EncodeChainHop(ht, h)| <= OwnHopSize(ht, h.info) + 14
  {
    U32RoundTrip(h.index, []);
    if h.rtt.Some? { U64RoundTrip(h.rtt.value, []); }
  }

  lemma ChainHopReplySize(ht: HumanTime, queryId: U32, r: Reply<ChainHopInfo>, most: nat)
    requires |r.hops| < 0x80 && Canary.TextFits(r.error, Canary.ERROR_MAX_BYTES)
    requires forall k :: 0 <= k < |r.hops| ==> |HopEncoder(ht)(r.hops[k])| <= most
    ensures |EncodeChainHopReply(ht, queryId, r)| <= 210 + most * |r.hops|
  {
    U32RoundTrip(queryId, []);
    assert |EncodeVarint(|r.hops|)| == 1;
    ListAtMost(HopEncoder(ht), r.hops, most);
    Canary.TextSize(r.error, Canary.ERROR_MAX_BYTES);
  }

  ghost predicate SmallChain(w: World<ChainHopInfo>, ht: HumanTime, queryId: nat -> U32, n: nat, most: nat) {
    && ChainHopWorld(w, ht, queryId) && Healthy(w) && Canary.ShortTexts(w.texts) && SmallHops(w, ht, most)
    && n < 0x80 && 210 + n * (most + 14) <= CHAIN_HOP_REPLY_MAX_WIRE_BYTES
  }

  lemma FollowedHopsAreSmall(
    w: World<ChainHopInfo>, ht: HumanTime, id: nat, depth: nat, hops: seq<Hop<ChainHopInfo>>, most: nat)
    requires SmallHops(w, ht, most) && FollowsPath(w, id, depth, hops)
    ensures forall k :: 0 <= k < |hops| ==> |HopEncoder(ht)(hops[k])| <= most + 14
  {
    forall k | 0 <= k < |hops|
      ensures |HopEncoder(ht)(hops[k])| <= most + 14
    {
      assert IsHopAt(w, id, depth, k, hops[k]);
      MovedHopSize(ht, hops[k]);
    }
  }

  lemma SmallReplyFits(ht: HumanTime, queryId: U32, r: Reply<ChainHopInfo>, n: nat, most: nat)
    requires |r.hops| <= n < 0x80 && Canary.TextFits(r.error, Canary.ERROR_MAX_BYTES)
    requires forall k :: 0 <= k < |r.hops| ==> |HopEncoder(ht)(r.hops[k])| <= most
    ensures |EncodeChainHopReply(ht, queryId, r)| <= 210 + n * most
  {
    ChainHopReplySize(ht, queryId, r, most);
    MoreTakeMore(most, |r.hops|, n);
  }

  lemma {:induction false} MoreTakeMore(most: nat, m: nat, n: nat)
    requires m <= n
    ensures most * m <= n * most
    decreases n
  {
    if m < n { MoreTakeMore(most, m, n - 1); }
  }

  lemma SmallAssembledFits(
    w: World<ChainHopInfo>, ht: HumanTime, queryId: nat -> U32, id: nat, depth: nat, budget: U32, deadline: U32,
    n: nat, most: nat)
    requires SmallChain(w, ht, queryId, n, most) && Within(w, id, budget, deadline, n)
    ensures w.size(depth, Assembled(w, id, depth, budget, deadline)) <= w.cap
  {
    var r := Assembled(w, id, depth, budget, deadline);
    Canary.ShortTextsFit(w.texts);
    ErrorsSatisfy(w, Canary.ErrorFits, id, depth, budget, deadline);
    AssembledHops(w, id, depth, budget, deadline, n);
    FollowedHopsAreSmall(w, ht, id, depth, r.hops, most);
    SmallReplyFits(ht, queryId(depth), r, n, most + 14);
  }

  // Where every node answers and every link delivers, and `n` hops of the
  // largest size fit, nothing stops a walk of up to `n` hops but its limits and
  // the top; so its numbers are positions exactly when limits or path allow for
  // at most two hops.
  lemma SmallChainIsClear(
    w: World<ChainHopInfo>, ht: HumanTime, queryId: nat -> U32, id: nat, depth: nat, budget: U32, deadline: U32,
    n: nat, most: nat)
    requires SmallChain(w, ht, queryId, n, most) && Within(w, id, budget, deadline, n)
    ensures Clear(w, id, depth, budget, deadline)
    ensures var hops := Walk(w, id, depth, budget, deadline).hops;
            (forall k :: 0 <= k < |hops| ==> hops[k].index == k) <==> Within(w, id, budget, deadline, 2)
  {
    forall i, d, b: U32, e: U32 | Within(w, i, b, e, n)
      ensures w.size(d, Assembled(w, i, d, b, e)) <= w.cap
    {
      SmallAssembledFits(w, ht, queryId, i, d, b, e, n, most);
    }
    HealthyIsClear(w, id, depth, budget, deadline, n);
    ClearNumbersPositionsIff(w, id, depth, budget, deadline);
  }

  // ---- A set that relays accept and cannot report ----

  // `n` TCP predicates with three-letter names on ports from 20000.
  function CrowdName(i: nat): string
    requires i < 1000
  {
    ['a', ('0' as int + i / 64) as char, ('0' as int + i % 64) as char]
  }

  function Member(i: nat): Predicate
    requires i < 1000
  {
    Predicate(CrowdName(i), 20_000 + i, Tcp, None, false)
  }

  function Crowd(n: nat): seq<Predicate>
    requires n <= 1000
  {
    seq(n, i requires 0 <= i < n => Member(i))
  }

  lemma MemberBytes(i: nat)
    requires i < 1000
    ensures Utf8.Encode(CrowdName(i)) == [97, 48 + i / 64, 48 + i % 64]
    ensures |EncodeString(CrowdName(i))| == 4 && |EncodeVarint(20_000 + i)| == 3
  {
    var s := CrowdName(i);
    assert s[1..] == [s[1], s[2]] && s[1..][1..] == [s[2]] && s[1..][1..][1..] == [];
    assert Utf8.Encode(s[1..][1..]) == [48 + i % 64];
    assert Utf8.Encode(s[1..]) == [48 + i / 64, 48 + i % 64];
    assert |EncodeVarint(3)| == 1;
    var n := 20_000 + i;
    assert n / 0x80 >= 0x80 && n / 0x80 / 0x80 < 0x80;
    assert |EncodeVarint(n / 0x80 / 0x80)| == 1 && |EncodeVarint(n / 0x80)| == 2;
  }

  lemma MemberSize(i: nat)
    requires i < 1000
    ensures |EncodePredicate(Member(i))| == 10
  {
    MemberBytes(i);
    assert WithoutHttp3(Member(i)).name == CrowdName(i);
  }

  lemma MemberNameOk(i: nat)
    requires i < 1000
    ensures NameOk(CrowdName(i))
  {
  }

  lemma MembersDiffer(i: nat, j: nat)
    requires i < j < 1000
    ensures Compatible(Member(i), Member(j))
  {
    assert i == 64 * (i / 64) + i % 64 && j == 64 * (j / 64) + j % 64;
    assert CrowdName(i)[1] != CrowdName(j)[1] || CrowdName(i)[2] != CrowdName(j)[2];
  }

  lemma CrowdIsDerivable(n: nat)
    requires n <= 1000
    ensures Derivable(Crowd(n))
  {
    var ps := Crowd(n);
    forall i | 0 <= i < |ps|
      ensures NameOk(ps[i].name) && ps[i].listenPort != 0
    {
      MemberNameOk(i);
    }
    forall i, j | 0 <= i < j < |ps|
      ensures Compatible(ps[i], ps[j])
    {
      MembersDiffer(i, j);
    }
  }

  lemma {:induction false} ListExactly<T>(encode: T -> Bytes, xs: seq<T>, size: nat)
    requires forall i :: 0 <= i < |xs| ==> |encode(xs[i])| == size
    ensures |EncodeList(encode, xs)| == size * |xs|
  {
    if xs != [] {
      ListExactly(encode, xs[1..], size);
      assert size * |xs| == size + size * |xs[1..]|;
    }
  }

  const CROWD := 815

  // Its body is within the predicate cap and every relay takes it.
  lemma CrowdIsAcceptable(origin: PubKey)
    ensures var set' := PredicateSet(Crowd(CROWD), origin);
            && |EncodeSet(set')| <= PREDICATE_SET_MAX_WIRE_BYTES
            && Acceptable(EncodeSet(set')) && SetIn(EncodeSet(set')) == set'
  {
    var ps := Crowd(CROWD);
    var set' := PredicateSet(ps, origin);
    CrowdSize(CROWD);
    assert |EncodeVarint(CROWD)| == 2 by { assert |EncodeVarint(CROWD / 0x80)| == 1; }
    forall i | 0 <= i < |ps|
      ensures Encodable(WithoutHttp3(ps[i]))
    {
      MemberBytes(i);
    }
    assert EncodeSet(set') + [] == EncodeSet(set');
    CurrentRoundTrip(set', []);
    CrowdIsDerivable(CROWD);
  }

  lemma CrowdSize(n: nat)
    requires n <= 1000
    ensures |EncodeList(EncodePredicate, Crowd(n))| == 10 * n
  {
    var ps := Crowd(n);
    forall i | 0 <= i < |ps|
      ensures |EncodePredicate(ps[i])| == 10
    {
      MemberSize(i);
    }
    ListExactly(EncodePredicate, ps, 10);
  }

  lemma {:induction false} DerivedTcp(cfg: DeriveConfig, ps: seq<Predicate>)
    requires forall i :: 0 <= i < |ps| ==> ps[i].protocol.Tcp?
    ensures var rules := DerivedRules(cfg, ps);
            |rules| == |ps| && forall i :: 0 <= i < |ps| ==> rules[i] == L4Rule(cfg, ps[i])
  {
    if ps != [] {
      DerivedTcp(cfg, ps[1..]);
      assert DerivedRules(cfg, ps) == [L4Rule(cfg, ps[0])] + DerivedRules(cfg, ps[1..]);
    }
  }

  lemma MemberRuleSize(ht: HumanTime, cfg: DeriveConfig, i: nat)
    requires i < 1000
    ensures |EncodeRule(ht, L4Rule(cfg, Member(i)))| >= 20
  {
    MemberBytes(i);
    var r := L4Rule(cfg, Member(i));
    assert |EncodeSocketAddr(r.listen)| >= 8 && |EncodeOption(EncodePort, r.targetPort)| == 4;
  }

  lemma CrowdRulesSize(ht: HumanTime, cfg: DeriveConfig, n: nat)
    requires n <= 1000
    ensures |EncodeList(RuleEncoder(ht), DerivedRules(cfg, Crowd(n)))| >= 20 * n
  {
    var ps := Crowd(n);
    var rules := DerivedRules(cfg, ps);
    DerivedTcp(cfg, ps);
    forall i | 0 <= i < |rules|
      ensures 20 <= |RuleEncoder(ht)(rules[i])|
    {
      MemberRuleSize(ht, cfg, i);
    }
    ListAtLeast(RuleEncoder(ht), rules, 20);
  }

  // A relay that applied the crowd: its own hop alone is over the cap, so its
  // reply is too, cut or not, on every walk and with every answer from above.
  lemma AcceptedSetOverflows(
    w: World<ChainHopInfo>, ht: HumanTime, queryId: nat -> U32, id: nat, depth: nat, budget: U32, deadline: U32,
    identity: Identity, origin: PubKey, lastApplyUnix: int, cfg: DeriveConfig)
    requires ChainHopWorld(w, ht, queryId) && w.info(id, depth).Some?
    requires w.info(id, depth).value.view
          == SnapshotOf(
               identity, Some(PredicateSet(Crowd(CROWD), origin)), lastApplyUnix, DerivedRules(cfg, Crowd(CROWD)))
    ensures w.size(depth, Walk(w, id, depth, budget, deadline)) > 24_000 > w.cap
  {
    var local := Hop(w.info(id, depth).value, 0, None);
    CrowdSize(CROWD);
    CrowdRulesSize(ht, cfg, CROWD);
    assert |EncodeView(ht, local.info.view)| > 24_000;
    assert |EncodeChainHop(ht, local)| > 24_000;
    ReplyHoldsLocal(w, ht, queryId, id, depth, budget, deadline);
  }

  // Whatever else a reply holds, it holds the local hop.
  lemma ReplyHoldsLocal(
    w: World<ChainHopInfo>, ht: HumanTime, queryId: nat -> U32, id: nat, depth: nat, budget: U32, deadline: U32)
    requires ChainHopWorld(w, ht, queryId) && w.info(id, depth).Some?
    ensures w.size(depth, Walk(w, id, depth, budget, deadline))
         >= |EncodeChainHop(ht, Hop(w.info(id, depth).value, 0, None))|
  {
    var r, local := Walk(w, id, depth, budget, deadline), Hop(w.info(id, depth).value, 0, None);
    LocalHopFirst(w, id, depth, budget, deadline);
    assert EncodeList(HopEncoder(ht), r.hops) == EncodeChainHop(ht, local) + EncodeList(HopEncoder(ht), r.hops[1..]);
  }

  // Such a reply cannot be sealed into a packet at all: it is lost.
  lemma OverflowCannotBeSent(number: U32, kind: Byte, body: Bytes, nonce: U64)
    requires |body| > 24_000
    ensures !Session.Sealable(nonce, EncodeEnvelope(Envelope(number, kind, body)))
  {
    assert |EncodeEnvelope(Envelope(number, kind, body))| > |body|;
  }
}
