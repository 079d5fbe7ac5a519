// The predicate-set wire schema: current shape, legacy shape and the decoder
// that accepts both.
module Predicates {
  import opened Prelude
  import opened Postcard
  import opened Rules
  import Utf8

  datatype Predicate = Predicate(
    name: string, listenPort: U16, protocol: Protocol, idleTimeoutMs: Option<U64>, httpsHttp3: bool)

  datatype PredicateSet = PredicateSet(predicates: seq<Predicate>, origin: PubKey)

  // The shape that predates `httpsHttp3`.
  datatype LegacyPredicate = LegacyPredicate(
    name: string, listenPort: U16, protocol: Protocol, idleTimeoutMs: Option<U64>)

  datatype LegacyPredicateSet = LegacyPredicateSet(predicates: seq<LegacyPredicate>, origin: PubKey)

  const PREDICATE_SET_MAX_WIRE_BYTES := 8 * 1024

  predicate ValidPredicate(p: Predicate) { p.httpsHttp3 ==> p.protocol.Https? }

  predicate ValidSet(s: PredicateSet) { forall i :: 0 <= i < |s.predicates| ==> ValidPredicate(s.predicates[i]) }

  function WithHttp3(p: LegacyPredicate, http3: bool): Predicate {
    Predicate(p.name, p.listenPort, p.protocol, p.idleTimeoutMs, http3)
  }

  function WithoutHttp3(p: Predicate): LegacyPredicate {
    LegacyPredicate(p.name, p.listenPort, p.protocol, p.idleTimeoutMs)
  }

  function IntoCurrent(s: LegacyPredicateSet): PredicateSet {
    PredicateSet(
      seq(|s.predicates|, i requires 0 <= i < |s.predicates| => WithHttp3(s.predicates[i], false)),
      s.origin)
  }

  // ---- Encoding: fields in declaration order ----

  function ProtocolTag(p: Protocol): Byte {
    match p
    case Tcp => 0
    case Udp => 1
    case Https => 2
  }

  function EncodeLegacyPredicate(p: LegacyPredicate): Bytes {
    EncodeString(p.name) + (EncodeVarint(p.listenPort) + ([ProtocolTag(p.protocol)] + EncodeOptionU64(p.idleTimeoutMs)))
  }

  function EncodePredicate(p: Predicate): Bytes {
    EncodeLegacyPredicate(WithoutHttp3(p)) + EncodeBool(p.httpsHttp3)
  }

  function EncodeSet(s: PredicateSet): Bytes {
    EncodeVarint(|s.predicates|) + (EncodeList(EncodePredicate, s.predicates) + EncodeKey(s.origin))
  }

  function EncodeLegacySet(s: LegacyPredicateSet): Bytes {
    EncodeVarint(|s.predicates|) + (EncodeList(EncodeLegacyPredicate, s.predicates) + EncodeKey(s.origin))
  }

  // ---- Decoding ----

  function TakeProtocol(b: Bytes): Parsed<Protocol> {
    var (tag, rest) :- TakeU32(b);
    if tag == 0 then Got(Tcp, rest)
    else if tag == 1 then Got(Udp, rest)
    else if tag == 2 then Got(Https, rest)
    else Fail
  }

  function TakeLegacyPredicate(b: Bytes): Parsed<LegacyPredicate> {
    var (name, b1) :- TakeString(b);
    var (port, b2) :- TakeU16(b1);
    var (protocol, b3) :- TakeProtocol(b2);
    var (idle, b4) :- TakeOptionU64(b3);
    Got(LegacyPredicate(name, port, protocol, idle), b4)
  }

  function TakePredicate(b: Bytes): Parsed<Predicate> {
    var (p, b1) :- TakeLegacyPredicate(b);
    var (http3, b2) :- TakeBool(b1);
    Got(WithHttp3(p, http3), b2)
  }

  function TakeSet(b: Bytes): Parsed<PredicateSet> {
    var (count, b1) :- TakeU64(b);
    var (ps, b2) :- TakeList(TakePredicate, b1, count);
    var (origin, b3) :- TakeKey(b2);
    Got(PredicateSet(ps, origin), b3)
  }

  function TakeLegacySet(b: Bytes): Parsed<LegacyPredicateSet> {
    var (count, b1) :- TakeU64(b);
    var (ps, b2) :- TakeList(TakeLegacyPredicate, b1, count);
    var (origin, b3) :- TakeKey(b2);
    Got(LegacyPredicateSet(ps, origin), b3)
  }

  datatype WireError = Malformed | InvalidPredicate

  function Checked(s: PredicateSet): Result<PredicateSet, WireError> {
    if ValidSet(s) then Ok(s) else Err(InvalidPredicate)
  }

  // Decode the current shape, fall back to the legacy shape, then validate.
  // Bytes after the set are ignored.
  function FromWireBytes(b: Bytes): Result<PredicateSet, WireError> {
    match TakeSet(b)
    case Got(s, _) => Checked(s)
    case Fail =>
      match TakeLegacySet(b)
      case Got(s, _) => Checked(IntoCurrent(s))
      case Fail => Err(Malformed)
  }

  // ---- Round trips ----

  // Sizes that fit a 64-bit address space.
  ghost predicate Encodable(p: LegacyPredicate) { |Utf8.Encode(p.name)| <= U64_MAX }

  ghost predicate EncodableSet(s: PredicateSet) {
    |s.predicates| <= U64_MAX && forall i :: 0 <= i < |s.predicates| ==> Encodable(WithoutHttp3(s.predicates[i]))
  }

  ghost predicate EncodableLegacySet(s: LegacyPredicateSet) {
    |s.predicates| <= U64_MAX && forall i :: 0 <= i < |s.predicates| ==> Encodable(s.predicates[i])
  }

  lemma ProtocolRoundTrip(p: Protocol, rest: Bytes)
    ensures TakeProtocol([ProtocolTag(p)] + rest) == Got(p, rest)
  {
    assert EncodeVarint(ProtocolTag(p)) == [ProtocolTag(p)];
    U32RoundTrip(ProtocolTag(p), rest);
  }

  lemma LegacyPredicateRoundTrip(p: LegacyPredicate, rest: Bytes)
    requires Encodable(p)
    ensures TakeLegacyPredicate(EncodeLegacyPredicate(p) + rest) == Got(p, rest)
  {
    var b3 := EncodeOptionU64(p.idleTimeoutMs) + rest;
    var b2 := [ProtocolTag(p.protocol)] + b3;
    var b1 := EncodeVarint(p.listenPort) + b2;
    assert EncodeLegacyPredicate(p) + rest == EncodeString(p.name) + b1;
    StringRoundTrip(p.name, b1);
    U16RoundTrip(p.listenPort, b2);
    ProtocolRoundTrip(p.protocol, b3);
    OptionU64RoundTrip(p.idleTimeoutMs, rest);
  }

  lemma PredicateRoundTrip(p: Predicate, rest: Bytes)
    requires Encodable(WithoutHttp3(p))
    ensures TakePredicate(EncodePredicate(p) + rest) == Got(p, rest)
  {
    var l := WithoutHttp3(p);
    assert EncodePredicate(p) + rest == EncodeLegacyPredicate(l) + (EncodeBool(p.httpsHttp3) + rest);
    LegacyPredicateRoundTrip(l, EncodeBool(p.httpsHttp3) + rest);
    BoolRoundTrip(p.httpsHttp3, rest);
  }

  lemma PredicatesRoundTrip(ps: seq<Predicate>, rest: Bytes)
    requires forall i :: 0 <= i < |ps| ==> Encodable(WithoutHttp3(ps[i]))
    ensures TakeList(TakePredicate, EncodeList(EncodePredicate, ps) + rest, |ps|) == Got(ps, rest)
  {
    forall p, tail | p in ps
      ensures TakePredicate(EncodePredicate(p) + tail) == Got(p, tail)
    {
      PredicateRoundTrip(p, tail);
    }
    ListRoundTrip(EncodePredicate, TakePredicate, ps, rest);
  }

  lemma LegacyPredicatesRoundTrip(ps: seq<LegacyPredicate>, rest: Bytes)
    requires forall i :: 0 <= i < |ps| ==> Encodable(ps[i])
    ensures TakeList(TakeLegacyPredicate, EncodeList(EncodeLegacyPredicate, ps) + rest, |ps|) == Got(ps, rest)
  {
    forall p, tail | p in ps
      ensures TakeLegacyPredicate(EncodeLegacyPredicate(p) + tail) == Got(p, tail)
    {
      LegacyPredicateRoundTrip(p, tail);
    }
    ListRoundTrip(EncodeLegacyPredicate, TakeLegacyPredicate, ps, rest);
  }

  lemma SetRoundTrip(s: PredicateSet, rest: Bytes)
    requires EncodableSet(s)
    ensures TakeSet(EncodeSet(s) + rest) == Got(s, rest)
  {
    var b2 := EncodeKey(s.origin) + rest;
    var b1 := EncodeList(EncodePredicate, s.predicates) + b2;
    assert EncodeSet(s) + rest == EncodeVarint(|s.predicates|) + b1;
    U64RoundTrip(|s.predicates|, b1);
    PredicatesRoundTrip(s.predicates, b2);
    KeyRoundTrip(s.origin, rest);
  }

  lemma LegacySetRoundTrip(s: LegacyPredicateSet, rest: Bytes)
    requires EncodableLegacySet(s)
    ensures TakeLegacySet(EncodeLegacySet(s) + rest) == Got(s, rest)
  {
    var b2 := EncodeKey(s.origin) + rest;
    var b1 := EncodeList(EncodeLegacyPredicate, s.predicates) + b2;
    assert EncodeLegacySet(s) + rest == EncodeVarint(|s.predicates|) + b1;
    U64RoundTrip(|s.predicates|, b1);
    LegacyPredicatesRoundTrip(s.predicates, b2);
    KeyRoundTrip(s.origin, rest);
  }

  // The decoder inverts the current encoding on valid sets and refuses the
  // rest, whatever follows the set on the wire.
  lemma CurrentRoundTrip(s: PredicateSet, trailing: Bytes)
    requires EncodableSet(s)
    ensures FromWireBytes(EncodeSet(s) + trailing) == if ValidSet(s) then Ok(s) else Err(InvalidPredicate)
  {
    SetRoundTrip(s, trailing);
  }

  lemma LegacyIsValid(s: LegacyPredicateSet)
    ensures ValidSet(IntoCurrent(s))
  {
  }

  // An empty legacy set has the same bytes in both shapes.
  lemma EmptyLegacySet(s: LegacyPredicateSet)
    requires s.predicates == []
    ensures EncodeLegacySet(s) == EncodeSet(IntoCurrent(s))
    ensures FromWireBytes(EncodeLegacySet(s)) == Ok(IntoCurrent(s))
  {
    var c := IntoCurrent(s);
    assert c.predicates == [];
    assert EncodeSet(c) + [] == EncodeSet(c);
    CurrentRoundTrip(c, []);
  }

  lemma LegacyPredicateUses(b: Bytes)
    requires TakeLegacyPredicate(b).Got?
    ensures |EncodeLegacyPredicate(TakeLegacyPredicate(b).value)| + |TakeLegacyPredicate(b).rest| <= |b|
  {
    var b1 := TakeString(b).rest;
    var b2 := TakeU16(b1).rest;
    var b3 := TakeProtocol(b2).rest;
    StringUses(b);
    VarintUses(b1, 3, 3);
    OptionU64Uses(b3);
  }

  lemma PredicateUses(b: Bytes)
    requires TakePredicate(b).Got?
    ensures |EncodePredicate(TakePredicate(b).value)| + |TakePredicate(b).rest| <= |b|
  {
    LegacyPredicateUses(b);
    var p := TakeLegacyPredicate(b).value;
    assert WithoutHttp3(TakePredicate(b).value) == p;
  }

  lemma SetUses(b: Bytes)
    requires TakeSet(b).Got?
    ensures |EncodeSet(TakeSet(b).value)| <= |b|
  {
    var count, b1 := TakeU64(b).value, TakeU64(b).rest;
    forall c: Bytes | TakePredicate(c).Got?
      ensures |EncodePredicate(TakePredicate(c).value)| + |TakePredicate(c).rest| <= |c|
    {
      PredicateUses(c);
    }
    VarintUses(b, 10, 1);
    ListUses(EncodePredicate, TakePredicate, b1, count);
    ListLength(TakePredicate, b1, count);
  }

  lemma {:induction false} ListLength<T>(take: Bytes -> Parsed<T>, b: Bytes, count: nat)
    requires TakeList(take, b, count).Got?
    ensures |TakeList(take, b, count).value| == count
    decreases count
  {
    if count > 0 { ListLength(take, take(b).rest, count - 1); }
  }

  // The current shape is one byte longer per predicate.
  lemma {:induction false} FlagsAddBytes(ps: seq<LegacyPredicate>, qs: seq<Predicate>)
    requires |qs| == |ps| && forall i :: 0 <= i < |ps| ==> qs[i] == WithHttp3(ps[i], false)
    ensures |EncodeList(EncodePredicate, qs)| == |EncodeList(EncodeLegacyPredicate, ps)| + |ps|
  {
    if ps != [] {
      FlagsAddBytes(ps[1..], qs[1..]);
      assert WithoutHttp3(qs[0]) == ps[0];
    }
  }

  // The exact condition under which a legacy body is understood: it is empty,
  // or the current-shape parse fails. A body that parses as current is always
  // taken for some other set, since its own would not fit in its bytes.
  lemma LegacyDecodesIff(s: LegacyPredicateSet)
    requires EncodableLegacySet(s)
    ensures FromWireBytes(EncodeLegacySet(s)) == Ok(IntoCurrent(s))
       <==> s.predicates == [] || TakeSet(EncodeLegacySet(s)).Fail?
  {
    var b := EncodeLegacySet(s);
    if s.predicates == [] {
      EmptyLegacySet(s);
    } else if TakeSet(b).Got? {
      SetUses(b);
      FlagsAddBytes(s.predicates, IntoCurrent(s).predicates);
    } else {
      assert b + [] == b;
      LegacySetRoundTrip(s, []);
      LegacyIsValid(s);
    }
  }

  // After a legacy predicate the current shape reads its flag from whatever
  // comes next.
  lemma FlagFromNext(p: LegacyPredicate, next: Bytes, count: nat)
    requires Encodable(p) && count > 0
    requires TakeList(TakePredicate, EncodeLegacyPredicate(p) + next, count).Got?
    ensures TakeBool(next).Got?
    ensures TakeList(TakePredicate, TakeBool(next).rest, count - 1).Got?
    ensures TakeList(TakePredicate, TakeBool(next).rest, count - 1).rest
         == TakeList(TakePredicate, EncodeLegacyPredicate(p) + next, count).rest
  {
    LegacyPredicateRoundTrip(p, next);
  }

  lemma CountThenPredicates(n: U64, b: Bytes)
    requires TakeSet(EncodeVarint(n) + b).Got?
    ensures TakeList(TakePredicate, b, n).Got? && TakeKey(TakeList(TakePredicate, b, n).rest).Got?
  {
    U64RoundTrip(n, b);
  }

  // What the current-shape parse still needs after the first predicate.
  ghost predicate ParsesOn(next: Bytes, count: nat) {
    TakeBool(next).Got?
    && TakeList(TakePredicate, TakeBool(next).rest, count).Got?
    && TakeKey(TakeList(TakePredicate, TakeBool(next).rest, count).rest).Got?
  }

  lemma FirstPredicateThenFlag(n: U64, p: LegacyPredicate, next: Bytes)
    requires Encodable(p) && n > 0
    requires TakeSet(EncodeVarint(n) + (EncodeLegacyPredicate(p) + next)).Got?
    ensures ParsesOn(next, n - 1)
  {
    CountThenPredicates(n, EncodeLegacyPredicate(p) + next);
    FlagFromNext(p, next, n);
  }

  lemma FirstPredicateOf(s: LegacyPredicateSet)
    requires s.predicates != []
    ensures EncodeLegacySet(s)
         == EncodeVarint(|s.predicates|)
            + (EncodeLegacyPredicate(s.predicates[0])
               + (EncodeList(EncodeLegacyPredicate, s.predicates[1..]) + EncodeKey(s.origin)))
  {
    var encode := EncodeLegacyPredicate;
    assert EncodeList(encode, s.predicates) == encode(s.predicates[0]) + EncodeList(encode, s.predicates[1..]);
  }

  // A legacy set with one predicate never parses as the current shape: the
  // flag swallows the origin's tag and the key comes up one byte short.
  lemma SingleLegacyFailsAsCurrent(s: LegacyPredicateSet)
    requires EncodableLegacySet(s) && |s.predicates| == 1
    ensures TakeSet(EncodeLegacySet(s)).Fail?
    ensures FromWireBytes(EncodeLegacySet(s)) == Ok(IntoCurrent(s))
  {
    var next := EncodeKey(s.origin);
    assert s.predicates[1..] == [];
    assert EncodeList(EncodeLegacyPredicate, s.predicates[1..]) + EncodeKey(s.origin) == next;
    assert TakeBool(next) == Got(false, next[1..]);
    assert TakeList(TakePredicate, next[1..], 0) == Got([], next[1..]);
    assert TakeKey(next[1..]).Fail?;
    FirstPredicateOf(s);
    if TakeSet(EncodeLegacySet(s)).Got? { FirstPredicateThenFlag(1, s.predicates[0], next); }
    LegacyDecodesIff(s);
  }

  // A larger legacy set is understood whenever its second name takes at least
  // two bytes: its length byte is then no flag.
  lemma SecondNameDecides(s: LegacyPredicateSet)
    requires EncodableLegacySet(s) && |s.predicates| >= 2
    requires |Utf8.Encode(s.predicates[1].name)| >= 2
    ensures TakeSet(EncodeLegacySet(s)).Fail?
    ensures FromWireBytes(EncodeLegacySet(s)) == Ok(IntoCurrent(s))
  {
    var tail := s.predicates[1..];
    var len := |Utf8.Encode(tail[0].name)|;
    assert EncodeList(EncodeLegacyPredicate, tail)
        == EncodeLegacyPredicate(tail[0]) + EncodeList(EncodeLegacyPredicate, tail[1..]);
    assert EncodeLegacyPredicate(tail[0])[0] == EncodeVarint(len)[0];
    var next := EncodeList(EncodeLegacyPredicate, tail) + EncodeKey(s.origin);
    assert TakeBool(next).Fail?;
    FirstPredicateOf(s);
    if TakeSet(EncodeLegacySet(s)).Got? { FirstPredicateThenFlag(|s.predicates|, s.predicates[0], next); }
    LegacyDecodesIff(s);
  }

  // ---- A legacy body the decoder misreads ----

  function Zeros(n: nat): (r: Bytes) { seq(n, _ => 0) }

  function Nuls(n: nat): string { seq(n, _ => 0 as char) }

  // The second name is empty, so its length byte passes for a flag; the third
  // name spells out the rest of a current-shape set.
  function MisreadLegacy(): LegacyPredicateSet {
    LegacyPredicateSet(
      [ LegacyPredicate("a", 1, Tcp, None), LegacyPredicate("", 0, Tcp, Some(1)),
        LegacyPredicate(Nuls(40), 1, Tcp, None)],
      Zeros(X25519_PUBLIC_LEN))
  }

  function MisreadAs(): PredicateSet {
    PredicateSet(
      [ Predicate("a", 1, Tcp, None, false), Predicate("", 0, Udp, Some(40), false),
        Predicate("", 0, Tcp, None, false)],
      Zeros(X25519_PUBLIC_LEN))
  }

  lemma {:induction false} NulsEncode(n: nat)
    ensures Utf8.Encode(Nuls(n)) == Zeros(n)
  {
    if n > 0 {
      assert Nuls(n)[1..] == Nuls(n - 1);
      NulsEncode(n - 1);
    }
  }

  const MISREAD_HEAD: Bytes := [3, 1, 97, 1, 0, 0, 0, 0, 0, 1, 1, 40]

  lemma LetterA()
    ensures Utf8.Encode("a") == [97]
  {
    assert "a"[1..] == "";
  }

  lemma EncodeThree<T>(encode: T -> Bytes, p: T, q: T, r: T)
    ensures EncodeList(encode, [p, q, r]) == encode(p) + encode(q) + encode(r)
  {
    assert [p, q, r][1..] == [q, r] && [q, r][1..] == [r] && [r][1..] == [];
    assert EncodeList(encode, [r]) == encode(r);
    assert EncodeList(encode, [q, r]) == encode(q) + encode(r);
  }

  lemma Regroup(a: Bytes, b: Bytes, c: Bytes, d: Bytes, e: Bytes, f: Bytes)
    ensures a + ((b + c + (d + e)) + f) == (a + b + c + d) + (e + f)
  {
  }

  // Names below 128 bytes and ports below 128 take one length byte and one
  // port byte.
  lemma EncodeShort(p: LegacyPredicate, raw: Bytes)
    requires Utf8.Encode(p.name) == raw && |raw| < 0x80 && p.listenPort < 0x80
    ensures EncodeLegacyPredicate(p)
         == [|raw|] + (raw + [p.listenPort as Byte, ProtocolTag(p.protocol)] + EncodeOptionU64(p.idleTimeoutMs))
  {
  }

  lemma ThreeLegacy(s: LegacyPredicateSet, a: Bytes, b: Bytes, c: Bytes, z: Bytes)
    requires |s.predicates| == 3
    requires EncodeLegacyPredicate(s.predicates[0]) == a && EncodeLegacyPredicate(s.predicates[1]) == b
    requires EncodeLegacyPredicate(s.predicates[2]) == c + z
    ensures EncodeLegacySet(s) == ([3] + a + b + c) + (z + EncodeKey(s.origin))
  {
    var ps := s.predicates;
    assert ps == [ps[0], ps[1], ps[2]];
    EncodeThree(EncodeLegacyPredicate, ps[0], ps[1], ps[2]);
    Regroup([3], a, b, c, z, EncodeKey(s.origin));
  }

  lemma FirstTwoMisread()
    ensures EncodeLegacyPredicate(MisreadLegacy().predicates[0]) == [1, 97, 1, 0, 0]
    ensures EncodeLegacyPredicate(MisreadLegacy().predicates[1]) == [0, 0, 0, 1, 1]
  {
    LetterA();
    EncodeShort(MisreadLegacy().predicates[0], [97]);
    EncodeShort(MisreadLegacy().predicates[1], []);
  }

  lemma ThirdMisread()
    ensures EncodeLegacyPredicate(MisreadLegacy().predicates[2]) == [40] + (Zeros(40) + [1, 0, 0])
  {
    NulsEncode(40);
    EncodeShort(MisreadLegacy().predicates[2], Zeros(40));
    assert Zeros(40) + [1, 0] + [0] == Zeros(40) + [1, 0, 0];
  }

  lemma MisreadHead()
    ensures [3] + [1, 97, 1, 0, 0] + [0, 0, 0, 1, 1] + [40] == MISREAD_HEAD
  {
  }

  lemma MisreadLegacyBytes()
    ensures EncodeLegacySet(MisreadLegacy()) == MISREAD_HEAD + ((Zeros(40) + [1, 0, 0]) + ([0] + Zeros(32)))
  {
    var s := MisreadLegacy();
    FirstTwoMisread();
    ThirdMisread();
    ThreeLegacy(s, [1, 97, 1, 0, 0], [0, 0, 0, 1, 1], [40], Zeros(40) + [1, 0, 0]);
    MisreadHead();
  }

  lemma MisreadAsBytes()
    ensures EncodeSet(MisreadAs()) == MISREAD_HEAD + (Zeros(6) + ([0] + Zeros(32)))
  {
    var s := MisreadAs();
    var p, q, r := s.predicates[0], s.predicates[1], s.predicates[2];
    LetterA();
    EncodeShort(WithoutHttp3(p), [97]);
    EncodeShort(WithoutHttp3(q), []);
    EncodeShort(WithoutHttp3(r), []);
    assert EncodePredicate(p) == [1, 97, 1, 0, 0, 0];
    assert EncodePredicate(q) == [0, 0, 1, 1, 40, 0];
    assert EncodePredicate(r) == [0, 0, 0, 0, 0];
    EncodeThree(EncodePredicate, p, q, r);
    assert EncodePredicate(q) + EncodePredicate(r) == [0, 0, 1, 1, 40] + Zeros(6);
    assert EncodePredicate(p) + EncodePredicate(q) + EncodePredicate(r)
        == [1, 97, 1, 0, 0, 0] + [0, 0, 1, 1] + ([40] + Zeros(6));
    Regroup([3], [1, 97, 1, 0, 0, 0], [0, 0, 1, 1], [40], Zeros(6), [0] + Zeros(32));
  }

  lemma MisreadTails()
    ensures (Zeros(40) + [1, 0, 0]) + ([0] + Zeros(32))
         == (Zeros(6) + ([0] + Zeros(32))) + ([0, 1, 0, 0, 0] + Zeros(32))
  {
    assert Zeros(40) == Zeros(6) + ([0] + Zeros(32)) + [0];
  }

  lemma MisreadBytesAgree()
    ensures EncodeLegacySet(MisreadLegacy()) == EncodeSet(MisreadAs()) + ([0, 1, 0, 0, 0] + Zeros(32))
  {
    MisreadLegacyBytes();
    MisreadAsBytes();
    MisreadTails();
    Associate(MISREAD_HEAD, Zeros(6) + ([0] + Zeros(32)), [0, 1, 0, 0, 0] + Zeros(32));
  }

  lemma MisreadIsEncodable()
    ensures EncodableSet(MisreadAs()) && ValidSet(MisreadAs())
  {
    LetterA();
  }

  // Accepting both shapes is not lossless: this legacy body is accepted, as
  // another set.
  lemma LegacyMisread()
    ensures FromWireBytes(EncodeLegacySet(MisreadLegacy())) == Ok(MisreadAs())
    ensures MisreadAs() != IntoCurrent(MisreadLegacy())
  {
    MisreadBytesAgree();
    MisreadIsEncodable();
    CurrentRoundTrip(MisreadAs(), [0, 1, 0, 0, 0] + Zeros(32));
    assert IntoCurrent(MisreadLegacy()).predicates[1].protocol == Tcp;
  }
}
