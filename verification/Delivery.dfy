// Replay protection over an unreliable network: which of the packets that
// arrive a receiver opens, in what order, and what its counter then is.
module Delivery {
  import opened Prelude
  import opened Wire

  // The receiving end of one session. `open` is the AEAD for a given nonce;
  // `payload` interprets an opened plaintext of a packet type.
  datatype Link<!M> = Link(
    sessionId: SessionId, open: (U64, Bytes) -> Option<Bytes>, payload: (PacketType, Bytes) -> Option<M>)

  datatype DecodeError =
    | NotAPacket
    | UnexpectedType
    | SessionMismatch
    | MissingCounter
    | Replay
    | NotAuthentic
    | BadPayload

  function Opened<M>(k: Link<M>, lastSeen: Option<nat>, expected: PacketType, v: PacketView)
    : Result<Bytes, DecodeError>
  {
    if v.packetType != expected then Err(UnexpectedType)
    else if v.sessionId != k.sessionId then Err(SessionMismatch)
    else if v.counter.None? then Err(MissingCounter)
    else if lastSeen.Some? && v.counter.value <= lastSeen.value then Err(Replay)
    else
      match k.open(v.counter.value, v.body)
      case None => Err(NotAuthentic)
      case Some(plaintext) => Ok(plaintext)
  }

  // A packet that is refused is refused for the first of these that holds: it
  // is of another type, of another session, without a counter, not newer than
  // the last one, or does not open.
  lemma OpenedIs<M>(k: Link<M>, lastSeen: Option<nat>, expected: PacketType, v: PacketView)
    ensures var r := Opened(k, lastSeen, expected, v);
            var mine := v.packetType == expected && v.sessionId == k.sessionId && v.counter.Some?;
            var old' := mine && lastSeen.Some? && v.counter.value <= lastSeen.value;
            && (r == Err(UnexpectedType) <==> v.packetType != expected)
            && (r == Err(SessionMismatch) <==> v.packetType == expected && v.sessionId != k.sessionId)
            && (r == Err(MissingCounter) <==>
                v.packetType == expected && v.sessionId == k.sessionId && v.counter.None?)
            && (r == Err(Replay) <==> old')
            && (r == Err(NotAuthentic) <==> mine && !old' && k.open(v.counter.value, v.body).None?)
            && (r.Ok? <==> mine && !old' && k.open(v.counter.value, v.body).Some?)
            && (r.Ok? ==> k.open(v.counter.value, v.body) == Some(r.value))
  {
  }

  // The message, and the counter kept afterwards. Only an opened packet moves
  // the counter, and it does so even when its payload then has the wrong shape.
  function Decoded<M>(k: Link<M>, lastSeen: Option<nat>, expected: PacketType, v: PacketView)
    : (r: (Result<M, DecodeError>, Option<nat>))
    ensures r.1 != lastSeen <==> r.0.Ok? || r.0 == Err(BadPayload)
    ensures r.1 != lastSeen ==> r.1.Some? && (lastSeen.Some? ==> lastSeen.value < r.1.value)
  {
    match Opened(k, lastSeen, expected, v)
    case Err(e) => (Err(e), lastSeen)
    case Ok(plaintext) =>
      match k.payload(expected, plaintext)
      case None => (Err(BadPayload), v.counter)
      case Some(m) => (Ok(m), v.counter)
  }

  // A datagram, decoded as what its own tag says it is.
  function Received<M>(k: Link<M>, lastSeen: Option<nat>, packet: Bytes): (Result<M, DecodeError>, Option<nat>) {
    match Parse(packet)
    case Err(_) => (Err(NotAPacket), lastSeen)
    case Ok(v) => Decoded(k, lastSeen, v.packetType, v)
  }

  // What the peer sent as its packet number `n` to say `m`.
  ghost predicate Genuine<M(!new)>(k: Link<M>, n: nat, packet: Bytes, m: M) {
    && n < U64_MAX
    && exists kind, body, plaintext ::
      && HasCounter(kind) && packet == Render(PacketView(kind, k.sessionId, Some(n), body))
      && k.open(n, body) == Some(plaintext) && k.payload(kind, plaintext) == Some(m)
  }

  // A datagram that does not open on this session whatever came before.
  ghost predicate Noise<M>(k: Link<M>, packet: Bytes) {
    match Parse(packet)
    case Err(_) => true
    case Ok(v) => v.sessionId != k.sessionId || v.counter.None? || k.open(v.counter.value, v.body).None?
  }

  // A receiver's counter and everything it has delivered upward.
  datatype Receiver<M> = Receiver(lastSeen: Option<nat>, delivered: seq<M>)

  function Step<M>(k: Link<M>, r: Receiver<M>, packet: Bytes): Receiver<M> {
    var (result, lastSeen) := Received(k, r.lastSeen, packet);
    Receiver(lastSeen, if result.Ok? then r.delivered + [result.value] else r.delivered)
  }

  function After<M>(k: Link<M>, packets: seq<Bytes>): Receiver<M> {
    if packets == [] then Receiver(None, []) else Step(k, After(k, packets[..|packets| - 1]), Last(packets))
  }

  lemma NoiseChangesNothing<M>(k: Link<M>, r: Receiver<M>, packet: Bytes)
    requires Noise(k, packet)
    ensures Step(k, r, packet) == r
  {
  }

  lemma GenuineOpensIff<M(!new)>(k: Link<M>, r: Receiver<M>, n: nat, packet: Bytes, m: M)
    requires Genuine(k, n, packet, m)
    ensures Step(k, r, packet)
            == if r.lastSeen.None? || r.lastSeen.value < n then Receiver(Some(n), r.delivered + [m]) else r
  {
    var kind, body, plaintext :|
      HasCounter(kind) && packet == Render(PacketView(kind, k.sessionId, Some(n), body))
      && k.open(n, body) == Some(plaintext) && k.payload(kind, plaintext) == Some(m);
    ParseRendered(PacketView(kind, k.sessionId, Some(n), body));
  }

  // ---- Whatever arrives ----

  // The number under which a datagram opens, if it does.
  function OpensAs<M>(k: Link<M>, lastSeen: Option<nat>, packet: Bytes): Option<nat> {
    match Parse(packet)
    case Err(_) => None
    case Ok(v) => if Opened(k, lastSeen, v.packetType, v).Ok? then v.counter else None
  }

  // The numbers opened, in order.
  function Opens<M>(k: Link<M>, packets: seq<Bytes>): seq<nat> {
    if packets == [] then []
    else
      var before := packets[..|packets| - 1];
      var n := OpensAs(k, After(k, before).lastSeen, Last(packets));
      Opens(k, before) + if n.Some? then [n.value] else []
  }

  ghost predicate Ascending(numbers: seq<nat>) {
    forall i, j :: 0 <= i < j < |numbers| ==> numbers[i] < numbers[j]
  }

  function Latest(numbers: seq<nat>): Option<nat> { if numbers == [] then None else Some(Last(numbers)) }

  lemma OpensStep<M>(k: Link<M>, r: Receiver<M>, packet: Bytes)
    ensures var n, after := OpensAs(k, r.lastSeen, packet), Step(k, r, packet);
            && after.lastSeen == (if n.Some? then n else r.lastSeen)
            && (n.Some? && r.lastSeen.Some? ==> r.lastSeen.value < n.value)
            && |after.delivered| <= |r.delivered| + if n.Some? then 1 else 0
  {
  }

  lemma AscendFurther(numbers: seq<nat>, n: nat)
    requires Ascending(numbers) && (numbers != [] ==> Last(numbers) < n)
    ensures Ascending(numbers + [n]) && Latest(numbers + [n]) == Some(n)
  {
  }

  // Over any datagrams at all, damaged headers included, the numbers opened
  // strictly increase: no packet opens twice, and at most one message comes of
  // each.
  lemma {:induction false} NothingOpensTwice<M>(k: Link<M>, packets: seq<Bytes>)
    ensures Ascending(Opens(k, packets)) && After(k, packets).lastSeen == Latest(Opens(k, packets))
    ensures |After(k, packets).delivered| <= |Opens(k, packets)|
    decreases |packets|
  {
    if packets != [] {
      var before := packets[..|packets| - 1];
      var r := After(k, before);
      var n := OpensAs(k, r.lastSeen, Last(packets));
      NothingOpensTwice(k, before);
      OpensStep(k, r, Last(packets));
      if n.Some? {
        AscendFurther(Opens(k, before), n.value);
      } else {
        assert Opens(k, packets) == Opens(k, before);
      }
    }
  }

  // A peer's packet with another tag on it still opens exactly when its number
  // is new; what comes of it is what its plaintext says under that tag.
  lemma RetaggedOpensIff<M>(
    k: Link<M>, r: Receiver<M>, n: nat, sentAs: PacketType, tag: PacketType, body: Bytes, plaintext: Bytes)
    requires n < U64_MAX && HasCounter(sentAs) && HasCounter(tag) && k.open(n, body) == Some(plaintext)
    ensures var packet := Render(PacketView(sentAs, k.sessionId, Some(n), body));
            var read := k.payload(tag, plaintext);
            packet != []
            && Step(k, r, [Tag(tag)] + packet[1..])
               == if r.lastSeen.Some? && n <= r.lastSeen.value then r
                  else Receiver(Some(n), r.delivered + if read.Some? then [read.value] else [])
  {
    var packet := Render(PacketView(sentAs, k.sessionId, Some(n), body));
    assert [Tag(tag)] + packet[1..] == Render(PacketView(tag, k.sessionId, Some(n), body));
    ParseRendered(PacketView(tag, k.sessionId, Some(n), body));
  }

  // ---- A whole session ----

  // What the network hands over: some packet the peer sent, as often and in
  // whatever order it likes, or something else.
  datatype Arrival = Sent(number: nat) | Stray(packet: Bytes)

  ghost predicate PlausibleArrival<M>(k: Link<M>, sent: seq<(Bytes, M)>, a: Arrival) {
    match a
    case Sent(n) => n < |sent|
    case Stray(packet) => Noise(k, packet)
  }

  ghost predicate Plausible<M(!new)>(k: Link<M>, sent: seq<(Bytes, M)>, arrivals: seq<Arrival>) {
    && (forall n :: 0 <= n < |sent| ==> Genuine(k, n, sent[n].0, sent[n].1))
    && (forall t :: 0 <= t < |arrivals| ==> PlausibleArrival(k, sent, arrivals[t]))
  }

  function Datagram<M>(sent: seq<(Bytes, M)>, a: Arrival): Bytes {
    match a
    case Sent(n) => if n < |sent| then sent[n].0 else []
    case Stray(packet) => packet
  }

  function Datagrams<M>(sent: seq<(Bytes, M)>, arrivals: seq<Arrival>): seq<Bytes> {
    seq(|arrivals|, t requires 0 <= t < |arrivals| => Datagram(sent, arrivals[t]))
  }

  // Every packet number that arrived before is smaller.
  ghost predicate Newest(arrivals: seq<Arrival>, n: nat) {
    forall t :: 0 <= t < |arrivals| && arrivals[t].Sent? ==> arrivals[t].number < n
  }

  // The packet numbers that were new highs when they arrived.
  ghost function Highs(arrivals: seq<Arrival>): seq<nat> {
    if arrivals == [] then []
    else
      var before, a := arrivals[..|arrivals| - 1], Last(arrivals);
      Highs(before) + if a.Sent? && Newest(before, a.number) then [a.number] else []
  }

  lemma {:induction false} HighsIncrease(arrivals: seq<Arrival>)
    ensures forall i, j :: 0 <= i < j < |Highs(arrivals)| ==> Highs(arrivals)[i] < Highs(arrivals)[j]
    ensures forall n: nat :: Newest(arrivals, n) <==> Highs(arrivals) == [] || Last(Highs(arrivals)) < n
    decreases |arrivals|
  {
    if arrivals != [] {
      var before, a := arrivals[..|arrivals| - 1], Last(arrivals);
      HighsIncrease(before);
      forall n: nat
        ensures Newest(arrivals, n) <==> Newest(before, n) && (a.Sent? ==> a.number < n)
      {
        assert arrivals == before + [a];
        assert Newest(arrivals, n) ==> forall t :: 0 <= t < |before| ==> arrivals[t] == before[t];
      }
      if a.Sent? && !Newest(before, a.number) { assert Highs(arrivals) == Highs(before); }
    }
  }

  lemma DatagramsAppend<M>(k: Link<M>, sent: seq<(Bytes, M)>, before: seq<Arrival>, a: Arrival)
    ensures After(k, Datagrams(sent, before + [a])) == Step(k, After(k, Datagrams(sent, before)), Datagram(sent, a))
  {
    assert Datagrams(sent, before + [a])[..|before|] == Datagrams(sent, before);
  }

  ghost predicate InRange<M>(sent: seq<(Bytes, M)>, numbers: seq<nat>) {
    forall i :: 0 <= i < |numbers| ==> numbers[i] < |sent|
  }

  // A receiver that has opened exactly the packets with these numbers.
  ghost function Having<M>(sent: seq<(Bytes, M)>, numbers: seq<nat>): Receiver<M>
    requires InRange(sent, numbers)
  {
    Receiver(
      if numbers == [] then None else Some(Last(numbers)),
      seq(|numbers|, i requires 0 <= i < |numbers| => sent[numbers[i]].1))
  }

  // The numbers opened once `a` has arrived too.
  ghost function Opening(numbers: seq<nat>, a: Arrival): seq<nat> {
    if a.Sent? && (numbers == [] || Last(numbers) < a.number) then numbers + [a.number] else numbers
  }

  lemma HighsStep(before: seq<Arrival>, a: Arrival)
    ensures Highs(before + [a]) == Opening(Highs(before), a)
  {
    HighsIncrease(before);
    assert (before + [a])[..|before|] == before;
  }

  lemma ArrivalStep<M(!new)>(k: Link<M>, sent: seq<(Bytes, M)>, numbers: seq<nat>, a: Arrival)
    requires InRange(sent, numbers) && PlausibleArrival(k, sent, a)
    requires a.Sent? ==> Genuine(k, a.number, sent[a.number].0, sent[a.number].1)
    ensures InRange(sent, Opening(numbers, a))
    ensures Step(k, Having(sent, numbers), Datagram(sent, a)) == Having(sent, Opening(numbers, a))
  {
    match a
    case Sent(n) =>
      GenuineOpensIff(k, Having(sent, numbers), n, sent[n].0, sent[n].1);
      assert Having(sent, numbers + [n]).delivered == Having(sent, numbers).delivered + [sent[n].1];
    case Stray(packet) => NoiseChangesNothing(k, Having(sent, numbers), packet);
  }

  // The theorem: the receiver delivers exactly the messages whose packets were
  // new highs on arrival, and its counter is the last of them. Highs increase,
  // so nothing is delivered twice or out of order; stray datagrams change nothing.
  lemma {:induction false} DeliversHighs<M(!new)>(k: Link<M>, sent: seq<(Bytes, M)>, arrivals: seq<Arrival>)
    requires Plausible(k, sent, arrivals)
    ensures InRange(sent, Highs(arrivals))
    ensures After(k, Datagrams(sent, arrivals)) == Having(sent, Highs(arrivals))
    decreases |arrivals|
  {
    if arrivals != [] {
      var last := |arrivals| - 1;
      var before, a := arrivals[..last], arrivals[last];
      assert arrivals == before + [a] && forall t :: 0 <= t < last ==> before[t] == arrivals[t];
      DeliversHighs(k, sent, before);
      DatagramsAppend(k, sent, before, a);
      HighsStep(before, a);
      ArrivalStep(k, sent, Highs(before), a);
    } else {
      assert Datagrams(sent, arrivals) == [];
      assert Having(sent, []).delivered == [];
    }
  }

  // Packet `n` arrived at `t`, before every later one.
  ghost predicate ArrivesNewest(arrivals: seq<Arrival>, n: nat, t: int) {
    0 <= t < |arrivals| && arrivals[t] == Sent(n) && Newest(arrivals[..t], n)
  }

  lemma ArrivesNewestPrefix(arrivals: seq<Arrival>, n: nat, t: int)
    requires arrivals != [] && t < |arrivals| - 1
    ensures ArrivesNewest(arrivals[..|arrivals| - 1], n, t) <==> ArrivesNewest(arrivals, n, t)
  {
    if t >= 0 { assert arrivals[..|arrivals| - 1][..t] == arrivals[..t]; }
  }

  // Message n is delivered exactly when its packet arrives before every later one.
  lemma {:induction false} DeliveredIff(arrivals: seq<Arrival>, n: nat)
    ensures n in Highs(arrivals) <==> exists t :: ArrivesNewest(arrivals, n, t)
    decreases |arrivals|
  {
    if arrivals != [] {
      var last := |arrivals| - 1;
      var before := arrivals[..last];
      DeliveredIff(before, n);
      if n in Highs(before) {
        var t :| ArrivesNewest(before, n, t);
        ArrivesNewestPrefix(arrivals, n, t);
      }
      if ArrivesNewest(arrivals, n, last) { assert n in Highs(arrivals); }
      if t :| ArrivesNewest(arrivals, n, t) {
        if t < last { ArrivesNewestPrefix(arrivals, n, t); }
      }
      if n in Highs(arrivals) && n !in Highs(before) { assert ArrivesNewest(arrivals, n, last); }
    }
  }
}
