// An established session: outbound packets take consecutive counters, inbound
// ones must raise the last counter seen.
module Session {
  import opened Prelude
  import opened Postcard
  import opened ControlFrame
  import opened Wire
  import opened Delivery

  // One direction of an ideal AEAD under a fixed key.
  datatype Aead = Aead(seal: (U64, Bytes) -> Bytes, open: (U64, Bytes) -> Option<Bytes>)

  ghost predicate Ideal(a: Aead) {
    forall n, p :: |a.seal(n, p)| == |p| + AEAD_TAG_LEN && a.open(n, a.seal(n, p)) == Some(p)
  }

  datatype Message =
    | HeartbeatMsg(timestampMs: U64, flags: Byte)
    | HeartbeatAckMsg(echoed: U64, serverTsMs: U64)
    | RekeyMsg
    | ControlMsg(envelope: Envelope)
    | ControlAckMsg(ack: Ack)

  function Kind(m: Message): (t: PacketType)
    ensures HasCounter(t)
  {
    match m
    case HeartbeatMsg(_, _) => Heartbeat
    case HeartbeatAckMsg(_, _) => HeartbeatAck
    case RekeyMsg => Rekey
    case ControlMsg(_) => Control
    case ControlAckMsg(_) => ControlAck
  }

  function Plaintext(m: Message): Bytes {
    match m
    case HeartbeatMsg(ts, flags) => EncodeHeartbeat(ts, flags)
    case HeartbeatAckMsg(echoed, ts) => EncodeHeartbeatAck(echoed, ts)
    case RekeyMsg => []
    case ControlMsg(e) => EncodeEnvelope(e)
    case ControlAckMsg(a) => EncodeAck(a)
  }

  // The decoders that run on an opened plaintext, one per packet type.
  function Payload(t: PacketType, b: Bytes): Option<Message> {
    match t
    case Handshake1 | Handshake2 => None
    case Heartbeat =>
      (match DecodeHeartbeat(b) case Err(_) => None case Ok(p) => Some(HeartbeatMsg(p.0, p.1)))
    case HeartbeatAck =>
      (match DecodeHeartbeatAck(b) case Err(_) => None case Ok(p) => Some(HeartbeatAckMsg(p.0, p.1)))
    case Rekey => if b == [] then Some(RekeyMsg) else None
    case Control => (match TakeEnvelope(b) case Fail => None case Got(e, _) => Some(ControlMsg(e)))
    case ControlAck => (match TakeAck(b) case Fail => None case Got(a, _) => Some(ControlAckMsg(a)))
  }

  // What each message looks like before it is sealed.
  lemma PlaintextBytes(m: Message)
    ensures m.HeartbeatMsg? ==> Plaintext(m) == BigEndian(m.timestampMs, 8) + [m.flags]
    ensures m.HeartbeatAckMsg? ==> Plaintext(m) == BigEndian(m.echoed, 8) + BigEndian(m.serverTsMs, 8)
    ensures m.RekeyMsg? ==> Plaintext(m) == []
    ensures m.ControlMsg? ==> Plaintext(m) == EncodeEnvelope(m.envelope)
    ensures m.ControlAckMsg? ==> Plaintext(m) == EncodeAck(m.ack)
  {
  }

  // Which byte each message goes out under.
  lemma KindBytes(m: Message)
    ensures Tag(Kind(m))
            == if m.HeartbeatMsg? then 3 else if m.HeartbeatAckMsg? then 4 else if m.RekeyMsg? then 5
               else if m.ControlMsg? then 6 else 7
  {
  }

  lemma PayloadRoundTrip(m: Message)
    requires m.ControlMsg? ==> |m.envelope.body| <= U64_MAX
    ensures Payload(Kind(m), Plaintext(m)) == Some(m)
  {
    match m
    case HeartbeatMsg(ts, flags) => HeartbeatRoundTrip(ts, flags);
    case HeartbeatAckMsg(echoed, ts) => HeartbeatAckRoundTrip(echoed, ts);
    case RekeyMsg =>
    case ControlMsg(e) => EnvelopeRoundTrip(e);
    case ControlAckMsg(a) => AckRoundTrip(a);
  }

  // The packet that carries `plaintext` with counter `n`.
  function Packet(sessionId: SessionId, a: Aead, t: PacketType, n: U64, plaintext: Bytes): Bytes
    requires HasCounter(t)
  {
    Render(PacketView(t, sessionId, Some(n), a.seal(n, plaintext)))
  }

  // Sealing succeeds while the ciphertext fits its buffer and nonces last.
  predicate Sealable(n: U64, plaintext: Bytes) { |plaintext| + AEAD_TAG_LEN <= MAX_PACKET_LEN && n < U64_MAX }

  class Session {
    const sessionId: SessionId
    const outgoing: Aead
    const incoming: Aead
    var sendNonce: U64
    var lastSeen: Option<nat>

    constructor (sessionId: SessionId, outgoing: Aead, incoming: Aead)
      ensures this.sessionId == sessionId && this.outgoing == outgoing && this.incoming == incoming
      ensures sendNonce == 0 && lastSeen == None
    {
      this.sessionId, this.outgoing, this.incoming := sessionId, outgoing, incoming;
      sendNonce, lastSeen := 0, None;
    }

    function Incoming(): Link<Message> { Link(sessionId, incoming.open, Payload) }

    method EncodePacket(t: PacketType, plaintext: Bytes) returns (r: Option<(U64, Bytes)>)
      requires HasCounter(t)
      modifies this`sendNonce
      ensures r.Some? <==> Sealable(old(sendNonce), plaintext)
      ensures r.Some? ==> r.value == (old(sendNonce), Packet(sessionId, outgoing, t, old(sendNonce), plaintext))
      ensures sendNonce == if r.Some? then old(sendNonce) + 1 else old(sendNonce)
    {
      var counter := sendNonce;
      if !Sealable(counter, plaintext) { return None; }
      var ciphertext := outgoing.seal(counter, plaintext);
      sendNonce := sendNonce + 1;
      var packet: Bytes := [];
      packet := packet + [Tag(t)];
      packet := packet + sessionId;
      packet := packet + BigEndian(counter, COUNTER_LEN);
      packet := packet + ciphertext;
      assert packet == Packet(sessionId, outgoing, t, counter, plaintext);
      r := Some((counter, packet));
    }

    method Encode(m: Message) returns (r: Option<(U64, Bytes)>)
      modifies this`sendNonce
      ensures r.Some? <==> Sealable(old(sendNonce), Plaintext(m))
      ensures r.Some?
              ==> r.value == (old(sendNonce), Packet(sessionId, outgoing, Kind(m), old(sendNonce), Plaintext(m)))
      ensures sendNonce == if r.Some? then old(sendNonce) + 1 else old(sendNonce)
    {
      r := EncodePacket(Kind(m), Plaintext(m));
    }

    method DecodePacket(expected: PacketType, v: PacketView) returns (r: Result<Bytes, DecodeError>)
      modifies this`lastSeen
      ensures r == Opened(Incoming(), old(lastSeen), expected, v)
      ensures lastSeen == if r.Ok? then v.counter else old(lastSeen)
    {
      if v.packetType != expected { return Err(UnexpectedType); }
      if v.sessionId != sessionId { return Err(SessionMismatch); }
      if v.counter.None? { return Err(MissingCounter); }
      var counter := v.counter.value;
      if lastSeen.Some? {
        if counter <= lastSeen.value { return Err(Replay); }
      }
      var plaintext := incoming.open(counter, v.body);
      if plaintext.None? { return Err(NotAuthentic); }
      lastSeen := Some(counter);
      r := Ok(plaintext.value);
    }

    method Decode(expected: PacketType, v: PacketView) returns (r: Result<Message, DecodeError>)
      modifies this`lastSeen
      ensures (r, lastSeen) == Decoded(Incoming(), old(lastSeen), expected, v)
    {
      var plain := DecodePacket(expected, v);
      if plain.Err? { return Err(plain.error); }
      var m := Payload(expected, plain.value);
      r := if m.None? then Err(BadPayload) else Ok(m.value);
    }
  }

  // Two ends of one session: what one encodes, the other finds genuine, so the
  // delivery theorem applies to it.
  lemma EncodedIsGenuine(sessionId: SessionId, a: Aead, n: U64, m: Message)
    requires Ideal(a) && n < U64_MAX && (m.ControlMsg? ==> |m.envelope.body| <= U64_MAX)
    ensures Genuine(Link(sessionId, a.open, Payload), n, Packet(sessionId, a, Kind(m), n, Plaintext(m)), m)
  {
    PayloadRoundTrip(m);
    assert a.open(n, a.seal(n, Plaintext(m))) == Some(Plaintext(m));
  }

  function Outbox(sessionId: SessionId, a: Aead, ms: seq<Message>): seq<(Bytes, Message)>
    requires |ms| <= U64_MAX
  {
    seq(|ms|, n requires 0 <= n < |ms| => (Packet(sessionId, a, Kind(ms[n]), n, Plaintext(ms[n])), ms[n]))
  }

  // Session delivery, end to end: whatever the network drops, repeats or
  // reorders, and whatever stray datagrams it adds, the receiver hands up a
  // subsequence of the messages sent, namely those whose packets were new highs.
  lemma SessionDelivery(sessionId: SessionId, a: Aead, ms: seq<Message>, arrivals: seq<Arrival>)
    requires Ideal(a) && |ms| <= U64_MAX
    requires forall n :: 0 <= n < |ms| && ms[n].ControlMsg? ==> |ms[n].envelope.body| <= U64_MAX
    requires var k := Link(sessionId, a.open, Payload);
             forall t :: 0 <= t < |arrivals| ==> PlausibleArrival(k, Outbox(sessionId, a, ms), arrivals[t])
    ensures var highs := Highs(arrivals);
            && (forall i, j :: 0 <= i < j < |highs| ==> highs[i] < highs[j])
            && (forall i :: 0 <= i < |highs| ==> highs[i] < |ms|)
            && After(Link(sessionId, a.open, Payload), Datagrams(Outbox(sessionId, a, ms), arrivals)).delivered
               == seq(|highs|, i requires 0 <= i < |highs| => ms[highs[i]])
  {
    var k, sent := Link(sessionId, a.open, Payload), Outbox(sessionId, a, ms);
    forall n | 0 <= n < |sent|
      ensures Genuine(k, n, sent[n].0, sent[n].1)
    {
      EncodedIsGenuine(sessionId, a, n, ms[n]);
    }
    DeliversHighs(k, sent, arrivals);
    HighsIncrease(arrivals);
  }

  lemma PacketLength(sessionId: SessionId, a: Aead, t: PacketType, n: U64, plaintext: Bytes)
    requires Ideal(a) && HasCounter(t)
    ensures |Packet(sessionId, a, t, n, plaintext)| == PREAMBLE_LEN + COUNTER_LEN + AEAD_TAG_LEN + |plaintext|
  {
  }

  // An encoded packet respects the maximum exactly up to the declared
  // plaintext maximum; the buffer check alone lets 13 more bytes through.
  lemma PacketFitsIff(sessionId: SessionId, a: Aead, t: PacketType, n: U64, plaintext: Bytes)
    requires Ideal(a) && HasCounter(t) && Sealable(n, plaintext)
    ensures |Packet(sessionId, a, t, n, plaintext)| <= MAX_PACKET_LEN <==> |plaintext| <= MAX_CONTROL_PLAINTEXT_LEN
    ensures |plaintext| <= MAX_CONTROL_PLAINTEXT_LEN + PREAMBLE_LEN + COUNTER_LEN
  {
    PacketLength(sessionId, a, t, n, plaintext);
  }

  // The first plaintext that is sealed into a packet over the maximum.
  lemma OverlongPacket(sessionId: SessionId, a: Aead, t: PacketType, n: U64, plaintext: Bytes)
    requires Ideal(a) && HasCounter(t) && n < U64_MAX && |plaintext| == 17_409 == MAX_CONTROL_PLAINTEXT_LEN + 1
    ensures Sealable(n, plaintext) && |Packet(sessionId, a, t, n, plaintext)| == 17_438 == MAX_PACKET_LEN + 1
  {
    PacketLength(sessionId, a, t, n, plaintext);
  }

  // Any envelope with a body of at most 16 KiB is sealed and fits one packet.
  lemma EnvelopePacketFits(sessionId: SessionId, a: Aead, n: U64, e: Envelope)
    requires Ideal(a) && n < U64_MAX && |e.body| <= BODY_MAX_BYTES
    ensures Sealable(n, EncodeEnvelope(e))
    ensures |Packet(sessionId, a, Control, n, EncodeEnvelope(e))| <= MAX_PACKET_LEN
  {
    EnvelopeSize(e);
    PacketLength(sessionId, a, Control, n, EncodeEnvelope(e));
  }
}
