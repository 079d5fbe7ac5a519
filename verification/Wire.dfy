// Framing of the control plane: a tag, a session id, a cleartext counter on
// every packet after the handshake, then the ciphertext.
module Wire {
  import opened Prelude

  const PREAMBLE_LEN := 5
  const COUNTER_LEN := 8
  const HEARTBEAT_PT_LEN := 9
  const HEARTBEAT_ACK_PT_LEN := 16
  const AEAD_TAG_LEN := 16
  const MAX_CONTROL_PLAINTEXT_LEN := 17 * 1024
  const MAX_PACKET_LEN := PREAMBLE_LEN + COUNTER_LEN + MAX_CONTROL_PLAINTEXT_LEN + AEAD_TAG_LEN

  datatype PacketType = Handshake1 | Handshake2 | Heartbeat | HeartbeatAck | Rekey | Control | ControlAck

  type SessionId = s: Bytes | |s| == 4 witness [0, 0, 0, 0]

  datatype PacketView = PacketView(packetType: PacketType, sessionId: SessionId, counter: Option<U64>, body: Bytes)

  datatype ParseError = ShortPreamble | UnknownPacketType(tag: Byte) | ShortCounter | WrongLength

  function Tag(t: PacketType): Byte {
    match t
    case Handshake1 => 1
    case Handshake2 => 2
    case Heartbeat => 3
    case HeartbeatAck => 4
    case Rekey => 5
    case Control => 6
    case ControlAck => 7
  }

  function FromTag(tag: Byte): Option<PacketType> {
    match tag
    case 1 => Some(Handshake1)
    case 2 => Some(Handshake2)
    case 3 => Some(Heartbeat)
    case 4 => Some(HeartbeatAck)
    case 5 => Some(Rekey)
    case 6 => Some(Control)
    case 7 => Some(ControlAck)
    case _ => None
  }

  predicate HasCounter(t: PacketType) { !t.Handshake1? && !t.Handshake2? }

  // ---- Big-endian integers ----

  function Pow256(width: nat): nat { if width == 0 then 1 else 0x100 * Pow256(width - 1) }

  function BigEndian(n: nat, width: nat): (r: Bytes)
    ensures |r| == width
  {
    if width == 0 then [] else BigEndian(n / 0x100, width - 1) + [n % 0x100]
  }

  function FromBigEndian(b: Bytes): (n: nat)
    ensures n < Pow256(|b|)
  {
    if b == [] then 0 else FromBigEndian(b[..|b| - 1]) * 0x100 + Last(b)
  }

  lemma {:induction false} BigEndianRoundTrip(n: nat, width: nat)
    requires n < Pow256(width)
    ensures FromBigEndian(BigEndian(n, width)) == n
  {
    if width > 0 {
      BigEndianRoundTrip(n / 0x100, width - 1);
      assert BigEndian(n, width)[..width - 1] == BigEndian(n / 0x100, width - 1);
    }
  }

  lemma {:induction false} BigEndianOnto(b: Bytes)
    ensures BigEndian(FromBigEndian(b), |b|) == b
  {
    if b != [] {
      var head := b[..|b| - 1];
      BigEndianOnto(head);
      assert FromBigEndian(b) / 0x100 == FromBigEndian(head);
    }
  }

  lemma Pow256Of8()
    ensures Pow256(8) == 0x1_0000_0000_0000_0000
  {
    assert Pow256(4) == 0x1_0000_0000;
    assert Pow256(6) == 0x100 * Pow256(5) && Pow256(7) == 0x100 * Pow256(6) && Pow256(8) == 0x100 * Pow256(7);
  }

  function FromBytes8(b: Bytes): U64
    requires |b| == COUNTER_LEN
  {
    Pow256Of8();
    FromBigEndian(b)
  }

  lemma Bytes8RoundTrip(n: U64)
    ensures FromBytes8(BigEndian(n, COUNTER_LEN)) == n
  {
    Pow256Of8();
    BigEndianRoundTrip(n, COUNTER_LEN);
  }

  // ---- Packets ----

  // Exactly the post-handshake packets carry a counter.
  predicate WellFormed(v: PacketView) { v.counter.Some? <==> HasCounter(v.packetType) }

  // The packet a view is a view of.
  function Render(v: PacketView): Bytes {
    [Tag(v.packetType)] + v.sessionId
    + (if v.counter.Some? then BigEndian(v.counter.value, COUNTER_LEN) else []) + v.body
  }

  function Parse(buf: Bytes): Result<PacketView, ParseError> {
    if |buf| < PREAMBLE_LEN then Err(ShortPreamble)
    else if FromTag(buf[0]).None? then Err(UnknownPacketType(buf[0]))
    else
      var t, sid := FromTag(buf[0]).value, buf[1..PREAMBLE_LEN];
      if HasCounter(t) then
        if |buf| < PREAMBLE_LEN + COUNTER_LEN then Err(ShortCounter)
        else
          Ok(PacketView(t, sid, Some(FromBytes8(buf[PREAMBLE_LEN..PREAMBLE_LEN + COUNTER_LEN])),
                        buf[PREAMBLE_LEN + COUNTER_LEN..]))
      else Ok(PacketView(t, sid, None, buf[PREAMBLE_LEN..]))
  }

  lemma ParseRendered(v: PacketView)
    requires WellFormed(v)
    ensures Parse(Render(v)) == Ok(v)
  {
    var buf := Render(v);
    assert buf[1..5] == v.sessionId;
    if v.counter.Some? {
      Bytes8RoundTrip(v.counter.value);
      assert buf[5..13] == BigEndian(v.counter.value, COUNTER_LEN);
      assert buf[13..] == v.body;
    } else {
      assert buf[5..] == v.body;
    }
  }

  // Parsing loses nothing, and fails exactly on short or unknown packets.
  lemma RenderParsed(buf: Bytes)
    ensures Parse(buf).Ok? ==> WellFormed(Parse(buf).value) && Render(Parse(buf).value) == buf
    ensures Parse(buf).Ok? <==> exists v :: WellFormed(v) && Render(v) == buf
  {
    if Parse(buf).Ok? {
      var v := Parse(buf).value;
      if v.counter.Some? {
        BigEndianOnto(buf[5..13]);
        assert buf == [buf[0]] + buf[1..5] + buf[5..13] + buf[13..];
      } else {
        assert buf == [buf[0]] + buf[1..5] + buf[5..];
      }
      assert WellFormed(v) && Render(v) == buf;
    }
    if v :| WellFormed(v) && Render(v) == buf { ParseRendered(v); }
  }

  // On the wire: one byte of type, four of session, eight of counter, highest
  // first, and then the ciphertext; handshakes have no counter.
  lemma PacketBytes(body: Bytes)
    ensures Render(PacketView(Heartbeat, [0xDE, 0xAD, 0xBE, 0xEF], Some(0x0102), body))
         == [3, 0xDE, 0xAD, 0xBE, 0xEF] + [0, 0, 0, 0, 0, 0, 1, 2] + body
    ensures Render(PacketView(Handshake1, [0, 0, 0, 0], None, body)) == [1, 0, 0, 0, 0] + body
  {
    HighestFirst();
    assert Tag(Heartbeat) == 3 && Tag(Handshake1) == 1;
    assert [3] + [0xDE, 0xAD, 0xBE, 0xEF] == [3, 0xDE, 0xAD, 0xBE, 0xEF];
    assert [1] + [0, 0, 0, 0] == [1, 0, 0, 0, 0];
  }

  lemma HighestFirst()
    ensures BigEndian(0x0102, 8) == [0, 0, 0, 0, 0, 0, 1, 2]
  {
    assert BigEndian(0, 2) == [0, 0];
    assert BigEndian(0, 4) == [0, 0, 0, 0];
    assert BigEndian(0, 6) == [0, 0, 0, 0, 0, 0];
    assert BigEndian(1, 7) == BigEndian(0, 6) + [1];
    assert BigEndian(0x0102, 8) == BigEndian(1, 7) + [2];
  }

  // The seven types and their bytes; any other byte is refused by name.
  lemma TypeBytes(tag: Byte, rest: Bytes)
    requires |rest| >= 12
    ensures 1 <= tag <= 7
            ==> && Parse([tag] + rest).Ok?
                && Parse([tag] + rest).value.packetType
                   == [Handshake1, Handshake2, Heartbeat, HeartbeatAck, Rekey, Control, ControlAck][tag - 1]
    ensures tag == 0 || tag > 7 ==> Parse([tag] + rest) == Err(UnknownPacketType(tag))
  {
  }

  // ---- Heartbeat payloads ----

  function EncodeHeartbeat(timestampMs: U64, flags: Byte): Bytes { BigEndian(timestampMs, 8) + [flags] }

  function DecodeHeartbeat(b: Bytes): Result<(U64, Byte), ParseError> {
    if |b| != HEARTBEAT_PT_LEN then Err(WrongLength) else Ok((FromBytes8(b[..8]), b[8]))
  }

  function EncodeHeartbeatAck(echoed: U64, serverTsMs: U64): Bytes { BigEndian(echoed, 8) + BigEndian(serverTsMs, 8) }

  function DecodeHeartbeatAck(b: Bytes): Result<(U64, U64), ParseError> {
    if |b| != HEARTBEAT_ACK_PT_LEN then Err(WrongLength) else Ok((FromBytes8(b[..8]), FromBytes8(b[8..])))
  }

  lemma HeartbeatRoundTrip(timestampMs: U64, flags: Byte)
    ensures DecodeHeartbeat(EncodeHeartbeat(timestampMs, flags)) == Ok((timestampMs, flags))
  {
    Bytes8RoundTrip(timestampMs);
    assert EncodeHeartbeat(timestampMs, flags)[..8] == BigEndian(timestampMs, 8);
  }

  lemma HeartbeatAckRoundTrip(echoed: U64, serverTsMs: U64)
    ensures DecodeHeartbeatAck(EncodeHeartbeatAck(echoed, serverTsMs)) == Ok((echoed, serverTsMs))
  {
    Bytes8RoundTrip(echoed);
    Bytes8RoundTrip(serverTsMs);
    assert EncodeHeartbeatAck(echoed, serverTsMs)[..8] == BigEndian(echoed, 8);
    assert EncodeHeartbeatAck(echoed, serverTsMs)[8..] == BigEndian(serverTsMs, 8);
  }
}
