// What travels inside control packets: envelopes, acknowledgements and the
// registry of body types.
module ControlFrame {
  import opened Prelude
  import opened Postcard

  datatype AckStatus = AckOk | Reject(code: U16) | AckUnknown
  datatype Envelope = Envelope(number: U32, bodyType: Byte, body: Bytes)
  datatype Ack = Ack(number: U32, status: AckStatus)

  datatype BodyType =
    | Reserved
    | Noop
    | PredicateSetUpdate
    | ChainHopQuery
    | ChainHopReply
    | CanaryArm
    | CanaryReply

  function AsByte(t: BodyType): Byte {
    match t
    case Reserved => 0
    case Noop => 1
    case PredicateSetUpdate => 2
    case ChainHopQuery => 3
    case ChainHopReply => 4
    case CanaryArm => 5
    case CanaryReply => 6
  }

  function FromByte(b: Byte): (r: Option<BodyType>)
    ensures forall t :: r == Some(t) <==> b == AsByte(t)
    ensures b > 6 ==> r == None
    ensures b <= 6 ==> r == Some([Reserved, Noop, PredicateSetUpdate, ChainHopQuery, ChainHopReply, CanaryArm,
                                  CanaryReply][b])
  {
    match b
    case 0 => Some(Reserved)
    case 1 => Some(Noop)
    case 2 => Some(PredicateSetUpdate)
    case 3 => Some(ChainHopQuery)
    case 4 => Some(ChainHopReply)
    case 5 => Some(CanaryArm)
    case 6 => Some(CanaryReply)
    case _ => None
  }

  function EncodeEnvelope(e: Envelope): Bytes { EncodeVarint(e.number) + ([e.bodyType] + EncodeBlob(e.body)) }

  function TakeEnvelope(b: Bytes): Parsed<Envelope> {
    var (number, b1) :- TakeU32(b);
    var (kind, b2) :- TakeRaw(b1, 1);
    var (body, b3) :- TakeBlob(b2);
    Got(Envelope(number, kind[0], body), b3)
  }

  function EncodeAck(a: Ack): Bytes {
    EncodeVarint(a.number)
    + match a.status
      case AckOk => [0]
      case Reject(code) => [1] + EncodeVarint(code)
      case AckUnknown => [2]
  }

  function TakeStatus(b: Bytes): Parsed<AckStatus> {
    var (tag, b1) :- TakeU32(b);
    if tag == 0 then Got(AckOk, b1)
    else if tag == 1 then
      var (code, b2) :- TakeU16(b1);
      Got(Reject(code), b2)
    else if tag == 2 then Got(AckUnknown, b1)
    else Fail
  }

  function TakeAck(b: Bytes): Parsed<Ack> {
    var (number, b1) :- TakeU32(b);
    var (status, b2) :- TakeStatus(b1);
    Got(Ack(number, status), b2)
  }

  lemma EnvelopeRoundTrip(e: Envelope)
    requires |e.body| <= U64_MAX
    ensures TakeEnvelope(EncodeEnvelope(e)) == Got(e, [])
  {
    U32RoundTrip(e.number, [e.bodyType] + EncodeBlob(e.body));
    RawRoundTrip([e.bodyType], EncodeBlob(e.body));
    BlobRoundTrip(e.body, []);
    assert EncodeBlob(e.body) + [] == EncodeBlob(e.body);
  }

  lemma AckRoundTrip(a: Ack)
    ensures TakeAck(EncodeAck(a)) == Got(a, [])
  {
    var tag := if a.status.AckOk? then 0 else if a.status.Reject? then 1 else 2;
    var tail := if a.status.Reject? then EncodeVarint(a.status.code) else [];
    assert EncodeVarint(tag) == [tag];
    U32RoundTrip(a.number, [tag] + tail);
    U32RoundTrip(tag, tail);
    if a.status.Reject? {
      U16RoundTrip(a.status.code, []);
      assert tail + [] == tail;
    }
    assert EncodeAck(a) == EncodeVarint(a.number) + ([tag] + tail);
  }

  // On the wire: number, type, length and body; number and one tag per status.
  lemma FrameBytes()
    ensures EncodeEnvelope(Envelope(300, 2, [7, 8])) == [0xAC, 0x02, 2, 2, 7, 8]
    ensures EncodeAck(Ack(5, AckOk)) == [5, 0] && EncodeAck(Ack(5, AckUnknown)) == [5, 2]
    ensures EncodeAck(Ack(5, Reject(300))) == [5, 1, 0xAC, 0x02]
  {
    assert EncodeVarint(2) == [2];
    assert EncodeVarint(300) == [0xAC, 0x02];
  }

  // The largest body a sender puts in an envelope, and what it grows to.
  const BODY_MAX_BYTES := 16 * 1024

  lemma EnvelopeSize(e: Envelope)
    requires |e.body| <= BODY_MAX_BYTES
    ensures |EncodeEnvelope(e)| <= |e.body| + 9
  {
    U32RoundTrip(e.number, []);
    assert |EncodeVarint(|e.body|)| <= 3;
  }
}
