/**
  The wire format of the drone radio link: the `DroneMessageType` tag space
  and the packed 43-byte `DroneMessage` record. Multi-byte fields are laid
  out little-endian, as the packed struct sits in ESP32 memory and is sent
  byte for byte.
 */
module Message {
  import opened Wrappers
  import opened FixedWidth
  import opened Checksum
  import opened Bitwise

  /** Size of the packed record on the wire: `sizeof(DroneMessage)`. */
  const PACKET_SIZE: nat := 43
  /** Offset of the checksum byte, which is also the number of bytes it covers. */
  const CHECKSUM_OFFSET: nat := 42
  /** Capacity of the payload array `data[32]`. */
  const PAYLOAD_CAPACITY: nat := 32
  /** Destination identifier meaning "every node". */
  const BROADCAST_ID: byte := 0xFF

  const TYPE_OFFSET: nat := 0
  const SOURCE_OFFSET: nat := 1
  const DESTINATION_OFFSET: nat := 2
  const TIMESTAMP_OFFSET: nat := 3
  const SEQUENCE_OFFSET: nat := 7
  const LENGTH_OFFSET: nat := 9
  const PAYLOAD_OFFSET: nat := 10

  /** The eleven named message categories; only the first two have producers in the firmware. */
  datatype MessageType =
    | Heartbeat
    | Gossip
    | MutexRequest
    | MutexResponse
    | RaftVoteRequest
    | RaftVoteResponse
    | MissionUpdate
    | TargetFound
    | EmergencyStop
    | StatusRequest
    | StatusResponse

  /** The enumerator's value in the `messageType` byte. */
  function Tag(t: MessageType): byte
  {
    match t
    case Heartbeat => 0x01
    case Gossip => 0x02
    case MutexRequest => 0x03
    case MutexResponse => 0x04
    case RaftVoteRequest => 0x05
    case RaftVoteResponse => 0x06
    case MissionUpdate => 0x07
    case TargetFound => 0x08
    case EmergencyStop => 0x09
    case StatusRequest => 0x0A
    case StatusResponse => 0x0B
  }

  /** The named category a tag byte denotes, if any. */
  function TypeOfTag(b: byte): (r: Option<MessageType>)
    ensures r.Some? <==> 0x01 <= b <= 0x0B
    ensures r.Some? ==> Tag(r.value) == b
  {
    if b == 0x01 then Some(Heartbeat)
    else if b == 0x02 then Some(Gossip)
    else if b == 0x03 then Some(MutexRequest)
    else if b == 0x04 then Some(MutexResponse)
    else if b == 0x05 then Some(RaftVoteRequest)
    else if b == 0x06 then Some(RaftVoteResponse)
    else if b == 0x07 then Some(MissionUpdate)
    else if b == 0x08 then Some(TargetFound)
    else if b == 0x09 then Some(EmergencyStop)
    else if b == 0x0A then Some(StatusRequest)
    else if b == 0x0B then Some(StatusResponse)
    else None
  }

  /** Every category has a tag in 0x01..0x0B, the tag maps back to it, and so no two categories share a tag. */
  lemma TagRoundTrip(t: MessageType, u: MessageType)
    ensures 0x01 <= Tag(t) <= 0x0B
    ensures TypeOfTag(Tag(t)) == Some(t)
    ensures Tag(t) == Tag(u) ==> t == u
  {
    match t
    case Heartbeat =>
    case Gossip =>
    case MutexRequest =>
    case MutexResponse =>
    case RaftVoteRequest =>
    case RaftVoteResponse =>
    case MissionUpdate =>
    case TargetFound =>
    case EmergencyStop =>
    case StatusRequest =>
    case StatusResponse =>
  }

  /** The fixed-capacity payload array `uint8_t data[32]`, all 32 bytes of it. */
  type Payload = s: seq<byte> | |s| == PAYLOAD_CAPACITY witness seq(PAYLOAD_CAPACITY, _ => 0)

  /**
    One `DroneMessage`. `messageType` is a raw byte because a received frame
    may carry any value there; `dataLength` is never checked against the
    payload capacity on receive.
   */
  datatype Packet = Packet(
    messageType: byte,
    sourceId: byte,
    destinationId: byte,
    timestamp: uint32,
    sequenceNumber: uint16,
    dataLength: byte,
    data: Payload,
    checksum: byte)

  /** Little-endian encoding of a 16-bit field. */
  function Le16(x: uint16): (b: seq<byte>)
    ensures |b| == 2
  {
    [x % 0x100, x / 0x100]
  }

  /** Little-endian decoding of a 16-bit field. */
  function FromLe16(b: seq<byte>): uint16
    requires |b| == 2
  {
    b[0] as int + 0x100 * (b[1] as int)
  }

  /** Little-endian encoding of a 32-bit field: low half first. */
  function Le32(x: uint32): (b: seq<byte>)
    ensures |b| == 4
  {
    Le16(x % U16_MODULUS) + Le16(x / U16_MODULUS)
  }

  /** Little-endian decoding of a 32-bit field. */
  function FromLe32(b: seq<byte>): uint32
    requires |b| == 4
  {
    FromLe16(b[..2]) + U16_MODULUS * FromLe16(b[2..])
  }

  /** Quotient and remainder are determined by any decomposition `n == q * d + r` with `0 <= r < d`. */
  lemma DivModUnique(n: int, d: int, q: int, r: int)
    requires d == 0x100 || d == U16_MODULUS
    requires n == q * d + r && 0 <= r < d
    ensures n / d == q && n % d == r
  {
  }

  /** Decoding undoes encoding and encoding undoes decoding, for 16-bit fields. */
  lemma Le16RoundTrip(x: uint16, b: seq<byte>)
    requires |b| == 2
    ensures FromLe16(Le16(x)) == x
    ensures Le16(FromLe16(b)) == b
  {
    DivModUnique(FromLe16(b), 0x100, b[1], b[0]);
  }

  /** Decoding undoes encoding and encoding undoes decoding, for 32-bit fields. */
  lemma Le32RoundTrip(x: uint32, b: seq<byte>)
    requires |b| == 4
    ensures FromLe32(Le32(x)) == x
    ensures Le32(FromLe32(b)) == b
  {
    var lo, hi := x % U16_MODULUS, x / U16_MODULUS;
    Le16RoundTrip(lo, b[..2]);
    Le16RoundTrip(hi, b[2..]);
    assert Le32(x)[..2] == Le16(lo) && Le32(x)[2..] == Le16(hi);
    var n := FromLe32(b);
    DivModUnique(n, U16_MODULUS, FromLe16(b[2..]), FromLe16(b[..2]));
    assert b == b[..2] + b[2..];
  }

  /** The packed record as the 43 bytes the radio sends. */
  function Serialize(p: Packet): (w: seq<byte>)
    ensures |w| == PACKET_SIZE
  {
    [p.messageType, p.sourceId, p.destinationId] + Le32(p.timestamp) + Le16(p.sequenceNumber)
      + [p.dataLength] + p.data + [p.checksum]
  }

  /** Reading 43 received bytes back into the packed record. */
  function Parse(w: seq<byte>): Packet
    requires |w| == PACKET_SIZE
  {
    Packet(w[TYPE_OFFSET], w[SOURCE_OFFSET], w[DESTINATION_OFFSET],
      FromLe32(w[TIMESTAMP_OFFSET..SEQUENCE_OFFSET]), FromLe16(w[SEQUENCE_OFFSET..LENGTH_OFFSET]),
      w[LENGTH_OFFSET], w[PAYLOAD_OFFSET..CHECKSUM_OFFSET], w[CHECKSUM_OFFSET])
  }

  /** Field offsets of the packed layout: each field occupies exactly its documented bytes. */
  lemma SerializeLayout(p: Packet)
    ensures Serialize(p)[TYPE_OFFSET] == p.messageType
    ensures Serialize(p)[SOURCE_OFFSET] == p.sourceId
    ensures Serialize(p)[DESTINATION_OFFSET] == p.destinationId
    ensures Serialize(p)[TIMESTAMP_OFFSET..SEQUENCE_OFFSET] == Le32(p.timestamp)
    ensures Serialize(p)[SEQUENCE_OFFSET..LENGTH_OFFSET] == Le16(p.sequenceNumber)
    ensures Serialize(p)[LENGTH_OFFSET] == p.dataLength
    ensures Serialize(p)[PAYLOAD_OFFSET..CHECKSUM_OFFSET] == p.data
    ensures Serialize(p)[CHECKSUM_OFFSET] == p.checksum
    ensures CHECKSUM_OFFSET == PACKET_SIZE - 1
  {
  }

  /** Parsing the bytes of a packet gives back every field. */
  lemma ParseSerialize(p: Packet)
    ensures Parse(Serialize(p)) == p
  {
    SerializeLayout(p);
    Le16RoundTrip(p.sequenceNumber, [0, 0]);
    Le32RoundTrip(p.timestamp, [0, 0, 0, 0]);
  }

  /** Serialising a parsed frame gives back exactly the received bytes. */
  lemma SerializeParse(w: seq<byte>)
    requires |w| == PACKET_SIZE
    ensures Serialize(Parse(w)) == w
  {
    var p := Parse(w);
    Le16RoundTrip(0, w[SEQUENCE_OFFSET..LENGTH_OFFSET]);
    Le32RoundTrip(0, w[TIMESTAMP_OFFSET..SEQUENCE_OFFSET]);
    SerializeLayout(p);
    assert Serialize(p) == w;
  }

  /** The 42 bytes the checksum covers: everything but the checksum byte. */
  function CoveredBytes(p: Packet): (c: seq<byte>)
    ensures |c| == CHECKSUM_OFFSET
  {
    Serialize(p)[..CHECKSUM_OFFSET]
  }

  /** `calculateChecksum` over the first `sizeof(DroneMessage) - 1` bytes of the record. */
  function ComputeChecksum(p: Packet): byte
  {
    XorFold(CoveredBytes(p))
  }

  /** `validateChecksum`: the stored checksum equals the XOR of the covered bytes. */
  predicate ValidateChecksum(p: Packet)
  {
    ComputeChecksum(p) == p.checksum
  }

  /** The record with its checksum field filled in from the other fields. */
  function Seal(p: Packet): (q: Packet)
    ensures ValidateChecksum(q)
    ensures q.(checksum := p.checksum) == p
  {
    var q := p.(checksum := ComputeChecksum(p));
    assert CoveredBytes(q) == CoveredBytes(p);
    q
  }

  /** A received frame passes validation exactly when its last byte is the XOR of the other 42. */
  lemma FrameValidity(w: seq<byte>)
    requires |w| == PACKET_SIZE
    ensures ValidateChecksum(Parse(w)) <==> XorFold(w[..CHECKSUM_OFFSET]) == w[CHECKSUM_OFFSET]
  {
    SerializeParse(w);
  }

  /** Corrupting any one byte of a valid frame, checksum byte included, makes validation fail. */
  lemma SingleByteCorruptionDetected(w: seq<byte>, i: nat, v: byte)
    requires |w| == PACKET_SIZE && i < PACKET_SIZE
    requires ValidateChecksum(Parse(w))
    requires v != w[i]
    ensures !ValidateChecksum(Parse(w[i := v]))
  {
    FrameValidity(w);
    FrameValidity(w[i := v]);
    if i < CHECKSUM_OFFSET {
      assert w[i := v][..CHECKSUM_OFFSET] == w[..CHECKSUM_OFFSET][i := v];
      SingleByteChangeDetected(w[..CHECKSUM_OFFSET], i, v);
    } else {
      assert w[i := v][..CHECKSUM_OFFSET] == w[..CHECKSUM_OFFSET];
    }
  }

  /** Two corruptions of covered bytes whose XOR differences cancel pass validation. */
  lemma CancellingCorruptionUndetected(w: seq<byte>, i: nat, v: byte, j: nat, u: byte)
    requires |w| == PACKET_SIZE && i < CHECKSUM_OFFSET && j < CHECKSUM_OFFSET && i != j
    requires ValidateChecksum(Parse(w))
    requires Xor(w[i], v) == Xor(w[j], u)
    ensures ValidateChecksum(Parse(w[i := v][j := u]))
  {
    FrameValidity(w);
    FrameValidity(w[i := v][j := u]);
    assert w[i := v][j := u][..CHECKSUM_OFFSET] == w[..CHECKSUM_OFFSET][i := v][j := u];
    CancellingChangesUndetected(w[..CHECKSUM_OFFSET], i, v, j, u);
  }
}
