/**
  The `DroneComm` packet codec and its link statistics, as a deterministic
  state machine over `(nodeId, sequenceCounter, initialized, stats)`.
  The LoRa radio is replaced by explicit inputs: the boolean the driver
  returns from `endPacket`, the inbound frame (absent when `parsePacket`
  reports nothing), and the signal metrics the driver reports for it.
  The clock reading `millis()` is the explicit input `now`.
 */
module DroneComm {
  import opened Wrappers
  import opened FixedWidth
  import opened Checksum
  import opened Message

  /** Raw bit pattern of a 32-bit `float`. SNR values are only copied, never computed with; 0 is +0.0. */
  type FloatBits = uint32

  /** `CommStats`: three wrapping 32-bit counters, the last signal metrics, and the uptime stamp. */
  datatype CommStats = CommStats(
    messagesSent: uint32,
    messagesReceived: uint32,
    messagesLost: uint32,
    lastRSSI: int,
    lastSNR: FloatBits,
    uptime: uint32)

  /** The private state of one `DroneComm` instance. */
  datatype Comm = Comm(nodeId: byte, sequenceCounter: uint16, initialized: bool, stats: CommStats)

  /** The three traffic counters, read together. */
  function Counters(s: CommStats): (uint32, uint32, uint32)
  {
    (s.messagesSent, s.messagesReceived, s.messagesLost)
  }

  /** The constructor `DroneComm(id)`. */
  function NewComm(id: byte): (c: Comm)
    ensures c.nodeId == id && c.sequenceCounter == 0 && !c.initialized
    ensures Counters(c.stats) == (0, 0, 0)
    ensures c.stats.lastRSSI == 0 && c.stats.lastSNR == 0 && c.stats.uptime == 0
  {
    Comm(id, 0, false, CommStats(0, 0, 0, 0, 0, 0))
  }

  /**
    `begin()`, with the whole driver bring-up reduced to the boolean it
    reports. A failed bring-up leaves the state as it was: an instance that
    was already initialised stays initialised.
   */
  function Begin(c: Comm, driverOk: bool): (r: (bool, Comm))
    ensures r.0 == driverOk
    ensures r.1.initialized == (c.initialized || driverOk)
    ensures r.1.(initialized := c.initialized) == c
  {
    if driverOk then (true, c.(initialized := true)) else (false, c)
  }

  /** What a transmission attempt reports, the state after it, and the bytes handed to the radio (if any). */
  datatype SendResult = SendResult(ok: bool, comm: Comm, transmitted: Option<seq<byte>>)

  /** Exactly one of `messagesSent` (on success) and `messagesLost` (on failure) advanced by one; nothing else in the stats moved. */
  predicate CountedOnce(before: CommStats, after: CommStats, success: bool)
  {
    if success then after == before.(messagesSent := Inc32(before.messagesSent))
    else after == before.(messagesLost := Inc32(before.messagesLost))
  }

  /**
    `sendMessage`: refuses before initialisation without touching the radio;
    otherwise hands the 43 record bytes to the radio verbatim and reports the
    driver's verdict, counting it as sent or lost.
   */
  function SendMessage(c: Comm, msg: Packet, driverOk: bool): (r: SendResult)
    ensures !c.initialized ==> r == SendResult(false, c, None)
    ensures c.initialized ==> r.ok == driverOk && r.transmitted == Some(Serialize(msg))
    ensures c.initialized ==> CountedOnce(c.stats, r.comm.stats, driverOk)
    ensures r.comm.(stats := c.stats) == c
  {
    if !c.initialized then SendResult(false, c, None)
    else
      var wire := Serialize(msg);
      if driverOk then
        SendResult(true, c.(stats := c.stats.(messagesSent := Inc32(c.stats.messagesSent))), Some(wire))
      else
        SendResult(false, c.(stats := c.stats.(messagesLost := Inc32(c.stats.messagesLost))), Some(wire))
  }

  /**
    The record `broadcastMessage` assembles: broadcast destination, this
    node as source, the caller's bytes at the front of the payload, and the
    checksum over the other 42 bytes. `uninit` is whatever the stack held in
    the payload array; it shows through beyond `dataLength`, and entirely
    when no data pointer is passed or the length is 0.
   */
  function BuildBroadcast(nodeId: byte, msgType: MessageType, data: Option<seq<byte>>, dataLength: byte,
                          now: uint32, sequenceNumber: uint16, uninit: Payload): (p: Packet)
    requires dataLength <= PAYLOAD_CAPACITY
    requires data.Some? ==> dataLength <= |data.value|
    ensures p.messageType == Tag(msgType) && p.sourceId == nodeId && p.destinationId == BROADCAST_ID
    ensures p.timestamp == now && p.sequenceNumber == sequenceNumber && p.dataLength == dataLength
    ensures data.Some? ==> p.data[..dataLength] == data.value[..dataLength]
    ensures p.data[dataLength..] == uninit[dataLength..]
    ensures data.None? ==> p.data == uninit
    ensures ValidateChecksum(p)
  {
    var payload: Payload :=
      if data.Some? && dataLength > 0 then data.value[..dataLength] + uninit[dataLength..] else uninit;
    Seal(Packet(Tag(msgType), nodeId, BROADCAST_ID, now, sequenceNumber, dataLength, payload, 0))
  }

  /**
    `broadcastMessage`: rejects lengths above the payload capacity with no
    effect at all; otherwise pre-increments the 16-bit sequence counter
    (whether or not the send that follows succeeds) and sends the assembled
    record. The caller's buffer must hold `dataLength` bytes when it is given.
   */
  function BroadcastMessage(c: Comm, msgType: MessageType, data: Option<seq<byte>>, dataLength: byte,
                            now: uint32, uninit: Payload, driverOk: bool): (r: SendResult)
    requires data.Some? && dataLength <= PAYLOAD_CAPACITY ==> dataLength <= |data.value|
    ensures dataLength > PAYLOAD_CAPACITY ==> r == SendResult(false, c, None)
    ensures dataLength <= PAYLOAD_CAPACITY ==> r.comm.sequenceCounter == Inc16(c.sequenceCounter)
    ensures dataLength <= PAYLOAD_CAPACITY ==> r.ok == (c.initialized && driverOk)
    ensures dataLength <= PAYLOAD_CAPACITY ==> (r.transmitted.Some? <==> c.initialized)
    ensures c.initialized && dataLength <= PAYLOAD_CAPACITY ==> CountedOnce(c.stats, r.comm.stats, driverOk)
    ensures !c.initialized ==> r.comm.stats == c.stats
    ensures r.comm.nodeId == c.nodeId && r.comm.initialized == c.initialized
    ensures r.transmitted.Some? ==>
      && |r.transmitted.value| == PACKET_SIZE
      && var p := Parse(r.transmitted.value);
      && ValidateChecksum(p)
      && p.messageType == Tag(msgType) && p.sourceId == c.nodeId && p.destinationId == BROADCAST_ID
      && p.timestamp == now && p.sequenceNumber == Inc16(c.sequenceCounter)
      && p.dataLength == dataLength
      && (data.Some? ==> p.data[..dataLength] == data.value[..dataLength])
  {
    if dataLength > PAYLOAD_CAPACITY then SendResult(false, c, None)
    else
      var counted := c.(sequenceCounter := Inc16(c.sequenceCounter));
      var msg := BuildBroadcast(c.nodeId, msgType, data, dataLength, now, counted.sequenceCounter, uninit);
      ParseSerialize(msg);
      SendMessage(counted, msg, driverOk)
  }

  /** How a receive poll ended; the record is what `receiveMessage` wrote into its out-parameter. */
  datatype ReceiveOutcome = NoPacket | Corrupt(packet: Packet) | Received(packet: Packet)

  datatype ReceiveResult = ReceiveResult(outcome: ReceiveOutcome, comm: Comm) {
    /** The boolean `receiveMessage` returns. */
    predicate Ok() { outcome.Received? }
  }

  /**
    `receiveMessage`: nothing pending and a frame of the wrong size both
    report "no packet" and change nothing; a 43-byte frame is copied into the
    record, its signal metrics overwrite the last ones, and it is counted as
    received or, when its checksum fails, as lost.
   */
  function ReceiveMessage(c: Comm, frame: Option<seq<byte>>, rssi: int, snr: FloatBits): (r: ReceiveResult)
    ensures r.outcome.NoPacket? <==> frame.None? || |frame.value| != PACKET_SIZE
    ensures r.outcome.NoPacket? ==> r.comm == c
    ensures !r.outcome.NoPacket? ==> Serialize(r.outcome.packet) == frame.value
    ensures r.Ok() <==>
      frame.Some? && |frame.value| == PACKET_SIZE
      && XorFold(frame.value[..CHECKSUM_OFFSET]) == frame.value[CHECKSUM_OFFSET]
    ensures !r.outcome.NoPacket? ==> r.comm.stats.lastRSSI == rssi && r.comm.stats.lastSNR == snr
    ensures r.outcome.Received? ==>
      Counters(r.comm.stats) == (c.stats.messagesSent, Inc32(c.stats.messagesReceived), c.stats.messagesLost)
    ensures r.outcome.Corrupt? ==>
      Counters(r.comm.stats) == (c.stats.messagesSent, c.stats.messagesReceived, Inc32(c.stats.messagesLost))
    ensures r.comm.stats.uptime == c.stats.uptime
    ensures r.comm.(stats := c.stats) == c
  {
    var packetSize := if frame.Some? then |frame.value| else 0;
    if packetSize == 0 then ReceiveResult(NoPacket, c)
    else if packetSize != PACKET_SIZE then ReceiveResult(NoPacket, c)
    else
      var msg := Parse(frame.value);
      SerializeParse(frame.value);
      FrameValidity(frame.value);
      var signal := c.stats.(lastRSSI := rssi, lastSNR := snr);
      if !ValidateChecksum(msg) then
        ReceiveResult(Corrupt(msg), c.(stats := signal.(messagesLost := Inc32(signal.messagesLost))))
      else
        ReceiveResult(Received(msg), c.(stats := signal.(messagesReceived := Inc32(signal.messagesReceived))))
  }

  /** `resetStats`: zeroes the three traffic counters and keeps the signal metrics and uptime. */
  function ResetStats(c: Comm): (r: Comm)
    ensures Counters(r.stats) == (0, 0, 0)
    ensures r.stats.lastRSSI == c.stats.lastRSSI && r.stats.lastSNR == c.stats.lastSNR
    ensures r.stats.uptime == c.stats.uptime
    ensures r.(stats := c.stats) == c
  {
    c.(stats := c.stats.(messagesSent := 0, messagesReceived := 0, messagesLost := 0))
  }

  /** `getRSSI`. */
  function GetRSSI(c: Comm): int
  {
    c.stats.lastRSSI
  }

  /** `getSNR`. */
  function GetSNR(c: Comm): FloatBits
  {
    c.stats.lastSNR
  }

  /**
    `getStats`: a copy of the statistics record (its uptime is the one last
    stamped, not the current time). The state is a value, so reading it
    cannot change it.
   */
  function GetStats(c: Comm): (s: CommStats)
    ensures s == c.stats
  {
    c.stats
  }

  /** `isInitialized`, a `const` reader: reports whether a `begin` has succeeded. */
  function IsInitialized(c: Comm): (r: bool)
    ensures r == c.initialized
  {
    c.initialized
  }

  /** `getNodeId`, a `const` reader: the identifier broadcasts carry as their source. */
  function GetNodeId(c: Comm): (r: byte)
    ensures r == c.nodeId
  {
    c.nodeId
  }

  /**
    What one node transmits, another node receives unchanged: a record with
    a valid checksum goes out as 43 bytes that parse back to the same record
    and are counted as received. "Transmitted" means the bytes handed to the
    radio, assumed delivered unaltered; that holds even when the driver
    reports failure and the sender counts the frame as lost.
   */
  lemma SendThenReceive(sender: Comm, p: Packet, driverOk: bool, receiver: Comm, rssi: int, snr: FloatBits)
    requires sender.initialized && ValidateChecksum(p)
    ensures ReceiveMessage(receiver, SendMessage(sender, p, driverOk).transmitted, rssi, snr).outcome == Received(p)
  {
    ParseSerialize(p);
  }

  /**
    Every broadcast handed to the radio is accepted by any receiver with the
    fields it was built from, assuming the bytes arrive unaltered. This holds
    whatever the driver reports, including a failure the sender counts as lost.
   */
  lemma BroadcastDelivered(c: Comm, msgType: MessageType, data: seq<byte>, dataLength: byte, now: uint32,
                           uninit: Payload, driverOk: bool, receiver: Comm, rssi: int, snr: FloatBits)
    requires dataLength <= PAYLOAD_CAPACITY && dataLength <= |data| && c.initialized
    ensures
      var sent := BroadcastMessage(c, msgType, Some(data), dataLength, now, uninit, driverOk);
      var got := ReceiveMessage(receiver, sent.transmitted, rssi, snr);
      && got.outcome.Received?
      && got.outcome.packet.destinationId == BROADCAST_ID
      && got.outcome.packet.sourceId == c.nodeId
      && got.outcome.packet.sequenceNumber == sent.comm.sequenceCounter
      && got.outcome.packet.dataLength == dataLength
      && got.outcome.packet.data[..dataLength] == data[..dataLength]
  {
    var sent := BroadcastMessage(c, msgType, Some(data), dataLength, now, uninit, driverOk);
    SerializeParse(sent.transmitted.value);
    SendThenReceive(c.(sequenceCounter := Inc16(c.sequenceCounter)), Parse(sent.transmitted.value), driverOk,
                    receiver, rssi, snr);
  }

  /**
    Nothing on the receive path checks `dataLength` against the payload
    capacity: a frame whose length byte is 0xFF but whose checksum matches is
    reported as a valid receive.
   */
  lemma ReceiveAcceptsOverlongDataLength(c: Comm, rssi: int, snr: FloatBits)
    ensures
      var p := Seal(Packet(Tag(Heartbeat), 1, BROADCAST_ID, 0, 1, 0xFF, seq(PAYLOAD_CAPACITY, _ => 0), 0));
      && p.dataLength > PAYLOAD_CAPACITY
      && ReceiveMessage(c, Some(Serialize(p)), rssi, snr).outcome == Received(p)
  {
    var p := Seal(Packet(Tag(Heartbeat), 1, BROADCAST_ID, 0, 1, 0xFF, seq(PAYLOAD_CAPACITY, _ => 0), 0));
    ParseSerialize(p);
  }

  /**
    `getRSSI` and `getSNR` read back the metrics of the last 43-byte frame;
    polls that find nothing or a wrong-sized frame, sends and statistics
    resets leave them alone.
   */
  lemma SignalReadback(c: Comm, frame: Option<seq<byte>>, rssi: int, snr: FloatBits, p: Packet, driverOk: bool)
    ensures
      var r := ReceiveMessage(c, frame, rssi, snr).comm;
      if frame.Some? && |frame.value| == PACKET_SIZE then GetRSSI(r) == rssi && GetSNR(r) == snr
      else GetRSSI(r) == GetRSSI(c) && GetSNR(r) == GetSNR(c)
    ensures GetRSSI(SendMessage(c, p, driverOk).comm) == GetRSSI(c)
    ensures GetSNR(SendMessage(c, p, driverOk).comm) == GetSNR(c)
    ensures GetRSSI(ResetStats(c)) == GetRSSI(c) && GetSNR(ResetStats(c)) == GetSNR(c)
  {
  }

  /** No receive outcome ever touches the sent counter, and only a checksum failure touches the lost counter. */
  lemma ReceiveLeavesSentAlone(c: Comm, frame: Option<seq<byte>>, rssi: int, snr: FloatBits)
    ensures ReceiveMessage(c, frame, rssi, snr).comm.stats.messagesSent == c.stats.messagesSent
    ensures ReceiveMessage(c, frame, rssi, snr).comm.stats.messagesLost != c.stats.messagesLost
        ==> ReceiveMessage(c, frame, rssi, snr).outcome.Corrupt?
  {
  }
}
