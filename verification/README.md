# Drone radio link core: packet codec, link statistics and timeout registry

This project models, in Dafny, the two pieces of sequential logic at the core of the
drone-swarm firmware:

* **`DroneComm`**, the packet codec and link statistics. A `DroneMessage` is a packed
  43-byte record: type, source, destination, 32-bit timestamp, 16-bit sequence number,
  payload length, a 32-byte payload and an 8-bit XOR checksum over the other 42 bytes.
  The codec sends such records, receives and validates them, builds broadcasts, and
  counts sent, received and lost messages. The LoRa radio is replaced by explicit inputs:
  * the boolean `endPacket` reports;
  * the inbound frame, as an optional byte sequence;
  * the RSSI and SNR the driver reports for that frame.

  What remains is a deterministic state machine over `(nodeId, sequenceCounter,
  initialized, stats)`.
* **Time arithmetic and `TimeoutManager`**, the registry of named countdown timers.
  `getTimeDiff` and `isTimeout` compute elapsed time on the 32-bit `millis()` clock
  across wrap-around. The registry maps integer handles to
  `{startTime, duration, isActive, name}`. The clock reading is the explicit input `now`.

Modules, one per concept:

| file | module | what it holds |
|---|---|---|
| `fixed_width.dfy` | `FixedWidth` | `byte`, `uint16`, `uint32`, and the wrap-around of `++` and unsigned `-` |
| `bitwise.dfy` | `Bitwise` | byte XOR, defined bit by bit, and its group laws |
| `checksum.dfy` | `Checksum` | the XOR fold, the checksum loop, and the detection lemmas |
| `message.dfy` | `Message` | message tags, the `Packet` record, its little-endian wire layout, parse/serialize, checksum validation |
| `drone_comm.dfy` | `DroneComm` | codec state, constructor, `begin`, send, receive, broadcast, statistics |
| `time_utils.dfy` | `TimeUtils` | `getTimeDiff` and `isTimeout` |
| `decimal.dfy` | `Decimal` | Arduino `String(int)` rendering, used for generated timer names |
| `ordered_keys.dfy` | `OrderedKeys` | a set of integer keys listed in ascending (ordered-map) order |
| `timeouts.dfy` | `Timeouts` | the `TimeoutManager` registry |
| `wrappers.dfy` | `Wrappers` | `Option` |

Bytes are integers in `0..255`, and XOR is defined on them bit by bit. Multi-byte fields
are laid out little-endian, which is how the packed struct sits in ESP32 memory before
`LoRa.write` sends it byte for byte.

The readers `getStats`, `getRSSI`, `getSNR`, `isInitialized` and `getNodeId` are plain
functions of the immutable codec state (`DroneComm.GetStats` and so on), so a query
cannot change that state. Likewise `isTimeoutExpired` and `getRemainingTime` are
functions of the registry value and leave it unchanged.

Behaviour of the code that is easy to misread, which the model follows:

* On receive, nothing checks `dataLength` against the 32-byte maximum payload stated at
  include/communications.h:44. A 43-byte frame with a matching checksum is accepted
  even when its length byte is 0xFF.
  `DroneComm.ReceiveAcceptsOverlongDataLength` exhibits such a frame.
* `receiveMessage` does not check `initialized`; only `sendMessage` does.
* A failed `begin()` returns false but does not clear `initialized`.
* `getStats` returns the `uptime` that `printStats` last stamped, not the current time.
* A frame of the wrong size is dropped without counting it as lost; only a checksum
  failure counts as lost.

`getExpiredTimeouts` is declared in `include/utilities/time_utils.h`, but
`src/utilities/time_utils.cpp` contains no body for it, so the model's definition is an
assumption. `Timeouts.GetExpiredTimeouts` gives it its natural meaning: the handles of the active timers that have expired, in
ascending handle order (the order in which a `std::map` is iterated).
`Timeouts.CheckAllTimeouts` is stated relative to that definition. Under it, every handle
`checkAllTimeouts` visits is a registered one, so its `timeouts[id]` never inserts a
default entry.

## Model

| member | source | states |
|---|---|---|
| `FixedWidth.Inc16` | include/communications.h:72 | the 16-bit sequence counter's increment adds one below 65535 and wraps 65535 to 0 |
| `FixedWidth.Inc32` | include/communications.h:60-62 | a 32-bit statistics counter's `++` adds one below 2^32 - 1 and wraps to 0 there |
| `FixedWidth.Sub32` | src/utilities/time_utils.cpp:11 | unsigned subtraction is the plain difference when it is non-negative, and the difference plus 2^32 otherwise |
| `Bitwise.XorAlgebra` | src/communications/DroneComm.cpp:131 | byte XOR is commutative and associative, has 0 as identity, and makes every byte its own inverse |
| `Checksum.CalculateChecksum` | src/communications/DroneComm.cpp:128-134 | the checksum loop returns the XOR of the first `length` bytes; folding left (as the loop does) and folding right agree |
| `Checksum.XorFoldAppend` | src/communications/DroneComm.cpp:128-134 | the checksum is 0 on empty input, and the checksum of a concatenation is the XOR of the parts' checksums |
| `Checksum.XorFoldsAgree` | src/communications/DroneComm.cpp:128-134 | the byte order of the fold does not matter: left and right folds are equal |
| `Checksum.XorFoldUpdate` | src/communications/DroneComm.cpp:128-134 | overwriting one byte changes the checksum by exactly the XOR of the old and the new value |
| `Checksum.SingleByteChangeDetected` | src/communications/DroneComm.cpp:128-134 | the checksum changes if and only if the overwritten byte really changed |
| `Checksum.CancellingChangesUndetected` | src/communications/DroneComm.cpp:128-134 | two byte changes at different positions whose XOR differences are equal leave the checksum unchanged |
| `Checksum.SwapUndetected` | src/communications/DroneComm.cpp:128-134 | exchanging any two bytes leaves the checksum unchanged |
| `Message.TypeOfTag` | include/communications.h:22-34 | a byte names a message category if and only if it lies in 0x01..0x0B, and the category's tag is that byte |
| `Message.TagRoundTrip` | include/communications.h:22-34 | every category's tag lies in 0x01..0x0B and decodes back to it, so the eleven tags are distinct |
| `Message.Le16RoundTrip` | include/communications.h:42 | the two-byte little-endian encoding of the sequence number decodes back to it, and every byte pair is some encoding |
| `Message.Le32RoundTrip` | include/communications.h:41 | the four-byte little-endian encoding of the timestamp decodes back to it, and every byte quadruple is some encoding |
| `Message.SerializeLayout` | include/communications.h:37-46 | the packed record puts type at 0, source at 1, destination at 2, timestamp at 3-6, sequence at 7-8, length at 9, payload at 10-41 and checksum at 42; the checksum is the last byte |
| `Message.ParseSerialize` | include/communications.h:37-46 | parsing the 43 bytes of any record gives back every field |
| `Message.SerializeParse` | src/communications/DroneComm.cpp:80 | every 43-byte frame is the serialisation of the record it parses to, so the byte copy loses nothing |
| `Message.Seal` | src/communications/DroneComm.cpp:122-139 | filling the checksum field from the other 42 bytes always yields a record that passes validation, and changes no other field |
| `Message.FrameValidity` | src/communications/DroneComm.cpp:136-139 | a received frame validates if and only if its last byte equals the XOR of its first 42 bytes |
| `Message.SingleByteCorruptionDetected` | src/communications/DroneComm.cpp:136-139 | changing any one byte of a valid frame, checksum byte included, makes validation fail |
| `Message.CancellingCorruptionUndetected` | src/communications/DroneComm.cpp:136-139 | two corruptions of covered bytes whose XOR differences cancel still pass validation |
| `DroneComm.NewComm` | src/communications/DroneComm.cpp:3-11 | a new codec has the given node id, sequence counter 0, is not initialised, and has all statistics zero |
| `DroneComm.Begin` | src/communications/DroneComm.cpp:13-40 | `begin` reports the driver's verdict; success sets `initialized`, failure leaves the state unchanged, and nothing else changes |
| `DroneComm.SendMessage` | src/communications/DroneComm.cpp:42-65 | before initialisation: false, nothing transmitted, no state change; otherwise the 43 record bytes go to the radio verbatim, the driver's verdict is returned, and exactly one of sent (success) or lost (failure) advances by one |
| `DroneComm.BuildBroadcast` | src/communications/DroneComm.cpp:109-123 | the assembled record carries the tag, this node as source, destination 0xFF, the timestamp, the sequence number and the length; the caller's bytes lead the payload, stack contents fill the rest, and the checksum validates whatever those contents are |
| `DroneComm.BroadcastMessage` | src/communications/DroneComm.cpp:103-126 | a length above 32 is rejected with no effect at all; otherwise the sequence counter advances (with 16-bit wrap) even if the node is uninitialised or the send fails, and the transmitted frame parses to a valid broadcast record with the new sequence number and the caller's payload |
| `DroneComm.ReceiveMessage` | src/communications/DroneComm.cpp:67-101 | no frame or a wrong-sized frame yields "no packet" and no change; a 43-byte frame is copied verbatim, overwrites RSSI and SNR, and is accepted iff its last byte is the XOR of the others, advancing received on acceptance and lost on rejection; sent never changes |
| `DroneComm.SendThenReceive` | src/communications/DroneComm.cpp:52-93 | a record with a valid checksum sent by an initialised node is received by any node as exactly that record |
| `DroneComm.BroadcastDelivered` | src/communications/DroneComm.cpp:109-125 | every broadcast that reaches the radio is accepted by any receiver, with destination 0xFF, the sender's id, its sequence number, its length and its payload bytes |
| `DroneComm.ReceiveAcceptsOverlongDataLength` | src/communications/DroneComm.cpp:74-93 | a frame whose length byte exceeds the 32-byte capacity but whose checksum matches is reported as a valid receive |
| `DroneComm.SignalReadback` | src/communications/DroneComm.cpp:151-157 | `getRSSI`/`getSNR` return the metrics of the last 43-byte frame; empty polls, wrong-sized frames, sends and resets leave them unchanged |
| `DroneComm.ReceiveLeavesSentAlone` | src/communications/DroneComm.cpp:67-101 | receiving never changes the sent counter, and the lost counter moves only on a checksum failure |
| `DroneComm.ResetStats` | src/communications/DroneComm.cpp:176-181 | the sent, received and lost counters become zero; RSSI, SNR, uptime and the rest of the state are kept |
| `DroneComm.GetStats` | include/communications.h:98 | `getStats` returns the statistics record as stored; the state is an immutable value, so a read cannot change it |
| `DroneComm.IsInitialized` | include/communications.h:84 | `isInitialized` returns the initialized flag; the state is an immutable value, so a read cannot change it |
| `DroneComm.GetNodeId` | include/communications.h:99 | `getNodeId` returns the node identifier; the state is an immutable value, so a read cannot change it |
| `TimeUtils.GetTimeDiff` | src/utilities/time_utils.cpp:13-23 | the explicit wrap formula equals `(end - start) mod 2^32`, adding it to the start gives the end, and it is 0 from a time to itself |
| `TimeUtils.IsTimeout` | src/utilities/time_utils.cpp:8-12 | the unsigned-subtraction test agrees with comparing `getTimeDiff` against the limit |
| `TimeUtils.ElapsedAcrossWrap` | src/utilities/time_utils.cpp:13-23 | if fewer than 2^32 ticks passed since the start, the computed elapsed time is exactly that number even across a clock wrap, and a timeout of that length has fired |
| `TimeUtils.TimeDiffAdds` | src/utilities/time_utils.cpp:13-23 | elapsed times compose modulo 2^32: start to middle plus middle to end is start to end |
| `Timeouts.NewTimeoutManager` | src/utilities/time_utils.cpp:32-35 | a new registry is empty, issues handle 1 next, and satisfies the handle invariant |
| `Timeouts.AddTimeout` | src/utilities/time_utils.cpp:37-47 | returns the next handle and advances it; the new entry is active, starts now, has the given duration, and is named by the caller or "Timeout_<id>" for an empty name; other entries are unchanged; a fresh handle is not already registered |
| `Timeouts.IsTimeoutExpired` | src/utilities/time_utils.cpp:48-60 | false for unknown or inactive handles; otherwise true iff the wrap-safe elapsed time since the start has reached the duration |
| `Timeouts.ResetTimeout` | src/utilities/time_utils.cpp:62-70 | an existing timer restarts now and is re-armed, keeping duration and name; other entries are unchanged; an unknown handle is a no-op |
| `Timeouts.RemoveTimeout` | src/utilities/time_utils.cpp:72-79 | only the given handle is removed and every other entry is unchanged; an unknown handle is a no-op |
| `Timeouts.GetExpiredTimeouts` | include/utilities/time_utils.h:35 | (assumed definition) lists exactly the handles for which `isTimeoutExpired` holds, strictly ascending |
| `Timeouts.CheckAllTimeouts` | src/utilities/time_utils.cpp:80-89 | returns exactly the expired handles, deactivates exactly those entries and changes nothing else; afterwards no timer is expired at the same clock reading |
| `Timeouts.CheckAll` | src/utilities/time_utils.cpp:80-89 | the registry a poll leaves: same handles and counter, every expired timer deactivated with start, duration and name kept, every other entry kept, no timer left expired at that clock reading |
| `Timeouts.Step` | src/utilities/time_utils.cpp:37-89 | of the registry calls, only a registration advances the handle counter (by one); resets, removals and polls keep it; every call keeps the registry valid |
| `Timeouts.GetRemainingTime` | src/utilities/time_utils.cpp:91-108 | positive iff the timer is registered, active and not yet expired; then the remaining and elapsed times add up to the duration, so the result lies in (0, duration] |
| `Timeouts.DefaultNamesDistinct` | src/utilities/time_utils.cpp:43 | distinct handles receive distinct generated names |
| `Timeouts.ExpiryAfterElapsed` | src/utilities/time_utils.cpp:37-108 | a timer of duration d polled e ticks after registration (even across a clock wrap) is expired iff e >= d, and otherwise has d - e left |
| `Timeouts.ResetRearms` | src/utilities/time_utils.cpp:62-70 | after a reset, a timer polled e ticks later is expired iff e reaches its duration |
| `Timeouts.RemainingIffNotExpired` | src/utilities/time_utils.cpp:91-108 | an expired timer has no time left, and a registered active timer has time left iff it has not expired |
| `Timeouts.HandlesNeverReused` | src/utilities/time_utils.cpp:37-47 | handles are issued in strictly increasing order, and a handle that was removed is not issued again |
| `Timeouts.IssuedIncreasing` | src/utilities/time_utils.cpp:32-47 | over any sequence of calls the handles issued strictly increase and lie between the counter before and the counter after |
| `Timeouts.RunKeepsValid` | src/utilities/time_utils.cpp:32-89 | any sequence of calls keeps every registered handle below the next one to be issued |
| `Timeouts.HandlesNeverReusedOverLifetime` | src/utilities/time_utils.cpp:32-89 | over a registry's whole life, no handle is issued twice and none equals a handle registered (or removed) before |

## Left out

- The LoRa driver (`setPins`, `begin`, `beginPacket`, `write`, `endPacket`, `parsePacket`, `readBytes`, `packetRssi`, `packetSnr`): its results are inputs to the model, because the driver is outside the firmware.
- `DroneComm.Begin`: the radio configuration it performs (frequency, power, bandwidth, spreading factor, coding rate, preamble) is reduced to the driver's boolean verdict, because it has no in-process effect besides `initialized`.
- `setTxPower` and `setFrequency`: pure forwarding to the driver with logging, no in-process state.
- `printStats` and `TimeoutManager::printStatus`: text formatting and floating-point division. `printStats` is also the only writer of `uptime` after construction, so uptime stays at its last value in the model.
- SNR and all other float values: SNR is carried as an opaque 32-bit pattern that is only copied; `HeartbeatData` is not modelled.
- `lastRSSI`: kept as an unbounded integer, because it is only copied, never computed with.
- `preciseDelay`, `getCurrentTimestamp` and `millis()`: busy-waiting and the clock are replaced by the explicit clock reading `now`.
- Serial logging inside every operation: no effect on state or results.
- `Timeouts.AddTimeout`: `nextTimeoutId` is an unbounded integer, so the signed overflow of a C `int` after 2^31 - 1 registrations is not modelled.
- `Timeouts.GetExpiredTimeouts`: src/utilities/time_utils.cpp contains no body for it, so the model's definition is an assumption.
- `include/config.h` constants other than the 32-byte payload limit, and the demo and self-test programs (sender, receiver, range and hardware tests): they are callers of the core, not part of it.
