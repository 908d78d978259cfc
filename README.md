# UMH-Host serial link core, modelled in Dafny

UMH-Host is the desktop host of an ultrasonic mid-air haptics device. Its
Electron main process talks to the device over a serial port. It uses a
framed binary protocol:

```
AA 55 | type | len | payload (len bytes) | checksum | 0D 0A
checksum = (type + len + sum of payload bytes) & 0xFF
```

This project models the core of that link and proves properties of the
model:

- **Frames** (`FrameCodec`): building a frame (`buildFrame`) and the two
  checks the receive loop applies to a candidate (`isTailValid`,
  `isChecksumValid`).
- **Receive loop** (`StreamParser`): the `ProtocolParser` class. It keeps a
  byte buffer, appends each received chunk to it, and cuts validated frames
  off its front (`push`, `reset`, `findHeader`). `Scan` is a recursive
  specification of one `push`. `ProtocolParser.Push` is proved equal to it,
  and the behaviour of the receiver is proved about `Scan`. The properties
  are: round trip, noise and false-header recovery, the 4096-byte overflow
  rule, a retained buffer that is always a suffix, chunk-boundary
  invariance, and every emitted frame having occurred in the input, in
  order.
- **Payload decoders** (`Telemetry`): the fixed-offset decoders of the
  configuration and status payloads (`parseConfig`, `parseStatus`, including
  the 33/37-byte status shapes). Each has an encoder in the layout the
  firmware writes, with round-trip and "reads exactly these bytes" lemmas.
- **Device session** (`DeviceSession`): the `SerialService` class of the
  newer revision (`dist-electron/main.js`). It covers:
  - connection state, reconnection, status polling and the echo-byte ping
    table;
  - dispatch of received frames to the window.

  `Dispatch` and `DispatchAll` are value-level specifications of
  `processFrame` and `handleData`, and the methods are proved against them.
  The connection methods keep the invariant `Valid()`: polling runs exactly
  while connected, and a reconnect is pending only while disconnected.
- **Older revision** (`LegacyService`): the older `SerialService`
  (`electron/services/SerialService.ts`). Its receive loop consumes a
  complete candidate whole, whether or not it is valid, and abandons
  header-less input above 1024 bytes. It dispatches only configuration and
  status, and its status decoder insists on 37 bytes. Lemmas set the two
  revisions side by side: they agree on clean streams, and an example shows
  the older one losing a frame behind a false header.
- **Renderer helpers** (`Commands`): the command helpers of
  `src/services/device.ts` (`enableOutput`, `ping`, `getStatus`, `getConfig`,
  `setStimulation` with its 21-byte little-endian record).

The serial port, timers, clock and random source are not objects in the
model. The outcome of opening the port, the port's `close` and `error`
events, the firing of a timer, the current time `now` and the random number
`random` are all arguments of the methods the environment calls. What the
service writes to the port is the `writes` log. What it sends to the window
is the `events` log, appended only while a window is attached.

Floats are kept as their raw little-endian bytes (`Float32`, `Float64`).
Bytes are the subset type `byte` of `int`, and JavaScript's `& 0xFF` on the
never-negative sums is `% 256`.

The renderer's `ping` helper and the main process's `sendPing` draw the
echo byte differently:
- The renderer's `ping` helper draws its echo byte as
  `Math.floor(Math.random() * 255)`, so it is never 255
  (`Commands.PingByte`).
- The main process's `sendPing` uses `* 256` and so covers 0..255
  (`DeviceSession.SerialService.SendPing`).

Both are modelled as written.

## Model

| member | source | states |
|---|---|---|
| FrameCodec.BuildFrame | UMH-App/dist-electron/main.js:93-113 | no frame exactly when the payload exceeds the one-byte length field (`writeUInt8` throws); otherwise the filled buffer is the wire image `Encode(type, payload)` |
| FrameCodec.PayloadSum | UMH-App/dist-electron/main.js:105-108 | the running sum equals type + length + the sum of the payload bytes |
| FrameCodec.IsTailValid | UMH-App/dist-electron/main.js:122-124 | a valid tail means the whole frame of the given payload length is present, since a short candidate reads `undefined` there |
| FrameCodec.DecodeCandidate | UMH-App/dist-electron/main.js:78-85 | a complete candidate decodes exactly when both the tail and the checksum checks pass; the frame then has the candidate's type, its declared payload length, and the stored checksum of its type and payload |
| FrameCodec.IsChecksumValid | UMH-App/dist-electron/main.js:125-133 | true exactly when the candidate's checksum byte equals (type + length + payload sum) mod 256 |
| FrameCodec.EncodeLayout | UMH-App/dist-electron/main.js:93-113 | an encoded frame is 7 + n bytes: AA 55, type, length, the payload, the checksum, then 0D 0A |
| FrameCodec.DecodeEncode | UMH-App/dist-electron/main.js:122-133 | an encoded frame starts with a header, passes both checks and decodes to its own type and payload |
| FrameCodec.EncodeDecode | UMH-App/dist-electron/main.js:122-133 | a candidate that passes both checks is byte for byte the encoding of what it decodes to |
| FrameCodec.CorruptionDetected | UMH-App/dist-electron/main.js:122-133 | changing any one byte of an encoded frame except the header and length bytes makes it fail a check |
| FrameCodec.CorruptType | UMH-App/dist-electron/main.js:125-133 | a changed type byte fails the checksum |
| FrameCodec.CorruptPayload | UMH-App/dist-electron/main.js:125-133 | a changed payload byte fails the checksum |
| FrameCodec.CorruptChecksum | UMH-App/dist-electron/main.js:125-133 | a wrong checksum byte alone makes the encoded frame undecodable |
| StreamParser.FirstHeaderFromSpec | UMH-App/dist-electron/main.js:114-121 | the scan from i finds the first AA 55 at or after i, and finds nothing exactly when there is none |
| StreamParser.ProtocolParser.FindHeader | UMH-App/dist-electron/main.js:114-121 | the index of the first header, or a negative result exactly when there is no header |
| StreamParser.ProtocolParser.Reset | UMH-App/dist-electron/main.js:90-92 | the buffer is empty |
| StreamParser.ProtocolParser.constructor | UMH-App/dist-electron/main.js:52-54 | a new parser starts with an empty buffer |
| StreamParser.ProtocolParser.Push | UMH-App/dist-electron/main.js:55-89 | the frames returned and the new buffer are `Scan(old buffer + chunk)`, and the buffer never exceeds 4096 bytes |
| StreamParser.Scan | UMH-App/dist-electron/main.js:55-89 | the specification of one `push` over the whole buffer: every emitted frame takes at least 7 bytes of the input, and the frames and the kept bytes together take no more than the input |
| StreamParser.ScanCandidate | UMH-App/dist-electron/main.js:69-86 | the same bound for the part of the loop from a buffer that starts at a header |
| StreamParser.ProtocolParser.Pass | UMH-App/dist-electron/main.js:59-86 | one pass of the loop body emits, keeps and stops exactly as `OnePass` of the buffer says |
| StreamParser.OnePass | UMH-App/dist-electron/main.js:58-87 | a pass that goes round the loop again leaves a strictly shorter buffer |
| StreamParser.PassScan | UMH-App/dist-electron/main.js:58-87 | `Scan` is the iteration of passes: a stopping pass gives the final state, any other is followed by the scan of what it leaves |
| StreamParser.ScanBound | UMH-App/dist-electron/main.js:60-64 | the retained buffer is a suffix of the scanned bytes and at most 4096 bytes long |
| StreamParser.WaitsForMore | UMH-App/dist-electron/main.js:69-76 | fewer than 7 bytes, or a header with less than the declared frame behind it, is kept unchanged and emits nothing |
| StreamParser.NoHeaderOverflow | UMH-App/dist-electron/main.js:60-65 | header-free input emits nothing and is cleared exactly when it is longer than 4096 bytes |
| StreamParser.SkipGarbage | UMH-App/dist-electron/main.js:66-68 | bytes before the first header are dropped: the scan is that of the buffer from the header on |
| StreamParser.DropOneByte | UMH-App/dist-electron/main.js:78-81 | a complete candidate failing a check costs exactly one byte |
| StreamParser.FrameThen | UMH-App/dist-electron/main.js:82-86 | a valid frame at the front is emitted and exactly its bytes are consumed |
| StreamParser.RoundTrip | UMH-App/dist-electron/main.js:55-89 | one encoded frame pushed into an empty parser comes out as that frame, nothing retained |
| StreamParser.FramesRoundTrip | UMH-App/dist-electron/main.js:55-89 | back-to-back encoded frames come out whole and in order |
| StreamParser.NoiseThenFrame | UMH-App/dist-electron/main.js:59-68 | header-free noise before a valid frame is dropped and the frame emitted |
| StreamParser.NoiseExample | UMH-App/dist-electron/main.js:59-68 | FF FF followed by a frame yields that frame |
| StreamParser.FalseHeaderRecovered | UMH-App/dist-electron/main.js:77-81 | a spurious AA 55 whose candidate fails costs one byte, and the genuine frame behind it is still emitted |
| StreamParser.OverflowThenFrame | UMH-App/dist-electron/main.js:60-64 | after over 4096 header-free bytes the buffer is cleared and the next pushed frame is emitted |
| StreamParser.PrefixRetained | UMH-App/dist-electron/main.js:74-76 | a proper prefix of a frame is kept whole and emits nothing |
| StreamParser.ChunkedFrame | UMH-App/dist-electron/main.js:55-56 | a frame split into any non-empty chunks pushed one by one emits nothing before the last chunk and exactly the frame after it |
| StreamParser.ScanEmbedded | UMH-App/dist-electron/main.js:77-86 | every emitted frame's encoding occurs in the scanned bytes, each after the previous one |
| Telemetry.ParseConfig | UMH-App/dist-electron/main.js:339-367 | no configuration exactly when the payload is under 33 bytes; the integer fields are 32-bit |
| Telemetry.ConfigRoundTrip | UMH-App/dist-electron/main.js:339-354 | decoding the firmware's configuration record gives every field back |
| Telemetry.ConfigImage | UMH-App/dist-electron/main.js:339-354 | the decoder reads exactly the first 33 bytes: re-encoding gives them back |
| Telemetry.ParseStatus | UMH-App/dist-electron/main.js:368-392 | no status under 33 bytes; from 37 bytes on the dma statistic is the double divided by 1000, below 37 the float |
| Telemetry.StatusRoundTrip | UMH-App/dist-electron/main.js:368-392 | both status record shapes decode back to every field |
| Telemetry.StatusImage | UMH-App/dist-electron/main.js:368-392 | the decoder reads exactly the first 33 (or 37) bytes |
| DeviceSession.Notify | UMH-App/dist-electron/main.js:247-251 | a message reaches the window exactly when one is attached |
| DeviceSession.PingAckReaction | UMH-App/dist-electron/main.js:298-315 | an empty payload reports nothing; otherwise one report, and the table loses at most the echoed byte's entry |
| DeviceSession.AckHex | UMH-App/dist-electron/main.js:316-323 | no hex text exactly for an empty payload; the text reads back to the payload |
| DeviceSession.Dispatch | UMH-App/dist-electron/main.js:268-287 | at most one message; nothing without a window; only a PING_ACK with a pending echo byte changes the table, by removing that entry |
| DeviceSession.DispatchAll | UMH-App/dist-electron/main.js:262-267 | at most one message per frame; nothing without a window; the table only loses entries |
| DeviceSession.SerialService.constructor | UMH-App/dist-electron/main.js:136-148 | disconnected, no reconnection, default baud rate, empty table and logs |
| DeviceSession.SerialService.SetMainWindow | UMH-App/dist-electron/main.js:149-151 | only the window changes |
| DeviceSession.SerialService.EmitStatus | UMH-App/dist-electron/main.js:247-251 | the status is appended to the events exactly when a window is attached |
| DeviceSession.SerialService.SendCommand | UMH-App/dist-electron/main.js:252-256 | the encoded frame is written exactly when the port is open and the payload fits the length byte; `ok` is false exactly when the port is open and the payload is too long, the case where `buildFrame` throws |
| DeviceSession.SerialService.DeviceCommand | UMH-App/dist-electron/main.js:454-465 | a PING with at least one payload byte records and sends that byte as `sendPingWithEchoedByte` does, and never fails. Any other command, or a payload-less PING, is written as `sendCommand` writes it, with an empty payload when none is given. The numbers become bytes modulo 256 |
| DeviceSession.SerialService.SendPingWithEchoedByte | UMH-App/dist-electron/main.js:257-261 | `echoedByte & 255` is recorded with the send time, even with the port closed, then a one-byte PING is written if the port is open |
| DeviceSession.SerialService.SendPing | UMH-App/dist-electron/main.js:288-291 | the echo byte is floor(random * 256), in 0..255, and is recorded and sent |
| DeviceSession.SerialService.RequestConfig | UMH-App/dist-electron/main.js:292-294 | a GET_CONFIG frame is written if the port is open |
| DeviceSession.SerialService.RequestStatus | UMH-App/dist-electron/main.js:295-297 | a GET_STATUS frame is written if the port is open |
| DeviceSession.SerialService.StopStatusPolling | UMH-App/dist-electron/main.js:333-338 | the poll is stopped, nothing else changes |
| DeviceSession.SerialService.StartStatusPolling | UMH-App/dist-electron/main.js:324-332 | the poll runs, nothing else changes |
| DeviceSession.SerialService.PollTick | UMH-App/dist-electron/main.js:326-331 | a poll firing writes GET_STATUS exactly while connected |
| DeviceSession.SerialService.ScheduleReconnect | UMH-App/dist-electron/main.js:208-211 | a reconnect is pending afterwards; one already pending is left alone |
| DeviceSession.SerialService.OnReconnectTimer | UMH-App/dist-electron/main.js:211-220 | the timer clears itself and reconnects exactly when reconnection is wanted and a path is known; a failed retry schedules the next one |
| DeviceSession.SerialService.Disconnect | UMH-App/dist-electron/main.js:222-246 | reconnection off, nothing pending, port closed, polling stopped, parser emptied, "disconnected" reported |
| DeviceSession.SerialService.Connect | UMH-App/dist-electron/main.js:155-207 | reconnection armed for the path and baud rate; on success the port is open, the parser empty, polling on, and GET_CONFIG then PING written; the exact status sequence, including the teardown of an earlier connection |
| DeviceSession.SerialService.OpenCallback | UMH-App/dist-electron/main.js:169-205 | on an open error "error" is reported; otherwise the parser is emptied, "connected" reported, polling started, the configuration requested and a ping sent |
| DeviceSession.SerialService.OnClose | UMH-App/dist-electron/main.js:182-190 | disconnected, polling stopped, "disconnected" reported, a reconnect pending if reconnection is wanted |
| DeviceSession.SerialService.OnError | UMH-App/dist-electron/main.js:191-199 | disconnected, polling stopped, the error reported, a reconnect pending if reconnection is wanted; the port object is untouched |
| DeviceSession.SerialService.ReportConfig | UMH-App/dist-electron/main.js:339-367 | the decoded configuration goes to the window when the payload has 33 bytes and a window is attached |
| DeviceSession.SerialService.ReportStatus | UMH-App/dist-electron/main.js:368-407 | the decoded status goes to the window when the payload has 33 bytes and a window is attached |
| DeviceSession.SerialService.HandlePingAck | UMH-App/dist-electron/main.js:298-315 | without a window nothing changes; otherwise the table and events change as `PingAckReaction` says |
| DeviceSession.SerialService.EmitAck | UMH-App/dist-electron/main.js:316-323 | the type and the payload's hex text (none when empty) go to the window |
| DeviceSession.SerialService.ProcessFrame | UMH-App/dist-electron/main.js:268-287 | the table and events change as `Dispatch` of the frame says |
| DeviceSession.SerialService.HandleData | UMH-App/dist-electron/main.js:262-267 | the parser buffer becomes what `Scan` retains and every frame it emits is dispatched in order, as `DispatchAll` says |
| DeviceSession.PingRoundTrip | UMH-App/dist-electron/main.js:298-315 | a ping recorded at t0 and acknowledged at now reports now - t0 and removes its entry |
| DeviceSession.PingUnmatched | UMH-App/dist-electron/main.js:304-311 | an echo with no recorded ping reports -1 and leaves the table alone |
| DeviceSession.PingCollision | UMH-App/dist-electron/main.js:257-261 | two pings with the same echo byte: the later send time is the one reported |
| DeviceSession.AckForwarded | UMH-App/dist-electron/main.js:279-285 | each acknowledgement-class code yields one message with its code and a hex text that reads back to the payload |
| DeviceSession.ConfigForwarded | UMH-App/dist-electron/main.js:270-272 | a configuration response reaches the window exactly when it has 33 bytes, reporting what those bytes encode |
| DeviceSession.StatusForwarded | UMH-App/dist-electron/main.js:273-275 | a status response reaches the window exactly when it has 33 bytes, reporting what its first 33 or 37 bytes encode |
| DeviceSession.UnknownIgnored | UMH-App/dist-electron/main.js:268-287 | any other type code does nothing |
| DeviceSession.OnlyPingAcksTouchTable | UMH-App/dist-electron/main.js:262-267 | frames other than PING_ACK never change the ping table, however many arrive |
| DeviceSession.AcksAllForwarded | UMH-App/dist-electron/main.js:262-267 | a run of acknowledgements yields one message per frame, in frame order |
| LegacyService.LegacyDecode | UMH-App/electron/services/SerialService.ts:160-176 | a candidate is accepted only if it is complete, and a complete one is decoded exactly as the newer revision decodes it |
| LegacyService.LegacyParseStatus | UMH-App/electron/services/SerialService.ts:224-245 | no status exactly under 37 bytes; the dma statistic is the unscaled double |
| LegacyService.LegacyReport | UMH-App/electron/services/SerialService.ts:178-188 | only configuration and status reach the window. With a window, a RETURN_CONFIG of at least 33 bytes is sent as its parsed configuration, and a RETURN_STATUS of at least 37 bytes as its legacy-parsed status. A shorter RETURN_CONFIG or RETURN_STATUS sends nothing |
| LegacyService.LegacyScan | UMH-App/electron/services/SerialService.ts:129-158 | the specification of one `handleData` over the whole buffer: every decoded frame takes at least 7 bytes of the input, and the frames and the kept bytes together take no more than the input |
| LegacyService.LegacyCandidate | UMH-App/electron/services/SerialService.ts:146-156 | the same bound for the part of the loop from a buffer that starts at a header |
| LegacyService.LegacyOnePass | UMH-App/electron/services/SerialService.ts:134-156 | a pass that goes round the loop again leaves a strictly shorter buffer |
| LegacyService.SerialService.constructor | UMH-App/electron/services/SerialService.ts:17-25 | closed, no window, empty buffer and logs |
| LegacyService.SerialService.SetMainWindow | UMH-App/electron/services/SerialService.ts:27-29 | only the window changes |
| LegacyService.SerialService.EmitStatus | UMH-App/electron/services/SerialService.ts:91-95 | the status is appended exactly when a window is attached |
| LegacyService.SerialService.Connect | UMH-App/electron/services/SerialService.ts:35-73 | connected and open exactly on success, the buffer kept, the status sequence including the teardown of an earlier connection |
| LegacyService.SerialService.Disconnect | UMH-App/electron/services/SerialService.ts:75-89 | closed and disconnected, "disconnected" reported |
| LegacyService.SerialService.OnClose | UMH-App/electron/services/SerialService.ts:58-62 | disconnected, "disconnected" reported |
| LegacyService.SerialService.OnError | UMH-App/electron/services/SerialService.ts:63-67 | disconnected, the error reported, the port untouched |
| LegacyService.SerialService.SendCommand | UMH-App/electron/services/SerialService.ts:97-127 | the encoded frame is written exactly when the port is open and the payload fits the length byte; `ok` is false exactly when the port is open and the payload is too long, the case where `writeUInt8(length)` throws |
| LegacyService.SerialService.BuildInline | UMH-App/electron/services/SerialService.ts:100-124 | the inline-built buffer is the wire image `Encode(type, payload)` |
| LegacyService.SerialService.ReportConfig | UMH-App/electron/services/SerialService.ts:191-222 | the decoded configuration goes to the window when the payload has 33 bytes and a window is attached |
| LegacyService.SerialService.ReportStatus | UMH-App/electron/services/SerialService.ts:224-245 | the decoded status goes to the window when the payload has 37 bytes and a window is attached |
| LegacyService.SerialService.ProcessFrame | UMH-App/electron/services/SerialService.ts:160-189 | the events change as `Reported` of `LegacyDecode` of the frame says |
| LegacyService.SerialService.Switch | UMH-App/electron/services/SerialService.ts:178-188 | the events change as `LegacyReport` says |
| LegacyService.SerialService.Pass | UMH-App/electron/services/SerialService.ts:134-156 | one pass of the loop body keeps, consumes and stops as `LegacyOnePass` says, and reports what processFrame made of the consumed candidate |
| LegacyService.SerialService.HandleData | UMH-App/electron/services/SerialService.ts:129-158 | the buffer becomes what `LegacyScan` keeps, at most 1024 bytes, and the reports of the frames it accepts are sent in order |
| LegacyService.IndexOfHeader | UMH-App/electron/services/SerialService.ts:134 | the index of the first AA 55, or a negative result exactly when there is none |
| LegacyService.LegacyPassScan | UMH-App/electron/services/SerialService.ts:133-157 | `LegacyScan` is the iteration of passes |
| LegacyService.LegacyBound | UMH-App/electron/services/SerialService.ts:136-139 | the kept buffer is a suffix of the scanned bytes, at most 1024 long |
| LegacyService.LegacySkipGarbage | UMH-App/electron/services/SerialService.ts:142-144 | bytes before the first header are dropped |
| LegacyService.LegacyWaitsForMore | UMH-App/electron/services/SerialService.ts:146-151 | a short buffer or unfinished frame is kept unchanged |
| LegacyService.LegacyConsumesInvalid | UMH-App/electron/services/SerialService.ts:153-156 | a complete candidate that fails its checks is consumed whole and yields nothing |
| LegacyService.LegacyFrameThen | UMH-App/electron/services/SerialService.ts:153-156 | a valid frame at the front is accepted and exactly its bytes consumed |
| LegacyService.LegacyFramesRoundTrip | UMH-App/electron/services/SerialService.ts:129-158 | back-to-back encoded frames are accepted whole and in order |
| LegacyService.RevisionsAgreeOnCleanStreams | UMH-App/electron/services/SerialService.ts:129-158 | on a clean stream both revisions' receive loops give the frames and keep nothing |
| LegacyService.FalseHeaderLost | UMH-App/electron/services/SerialService.ts:153-156 | a false header swallows the real frame behind it here, while the newer revision recovers it |
| LegacyService.OverflowThresholdsDiffer | UMH-App/electron/services/SerialService.ts:138 | header-less input of 1025..4096 bytes is abandoned here and kept by the newer revision |
| LegacyService.StatusRevisions | UMH-App/electron/services/SerialService.ts:226-237 | 33..36-byte status payloads are dropped here only; from 37 bytes both read the same fields, the newer one scaling the dma statistic |
| LegacyService.LegacyStatusRoundTrip | UMH-App/electron/services/SerialService.ts:224-237 | the 37-byte record the device writes decodes back to every field |
| LegacyService.DispatchRevisions | UMH-App/electron/services/SerialService.ts:178-188 | acknowledgements and ping replies reach the window in the newer revision only |
| Commands.EnableOutput | UMH-App/src/services/device.ts:26-27 | ENABLE_DISABLE with one byte that is 1 exactly when enabling and 0 exactly when disabling |
| Commands.EnableOutputInjective | UMH-App/src/services/device.ts:26-27 | the two switch positions give different commands |
| Commands.PingByte | UMH-App/src/services/device.ts:30 | the echo byte is the floor of random * 255, so at most 254 |
| Commands.PingReachable | UMH-App/src/services/device.ts:30 | every byte 0..254 is drawn for some random number |
| Commands.Ping | UMH-App/src/services/device.ts:29-32 | PING whose payload is the one byte `PingByte(random)`, so at most 254 |
| Commands.GetStatus | UMH-App/src/services/device.ts:34 | GET_STATUS with an empty payload |
| Commands.GetConfig | UMH-App/src/services/device.ts:36 | GET_CONFIG with an empty payload |
| Commands.StimulationAt | UMH-App/src/services/device.ts:39-40 | a record is read exactly from 21 bytes, at offsets 0, 1, 5, 9, 13 and 17 |
| Commands.SetFloat32 | UMH-App/src/services/device.ts:46 | the four bytes land at the offset and nothing else in the buffer changes |
| Commands.PackStimulation | UMH-App/src/services/device.ts:41-51 | the 21-byte buffer holds the type byte, then x, y, z, intensity and frequency at their offsets |
| Commands.SetStimulation | UMH-App/src/services/device.ts:38-53 | SET_STIMULATION with the packed record |
| Commands.StimulationRoundTrip | UMH-App/src/services/device.ts:39-51 | reading the packed record back gives every argument |
| Commands.StimulationImage | UMH-App/src/services/device.ts:39-51 | every 21-byte record is the packing of the arguments read from it |
| Commands.CommandsOnTheWire | UMH-App/src/services/device.ts:22-53 | each helper's command, framed, is read back whole as that command by an empty receiver |

## Left out

- IPC and Electron plumbing (the main-process handlers at
  `dist-electron/main.js:409-477`, window creation and `listPorts`) are not
  part of this model, except the DEVICE_COMMAND handler. The other handlers
  forward their arguments to the service. The DEVICE_COMMAND handler routes a
  PING that has a payload to `sendPingWithEchoedByte` with its first byte,
  and every other command to `sendCommand`. It is modelled as
  `DeviceSession.SerialService.DeviceCommand`.
- The `serialport` library, `setTimeout`/`setInterval`, `Date.now` and
  `Math.random` are not modelled as objects:
  - opening the port, its `close`/`error` events, a timer firing, the
    current time and the random number are method arguments;
  - `console` logging is dropped.
- Asynchrony is not modelled. `connect` and `disconnect` run to completion
  in one call, and `OpenCallback` is the body of the open callback. The
  model does not capture updates interleaving with a pending open or close.
- DeviceSession.SerialService.OnClose: port events are taken to come from the
  current port. In the source, `connect` without a live connection
  (`dist-electron/main.js:156-168`) replaces `this.port` without closing
  the old one. The old port can stay open with its data, close and error
  listeners attached, and its later close would still mark the session
  disconnected. The model keeps one `portOpen` flag. It does not track a
  replaced port that is still open, or its listeners. The same holds for
  `OnError` and `HandleData`.
- LegacyService.SerialService.OnClose: the same single-port reading of
  `electron/services/SerialService.ts:36-43`. It holds for `OnError` and
  `HandleData` too.
- DeviceSession.SerialService.HandleData: all frames of one chunk are handled
  at one time `now`, whereas `handlePingAck` reads `Date.now()` per frame.
- DeviceSession.SerialService.Connect: a port-open failure is the outcome
  `ok == false`. It is not a rejected promise.
- DeviceSession.SerialService.OnReconnectTimer: its contract speaks about
  the connection state and, when no retry happens, the logs. On a retry it
  does not restate the writes and events, which are Connect's.
- Floating point is not interpreted. `readFloatLE`, `readDoubleLE`,
  `setFloat32` and the `/ 1e3` scaling keep the raw bytes. The scaling is
  a tag in `DmaStat`.
- The serial number's UTF-8 decoding and NUL stripping are not modelled.
  It is kept as the raw 12 bytes.
- LegacyService.IndexOfHeader: `Buffer.indexOf` is a library search. It is
  stated by its result, the first header, not by a loop.
- The other renderer helpers are not part of this model (`setPhases`, `setDemo`,
  linear, circular and demo patterns), the renderer's store, the UI and the
  shared type definitions.
- Helper splits that the source does not have:
  - `OpenCallback` (the open callback);
  - `Pass` in both receive loops (one pass of the loop body; a `break`
    becomes `stop`);
  - `PayloadSum` (the checksum loop);
  - `BuildInline` (the older `sendCommand`'s frame filling);
  - `Switch` (the older `processFrame`'s switch).

  Each describes a contiguous piece of its source method.
- StreamParser.ProtocolParser.Push: the loop leaves by `return` where the
  source has `break` followed by `return frames`. The two are the same.
