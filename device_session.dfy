/** The device session of the newer revision (SerialService): connection
    state, reconnect scheduling, status polling, the pending-ping table and
    the dispatch of received frames to the window.

    The serial port, the timers, the clock and the random source are not
    objects here: the outcome of opening the port, the port's close and error
    events, the firing of the reconnect timer and of the poll interval, the
    current time and the random number are arguments of the methods that the
    environment calls. What the session writes to the port is the `writes`
    log and what it sends to the window is the `events` log. */
module DeviceSession {
  import opened Bytes
  import opened FrameCodec
  import opened StreamParser
  import opened Telemetry
  import opened Codes

  const DEFAULT_BAUD_RATE: int := 115200
  /** the delay, in milliseconds, of the reconnect timer */
  const RECONNECT_DELAY_MS: int := 2000
  /** the period, in milliseconds, of the status poll */
  const STATUS_POLL_PERIOD_MS: int := 200

  datatype ConnectionStatus = Connecting | Connected | Disconnected | Failed

  /** What the session sends to the window, one constructor per channel. */
  datatype Event =
    | SerialStatus(status: ConnectionStatus, error: Option<string>)
    | ConfigReport(config: DeviceConfig)
    | StatusReport(report: DeviceStatus)
    | PingAckReport(echoedByte: byte, rttMs: int, receivedAt: int)
    | AckReport(ackType: byte, dataHex: Option<string>)

  /** `Buffer.from` on an array of integers: each element modulo 256. */
  function ToBytes(xs: seq<int>): (r: seq<byte>)
    ensures |r| == |xs|
    ensures forall i :: 0 <= i < |xs| ==> r[i] == xs[i] % 256
  {
    seq(|xs|, i requires 0 <= i < |xs| => xs[i] % 256)
  }

  /** A message to the window is sent only while a window is attached. */
  function Notify(hasWindow: bool, e: Event): (r: seq<Event>)
    ensures r == [] || r == [e]
    ensures r != [] <==> hasWindow
  {
    if hasWindow then [e] else []
  }

  /** `a` is `b` with possibly some entries removed. */
  predicate SubMap(a: map<byte, int>, b: map<byte, int>)
  {
    forall k :: k in a ==> k in b && a[k] == b[k]
  }

  /** The effect of receiving frames: the new pending-ping table and what went
      to the window. */
  datatype Reaction = Reaction(pending: map<byte, int>, events: seq<Event>)

  /** handlePingAck once a window is attached: an empty payload is ignored;
      otherwise the echoed byte is looked up, a matching entry is removed and
      its round-trip time reported, and an unmatched echo reports -1. */
  function PingAckReaction(pending: map<byte, int>, data: seq<byte>, now: int): (r: Reaction)
    ensures |r.events| <= 1 && SubMap(r.pending, pending)
    ensures data == [] <==> r.events == []
    ensures r.pending == pending || (data != [] && data[0] in pending && r.pending == pending - {data[0]})
  {
    if |data| < 1 then Reaction(pending, [])
    else
      var echoedByte := data[0];
      if echoedByte in pending then
        Reaction(pending - {echoedByte}, [PingAckReport(echoedByte, now - pending[echoedByte], now)])
      else
        Reaction(pending, [PingAckReport(echoedByte, -1, now)])
  }

  /** The hex text of an acknowledgement's payload; none for an empty payload. */
  function AckHex(data: seq<byte>): (h: Option<string>)
    ensures h.None? <==> data == []
    ensures h.Some? ==> FromHex(h.value) == Some(data)
  {
    if |data| > 0 then HexRoundTrip(data); Some(Hex(data)) else None
  }

  /** processFrame on one frame, as a value: the specification of
      SerialService.ProcessFrame. */
  function Dispatch(pending: map<byte, int>, hasWindow: bool, f: Frame, now: int): (r: Reaction)
    ensures |r.events| <= 1
    ensures !hasWindow ==> r == Reaction(pending, [])
    ensures SubMap(r.pending, pending)
    ensures r.pending == pending
      || (f.cmdType == PING_ACK && f.data != [] && f.data[0] in pending && r.pending == pending - {f.data[0]})
  {
    if f.cmdType == RETURN_CONFIG then
      Reaction(pending, match ParseConfig(f.data) { case None => [] case Some(c) => Notify(hasWindow, ConfigReport(c)) })
    else if f.cmdType == RETURN_STATUS then
      Reaction(pending, match ParseStatus(f.data) { case None => [] case Some(s) => Notify(hasWindow, StatusReport(s)) })
    else if f.cmdType == PING_ACK then
      if !hasWindow then Reaction(pending, []) else PingAckReaction(pending, f.data, now)
    else if IsAckCode(f.cmdType) then
      Reaction(pending, Notify(hasWindow, AckReport(f.cmdType, AckHex(f.data))))
    else
      Reaction(pending, [])
  }

  /** handleData's loop over the frames of one chunk, all at time `now`. */
  function DispatchAll(pending: map<byte, int>, hasWindow: bool, frames: seq<Frame>, now: int): (r: Reaction)
    ensures |r.events| <= |frames|
    ensures !hasWindow ==> r == Reaction(pending, [])
    ensures SubMap(r.pending, pending)
    decreases |frames|
  {
    if frames == [] then Reaction(pending, [])
    else
      var prev := DispatchAll(pending, hasWindow, frames[..|frames| - 1], now);
      var last := Dispatch(prev.pending, hasWindow, frames[|frames| - 1], now);
      Reaction(last.pending, prev.events + last.events)
  }

  class SerialService {
    /** a port object exists and is open */
    var portOpen: bool
    /** a window is attached */
    var hasWindow: bool
    var isConnected: bool
    var shouldReconnect: bool
    var lastPath: string
    var lastBaudRate: int
    /** the reconnect timeout is set */
    var reconnectPending: bool
    /** the status poll interval is set */
    var pollActive: bool
    const parser: ProtocolParser
    /** pendingPingTimestamps: echo byte to the time the ping was sent */
    var pendingPings: map<byte, int>
    /** the frames written to the port, in order */
    var writes: seq<seq<byte>>
    /** the messages sent to the window, in order */
    var events: seq<Event>

    /** The session invariant: polling runs exactly while connected; being
        connected needs an open port and reconnection enabled; a reconnect is
        only pending while disconnected and reconnection is enabled. */
    predicate Valid()
      reads this
    {
      && pollActive == isConnected
      && (isConnected ==> portOpen && shouldReconnect)
      && (reconnectPending ==> shouldReconnect && !isConnected)
    }

    /** The connection fields are as they were. */
    twostate predicate LinkUnchanged()
      reads this
    {
      && portOpen == old(portOpen) && hasWindow == old(hasWindow)
      && isConnected == old(isConnected) && shouldReconnect == old(shouldReconnect)
      && lastPath == old(lastPath) && lastBaudRate == old(lastBaudRate)
      && reconnectPending == old(reconnectPending) && pollActive == old(pollActive)
    }

    constructor ()
      ensures Valid() && fresh(parser) && parser.buffer == []
      ensures !portOpen && !hasWindow && !isConnected && !shouldReconnect
      ensures lastPath == "" && lastBaudRate == DEFAULT_BAUD_RATE
      ensures !reconnectPending && !pollActive
      ensures pendingPings == map[] && writes == [] && events == []
    {
      portOpen := false;
      hasWindow := false;
      isConnected := false;
      shouldReconnect := false;
      lastPath := "";
      lastBaudRate := DEFAULT_BAUD_RATE;
      reconnectPending := false;
      pollActive := false;
      parser := new ProtocolParser();
      pendingPings := map[];
      writes := [];
      events := [];
    }

    method SetMainWindow(present: bool)
      modifies this
      ensures hasWindow == present
      ensures portOpen == old(portOpen) && isConnected == old(isConnected)
      ensures shouldReconnect == old(shouldReconnect) && lastPath == old(lastPath)
      ensures lastBaudRate == old(lastBaudRate) && reconnectPending == old(reconnectPending)
      ensures pollActive == old(pollActive)
      ensures pendingPings == old(pendingPings) && writes == old(writes) && events == old(events)
    {
      hasWindow := present;
    }

    /** emitStatus: reaches the window only when one is attached. */
    method EmitStatus(status: ConnectionStatus, error: Option<string>)
      modifies this
      ensures events == old(events) + Notify(hasWindow, SerialStatus(status, error))
      ensures LinkUnchanged() && pendingPings == old(pendingPings) && writes == old(writes)
    {
      if hasWindow {
        events := events + [SerialStatus(status, error)];
      }
    }

    /** sendCommand: nothing is written unless the port is open, and that is
        no error; a payload the length byte cannot hold makes buildFrame throw,
        which is `ok == false`, and nothing is written either. */
    method SendCommand(cmdType: byte, payload: seq<byte>) returns (ok: bool)
      modifies this
      ensures ok <==> !portOpen || |payload| <= MAX_PAYLOAD
      ensures writes == old(writes)
        + (if portOpen && |payload| <= MAX_PAYLOAD then [Encode(cmdType, payload)] else [])
      ensures LinkUnchanged() && pendingPings == old(pendingPings) && events == old(events)
    {
      if !portOpen {
        return true;
      }
      var frame := BuildFrame(cmdType, payload);
      if frame.Some? {
        writes := writes + [frame.value];
      }
      ok := frame.Some?;
    }

    /** sendPingWithEchoedByte: `echoedByte & 255` (the residue modulo 256,
        also for negative numbers) is recorded with the send time, whether or
        not the port is open, then sent as a one-byte PING. */
    method SendPingWithEchoedByte(echoedByte: int, now: int)
      modifies this
      ensures pendingPings == old(pendingPings)[echoedByte % 256 := now]
      ensures writes == old(writes) + (if portOpen then [Encode(PING, [echoedByte % 256])] else [])
      ensures LinkUnchanged() && events == old(events)
    {
      var pingByte := echoedByte % 256;
      pendingPings := pendingPings[pingByte := now];
      var ok := SendCommand(PING, [pingByte]);
    }

    /** sendPing: the echo byte is `floor(random * 256)`, so any of 0..255. */
    method SendPing(random: real, now: int) returns (echoedByte: int)
      requires 0.0 <= random < 1.0
      modifies this
      ensures 0 <= echoedByte < 256 && echoedByte == (random * 256.0).Floor
      ensures pendingPings == old(pendingPings)[echoedByte := now]
      ensures writes == old(writes) + (if portOpen then [Encode(PING, [echoedByte])] else [])
      ensures LinkUnchanged() && events == old(events)
    {
      echoedByte := (random * 256.0).Floor;
      SendPingWithEchoedByte(echoedByte, now);
    }

    /** The DEVICE_COMMAND handler: a PING that carries at least one byte is
        sent through sendPingWithEchoedByte with its first byte, so that its
        round trip is timed; any other command, and a PING with no payload,
        goes to sendCommand with the given payload or an empty one. The
        renderer's numbers become bytes as `Buffer.from` does, modulo 256.
        `ok` is false when sendCommand would throw. */
    method DeviceCommand(cmdType: byte, payload: Option<seq<int>>, now: int) returns (ok: bool)
      modifies this
      ensures var data := if payload.Some? then ToBytes(payload.value) else [];
        if cmdType == PING && |data| >= 1 then
          && ok
          && pendingPings == old(pendingPings)[data[0] := now]
          && writes == old(writes) + (if portOpen then [Encode(PING, [data[0]])] else [])
        else
          && (ok <==> !portOpen || |data| <= MAX_PAYLOAD)
          && pendingPings == old(pendingPings)
          && writes == old(writes)
            + (if portOpen && |data| <= MAX_PAYLOAD then [Encode(cmdType, data)] else [])
      ensures LinkUnchanged() && events == old(events)
    {
      if payload.Some? {
        var buffer := ToBytes(payload.value);
        if cmdType == PING && |buffer| >= 1 {
          SendPingWithEchoedByte(buffer[0], now);
          return true;
        }
        ok := SendCommand(cmdType, buffer);
      } else {
        ok := SendCommand(cmdType, []);
      }
    }

    method RequestConfig()
      modifies this
      ensures writes == old(writes) + (if portOpen then [Encode(GET_CONFIG, [])] else [])
      ensures LinkUnchanged() && pendingPings == old(pendingPings) && events == old(events)
    {
      var ok := SendCommand(GET_CONFIG, []);
    }

    method RequestStatus()
      modifies this
      ensures writes == old(writes) + (if portOpen then [Encode(GET_STATUS, [])] else [])
      ensures LinkUnchanged() && pendingPings == old(pendingPings) && events == old(events)
    {
      var ok := SendCommand(GET_STATUS, []);
    }

    method StopStatusPolling()
      modifies this
      ensures !pollActive
      ensures portOpen == old(portOpen) && hasWindow == old(hasWindow) && isConnected == old(isConnected)
      ensures shouldReconnect == old(shouldReconnect) && lastPath == old(lastPath)
      ensures lastBaudRate == old(lastBaudRate) && reconnectPending == old(reconnectPending)
      ensures pendingPings == old(pendingPings) && writes == old(writes) && events == old(events)
    {
      if pollActive {
        pollActive := false;
      }
    }

    /** startStatusPolling: any running interval is replaced by a new one. */
    method StartStatusPolling()
      modifies this
      ensures pollActive
      ensures portOpen == old(portOpen) && hasWindow == old(hasWindow) && isConnected == old(isConnected)
      ensures shouldReconnect == old(shouldReconnect) && lastPath == old(lastPath)
      ensures lastBaudRate == old(lastBaudRate) && reconnectPending == old(reconnectPending)
      ensures pendingPings == old(pendingPings) && writes == old(writes) && events == old(events)
    {
      StopStatusPolling();
      pollActive := true;
    }

    /** One firing of the 200 ms poll interval: a status request, but only
        while connected. */
    method PollTick()
      requires Valid()
      modifies this
      ensures Valid()
      ensures writes == old(writes) + (if isConnected then [Encode(GET_STATUS, [])] else [])
      ensures LinkUnchanged() && pendingPings == old(pendingPings) && events == old(events)
    {
      if !isConnected {
        return;
      }
      RequestStatus();
    }

    /** scheduleReconnect: a no-op while a reconnect is already pending. */
    method ScheduleReconnect()
      modifies this
      ensures reconnectPending
      ensures portOpen == old(portOpen) && hasWindow == old(hasWindow) && isConnected == old(isConnected)
      ensures shouldReconnect == old(shouldReconnect) && lastPath == old(lastPath)
      ensures lastBaudRate == old(lastBaudRate) && pollActive == old(pollActive)
      ensures pendingPings == old(pendingPings) && writes == old(writes) && events == old(events)
    {
      if reconnectPending {
        return;
      }
      reconnectPending := true;
    }

    /** disconnect: reconnection is switched off and any pending reconnect
        cancelled; an open port is closed; polling stops and the parser
        buffer is emptied. */
    method Disconnect()
      requires Valid()
      modifies this, parser
      ensures Valid()
      ensures !shouldReconnect && !reconnectPending && !isConnected && !pollActive && !portOpen
      ensures parser.buffer == []
      ensures events == old(events) + Notify(hasWindow, SerialStatus(Disconnected, None))
      ensures hasWindow == old(hasWindow) && lastPath == old(lastPath) && lastBaudRate == old(lastBaudRate)
      ensures pendingPings == old(pendingPings) && writes == old(writes)
    {
      shouldReconnect := false;
      if reconnectPending {
        reconnectPending := false;
      }
      if portOpen {
        portOpen := false;
        isConnected := false;
        StopStatusPolling();
        parser.Reset();
        EmitStatus(Disconnected, None);
      } else {
        isConnected := false;
        StopStatusPolling();
        parser.Reset();
        EmitStatus(Disconnected, None);
      }
    }

    /** connect: an existing connection is first torn down; reconnection is
        switched on for this path and baud rate and a pending reconnect is
        cancelled. A new port is then opened (its outcome is `openOk`, its
        error text `openError`). On success the parser is emptied, polling
        starts, the configuration is requested and a ping with a random echo
        byte is sent; on failure the error is reported and `ok` is false. */
    method Connect(path: string, baudRate: int, openOk: bool, openError: string, now: int, random: real)
      returns (ok: bool)
      requires Valid() && 0.0 <= random < 1.0
      modifies this, parser
      ensures Valid()
      ensures ok == openOk
      ensures shouldReconnect && lastPath == path && lastBaudRate == baudRate && !reconnectPending
      ensures isConnected == openOk && portOpen == openOk && pollActive == openOk
      ensures hasWindow == old(hasWindow)
      ensures openOk || old(isConnected) ==> parser.buffer == []
      ensures !openOk && !old(isConnected) ==> parser.buffer == old(parser.buffer)
      ensures var echoedByte := (random * 256.0).Floor;
        && pendingPings == (if openOk then old(pendingPings)[echoedByte := now] else old(pendingPings))
        && writes == old(writes)
          + (if openOk then [Encode(GET_CONFIG, []), Encode(PING, [echoedByte])] else [])
      ensures events == old(events)
        + (if old(isConnected) then Notify(hasWindow, SerialStatus(Disconnected, None)) else [])
        + Notify(hasWindow, SerialStatus(Connecting, None))
        + (if openOk then Notify(hasWindow, SerialStatus(Connected, None))
           else Notify(hasWindow, SerialStatus(Failed, Some(openError))))
    {
      if isConnected {
        Disconnect();
      }
      shouldReconnect := true;
      lastPath := path;
      lastBaudRate := baudRate;
      if reconnectPending {
        reconnectPending := false;
      }
      EmitStatus(Connecting, None);
      ok := OpenCallback(openOk, openError, now, random);
    }

    /** The callback connect passes to the port's open: on an error the
        failure is reported; otherwise the parser is emptied, "connected" is
        reported, polling starts, the configuration is requested and a ping
        is sent. */
    method OpenCallback(openOk: bool, openError: string, now: int, random: real) returns (ok: bool)
      requires shouldReconnect && !reconnectPending && !isConnected && !pollActive
      requires 0.0 <= random < 1.0
      modifies this, parser
      ensures Valid()
      ensures ok == openOk
      ensures isConnected == openOk && portOpen == openOk && pollActive == openOk
      ensures shouldReconnect == old(shouldReconnect) && lastPath == old(lastPath)
        && lastBaudRate == old(lastBaudRate) && reconnectPending == old(reconnectPending)
        && hasWindow == old(hasWindow)
      ensures parser.buffer == if openOk then [] else old(parser.buffer)
      ensures var echoedByte := (random * 256.0).Floor;
        && pendingPings == (if openOk then old(pendingPings)[echoedByte := now] else old(pendingPings))
        && writes == old(writes)
          + (if openOk then [Encode(GET_CONFIG, []), Encode(PING, [echoedByte])] else [])
      ensures events == old(events)
        + (if openOk then Notify(hasWindow, SerialStatus(Connected, None))
           else Notify(hasWindow, SerialStatus(Failed, Some(openError))))
    {
      portOpen := openOk;
      if !openOk {
        EmitStatus(Failed, Some(openError));
        isConnected := false;
        ok := false;
      } else {
        isConnected := true;
        parser.Reset();
        EmitStatus(Connected, None);
        StartStatusPolling();
        RequestConfig();
        var echoedByte := SendPing(random, now);
        ok := true;
      }
    }

    /** The reconnect timer fires: the timeout is cleared, and when
        reconnection is still wanted and a path is known, connect is retried;
        a failed retry schedules the next one. */
    method OnReconnectTimer(openOk: bool, openError: string, now: int, random: real)
      returns (attempted: bool)
      requires Valid() && reconnectPending && 0.0 <= random < 1.0
      modifies this, parser
      ensures Valid()
      ensures attempted == (old(shouldReconnect) && old(lastPath) != "")
      ensures attempted ==> isConnected == openOk && reconnectPending == !openOk && shouldReconnect
      ensures !attempted ==> !reconnectPending && !isConnected
      ensures !attempted ==> writes == old(writes) && events == old(events) && pendingPings == old(pendingPings)
    {
      reconnectPending := false;
      attempted := shouldReconnect && lastPath != "";
      if attempted {
        var ok := Connect(lastPath, lastBaudRate, openOk, openError, now, random);
        if !ok && shouldReconnect {
          ScheduleReconnect();
        }
      }
    }

    /** The port's 'close' event. */
    method OnClose()
      requires Valid()
      modifies this
      ensures Valid()
      ensures !portOpen && !isConnected && !pollActive
      ensures reconnectPending == (old(reconnectPending) || shouldReconnect)
      ensures shouldReconnect == old(shouldReconnect) && hasWindow == old(hasWindow)
      ensures lastPath == old(lastPath) && lastBaudRate == old(lastBaudRate)
      ensures events == old(events) + Notify(hasWindow, SerialStatus(Disconnected, None))
      ensures pendingPings == old(pendingPings) && writes == old(writes)
    {
      portOpen := false;
      isConnected := false;
      StopStatusPolling();
      EmitStatus(Disconnected, None);
      if shouldReconnect {
        ScheduleReconnect();
      }
    }

    /** The port's 'error' event; the port itself is left as it is. */
    method OnError(message: string)
      requires Valid()
      modifies this
      ensures Valid()
      ensures !isConnected && !pollActive && portOpen == old(portOpen)
      ensures reconnectPending == (old(reconnectPending) || shouldReconnect)
      ensures shouldReconnect == old(shouldReconnect) && hasWindow == old(hasWindow)
      ensures lastPath == old(lastPath) && lastBaudRate == old(lastBaudRate)
      ensures events == old(events) + Notify(hasWindow, SerialStatus(Failed, Some(message)))
      ensures pendingPings == old(pendingPings) && writes == old(writes)
    {
      isConnected := false;
      StopStatusPolling();
      EmitStatus(Failed, Some(message));
      if shouldReconnect {
        ScheduleReconnect();
      }
    }

    /** parseConfig: the decoded configuration goes to the window. */
    method ReportConfig(data: seq<byte>)
      modifies this
      ensures events == old(events)
        + match ParseConfig(data) { case None => [] case Some(c) => Notify(hasWindow, ConfigReport(c)) }
      ensures LinkUnchanged() && pendingPings == old(pendingPings) && writes == old(writes)
    {
      var config := ParseConfig(data);
      if config.None? {
        return;
      }
      if hasWindow {
        events := events + [ConfigReport(config.value)];
      }
    }

    /** parseStatus: the decoded status goes to the window. */
    method ReportStatus(data: seq<byte>)
      modifies this
      ensures events == old(events)
        + match ParseStatus(data) { case None => [] case Some(s) => Notify(hasWindow, StatusReport(s)) }
      ensures LinkUnchanged() && pendingPings == old(pendingPings) && writes == old(writes)
    {
      var status := ParseStatus(data);
      if status.None? {
        return;
      }
      if hasWindow {
        events := events + [StatusReport(status.value)];
      }
    }

    /** handlePingAck: nothing happens, and the table is left alone, without
        a window. */
    method HandlePingAck(data: seq<byte>, now: int)
      modifies this
      ensures var r := if hasWindow then PingAckReaction(old(pendingPings), data, now) else Reaction(old(pendingPings), []);
        pendingPings == r.pending && events == old(events) + r.events
      ensures LinkUnchanged() && writes == old(writes)
    {
      if !hasWindow {
        return;
      }
      if |data| < 1 {
        return;
      }
      var echoedByte := data[0];
      var sentAt: Option<int> := if echoedByte in pendingPings then Some(pendingPings[echoedByte]) else None;
      if sentAt.Some? {
        pendingPings := pendingPings - {echoedByte};
      }
      var rttMs := if sentAt.Some? then now - sentAt.value else -1;
      events := events + [PingAckReport(echoedByte, rttMs, now)];
    }

    /** emitAck: the type code and the payload as hex, or no hex when empty. */
    method EmitAck(ackType: byte, data: seq<byte>)
      modifies this
      ensures events == old(events) + Notify(hasWindow, AckReport(ackType, AckHex(data)))
      ensures LinkUnchanged() && pendingPings == old(pendingPings) && writes == old(writes)
    {
      if !hasWindow {
        return;
      }
      var dataHex := if |data| > 0 then Some(Hex(data)) else None;
      events := events + [AckReport(ackType, dataHex)];
    }

    /** processFrame: dispatch by type code; unknown codes are ignored. */
    method ProcessFrame(cmdType: byte, data: seq<byte>, now: int)
      modifies this
      ensures var r := Dispatch(old(pendingPings), hasWindow, Frame(cmdType, data), now);
        pendingPings == r.pending && events == old(events) + r.events
      ensures LinkUnchanged() && writes == old(writes)
    {
      if cmdType == RETURN_CONFIG {
        ReportConfig(data);
      } else if cmdType == RETURN_STATUS {
        ReportStatus(data);
      } else if cmdType == PING_ACK {
        HandlePingAck(data, now);
      } else if IsAckCode(cmdType) {
        EmitAck(cmdType, data);
      }
    }

    /** handleData: the chunk goes through the parser and every frame it
        completes is processed in order, all at the time `now`. */
    method HandleData(data: seq<byte>, now: int)
      modifies this, parser
      ensures var scanned := Scan(old(parser.buffer) + data);
        var r := DispatchAll(old(pendingPings), hasWindow, scanned.0, now);
        && parser.buffer == scanned.1
        && pendingPings == r.pending && events == old(events) + r.events
      ensures LinkUnchanged() && writes == old(writes)
    {
      ghost var scanned := Scan(parser.buffer + data);
      ghost var pending0, events0 := pendingPings, events;
      var frames := parser.Push(data);
      assert frames == scanned.0;
      var i := 0;
      while i < |frames|
        invariant 0 <= i <= |frames|
        invariant parser.buffer == scanned.1
        invariant LinkUnchanged() && writes == old(writes)
        invariant var r := DispatchAll(pending0, hasWindow, frames[..i], now);
          pendingPings == r.pending && events == events0 + r.events
      {
        assert frames[..i + 1][..i] == frames[..i];
        ProcessFrame(frames[i].cmdType, frames[i].data, now);
        i := i + 1;
      }
      assert frames[..|frames|] == frames;
    }
  }

  // ---- properties of dispatch ----

  /** A ping recorded at t0 and acknowledged at `now` reports `now - t0` and
      leaves no entry for its byte. */
  lemma PingRoundTrip(pending: map<byte, int>, b: byte, t0: int, rest: seq<byte>, now: int)
    ensures Dispatch(pending[b := t0], true, Frame(PING_ACK, [b] + rest), now)
      == Reaction(pending - {b}, [PingAckReport(b, now - t0, now)])
  {
    assert pending[b := t0] - {b} == pending - {b};
  }

  /** An echo byte with no recorded ping reports -1 and leaves the table alone. */
  lemma PingUnmatched(pending: map<byte, int>, data: seq<byte>, now: int)
    requires data != [] && data[0] !in pending
    ensures Dispatch(pending, true, Frame(PING_ACK, data), now)
      == Reaction(pending, [PingAckReport(data[0], -1, now)])
  {
  }

  /** Two pings with the same echo byte: the later send time wins. */
  lemma PingCollision(pending: map<byte, int>, b: byte, t0: int, t1: int, now: int)
    ensures Dispatch(pending[b := t0][b := t1], true, Frame(PING_ACK, [b]), now).events
      == [PingAckReport(b, now - t1, now)]
  {
  }

  /** An acknowledgement-class response carries its payload as hex text that
      reads back to the payload, or no text for an empty payload. */
  lemma AckForwarded(pending: map<byte, int>, f: Frame, now: int)
    requires IsAckCode(f.cmdType)
    ensures var r := Dispatch(pending, true, f, now);
      r.pending == pending && |r.events| == 1 && r.events[0].AckReport?
      && r.events[0].ackType == f.cmdType
      && (r.events[0].dataHex.None? <==> f.data == [])
      && (r.events[0].dataHex.Some? ==> FromHex(r.events[0].dataHex.value) == Some(f.data))
  {
  }

  /** A configuration response reaches the window iff it has 33 bytes, and
      what it reports is exactly what those bytes encode. */
  lemma ConfigForwarded(pending: map<byte, int>, data: seq<byte>, now: int)
    ensures var r := Dispatch(pending, true, Frame(RETURN_CONFIG, data), now);
      && r.pending == pending
      && (r.events == [] <==> |data| < CONFIG_MIN_LENGTH)
      && (r.events != [] ==>
            r.events[0].ConfigReport? && EncodeConfig(r.events[0].config) == data[..CONFIG_MIN_LENGTH])
  {
    if |data| >= CONFIG_MIN_LENGTH {
      ConfigImage(data);
    }
  }

  /** A status response reaches the window iff it has 33 bytes, and what it
      reports is exactly what the first 33 (or, from 37 bytes on, 37) encode. */
  lemma StatusForwarded(pending: map<byte, int>, data: seq<byte>, now: int)
    ensures var r := Dispatch(pending, true, Frame(RETURN_STATUS, data), now);
      && r.pending == pending
      && (r.events == [] <==> |data| < STATUS_MIN_LENGTH)
      && (r.events != [] ==>
            var n := if |data| >= STATUS_DOUBLE_DMA_LENGTH then STATUS_DOUBLE_DMA_LENGTH else STATUS_MIN_LENGTH;
            r.events[0].StatusReport? && EncodeStatus(r.events[0].report) == data[..n])
  {
    if |data| >= STATUS_MIN_LENGTH {
      StatusImage(data);
    }
  }

  /** Type codes outside the eight the session knows do nothing. */
  lemma UnknownIgnored(pending: map<byte, int>, hasWindow: bool, f: Frame, now: int)
    requires f.cmdType !in {RETURN_CONFIG, RETURN_STATUS, PING_ACK, ACK, NACK, SACK, DEMO_ACK, ERROR}
    ensures Dispatch(pending, hasWindow, f, now) == Reaction(pending, [])
  {
  }

  /** Frames of other types than PING_ACK never touch the ping table, however
      many arrive. */
  lemma {:induction false} OnlyPingAcksTouchTable(pending: map<byte, int>, hasWindow: bool, frames: seq<Frame>, now: int)
    requires forall k :: 0 <= k < |frames| ==> frames[k].cmdType != PING_ACK
    ensures DispatchAll(pending, hasWindow, frames, now).pending == pending
    decreases |frames|
  {
    if frames != [] {
      OnlyPingAcksTouchTable(pending, hasWindow, frames[..|frames| - 1], now);
    }
  }

  /** A chunk made only of acknowledgements yields one message per frame, in
      frame order, and leaves the ping table alone. */
  lemma {:induction false} AcksAllForwarded(pending: map<byte, int>, frames: seq<Frame>, now: int)
    requires forall k :: 0 <= k < |frames| ==> IsAckCode(frames[k].cmdType)
    ensures var r := DispatchAll(pending, true, frames, now);
      r.pending == pending && |r.events| == |frames|
      && forall k :: 0 <= k < |frames| ==> r.events[k] == AckReport(frames[k].cmdType, AckHex(frames[k].data))
    decreases |frames|
  {
    if frames != [] {
      var n := |frames| - 1;
      AcksAllForwarded(pending, frames[..n], now);
      var prev := DispatchAll(pending, true, frames[..n], now);
      var f := frames[n];
      assert Dispatch(prev.pending, true, f, now) == Reaction(prev.pending, [AckReport(f.cmdType, AckHex(f.data))]);
      var r := DispatchAll(pending, true, frames, now);
      assert r.events == prev.events + [AckReport(f.cmdType, AckHex(f.data))];
      forall k | 0 <= k < |frames|
        ensures r.events[k] == AckReport(frames[k].cmdType, AckHex(frames[k].data))
      {
        if k < n {
          assert frames[..n][k] == frames[k];
        }
      }
    }
  }
}
