/** The older revision of the serial service (electron/services/SerialService.ts):
    the same wire frame built inline, a receive loop that consumes a complete
    candidate whole whether or not it is valid and abandons header-less input
    above 1024 bytes, a dispatcher that forwards only configuration and status,
    and a status decoder that insists on the 37-byte shape. The lemmas at the
    end set it against the newer revision. */
module LegacyService {
  import opened Bytes
  import opened FrameCodec
  import opened StreamParser
  import opened Telemetry
  import opened Codes
  import Session = DeviceSession

  /** Above this many header-less bytes the buffer is abandoned. */
  const LEGACY_OVERFLOW_LIMIT: nat := 1024

  /** processFrame's validity checks on a candidate. A candidate too short for
      its tail reads `undefined` there and fails; a complete one is decoded
      exactly as the newer revision decodes it. */
  function LegacyDecode(frame: seq<byte>): (r: Option<Frame>)
    ensures r.Some? ==> 4 <= |frame| && FrameLength(frame[3]) <= |frame|
    ensures 4 <= |frame| && FrameLength(frame[3]) <= |frame| ==> r == DecodeCandidate(frame)
  {
    if |frame| < 4 then None
    else
      var dataLen: nat := frame[3];
      if !IsTailValid(frame, dataLen) then None
      else if !ChecksumOk(frame, dataLen) then None
      else Some(Frame(frame[2], frame[4..4 + dataLen]))
  }

  /** The checksum step of processFrame, once the tail has passed. */
  lemma LegacyChecked(frame: seq<byte>, sum: int)
    requires 4 <= |frame| && IsTailValid(frame, frame[3])
    requires sum == frame[2] + frame[3] + Sum(frame[4..4 + frame[3]])
    ensures LegacyDecode(frame) ==
      if sum % 256 == frame[4 + frame[3]] then Some(Frame(frame[2], frame[4..4 + frame[3]])) else None
  {
  }

  function Decoded(r: Option<Frame>): (fs: seq<Frame>)
    ensures |fs| <= 1
  {
    match r
    case None => []
    case Some(f) => [f]
  }

  /** What one call of handleData does to the whole buffer: the frames that
      pass processFrame's checks, in order, and the bytes kept. */
  function LegacyScan(buf: seq<byte>): (r: (seq<Frame>, seq<byte>))
    ensures |r.0| * FRAME_MIN_LENGTH + |r.1| <= |buf|
    decreases |buf|, 1
  {
    if |buf| < FRAME_MIN_LENGTH then ([], buf)
    else match FirstHeader(buf)
      case None => ([], if |buf| > LEGACY_OVERFLOW_LIMIT then [] else buf)
      case Some(h) => LegacyCandidate(buf[h..])
  }

  function LegacyCandidate(b: seq<byte>): (r: (seq<Frame>, seq<byte>))
    ensures |r.0| * FRAME_MIN_LENGTH + |r.1| <= |b|
    decreases |b|, 0
  {
    if |b| < 4 then ([], b)
    else
      var frameLen: nat := FrameLength(b[3]);
      if |b| < frameLen then ([], b)
      else
        var next := LegacyScan(b[frameLen..]);
        (Decoded(LegacyDecode(b[..frameLen])) + next.0, next.1)
  }

  /** parseStatus of the older revision: payloads under 37 bytes are ignored,
      and the dma statistic is the 8-byte double at offset 16, as read. */
  function LegacyParseStatus(data: seq<byte>): (r: Option<DeviceStatus>)
    ensures r.None? <==> |data| < STATUS_DOUBLE_DMA_LENGTH
    ensures r.Some? ==> WellFormedStatus(r.value) && r.value.dmaUpdateStats.AsFloat64?
  {
    if |data| < STATUS_DOUBLE_DMA_LENGTH then None
    else Some(DeviceStatus(
      F32At(data, 0), F32At(data, 4), F32At(data, 8), F32At(data, 12), AsFloat64(F64At(data, 16)),
      F32At(data, 24), data[28], U32At(data, 29), U32At(data, 33)))
  }

  /** The switch of processFrame on a frame that passed its checks: only
      configuration and status reach the window. */
  function LegacyReport(hasWindow: bool, f: Frame): (r: seq<Session.Event>)
    ensures |r| <= 1
    ensures r != [] ==> hasWindow && (f.cmdType == RETURN_CONFIG || f.cmdType == RETURN_STATUS)
    ensures hasWindow && f.cmdType == RETURN_CONFIG && |f.data| >= CONFIG_MIN_LENGTH ==>
      r == [Session.ConfigReport(ParseConfig(f.data).value)]
    ensures hasWindow && f.cmdType == RETURN_STATUS && |f.data| >= STATUS_DOUBLE_DMA_LENGTH ==>
      r == [Session.StatusReport(LegacyParseStatus(f.data).value)]
    ensures f.cmdType == RETURN_CONFIG && |f.data| < CONFIG_MIN_LENGTH ==> r == []
    ensures f.cmdType == RETURN_STATUS && |f.data| < STATUS_DOUBLE_DMA_LENGTH ==> r == []
  {
    if f.cmdType == RETURN_CONFIG then
      match ParseConfig(f.data) { case None => [] case Some(c) => Session.Notify(hasWindow, Session.ConfigReport(c)) }
    else if f.cmdType == RETURN_STATUS then
      match LegacyParseStatus(f.data) { case None => [] case Some(s) => Session.Notify(hasWindow, Session.StatusReport(s)) }
    else []
  }

  /** What processFrame sends for one candidate. */
  function Reported(hasWindow: bool, r: Option<Frame>): (es: seq<Session.Event>)
    ensures |es| <= 1
  {
    match r
    case None => []
    case Some(f) => LegacyReport(hasWindow, f)
  }

  function ReportAll(hasWindow: bool, frames: seq<Frame>): (r: seq<Session.Event>)
    ensures |r| <= |frames|
    ensures !hasWindow ==> r == []
    decreases |frames|
  {
    if frames == [] then []
    else ReportAll(hasWindow, frames[..|frames| - 1]) + LegacyReport(hasWindow, frames[|frames| - 1])
  }

  class SerialService {
    var portOpen: bool
    var hasWindow: bool
    var isConnected: bool
    /** the receive buffer; this revision never empties it on (re)connect */
    var buffer: seq<byte>
    var writes: seq<seq<byte>>
    var events: seq<Session.Event>

    predicate Valid()
      reads this
    {
      isConnected ==> portOpen
    }

    constructor ()
      ensures Valid()
      ensures !portOpen && !hasWindow && !isConnected && buffer == [] && writes == [] && events == []
    {
      portOpen := false;
      hasWindow := false;
      isConnected := false;
      buffer := [];
      writes := [];
      events := [];
    }

    method SetMainWindow(present: bool)
      modifies this
      ensures hasWindow == present
      ensures portOpen == old(portOpen) && isConnected == old(isConnected) && buffer == old(buffer)
      ensures writes == old(writes) && events == old(events)
    {
      hasWindow := present;
    }

    method EmitStatus(status: Session.ConnectionStatus, error: Option<string>)
      modifies this
      ensures events == old(events) + Session.Notify(hasWindow, Session.SerialStatus(status, error))
      ensures portOpen == old(portOpen) && hasWindow == old(hasWindow) && isConnected == old(isConnected)
      ensures buffer == old(buffer) && writes == old(writes)
    {
      if hasWindow {
        events := events + [Session.SerialStatus(status, error)];
      }
    }

    /** connect: an existing connection is first torn down, then the new port
        is opened with outcome `openOk`. There is no reconnection, no polling
        and no request after opening, and the receive buffer is kept. */
    method Connect(path: string, baudRate: int, openOk: bool, openError: string) returns (ok: bool)
      requires Valid()
      modifies this
      ensures Valid()
      ensures ok == openOk && isConnected == openOk && portOpen == openOk
      ensures hasWindow == old(hasWindow) && buffer == old(buffer) && writes == old(writes)
      ensures events == old(events)
        + (if old(isConnected) then Session.Notify(hasWindow, Session.SerialStatus(Session.Disconnected, None)) else [])
        + Session.Notify(hasWindow, Session.SerialStatus(Session.Connecting, None))
        + (if openOk then Session.Notify(hasWindow, Session.SerialStatus(Session.Connected, None))
           else Session.Notify(hasWindow, Session.SerialStatus(Session.Failed, Some(openError))))
    {
      if isConnected {
        Disconnect();
      }
      EmitStatus(Session.Connecting, None);
      portOpen := openOk;
      if !openOk {
        EmitStatus(Session.Failed, Some(openError));
        isConnected := false;
        ok := false;
      } else {
        isConnected := true;
        EmitStatus(Session.Connected, None);
        ok := true;
      }
    }

    method Disconnect()
      requires Valid()
      modifies this
      ensures Valid()
      ensures !isConnected && !portOpen
      ensures hasWindow == old(hasWindow) && buffer == old(buffer) && writes == old(writes)
      ensures events == old(events) + Session.Notify(hasWindow, Session.SerialStatus(Session.Disconnected, None))
    {
      if portOpen {
        portOpen := false;
        isConnected := false;
        EmitStatus(Session.Disconnected, None);
      } else {
        isConnected := false;
        EmitStatus(Session.Disconnected, None);
      }
    }

    method OnClose()
      requires Valid()
      modifies this
      ensures Valid()
      ensures !isConnected && !portOpen
      ensures hasWindow == old(hasWindow) && buffer == old(buffer) && writes == old(writes)
      ensures events == old(events) + Session.Notify(hasWindow, Session.SerialStatus(Session.Disconnected, None))
    {
      portOpen := false;
      isConnected := false;
      EmitStatus(Session.Disconnected, None);
    }

    method OnError(message: string)
      requires Valid()
      modifies this
      ensures Valid()
      ensures !isConnected && portOpen == old(portOpen)
      ensures hasWindow == old(hasWindow) && buffer == old(buffer) && writes == old(writes)
      ensures events == old(events) + Session.Notify(hasWindow, Session.SerialStatus(Session.Failed, Some(message)))
    {
      isConnected := false;
      EmitStatus(Session.Failed, Some(message));
    }

    /** sendCommand with the frame built inline; nothing is written unless the
        port is open, and a payload longer than the length byte can hold makes
        `writeUInt8` throw before anything is written, which is `ok == false`. */
    method SendCommand(cmdType: byte, payload: seq<byte>) returns (ok: bool)
      modifies this
      ensures ok <==> !portOpen || |payload| <= MAX_PAYLOAD
      ensures writes == old(writes)
        + (if portOpen && |payload| <= MAX_PAYLOAD then [Encode(cmdType, payload)] else [])
      ensures portOpen == old(portOpen) && hasWindow == old(hasWindow) && isConnected == old(isConnected)
      ensures buffer == old(buffer) && events == old(events)
    {
      if !portOpen {
        return true;
      }
      var length := |payload|;
      if length > MAX_PAYLOAD {
        return false;
      }
      var frame := BuildInline(cmdType, payload);
      writes := writes + [frame];
      ok := true;
    }

    /** sendCommand's frame built in a fresh buffer through a moving offset. */
    static method BuildInline(cmdType: byte, payload: seq<byte>) returns (bytes: seq<byte>)
      requires |payload| <= MAX_PAYLOAD
      ensures bytes == Encode(cmdType, payload)
    {
      var length := |payload|;
      var frame := new byte[FrameLength(length)];
      var offset := 0;
      frame[offset] := HEADER_1; offset := offset + 1;
      frame[offset] := HEADER_2; offset := offset + 1;
      frame[offset] := cmdType; offset := offset + 1;
      frame[offset] := length; offset := offset + 1;
      var i := 0;
      while i < length
        invariant 0 <= i <= length
        invariant frame[0] == HEADER_1 && frame[1] == HEADER_2 && frame[2] == cmdType && frame[3] == length
        invariant forall k :: 0 <= k < i ==> frame[4 + k] == payload[k]
        modifies frame
      {
        frame[offset + i] := payload[i];
        i := i + 1;
      }
      offset := offset + length;
      var sum := PayloadSum(cmdType, payload);
      var checksum := sum % 256;
      frame[offset] := checksum; offset := offset + 1;
      frame[offset] := TAIL_1; offset := offset + 1;
      frame[offset] := TAIL_2;
      bytes := frame[..];
      EncodeByIndex(bytes, cmdType, payload);
    }

    method ReportConfig(data: seq<byte>)
      modifies this
      ensures events == old(events)
        + match ParseConfig(data) { case None => [] case Some(c) => Session.Notify(hasWindow, Session.ConfigReport(c)) }
      ensures portOpen == old(portOpen) && hasWindow == old(hasWindow) && isConnected == old(isConnected)
      ensures buffer == old(buffer) && writes == old(writes)
    {
      var config := ParseConfig(data);
      if config.None? {
        return;
      }
      if hasWindow {
        events := events + [Session.ConfigReport(config.value)];
      }
    }

    method ReportStatus(data: seq<byte>)
      modifies this
      ensures events == old(events)
        + match LegacyParseStatus(data) { case None => [] case Some(s) => Session.Notify(hasWindow, Session.StatusReport(s)) }
      ensures portOpen == old(portOpen) && hasWindow == old(hasWindow) && isConnected == old(isConnected)
      ensures buffer == old(buffer) && writes == old(writes)
    {
      var status := LegacyParseStatus(data);
      if status.None? {
        return;
      }
      if hasWindow {
        events := events + [Session.StatusReport(status.value)];
      }
    }

    /** processFrame: tail check, checksum loop, then the two-case switch;
        PING_ACK and every other code fall through. */
    method ProcessFrame(frame: seq<byte>)
      modifies this
      ensures events == old(events) + Reported(hasWindow, LegacyDecode(frame))
      ensures portOpen == old(portOpen) && hasWindow == old(hasWindow) && isConnected == old(isConnected)
      ensures buffer == old(buffer) && writes == old(writes)
    {
      if |frame| < 4 {
        return;
      }
      var cmdType := frame[2];
      var dataLen: nat := frame[3];
      if !IsTailValid(frame, dataLen) {
        return;
      }
      var data := frame[4..4 + dataLen];
      var checksum := frame[4 + dataLen];
      var sum := PayloadSum(cmdType, data);
      LegacyChecked(frame, sum);
      if sum % 256 != checksum {
        return;
      }
      Switch(cmdType, data);
    }

    /** processFrame's switch on a frame that passed its checks. */
    method Switch(cmdType: byte, data: seq<byte>)
      modifies this
      ensures events == old(events) + LegacyReport(hasWindow, Frame(cmdType, data))
      ensures portOpen == old(portOpen) && hasWindow == old(hasWindow) && isConnected == old(isConnected)
      ensures buffer == old(buffer) && writes == old(writes)
    {
      if cmdType == RETURN_CONFIG {
        ReportConfig(data);
      } else if cmdType == RETURN_STATUS {
        ReportStatus(data);
      }
    }

    /** One pass of handleData's loop body; `decoded` is what processFrame
        made of the candidate it consumed, if any. */
    method Pass() returns (ghost decoded: Option<Frame>, stop: bool)
      requires |buffer| >= FRAME_MIN_LENGTH
      modifies this
      ensures LegacyOnePass(old(buffer)) == Step(Decoded(decoded), buffer, stop)
      ensures events == old(events) + Reported(hasWindow, decoded)
      ensures portOpen == old(portOpen) && hasWindow == old(hasWindow) && isConnected == old(isConnected)
      ensures writes == old(writes)
    {
      var headerIndex := IndexOfHeader(buffer);
      if headerIndex < 0 {
        if |buffer| > LEGACY_OVERFLOW_LIMIT {
          buffer := [];
        }
        return None, true;
      }
      if headerIndex > 0 {
        buffer := buffer[headerIndex..];
      }
      if |buffer| < 4 {
        return None, true;
      }
      var dataLen: nat := buffer[3];
      var frameLen: nat := 2 + 1 + 1 + dataLen + 1 + 2;
      if |buffer| < frameLen {
        return None, true;
      }
      var frame := buffer[..frameLen];
      decoded := LegacyDecode(frame);
      ProcessFrame(frame);
      buffer := buffer[frameLen..];
      stop := false;
    }

    /** handleData: append the chunk and cut candidates off the front. */
    method HandleData(data: seq<byte>)
      modifies this
      ensures var scanned := LegacyScan(old(buffer) + data);
        buffer == scanned.1 && events == old(events) + ReportAll(hasWindow, scanned.0)
      ensures |buffer| <= LEGACY_OVERFLOW_LIMIT
      ensures portOpen == old(portOpen) && hasWindow == old(hasWindow) && isConnected == old(isConnected)
      ensures writes == old(writes)
    {
      ghost var whole := buffer + data;
      ghost var events0 := events;
      ghost var window := hasWindow;
      ghost var emitted: seq<Frame> := [];
      buffer := buffer + data;
      assert emitted + LegacyScan(buffer).0 == LegacyScan(buffer).0;
      while |buffer| >= FRAME_MIN_LENGTH
        invariant LegacyScan(whole) == (emitted + LegacyScan(buffer).0, LegacyScan(buffer).1)
        invariant events == events0 + ReportAll(window, emitted)
        invariant portOpen == old(portOpen) && hasWindow == old(hasWindow) && isConnected == old(isConnected)
        invariant writes == old(writes)
        decreases |buffer|
      {
        ghost var current, eventsBefore := buffer, events;
        ghost var decoded;
        var stop;
        decoded, stop := Pass();
        LegacyPassScan(current);
        PassAppend(LegacyScan(whole), emitted, LegacyScan(current), LegacyOnePass(current),
                   LegacyScan(LegacyOnePass(current).rest));
        ReportAllAppend(window, emitted, decoded);
        EventsStep(events0, eventsBefore, events, ReportAll(window, emitted), Reported(window, decoded),
                   ReportAll(window, emitted + Decoded(decoded)));
        emitted := emitted + Decoded(decoded);
        if stop {
          LegacyBound(whole);
          return;
        }
      }
      LegacyShort(buffer, emitted);
      LegacyBound(whole);
    }
  }

  /** Buffer.indexOf of the two header bytes, a library search: the first
      header's index, or -1 when there is none. */
  method IndexOfHeader(s: seq<byte>) returns (index: int)
    ensures index < 0 <==> FirstHeader(s).None?
    ensures index >= 0 ==> FirstHeader(s) == Some(index)
  {
    index := match FirstHeader(s) { case Some(h) => h case None => -1 };
  }

  /** The events invariant of handleData's loop survives one candidate: the
      events sent so far, then those of this candidate, are those of all the
      frames decoded so far. A proof step only; it models nothing in the
      program. */
  lemma EventsStep(events0: seq<Session.Event>, before: seq<Session.Event>, after: seq<Session.Event>,
                   earlier: seq<Session.Event>, now: seq<Session.Event>, total: seq<Session.Event>)
    requires before == events0 + earlier && after == before + now && total == earlier + now
    ensures after == events0 + total
  {
    assert (events0 + earlier) + now == events0 + (earlier + now);
  }

  lemma ReportAllAppend(hasWindow: bool, frames: seq<Frame>, r: Option<Frame>)
    ensures ReportAll(hasWindow, frames + Decoded(r)) == ReportAll(hasWindow, frames) + Reported(hasWindow, r)
  {
    if r.Some? {
      assert (frames + [r.value])[..|frames|] == frames;
    } else {
      assert frames + [] == frames;
    }
  }

  /** One pass of handleData's loop body over a buffer of at least 7 bytes. */
  function LegacyOnePass(buf: seq<byte>): (p: Step)
    requires |buf| >= FRAME_MIN_LENGTH
    ensures !p.stop ==> |p.rest| < |buf|
  {
    match FirstHeader(buf)
    case None => Step([], if |buf| > LEGACY_OVERFLOW_LIMIT then [] else buf, true)
    case Some(h) =>
      var b := buf[h..];
      if |b| < 4 || |b| < FrameLength(b[3]) then Step([], b, true)
      else Step(Decoded(LegacyDecode(b[..FrameLength(b[3])])), b[FrameLength(b[3])..], false)
  }

  /** LegacyScan is the loop of passes. */
  lemma LegacyPassScan(buf: seq<byte>)
    requires |buf| >= FRAME_MIN_LENGTH
    ensures var p := LegacyOnePass(buf);
      LegacyScan(buf) == if p.stop then (p.emitted, p.rest) else (p.emitted + LegacyScan(p.rest).0, LegacyScan(p.rest).1)
  {
    if FirstHeader(buf).Some? {
      var h := FirstHeader(buf).value;
      assert LegacyScan(buf) == LegacyCandidate(buf[h..]);
    }
  }

  /** Too short a buffer leaves handleData's loop with nothing more emitted. */
  lemma LegacyShort(buf: seq<byte>, emitted: seq<Frame>)
    requires |buf| < FRAME_MIN_LENGTH
    ensures (emitted + LegacyScan(buf).0, LegacyScan(buf).1) == (emitted, buf)
  {
    assert emitted + [] == emitted;
  }

  // ---- what handleData promises ----

  /** The kept buffer is a suffix of the scanned bytes and never longer than 1024. */
  lemma {:induction false} LegacyBound(buf: seq<byte>)
    ensures |LegacyScan(buf).1| <= |buf| && |LegacyScan(buf).1| <= LEGACY_OVERFLOW_LIMIT
    ensures LegacyScan(buf).1 == buf[|buf| - |LegacyScan(buf).1|..]
    decreases |buf|, 1
  {
    if |buf| >= FRAME_MIN_LENGTH && FirstHeader(buf).Some? {
      var h := FirstHeader(buf).value;
      var kept := LegacyScan(buf).1;
      assert kept == LegacyCandidate(buf[h..]).1;
      LegacyCandidateBound(buf[h..]);
      DropDrop(buf, h, |buf| - h - |kept|);
    }
  }

  lemma {:induction false} LegacyCandidateBound(b: seq<byte>)
    ensures |LegacyCandidate(b).1| <= |b| && |LegacyCandidate(b).1| <= LEGACY_OVERFLOW_LIMIT
    ensures LegacyCandidate(b).1 == b[|b| - |LegacyCandidate(b).1|..]
    decreases |b|, 0
  {
    if |b| >= 4 && |b| >= FrameLength(b[3]) {
      var frameLen := FrameLength(b[3]);
      var kept := LegacyCandidate(b).1;
      assert kept == LegacyScan(b[frameLen..]).1;
      LegacyBound(b[frameLen..]);
      DropDrop(b, frameLen, |b| - frameLen - |kept|);
    }
  }

  /** Bytes before the first header are discarded. */
  lemma LegacySkipGarbage(buf: seq<byte>, h: nat)
    requires |buf| >= FRAME_MIN_LENGTH && FirstHeader(buf) == Some(h)
    ensures LegacyScan(buf) == LegacyScan(buf[h..])
  {
    var b := buf[h..];
    assert HeaderAt(b, 0);
    if |b| >= FRAME_MIN_LENGTH {
      assert FirstHeader(b) == Some(0);
      assert b[0..] == b;
    } else if |b| >= 4 {
      assert |b| < FrameLength(b[3]);
    }
  }

  /** A partial frame at the front is kept whole for the next chunk. */
  lemma LegacyWaitsForMore(buf: seq<byte>)
    requires |buf| < FRAME_MIN_LENGTH || (HeaderAt(buf, 0) && 4 <= |buf| < FrameLength(buf[3]))
    ensures LegacyScan(buf) == ([], buf)
  {
    if |buf| >= FRAME_MIN_LENGTH {
      assert FirstHeader(buf) == Some(0);
      assert buf[0..] == buf;
    }
  }

  /** A complete candidate that fails its checks is consumed in full and
      yields nothing. */
  lemma LegacyConsumesInvalid(buf: seq<byte>)
    requires HeaderAt(buf, 0) && 4 <= |buf| && FrameLength(buf[3]) <= |buf|
    requires DecodeCandidate(buf[..FrameLength(buf[3])]).None?
    ensures LegacyScan(buf) == LegacyScan(buf[FrameLength(buf[3])..])
  {
    assert FirstHeader(buf) == Some(0);
    assert buf[0..] == buf;
    var next := LegacyScan(buf[FrameLength(buf[3])..]);
    assert Decoded(LegacyDecode(buf[..FrameLength(buf[3])])) == [];
    assert [] + next.0 == next.0;
  }

  /** A valid frame at the front is emitted and exactly its bytes consumed. */
  lemma LegacyFrameThen(f: Frame, rest: seq<byte>)
    requires |f.data| <= MAX_PAYLOAD
    ensures LegacyScan(EncodeFrame(f) + rest) == ([f] + LegacyScan(rest).0, LegacyScan(rest).1)
  {
    var e := EncodeFrame(f);
    var buf := e + rest;
    DecodeEncode(f.cmdType, f.data);
    assert HeaderAt(buf, 0);
    assert FirstHeader(buf) == Some(0);
    assert buf[0..] == buf;
    assert buf[..|e|] == e;
    assert buf[|e|..] == rest;
  }

  /** A stream of well-formed frames comes out as those frames, with nothing kept. */
  lemma {:induction false} LegacyFramesRoundTrip(frames: seq<Frame>)
    requires forall k :: 0 <= k < |frames| ==> |frames[k].data| <= MAX_PAYLOAD
    ensures LegacyScan(EncodeAll(frames)) == (frames, [])
    decreases |frames|
  {
    if frames == [] {
      assert EncodeAll(frames) == [];
    } else {
      LegacyFramesRoundTrip(frames[1..]);
      LegacyFrameThen(frames[0], EncodeAll(frames[1..]));
      assert EncodeAll(frames) == EncodeFrame(frames[0]) + EncodeAll(frames[1..]);
      assert [frames[0]] + frames[1..] == frames;
    }
  }

  // ---- the two revisions side by side ----

  /** On clean input the two receive loops agree. */
  lemma RevisionsAgreeOnCleanStreams(frames: seq<Frame>)
    requires forall k :: 0 <= k < |frames| ==> |frames[k].data| <= MAX_PAYLOAD
    ensures LegacyScan(EncodeAll(frames)) == Scan(EncodeAll(frames)) == (frames, [])
  {
    LegacyFramesRoundTrip(frames);
    FramesRoundTrip(frames);
  }

  /** A false header followed by a real frame: the newer revision drops one
      byte and recovers the frame; the older one consumes the 7-byte false
      candidate, which swallows the real frame's header, and finds nothing. */
  lemma FalseHeaderLost()
    ensures Scan([0xAA, 0x55, 0x01, 0x00] + Encode(0x80, [])) == ([Frame(0x80, [])], [])
    ensures LegacyScan([0xAA, 0x55, 0x01, 0x00] + Encode(0x80, [])) == ([], [0x00, 0x80, 0x0D, 0x0A])
  {
    FalseHeaderRecovered();
    var buf: seq<byte> := [0xAA, 0x55, 0x01, 0x00] + Encode(0x80, []);
    assert buf == [0xAA, 0x55, 0x01, 0x00, 0xAA, 0x55, 0x80, 0x00, 0x80, 0x0D, 0x0A];
    assert FirstHeader(buf) == Some(0);
    assert buf[0..] == buf;
    assert !IsTailValid(buf[..7], 0);
    assert LegacyDecode(buf[..7]).None?;
    assert buf[7..] == [0x00, 0x80, 0x0D, 0x0A];
    assert LegacyScan(buf[7..]) == ([], buf[7..]);
    assert LegacyScan(buf) == LegacyCandidate(buf);
    var none: seq<Frame> := [];
    assert none + none == none;
  }

  /** Header-less input between the two thresholds is kept by the newer
      revision and abandoned by the older one. */
  lemma OverflowThresholdsDiffer(g: seq<byte>)
    requires LEGACY_OVERFLOW_LIMIT < |g| <= OVERFLOW_LIMIT
    requires forall j :: !HeaderAt(g, j)
    ensures Scan(g) == ([], g)
    ensures LegacyScan(g) == ([], [])
  {
    NoHeaderOverflow(g);
    assert FirstHeader(g).None?;
  }

  /** The older status decoder accepts only the 37-byte shape, reads the same
      fields there as the newer one, and leaves the dma statistic unscaled. */
  lemma StatusRevisions(data: seq<byte>)
    ensures 33 <= |data| < 37 ==> ParseStatus(data).Some? && LegacyParseStatus(data).None?
    ensures |data| >= 37 ==> var old_ := LegacyParseStatus(data).value;
      ParseStatus(data) == Some(old_.(dmaUpdateStats := AsFloat64Div1000(old_.dmaUpdateStats.double)))
  {
  }

  /** The older decoder reads back the 37-byte record the device writes. */
  lemma LegacyStatusRoundTrip(s: DeviceStatus, dma: Float64)
    requires WellFormedStatus(s) && s.dmaUpdateStats == AsFloat64(dma)
    ensures LegacyParseStatus(EncodeStatus(s.(dmaUpdateStats := AsFloat64Div1000(dma)))) == Some(s)
  {
    var t := s.(dmaUpdateStats := AsFloat64Div1000(dma));
    StatusRoundTrip(t);
    StatusRevisions(EncodeStatus(t));
  }

  /** Acknowledgements and ping replies reach the window in the newer revision
      and are dropped by the older one. */
  lemma DispatchRevisions(pending: map<byte, int>, f: Frame, now: int)
    requires IsAckCode(f.cmdType) || (f.cmdType == PING_ACK && f.data != [])
    ensures LegacyReport(true, f) == []
    ensures |Session.Dispatch(pending, true, f, now).events| == 1
  {
  }
}
