/** The wire frame `AA 55 | type | len | payload | checksum | 0D 0A`:
    building one, and the two validity checks the receive loop applies to a
    complete candidate (ProtocolParser.buildFrame, isTailValid and
    isChecksumValid in the newer revision). */
module FrameCodec {
  import opened Bytes

  const HEADER_1: byte := 0xAA
  const HEADER_2: byte := 0x55
  const TAIL_1: byte := 0x0D
  const TAIL_2: byte := 0x0A
  /** header(2) + type(1) + len(1) + checksum(1) + tail(2), empty payload */
  const FRAME_MIN_LENGTH: nat := 7
  /** the length field is one byte */
  const MAX_PAYLOAD: nat := 255

  /** A frame as the parser hands it on: `{cmdType, data}`. */
  datatype Frame = Frame(cmdType: byte, data: seq<byte>)

  function FrameLength(dataLen: nat): nat
  {
    2 + 1 + 1 + dataLen + 1 + 2
  }

  /** `(type + len + Σpayload) & 0xFF`; the sum is never negative, so the mask is `% 256`. */
  function Checksum(cmdType: byte, payload: seq<byte>): byte
  {
    (cmdType + |payload| + Sum(payload)) % 256
  }

  /** The wire image of one frame. */
  function Encode(cmdType: byte, payload: seq<byte>): seq<byte>
    requires |payload| <= MAX_PAYLOAD
  {
    [HEADER_1, HEADER_2, cmdType, |payload|] + payload + [Checksum(cmdType, payload), TAIL_1, TAIL_2]
  }

  function EncodeFrame(f: Frame): seq<byte>
    requires |f.data| <= MAX_PAYLOAD
  {
    Encode(f.cmdType, f.data)
  }

  /** The header pattern AA 55 starts at index i of s. */
  predicate HeaderAt(s: seq<byte>, i: int)
  {
    0 <= i && i + 1 < |s| && s[i] == HEADER_1 && s[i + 1] == HEADER_2
  }

  /** isTailValid: the two bytes after the checksum are 0D 0A. A short frame
      reads `undefined` there, which compares unequal; so a valid tail means
      the whole frame of that payload length is present. */
  predicate IsTailValid(frame: seq<byte>, dataLen: nat): (ok: bool)
    ensures ok ==> FrameLength(dataLen) <= |frame|
  {
    4 + dataLen + 2 < |frame| && frame[4 + dataLen + 1] == TAIL_1 && frame[4 + dataLen + 2] == TAIL_2
  }

  /** The checksum byte of a candidate agrees with its type, length and payload. */
  predicate ChecksumOk(frame: seq<byte>, dataLen: nat)
    requires FrameLength(dataLen) <= |frame|
  {
    (frame[2] + dataLen + Sum(frame[4..4 + dataLen])) % 256 == frame[4 + dataLen]
  }

  /** A complete candidate (header at 0, declared length available) decoded
      as the receive loop does: a frame when both checks pass. */
  function DecodeCandidate(frame: seq<byte>): (r: Option<Frame>)
    requires 4 <= |frame| && FrameLength(frame[3]) <= |frame|
    ensures r.Some? <==> IsTailValid(frame, frame[3]) && ChecksumOk(frame, frame[3])
    ensures r.Some? ==>
      && r.value.cmdType == frame[2] && |r.value.data| == frame[3]
      && frame[4 + frame[3]] == Checksum(r.value.cmdType, r.value.data)
  {
    var n := frame[3];
    if IsTailValid(frame, n) && ChecksumOk(frame, n) then Some(Frame(frame[2], frame[4..4 + n]))
    else None
  }

  /** buildFrame: fills a buffer of 7 + |payload| bytes through a moving offset
      and a running sum. `writeUInt8` rejects a length byte above 255, so an
      over-long payload yields no frame. */
  method BuildFrame(cmdType: byte, payload: seq<byte>) returns (r: Option<seq<byte>>)
    ensures r.None? <==> |payload| > MAX_PAYLOAD
    ensures r.Some? ==> r.value == Encode(cmdType, payload)
  {
    var length := |payload|;
    if length > MAX_PAYLOAD {
      return None;
    }
    var frame := new byte[FrameLength(length)];
    var offset := 0;
    frame[offset] := HEADER_1; offset := offset + 1;
    frame[offset] := HEADER_2; offset := offset + 1;
    frame[offset] := cmdType; offset := offset + 1;
    frame[offset] := length; offset := offset + 1;
    var i := 0;
    while i < length
      invariant 0 <= i <= length
      invariant frame[0] == HEADER_1 && frame[1] == HEADER_2 && frame[2] == cmdType && frame[3] == length
      invariant forall k :: 0 <= k < i ==> frame[4 + k] == payload[k]
    {
      frame[offset + i] := payload[i];
      i := i + 1;
    }
    offset := offset + length;
    var sum := PayloadSum(cmdType, payload);
    frame[offset] := sum % 256; offset := offset + 1;
    frame[offset] := TAIL_1; offset := offset + 1;
    frame[offset] := TAIL_2;
    EncodeByIndex(frame[..], cmdType, payload);
    r := Some(frame[..]);
  }

  /** The checksum loop `sum = cmdType + length; for (byte of payload) sum += byte`. */
  method PayloadSum(cmdType: byte, payload: seq<byte>) returns (sum: nat)
    ensures sum == cmdType + |payload| + Sum(payload)
  {
    sum := cmdType + |payload|;
    var i := 0;
    while i < |payload|
      invariant 0 <= i <= |payload|
      invariant sum == cmdType + |payload| + Sum(payload[..i])
    {
      assert payload[..i + 1][..i] == payload[..i];
      sum := sum + payload[i];
      i := i + 1;
    }
    assert payload[..|payload|] == payload;
  }

  /** A buffer that holds, index by index, what `Encode` lays out is that encoding. */
  lemma EncodeByIndex(f: seq<byte>, cmdType: byte, payload: seq<byte>)
    requires |payload| <= MAX_PAYLOAD && |f| == FrameLength(|payload|)
    requires f[0] == HEADER_1 && f[1] == HEADER_2 && f[2] == cmdType && f[3] == |payload|
    requires forall k :: 0 <= k < |payload| ==> f[4 + k] == payload[k]
    requires f[4 + |payload|] == Checksum(cmdType, payload)
    requires f[5 + |payload|] == TAIL_1 && f[6 + |payload|] == TAIL_2
    ensures f == Encode(cmdType, payload)
  {
    var e := Encode(cmdType, payload);
    assert forall k :: 0 <= k < |payload| ==> e[4 + k] == payload[k];
    assert forall k :: 0 <= k < |f| ==> f[k] == e[k];
  }

  /** isChecksumValid: recomputes the sum over type, length and payload with a loop. */
  method IsChecksumValid(frame: seq<byte>, dataLen: nat) returns (ok: bool)
    requires FrameLength(dataLen) <= |frame|
    ensures ok == ChecksumOk(frame, dataLen)
  {
    var cmdType := frame[2];
    var expected := frame[4 + dataLen];
    var sum := cmdType + dataLen;
    var i := 0;
    while i < dataLen
      invariant 0 <= i <= dataLen
      invariant sum == cmdType + dataLen + Sum(frame[4..4 + i])
    {
      assert frame[4..4 + i + 1][..i] == frame[4..4 + i];
      sum := sum + frame[4 + i];
      i := i + 1;
    }
    ok := sum % 256 == expected;
  }

  // ---- properties of the codec ----

  /** The wire layout: AA 55, the type, the length, the payload, the checksum
      (type + length + payload bytes, modulo 256), then 0D 0A. */
  lemma EncodeLayout(cmdType: byte, payload: seq<byte>)
    requires |payload| <= MAX_PAYLOAD
    ensures var f := Encode(cmdType, payload);
      && |f| == 7 + |payload|
      && f[0] == 0xAA && f[1] == 0x55 && f[2] == cmdType && f[3] == |payload|
      && f[4..4 + |payload|] == payload
      && f[4 + |payload|] == (cmdType + |payload| + Sum(payload)) % 256
      && f[5 + |payload|] == 0x0D && f[6 + |payload|] == 0x0A
  {
    var f := Encode(cmdType, payload);
    assert f[4..4 + |payload|] == payload;
  }

  /** Decoding an encoded frame gives back its type and payload. */
  lemma DecodeEncode(cmdType: byte, payload: seq<byte>)
    requires |payload| <= MAX_PAYLOAD
    ensures var e := Encode(cmdType, payload);
      HeaderAt(e, 0) && |e| == FrameLength(|payload|) && e[3] == |payload|
      && DecodeCandidate(e) == Some(Frame(cmdType, payload))
  {
    var e := Encode(cmdType, payload);
    assert e[4..4 + |payload|] == payload;
  }

  /** A candidate that decodes is exactly the encoding of what it decodes to. */
  lemma EncodeDecode(frame: seq<byte>)
    requires HeaderAt(frame, 0) && 4 <= |frame| && FrameLength(frame[3]) <= |frame|
    requires DecodeCandidate(frame).Some?
    ensures var f := DecodeCandidate(frame).value;
      |f.data| == frame[3] && frame[..FrameLength(frame[3])] == EncodeFrame(f)
  {
    var n := frame[3];
    var f := DecodeCandidate(frame).value;
    assert |f.data| == n;
    var e := EncodeFrame(f);
    assert frame[..FrameLength(n)] == frame[..4] + frame[4..4 + n] + frame[4 + n..FrameLength(n)];
    assert e == e[..4] + e[4..4 + n] + e[4 + n..];
  }

  /** Changing any one byte of an encoded frame other than its header and its
      length byte makes the frame fail its tail or checksum check. */
  lemma CorruptionDetected(cmdType: byte, payload: seq<byte>, k: nat, v: byte)
    requires |payload| <= MAX_PAYLOAD
    requires 2 <= k < FrameLength(|payload|) && k != 3
    requires v != Encode(cmdType, payload)[k]
    ensures var c := Encode(cmdType, payload)[k := v];
      c[3] == |payload| && DecodeCandidate(c).None?
  {
    var n := |payload|;
    var e := Encode(cmdType, payload);
    assert e[4..4 + n] == payload;
    if k == 2 {
      CorruptType(cmdType, payload, v);
    } else if k < 4 + n {
      CorruptPayload(cmdType, payload, k, v);
    } else if k == 4 + n {
      CorruptChecksum(cmdType, payload, v);
    }
  }

  lemma CorruptType(cmdType: byte, payload: seq<byte>, v: byte)
    requires |payload| <= MAX_PAYLOAD && v != cmdType
    ensures DecodeCandidate(Encode(cmdType, payload)[2 := v]).None?
  {
    var n := |payload|;
    var c := Encode(cmdType, payload)[2 := v];
    assert c[4..4 + n] == payload;
    assert c[4 + n] == Checksum(cmdType, payload);
    assert (v + n + Sum(payload)) % 256 != (cmdType + n + Sum(payload)) % 256;
  }

  lemma CorruptPayload(cmdType: byte, payload: seq<byte>, k: nat, v: byte)
    requires |payload| <= MAX_PAYLOAD && 4 <= k < 4 + |payload| && v != payload[k - 4]
    ensures DecodeCandidate(Encode(cmdType, payload)[k := v]).None?
  {
    var n := |payload|;
    var c := Encode(cmdType, payload)[k := v];
    assert c[4..4 + n] == payload[k - 4 := v];
    assert c[2] == cmdType && c[3] == n;
    assert c[4 + n] == Checksum(cmdType, payload);
    SumUpdate(payload, k - 4, v);
    assert -255 <= v - payload[k - 4] <= 255;
  }

  /** A wrong checksum byte alone is enough to reject a frame. */
  lemma CorruptChecksum(cmdType: byte, payload: seq<byte>, v: byte)
    requires |payload| <= MAX_PAYLOAD && v != Checksum(cmdType, payload)
    ensures DecodeCandidate(Encode(cmdType, payload)[4 + |payload| := v]).None?
  {
    var n := |payload|;
    var c := Encode(cmdType, payload)[4 + n := v];
    assert c[4..4 + n] == payload;
  }
}
