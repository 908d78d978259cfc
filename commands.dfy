/** The renderer's command helpers (deviceService.enableOutput, ping,
    getStatus, getConfig and setStimulation): each builds a type code and a
    payload, which the main process frames and writes to the port. */
module Commands {
  import opened Bytes
  import opened Codes
  import opened FrameCodec
  import opened StreamParser

  /** A command as the renderer hands it over: type code and payload bytes. */
  datatype Command = Command(cmdType: byte, payload: seq<byte>)

  /** type(1) + x, y, z, intensity, frequency (4 each) */
  const STIMULATION_LENGTH: nat := 21

  /** The arguments of setStimulation; each float is the four little-endian
      bytes setFloat32 writes for it. */
  datatype Stimulation = Stimulation(
    stimulationType: byte,
    x: Float32,
    y: Float32,
    z: Float32,
    intensity: Float32,
    frequency: Float32)

  /** enableOutput: one byte, 1 to enable and 0 to disable. */
  function EnableOutput(enable: bool): (c: Command)
    ensures c.cmdType == ENABLE_DISABLE && |c.payload| == 1
    ensures c.payload[0] == 1 <==> enable
    ensures c.payload[0] == 0 <==> !enable
  {
    Command(ENABLE_DISABLE, [if enable then 1 else 0])
  }

  /** Math.floor(random * 255) for a random number in [0, 1): the greatest
      integer not above random * 255, so never 255. */
  function PingByte(random: real): (b: byte)
    requires 0.0 <= random < 1.0
    ensures b <= 254
    ensures b as real <= random * 255.0 < b as real + 1.0
  {
    (random * 255.0).Floor
  }

  /** ping: one random echo byte. */
  function Ping(random: real): (c: Command)
    requires 0.0 <= random < 1.0
    ensures c.cmdType == PING && c.payload == [PingByte(random)]
    ensures c.payload[0] <= 254
  {
    Command(PING, [PingByte(random)])
  }

  function GetStatus(): (c: Command)
    ensures c.cmdType == GET_STATUS && c.payload == []
  {
    Command(GET_STATUS, [])
  }

  function GetConfig(): (c: Command)
    ensures c.cmdType == GET_CONFIG && c.payload == []
  {
    Command(GET_CONFIG, [])
  }

  /** The packed stimulation record: the type byte, then the five floats in
      argument order. */
  function StimulationPayload(s: Stimulation): (p: seq<byte>)
    ensures |p| == STIMULATION_LENGTH
  {
    [s.stimulationType] + s.x + s.y + s.z + s.intensity + s.frequency
  }

  /** The record read back at offsets 0, 1, 5, 9, 13 and 17, as the firmware
      reads it. */
  function StimulationAt(p: seq<byte>): (s: Option<Stimulation>)
    ensures s.Some? <==> |p| == STIMULATION_LENGTH
  {
    if |p| != STIMULATION_LENGTH then None
    else Some(Stimulation(p[0], p[1..5], p[5..9], p[9..13], p[13..17], p[17..21]))
  }

  /** DataView.setFloat32(offset, f, true): the four bytes of f at offset. */
  method SetFloat32(view: array<byte>, offset: nat, f: Float32)
    requires offset + 4 <= view.Length
    modifies view
    ensures forall k :: 0 <= k < 4 ==> view[offset + k] == f[k]
    ensures forall k :: 0 <= k < view.Length && !(offset <= k < offset + 4) ==> view[k] == old(view[k])
  {
    view[offset] := f[0];
    view[offset + 1] := f[1];
    view[offset + 2] := f[2];
    view[offset + 3] := f[3];
  }

  /** setStimulation's packing: a 21-byte buffer filled through a moving offset. */
  method PackStimulation(s: Stimulation) returns (payload: seq<byte>)
    ensures payload == StimulationPayload(s)
    ensures |payload| == STIMULATION_LENGTH && payload[0] == s.stimulationType
    ensures payload[1..5] == s.x && payload[5..9] == s.y && payload[9..13] == s.z
    ensures payload[13..17] == s.intensity && payload[17..21] == s.frequency
  {
    var buffer := new byte[1 + 12 + 4 + 4];
    var offset := 0;
    buffer[offset] := s.stimulationType; offset := offset + 1;
    SetFloat32(buffer, offset, s.x); offset := offset + 4;
    SetFloat32(buffer, offset, s.y); offset := offset + 4;
    SetFloat32(buffer, offset, s.z); offset := offset + 4;
    SetFloat32(buffer, offset, s.intensity); offset := offset + 4;
    SetFloat32(buffer, offset, s.frequency);
    payload := buffer[..];
    StimulationByIndex(payload, s);
  }

  /** setStimulation: SET_STIMULATION with the packed record. */
  method SetStimulation(s: Stimulation) returns (c: Command)
    ensures c == Command(SET_STIMULATION, StimulationPayload(s))
  {
    var payload := PackStimulation(s);
    c := Command(SET_STIMULATION, payload);
  }

  lemma StimulationByIndex(p: seq<byte>, s: Stimulation)
    requires |p| == STIMULATION_LENGTH && p[0] == s.stimulationType
    requires forall k :: 0 <= k < 4 ==> p[1 + k] == s.x[k]
    requires forall k :: 0 <= k < 4 ==> p[5 + k] == s.y[k]
    requires forall k :: 0 <= k < 4 ==> p[9 + k] == s.z[k]
    requires forall k :: 0 <= k < 4 ==> p[13 + k] == s.intensity[k]
    requires forall k :: 0 <= k < 4 ==> p[17 + k] == s.frequency[k]
    ensures p == StimulationPayload(s)
  {
    assert p[1..5] == s.x && p[5..9] == s.y && p[9..13] == s.z;
    assert p[13..17] == s.intensity && p[17..21] == s.frequency;
    assert p == [p[0]] + p[1..5] + p[5..9] + p[9..13] + p[13..17] + p[17..21];
  }

  // ---- properties of the builders ----

  /** Reading the packed record back gives every argument unchanged. */
  lemma StimulationRoundTrip(s: Stimulation)
    ensures StimulationAt(StimulationPayload(s)) == Some(s)
  {
    var p := StimulationPayload(s);
    SliceByIndex(p, 1, s.x);
    SliceByIndex(p, 5, s.y);
    SliceByIndex(p, 9, s.z);
    SliceByIndex(p, 13, s.intensity);
    SliceByIndex(p, 17, s.frequency);
  }

  /** Every 21-byte record is the packing of exactly one argument tuple. */
  lemma StimulationImage(p: seq<byte>)
    requires |p| == STIMULATION_LENGTH
    ensures StimulationPayload(StimulationAt(p).value) == p
  {
    assert p == [p[0]] + p[1..5] + p[5..9] + p[9..13] + p[13..17] + p[17..21];
  }

  /** Every echo byte from 0 to 254 can be drawn (255 never is, by PingByte). */
  lemma PingReachable(b: byte)
    requires b <= 254
    ensures PingByte(b as real / 255.0) == b
  {
    var r := b as real / 255.0;
    assert r * 255.0 == b as real;
  }

  /** Different switches give different payloads. */
  lemma EnableOutputInjective(a: bool, b: bool)
    ensures EnableOutput(a) == EnableOutput(b) <==> a == b
  {
    if a != b {
      assert EnableOutput(a).payload[0] != EnableOutput(b).payload[0];
    }
  }

  /** The frame the main process writes for each helper's command is read
      back whole, as that command, by a frame parser starting empty. */
  lemma CommandsOnTheWire(enable: bool, random: real, s: Stimulation)
    requires 0.0 <= random < 1.0
    ensures forall c :: c in [EnableOutput(enable), Ping(random), GetStatus(), GetConfig(),
                             Command(SET_STIMULATION, StimulationPayload(s))] ==>
      Scan(Encode(c.cmdType, c.payload)) == ([Frame(c.cmdType, c.payload)], [])
  {
    var cs := [EnableOutput(enable), Ping(random), GetStatus(), GetConfig(),
               Command(SET_STIMULATION, StimulationPayload(s))];
    forall c | c in cs
      ensures Scan(Encode(c.cmdType, c.payload)) == ([Frame(c.cmdType, c.payload)], [])
    {
      RoundTrip(c.cmdType, c.payload);
    }
  }
}
