/** The fixed-offset decoders of the RETURN_CONFIG and RETURN_STATUS payloads
    in the newer revision (SerialService.parseConfig and parseStatus), with
    the device-side layouts they read, so that each decoder has an encoder to
    be checked against. Floats stay as their raw little-endian bytes. */
module Telemetry {
  import opened Bytes

  const CONFIG_MIN_LENGTH: nat := 33
  const STATUS_MIN_LENGTH: nat := 33
  /** from this length on, the dma statistic is an 8-byte double */
  const STATUS_DOUBLE_DMA_LENGTH: nat := 37

  /** The configuration snapshot; the serial number is the raw 12-byte field. */
  datatype DeviceConfig = DeviceConfig(
    serialNumber: seq<byte>,
    version: nat,
    arrayType: byte,
    arraySize: nat,
    transducerCount: nat,
    transducerSize: Float32,
    transducerSpace: Float32)

  /** The dma-update statistic as a revision exposes it. */
  datatype DmaStat =
    | AsFloat32(single: Float32)          // readFloatLE
    | AsFloat64(double: Float64)          // readDoubleLE, as read
    | AsFloat64Div1000(millis: Float64)   // readDoubleLE(...) / 1e3

  datatype DeviceStatus = DeviceStatus(
    vdda: Float32,
    v3v3: Float32,
    v5v0: Float32,
    temperature: Float32,
    dmaUpdateStats: DmaStat,
    loopFreq: Float32,
    stimulationType: byte,
    calibrationMode: nat,
    phaseSetMode: nat)

  /** readFloatLE(offset), kept as the four bytes read. */
  function F32At(data: seq<byte>, offset: nat): Float32
    requires offset + 4 <= |data|
  {
    data[offset..offset + 4]
  }

  /** readDoubleLE(offset), kept as the eight bytes read. */
  function F64At(data: seq<byte>, offset: nat): Float64
    requires offset + 8 <= |data|
  {
    data[offset..offset + 8]
  }

  predicate WellFormedConfig(c: DeviceConfig)
  {
    |c.serialNumber| == 12 && c.version < U32_LIMIT && c.arraySize < U32_LIMIT
    && c.transducerCount < U32_LIMIT
  }

  predicate WellFormedStatus(s: DeviceStatus)
  {
    s.calibrationMode < U32_LIMIT && s.phaseSetMode < U32_LIMIT
  }

  /** parseConfig: payloads under 33 bytes are ignored; otherwise the fields
      sit at offsets 0, 12, 16, 17, 21, 25 and 29. */
  function ParseConfig(data: seq<byte>): (r: Option<DeviceConfig>)
    ensures r.None? <==> |data| < CONFIG_MIN_LENGTH
    ensures r.Some? ==> WellFormedConfig(r.value)
  {
    if |data| < CONFIG_MIN_LENGTH then None
    else Some(DeviceConfig(
      data[0..12], U32At(data, 12), data[16], U32At(data, 17), U32At(data, 21),
      F32At(data, 25), F32At(data, 29)))
  }

  /** The 33-byte configuration record as the firmware lays it out. */
  function EncodeConfig(c: DeviceConfig): (bs: seq<byte>)
    requires WellFormedConfig(c)
    ensures |bs| == CONFIG_MIN_LENGTH
  {
    c.serialNumber + U32Bytes(c.version) + [c.arrayType] + U32Bytes(c.arraySize)
    + U32Bytes(c.transducerCount) + c.transducerSize + c.transducerSpace
  }

  /** Every well-formed configuration survives encoding and parsing. */
  lemma ConfigRoundTrip(c: DeviceConfig)
    requires WellFormedConfig(c)
    ensures ParseConfig(EncodeConfig(c)) == Some(c)
  {
    var bs := EncodeConfig(c);
    assert bs[0..12] == c.serialNumber;
    assert bs[12..16] == U32Bytes(c.version);
    assert bs[17..21] == U32Bytes(c.arraySize);
    assert bs[21..25] == U32Bytes(c.transducerCount);
    SliceByIndex(bs, 25, c.transducerSize);
    SliceByIndex(bs, 29, c.transducerSpace);
    U32RoundTrip(c.version);
    U32RoundTrip(c.arraySize);
    U32RoundTrip(c.transducerCount);
    assert U32Bytes(c.version)[0..4] == U32Bytes(c.version);
    assert U32Bytes(c.arraySize)[0..4] == U32Bytes(c.arraySize);
    assert U32Bytes(c.transducerCount)[0..4] == U32Bytes(c.transducerCount);
  }

  /** The decoder reads every one of the first 33 bytes and nothing after them. */
  lemma ConfigImage(data: seq<byte>)
    requires |data| >= CONFIG_MIN_LENGTH
    ensures EncodeConfig(ParseConfig(data).value) == data[..CONFIG_MIN_LENGTH]
  {
    U32Image(data, 12);
    U32Image(data, 17);
    U32Image(data, 21);
    assert data[..33] == data[0..12] + data[12..16] + [data[16]] + data[17..21] + data[21..25]
      + data[25..29] + data[29..33];
  }

  /** parseStatus: payloads under 33 bytes are ignored; from 37 bytes on the
      dma statistic is an 8-byte double divided by 1000 and every later field
      moves 4 bytes down. */
  function ParseStatus(data: seq<byte>): (r: Option<DeviceStatus>)
    ensures r.None? <==> |data| < STATUS_MIN_LENGTH
    ensures r.Some? ==> WellFormedStatus(r.value)
    ensures r.Some? ==>
      (r.value.dmaUpdateStats.AsFloat64Div1000? <==> |data| >= STATUS_DOUBLE_DMA_LENGTH)
      && (r.value.dmaUpdateStats.AsFloat32? <==> |data| < STATUS_DOUBLE_DMA_LENGTH)
  {
    if |data| < STATUS_MIN_LENGTH then None
    else
      var hasDoubleDmaField := |data| >= STATUS_DOUBLE_DMA_LENGTH;
      var dma := if hasDoubleDmaField then AsFloat64Div1000(F64At(data, 16)) else AsFloat32(F32At(data, 16));
      var o: nat := if hasDoubleDmaField then 24 else 20;
      Some(DeviceStatus(
        F32At(data, 0), F32At(data, 4), F32At(data, 8), F32At(data, 12), dma,
        F32At(data, o), data[o + 4], U32At(data, o + 5), U32At(data, o + 9)))
  }

  /** The status record as the firmware lays it out: 33 bytes with a float
      dma statistic, 37 bytes with a double one. */
  function EncodeStatus(s: DeviceStatus): (bs: seq<byte>)
    requires WellFormedStatus(s) && !s.dmaUpdateStats.AsFloat64?
    ensures |bs| == if s.dmaUpdateStats.AsFloat32? then STATUS_MIN_LENGTH else STATUS_DOUBLE_DMA_LENGTH
  {
    var dma := match s.dmaUpdateStats
      case AsFloat32(f) => f
      case AsFloat64Div1000(d) => d;
    s.vdda + s.v3v3 + s.v5v0 + s.temperature + dma + s.loopFreq + [s.stimulationType]
    + U32Bytes(s.calibrationMode) + U32Bytes(s.phaseSetMode)
  }

  /** Both status shapes survive encoding and parsing. */
  lemma StatusRoundTrip(s: DeviceStatus)
    requires WellFormedStatus(s) && !s.dmaUpdateStats.AsFloat64?
    ensures ParseStatus(EncodeStatus(s)) == Some(s)
  {
    var bs := EncodeStatus(s);
    var o: nat := if s.dmaUpdateStats.AsFloat32? then 20 else 24;
    assert bs[0..4] == s.vdda && bs[4..8] == s.v3v3 && bs[8..12] == s.v5v0 && bs[12..16] == s.temperature;
    match s.dmaUpdateStats {
      case AsFloat32(f) => assert bs[16..20] == f;
      case AsFloat64Div1000(d) => assert bs[16..24] == d;
    }
    assert bs[o..o + 4] == s.loopFreq && bs[o + 4] == s.stimulationType;
    SliceByIndex(bs, o + 5, U32Bytes(s.calibrationMode));
    SliceByIndex(bs, o + 9, U32Bytes(s.phaseSetMode));
    U32RoundTrip(s.calibrationMode);
    U32RoundTrip(s.phaseSetMode);
    assert U32Bytes(s.calibrationMode)[0..4] == U32Bytes(s.calibrationMode);
    assert U32Bytes(s.phaseSetMode)[0..4] == U32Bytes(s.phaseSetMode);
  }

  /** The decoder reads the first 33 (or 37) bytes whole and nothing after them. */
  lemma StatusImage(data: seq<byte>)
    requires |data| >= STATUS_MIN_LENGTH
    ensures var n := if |data| >= STATUS_DOUBLE_DMA_LENGTH then STATUS_DOUBLE_DMA_LENGTH else STATUS_MIN_LENGTH;
      EncodeStatus(ParseStatus(data).value) == data[..n]
  {
    var ext := |data| >= STATUS_DOUBLE_DMA_LENGTH;
    var o: nat := if ext then 24 else 20;
    var n := o + 13;
    U32Image(data, o + 5);
    U32Image(data, o + 9);
    assert data[..n] == data[0..4] + data[4..8] + data[8..12] + data[12..16] + data[16..o]
      + data[o..o + 4] + [data[o + 4]] + data[o + 5..o + 9] + data[o + 9..o + 13];
  }
}
