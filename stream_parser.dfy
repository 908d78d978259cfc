/** The receive-side defragmenter of the newer revision (ProtocolParser.push,
    reset and findHeader): a retained byte buffer that each received chunk is
    appended to, and a loop that cuts validated frames off its front. */
module StreamParser {
  import opened Bytes
  import opened FrameCodec

  /** Above this many header-less bytes the buffer is abandoned. */
  const OVERFLOW_LIMIT: nat := 4096

  /** The first header in s at or after index i (the scan of findHeader). */
  function FirstHeaderFrom(s: seq<byte>, i: nat): (r: Option<nat>)
    decreases |s| - i
    ensures r.Some? ==> i <= r.value && HeaderAt(s, r.value)
  {
    if i + 1 >= |s| then None
    else if HeaderAt(s, i) then Some(i)
    else FirstHeaderFrom(s, i + 1)
  }

  function FirstHeader(s: seq<byte>): Option<nat>
  {
    FirstHeaderFrom(s, 0)
  }

  /** The scan finds the first header at or after i, and finds none exactly
      when there is none. */
  lemma {:induction false} FirstHeaderFromSpec(s: seq<byte>, i: nat)
    ensures var r := FirstHeaderFrom(s, i);
      && (r.Some? ==> forall j :: i <= j < r.value ==> !HeaderAt(s, j))
      && (r.None? <==> forall j :: i <= j ==> !HeaderAt(s, j))
    decreases |s| - i
  {
    if i + 1 < |s| && !HeaderAt(s, i) {
      FirstHeaderFromSpec(s, i + 1);
    }
  }

  /** A header with none before it is the first one. */
  lemma FirstHeaderIs(s: seq<byte>, h: nat)
    requires HeaderAt(s, h) && forall j :: 0 <= j < h ==> !HeaderAt(s, j)
    ensures FirstHeader(s) == Some(h)
  {
    FirstHeaderFromSpec(s, 0);
  }

  /** What one call of push does to the whole buffer (old contents followed by
      the new chunk): the frames it emits, in order, and the bytes it retains. */
  function Scan(buf: seq<byte>): (r: (seq<Frame>, seq<byte>))
    ensures |r.0| * FRAME_MIN_LENGTH + |r.1| <= |buf|
    decreases |buf|, 1
  {
    if |buf| < FRAME_MIN_LENGTH then ([], buf)
    else match FirstHeader(buf)
      case None => ([], if |buf| > OVERFLOW_LIMIT then [] else buf)
      case Some(h) => ScanCandidate(buf[h..])
  }

  /** The rest of the loop body once the leading garbage is dropped and the
      buffer starts at a header. */
  function ScanCandidate(b: seq<byte>): (r: (seq<Frame>, seq<byte>))
    ensures |r.0| * FRAME_MIN_LENGTH + |r.1| <= |b|
    decreases |b|, 0
  {
    if |b| < 4 then ([], b)
    else
      var dataLen := b[3];
      var frameLen := FrameLength(dataLen);
      if |b| < frameLen then ([], b)
      else
        var frame := b[..frameLen];
        if !IsTailValid(frame, dataLen) || !ChecksumOk(frame, dataLen) then Scan(b[1..])
        else
          var next := Scan(b[frameLen..]);
          ([Frame(frame[2], frame[4..4 + dataLen])] + next.0, next.1)
  }

  /** Pushing a sequence of chunks, one call each, from buffer contents buf. */
  function Feed(buf: seq<byte>, chunks: seq<seq<byte>>): (seq<Frame>, seq<byte>)
    decreases |chunks|
  {
    if chunks == [] then ([], buf)
    else
      var first := Scan(buf + chunks[0]);
      var later := Feed(first.1, chunks[1..]);
      (first.0 + later.0, later.1)
  }

  class ProtocolParser {
    var buffer: seq<byte>

    constructor ()
      ensures buffer == []
    {
      buffer := [];
    }

    method Reset()
      modifies this
      ensures buffer == []
    {
      buffer := [];
    }

    method FindHeader() returns (index: int)
      ensures index < 0 <==> FirstHeader(buffer).None?
      ensures index >= 0 ==> FirstHeader(buffer) == Some(index)
    {
      var i := 0;
      while i < |buffer| - 1
        invariant 0 <= i
        invariant |buffer| >= 1 ==> i <= |buffer| - 1
        invariant FirstHeader(buffer) == FirstHeaderFrom(buffer, i)
      {
        if buffer[i] == HEADER_1 && buffer[i + 1] == HEADER_2 {
          return i;
        }
        i := i + 1;
      }
      return -1;
    }

    method Push(chunk: seq<byte>) returns (frames: seq<Frame>)
      modifies this
      ensures (frames, buffer) == Scan(old(buffer) + chunk)
      ensures |buffer| <= OVERFLOW_LIMIT
    {
      ghost var whole := buffer + chunk;
      buffer := buffer + chunk;
      frames := [];
      assert frames + Scan(buffer).0 == Scan(buffer).0;
      while |buffer| >= FRAME_MIN_LENGTH
        invariant Scan(whole) == (frames + Scan(buffer).0, Scan(buffer).1)
        decreases |buffer|
      {
        ghost var current := buffer;
        var emitted, stop := Pass();
        PassScan(current);
        PassAppend(Scan(whole), frames, Scan(current), OnePass(current), Scan(OnePass(current).rest));
        frames := frames + emitted;
        if stop {
          ScanBound(whole);
          return;
        }
      }
      ScanShort(buffer, frames);
      ScanBound(whole);
    }

    /** One pass of push's loop body: the frame it emits, if any, and whether
        it leaves the loop (`break`) rather than going round again. */
    method Pass() returns (emitted: seq<Frame>, stop: bool)
      requires |buffer| >= FRAME_MIN_LENGTH
      modifies this
      ensures OnePass(old(buffer)) == Step(emitted, buffer, stop)
    {
      var headerIndex := FindHeader();
      if headerIndex < 0 {
        if |buffer| > OVERFLOW_LIMIT {
          buffer := [];
        }
        return [], true;
      }
      if headerIndex > 0 {
        buffer := buffer[headerIndex..];
      }
      if |buffer| < 4 {
        return [], true;
      }
      var dataLen: nat := buffer[3];
      var frameLen: nat := 2 + 1 + 1 + dataLen + 1 + 2;
      if |buffer| < frameLen {
        return [], true;
      }
      var frame := buffer[..frameLen];
      var checksumOk := IsChecksumValid(frame, dataLen);
      if !IsTailValid(frame, dataLen) || !checksumOk {
        buffer := buffer[1..];
        return [], false;
      }
      emitted := [Frame(frame[2], frame[4..4 + dataLen])];
      buffer := buffer[frameLen..];
      stop := false;
    }
  }

  /** What one pass of the loop body leaves: the frames it emitted, the
      buffer, and whether the loop ends. */
  datatype Step = Step(emitted: seq<Frame>, rest: seq<byte>, stop: bool)

  /** One pass of push's loop body over a buffer of at least 7 bytes. */
  function OnePass(buf: seq<byte>): (p: Step)
    requires |buf| >= FRAME_MIN_LENGTH
    ensures !p.stop ==> |p.rest| < |buf|
  {
    match FirstHeader(buf)
    case None => Step([], if |buf| > OVERFLOW_LIMIT then [] else buf, true)
    case Some(h) =>
      var b := buf[h..];
      if |b| < 4 || |b| < FrameLength(b[3]) then Step([], b, true)
      else
        var frame := b[..FrameLength(b[3])];
        if !IsTailValid(frame, b[3]) || !ChecksumOk(frame, b[3]) then Step([], b[1..], false)
        else Step([Frame(frame[2], frame[4..4 + b[3]])], b[FrameLength(b[3])..], false)
  }

  /** Scan is the loop of passes: a pass that ends the loop leaves the final
      state, any other pass is followed by the scan of what it leaves. */
  lemma PassScan(buf: seq<byte>)
    requires |buf| >= FRAME_MIN_LENGTH
    ensures var p := OnePass(buf);
      Scan(buf) == if p.stop then (p.emitted, p.rest) else (p.emitted + Scan(p.rest).0, Scan(p.rest).1)
  {
    var p := OnePass(buf);
    if FirstHeader(buf).Some? {
      var h := FirstHeader(buf).value;
      var b := buf[h..];
      assert Scan(buf) == ScanCandidate(b);
      if 4 <= |b| && FrameLength(b[3]) <= |b| {
        var frame := b[..FrameLength(b[3])];
        if IsTailValid(frame, b[3]) && ChecksumOk(frame, b[3]) {
          assert p.emitted == [Frame(frame[2], frame[4..4 + b[3]])];
        } else {
          assert p.emitted + Scan(p.rest).0 == Scan(p.rest).0;
        }
      }
    }
  }

  /** Chaining one pass onto the frames emitted before it: `total` is what
      the whole scan emits, `here` what the scan from this pass on does, and
      `later` what the scan after it does. A proof step only; it models
      nothing in the program. */
  lemma PassAppend(total: (seq<Frame>, seq<byte>), frames: seq<Frame>, here: (seq<Frame>, seq<byte>),
                   p: Step, later: (seq<Frame>, seq<byte>))
    requires total == (frames + here.0, here.1)
    requires here == if p.stop then (p.emitted, p.rest) else (p.emitted + later.0, later.1)
    ensures p.stop ==> total == (frames + p.emitted, p.rest)
    ensures !p.stop ==> total == ((frames + p.emitted) + later.0, later.1)
  {
    if !p.stop {
      assert frames + (p.emitted + later.0) == (frames + p.emitted) + later.0;
    }
  }

  /** An accepted candidate: its frame comes first, then the scan of what
      follows it. */
  lemma ScanAccept(b: seq<byte>)
    requires 4 <= |b| && FrameLength(b[3]) <= |b|
    requires IsTailValid(b[..FrameLength(b[3])], b[3]) && ChecksumOk(b[..FrameLength(b[3])], b[3])
    ensures var frameLen := FrameLength(b[3]);
      var frame := b[..frameLen];
      ScanCandidate(b) == ([Frame(frame[2], frame[4..4 + b[3]])] + Scan(b[frameLen..]).0, Scan(b[frameLen..]).1)
  {
  }

  /** Too short a buffer leaves push's loop with nothing more emitted. */
  lemma ScanShort(buf: seq<byte>, frames: seq<Frame>)
    requires |buf| < FRAME_MIN_LENGTH
    ensures (frames + Scan(buf).0, Scan(buf).1) == (frames, buf)
  {
    assert frames + [] == frames;
  }

  // ---- what push promises ----

  /** The retained buffer never exceeds the overflow limit, and it is always a
      suffix of what was scanned (possibly empty). */
  lemma {:induction false} ScanBound(buf: seq<byte>)
    ensures |Scan(buf).1| <= |buf| && |Scan(buf).1| <= OVERFLOW_LIMIT
    ensures Scan(buf).1 == buf[|buf| - |Scan(buf).1|..]
    decreases |buf|, 1
  {
    if |buf| >= FRAME_MIN_LENGTH && FirstHeader(buf).Some? {
      var h := FirstHeader(buf).value;
      var kept := Scan(buf).1;
      assert kept == ScanCandidate(buf[h..]).1;
      CandidateBound(buf[h..]);
      DropDrop(buf, h, |buf| - h - |kept|);
    }
  }

  lemma {:induction false} CandidateBound(b: seq<byte>)
    ensures |ScanCandidate(b).1| <= |b|
    ensures |ScanCandidate(b).1| <= OVERFLOW_LIMIT
    ensures ScanCandidate(b).1 == b[|b| - |ScanCandidate(b).1|..]
    decreases |b|, 0
  {
    if |b| >= 4 && |b| >= FrameLength(b[3]) {
      var frameLen := FrameLength(b[3]);
      var frame := b[..frameLen];
      var kept := ScanCandidate(b).1;
      if !IsTailValid(frame, b[3]) || !ChecksumOk(frame, b[3]) {
        assert kept == Scan(b[1..]).1;
        ScanBound(b[1..]);
        DropDrop(b, 1, |b| - 1 - |kept|);
      } else {
        assert kept == Scan(b[frameLen..]).1;
        ScanBound(b[frameLen..]);
        DropDrop(b, frameLen, |b| - frameLen - |kept|);
      }
    }
  }

  /** Buffers shorter than a minimal frame, and buffers that start with a header
      but hold less than the declared frame, are retained unchanged. */
  lemma WaitsForMore(buf: seq<byte>)
    requires |buf| < FRAME_MIN_LENGTH || (HeaderAt(buf, 0) && 4 <= |buf| < FrameLength(buf[3]))
    ensures Scan(buf) == ([], buf)
  {
    if |buf| >= FRAME_MIN_LENGTH {
      assert FirstHeader(buf) == Some(0);
      assert buf[0..] == buf;
    }
  }

  /** With no header present, the buffer is cleared exactly when it holds more
      than 4096 bytes. */
  lemma NoHeaderOverflow(buf: seq<byte>)
    requires |buf| >= FRAME_MIN_LENGTH
    requires forall j :: !HeaderAt(buf, j)
    ensures Scan(buf).0 == []
    ensures Scan(buf).1 == [] <==> |buf| > OVERFLOW_LIMIT
    ensures |buf| <= OVERFLOW_LIMIT ==> Scan(buf).1 == buf
  {
    assert FirstHeader(buf).None?;
  }

  /** Bytes before the first header are discarded: scanning proceeds exactly
      as if the buffer began at the header. */
  lemma SkipGarbage(buf: seq<byte>, h: nat)
    requires |buf| >= FRAME_MIN_LENGTH && FirstHeader(buf) == Some(h)
    ensures Scan(buf) == Scan(buf[h..])
  {
    var b := buf[h..];
    assert HeaderAt(b, 0);
    assert Scan(buf) == ScanCandidate(b);
    if |b| >= FRAME_MIN_LENGTH {
      assert FirstHeader(b) == Some(0);
      assert b[0..] == b;
    } else if |b| >= 4 {
      assert |b| < FrameLength(b[3]);
    }
  }

  /** A complete candidate that fails its tail or checksum check loses exactly
      one byte: scanning resumes at the byte after its first header byte. */
  lemma DropOneByte(buf: seq<byte>)
    requires HeaderAt(buf, 0) && 4 <= |buf| && FrameLength(buf[3]) <= |buf|
    requires DecodeCandidate(buf[..FrameLength(buf[3])]).None?
    ensures Scan(buf) == Scan(buf[1..])
  {
    assert FirstHeader(buf) == Some(0);
    assert buf[0..] == buf;
  }

  /** A valid frame at the front of the buffer is emitted and exactly its bytes consumed. */
  lemma FrameThen(f: Frame, rest: seq<byte>)
    requires |f.data| <= MAX_PAYLOAD
    ensures Scan(EncodeFrame(f) + rest) == ([f] + Scan(rest).0, Scan(rest).1)
  {
    var e := EncodeFrame(f);
    var buf := e + rest;
    DecodeEncode(f.cmdType, f.data);
    assert HeaderAt(buf, 0);
    assert FirstHeader(buf) == Some(0);
    assert buf[0..] == buf;
    assert buf[..|e|] == e;
    assert buf[|e|..] == rest;
  }

  /** Round trip: one encoded frame pushed into an empty parser comes out as
      that frame, and nothing is retained. */
  lemma RoundTrip(cmdType: byte, payload: seq<byte>)
    requires |payload| <= MAX_PAYLOAD
    ensures Scan(Encode(cmdType, payload)) == ([Frame(cmdType, payload)], [])
  {
    FrameThen(Frame(cmdType, payload), []);
    assert Encode(cmdType, payload) + [] == Encode(cmdType, payload);
    assert Scan([]) == ([], []);
    assert [Frame(cmdType, payload)] + [] == [Frame(cmdType, payload)];
  }

  function EncodeAll(frames: seq<Frame>): seq<byte>
    requires forall k :: 0 <= k < |frames| ==> |frames[k].data| <= MAX_PAYLOAD
  {
    if frames == [] then [] else EncodeFrame(frames[0]) + EncodeAll(frames[1..])
  }

  /** A stream of back-to-back valid frames is recovered whole and in order. */
  lemma {:induction false} FramesRoundTrip(frames: seq<Frame>)
    requires forall k :: 0 <= k < |frames| ==> |frames[k].data| <= MAX_PAYLOAD
    ensures Scan(EncodeAll(frames)) == (frames, [])
  {
    if frames != [] {
      FramesRoundTrip(frames[1..]);
      FrameThen(frames[0], EncodeAll(frames[1..]));
      assert [frames[0]] + frames[1..] == frames;
    }
  }

  /** Noise recovery: header-free noise in front of a valid frame is dropped
      and the frame is still emitted. */
  lemma NoiseThenFrame(noise: seq<byte>, f: Frame, rest: seq<byte>)
    requires |f.data| <= MAX_PAYLOAD
    requires forall j :: !HeaderAt(noise, j)
    ensures Scan(noise + EncodeFrame(f) + rest) == ([f] + Scan(rest).0, Scan(rest).1)
  {
    var e := EncodeFrame(f);
    var buf := noise + e + rest;
    DecodeEncode(f.cmdType, f.data);
    assert HeaderAt(buf, |noise|);
    forall j | 0 <= j < |noise|
      ensures !HeaderAt(buf, j)
    {
      if j + 1 < |noise| {
        assert !HeaderAt(noise, j);
      }
    }
    FirstHeaderIs(buf, |noise|);
    SkipGarbage(buf, |noise|);
    assert buf[|noise|..] == e + rest;
    FrameThen(f, rest);
  }

  /** Two 0xFF noise bytes before a valid frame are skipped and the frame is read. */
  lemma NoiseExample(cmdType: byte, payload: seq<byte>)
    requires |payload| <= MAX_PAYLOAD
    ensures Scan([0xFF, 0xFF] + Encode(cmdType, payload)) == ([Frame(cmdType, payload)], [])
  {
    var noise: seq<byte> := [0xFF, 0xFF];
    assert forall j :: !HeaderAt(noise, j);
    NoiseThenFrame(noise, Frame(cmdType, payload), []);
    assert noise + Encode(cmdType, payload) + [] == noise + Encode(cmdType, payload);
    assert Scan([]) == ([], []);
    assert [Frame(cmdType, payload)] + [] == [Frame(cmdType, payload)];
  }

  /** A spurious header whose 7-byte candidate fails its checks costs one byte,
      and the genuine frame right behind it is still emitted. */
  lemma FalseHeaderRecovered()
    ensures Scan([0xAA, 0x55, 0x01, 0x00] + Encode(0x80, [])) == ([Frame(0x80, [])], [])
  {
    var f := Frame(0x80, []);
    var e := EncodeFrame(f);
    var spurious: seq<byte> := [0xAA, 0x55, 0x01, 0x00];
    var buf := spurious + e;
    DecodeEncode(0x80, []);
    assert |e| == 7 && e[0] == 0xAA && e[1] == 0x55;
    assert HeaderAt(buf, 0) && buf[3] == 0;
    var candidate := buf[..FrameLength(0)];
    assert candidate[5] == 0x55;
    assert !IsTailValid(candidate, 0);
    DropOneByte(buf);
    var noise := spurious[1..];
    assert forall j :: !HeaderAt(noise, j);
    assert buf[1..] == noise + e + [];
    NoiseThenFrame(noise, f, []);
    assert Scan([]) == ([], []);
    assert [f] + [] == [f];
  }

  /** Overflow recovery: after more than 4096 header-free bytes the buffer is
      cleared, and a valid frame pushed next is emitted. */
  lemma OverflowThenFrame(noise: seq<byte>, cmdType: byte, payload: seq<byte>)
    requires |noise| > OVERFLOW_LIMIT && forall j :: !HeaderAt(noise, j)
    requires |payload| <= MAX_PAYLOAD
    ensures Feed([], [noise, Encode(cmdType, payload)]) == ([Frame(cmdType, payload)], [])
  {
    var e := Encode(cmdType, payload);
    var chunks := [noise, e];
    assert [] + noise == noise;
    NoHeaderOverflow(noise);
    assert Scan(noise) == ([], []);
    RoundTrip(cmdType, payload);
    assert [] + e == e;
    assert chunks[1..] == [e];
    assert Feed([], [e]) == ([Frame(cmdType, payload)], []) by {
      assert Feed([], []) == ([], []);
      assert [Frame(cmdType, payload)] + [] == [Frame(cmdType, payload)];
    }
    var first := Scan([] + chunks[0]);
    assert first == ([], []);
    var later := Feed(first.1, chunks[1..]);
    assert later == ([Frame(cmdType, payload)], []);
    assert Feed([], chunks) == (first.0 + later.0, later.1);
    assert first.0 + later.0 == [Frame(cmdType, payload)];
  }

  // ---- chunk-boundary behaviour ----

  /** A proper prefix of an encoded frame is retained whole and emits nothing. */
  lemma PrefixRetained(cmdType: byte, payload: seq<byte>, pre: seq<byte>)
    requires |payload| <= MAX_PAYLOAD
    requires |pre| < |Encode(cmdType, payload)| && pre == Encode(cmdType, payload)[..|pre|]
    ensures Scan(pre) == ([], pre)
  {
    if |pre| >= FRAME_MIN_LENGTH {
      DecodeEncode(cmdType, payload);
      assert HeaderAt(pre, 0) && pre[3] == |payload|;
      WaitsForMore(pre);
    }
  }

  lemma {:induction false} FeedPrefix(cmdType: byte, payload: seq<byte>, buf: seq<byte>, chunks: seq<seq<byte>>)
    requires |payload| <= MAX_PAYLOAD
    requires var s := buf + Concat(chunks);
      |s| < |Encode(cmdType, payload)| && s == Encode(cmdType, payload)[..|s|]
    ensures Feed(buf, chunks) == ([], buf + Concat(chunks))
    decreases |chunks|
  {
    if chunks != [] {
      var e := Encode(cmdType, payload);
      var s := buf + Concat(chunks);
      var next := buf + chunks[0];
      assert s == next + Concat(chunks[1..]);
      assert next == e[..|next|];
      PrefixRetained(cmdType, payload, next);
      FeedQuiet(buf, chunks);
      FeedPrefix(cmdType, payload, next, chunks[1..]);
    } else {
      assert buf + Concat(chunks) == buf;
    }
  }

  /** A push that emits nothing and keeps everything hands its buffer on to
      the next one. */
  lemma FeedQuiet(buf: seq<byte>, chunks: seq<seq<byte>>)
    requires chunks != [] && Scan(buf + chunks[0]) == ([], buf + chunks[0])
    ensures Feed(buf, chunks) == Feed(buf + chunks[0], chunks[1..])
  {
    var later := Feed(buf + chunks[0], chunks[1..]);
    assert [] + later.0 == later.0;
  }

  lemma {:induction false} FeedWhole(cmdType: byte, payload: seq<byte>, buf: seq<byte>, chunks: seq<seq<byte>>)
    requires |payload| <= MAX_PAYLOAD
    requires forall k :: 0 <= k < |chunks| ==> chunks[k] != []
    requires buf + Concat(chunks) == Encode(cmdType, payload)
    requires |buf| < |Encode(cmdType, payload)|
    ensures Feed(buf, chunks) == ([Frame(cmdType, payload)], [])
    decreases |chunks|
  {
    var e := Encode(cmdType, payload);
    assert chunks != [];
    var next := buf + chunks[0];
    assert e == next + Concat(chunks[1..]);
    if |next| < |e| {
      assert next == e[..|next|];
      PrefixRetained(cmdType, payload, next);
      FeedQuiet(buf, chunks);
      FeedWhole(cmdType, payload, next, chunks[1..]);
    } else {
      ConcatLength(chunks[1..]);
      assert chunks[1..] == [];
      assert next == e;
      RoundTrip(cmdType, payload);
      assert Feed([], chunks[1..]) == ([], []);
      assert Feed(buf, chunks) == (Scan(e).0 + [], []);
    }
  }

  /** Chunk-boundary invariance: splitting one encoded frame into non-empty
      pieces and pushing them one at a time into an empty parser yields nothing
      (and retains everything so far) before the last piece, then exactly that
      frame with nothing retained. */
  lemma ChunkedFrame(cmdType: byte, payload: seq<byte>, chunks: seq<seq<byte>>)
    requires |payload| <= MAX_PAYLOAD
    requires forall k :: 0 <= k < |chunks| ==> chunks[k] != []
    requires Concat(chunks) == Encode(cmdType, payload)
    ensures Feed([], chunks) == ([Frame(cmdType, payload)], [])
    ensures forall j :: 0 <= j < |chunks| ==> Feed([], chunks[..j]) == ([], Concat(chunks[..j]))
  {
    assert [] + Concat(chunks) == Concat(chunks);
    FeedWhole(cmdType, payload, [], chunks);
    forall j | 0 <= j < |chunks|
      ensures Feed([], chunks[..j]) == ([], Concat(chunks[..j]))
    {
      ConcatSplit(chunks, j);
      ConcatLength(chunks[j..]);
      var e := Encode(cmdType, payload);
      assert e == Concat(chunks[..j]) + Concat(chunks[j..]);
      assert Concat(chunks[..j]) == e[..|Concat(chunks[..j])|];
      assert [] + Concat(chunks[..j]) == Concat(chunks[..j]);
      FeedPrefix(cmdType, payload, [], chunks[..j]);
    }
  }

  // ---- every emitted frame was in the input, valid, in order ----

  /** The bytes `e` occur in `s` starting at index i. */
  predicate OccursAt(e: seq<byte>, s: seq<byte>, i: int)
  {
    0 <= i && i + |e| <= |s| && s[i..i + |e|] == e
  }

  /** Each frame, re-encoded, occurs in `s`, each one after the previous one. */
  ghost predicate Embedded(frames: seq<Frame>, s: seq<byte>)
    decreases |frames|
  {
    frames == [] ||
    (|frames[0].data| <= MAX_PAYLOAD &&
     exists i :: OccursAt(EncodeFrame(frames[0]), s, i) &&
       Embedded(frames[1..], s[i + |EncodeFrame(frames[0])|..]))
  }

  lemma {:induction false} EmbeddedSuffix(frames: seq<Frame>, s: seq<byte>, k: nat)
    requires k <= |s| && Embedded(frames, s[k..])
    ensures Embedded(frames, s)
  {
    if frames != [] {
      var e := EncodeFrame(frames[0]);
      var i := EmbeddedFirst(frames, s[k..]);
      OccursShift(e, s, k, i);
      DropDrop(s, k, i + |e|);
      EmbeddedHead(frames, s, k + i);
    }
  }

  /** Where the first of some embedded frames occurs. */
  lemma EmbeddedFirst(frames: seq<Frame>, s: seq<byte>) returns (i: int)
    requires frames != [] && Embedded(frames, s)
    ensures OccursAt(EncodeFrame(frames[0]), s, i)
    ensures Embedded(frames[1..], s[i + |EncodeFrame(frames[0])|..])
  {
    i :| OccursAt(EncodeFrame(frames[0]), s, i) && Embedded(frames[1..], s[i + |EncodeFrame(frames[0])|..]);
  }

  /** An occurrence in a suffix is an occurrence in the whole. */
  lemma OccursShift(e: seq<byte>, s: seq<byte>, k: nat, i: int)
    requires k <= |s| && OccursAt(e, s[k..], i)
    ensures OccursAt(e, s, k + i)
  {
    SliceSlice(s, k, i, i + |e|);
  }

  /** The first frame occurring at j, with the rest embedded after it. */
  lemma EmbeddedHead(frames: seq<Frame>, s: seq<byte>, j: nat)
    requires frames != [] && |frames[0].data| <= MAX_PAYLOAD
    requires OccursAt(EncodeFrame(frames[0]), s, j)
    requires Embedded(frames[1..], s[j + |EncodeFrame(frames[0])|..])
    ensures Embedded(frames, s)
  {
  }

  /** Every frame push emits is a well-formed frame whose bytes occurred in the
      scanned buffer, and the frames occur there in the order they are emitted. */
  lemma {:induction false} ScanEmbedded(buf: seq<byte>)
    ensures Embedded(Scan(buf).0, buf)
    decreases |buf|
  {
    if |buf| >= FRAME_MIN_LENGTH && FirstHeader(buf).Some? {
      var h := FirstHeader(buf).value;
      var b := buf[h..];
      if |b| >= 4 && |b| >= FrameLength(b[3]) {
        var dataLen := b[3];
        var frameLen := FrameLength(dataLen);
        var frame := b[..frameLen];
        if !IsTailValid(frame, dataLen) || !ChecksumOk(frame, dataLen) {
          ScanEmbedded(b[1..]);
          assert Scan(buf) == ScanCandidate(b) == Scan(b[1..]);
          assert b[1..] == buf[h + 1..];
          EmbeddedSuffix(Scan(buf).0, buf, h + 1);
        } else {
          ScanEmbedded(b[frameLen..]);
          EmbeddedAccept(b);
          assert Scan(buf) == ScanCandidate(b);
          EmbeddedSuffix(Scan(buf).0, buf, h);
        }
      }
    }
  }

  /** The accepting exit of ScanEmbedded: a valid candidate is the first
      frame emitted and occupies the front of the candidate. */
  lemma EmbeddedAccept(b: seq<byte>)
    requires HeaderAt(b, 0) && 4 <= |b| && FrameLength(b[3]) <= |b|
    requires IsTailValid(b[..FrameLength(b[3])], b[3]) && ChecksumOk(b[..FrameLength(b[3])], b[3])
    requires Embedded(Scan(b[FrameLength(b[3])..]).0, b[FrameLength(b[3])..])
    ensures Embedded(ScanCandidate(b).0, b)
  {
    var frameLen := FrameLength(b[3]);
    var frame := b[..frameLen];
    var f := Frame(frame[2], frame[4..4 + b[3]]);
    ScanAccept(b);
    AcceptedOccurs(b);
    EmbeddedCons(f, Scan(b[frameLen..]).0, b, 0);
  }

  /** A frame occurring at i followed by frames embedded after it. */
  lemma EmbeddedCons(f: Frame, rest: seq<Frame>, s: seq<byte>, i: nat)
    requires |f.data| <= MAX_PAYLOAD && OccursAt(EncodeFrame(f), s, i)
    requires Embedded(rest, s[i + |EncodeFrame(f)|..])
    ensures Embedded([f] + rest, s)
  {
    assert ([f] + rest)[0] == f && ([f] + rest)[1..] == rest;
  }

  /** A valid candidate re-encodes to its own first bytes. */
  lemma AcceptedOccurs(b: seq<byte>)
    requires HeaderAt(b, 0) && 4 <= |b| && FrameLength(b[3]) <= |b|
    requires IsTailValid(b[..FrameLength(b[3])], b[3]) && ChecksumOk(b[..FrameLength(b[3])], b[3])
    ensures var frame := b[..FrameLength(b[3])];
      var f := Frame(frame[2], frame[4..4 + b[3]]);
      && |f.data| <= MAX_PAYLOAD && |EncodeFrame(f)| == FrameLength(b[3])
      && OccursAt(EncodeFrame(f), b, 0)
  {
    var dataLen := b[3];
    var frameLen := FrameLength(dataLen);
    var frame := b[..frameLen];
    assert HeaderAt(frame, 0);
    var f := Frame(frame[2], frame[4..4 + dataLen]);
    assert DecodeCandidate(frame) == Some(f);
    EncodeDecode(frame);
    assert frame[..frameLen] == frame;
    assert b[0..frameLen] == frame;
  }
}
