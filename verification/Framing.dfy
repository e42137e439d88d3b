/** The bounded frame codec: one frame's bytes, and the decoder that finds frames in arbitrarily fragmented input.
    The checksum is an arbitrary function. */
module Framing {
  import opened Common
  import opened ByteOrder

  const HEADER: nat := 20
  const MAGIC: seq<Byte> := [0x46, 0x58, 0x46, 0x31]
  const VERSION: Byte := 1

  datatype Limits = Limits(maxPayload: nat, maxBuffered: nat)

  datatype Frame = Frame(flags: Byte, payload: seq<Byte>)

  // ---------------------------------------------------------------- encoding

  function Prefix(flags: Byte, length: nat): (bytes: seq<Byte>)
    ensures |bytes| == 12
  {
    MAGIC + [VERSION, flags] + LittleEndian(0, 2) + LittleEndian(length, 4)
  }

  function Encoding(crc: Checksum, frame: Frame): (bytes: seq<Byte>)
    ensures |bytes| == HEADER + |frame.payload|
  {
    var prefix := Prefix(frame.flags, |frame.payload|);
    prefix + LittleEndian(crc(prefix), 4) + LittleEndian(crc(frame.payload), 4) + frame.payload
  }

  /** Builds a frame field by field; refused when the payload is too long. */
  method EncodeFrame(crc: Checksum, payload: seq<Byte>, flags: Byte, limits: Limits) returns (r: Result<seq<Byte>>)
    ensures r == if |payload| > limits.maxPayload then Err(BoundsExceeded) else Ok(Encoding(crc, Frame(flags, payload)))
  {
    if |payload| > limits.maxPayload { return Err(BoundsExceeded); }
    var out := MAGIC;
    out := out + [VERSION];
    out := out + [flags];
    out := out + LittleEndian(0, 2);
    out := out + LittleEndian(|payload|, 4);
    assert out == Prefix(flags, |payload|);
    out := out + LittleEndian(crc(out), 4);
    out := out + LittleEndian(crc(payload), 4);
    if |out| != HEADER { return Err(Internal); }
    out := out + payload;
    return Ok(out);
  }

  function EncodeAll(crc: Checksum, frames: seq<Frame>): seq<Byte> {
    if frames == [] then [] else Encoding(crc, frames[0]) + EncodeAll(crc, frames[1..])
  }

  // ---------------------------------------------------------------- the frame at the front of some bytes

  datatype Front = NeedMore | Complete(frame: Frame, size: nat) | Bad(code: ErrorCode)

  function FrontOf(crc: Checksum, limits: Limits, bytes: seq<Byte>): (r: Front)
    ensures r.Complete? ==> HEADER <= r.size <= |bytes|
  {
    if |bytes| < HEADER then NeedMore
    else if bytes[..4] != MAGIC then Bad(ProtocolViolation)
    else if bytes[4] != VERSION then Bad(ProtocolViolation)
    else if crc(bytes[..12]) != Number(bytes[12..16]) then Bad(ProtocolViolation)
    else
      var length := Number(bytes[8..12]);
      if length > limits.maxPayload then Bad(BoundsExceeded)
      else if |bytes| < HEADER + length then NeedMore
      else
        var payload := bytes[HEADER..HEADER + length];
        if crc(payload) != Number(bytes[16..20]) then Bad(IntegrityFailure)
        else Complete(Frame(bytes[5], payload), HEADER + length)
  }

  /** The whole frames in some bytes, what is left after them, and why the rest is refused, if it is. */
  datatype Scanned = Scanned(frames: seq<Frame>, rest: seq<Byte>, error: Option<ErrorCode>)

  function Prepend(frames: seq<Frame>, s: Scanned): Scanned { s.(frames := frames + s.frames) }

  function Scan(crc: Checksum, limits: Limits, bytes: seq<Byte>): Scanned
    decreases |bytes|
  {
    var front := FrontOf(crc, limits, bytes);
    match front
    case NeedMore => Scanned([], bytes, None)
    case Bad(code) => Scanned([], bytes, Some(code))
    case Complete(frame, size) => Prepend([frame], Scan(crc, limits, bytes[size..]))
  }

  // ---------------------------------------------------------------- where the bytes are cut does not matter

  lemma PrefixSlice(a: seq<Byte>, b: seq<Byte>, from: nat, end: nat)
    requires from <= end <= |a|
    ensures (a + b)[from..end] == a[from..end]
  {
  }

  /** Once the front of the bytes is decided, more bytes do not change it. */
  lemma FrontStands(crc: Checksum, limits: Limits, a: seq<Byte>, b: seq<Byte>)
    requires !FrontOf(crc, limits, a).NeedMore?
    ensures FrontOf(crc, limits, a + b) == FrontOf(crc, limits, a)
  {
    PrefixSlice(a, b, 0, 4);
    PrefixSlice(a, b, 0, 12);
    PrefixSlice(a, b, 8, 12);
    PrefixSlice(a, b, 12, 16);
    PrefixSlice(a, b, 16, 20);
    var length := Number(a[8..12]);
    if HEADER + length <= |a| { PrefixSlice(a, b, HEADER, HEADER + length); }
  }

  /** Scanning bytes that arrive in two parts is scanning the first, then what it left followed by the second. */
  lemma {:induction false} ScanInTwo(crc: Checksum, limits: Limits, a: seq<Byte>, b: seq<Byte>)
    requires Scan(crc, limits, a).error.None?
    ensures var first := Scan(crc, limits, a);
            Scan(crc, limits, a + b) == Prepend(first.frames, Scan(crc, limits, first.rest + b))
    decreases |a|
  {
    var front := FrontOf(crc, limits, a);
    if front.Complete? {
      FrontStands(crc, limits, a, b);
      assert (a + b)[front.size..] == a[front.size..] + b;
      ScanInTwo(crc, limits, a[front.size..], b);
      PrependTwice([front.frame], Scan(crc, limits, a[front.size..]).frames,
                   Scan(crc, limits, Scan(crc, limits, a[front.size..]).rest + b));
    } else {
      PrependNone(Scan(crc, limits, a + b));
    }
  }

  lemma PrependTwice(x: seq<Frame>, y: seq<Frame>, s: Scanned)
    ensures Prepend(x, Prepend(y, s)) == Prepend(x + y, s)
  {
    assert x + (y + s.frames) == (x + y) + s.frames;
  }

  lemma PrependNone(s: Scanned)
    ensures Prepend([], s) == s
  {
    assert [] + s.frames == s.frames;
  }

  /** A rejected front stays rejected whatever follows. */
  lemma {:induction false} ErrorStands(crc: Checksum, limits: Limits, a: seq<Byte>, b: seq<Byte>)
    requires Scan(crc, limits, a).error.Some?
    ensures Scan(crc, limits, a + b).error == Scan(crc, limits, a).error
    ensures Scan(crc, limits, a + b).frames == Scan(crc, limits, a).frames
    decreases |a|
  {
    var front := FrontOf(crc, limits, a);
    FrontStands(crc, limits, a, b);
    if front.Complete? {
      assert (a + b)[front.size..] == a[front.size..] + b;
      ErrorStands(crc, limits, a[front.size..], b);
    }
  }

  /** What waits in the buffer is less than one frame. */
  lemma {:induction false} RestIsShort(crc: Checksum, limits: Limits, bytes: seq<Byte>)
    requires Scan(crc, limits, bytes).error.None?
    ensures |Scan(crc, limits, bytes).rest| < HEADER + limits.maxPayload || |Scan(crc, limits, bytes).rest| < HEADER
    decreases |bytes|
  {
    var front := FrontOf(crc, limits, bytes);
    if front.Complete? { RestIsShort(crc, limits, bytes[front.size..]); }
  }

  // ---------------------------------------------------------------- decoding what was encoded

  predicate Fits(limits: Limits, frame: Frame) { |frame.payload| <= limits.maxPayload }

  lemma FrontOfEncoding(crc: Checksum, limits: Limits, frame: Frame, more: seq<Byte>)
    requires Fits(limits, frame) && limits.maxPayload <= MAX_U32
    ensures FrontOf(crc, limits, Encoding(crc, frame) + more) == Complete(frame, HEADER + |frame.payload|)
  {
    var prefix := Prefix(frame.flags, |frame.payload|);
    var bytes := Encoding(crc, frame) + more;
    assert bytes[..12] == prefix;
    assert prefix[..4] == MAGIC && prefix[4] == VERSION && prefix[5] == frame.flags;
    assert prefix[8..12] == LittleEndian(|frame.payload|, 4);
    assert bytes[..4] == prefix[..4] && bytes[8..12] == prefix[8..12];
    assert bytes[12..16] == LittleEndian(crc(prefix), 4);
    assert bytes[16..20] == LittleEndian(crc(frame.payload), 4);
    assert bytes[HEADER..HEADER + |frame.payload|] == frame.payload;
    FourBytes(|frame.payload|);
    FourBytes(crc(prefix));
    FourBytes(crc(frame.payload));
  }

  lemma PrefixAsRead(bytes: seq<Byte>)
    requires |bytes| >= 12 && bytes[..4] == MAGIC && bytes[4] == VERSION
    ensures bytes[..12] == Prefix(bytes[5], Number(bytes[8..12])) <==> bytes[6..8] == [0, 0]
  {
    LittleEndianOfNumber(bytes[8..12]);
    var prefix := Prefix(bytes[5], Number(bytes[8..12]));
    assert LittleEndian(0, 2) == [0, 0] by { assert LittleEndian(0, 1) == [0]; }
    assert prefix[6..8] == [0, 0] && prefix[8..12] == bytes[8..12] && prefix[..6] == MAGIC + [VERSION, bytes[5]];
    assert bytes[..6] == MAGIC + [VERSION, bytes[5]];
    if bytes[6..8] == [0, 0] {
      assert bytes[..12] == bytes[..6] + bytes[6..8] + bytes[8..12];
    } else {
      assert bytes[..12][6..8] == bytes[6..8];
    }
  }

  /** Nothing but an encoding within the payload limit is accepted, up to the two reserved header bytes, which are
      covered by the header checksum but not required to be zero. */
  lemma AcceptedIsEncoding(crc: Checksum, limits: Limits, bytes: seq<Byte>)
    requires FrontOf(crc, limits, bytes).Complete?
    ensures var front := FrontOf(crc, limits, bytes);
            && Fits(limits, front.frame)
            && (bytes[..front.size] == Encoding(crc, front.frame) <==> bytes[6..8] == [0, 0])
  {
    var front := FrontOf(crc, limits, bytes);
    var payload := front.frame.payload;
    var prefix := Prefix(bytes[5], |payload|);
    PrefixAsRead(bytes);
    LittleEndianOfNumber(bytes[12..16]);
    LittleEndianOfNumber(bytes[16..20]);
    assert bytes[..front.size] == bytes[..12] + bytes[12..16] + bytes[16..20] + payload;
    assert Encoding(crc, front.frame)[..12] == prefix;
    assert bytes[..front.size][..12] == bytes[..12];
  }

  /** The concatenated encodings of frames scan back to exactly those frames, with nothing left. */
  lemma {:induction false} ScanOfEncodings(crc: Checksum, limits: Limits, frames: seq<Frame>)
    requires limits.maxPayload <= MAX_U32 && forall i :: 0 <= i < |frames| ==> Fits(limits, frames[i])
    ensures Scan(crc, limits, EncodeAll(crc, frames)) == Scanned(frames, [], None)
  {
    if frames != [] {
      var more := EncodeAll(crc, frames[1..]);
      FrontOfEncoding(crc, limits, frames[0], more);
      assert EncodeAll(crc, frames)[HEADER + |frames[0].payload|..] == more;
      ScanOfEncodings(crc, limits, frames[1..]);
      assert [frames[0]] + frames[1..] == frames;
    }
  }

  // ---------------------------------------------------------------- damage

  /** A whole header with this magic and version and with its own checksum. */
  predicate HeaderHolds(crc: Checksum, bytes: seq<Byte>) {
    && |bytes| >= HEADER && bytes[..4] == MAGIC && bytes[4] == VERSION
    && bytes[12..16] == LittleEndian(crc(bytes[..12]), 4)
  }

  /** Bytes are refused exactly for a header that does not hold, a length beyond the limit, or a whole payload whose
      checksum is not its own, each with its own code; short of a header or of a payload, more bytes are awaited. */
  lemma RefusedExactly(crc: Checksum, limits: Limits, bytes: seq<Byte>)
    ensures FrontOf(crc, limits, bytes) == Bad(ProtocolViolation) <==> |bytes| >= HEADER && !HeaderHolds(crc, bytes)
    ensures HeaderHolds(crc, bytes) ==>
              var length := Number(bytes[8..12]);
              && (FrontOf(crc, limits, bytes) == Bad(BoundsExceeded) <==> length > limits.maxPayload)
              && (FrontOf(crc, limits, bytes) == Bad(IntegrityFailure) <==>
                    && length <= limits.maxPayload && HEADER + length <= |bytes|
                    && bytes[16..20] != LittleEndian(crc(bytes[HEADER..HEADER + length]), 4))
    ensures FrontOf(crc, limits, bytes).NeedMore? <==>
            || |bytes| < HEADER
            || (HeaderHolds(crc, bytes) && |bytes| - HEADER < Number(bytes[8..12]) <= limits.maxPayload)
  {
    if |bytes| >= HEADER {
      SameNumber(crc(bytes[..12]), bytes[12..16]);
      var length := Number(bytes[8..12]);
      if HEADER + length <= |bytes| { SameNumber(crc(bytes[HEADER..HEADER + length]), bytes[16..20]); }
    }
  }

  /** Whole frames followed by refused bytes: the frames come out, and then the refusal. */
  lemma DamagedStreamScans(crc: Checksum, limits: Limits, frames: seq<Frame>, bytes: seq<Byte>, code: ErrorCode)
    requires limits.maxPayload <= MAX_U32 && forall i :: 0 <= i < |frames| ==> Fits(limits, frames[i])
    requires FrontOf(crc, limits, bytes) == Bad(code)
    ensures Scan(crc, limits, EncodeAll(crc, frames) + bytes) == Scanned(frames, bytes, Some(code))
  {
    ScanOfEncodings(crc, limits, frames);
    ScanInTwo(crc, limits, EncodeAll(crc, frames), bytes);
    assert [] + bytes == bytes && frames + [] == frames;
  }

  // ---------------------------------------------------------------- feeding

  /** The decoder between two calls, and what it has emitted so far. */
  datatype Fed = Fed(buffer: seq<Byte>, out: seq<Frame>, status: Status)

  predicate Overflows(limits: Limits, buffer: seq<Byte>, chunk: seq<Byte>) {
    chunk != [] && |buffer| + |chunk| > limits.maxBuffered
  }

  function Feed(crc: Checksum, limits: Limits, buffer: seq<Byte>, chunk: seq<Byte>, out: seq<Frame>): Fed {
    if chunk == [] then Fed(buffer, out, SUCCESS)
    else if Overflows(limits, buffer, chunk) then Fed([], out, Err(BoundsExceeded))
    else
      var s := Scan(crc, limits, buffer + chunk);
      if s.error.Some? then Fed([], out + s.frames, Err(s.error.value)) else Fed(s.rest, out + s.frames, SUCCESS)
  }

  /** All chunks fed one after the other, stopping at the first failure. */
  function FeedAll(crc: Checksum, limits: Limits, chunks: seq<seq<Byte>>): Fed {
    if chunks == [] then Fed([], [], SUCCESS)
    else
      var before := FeedAll(crc, limits, chunks[..|chunks| - 1]);
      if before.status.Err? then before else Feed(crc, limits, before.buffer, chunks[|chunks| - 1], before.out)
  }

  /** Whatever the chunking, feeding without error gives the frames and the leftover of the whole stream. */
  lemma {:induction false} ChunkingIsIrrelevant(crc: Checksum, limits: Limits, chunks: seq<seq<Byte>>)
    requires FeedAll(crc, limits, chunks).status.Ok?
    ensures var fed := FeedAll(crc, limits, chunks);
            Scan(crc, limits, Concat(chunks)) == Scanned(fed.out, fed.buffer, None)
  {
    if chunks != [] {
      var head, last := chunks[..|chunks| - 1], chunks[|chunks| - 1];
      ChunkingIsIrrelevant(crc, limits, head);
      if last == [] {
        assert Concat(head) + [] == Concat(head);
      } else {
        ScanInTwo(crc, limits, Concat(head), last);
      }
    }
  }

  /** Every feed finds room for its chunk behind what the earlier chunks left waiting. */
  predicate RoomForAll(crc: Checksum, limits: Limits, chunks: seq<seq<Byte>>) {
    chunks != [] ==>
      var head, last := chunks[..|chunks| - 1], chunks[|chunks| - 1];
      RoomForAll(crc, limits, head) && !Overflows(limits, Scan(crc, limits, Concat(head)).rest, last)
  }

  /** Feeding a chunking of a stream succeeds exactly when the stream scans without error and the buffer bound is
      respected at each chunk. */
  lemma {:induction false} FeedingSucceedsExactly(crc: Checksum, limits: Limits, chunks: seq<seq<Byte>>)
    ensures FeedAll(crc, limits, chunks).status.Ok?
       <==> Scan(crc, limits, Concat(chunks)).error.None? && RoomForAll(crc, limits, chunks)
  {
    if chunks != [] {
      var head, last := chunks[..|chunks| - 1], chunks[|chunks| - 1];
      FeedingSucceedsExactly(crc, limits, head);
      var before := FeedAll(crc, limits, head);
      if before.status.Ok? {
        ChunkingIsIrrelevant(crc, limits, head);
        if last == [] {
          assert Concat(head) + [] == Concat(head);
        } else {
          ScanInTwo(crc, limits, Concat(head), last);
        }
      } else if Scan(crc, limits, Concat(head)).error.Some? {
        ErrorStands(crc, limits, Concat(head), last);
      }
    }
  }

  /** Chunks no larger than what is left of the buffer bound beside an unfinished frame always find room. */
  lemma {:induction false} SmallChunksFindRoom(crc: Checksum, limits: Limits, chunks: seq<seq<Byte>>)
    requires Scan(crc, limits, Concat(chunks)).error.None?
    requires forall i :: 0 <= i < |chunks| ==> |chunks[i]| + HEADER + limits.maxPayload <= limits.maxBuffered + 1
    ensures RoomForAll(crc, limits, chunks)
  {
    if chunks != [] {
      var head, last := chunks[..|chunks| - 1], chunks[|chunks| - 1];
      if Scan(crc, limits, Concat(head)).error.Some? { ErrorStands(crc, limits, Concat(head), last); }
      SmallChunksFindRoom(crc, limits, head);
      RestIsShort(crc, limits, Concat(head));
    }
  }

  lemma FedAsScanned(crc: Checksum, limits: Limits, chunks: seq<seq<Byte>>, stream: seq<Byte>, s: Scanned)
    requires Concat(chunks) == stream && Scan(crc, limits, stream) == s && s.error.None?
    requires RoomForAll(crc, limits, chunks)
    ensures FeedAll(crc, limits, chunks) == Fed(s.rest, s.frames, SUCCESS)
  {
    FeedingSucceedsExactly(crc, limits, chunks);
    ChunkingIsIrrelevant(crc, limits, chunks);
  }

  /** Any chunking of the encodings of some frames that respects the buffer bound is decoded to exactly those
      frames, in order, leaving the decoder empty. */
  lemma DecodesWhatWasEncoded(crc: Checksum, limits: Limits, frames: seq<Frame>, chunks: seq<seq<Byte>>)
    requires limits.maxPayload <= MAX_U32 && forall i :: 0 <= i < |frames| ==> Fits(limits, frames[i])
    requires Concat(chunks) == EncodeAll(crc, frames) && RoomForAll(crc, limits, chunks)
    ensures FeedAll(crc, limits, chunks) == Fed([], frames, SUCCESS)
  {
    ScanOfEncodings(crc, limits, frames);
    FedAsScanned(crc, limits, chunks, EncodeAll(crc, frames), Scanned(frames, [], None));
  }

  // ---------------------------------------------------------------- the decoder

  /** What was found so far and what is still to be scanned make up the whole scan. */
  ghost predicate Remaining(
    crc: Checksum, limits: Limits, bytes: seq<Byte>, found: seq<Frame>, consumed: nat, whole: Scanned)
    requires consumed <= |bytes|
  {
    Prepend(found, Scan(crc, limits, bytes[consumed..])) == whole
  }

  lemma StartsWhole(crc: Checksum, limits: Limits, bytes: seq<Byte>, whole: Scanned)
    requires whole == Scan(crc, limits, bytes)
    ensures Remaining(crc, limits, bytes, [], 0, whole)
  {
    PrependNone(whole);
    assert bytes[0..] == bytes;
  }

  /** One turn of the loop that takes frames off the front. */
  lemma FrameTurn(crc: Checksum, limits: Limits, bytes: seq<Byte>, found: seq<Frame>, consumed: nat, whole: Scanned,
                  front: Front)
    requires consumed <= |bytes| && Remaining(crc, limits, bytes, found, consumed, whole)
    requires front == FrontOf(crc, limits, bytes[consumed..])
    ensures front.NeedMore? ==> whole == Scanned(found, bytes[consumed..], None)
    ensures front.Bad? ==> whole == Scanned(found, bytes[consumed..], Some(front.code))
    ensures front.Complete? ==>
              consumed + front.size <= |bytes| &&
              Remaining(crc, limits, bytes, found + [front.frame], consumed + front.size, whole)
  {
    if front.Complete? {
      assert bytes[consumed..][front.size..] == bytes[consumed + front.size..];
      PrependTwice(found, [front.frame], Scan(crc, limits, bytes[consumed + front.size..]));
    } else {
      assert found + [] == found;
    }
  }

  class FrameDecoder {
    const crc: Checksum
    const limits: Limits
    var buffer: seq<Byte>

    constructor (crc: Checksum, limits: Limits)
      ensures this.crc == crc && this.limits == limits && buffer == []
    {
      this.crc := crc;
      this.limits := limits;
      buffer := [];
    }

    method Reset()
      modifies this
      ensures buffer == []
    {
      buffer := [];
    }

    /** End of stream: refused inside a frame. */
    method Finish() returns (r: Status)
      ensures r == if buffer == [] then SUCCESS else Err(Malformed)
    {
      if buffer != [] { return Err(Malformed); }
      return SUCCESS;
    }

    /** Checks the frame at the front of at least a header of bytes. */
    method CheckFront(bytes: seq<Byte>) returns (front: Front)
      requires |bytes| >= HEADER
      ensures front == FrontOf(crc, limits, bytes)
    {
      if bytes[..4] != MAGIC { return Bad(ProtocolViolation); }
      if bytes[4] != VERSION { return Bad(ProtocolViolation); }
      if crc(bytes[..12]) != Number(bytes[12..16]) { return Bad(ProtocolViolation); }
      var length := Number(bytes[8..12]);
      if length > limits.maxPayload { return Bad(BoundsExceeded); }
      var frameEnd := HEADER + length;
      if |bytes| < frameEnd { return NeedMore; }
      var payload := bytes[HEADER..frameEnd];
      if crc(payload) != Number(bytes[16..20]) { return Bad(IntegrityFailure); }
      return Complete(Frame(bytes[5], payload), frameEnd);
    }

    /** Takes whole frames off the front of some bytes until none is left or the rest is refused. */
    method TakeFrames(bytes: seq<Byte>) returns (found: seq<Frame>, consumed: nat, error: Option<ErrorCode>)
      ensures consumed <= |bytes| && Scan(crc, limits, bytes) == Scanned(found, bytes[consumed..], error)
    {
      ghost var whole := Scan(crc, limits, bytes);
      found, consumed, error := [], 0, None;
      StartsWhole(crc, limits, bytes, whole);
      while |bytes| - consumed >= HEADER
        invariant 0 <= consumed <= |bytes|
        invariant Remaining(crc, limits, bytes, found, consumed, whole)
        decreases |bytes| - consumed
      {
        var front := CheckFront(bytes[consumed..]);
        FrameTurn(crc, limits, bytes, found, consumed, whole, front);
        if front.Bad? { return found, consumed, Some(front.code); }
        if front.NeedMore? { return; }
        found := found + [front.frame];
        consumed := consumed + front.size;
      }
      FrameTurn(crc, limits, bytes, found, consumed, whole, NeedMore);
    }

    /** Takes in a chunk and appends every frame it completes to `out`. */
    method FeedChunk(chunk: seq<Byte>, out: seq<Frame>) returns (r: Status, emitted: seq<Frame>)
      modifies this
      ensures Fed(buffer, emitted, r) == Feed(crc, limits, old(buffer), chunk, out)
    {
      emitted := out;
      if chunk == [] { return SUCCESS, emitted; }
      if |buffer| + |chunk| > limits.maxBuffered {
        Reset();
        return Err(BoundsExceeded), emitted;
      }
      buffer := buffer + chunk;
      var found, consumed, error := TakeFrames(buffer);
      emitted := emitted + found;
      if error.Some? { Reset(); return Err(error.value), emitted; }
      buffer := buffer[consumed..];
      return SUCCESS, emitted;
    }
  }
}
