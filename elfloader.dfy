/** The host side: the segment extractor, the connection to the target
    (framing of requests and responses over a byte stream) and the chunked
    upload loop. The serial port itself is abstracted as two byte sequences:
    what has been written to it, and what the target has sent that has not
    been read yet. */
module Elfloader {
  import opened Common
  import opened Frame

  /** Program header type of a loadable segment. */
  const PT_LOAD: u32 := 1

  /** A parsed 32-bit ELF program header: the fields the extractor uses,
      and the virtual address it deliberately does not use (a `.data`
      segment is loaded at its physical address, not where it runs). */
  datatype ProgramHeader = ProgramHeader(pType: u32, pOffset: u32, pVaddr: u32, pPaddr: u32, pFilesz: u32)

  /** A loadable segment: where its bytes go, and the bytes. */
  datatype Segment = Segment(startAddress: u32, data: seq<byte>)

  datatype HostError =
    | SegmentDataUnavailable
      // a loadable header's bytes lie outside the file
    | AddressOverflow
      // the u32 address cursor overflowed (a panic in a debug build)
    | EncodeFailed
      // the request frame does not fit POSTCARD_BUFFER_SIZE bytes
    | Timeout
      // no delimiter arrived before the read timeout
    | MalformedResponse
      // the response frame did not decode
    | WriteRejected(response: Target2HostMessage)
      // the response to a Write was not WriteOk

  // ---------------------------------------------------------------------------
  // Segment extraction

  predicate IsLoadable(h: ProgramHeader)
  {
    h.pType == PT_LOAD
  }

  /** The file-backed bytes of a header: p_filesz bytes at p_offset, or
      nothing when that range is not inside the file. */
  function SegmentData(h: ProgramHeader, file: seq<byte>): Option<seq<byte>>
  {
    if h.pOffset as int + h.pFilesz as int <= |file| then Some(file[h.pOffset .. h.pOffset as int + h.pFilesz as int])
    else None
  }

  /** The loadable headers, in program-header order. */
  function LoadableHeaders(headers: seq<ProgramHeader>): seq<ProgramHeader>
    decreases |headers|
  {
    if |headers| == 0 then []
    else
      var last := headers[|headers| - 1];
      LoadableHeaders(headers[..|headers| - 1]) + (if IsLoadable(last) then [last] else [])
  }

  /** Every loadable header can give its bytes. */
  ghost predicate AllLoadableHaveData(headers: seq<ProgramHeader>, file: seq<byte>)
  {
    forall i :: 0 <= i < |headers| && IsLoadable(headers[i]) ==> SegmentData(headers[i], file).Some?
  }

  /** What the extractor computes, header by header: the first loadable
      header without data makes the whole extraction fail. */
  function ExtractSegments(headers: seq<ProgramHeader>, file: seq<byte>): Result<seq<Segment>, HostError>
    decreases |headers|
  {
    if |headers| == 0 then Ok([])
    else
      match ExtractSegments(headers[..|headers| - 1], file)
      case Err(e) => Err(e)
      case Ok(segments) =>
        var h := headers[|headers| - 1];
        if !IsLoadable(h) then Ok(segments)
        else
          match SegmentData(h, file)
          case None => Err(SegmentDataUnavailable)
          case Some(data) => Ok(segments + [Segment(h.pPaddr, data)])
  }

  /** Header i is loadable and fills position k of the loadable headers,
      k being the number of loadable headers before it. */
  ghost predicate FillsPosition(headers: seq<ProgramHeader>, k: nat, i: nat)
  {
    i < |headers| && IsLoadable(headers[i]) && |LoadableHeaders(headers[..i])| == k &&
    k < |LoadableHeaders(headers)| && LoadableHeaders(headers)[k] == headers[i]
  }

  /** Some header fills position k of the loadable headers. */
  ghost predicate PositionFilled(headers: seq<ProgramHeader>, k: nat)
  {
    exists i: nat :: FillsPosition(headers, k, i)
  }

  /** The loadable headers are exactly the PT_LOAD headers, in order: each
      one comes from the input, the i-th header, when loadable, fills the
      position given by the number of loadable headers before it, and every
      position is filled that way, so nothing is added or repeated. */
  lemma {:induction false} LoadableHeadersInOrder(headers: seq<ProgramHeader>)
    ensures forall h :: h in LoadableHeaders(headers) ==> h in headers && IsLoadable(h)
    ensures forall i :: 0 <= i < |headers| && IsLoadable(headers[i]) ==>
              |LoadableHeaders(headers[..i])| < |LoadableHeaders(headers)| &&
              LoadableHeaders(headers)[|LoadableHeaders(headers[..i])|] == headers[i]
    ensures forall k: nat :: k < |LoadableHeaders(headers)| ==> PositionFilled(headers, k)
    decreases |headers|
  {
    if |headers| > 0 {
      var init := headers[..|headers| - 1];
      LoadableHeadersInOrder(init);
      forall i | 0 <= i < |headers| && IsLoadable(headers[i])
        ensures |LoadableHeaders(headers[..i])| < |LoadableHeaders(headers)|
        ensures LoadableHeaders(headers)[|LoadableHeaders(headers[..i])|] == headers[i]
      {
        if i < |headers| - 1 {
          assert init[..i] == headers[..i];
        } else {
          assert headers[..i] == init;
        }
      }
      forall k: nat | k < |LoadableHeaders(headers)|
        ensures PositionFilled(headers, k)
      {
        var last := headers[|headers| - 1];
        assert LoadableHeaders(headers) == LoadableHeaders(init) + (if IsLoadable(last) then [last] else []);
        if k < |LoadableHeaders(init)| {
          assert PositionFilled(init, k);
          var i: nat :| FillsPosition(init, k, i);
          assert init[..i] == headers[..i];
          assert FillsPosition(headers, k, i);
        } else {
          assert headers[..|headers| - 1] == init;
          assert FillsPosition(headers, k, |headers| - 1);
        }
      }
    }
  }

  /** Extraction succeeds exactly when every loadable header has its bytes,
      and then yields one segment per loadable header, in order, at the
      header's physical address and holding the header's file bytes. */
  lemma {:induction false} ExtractSegmentsSpec(headers: seq<ProgramHeader>, file: seq<byte>)
    ensures ExtractSegments(headers, file).Ok? <==> AllLoadableHaveData(headers, file)
    ensures ExtractSegments(headers, file).Err? ==> ExtractSegments(headers, file).error == SegmentDataUnavailable
    ensures ExtractSegments(headers, file).Ok? ==>
              var segments, loadable := ExtractSegments(headers, file).value, LoadableHeaders(headers);
              |segments| == |loadable| &&
              forall k :: 0 <= k < |segments| ==>
                SegmentData(loadable[k], file).Some? &&
                segments[k] == Segment(loadable[k].pPaddr, SegmentData(loadable[k], file).value)
    decreases |headers|
  {
    if |headers| > 0 {
      var init := headers[..|headers| - 1];
      var last := headers[|headers| - 1];
      ExtractSegmentsSpec(init, file);
      assert AllLoadableHaveData(headers, file) <==>
             AllLoadableHaveData(init, file) && (IsLoadable(last) ==> SegmentData(last, file).Some?) by {
        if AllLoadableHaveData(init, file) && (IsLoadable(last) ==> SegmentData(last, file).Some?) {
          forall i | 0 <= i < |headers| && IsLoadable(headers[i]) ensures SegmentData(headers[i], file).Some? {
            if i < |init| { assert headers[i] == init[i]; }
          }
        }
        if AllLoadableHaveData(headers, file) {
          forall i | 0 <= i < |init| && IsLoadable(init[i]) ensures SegmentData(init[i], file).Some? {
            assert init[i] == headers[i];
          }
        }
      }
    }
  }

  /** Once a prefix of the headers fails, the whole extraction fails. */
  lemma {:induction false} ExtractFailureIsFinal(headers: seq<ProgramHeader>, file: seq<byte>, i: nat)
    requires i <= |headers|
    requires ExtractSegments(headers[..i], file).Err?
    ensures ExtractSegments(headers, file) == Err(SegmentDataUnavailable)
    decreases |headers| - i
  {
    if i < |headers| {
      assert headers[..i + 1][..i] == headers[..i];
      ExtractFailureIsFinal(headers, file, i + 1);
    } else {
      assert headers[..i] == headers;
      ExtractSegmentsSpec(headers, file);
    }
  }

  /** extract_loadable_segments over an already parsed header table: keeps
      the PT_LOAD headers, pushing one segment per header. */
  method ExtractLoadableSegments(headers: seq<ProgramHeader>, file: seq<byte>)
    returns (r: Result<seq<Segment>, HostError>)
    ensures r == ExtractSegments(headers, file)
  {
    var segments: seq<Segment> := [];
    var i := 0;
    while i < |headers|
      invariant 0 <= i <= |headers|
      invariant ExtractSegments(headers[..i], file) == Ok(segments)
    {
      var h := headers[i];
      assert headers[..i + 1][..i] == headers[..i];
      if h.pType == PT_LOAD {
        var data := SegmentData(h, file);
        if data.None? {
          ExtractFailureIsFinal(headers, file, i + 1);
          return Err(SegmentDataUnavailable);
        }
        segments := segments + [Segment(h.pPaddr, data.value)];
      }
      i := i + 1;
    }
    assert headers[..i] == headers;
    return Ok(segments);
  }

  // ---------------------------------------------------------------------------
  // Chunking

  /** One Write the uploader plans: the cursor value and the slice. */
  datatype Chunk = Chunk(address: nat, data: seq<byte>)

  /** `data.chunks(POSTCARD_PAYLOAD_SIZE)`, each slice paired with the value
      the address cursor has when the slice is taken; the cursor starts at
      `address` and advances by each slice's length. */
  function ChunksFrom(address: nat, data: seq<byte>): seq<Chunk>
    decreases |data|
  {
    if |data| == 0 then []
    else
      var n := if |data| < POSTCARD_PAYLOAD_SIZE then |data| else POSTCARD_PAYLOAD_SIZE;
      [Chunk(address, data[..n])] + ChunksFrom(address + n, data[n..])
  }

  function SegmentChunks(segment: Segment): seq<Chunk>
  {
    ChunksFrom(segment.startAddress, segment.data)
  }

  /** All chunks of all segments, segment after segment. */
  function UploadPlan(segments: seq<Segment>): seq<Chunk>
    decreases |segments|
  {
    if |segments| == 0 then []
    else UploadPlan(segments[..|segments| - 1]) + SegmentChunks(segments[|segments| - 1])
  }

  /** The chunks' slices, concatenated. */
  function Payloads(chunks: seq<Chunk>): seq<byte>
    decreases |chunks|
  {
    if |chunks| == 0 then [] else chunks[0].data + Payloads(chunks[1..])
  }

  lemma {:induction false} PayloadsAppend(a: seq<Chunk>, b: seq<Chunk>)
    ensures Payloads(a + b) == Payloads(a) + Payloads(b)
    decreases |a|
  {
    if |a| > 0 {
      assert (a + b)[1..] == a[1..] + b;
      PayloadsAppend(a[1..], b);
    } else {
      assert a + b == b;
    }
  }

  /** Every chunk is non-empty and at most POSTCARD_PAYLOAD_SIZE bytes. */
  lemma {:induction false} ChunkSizes(address: nat, data: seq<byte>)
    ensures forall c :: c in ChunksFrom(address, data) ==> 0 < |c.data| <= POSTCARD_PAYLOAD_SIZE
    decreases |data|
  {
    if |data| > 0 {
      var n := if |data| < POSTCARD_PAYLOAD_SIZE then |data| else POSTCARD_PAYLOAD_SIZE;
      ChunkSizes(address + n, data[n..]);
    }
  }

  /** A slice of length L gives ceil(L / POSTCARD_PAYLOAD_SIZE) chunks, so
      an empty slice gives none. */
  lemma {:induction false} ChunkCount(address: nat, data: seq<byte>)
    ensures |ChunksFrom(address, data)| == (|data| + POSTCARD_PAYLOAD_SIZE - 1) / POSTCARD_PAYLOAD_SIZE
    decreases |data|
  {
    if |data| > 0 {
      var n := if |data| < POSTCARD_PAYLOAD_SIZE then |data| else POSTCARD_PAYLOAD_SIZE;
      ChunkCount(address + n, data[n..]);
    }
  }

  /** The chunks' slices, in order, put back together give the data. */
  lemma {:induction false} ChunksReassemble(address: nat, data: seq<byte>)
    ensures Payloads(ChunksFrom(address, data)) == data
    decreases |data|
  {
    if |data| > 0 {
      var n := if |data| < POSTCARD_PAYLOAD_SIZE then |data| else POSTCARD_PAYLOAD_SIZE;
      var chunks := ChunksFrom(address, data);
      ChunksReassemble(address + n, data[n..]);
      assert chunks[1..] == ChunksFrom(address + n, data[n..]);
      assert data[..n] + data[n..] == data;
    }
  }

  /** Each chunk's address is the start address plus the length of all the
      chunks before it. */
  lemma {:induction false} ChunkAddresses(address: nat, data: seq<byte>, k: nat)
    requires k < |ChunksFrom(address, data)|
    ensures ChunksFrom(address, data)[k].address == address + |Payloads(ChunksFrom(address, data)[..k])|
    decreases |data|
  {
    var chunks := ChunksFrom(address, data);
    var n := if |data| < POSTCARD_PAYLOAD_SIZE then |data| else POSTCARD_PAYLOAD_SIZE;
    if k > 0 {
      var tail := ChunksFrom(address + n, data[n..]);
      assert chunks[1..] == tail;
      ChunkAddresses(address + n, data[n..], k - 1);
      assert chunks[..k] == [chunks[0]] + tail[..k - 1];
      assert Payloads(chunks[..k]) == chunks[0].data + Payloads(tail[..k - 1]) by {
        assert (chunks[..k])[1..] == tail[..k - 1];
      }
    } else {
      assert chunks[..0] == [];
    }
  }

  /** The u32 cursor never overflows over a slice exactly when the slice
      ends at or below U32_MAX. */
  lemma {:induction false} ChunksFitAddressSpace(address: nat, data: seq<byte>)
    requires address <= U32_MAX
    ensures InAddressSpace(ChunksFrom(address, data)) <==> address + |data| <= U32_MAX
    decreases |data|
  {
    if |data| > 0 {
      var n := if |data| < POSTCARD_PAYLOAD_SIZE then |data| else POSTCARD_PAYLOAD_SIZE;
      var chunks := ChunksFrom(address, data);
      var tail := ChunksFrom(address + n, data[n..]);
      assert chunks[0] == Chunk(address, data[..n]);
      assert chunks[1..] == tail;
      if address + n <= U32_MAX {
        ChunksFitAddressSpace(address + n, data[n..]);
        if InAddressSpace(tail) {
          forall k | 0 <= k < |chunks| ensures chunks[k].address + |chunks[k].data| <= U32_MAX {
            if k > 0 { assert chunks[k] == tail[k - 1]; }
          }
        }
        if InAddressSpace(chunks) {
          forall k | 0 <= k < |tail| ensures tail[k].address + |tail[k].data| <= U32_MAX {
            assert tail[k] == chunks[k + 1];
          }
        }
      }
    }
  }

  lemma {:induction false} UploadPlanAppend(a: seq<Segment>, b: seq<Segment>)
    ensures UploadPlan(a + b) == UploadPlan(a) + UploadPlan(b)
    decreases |b|
  {
    if |b| > 0 {
      var b' := b[..|b| - 1];
      assert (a + b)[..|a + b| - 1] == a + b';
      UploadPlanAppend(a, b');
    } else {
      assert a + b == a;
    }
  }

  /** Segments are uploaded in order, each one's chunks all before the next's. */
  lemma {:induction false} UploadPlanOrder(segments: seq<Segment>, i: nat)
    requires i < |segments|
    ensures UploadPlan(segments) ==
              UploadPlan(segments[..i]) + SegmentChunks(segments[i]) + UploadPlan(segments[i + 1..])
  {
    var front, back := segments[..i + 1], segments[i + 1..];
    assert segments == front + back;
    UploadPlanAppend(front, back);
    assert front[..i] == segments[..i];
    assert front[i] == segments[i];
    assert UploadPlan(front) == UploadPlan(segments[..i]) + SegmentChunks(segments[i]);
  }

  // ---------------------------------------------------------------------------
  // Reading a response: `read_until(COBS_DELIMITER)`

  /** The bytes up to and including the first delimiter, and what follows;
      None when no delimiter arrives. */
  function ReadFrame(input: seq<byte>): Option<(seq<byte>, seq<byte>)>
    decreases |input|
  {
    if |input| == 0 then None
    else if input[0] == COBS_DELIMITER then Some(([input[0]], input[1..]))
    else
      match ReadFrame(input[1..])
      case None => None
      case Some(p) => Some(([input[0]] + p.0, p.1))
  }

  /** A read that starts with `prefix` already taken. */
  function Shift(prefix: seq<byte>, r: Option<(seq<byte>, seq<byte>)>): Option<(seq<byte>, seq<byte>)>
  {
    match r
    case None => None
    case Some(p) => Some((prefix + p.0, p.1))
  }

  lemma ShiftShift(a: seq<byte>, b: seq<byte>, r: Option<(seq<byte>, seq<byte>)>)
    ensures Shift(a, Shift(b, r)) == Shift(a + b, r)
  {
    match r
    case None =>
    case Some(p) => assert a + (b + p.0) == (a + b) + p.0;
  }

  /** Bytes without a delimiter are carried into the frame that follows them. */
  lemma {:induction false} ReadFrameShift(prefix: seq<byte>, input: seq<byte>)
    requires COBS_DELIMITER !in prefix
    ensures ReadFrame(prefix + input) == Shift(prefix, ReadFrame(input))
    decreases |prefix|
  {
    if |prefix| > 0 {
      assert (prefix + input)[1..] == prefix[1..] + input;
      ReadFrameShift(prefix[1..], input);
      assert [prefix[0]] + prefix[1..] == prefix;
      match ReadFrame(input)
      case None =>
      case Some(p) =>
        assert [prefix[0]] + (prefix[1..] + p.0) == prefix + p.0;
    } else {
      assert prefix + input == input;
      match ReadFrame(input)
      case None =>
      case Some(p) =>
        assert prefix + p.0 == p.0;
    }
  }

  /** The read yields nothing exactly when no delimiter is in the input;
      otherwise it splits the input after the first delimiter. */
  lemma {:induction false} ReadFrameSpec(input: seq<byte>)
    ensures ReadFrame(input).None? <==> COBS_DELIMITER !in input
    ensures ReadFrame(input).Some? ==>
              var frame, rest := ReadFrame(input).value.0, ReadFrame(input).value.1;
              frame + rest == input && 1 <= |frame| && frame[|frame| - 1] == COBS_DELIMITER &&
              COBS_DELIMITER !in frame[..|frame| - 1]
    decreases |input|
  {
    if |input| > 0 {
      ReadFrameSpec(input[1..]);
      assert input == [input[0]] + input[1..];
      if input[0] != COBS_DELIMITER && ReadFrame(input[1..]).Some? {
        var p := ReadFrame(input[1..]).value;
        var frame := [input[0]] + p.0;
        assert frame[..|frame| - 1] == [input[0]] + p.0[..|p.0| - 1];
      }
    }
  }

  /** Reading a whole frame from the front of the input returns that frame. */
  lemma ReadFrameOfFrame(frame: seq<byte>, rest: seq<byte>)
    requires 1 <= |frame| && frame[|frame| - 1] == COBS_DELIMITER
    requires COBS_DELIMITER !in frame[..|frame| - 1]
    ensures ReadFrame(frame + rest) == Some((frame, rest))
  {
    var body := frame[..|frame| - 1];
    assert frame + rest == body + ([COBS_DELIMITER] + rest);
    ReadFrameShift(body, [COBS_DELIMITER] + rest);
    assert ([COBS_DELIMITER] + rest)[1..] == rest;
    assert body + [COBS_DELIMITER] == frame;
  }

  /** The host's view of one response: what it reads and what is left. */
  datatype Reply = Reply(response: Result<Target2HostMessage, HostError>, rest: seq<byte>)

  /** `read_until` followed by `from_bytes_cobs`: no delimiter is a time-out
      (the bytes read are lost), a frame that does not decode is malformed. */
  function Respond(input: seq<byte>): Reply
  {
    match ReadFrame(input)
    case None => Reply(Err(Timeout), [])
    case Some((frame, rest)) =>
      match DecodeTarget2Host(frame)
      case None => Reply(Err(MalformedResponse), rest)
      case Some(m) => Reply(Ok(m), rest)
  }

  /** A response frame the target sent is read back as that response, and
      nothing after it is consumed. */
  lemma RespondToFrame(m: Target2HostMessage, rest: seq<byte>)
    ensures Respond(EncodeTarget2Host(m) + rest) == Reply(Ok(m), rest)
  {
    ReadFrameOfFrame(EncodeTarget2Host(m), rest);
    Target2HostFrameRoundTrip(m);
  }

  /** A silent target makes the read time out. */
  lemma SilenceTimesOut(input: seq<byte>)
    requires COBS_DELIMITER !in input
    ensures Respond(input) == Reply(Err(Timeout), [])
  {
    ReadFrameSpec(input);
  }

  // ---------------------------------------------------------------------------
  // The connection

  /** The frames of a sequence of requests, as written to the port. */
  function Frames(requests: seq<Host2TargetMessage>): seq<byte>
    decreases |requests|, 1
  {
    if |requests| == 0 then [] else FramesThen(requests[..|requests| - 1], requests[|requests| - 1])
  }

  /** The frames of `earlier`, then the frame of `last`. */
  function FramesThen(earlier: seq<Host2TargetMessage>, last: Host2TargetMessage): seq<byte>
    decreases |earlier| + 1, 0
  {
    Frames(earlier) + EncodeHost2Target(last)
  }

  /** Writing one more request appends its frame. */
  lemma FramesSnoc(a: seq<Host2TargetMessage>, m: Host2TargetMessage)
    ensures Frames(a + [m]) == Frames(a) + EncodeHost2Target(m)
  {
    assert (a + [m])[..|a|] == a;
    assert Frames(a + [m]) == FramesThen(a, m);
  }

  lemma {:induction false} FramesAppend(a: seq<Host2TargetMessage>, b: seq<Host2TargetMessage>)
    ensures Frames(a + b) == Frames(a) + Frames(b)
    decreases |b|
  {
    if |b| > 0 {
      var init, last := b[..|b| - 1], b[|b| - 1];
      assert a + b == (a + init) + [last];
      assert b == init + [last];
      FramesSnoc(a + init, last);
      FramesSnoc(init, last);
      FramesAppend(a, init);
    } else {
      assert a + b == a;
    }
  }

  /** A connection to the target over the serial port. The port is two byte
      streams: `written` is everything sent to the target, `pending` what the
      target has sent that has not been read yet. */
  class TargetConn {
    var written: seq<byte>
    var pending: seq<byte>

    constructor(incoming: seq<byte>)
      ensures written == [] && pending == incoming
    {
      written := [];
      pending := incoming;
    }

    /** Sends a request without waiting for a response: the request's frame
        is written whole, or nothing is written when it does not fit the
        frame buffer. */
    method Send(request: Host2TargetMessage) returns (r: Outcome<HostError>)
      modifies this
      ensures pending == old(pending)
      ensures match ToVecCobsHost2Target(request, POSTCARD_BUFFER_SIZE)
              case Ok(bytes) => r == Pass && written == old(written) + bytes
              case Err(_) => r == Fail(EncodeFailed) && written == old(written)
    {
      var encoded := ToVecCobsHost2Target(request, POSTCARD_BUFFER_SIZE);
      if encoded.Err? {
        return Fail(EncodeFailed);
      }
      written := written + encoded.value;
      return Pass;
    }

    /** Reads byte by byte up to and including the first delimiter. */
    method ReadUntilDelimiter() returns (r: Result<seq<byte>, HostError>)
      modifies this
      ensures written == old(written)
      ensures match ReadFrame(old(pending))
              case None => r == Err(Timeout) && pending == []
              case Some(p) => r == Ok(p.0) && pending == p.1
    {
      var buffer: seq<byte> := [];
      assert Shift([], ReadFrame(pending)) == ReadFrame(pending) by {
        match ReadFrame(pending)
        case None =>
        case Some(p) => assert [] + p.0 == p.0;
      }
      while |pending| > 0
        invariant written == old(written)
        invariant COBS_DELIMITER !in buffer
        invariant ReadFrame(old(pending)) == Shift(buffer, ReadFrame(pending))
        decreases |pending|
      {
        var b := pending[0];
        ghost var before := pending;
        pending := pending[1..];
        if b == COBS_DELIMITER {
          return Ok(buffer + [b]);
        }
        buffer := buffer + [b];
        assert ReadFrame(before) == Shift([b], ReadFrame(pending)) by {
          match ReadFrame(pending)
          case None =>
          case Some(p) =>
        }
        ShiftShift(buffer[..|buffer| - 1], [b], ReadFrame(pending));
        assert buffer[..|buffer| - 1] + [b] == buffer;
      }
      return Err(Timeout);
    }

    /** Sends a request and reads one response frame. */
    method RequestResponse(request: Host2TargetMessage) returns (r: Result<Target2HostMessage, HostError>)
      modifies this
      ensures match ToVecCobsHost2Target(request, POSTCARD_BUFFER_SIZE)
              case Ok(bytes) =>
                written == old(written) + bytes && Reply(r, pending) == Respond(old(pending))
              case Err(_) =>
                r == Err(EncodeFailed) && written == old(written) && pending == old(pending)
    {
      var sent := Send(request);
      if sent.Fail? {
        return Err(sent.error);
      }
      var frame := ReadUntilDelimiter();
      if frame.Err? {
        return Err(frame.error);
      }
      var response := DecodeTarget2Host(frame.value);
      if response.None? {
        return Err(MalformedResponse);
      }
      return Ok(response.value);
    }
  }

  // ---------------------------------------------------------------------------
  // The upload

  /** Every chunk leaves the u32 address cursor without overflow. */
  ghost predicate InAddressSpace(plan: seq<Chunk>)
  {
    forall k :: 0 <= k < |plan| ==> plan[k].address + |plan[k].data| <= U32_MAX
  }

  /** The Write requests of a plan. */
  function Writes(plan: seq<Chunk>): seq<Host2TargetMessage>
    requires InAddressSpace(plan)
    decreases |plan|
  {
    if |plan| == 0 then [] else [Write(plan[0].address, plan[0].data)] + Writes(plan[1..])
  }

  /** What the host sent, how the upload ended and what is left unread. */
  datatype Exchange = Exchange(sent: seq<Host2TargetMessage>, outcome: Outcome<HostError>, rest: seq<byte>)

  function Prepend(sent: seq<Host2TargetMessage>, x: Exchange): Exchange
  {
    Exchange(sent + x.sent, x.outcome, x.rest)
  }

  /** The chunk loop: one Write per chunk, each waiting for its response,
      until the first chunk that fails. The loop body is split over
      `WriteThen` (the address cursor check) and `RequestThen` (the request
      and the check of its response). */
  function RunPlan(plan: seq<Chunk>, input: seq<byte>): Exchange
    decreases |plan|, 2
  {
    if |plan| == 0 then Exchange([], Pass, input) else WriteThen(plan[0], plan[1..], input)
  }

  /** The chunk `c`, then, unless it failed, the chunks `later`: the cursor
      advancing past U32_MAX ends the upload before anything is sent. */
  function WriteThen(c: Chunk, later: seq<Chunk>, input: seq<byte>): Exchange
    decreases |later| + 1, 1
  {
    if c.address + |c.data| > U32_MAX then Exchange([], Fail(AddressOverflow), input)
    else RequestThen(Write(c.address, c.data), later, input)
  }

  /** `request_response` for one Write and the check that its response is
      WriteOk: a request that cannot be encoded, a missing or malformed
      response and any response other than WriteOk each end the upload. */
  function RequestThen(request: Host2TargetMessage, later: seq<Chunk>, input: seq<byte>): Exchange
    decreases |later| + 1, 0
  {
    match ToVecCobsHost2Target(request, POSTCARD_BUFFER_SIZE)
    case Err(_) => Exchange([], Fail(EncodeFailed), input)
    case Ok(_) =>
      var reply := Respond(input);
      var verdict := Verdict(reply.response);
      if verdict.Fail? then Exchange([request], verdict, reply.rest)
      else Prepend([request], RunPlan(later, reply.rest))
  }

  /** `ensure!(response == WriteOk)` after `request_response(..)?`. */
  function Verdict(response: Result<Target2HostMessage, HostError>): Outcome<HostError>
  {
    match response
    case Err(e) => Fail(e)
    case Ok(m) => if m == WriteOk then Pass else Fail(WriteRejected(m))
  }

  /** One pass of the chunk loop on its own. */
  function WriteChunk(c: Chunk, input: seq<byte>): Exchange
  {
    RunPlan([c], input)
  }

  /** A pass sends at most the chunk's Write and reads at most one response:
      overflow and encoding failures send nothing, anything else sends the
      Write and is decided by the response read for it. */
  lemma WriteChunkSpec(c: Chunk, input: seq<byte>)
    ensures WriteChunk(c, input) ==
              if c.address + |c.data| > U32_MAX then Exchange([], Fail(AddressOverflow), input)
              else
                var request := Write(c.address, c.data);
                match ToVecCobsHost2Target(request, POSTCARD_BUFFER_SIZE)
                case Err(_) => Exchange([], Fail(EncodeFailed), input)
                case Ok(_) =>
                  var reply := Respond(input);
                  Exchange([request], Verdict(reply.response), reply.rest)
  {
    assert [c][0] == c && [c][1..] == [];
    assert WriteChunk(c, input) == WriteThen(c, [], input);
    if c.address + |c.data| <= U32_MAX {
      var request := Write(c.address, c.data);
      assert WriteThen(c, [], input) == RequestThen(request, [], input);
      var reply := Respond(input);
      if ToVecCobsHost2Target(request, POSTCARD_BUFFER_SIZE).Ok? && Verdict(reply.response).Pass? {
        assert RequestThen(request, [], input) == Prepend([request], Exchange([], Pass, reply.rest));
      }
    }
  }

  /** The loop is its first pass followed, when that passed, by the rest. */
  lemma RunPlanStep(plan: seq<Chunk>, input: seq<byte>)
    requires 0 < |plan|
    ensures RunPlan(plan, input) ==
              var w := WriteChunk(plan[0], input);
              if w.outcome.Fail? then w else Prepend(w.sent, RunPlan(plan[1..], w.rest))
  {
    var c := plan[0];
    WriteChunkSpec(c, input);
    if c.address + |c.data| <= U32_MAX {
      var request := Write(c.address, c.data);
      assert RunPlan(plan, input) == RequestThen(request, plan[1..], input);
      assert [c][0] == c && [c][1..] == [];
      assert WriteChunk(c, input) == RequestThen(request, [], input);
    }
  }

  /** A chunk that is sent gets the verdict of the response read for it. */
  lemma WriteChunkAnsweredWith(c: Chunk, input: seq<byte>, response: Result<Target2HostMessage, HostError>, rest: seq<byte>)
    requires c.address + |c.data| <= U32_MAX && |c.data| <= POSTCARD_PAYLOAD_SIZE
    requires Respond(input) == Reply(response, rest)
    ensures WriteChunk(c, input) == Exchange([Write(c.address, c.data)], Verdict(response), rest)
  {
    WriteChunkSpec(c, input);
    WritePayloadFitsInBuffer(c.address, c.data);
  }

  /** A chunk's Write goes out whole or not at all: it is sent exactly when
      the cursor does not overflow and its frame fits the buffer. */
  lemma WriteChunkSends(c: Chunk, input: seq<byte>)
    ensures var x := WriteChunk(c, input);
            |x.sent| == 1 <==>
              c.address + |c.data| <= U32_MAX &&
              ToVecCobsHost2Target(Write(c.address, c.data), POSTCARD_BUFFER_SIZE).Ok?
    ensures var x := WriteChunk(c, input);
            |x.sent| == 1 ==> InAddressSpace([c]) && x.sent == [Write(c.address, c.data)]
    ensures var x := WriteChunk(c, input);
            |x.sent| <= 1 && (x.outcome.Pass? ==> |x.sent| == 1)
  {
    WriteChunkSpec(c, input);
  }

  /** A chunk of at most POSTCARD_PAYLOAD_SIZE bytes inside the address
      space is written, and the response read for it decides the outcome. */
  lemma WriteChunkAnswered(c: Chunk, response: Target2HostMessage, rest: seq<byte>)
    requires c.address + |c.data| <= U32_MAX && |c.data| <= POSTCARD_PAYLOAD_SIZE
    ensures WriteChunk(c, EncodeTarget2Host(response) + rest) ==
              Exchange([Write(c.address, c.data)],
                       if response == WriteOk then Pass else Fail(WriteRejected(response)),
                       rest)
  {
    WriteChunkSpec(c, EncodeTarget2Host(response) + rest);
    WritePayloadFitsInBuffer(c.address, c.data);
    RespondToFrame(response, rest);
  }

  /** The whole of the upload: every segment's chunks in order, then, when
      all were acknowledged, Execute, for which no response is read. */
  function UploadSpec(segments: seq<Segment>, input: seq<byte>): Exchange
  {
    var x := RunPlan(UploadPlan(segments), input);
    if x.outcome.Fail? then x
    else
      match ToVecCobsHost2Target(Execute, POSTCARD_BUFFER_SIZE)
      case Err(_) => Exchange(x.sent, Fail(EncodeFailed), x.rest)
      case Ok(_) => Exchange(x.sent + [Execute], Pass, x.rest)
  }

  /** What loading an image does: extraction first, and only when it
      succeeds, the upload. */
  function LoadSpec(headers: seq<ProgramHeader>, file: seq<byte>, input: seq<byte>): Exchange
  {
    match ExtractSegments(headers, file)
    case Err(e) => Exchange([], Fail(e), input)
    case Ok(segments) => UploadSpec(segments, input)
  }

  /** Running a plan whose first chunk is `c`. */
  lemma RunPlanCons(c: Chunk, plan: seq<Chunk>, input: seq<byte>)
    ensures RunPlan([c] + plan, input) ==
              var w := WriteChunk(c, input);
              if w.outcome.Fail? then w else Prepend(w.sent, RunPlan(plan, w.rest))
  {
    assert ([c] + plan)[0] == c;
    assert ([c] + plan)[1..] == plan;
    RunPlanStep([c] + plan, input);
  }

  /** Writing the frames of `more` after those of `sent`. */
  lemma FramesStep(written: seq<byte>, sent: seq<Host2TargetMessage>, more: seq<Host2TargetMessage>)
    ensures (written + Frames(sent)) + Frames(more) == written + Frames(sent + more)
  {
    FramesAppend(sent, more);
  }

  /** The loop over what is left of a segment, advanced by its first chunk. */
  lemma SegmentStep(address: nat, data: seq<byte>, input: seq<byte>)
    requires 0 < |data|
    ensures var n := if |data| < POSTCARD_PAYLOAD_SIZE then |data| else POSTCARD_PAYLOAD_SIZE;
            RunPlan(ChunksFrom(address, data), input) ==
              var w := WriteChunk(Chunk(address, data[..n]), input);
              if w.outcome.Fail? then w else Prepend(w.sent, RunPlan(ChunksFrom(address + n, data[n..]), w.rest))
  {
    var n := if |data| < POSTCARD_PAYLOAD_SIZE then |data| else POSTCARD_PAYLOAD_SIZE;
    RunPlanCons(Chunk(address, data[..n]), ChunksFrom(address + n, data[n..]), input);
  }

  lemma PrependAssoc(a: seq<Host2TargetMessage>, b: seq<Host2TargetMessage>, x: Exchange)
    ensures Prepend(a, Prepend(b, x)) == Prepend(a + b, x)
  {
    assert a + (b + x.sent) == (a + b) + x.sent;
  }

  /** One pass of the inner loop of the upload: the Write for the chunk at
      the address cursor, the cursor check, the request and the check that
      the response is WriteOk. */
  method SendChunk(conn: TargetConn, address: u32, chunk: seq<byte>) returns (r: Outcome<HostError>)
    modifies conn
    ensures var w := WriteChunk(Chunk(address, chunk), old(conn.pending));
            r == w.outcome && conn.written == old(conn.written) + Frames(w.sent) && conn.pending == w.rest
    ensures r.Pass? ==> address + |chunk| <= U32_MAX
  {
    WriteChunkSpec(Chunk(address, chunk), conn.pending);
    var message := Write(address, chunk);
    if address + |chunk| > U32_MAX {
      assert old(conn.written) + Frames([]) == conn.written;
      return Fail(AddressOverflow);
    }
    var response := conn.RequestResponse(message);
    assert Frames([message]) == EncodeHost2Target(message) by {
      FramesSnoc([], message);
    }
    if response.Err? {
      return Fail(response.error);
    }
    if response.value != WriteOk {
      return Fail(WriteRejected(response.value));
    }
    return Pass;
  }

  /** The inner loop of the upload: the chunks of one segment, each sent as
      a Write at the address cursor, which then advances by the chunk's
      length, and each acknowledged before the next is sent. */
  method WriteSegment(conn: TargetConn, segment: Segment) returns (r: Outcome<HostError>)
    modifies conn
    ensures var x := RunPlan(SegmentChunks(segment), old(conn.pending));
            r == x.outcome && conn.written == old(conn.written) + Frames(x.sent) && conn.pending == x.rest
  {
    var startAddress: u32 := segment.startAddress;
    var rest := segment.data;
    ghost var whole := RunPlan(SegmentChunks(segment), conn.pending);
    ghost var sent: seq<Host2TargetMessage> := [];
    assert [] + whole.sent == whole.sent;
    while |rest| > 0
      invariant whole == Prepend(sent, RunPlan(ChunksFrom(startAddress, rest), conn.pending))
      invariant conn.written == old(conn.written) + Frames(sent)
      decreases |rest|
    {
      var n := if |rest| < POSTCARD_PAYLOAD_SIZE then |rest| else POSTCARD_PAYLOAD_SIZE;
      var chunk := rest[..n];
      ghost var w := WriteChunk(Chunk(startAddress, chunk), conn.pending);
      SegmentStep(startAddress, rest, conn.pending);
      r := SendChunk(conn, startAddress, chunk);
      FramesStep(old(conn.written), sent, w.sent);
      if r.Fail? {
        return;
      }
      PrependAssoc(sent, w.sent, RunPlan(ChunksFrom(startAddress + n, rest[n..]), conn.pending));
      sent := sent + w.sent;
      startAddress := startAddress + n;
      rest := rest[n..];
    }
    assert sent + [] == sent;
    return Pass;
  }



  /** Uploading one more segment after the first `i`. */
  lemma UploadStep(segments: seq<Segment>, i: nat, input: seq<byte>)
    requires i < |segments|
    ensures var x := RunPlan(UploadPlan(segments[..i]), input);
            x.outcome.Pass? ==>
              RunPlan(UploadPlan(segments[..i + 1]), input) == Prepend(x.sent, RunPlan(SegmentChunks(segments[i]), x.rest))
  {
    assert UploadPlan(segments[..i + 1]) == UploadPlan(segments[..i]) + SegmentChunks(segments[i]) by {
      assert segments[..i + 1][..i] == segments[..i];
    }
    RunPlanAppend(UploadPlan(segments[..i]), SegmentChunks(segments[i]), input);
  }

  /** Once the first `i` segments failed, the later ones change nothing. */
  lemma UploadStopped(segments: seq<Segment>, i: nat, input: seq<byte>)
    requires i <= |segments|
    requires RunPlan(UploadPlan(segments[..i]), input).outcome.Fail?
    ensures RunPlan(UploadPlan(segments), input) == RunPlan(UploadPlan(segments[..i]), input)
  {
    assert segments[..i] + segments[i..] == segments;
    UploadPlanAppend(segments[..i], segments[i..]);
    RunPlanAppend(UploadPlan(segments[..i]), UploadPlan(segments[i..]), input);
  }

  /** The segment loop of `main`: every segment in order, each one's chunks
      all before the next's, until the first that fails. */
  method UploadSegments(conn: TargetConn, segments: seq<Segment>) returns (r: Outcome<HostError>)
    modifies conn
    ensures var x := RunPlan(UploadPlan(segments), old(conn.pending));
            r == x.outcome && conn.written == old(conn.written) + Frames(x.sent) && conn.pending == x.rest
  {
    var i := 0;
    ghost var sent: seq<Host2TargetMessage> := [];
    assert segments[..0] == [];
    r := Pass;
    while i < |segments|
      invariant 0 <= i <= |segments|
      invariant r == Pass
      invariant RunPlan(UploadPlan(segments[..i]), old(conn.pending)) == Exchange(sent, r, conn.pending)
      invariant conn.written == old(conn.written) + Frames(sent)
    {
      ghost var x := RunPlan(SegmentChunks(segments[i]), conn.pending);
      UploadStep(segments, i, old(conn.pending));
      r := WriteSegment(conn, segments[i]);
      FramesStep(old(conn.written), sent, x.sent);
      if r.Fail? {
        UploadStopped(segments, i + 1, old(conn.pending));
        return;
      }
      sent := sent + x.sent;
      i := i + 1;
    }
    assert segments[..i] == segments;
  }

  /** The upload of `main`: the segments, then Execute, sent without waiting
      for a response. */
  method Upload(conn: TargetConn, segments: seq<Segment>) returns (r: Outcome<HostError>)
    modifies conn
    ensures var x := UploadSpec(segments, old(conn.pending));
            r == x.outcome && conn.written == old(conn.written) + Frames(x.sent) && conn.pending == x.rest
  {
    ghost var x := RunPlan(UploadPlan(segments), conn.pending);
    r := UploadSegments(conn, segments);
    if r.Fail? {
      return;
    }
    r := conn.Send(Execute);
    FramesStep(old(conn.written), x.sent, [Execute]);
    assert Frames([Execute]) == EncodeHost2Target(Execute) by {
      FramesSnoc([], Execute);
    }
  }

  /** `main` after the argument is read: extract the segments, then upload
      them; a file whose segments cannot be extracted sends nothing. */
  method LoadElf(conn: TargetConn, headers: seq<ProgramHeader>, file: seq<byte>) returns (r: Outcome<HostError>)
    modifies conn
    ensures var x := LoadSpec(headers, file, old(conn.pending));
            r == x.outcome && conn.written == old(conn.written) + Frames(x.sent) && conn.pending == x.rest
  {
    var segments := ExtractLoadableSegments(headers, file);
    if segments.Err? {
      assert old(conn.written) + Frames([]) == conn.written;
      return Fail(segments.error);
    }
    r := Upload(conn, segments.value);
  }

  /** Running two plans one after the other is running their concatenation. */
  lemma {:induction false} RunPlanAppend(a: seq<Chunk>, b: seq<Chunk>, input: seq<byte>)
    ensures RunPlan(a + b, input) ==
              var x := RunPlan(a, input);
              if x.outcome.Pass? then Prepend(x.sent, RunPlan(b, x.rest)) else x
    decreases |a|
  {
    if |a| == 0 {
      assert a + b == b;
      assert [] + RunPlan(b, input).sent == RunPlan(b, input).sent;
    } else {
      assert (a + b)[0] == a[0];
      assert (a + b)[1..] == a[1..] + b;
      RunPlanStep(a + b, input);
      RunPlanStep(a, input);
      var w := WriteChunk(a[0], input);
      if w.outcome.Pass? {
        RunPlanAppend(a[1..], b, w.rest);
        var y := RunPlan(a[1..], w.rest);
        if y.outcome.Pass? {
          assert w.sent + (y.sent + RunPlan(b, y.rest).sent) == (w.sent + y.sent) + RunPlan(b, y.rest).sent;
        }
      }
    }
  }

  /** `sent` holds, one for one, the Writes of the first chunks of `plan`. */
  ghost predicate WritesOfPrefix(sent: seq<Host2TargetMessage>, plan: seq<Chunk>)
  {
    |sent| <= |plan| &&
    forall i :: 0 <= i < |sent| ==>
      plan[i].address + |plan[i].data| <= U32_MAX && sent[i] == Write(plan[i].address, plan[i].data)
  }

  /** What was sent is always the Writes of a prefix of the plan, in plan
      order, and the whole plan when the upload passed. */
  lemma {:induction false} RunPlanSendsPrefix(plan: seq<Chunk>, input: seq<byte>)
    ensures WritesOfPrefix(RunPlan(plan, input).sent, plan)
    ensures RunPlan(plan, input).outcome.Pass? ==> |RunPlan(plan, input).sent| == |plan|
    decreases |plan|
  {
    if |plan| > 0 {
      var c := plan[0];
      var w := WriteChunk(c, input);
      WriteChunkSends(c, input);
      RunPlanStep(plan, input);
      if w.outcome.Pass? {
        RunPlanSendsPrefix(plan[1..], w.rest);
        var y := RunPlan(plan[1..], w.rest);
        assert RunPlan(plan, input) == Prepend([Write(c.address, c.data)], y);
        WritesOfPrefixCons(c, y.sent, plan);
      }
    }
  }

  lemma WritesOfPrefixCons(c: Chunk, sent: seq<Host2TargetMessage>, plan: seq<Chunk>)
    requires 0 < |plan| && plan[0] == c && c.address + |c.data| <= U32_MAX
    requires WritesOfPrefix(sent, plan[1..])
    ensures WritesOfPrefix([Write(c.address, c.data)] + sent, plan)
  {
    var all := [Write(c.address, c.data)] + sent;
    forall i | 0 <= i < |all|
      ensures plan[i].address + |plan[i].data| <= U32_MAX && all[i] == Write(plan[i].address, plan[i].data)
    {
      if i > 0 {
        assert all[i] == sent[i - 1];
        assert plan[1..][i - 1] == plan[i];
      }
    }
  }

  lemma WritesCons(c: Chunk, plan: seq<Chunk>)
    requires c.address + |c.data| <= U32_MAX && InAddressSpace(plan)
    ensures InAddressSpace([c] + plan)
    ensures Writes([c] + plan) == [Write(c.address, c.data)] + Writes(plan)
  {
    var all := [c] + plan;
    forall j | 0 <= j < |all| ensures all[j].address + |all[j].data| <= U32_MAX {
      if j > 0 { assert all[j] == plan[j - 1]; }
    }
    assert all[1..] == plan;
  }

  /** The first k reads of `input` each find a delimited frame that decodes
      to WriteOk, and `rest` is what they leave unread. */
  ghost predicate WriteOkFramesRead(input: seq<byte>, k: nat, rest: seq<byte>)
    decreases k
  {
    if k == 0 then input == rest
    else
      ReadFrame(input).Some? && DecodeTarget2Host(ReadFrame(input).value.0) == Some(WriteOk) &&
      WriteOkFramesRead(ReadFrame(input).value.1, k - 1, rest)
  }

  /** The converse of the acknowledged case: a loop that passed read, for
      each chunk, one frame that decoded to WriteOk, and nothing else. A
      missing, malformed or other response never lets the loop go on. */
  lemma {:induction false} PassMeansEveryWriteOk(plan: seq<Chunk>, input: seq<byte>)
    ensures RunPlan(plan, input).outcome.Pass? ==> WriteOkFramesRead(input, |plan|, RunPlan(plan, input).rest)
    decreases |plan|
  {
    if |plan| > 0 && RunPlan(plan, input).outcome.Pass? {
      RunPlanStep(plan, input);
      var w := WriteChunk(plan[0], input);
      PassedChunkReadWriteOk(plan[0], input);
      PassMeansEveryWriteOk(plan[1..], w.rest);
    }
  }

  /** A pass of one chunk read exactly one frame, and it decoded to WriteOk. */
  lemma PassedChunkReadWriteOk(c: Chunk, input: seq<byte>)
    requires WriteChunk(c, input).outcome.Pass?
    ensures ReadFrame(input).Some? && DecodeTarget2Host(ReadFrame(input).value.0) == Some(WriteOk)
    ensures WriteChunk(c, input).rest == ReadFrame(input).value.1
  {
    WriteChunkSpec(c, input);
  }

  /** Execute is sent at most once, last, and only after a Write for every
      chunk of every segment was acknowledged: one WriteOk frame was read
      per chunk. */
  lemma ExecuteOnlyAfterEveryWrite(segments: seq<Segment>, input: seq<byte>)
    ensures var x := UploadSpec(segments, input);
            (Execute in x.sent <==> x.outcome.Pass?) &&
            (x.outcome.Pass? ==>
               |x.sent| == |UploadPlan(segments)| + 1 && x.sent[|x.sent| - 1] == Execute &&
               WritesOfPrefix(x.sent[..|x.sent| - 1], UploadPlan(segments)))
    ensures var x := UploadSpec(segments, input);
            Execute in x.sent ==> WriteOkFramesRead(input, |UploadPlan(segments)|, x.rest)
  {
    var plan := UploadPlan(segments);
    RunPlanSendsPrefix(plan, input);
    PassMeansEveryWriteOk(plan, input);
    var y := RunPlan(plan, input);
    ControlFrameFits(Execute);
    assert Execute !in y.sent by {
      assert forall i :: 0 <= i < |y.sent| ==> y.sent[i] != Execute;
    }
    if y.outcome.Pass? {
      assert (y.sent + [Execute])[..|y.sent|] == y.sent;
    }
  }

  /** The response frame of one acknowledged Write. */
  function WriteOkFrames(k: nat): seq<byte>
  {
    Repeat(EncodeTarget2Host(WriteOk), k)
  }

  /** Chunks the cursor can address and whose Writes fit the frame buffer. */
  ghost predicate Sendable(plan: seq<Chunk>)
  {
    InAddressSpace(plan) && forall k :: 0 <= k < |plan| ==> |plan[k].data| <= POSTCARD_PAYLOAD_SIZE
  }

  lemma SendableTail(plan: seq<Chunk>)
    requires Sendable(plan) && 0 < |plan|
    ensures Sendable(plan[1..])
    ensures plan[0].address + |plan[0].data| <= U32_MAX && |plan[0].data| <= POSTCARD_PAYLOAD_SIZE
    ensures Writes(plan) == [Write(plan[0].address, plan[0].data)] + Writes(plan[1..])
  {
    var tail := plan[1..];
    forall j | 0 <= j < |tail|
      ensures tail[j].address + |tail[j].data| <= U32_MAX && |tail[j].data| <= POSTCARD_PAYLOAD_SIZE
    {
      assert tail[j] == plan[j + 1];
    }
  }

  /** A chunk that is sent and answered with WriteOk moves the loop on to
      the next chunk, with the input after that response. */
  lemma RunPlanAcknowledged(plan: seq<Chunk>, input: seq<byte>, tail: seq<byte>)
    requires Sendable(plan) && 0 < |plan|
    requires Respond(input) == Reply(Ok(WriteOk), tail)
    ensures RunPlan(plan, input) == Prepend([Write(plan[0].address, plan[0].data)], RunPlan(plan[1..], tail))
  {
    SendableTail(plan);
    RunPlanStep(plan, input);
    WriteChunkAnsweredWith(plan[0], input, Ok(WriteOk), tail);
  }

  /** A chunk that is sent and answered otherwise ends the loop there. */
  lemma RunPlanRejected(plan: seq<Chunk>, input: seq<byte>, response: Target2HostMessage, tail: seq<byte>)
    requires Sendable(plan) && 0 < |plan| && response != WriteOk
    requires Respond(input) == Reply(Ok(response), tail)
    ensures RunPlan(plan, input) == Exchange([Write(plan[0].address, plan[0].data)], Fail(WriteRejected(response)), tail)
  {
    SendableTail(plan);
    RunPlanStep(plan, input);
    WriteChunkAnsweredWith(plan[0], input, Ok(response), tail);
  }

  /** Bytes the host reads as one WriteOk response, whatever follows them. */
  ghost predicate Acknowledges(ack: seq<byte>)
  {
    forall t :: AcknowledgedBy(ack, t)
  }

  ghost predicate AcknowledgedBy(ack: seq<byte>, t: seq<byte>)
  {
    Respond(ack + t) == Reply(Ok(WriteOk), t)
  }

  lemma WriteOkFrameAcknowledges()
    ensures Acknowledges(EncodeTarget2Host(WriteOk))
  {
    forall t ensures AcknowledgedBy(EncodeTarget2Host(WriteOk), t) {
      RespondToFrame(WriteOk, t);
    }
  }

  lemma {:induction false} AcknowledgedPlanPassesWith(plan: seq<Chunk>, ack: seq<byte>, rest: seq<byte>)
    requires Sendable(plan) && Acknowledges(ack)
    ensures RunPlan(plan, Repeat(ack, |plan|) + rest) == Exchange(Writes(plan), Pass, rest)
    decreases |plan|
  {
    if |plan| == 0 {
      assert Repeat(ack, 0) + rest == rest;
    } else {
      SendableTail(plan);
      AcknowledgedPlanPassesWith(plan[1..], ack, rest);
      AcknowledgedStep(plan, ack, Repeat(ack, |plan| - 1) + rest, rest);
    }
  }

  lemma AcknowledgedStep(plan: seq<Chunk>, ack: seq<byte>, tail: seq<byte>, rest: seq<byte>)
    requires Sendable(plan) && 0 < |plan| && Acknowledges(ack)
    requires tail == Repeat(ack, |plan| - 1) + rest
    requires RunPlan(plan[1..], tail) == Exchange(Writes(plan[1..]), Pass, rest)
    ensures RunPlan(plan, Repeat(ack, |plan|) + rest) == Exchange(Writes(plan), Pass, rest)
  {
    RepeatFront(ack, |plan|);
    var input := ack + tail;
    assert Repeat(ack, |plan|) + rest == input;
    assert AcknowledgedBy(ack, tail);
    RunPlanAcknowledged(plan, input, tail);
    SendableTail(plan);
  }

  /** When the target acknowledges every Write, every chunk is written and
      exactly one response is read per chunk. */
  lemma AcknowledgedPlanPasses(plan: seq<Chunk>, rest: seq<byte>)
    requires Sendable(plan)
    ensures RunPlan(plan, WriteOkFrames(|plan|) + rest) == Exchange(Writes(plan), Pass, rest)
  {
    WriteOkFrameAcknowledges();
    AcknowledgedPlanPassesWith(plan, EncodeTarget2Host(WriteOk), rest);
  }

  /** The first response that is not WriteOk ends the upload right after its
      Write: the chunks before it were written, nothing after it is. */
  lemma FirstRejectionAborts(plan: seq<Chunk>, k: nat, response: Target2HostMessage, rest: seq<byte>)
    requires Sendable(plan) && k < |plan| && response != WriteOk
    ensures RunPlan(plan, WriteOkFrames(k) + EncodeTarget2Host(response) + rest) ==
              Exchange(Writes(plan[..k + 1]), Fail(WriteRejected(response)), rest)
  {
    var ack, input := EncodeTarget2Host(WriteOk), EncodeTarget2Host(response) + rest;
    assert WriteOkFrames(k) + EncodeTarget2Host(response) + rest == Repeat(ack, k) + input;
    assert Respond(input) == Reply(Ok(response), rest) by {
      RespondToFrame(response, rest);
    }
    WriteOkFrameAcknowledges();
    RejectedAfter(plan, ack, k, response, input, rest);
  }

  lemma {:induction false} RejectedAfter(plan: seq<Chunk>, ack: seq<byte>, k: nat, response: Target2HostMessage,
                                         input: seq<byte>, rest: seq<byte>)
    requires Sendable(plan) && Acknowledges(ack) && k < |plan| && response != WriteOk
    requires Respond(input) == Reply(Ok(response), rest)
    ensures InAddressSpace(plan[..k + 1])
    ensures RunPlan(plan, Repeat(ack, k) + input) == Exchange(Writes(plan[..k + 1]), Fail(WriteRejected(response)), rest)
    decreases k
  {
    SendableTail(plan);
    if k == 0 {
      assert Repeat(ack, 0) + input == input;
      RunPlanRejected(plan, input, response, rest);
      assert plan[..1] == [plan[0]] + [];
      WritesCons(plan[0], []);
    } else {
      var tail := Repeat(ack, k - 1) + input;
      RepeatFront(ack, k);
      assert Repeat(ack, k) + input == ack + tail;
      assert AcknowledgedBy(ack, tail);
      RejectedAfter(plan[1..], ack, k - 1, response, input, rest);
      RejectedStep(plan, k, ack + tail, tail, response, rest);
    }
  }

  lemma RejectedStep(plan: seq<Chunk>, k: nat, input: seq<byte>, tail: seq<byte>,
                     response: Target2HostMessage, rest: seq<byte>)
    requires Sendable(plan) && 0 < k < |plan| && response != WriteOk
    requires Respond(input) == Reply(Ok(WriteOk), tail)
    requires InAddressSpace(plan[1..][..k])
    requires RunPlan(plan[1..], tail) == Exchange(Writes(plan[1..][..k]), Fail(WriteRejected(response)), rest)
    ensures InAddressSpace(plan[..k + 1])
    ensures RunPlan(plan, input) == Exchange(Writes(plan[..k + 1]), Fail(WriteRejected(response)), rest)
  {
    SendableTail(plan);
    var first := Write(plan[0].address, plan[0].data);
    assert RunPlan(plan, input) == Prepend([first], RunPlan(plan[1..], tail)) by {
      RunPlanAcknowledged(plan, input, tail);
    }
    assert InAddressSpace(plan[..k + 1]) && Writes(plan[..k + 1]) == [first] + Writes(plan[1..][..k]) by {
      assert plan[..k + 1] == [plan[0]] + plan[1..][..k];
      WritesCons(plan[0], plan[1..][..k]);
    }
  }

  /** Segments whose bytes all lie at or below U32_MAX. */
  ghost predicate SegmentsFit(segments: seq<Segment>)
  {
    forall k :: 0 <= k < |segments| ==> segments[k].startAddress + |segments[k].data| <= U32_MAX
  }

  lemma SendableAppend(a: seq<Chunk>, b: seq<Chunk>)
    requires Sendable(a) && Sendable(b)
    ensures Sendable(a + b)
  {
    var all := a + b;
    forall k | 0 <= k < |all|
      ensures all[k].address + |all[k].data| <= U32_MAX && |all[k].data| <= POSTCARD_PAYLOAD_SIZE
    {
      if k >= |a| { assert all[k] == b[k - |a|]; }
    }
  }

  /** The chunks of one segment that fits can all be sent. */
  lemma SegmentSendable(segment: Segment)
    requires segment.startAddress + |segment.data| <= U32_MAX
    ensures Sendable(SegmentChunks(segment))
  {
    var chunks := SegmentChunks(segment);
    ChunksFitAddressSpace(segment.startAddress, segment.data);
    ChunkSizes(segment.startAddress, segment.data);
    forall k | 0 <= k < |chunks| ensures |chunks[k].data| <= POSTCARD_PAYLOAD_SIZE {
      assert chunks[k] in chunks;
    }
  }

  /** When every segment fits the address space, every chunk of the upload
      plan can be addressed by the cursor and encoded into one frame. */
  lemma {:induction false} UploadPlanSendable(segments: seq<Segment>)
    requires SegmentsFit(segments)
    ensures Sendable(UploadPlan(segments))
    decreases |segments|
  {
    if |segments| > 0 {
      var front, last := segments[..|segments| - 1], segments[|segments| - 1];
      assert SegmentsFit(front) by {
        forall k | 0 <= k < |front| ensures front[k].startAddress + |front[k].data| <= U32_MAX {
          assert front[k] == segments[k];
        }
      }
      UploadPlanSendable(front);
      SegmentSendable(last);
      SendableAppend(UploadPlan(front), SegmentChunks(last));
    }
  }

  /** A target that acknowledges every Write receives the Writes of every
      chunk of every segment, in order, followed by Execute, and the upload
      reads exactly one response per Write. */
  lemma AcknowledgedUploadExecutes(segments: seq<Segment>, rest: seq<byte>)
    requires SegmentsFit(segments)
    ensures var plan := UploadPlan(segments);
            Sendable(plan) &&
            UploadSpec(segments, WriteOkFrames(|plan|) + rest) == Exchange(Writes(plan) + [Execute], Pass, rest)
  {
    var plan := UploadPlan(segments);
    UploadPlanSendable(segments);
    AcknowledgedPlanPasses(plan, rest);
    ControlFrameFits(Execute);
  }

  /** A file with a loadable header whose bytes are missing sends nothing
      and reads nothing. */
  lemma MissingSegmentSendsNothing(headers: seq<ProgramHeader>, file: seq<byte>, input: seq<byte>)
    requires !AllLoadableHaveData(headers, file)
    ensures LoadSpec(headers, file, input) == Exchange([], Fail(SegmentDataUnavailable), input)
  {
    ExtractSegmentsSpec(headers, file);
  }
}
