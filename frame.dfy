/** The frame codec both ends use: a message is serialized (a variant tag,
    then its fields in declaration order, integers and lengths as LEB128
    varints, byte slices as length + bytes), the serialization is stuffed with
    Consistent Overhead Byte Stuffing (COBS) so that it holds no zero byte,
    and one zero byte (COBS_DELIMITER) terminates the frame.

    Everything the receiver loop and the uploader rely on is stated here as
    lemmas: a frame ends with the delimiter and holds no other one, decoding
    a frame gives back the message, decoding arbitrary bytes may fail, and a
    Write with a full payload fits into a POSTCARD_BUFFER_SIZE frame. */
module Frame {
  import opened Common

  /** A u32 takes at most this many varint bytes. */
  const VARINT_MAX_U32: nat := 5

  /** Longest run of data bytes one COBS block carries. */
  const COBS_MAX_RUN: nat := 254

  datatype CodecError = BufferTooSmall

  // ---------------------------------------------------------------------------
  // Varints

  function Pow128(k: nat): nat
  {
    if k == 0 then 1 else 128 * Pow128(k - 1)
  }

  /** LEB128: seven bits per byte, least significant group first; every byte
      but the last has its top bit set. */
  function Varint(x: nat): (r: seq<byte>)
    ensures 1 <= |r|
    decreases x
  {
    if x < 128 then [x as byte] else [(x % 128 + 128) as byte] + Varint(x / 128)
  }

  /** Reads one varint of at most `budget` bytes from the front of `s`;
      returns the value and the bytes after it. */
  function TakeVarint(s: seq<byte>, budget: nat): Option<(nat, seq<byte>)>
    decreases budget
  {
    if budget == 0 || |s| == 0 then None
    else if s[0] < 128 then Some((s[0] as nat, s[1..]))
    else
      match TakeVarint(s[1..], budget - 1)
      case None => None
      case Some((v, rest)) => Some((s[0] as nat - 128 + 128 * v, rest))
  }

  /** Reads a u32 varint: at most five bytes, and the value must fit. */
  function TakeU32(s: seq<byte>): Option<(u32, seq<byte>)>
  {
    match TakeVarint(s, VARINT_MAX_U32)
    case None => None
    case Some((v, rest)) => if v <= U32_MAX then Some((v, rest)) else None
  }

  lemma {:induction false} VarintLength(x: nat, k: nat)
    requires 1 <= k && x < Pow128(k)
    ensures |Varint(x)| <= k
    decreases k
  {
    if x >= 128 {
      assert k > 1;
      assert x / 128 < Pow128(k - 1);
      VarintLength(x / 128, k - 1);
    }
  }

  /** A u32 is written in at most five bytes. */
  lemma VarintLengthU32(x: u32)
    ensures |Varint(x)| <= VARINT_MAX_U32
  {
    assert Pow128(5) == 34359738368;
    VarintLength(x, 5);
  }

  lemma {:induction false} TakeVarintRoundTrip(x: nat, rest: seq<byte>, budget: nat)
    requires |Varint(x)| <= budget
    ensures TakeVarint(Varint(x) + rest, budget) == Some((x, rest))
    decreases x
  {
    var s := Varint(x) + rest;
    if x < 128 {
      assert s[1..] == rest;
    } else {
      assert s[1..] == Varint(x / 128) + rest;
      TakeVarintRoundTrip(x / 128, rest, budget - 1);
    }
  }

  /** Reading a u32 back from its varint gives the value and the bytes after it. */
  lemma TakeU32RoundTrip(x: u32, rest: seq<byte>)
    ensures TakeU32(Varint(x) + rest) == Some((x, rest))
  {
    VarintLengthU32(x);
    TakeVarintRoundTrip(x, rest, VARINT_MAX_U32);
  }

  // ---------------------------------------------------------------------------
  // Serialization of the two message types

  function SerializeHost2Target(m: Host2TargetMessage): seq<byte>
  {
    match m
    case Ping => Varint(0)
    case Write(address, data) => Varint(1) + Varint(address) + Varint(|data|) + data
    case Execute => Varint(2)
  }

  /** Like the deserializer of the source's serialization library, bytes after
      the message are ignored. */
  function DeserializeHost2Target(s: seq<byte>): Option<Host2TargetMessage>
  {
    match TakeU32(s)
    case None => None
    case Some((tag, body)) =>
      if tag == 0 then Some(Ping)
      else if tag == 1 then
        (match TakeU32(body)
         case None => None
         case Some((address, afterAddress)) =>
           match TakeU32(afterAddress)
           case None => None
           case Some((len, data)) =>
             if len <= |data| then Some(Write(address, data[..len])) else None)
      else if tag == 2 then Some(Execute)
      else None
  }

  function SerializeTarget2Host(m: Target2HostMessage): seq<byte>
  {
    match m
    case InvalidAddress => Varint(0)
    case Pong => Varint(1)
    case WriteOk => Varint(2)
  }

  function DeserializeTarget2Host(s: seq<byte>): Option<Target2HostMessage>
  {
    match TakeU32(s)
    case None => None
    case Some((tag, _)) =>
      if tag == 0 then Some(InvalidAddress)
      else if tag == 1 then Some(Pong)
      else if tag == 2 then Some(WriteOk)
      else None
  }

  /** A message whose length field fits the u32 the target reads it as. */
  predicate Encodable(m: Host2TargetMessage)
  {
    m.Write? ==> |m.data| <= U32_MAX
  }

  lemma SerializeHost2TargetRoundTrip(m: Host2TargetMessage)
    requires Encodable(m)
    ensures DeserializeHost2Target(SerializeHost2Target(m)) == Some(m)
  {
    match m
    case Ping =>
      TakeU32RoundTrip(0, []);
      assert Varint(0) + [] == Varint(0);
    case Execute =>
      TakeU32RoundTrip(2, []);
      assert Varint(2) + [] == Varint(2);
    case Write(address, data) =>
      var s := SerializeHost2Target(m);
      var afterTag := Varint(address) + Varint(|data|) + data;
      var afterAddress := Varint(|data|) + data;
      assert s == Varint(1) + afterTag;
      assert afterTag == Varint(address) + afterAddress;
      TakeU32RoundTrip(1, afterTag);
      TakeU32RoundTrip(address, afterAddress);
      TakeU32RoundTrip(|data|, data);
      assert data[..|data|] == data;
  }

  lemma SerializeTarget2HostRoundTrip(m: Target2HostMessage)
    ensures DeserializeTarget2Host(SerializeTarget2Host(m)) == Some(m)
  {
    var s := SerializeTarget2Host(m);
    var tag := if m.InvalidAddress? then 0 else if m.Pong? then 1 else 2;
    assert s == Varint(tag) + [];
    TakeU32RoundTrip(tag, []);
  }

  // ---------------------------------------------------------------------------
  // COBS

  /** Number of non-zero bytes at the front of `s`, at most `limit`. */
  function RunLength(s: seq<byte>, limit: nat): (n: nat)
    ensures n <= limit && n <= |s|
    decreases limit
  {
    if limit == 0 || |s| == 0 || s[0] == 0 then 0 else 1 + RunLength(s[1..], limit - 1)
  }

  /** The run is made of non-zero bytes, and stops early only at a zero. */
  lemma {:induction false} RunLengthStops(s: seq<byte>, limit: nat)
    ensures forall i :: 0 <= i < RunLength(s, limit) ==> s[i] != 0
    ensures RunLength(s, limit) < limit && RunLength(s, limit) < |s| ==> s[RunLength(s, limit)] == 0
    decreases limit
  {
    if limit > 0 && |s| > 0 && s[0] != 0 {
      RunLengthStops(s[1..], limit - 1);
    }
  }

  /** Each block is a code byte k followed by k - 1 data bytes. A code below
      255 stands for its data followed by a zero (except in the last block);
      code 255 carries 254 data bytes and no zero. */
  function CobsEncode(s: seq<byte>): (r: seq<byte>)
    ensures 1 <= |r|
    decreases |s|
  {
    var n := RunLength(s, COBS_MAX_RUN);
    if n == COBS_MAX_RUN then [255] + s[..n] + CobsEncode(s[n..])
    else if n < |s| then [(n + 1) as byte] + s[..n] + CobsEncode(s[n + 1..])
    else [(n + 1) as byte] + s
  }

  /** The three shapes of CobsEncode(s), by the run at its front. */
  lemma CobsEncodeUnfold(s: seq<byte>, n: nat)
    requires n == RunLength(s, COBS_MAX_RUN)
    ensures n == COBS_MAX_RUN ==> CobsEncode(s) == [255] + s[..n] + CobsEncode(s[n..])
    ensures n < COBS_MAX_RUN && n < |s| ==> CobsEncode(s) == [(n + 1) as byte] + s[..n] + CobsEncode(s[n + 1..])
    ensures n < COBS_MAX_RUN && n == |s| ==> CobsEncode(s) == [(n + 1) as byte] + s
  {
    if n == COBS_MAX_RUN {
      CobsEncodeFullRun(s, n);
    } else if n < |s| {
      CobsEncodeZeroRun(s, n);
    } else {
      CobsEncodeLastRun(s, n);
    }
  }

  lemma CobsEncodeFullRun(s: seq<byte>, n: nat)
    requires n == RunLength(s, COBS_MAX_RUN) && n == COBS_MAX_RUN
    ensures CobsEncode(s) == [255] + s[..n] + CobsEncode(s[n..])
  {
  }

  lemma CobsEncodeZeroRun(s: seq<byte>, n: nat)
    requires n == RunLength(s, COBS_MAX_RUN) && n < COBS_MAX_RUN && n < |s|
    ensures CobsEncode(s) == [(n + 1) as byte] + s[..n] + CobsEncode(s[n + 1..])
  {
  }

  lemma CobsEncodeLastRun(s: seq<byte>, n: nat)
    requires n == RunLength(s, COBS_MAX_RUN) && n < COBS_MAX_RUN && n == |s|
    ensures CobsEncode(s) == [(n + 1) as byte] + s
  {
  }

  /** The stuffed bytes hold no delimiter. */
  lemma {:induction false} CobsNoDelimiter(s: seq<byte>)
    ensures COBS_DELIMITER !in CobsEncode(s)
    decreases |s|
  {
    var n := RunLength(s, COBS_MAX_RUN);
    if n == COBS_MAX_RUN {
      CobsNoDelimiter(s[n..]);
      NoDelimiterInBlock(s, n, s[n..]);
    } else if n < |s| {
      CobsNoDelimiter(s[n + 1..]);
      NoDelimiterInBlock(s, n, s[n + 1..]);
    } else {
      NoDelimiterInBlock(s, n, []);
    }
  }

  /** One step of CobsNoDelimiter: the first block holds no delimiter, and
      neither does the encoding of what follows it. */
  lemma NoDelimiterInBlock(s: seq<byte>, n: nat, after: seq<byte>)
    requires n == RunLength(s, COBS_MAX_RUN)
    requires n == COBS_MAX_RUN ==> after == s[n..]
    requires n < COBS_MAX_RUN && n < |s| ==> after == s[n + 1..]
    requires n < |s| ==> COBS_DELIMITER !in CobsEncode(after)
    ensures COBS_DELIMITER !in CobsEncode(s)
  {
    CobsEncodeUnfold(s, n);
    RunHasNoDelimiter(s, n);
    if n == |s| {
      assert s[..n] == s;
    }
  }

  /** Fails on a zero code, a block running past the end, or a zero data byte. */
  function CobsDecode(c: seq<byte>): Option<seq<byte>>
    decreases |c|
  {
    if |c| == 0 then None
    else
      var code := c[0];
      if code == 0 || code as int > |c| then None
      else
        var data, rest := c[1..code], c[code..];
        if COBS_DELIMITER in data then None
        else if |rest| == 0 then Some(data)
        else
          match CobsDecode(rest)
          case None => None
          case Some(tail) => Some(if code == 255 then data + tail else data + [0] + tail)
  }

  /** Splitting a sequence at a zero byte and gluing it back with that zero. */
  lemma SplitAtZero(s: seq<byte>, n: nat)
    requires n < |s| && s[n] == 0
    ensures s[..n] + [0] + s[n + 1..] == s
  {
    assert s == s[..n] + [s[n]] + s[n + 1..];
  }

  /** The run at the front of `s` holds no delimiter. */
  lemma RunHasNoDelimiter(s: seq<byte>, n: nat)
    requires n == RunLength(s, COBS_MAX_RUN)
    ensures COBS_DELIMITER !in s[..n]
  {
    RunLengthStops(s, COBS_MAX_RUN);
    var run := s[..n];
    forall i | 0 <= i < |run| ensures run[i] != 0 { assert run[i] == s[i]; }
  }

  /** Decoding a block that is followed by more blocks. */
  lemma CobsDecodeBlock(code: byte, data: seq<byte>, rest: seq<byte>)
    requires 1 <= code && |data| == code as int - 1 && COBS_DELIMITER !in data && |rest| > 0
    ensures CobsDecode([code] + data + rest) ==
              match CobsDecode(rest)
              case None => None
              case Some(tail) => Some(if code == 255 then data + tail else data + [0] + tail)
  {
    var c := [code] + data + rest;
    assert c[1..code] == data;
    assert c[code..] == rest;
  }

  /** Decoding the last block. */
  lemma CobsDecodeLastBlock(code: byte, data: seq<byte>)
    requires 1 <= code && |data| == code as int - 1 && COBS_DELIMITER !in data
    ensures CobsDecode([code] + data) == Some(data)
  {
    var c := [code] + data;
    assert c[1..code] == data;
    assert c[code..] == [];
  }

  lemma {:induction false} CobsRoundTrip(s: seq<byte>)
    ensures CobsDecode(CobsEncode(s)) == Some(s)
    decreases |s|
  {
    var n := RunLength(s, COBS_MAX_RUN);
    if n == COBS_MAX_RUN {
      CobsRoundTrip(s[n..]);
      RoundTripFullBlock(s, n);
    } else if n < |s| {
      CobsRoundTrip(s[n + 1..]);
      RoundTripZeroBlock(s, n);
    } else {
      CobsEncodeUnfold(s, n);
      RunHasNoDelimiter(s, n);
      assert s[..n] == s;
      CobsDecodeLastBlock((n + 1) as byte, s);
    }
  }

  /** Step of CobsRoundTrip for a block of 254 non-zero bytes. */
  lemma RoundTripFullBlock(s: seq<byte>, n: nat)
    requires n == RunLength(s, COBS_MAX_RUN) == COBS_MAX_RUN
    requires CobsDecode(CobsEncode(s[n..])) == Some(s[n..])
    ensures CobsDecode(CobsEncode(s)) == Some(s)
  {
    CobsEncodeUnfold(s, n);
    RunHasNoDelimiter(s, n);
    CobsDecodeBlock(255, s[..n], CobsEncode(s[n..]));
    assert s[..n] + s[n..] == s;
  }

  /** Step of CobsRoundTrip for a block that ends at a zero byte. */
  lemma RoundTripZeroBlock(s: seq<byte>, n: nat)
    requires n == RunLength(s, COBS_MAX_RUN) && n < COBS_MAX_RUN && n < |s|
    requires CobsDecode(CobsEncode(s[n + 1..])) == Some(s[n + 1..])
    ensures CobsDecode(CobsEncode(s)) == Some(s)
  {
    CobsEncodeUnfold(s, n);
    RunHasNoDelimiter(s, n);
    RunLengthStops(s, COBS_MAX_RUN);
    CobsDecodeBlock((n + 1) as byte, s[..n], CobsEncode(s[n + 1..]));
    SplitAtZero(s, n);
  }

  /** Below one full run, COBS adds exactly one byte. */
  lemma {:induction false} CobsLengthShort(s: seq<byte>)
    requires |s| < COBS_MAX_RUN
    ensures |CobsEncode(s)| == |s| + 1
    decreases |s|
  {
    var n := RunLength(s, COBS_MAX_RUN);
    CobsEncodeUnfold(s, n);
    if n < |s| {
      CobsLengthShort(s[n + 1..]);
    }
  }

  // ---------------------------------------------------------------------------
  // Frames

  /** The stuffed payload followed by the delimiter. */
  function EncodeFrame(payload: seq<byte>): (f: seq<byte>)
    ensures 2 <= |f| && f[|f| - 1] == COBS_DELIMITER
    ensures COBS_DELIMITER !in f[..|f| - 1]
  {
    var stuffed := CobsEncode(payload);
    CobsNoDelimiter(payload);
    assert (stuffed + [COBS_DELIMITER])[..|stuffed|] == stuffed;
    stuffed + [COBS_DELIMITER]
  }

  /** Unstuffs a buffer that ends with the delimiter; anything else is rejected. */
  function DecodeFrame(buffer: seq<byte>): Option<seq<byte>>
  {
    if |buffer| > 0 && buffer[|buffer| - 1] == COBS_DELIMITER then CobsDecode(buffer[..|buffer| - 1])
    else None
  }

  lemma FrameRoundTrip(payload: seq<byte>)
    ensures DecodeFrame(EncodeFrame(payload)) == Some(payload)
  {
    var f := EncodeFrame(payload);
    assert f[..|f| - 1] == CobsEncode(payload);
    CobsRoundTrip(payload);
  }

  function EncodeHost2Target(m: Host2TargetMessage): seq<byte>
  {
    EncodeFrame(SerializeHost2Target(m))
  }

  function DecodeHost2Target(buffer: seq<byte>): Option<Host2TargetMessage>
  {
    match DecodeFrame(buffer)
    case None => None
    case Some(payload) => DeserializeHost2Target(payload)
  }

  function EncodeTarget2Host(m: Target2HostMessage): seq<byte>
  {
    EncodeFrame(SerializeTarget2Host(m))
  }

  function DecodeTarget2Host(buffer: seq<byte>): Option<Target2HostMessage>
  {
    match DecodeFrame(buffer)
    case None => None
    case Some(payload) => DeserializeTarget2Host(payload)
  }

  /** Encoding into a frame buffer of `capacity` bytes, which fails when the
      frame does not fit. */
  function ToVecCobsHost2Target(m: Host2TargetMessage, capacity: nat): Result<seq<byte>, CodecError>
  {
    var f := EncodeHost2Target(m);
    if |f| <= capacity then Ok(f) else Err(BufferTooSmall)
  }

  function ToVecCobsTarget2Host(m: Target2HostMessage, capacity: nat): Result<seq<byte>, CodecError>
  {
    var f := EncodeTarget2Host(m);
    if |f| <= capacity then Ok(f) else Err(BufferTooSmall)
  }

  // ---------------------------------------------------------------------------
  // Properties of frames

  /** Decoding a request frame gives back the request. */
  lemma Host2TargetFrameRoundTrip(m: Host2TargetMessage)
    requires Encodable(m)
    ensures DecodeHost2Target(EncodeHost2Target(m)) == Some(m)
  {
    FrameRoundTrip(SerializeHost2Target(m));
    SerializeHost2TargetRoundTrip(m);
  }

  /** Decoding a response frame gives back the response. */
  lemma Target2HostFrameRoundTrip(m: Target2HostMessage)
    ensures DecodeTarget2Host(EncodeTarget2Host(m)) == Some(m)
  {
    FrameRoundTrip(SerializeTarget2Host(m));
    SerializeTarget2HostRoundTrip(m);
  }

  /** Every response frame is three bytes, so encoding one into a
      POSTCARD_BUFFER_SIZE buffer never fails. */
  lemma Target2HostFrameFits(m: Target2HostMessage)
    ensures |EncodeTarget2Host(m)| == 3
    ensures ToVecCobsTarget2Host(m, POSTCARD_BUFFER_SIZE) == Ok(EncodeTarget2Host(m))
  {
    CobsLengthShort(SerializeTarget2Host(m));
  }

  /** A Write carrying at most POSTCARD_PAYLOAD_SIZE bytes, whatever its
      address, is encoded without error into a POSTCARD_BUFFER_SIZE buffer;
      the payload size is below the buffer size. */
  lemma WritePayloadFitsInBuffer(address: u32, data: seq<byte>)
    requires |data| <= POSTCARD_PAYLOAD_SIZE
    ensures POSTCARD_PAYLOAD_SIZE < POSTCARD_BUFFER_SIZE
    ensures |EncodeHost2Target(Write(address, data))| <= 2 * VARINT_MAX_U32 + POSTCARD_PAYLOAD_SIZE
    ensures ToVecCobsHost2Target(Write(address, data), POSTCARD_BUFFER_SIZE).Ok?
  {
    VarintLengthU32(address);
    var s := SerializeHost2Target(Write(address, data));
    assert |s| <= 1 + VARINT_MAX_U32 + 1 + POSTCARD_PAYLOAD_SIZE;
    CobsLengthShort(s);
  }

  /** The control requests (Ping, Execute) are three-byte frames. */
  lemma ControlFrameFits(m: Host2TargetMessage)
    requires !m.Write?
    ensures |EncodeHost2Target(m)| == 3
    ensures ToVecCobsHost2Target(m, POSTCARD_BUFFER_SIZE) == Ok(EncodeHost2Target(m))
  {
    CobsLengthShort(SerializeHost2Target(m));
  }
}
