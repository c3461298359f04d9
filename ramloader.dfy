/** The resident loader on the target: a byte-at-a-time receive loop that
    collects a frame in a fixed-capacity buffer, decodes it when the
    delimiter arrives, answers a Ping with a Pong and clears the buffer; and
    `launch_program`, which copies a vector table and a text section into RAM
    and points VTOR at them. */
module Ramloader {
  import opened Common
  import opened Frame

  /** Capacity of the receive buffer (`Vec::<_, 256>`). */
  const RX_CAPACITY: nat := 256

  /** The `unwrap`s of the receive loop: each one stops the loader. */
  datatype Fault =
    | BufferFull        // `push` into a full buffer
    | MalformedFrame    // `from_bytes_cobs` rejects the buffer
    | ResponseTooLarge  // `to_vec_cobs` of the Pong fails

  /** What the receive loop has: the bytes of the frame in progress and
      every write made to the UART so far, oldest first. */
  datatype LoaderState = LoaderState(pending: seq<byte>, writes: seq<seq<byte>>)

  /** The loader right after reset. */
  const Init := LoaderState([], [])

  /** The target's request type has only Ping and Write; the tag the host
      uses for Execute does not decode into it. */
  function DecodeRequest(buffer: seq<byte>): (r: Option<Host2TargetMessage>)
    ensures r.Some? ==> !r.value.Execute? && DecodeHost2Target(buffer) == r
    ensures DecodeHost2Target(buffer).Some? && !DecodeHost2Target(buffer).value.Execute? ==> r.Some?
  {
    match DecodeHost2Target(buffer)
    case None => None
    case Some(m) => if m.Execute? then None else Some(m)
  }

  /** The target decodes a frame exactly as the host encoded it, as long as
      the request is one it knows: a Ping or a Write comes back unchanged,
      and the Execute the host encodes does not decode at all. */
  lemma DecodeRequestOfFrame(m: Host2TargetMessage)
    requires Encodable(m)
    ensures DecodeRequest(EncodeHost2Target(m)) == if m.Execute? then None else Some(m)
  {
    Host2TargetFrameRoundTrip(m);
  }

  /** The `match` on a decoded request: a Ping is answered with one write of
      the encoded Pong. The source's match has no arm for Write and so does
      not compile; the model completes it with a Write arm that answers
      nothing. */
  function Dispatch(m: Host2TargetMessage): Result<seq<seq<byte>>, Fault>
  {
    match m
    case Ping =>
      (match ToVecCobsTarget2Host(Pong, POSTCARD_BUFFER_SIZE)
       case Ok(frame) => Ok([frame])
       case Err(_) => Err(ResponseTooLarge))
    case _ => Ok([])
  }

  /** One pass of the receive loop for the byte `b`: push it (a full buffer
      is fatal, even when `b` is the delimiter), and when it is the
      delimiter, decode the buffer, dispatch the request and clear the
      buffer. */
  function Step(s: LoaderState, b: byte): Result<LoaderState, Fault>
  {
    if |s.pending| >= RX_CAPACITY then Err(BufferFull)
    else
      var frame := s.pending + [b];
      if b != COBS_DELIMITER then Ok(LoaderState(frame, s.writes))
      else
        match DecodeRequest(frame)
        case None => Err(MalformedFrame)
        case Some(m) =>
          match Dispatch(m)
          case Err(f) => Err(f)
          case Ok(out) => Ok(LoaderState([], s.writes + out))
  }

  /** The receive loop over the bytes `input`, in arrival order, stopping at
      the first fault. */
  function Feed(s: LoaderState, input: seq<byte>): Result<LoaderState, Fault>
    decreases |input|
  {
    if |input| == 0 then Ok(s)
    else
      match Feed(s, input[..|input| - 1])
      case Err(f) => Err(f)
      case Ok(t) => Step(t, input[|input| - 1])
  }

  /** A frame in progress: within capacity and without a delimiter. */
  ghost predicate WellFormed(s: LoaderState)
  {
    |s.pending| <= RX_CAPACITY && COBS_DELIMITER !in s.pending
  }

  /** The bytes received after the last delimiter (all of them when there
      is none). */
  function SinceLastDelimiter(input: seq<byte>): seq<byte>
    decreases |input|
  {
    if |input| == 0 then []
    else if input[|input| - 1] == COBS_DELIMITER then []
    else SinceLastDelimiter(input[..|input| - 1]) + [input[|input| - 1]]
  }

  // ---------------------------------------------------------------------------
  // Properties of the receive loop

  lemma FeedLast(s: LoaderState, input: seq<byte>, b: byte)
    ensures Feed(s, input + [b]) ==
              match Feed(s, input)
              case Err(f) => Err(f)
              case Ok(t) => Step(t, b)
  {
    assert (input + [b])[..|input|] == input;
  }

  /** Feeding two runs of bytes is feeding the first, then the second. */
  lemma {:induction false} FeedAppend(s: LoaderState, a: seq<byte>, b: seq<byte>)
    ensures Feed(s, a + b) ==
              match Feed(s, a)
              case Err(f) => Err(f)
              case Ok(t) => Feed(t, b)
    decreases |b|
  {
    if |b| == 0 {
      assert a + b == a;
    } else {
      var init, last := b[..|b| - 1], b[|b| - 1];
      assert a + b == (a + init) + [last];
      assert b == init + [last];
      FeedLast(s, a + init, last);
      FeedAppend(s, a, init);
      match Feed(s, a)
      case Err(f) =>
      case Ok(t) => FeedLast(t, init, last);
    }
  }

  /** A fault stops the loader: no later byte changes anything. */
  lemma HaltedIsFinal(s: LoaderState, a: seq<byte>, b: seq<byte>)
    requires Feed(s, a).Err?
    ensures Feed(s, a + b) == Feed(s, a)
  {
    FeedAppend(s, a, b);
  }

  /** The buffer never exceeds its capacity and never holds a delimiter. */
  lemma StepWellFormed(s: LoaderState, b: byte)
    requires WellFormed(s) && Step(s, b).Ok?
    ensures WellFormed(Step(s, b).value)
  {
  }

  lemma {:induction false} FeedWellFormed(s: LoaderState, input: seq<byte>)
    requires WellFormed(s) && Feed(s, input).Ok?
    ensures WellFormed(Feed(s, input).value)
    decreases |input|
  {
    if |input| > 0 {
      FeedWellFormed(s, input[..|input| - 1]);
      StepWellFormed(Feed(s, input[..|input| - 1]).value, input[|input| - 1]);
    }
  }

  /** Bytes other than the delimiter are appended to the buffer in arrival
      order and cause no UART output; the only way they stop the loader is
      by overflowing the buffer. */
  lemma {:induction false} NonDelimiterBytesAreBuffered(s: LoaderState, input: seq<byte>)
    requires |s.pending| <= RX_CAPACITY && COBS_DELIMITER !in input
    ensures Feed(s, input) ==
              if |s.pending| + |input| <= RX_CAPACITY then Ok(LoaderState(s.pending + input, s.writes))
              else Err(BufferFull)
    decreases |input|
  {
    if |input| > 0 {
      var init := input[..|input| - 1];
      assert COBS_DELIMITER !in init by {
        assert forall k :: 0 <= k < |init| ==> init[k] == input[k];
      }
      var last := input[|input| - 1];
      NonDelimiterBytesAreBuffered(s, init);
      assert last != COBS_DELIMITER by {
        assert last in input;
      }
      assert input == init + [last];
      FeedLast(s, init, last);
      if |s.pending| + |init| <= RX_CAPACITY {
        assert s.pending + init + [last] == s.pending + input;
      }
    } else {
      assert s.pending + input == s.pending;
    }
  }

  /** The 257th byte since the last delimiter is fatal, whatever it is. */
  lemma OverflowHalts(s: LoaderState, input: seq<byte>)
    requires |s.pending| <= RX_CAPACITY
    requires RX_CAPACITY - |s.pending| < |input|
    requires COBS_DELIMITER !in input[..RX_CAPACITY - |s.pending|]
    ensures Feed(s, input) == Err(BufferFull)
  {
    var k := RX_CAPACITY - |s.pending|;
    var full := input[..k + 1];
    assert Feed(s, full) == Err(BufferFull) by {
      var fill := input[..k];
      NonDelimiterBytesAreBuffered(s, fill);
      FeedLast(s, fill, input[k]);
      assert full == fill + [input[k]];
    }
    HaltedIsFinal(s, full, input[k + 1..]);
    assert input == full + input[k + 1..];
  }

  /** After a run of bytes from reset, the buffer holds exactly the bytes
      received since the last delimiter. */
  lemma {:induction false} BufferHoldsBytesSinceLastDelimiter(input: seq<byte>)
    requires Feed(Init, input).Ok?
    ensures Feed(Init, input).value.pending == SinceLastDelimiter(input)
    decreases |input|
  {
    if |input| > 0 {
      var init := input[..|input| - 1];
      assert Feed(Init, init).Ok?;
      BufferHoldsBytesSinceLastDelimiter(init);
    }
  }

  /** Output happens only when the byte just received is the delimiter. */
  lemma OutputOnlyOnDelimiter(s: LoaderState, b: byte)
    requires Step(s, b).Ok? && Step(s, b).value.writes != s.writes
    ensures b == COBS_DELIMITER
    ensures Step(s, b).value.pending == []
  {
  }

  /** A frame that does not decode into a request stops the loader and
      writes nothing. */
  lemma MalformedFrameHalts(s: LoaderState)
    requires |s.pending| < RX_CAPACITY
    requires DecodeRequest(s.pending + [COBS_DELIMITER]).None?
    ensures Feed(s, [COBS_DELIMITER]) == Err(MalformedFrame)
  {
    assert [COBS_DELIMITER][..0] == [];
  }

  /** One more byte after a run that left the loader in state `t`. */
  lemma FeedSnoc(s: LoaderState, input: seq<byte>, b: byte, t: LoaderState)
    requires Feed(s, input) == Ok(t)
    ensures Feed(s, input + [b]) == Step(t, b)
  {
    FeedLast(s, input, b);
  }

  /** Up to its delimiter, a frame received on an empty buffer is only
      buffered; the delimiter then meets the rest of the frame. */
  lemma FrameBuffered(s: LoaderState, frame: seq<byte>)
    requires s.pending == [] && 0 < |frame| <= RX_CAPACITY
    requires frame[|frame| - 1] == COBS_DELIMITER && COBS_DELIMITER !in frame[..|frame| - 1]
    ensures Feed(s, frame) == Step(LoaderState(frame[..|frame| - 1], s.writes), COBS_DELIMITER)
  {
    var body := frame[..|frame| - 1];
    var t := LoaderState(body, s.writes);
    assert Feed(s, body) == Ok(t) by {
      NonDelimiterBytesAreBuffered(s, body);
      assert s.pending + body == body;
    }
    assert body + [COBS_DELIMITER] == frame;
    FeedSnoc(s, body, COBS_DELIMITER, t);
  }

  /** The delimiter completes the buffered frame: it is decoded,
      dispatched, and the buffer is cleared. */
  lemma DelimiterDispatches(frame: seq<byte>, writes: seq<seq<byte>>, m: Host2TargetMessage, out: seq<seq<byte>>)
    requires 0 < |frame| <= RX_CAPACITY && frame[|frame| - 1] == COBS_DELIMITER
    requires DecodeRequest(frame) == Some(m) && Dispatch(m) == Ok(out)
    ensures Step(LoaderState(frame[..|frame| - 1], writes), COBS_DELIMITER) == Ok(LoaderState([], writes + out))
  {
    assert frame[..|frame| - 1] + [COBS_DELIMITER] == frame;
  }

  /** A delimited frame received on an empty buffer is decoded once and
      dispatched, and leaves the buffer empty. */
  lemma FrameHandled(s: LoaderState, frame: seq<byte>, m: Host2TargetMessage, out: seq<seq<byte>>)
    requires s.pending == [] && 0 < |frame| <= RX_CAPACITY
    requires frame[|frame| - 1] == COBS_DELIMITER && COBS_DELIMITER !in frame[..|frame| - 1]
    requires DecodeRequest(frame) == Some(m) && Dispatch(m) == Ok(out)
    ensures Feed(s, frame) == Ok(LoaderState([], s.writes + out))
  {
    FrameBuffered(s, frame);
    DelimiterDispatches(frame, s.writes, m, out);
  }

  /** The whole frame of a request, received on an empty buffer, is handled
      once: a Ping makes exactly one UART write holding the Pong frame, a
      Write makes none, and the buffer is empty afterwards. */
  lemma RequestFrameHandled(s: LoaderState, m: Host2TargetMessage)
    requires s.pending == [] && !m.Execute? && Encodable(m)
    requires |EncodeHost2Target(m)| <= RX_CAPACITY
    ensures Feed(s, EncodeHost2Target(m)) ==
              Ok(LoaderState([], s.writes + if m.Ping? then [EncodeTarget2Host(Pong)] else []))
  {
    var out := if m.Ping? then [EncodeTarget2Host(Pong)] else [];
    assert Dispatch(m) == Ok(out) by {
      Target2HostFrameFits(Pong);
    }
    assert DecodeRequest(EncodeHost2Target(m)) == Some(m) by {
      DecodeRequestOfFrame(m);
    }
    FrameHandled(s, EncodeHost2Target(m), m, out);
  }

  /** The Execute the host sends last is not a request the target knows:
      its frame stops the loader without an answer. */
  lemma ExecuteFrameHalts(s: LoaderState)
    requires s.pending == []
    ensures Feed(s, EncodeHost2Target(Execute)) == Err(MalformedFrame)
  {
    var frame := EncodeHost2Target(Execute);
    ControlFrameFits(Execute);
    FrameBuffered(s, frame);
    Host2TargetFrameRoundTrip(Execute);
  }

  /** Everything the loader ever writes is a Pong frame. */
  lemma {:induction false} OnlyPongsAreSent(s: LoaderState, input: seq<byte>)
    requires forall k :: 0 <= k < |s.writes| ==> s.writes[k] == EncodeTarget2Host(Pong)
    requires Feed(s, input).Ok?
    ensures var w := Feed(s, input).value.writes;
            forall k :: 0 <= k < |w| ==> w[k] == EncodeTarget2Host(Pong)
    decreases |input|
  {
    if |input| > 0 {
      var init := input[..|input| - 1];
      assert Feed(s, init).Ok?;
      OnlyPongsAreSent(s, init);
      Target2HostFrameFits(Pong);
    }
  }

  // ---------------------------------------------------------------------------
  // The receive loop on the device

  /** `main`'s loop state: the heapless frame buffer and the UART's
      transmit side. */
  class Receiver {
    /** The storage of `cobs_buffer`; `len` bytes of it are in use. */
    const buffer: array<byte>
    var len: nat
    /** Every `uarte.write`, oldest first. */
    var writes: seq<seq<byte>>

    ghost predicate Valid()
      reads this, buffer
    {
      buffer.Length == RX_CAPACITY && len <= buffer.Length && COBS_DELIMITER !in buffer[..len]
    }

    ghost function State(): LoaderState
      reads this, buffer
      requires len <= buffer.Length
    {
      LoaderState(buffer[..len], writes)
    }

    /** `Vec::<_, 256>::new()` on a UART that has sent nothing; the buffer
        holds exactly one largest frame. */
    constructor()
      ensures Valid() && State() == Init && buffer.Length == POSTCARD_BUFFER_SIZE
    {
      buffer := new byte[RX_CAPACITY];
      len := 0;
      writes := [];
    }

    /** `cobs_buffer.push(byte)`: false, with nothing changed, when full. */
    method Push(b: byte) returns (ok: bool)
      requires len <= buffer.Length
      modifies this, buffer
      ensures ok <==> old(len) < buffer.Length
      ensures ok ==> len == old(len) + 1 && buffer[..len] == old(buffer[..len]) + [b]
      ensures !ok ==> len == old(len) && buffer[..len] == old(buffer[..len])
      ensures writes == old(writes)
    {
      if len == buffer.Length {
        return false;
      }
      buffer[len] := b;
      len := len + 1;
      return true;
    }

    /** One pass of the loop for the byte just read from the UART. */
    method Receive(b: byte) returns (r: Outcome<Fault>)
      requires Valid()
      modifies this, buffer
      ensures match Step(old(State()), b)
              case Ok(t) => r == Pass && Valid() && State() == t
              case Err(f) => r == Fail(f)
    {
      var pushed := Push(b);
      if !pushed {
        return Fail(BufferFull);
      }
      if b == COBS_DELIMITER {
        var request := DecodeRequest(buffer[..len]);
        if request.None? {
          return Fail(MalformedFrame);
        }
        match request.value {
          case Ping =>
            var response := ToVecCobsTarget2Host(Pong, POSTCARD_BUFFER_SIZE);
            if response.Err? {
              return Fail(ResponseTooLarge);
            }
            writes := writes + [response.value];
          case Write(_, _) =>
          case Execute =>
        }
        len := 0;
      }
      return Pass;
    }

    /** The loop over the bytes that arrive, until one of them is fatal. */
    method Run(input: seq<byte>) returns (r: Outcome<Fault>)
      requires Valid()
      modifies this, buffer
      ensures match Feed(old(State()), input)
              case Ok(t) => r == Pass && Valid() && State() == t
              case Err(f) => r == Fail(f)
    {
      ghost var start := State();
      var i := 0;
      while i < |input|
        invariant 0 <= i <= |input| && Valid()
        invariant Feed(start, input[..i]) == Ok(State())
      {
        assert input[..i + 1] == input[..i] + [input[i]];
        FeedLast(start, input[..i], input[i]);
        r := Receive(input[i]);
        if r.Fail? {
          HaltedIsFinal(start, input[..i + 1], input[i + 1..]);
          assert input[..i + 1] + input[i + 1..] == input;
          return;
        }
        i := i + 1;
      }
      assert input[..i] == input;
      return Pass;
    }
  }

  // ---------------------------------------------------------------------------
  // launch_program

  /** Where the program image is placed in RAM. */
  const KNOWN_ADDRESS: nat := 0x2002_0000

  /** The System Control Block; only the vector table offset register is
      modelled. */
  class Scb {
    var vtor: u32

    constructor(vtor: u32)
      ensures this.vtor == vtor
    {
      this.vtor := vtor;
    }
  }

  /** RAM after `src` is copied to `at`: the bytes around it are kept. */
  function Overwrite(memory: seq<byte>, at: nat, src: seq<byte>): seq<byte>
    requires at + |src| <= |memory|
  {
    memory[..at] + src + memory[at + |src|..]
  }

  /** What the overwrite stores at each address. */
  lemma OverwriteAt(memory: seq<byte>, at: nat, src: seq<byte>, a: nat)
    requires at + |src| <= |memory| && a < |memory|
    ensures |Overwrite(memory, at, src)| == |memory|
    ensures Overwrite(memory, at, src)[a] == if at <= a < at + |src| then src[a - at] else memory[a]
  {
  }

  /** `core::ptr::copy_nonoverlapping(src, dst, len)` into RAM. */
  method CopyNonoverlapping(src: seq<byte>, memory: array<byte>, at: nat)
    requires at + |src| <= memory.Length
    modifies memory
    ensures memory[..] == Overwrite(old(memory[..]), at, src)
  {
    var i := 0;
    while i < |src|
      invariant 0 <= i <= |src|
      invariant forall a :: 0 <= a < memory.Length ==>
                  memory[a] == if at <= a < at + i then src[a - at] else old(memory[a])
    {
      memory[at + i] := src[i];
      i := i + 1;
    }
    forall a | 0 <= a < memory.Length
      ensures memory[..][a] == Overwrite(old(memory[..]), at, src)[a]
    {
      OverwriteAt(old(memory[..]), at, src, a);
    }
  }

  /** The RAM image `launch_program` produces: the vector table at
      KNOWN_ADDRESS and the text section right after it. */
  function Layout(memory: seq<byte>, vectorTable: seq<byte>, text: seq<byte>): seq<byte>
    requires KNOWN_ADDRESS + |vectorTable| + |text| <= |memory|
  {
    Overwrite(Overwrite(memory, KNOWN_ADDRESS, vectorTable), KNOWN_ADDRESS + |vectorTable|, text)
  }

  /** In the image, the vector table occupies [K, K + |VT|), the text
      section the adjacent range [K + |VT|, K + |VT| + |TEXT|), and every
      other byte of RAM keeps its value. */
  lemma LaunchLayout(memory: seq<byte>, vectorTable: seq<byte>, text: seq<byte>, a: nat)
    requires KNOWN_ADDRESS + |vectorTable| + |text| <= |memory| && a < |memory|
    ensures |Layout(memory, vectorTable, text)| == |memory|
    ensures var textStart := KNOWN_ADDRESS + |vectorTable|;
            Layout(memory, vectorTable, text)[a] ==
              if KNOWN_ADDRESS <= a < textStart then vectorTable[a - KNOWN_ADDRESS]
              else if textStart <= a < textStart + |text| then text[a - textStart]
              else memory[a]
  {
    var first := Overwrite(memory, KNOWN_ADDRESS, vectorTable);
    OverwriteAt(memory, KNOWN_ADDRESS, vectorTable, a);
    OverwriteAt(first, KNOWN_ADDRESS + |vectorTable|, text, a);
  }

  /** `launch_program` up to the jump: both copies, then VTOR := K. */
  method LaunchProgram(memory: array<byte>, scb: Scb, vectorTable: seq<byte>, text: seq<byte>)
    requires KNOWN_ADDRESS + |vectorTable| + |text| <= memory.Length
    modifies memory, scb
    ensures memory[..] == Layout(old(memory[..]), vectorTable, text)
    ensures scb.vtor == KNOWN_ADDRESS
  {
    CopyNonoverlapping(vectorTable, memory, KNOWN_ADDRESS);
    CopyNonoverlapping(text, memory, KNOWN_ADDRESS + |vectorTable|);
    scb.vtor := KNOWN_ADDRESS;
  }
}
