# ram-loader, modelled in Dafny

ram-loader puts a program into the RAM of an nRF52840 over a serial link.
It has two ends:

- **The host tool (`elfloader`)** does three things:
  - it reads an ELF image and keeps its PT_LOAD segments, each at its physical address;
  - it cuts every segment into `Write` requests of at most `POSTCARD_PAYLOAD_SIZE` (3) bytes, with an address cursor;
  - it sends each request and requires a `WriteOk` answer before the next, and after the last one sends `Execute`.
- **The resident loader (`ramloader`)** reads one byte at a time into a 256-byte buffer. At each zero byte it decodes the buffer as a request, answers a `Ping` with a `Pong` and clears the buffer. Its `launch_program` copies a vector table and a text section to `0x2002_0000` and sets VTOR.

Every message travels as a frame in both directions. A frame is a postcard serialization, stuffed with COBS so that it contains no zero byte, and terminated by `COBS_DELIMITER` (0).

The project has five modules, one file each:

- **`Common`** (`common.dfy`) holds the shared constants and the two message enums.
- **`Frame`** (`frame.dfy`) is the frame codec. The postcard and COBS crates are not part of this model, so it supplies its own concrete serialization: a variant tag, then the fields, with integers and lengths as LEB128 varints. It also supplies its own standard COBS. It proves the facts both ends rely on:
  - a frame ends with the delimiter and contains no other delimiter;
  - decoding a frame gives back its message;
  - request frames fit `POSTCARD_BUFFER_SIZE`.
- **`Elfloader`** (`elfloader.dfy`) covers:
  - the extractor, a loop proved against the function `ExtractSegments`;
  - the connection class `TargetConn`;
  - the upload loops, proved against the functions `RunPlan`, `UploadSpec` and `LoadSpec`.

  The serial port is two byte sequences: `written` holds what was sent, and `pending` holds what the target has sent that has not been read yet. The ELF file is its parsed header table plus its bytes.
- **`Ramloader`** (`ramloader.dfy`) covers:
  - the receive loop, as the class `Receiver` over a 256-byte `array`, proved against the functions `Step` and `Feed`;
  - `launch_program`, as copies into a RAM `array`, proved against `Layout`.

  The UART's incoming bytes are an input sequence. Its writes are a field that lists every write.
- **`Session`** (`session.dfy`) connects the two ends: it feeds what the host sends into the device, and feeds what the device writes back into the host.

## Where the code disagrees with itself

The model follows the code and does not fill these gaps:

- **Neither binary compiles as shown, so the model completes both.** Both ends import the same `common` crate (elfloader/src/main.rs:9, ramloader/src/main.rs:4).
  - `Host2TargetMessage::Execute` (elfloader/src/main.rs:56) names a variant the enum lacks (common/src/lib.rs:13-16). Rust rejects this (E0599).
  - The target's `match` (ramloader/src/main.rs:55-64) has no arm for `Write`. Rust rejects this non-exhaustive match (E0004).
  - The two bullets below give the completion the model chooses for each. The consequences they name hold for the loader as the model completes it. They are not run-time behaviour of the shown code, which has none.
- **The host sends a message the request enum lacks.** The model gives the host's request type a third variant, `Execute`, with the next tag (2). The target's decoder keeps the two variants that common/src/lib.rs declares, so the frame does not decode there (`Ramloader.DecodeRequestOfFrame`). `Ramloader.ExecuteFrameHalts` shows the consequence: Execute stops the loader through the `unwrap` of the decode.
- **The target's dispatch handles only `Ping`.** The model gives the match a `Write` arm that produces no output (`Ramloader.Dispatch`).
  - The response type has `InvalidAddress` and `WriteOk` variants (common/src/lib.rs:18-23), and the host requires a `WriteOk` after every Write (elfloader/src/main.rs:45-48). No code on the target ever sends either variant.
  - `launch_program` (ramloader/src/main.rs:71-126) exists but is marked `#[allow(dead_code)]`, and nothing calls it. The receive loop therefore never hands control to a loaded program.
  - `Session.UploadStallsAgainstRamloader` shows the consequence: every upload with data stops at its first Write because the host's read times out.
- **The `.text` destination.** A comment puts `.text` at `0x2002_0100`, but the code copies it to `KNOWN_ADDRESS + VECTOR_TABLE.len()` (ramloader/src/main.rs:93-95). The model uses the code's address. The two agree only when the vector table is 256 bytes long.
- **Buffer overflow.** The target pushes each byte before it looks at it (ramloader/src/main.rs:47-48). A buffer that is full therefore stops the loader even when the 257th byte is the delimiter (`Ramloader.OverflowHalts`).

## Model

| member | source | states |
|---|---|---|
| Frame.EncodeFrame | ramloader/src/main.rs:58 | A frame is at least two bytes long. It ends with COBS_DELIMITER and contains no other delimiter. |
| Frame.CobsNoDelimiter | elfloader/src/main.rs:152 | COBS-stuffed bytes never contain the delimiter. |
| Frame.CobsRoundTrip | elfloader/src/main.rs:146 | Unstuffing stuffed bytes gives back the original bytes, zeros included. |
| Frame.SerializeHost2TargetRoundTrip | ramloader/src/main.rs:51-52 | Deserializing a serialized request gives back the request: its variant, its address and its data. |
| Frame.Host2TargetFrameRoundTrip | ramloader/src/main.rs:51-52 | Decoding the frame of a request gives back the request. |
| Frame.Target2HostFrameRoundTrip | elfloader/src/main.rs:146 | Decoding the frame of a response gives back the response. |
| Frame.Target2HostFrameFits | ramloader/src/main.rs:58 | Every response frame is 3 bytes long, so encoding a response into a 256-byte buffer always succeeds. |
| Frame.WritePayloadFitsInBuffer | common/src/lib.rs:29-38 | A Write carrying at most POSTCARD_PAYLOAD_SIZE bytes encodes without error into a POSTCARD_BUFFER_SIZE buffer, whatever its address. The payload size is below the buffer size. |
| Frame.ControlFrameFits | elfloader/src/main.rs:56 | Ping and Execute frames are 3 bytes long, and encoding them succeeds. |
| Elfloader.LoadableHeadersInOrder | elfloader/src/main.rs:81-95 | Every kept header is a PT_LOAD header of the input. Each PT_LOAD header is kept at the position given by the number of PT_LOAD headers before it. Every position is filled that way, so no header is added, dropped or repeated. |
| Elfloader.ExtractSegmentsSpec | elfloader/src/main.rs:71-97 | Extraction succeeds if and only if every PT_LOAD header has its bytes in the file. On success there is one segment per PT_LOAD header, in order, at p_paddr (never p_vaddr, which the header also carries) and holding that header's file bytes. On failure the error is SegmentDataUnavailable. |
| Elfloader.ExtractFailureIsFinal | elfloader/src/main.rs:86-88 | Once a loadable header without data has been met, extraction of any longer header table fails. No partial list is returned. |
| Elfloader.ExtractLoadableSegments | elfloader/src/main.rs:75-98 | The push loop returns exactly ExtractSegments(headers, file). |
| Elfloader.ChunkSizes | elfloader/src/main.rs:36 | Every chunk is non-empty and at most POSTCARD_PAYLOAD_SIZE bytes long. |
| Elfloader.ChunkCount | elfloader/src/main.rs:36 | A slice of length L gives ceil(L/3) chunks, which is none for an empty slice. |
| Elfloader.ChunksReassemble | elfloader/src/main.rs:36-40 | The chunks' payloads, concatenated in send order, give back the segment's data. |
| Elfloader.ChunkAddresses | elfloader/src/main.rs:35-41 | Each chunk's address is the segment's start plus the total length of the chunks before it. |
| Elfloader.ChunksFitAddressSpace | elfloader/src/main.rs:41 | The u32 cursor `+=` never overflows over a segment if and only if start + length ≤ u32::MAX. |
| Elfloader.UploadPlanOrder | elfloader/src/main.rs:34-36 | The plan is the earlier segments' chunks, then all of this segment's chunks, then the later segments' chunks. |
| Elfloader.ReadFrameSpec | elfloader/src/main.rs:142-144 | read_until finds nothing if and only if no delimiter is pending. Otherwise the frame plus the rest is the input, the frame ends with the first delimiter, and there is no earlier delimiter. |
| Elfloader.ReadFrameOfFrame | elfloader/src/main.rs:142-144 | Reading from a whole frame returns that frame and leaves the bytes after it untouched. |
| Elfloader.RespondToFrame | elfloader/src/main.rs:142-147 | The host reads the frame of a response as that response, and consumes nothing after it. |
| Elfloader.SilenceTimesOut | elfloader/src/main.rs:142-144 | Pending bytes without a delimiter make the read time out. |
| Elfloader.TargetConn.Send | elfloader/src/main.rs:151-156 | The request's frame is written whole if it fits POSTCARD_BUFFER_SIZE. Otherwise the result is EncodeFailed and nothing is written. Nothing is read. |
| Elfloader.TargetConn.ReadUntilDelimiter | elfloader/src/main.rs:142-144 | The byte loop returns the bytes up to and including the first delimiter and consumes exactly those bytes, or times out with nothing left. |
| Elfloader.TargetConn.RequestResponse | elfloader/src/main.rs:136-148 | A request that encodes is written, and the response and the remaining input are what Respond gives for the old input. A request that does not encode is EncodeFailed, and nothing is written or read. |
| Elfloader.WriteChunkSends | elfloader/src/main.rs:41-43 | A pass sends its Write (exactly that Write) if and only if the cursor does not overflow and the frame fits. A passing chunk was sent. |
| Elfloader.WriteChunkAnswered | elfloader/src/main.rs:43-48 | A chunk that fits is written, and the response that follows decides: WriteOk passes, anything else fails with that response. |
| Elfloader.SendChunk | elfloader/src/main.rs:37-48 | The loop body's outcome, bytes written and input left are those of WriteChunk. A passing chunk stays within the address space. |
| Elfloader.WriteSegment | elfloader/src/main.rs:35-53 | The inner loop, with its cursor and its early exit, writes and reads exactly what RunPlan over the segment's chunks gives. |
| Elfloader.UploadSegments | elfloader/src/main.rs:34-54 | The outer loop writes and reads exactly what RunPlan over the whole upload plan gives. |
| Elfloader.Upload | elfloader/src/main.rs:34-56 | The loops, then Execute with no read, behave as UploadSpec. |
| Elfloader.LoadElf | elfloader/src/main.rs:31-56 | Extraction, then the upload, behave as LoadSpec. |
| Elfloader.MissingSegmentSendsNothing | elfloader/src/main.rs:31-33 | If a loadable header lacks its bytes, nothing is sent or read and the error is SegmentDataUnavailable. |
| Elfloader.RunPlanAppend | elfloader/src/main.rs:34-54 | Running two plans one after the other is the same as running their concatenation, and a failure in the first stops everything. |
| Elfloader.RunPlanSendsPrefix | elfloader/src/main.rs:36-48 | What was sent is always the Writes of a prefix of the plan, in plan order, each within the address space. When the upload passes, it is the whole plan. |
| Elfloader.ExecuteOnlyAfterEveryWrite | elfloader/src/main.rs:34-56 | Execute is sent if and only if the upload passed. It is then sent once, last, after one Write per chunk of every segment. When Execute is sent, the host read one delimited frame per chunk, each decoding to WriteOk, and nothing else. |
| Elfloader.PassMeansEveryWriteOk | elfloader/src/main.rs:36-48 | A chunk loop that passed read, in order, one frame per chunk that decoded to WriteOk. A missing, malformed or other response never lets it go on. |
| Elfloader.AcknowledgedPlanPasses | elfloader/src/main.rs:43-48 | If every Write is answered WriteOk, every chunk's Write is sent in order and exactly one response is read per chunk. |
| Elfloader.FirstRejectionAborts | elfloader/src/main.rs:43-48 | If the k-th response is the first that is not WriteOk, exactly the first k+1 Writes are sent, the upload fails with that response, and nothing after it is read. |
| Elfloader.UploadPlanSendable | elfloader/src/main.rs:35-41 | If every segment ends at or below u32::MAX, every chunk of the plan is addressable and at most POSTCARD_PAYLOAD_SIZE bytes long. |
| Elfloader.AcknowledgedUploadExecutes | elfloader/src/main.rs:34-56 | If the target acknowledges every Write, the host sends all the Writes in order and then Execute, and the upload passes. |
| Ramloader.DecodeRequestOfFrame | ramloader/src/main.rs:51-52 | The target decodes the frame of any encodable request back to that request when it is a Ping or a Write. The frame of an Execute does not decode, because the target's request type lacks that variant. |
| Ramloader.FeedAppend | ramloader/src/main.rs:41-68 | Feeding two runs of bytes is the same as feeding the first run and then the second. |
| Ramloader.HaltedIsFinal | ramloader/src/main.rs:47-52 | After a fault, no later byte changes anything. |
| Ramloader.FeedWellFormed | ramloader/src/main.rs:38-48 | The buffer never holds more than 256 bytes and never holds a delimiter between frames. |
| Ramloader.NonDelimiterBytesAreBuffered | ramloader/src/main.rs:43-48 | Non-delimiter bytes are appended in arrival order and cause no UART output. They stop the loader only by overflowing the buffer. |
| Ramloader.OverflowHalts | ramloader/src/main.rs:38-47 | The 257th byte since the last delimiter is fatal (BufferFull), whatever that byte is. |
| Ramloader.BufferHoldsBytesSinceLastDelimiter | ramloader/src/main.rs:43-66 | From reset, the buffer holds exactly the bytes received since the last delimiter. |
| Ramloader.OutputOnlyOnDelimiter | ramloader/src/main.rs:48-66 | A byte that causes output is the delimiter, and it leaves the buffer empty. |
| Ramloader.MalformedFrameHalts | ramloader/src/main.rs:51-52 | A delimited buffer that does not decode stops the loader (MalformedFrame) and writes nothing. |
| Ramloader.FrameHandled | ramloader/src/main.rs:47-66 | A delimited frame received on an empty buffer is decoded once and dispatched, and leaves the buffer empty. |
| Ramloader.RequestFrameHandled | ramloader/src/main.rs:51-66 | A Ping frame gives exactly one UART write, holding the Pong frame. A Write frame gives none. Either way the buffer ends up empty. |
| Ramloader.ExecuteFrameHalts | ramloader/src/main.rs:51-52 | Under the model's completion, the host's Execute frame stops the loader and gets no answer. |
| Ramloader.OnlyPongsAreSent | ramloader/src/main.rs:55-64 | Every UART write the loader makes is a Pong frame. |
| Ramloader.Receiver.Push | ramloader/src/main.rs:47 | The heapless push appends the byte if the buffer is not full, and otherwise changes nothing and reports the failure. |
| Ramloader.Receiver.Receive | ramloader/src/main.rs:43-67 | One pass over the array buffer is Step on the abstract state. It keeps the buffer valid and reports the fault when there is one. |
| Ramloader.Receiver.Run | ramloader/src/main.rs:41-68 | The loop over the arriving bytes is Feed, and it stops at the first fault. |
| Ramloader.CopyNonoverlapping | ramloader/src/main.rs:89 | The copy writes src at `at` and leaves every other byte of RAM as it was. |
| Ramloader.LaunchLayout | ramloader/src/main.rs:73-101 | RAM holds the vector table in [K, K+\|VT\|) and the text in the adjacent range [K+\|VT\|, K+\|VT\|+\|TEXT\|), with K = 0x2002_0000. Every other byte is unchanged. |
| Ramloader.LaunchProgram | ramloader/src/main.rs:72-104 | RAM becomes Layout(old RAM, VECTOR_TABLE, TEXT), and VTOR becomes KNOWN_ADDRESS. |
| Session.PingIsAnswered | ramloader/src/main.rs:55-64 | The host's Ping frame makes the loader write one Pong frame, which the host reads as Pong. |
| Session.WriteGetsNoAnswer | ramloader/src/main.rs:55-64 | Every Write the uploader can send fits the loader's buffer and decodes there, but gets no answer. |
| Session.UploadStallsAgainstRamloader | elfloader/src/main.rs:37-48 | Against the loader as the model completes it, an upload with data sends one Write, then times out and never sends Execute. |

## Left out

- **Serial port discovery and opening** (VID/PID match, baud rate, the 5-second timeout). The port is two byte sequences, and a missing delimiter stands for the time-out.
- **UART, GPIO and peripheral set-up on the target, and all logging and progress output.**
- **UART errors on the target.** The `unwrap`s of `uarte.read` (ramloader/src/main.rs:43) and `uarte.write` (ramloader/src/main.rs:62) stop the loader when the peripheral reports an error. In the model every read delivers one byte and every write succeeds, so `Fault` has no variant for these two panics.
- **The byte-level formats of the postcard and COBS crates.** These crates are not part of this model, and the `Frame` module is a stand-in for them. Its LEB128 tags and lengths and its standard COBS follow their documented encoding, but the model does not establish byte-for-byte equality with the crates.
- **`from_bytes_cobs` decodes in place**, overwriting the buffer. The model decodes a copy.
- **ELF parsing** (`FileHeader32::parse`, `program_headers`) and the file read. The extractor works on a parsed header table and the file's bytes. `p_memsz` and any zero-fill are ignored, as the code ignores them.
- **Command-line argument handling and the host's I/O errors.** `write_all` always succeeds in the model. `read_until(..)?` (elfloader/src/main.rs:143-144) can also fail with an I/O error other than a time-out. The model does not tell such errors apart: a read fails only when no delimiter is pending, and then always with `Timeout`.
- **Release builds.** The model treats the cursor overflow at elfloader/src/main.rs:41 as the debug-build panic (`AddressOverflow`), raised before the chunk is sent. A release build would wrap the cursor.
- **The receive loop never ends.** `Receiver.Run` covers any finite prefix of the incoming bytes.
- **`launch_program`'s delay and `bootload` jump.** These are register writes and inline assembly, and the jump does not return. The two images are parameters in place of `include_bytes!` statics.

