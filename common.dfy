/** Definitions shared by the host uploader and the resident RAM loader:
    the wire types, the framing constants and the two message enums. */
module Common {

  /** An octet on the serial link. */
  newtype byte = x: int | 0 <= x < 0x100

  const U32_MAX: int := 0xFFFF_FFFF

  /** A 32-bit unsigned integer (addresses on the target). */
  type u32 = x: int | 0 <= x <= U32_MAX

  /** The byte that terminates every frame; it appears nowhere else in a frame. */
  const COBS_DELIMITER: byte := 0

  /** Capacity of every frame buffer, on both ends of the link. */
  const POSTCARD_BUFFER_SIZE: nat := 256

  /** Largest number of data bytes the host puts into one Write. */
  const POSTCARD_PAYLOAD_SIZE: nat := 3

  /** Requests from host to target. `Execute` is not part of the shared enum
      (which declares only Ping and Write) but the uploader sends it as its
      last message, so it is modelled as a third variant. */
  datatype Host2TargetMessage =
    | Ping
    | Write(startAddress: u32, data: seq<byte>)
    | Execute

  /** Responses from target to host; equality is structural. */
  datatype Target2HostMessage = InvalidAddress | Pong | WriteOk

  datatype Option<T> = None | Some(value: T)

  datatype Result<T, E> = Ok(value: T) | Err(error: E)

  datatype Outcome<E> = Pass | Fail(error: E)

  /** `k` copies of `s`, one after the other. */
  function Repeat<T>(s: seq<T>, k: nat): seq<T>
  {
    if k == 0 then [] else Repeat(s, k - 1) + s
  }

  /** The first copy can be split off the front as well as the last off the back. */
  lemma {:induction false} RepeatFront<T>(s: seq<T>, k: nat)
    requires 0 < k
    ensures Repeat(s, k) == s + Repeat(s, k - 1)
  {
    if k > 1 {
      RepeatFront(s, k - 1);
    }
  }
}
