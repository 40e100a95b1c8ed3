/**
 Shared vocabulary of the codec: bytes, the byte-order selector, the two error
 taxonomies and the failure-compatible result type used by every encoder and
 decoder.
 */
module Wire {

  /** One octet of a buffer. */
  type byte = b: int | 0 <= b < 256

  /** Byte order applied to every multi-byte scalar of one call tree. */
  datatype Endianness = Little | Big

  /** The only write-side failure: the destination is too small. */
  datatype SerializeError = BufferOverflow

  /** The only read-side failure: truncated input, bad tag, bad text, ... */
  datatype DeserializeError = Invalid

  /** Failure-compatible result, so that `:-` plays the role of Rust's `?`. */
  datatype Result<+T, +E> = Ok(value: T) | Err(error: E) {

    predicate IsFailure() {
      Err?
    }

    function PropagateFailure<U>(): Result<U, E>
      requires Err?
    {
      Err(error)
    }

    function Extract(): T
      requires Ok?
    {
      value
    }
  }

  /** What a successful encoder call leaves behind: the whole destination
      buffer after the writes, and the number of bytes written at its front. */
  datatype Written = Written(buffer: seq<byte>, size: nat)

  /** What a successful decoder call returns: the value and the bytes consumed. */
  datatype Decoded<+T> = Decoded(item: T, consumed: nat)
}
