/** Shared vocabulary of the JPEG header reader: bytes, 16-bit words, the
    two error kinds and the failure-compatible result of every read. */
module Types {

  /** One byte of the input stream. */
  type byte = bv8

  /** An unsigned 16-bit field, as read by a big-endian `u16` read. */
  type u16 = x: int | 0 <= x < 0x1_0000

  /** The byte whose value is `n`. */
  function ByteOf(n: int): (b: byte)
    requires 0 <= n < 256
    ensures b as int == n
  {
    n as byte
  }

  datatype Option<+T> = None | Some(value: T)

  /** The marker a scan is looking for; it only labels an end-of-stream error. */
  datatype MarkerName = Soi | App | Sof

  /** Which read ran out of input, standing for the label an
      end-of-stream error carries ("when reading JPEG frame height", ...). */
  datatype Reading =
    | SearchingFor(marker: MarkerName)
    | MarkerType
    | AppHeaderSize
    | FrameHeaderSize
    | SamplePrecision
    | FrameHeight
    | FrameWidth
    | ExifIdentifier

  /** What was wrong with bytes that were present. */
  datatype Problem =
    | BadAppHeaderLength(length: u16)
    | BadFrameHeaderSize(size: u16)
    | NeitherJfifNorExif
    | NotExif

  datatype Error =
    | UnexpectedEndOfStream(during: Reading)
    | InvalidFormat(problem: Problem)

  /** A value read from the stream together with the cursor just after it. */
  datatype Parsed<+T> = Parsed(value: T, next: nat)

  /** Outcome of a read: usable with `:-`, the first error aborts the parse. */
  datatype Result<+T> = Ok(value: T) | Err(error: Error) {

    predicate IsFailure() {
      Err?
    }

    function PropagateFailure<U>(): Result<U>
      requires Err?
    {
      Err(error)
    }

    function Extract(): T
      requires Ok?
    {
      value
    }
  }
}
