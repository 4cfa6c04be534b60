/** Shared vocabulary of the Pusher map decoder: bytes, bits, the layout
    constants of the executable image and the decoder's error outcomes. */
module Common {

  /** A byte of the executable image, read as an unsigned value. */
  type Byte = b: int | 0 <= b < 256

  /** One bit of the packed stream. */
  type Bit = b: int | 0 <= b <= 1

  /** The number of mazes stored in the image. */
  const NR_MAZES := 60
  /** File offset of the data segment. */
  const DS_OFFSET := 0x1390
  /** Offset of the maze offset table within the data segment. */
  const OFFSET_TABLE := 0x1480
  /** Offset of the packed maze data within the data segment. */
  const PACKED_DATA := 0x00FC
  /** Size of the executable image. */
  const EXE_SIZE := 10632

  /** size_x and man_x must be below this bound. */
  const MAX_X := 40
  /** size_y and man_y must be below this bound. */
  const MAX_Y := 25

  /** The ways decoding one maze can fail; each `assert` of the decoder
      becomes one of these, and reading past the image another. */
  datatype Error =
    | BufferExhausted(offset: int)
    | InvalidDimensions(value: Byte)
    | InvalidPlayerPosition(value: Byte)
    | InvalidPlayerPlacement(index: int, found: char)

  /** The outcome of a decoding step: a value, or the error that aborted it. */
  datatype Result<+T> = Ok(value: T) | Err(error: Error) {

    predicate IsFailure() {
      Err?
    }

    function PropagateFailure<U>(): Result<U>
      requires Err?
    {
      Err(error)
    }

    function Extract(): T
      requires Ok?
    {
      value
    }
  }
}
