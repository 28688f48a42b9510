/** The outcome types of the codec: an optional value for reads that may come up
    short, a result for the steps that can stop, and the ways they stop. */
module Results {

  /** A value, or nothing when the input does not hold one. */
  datatype Option<+T> = None | Some(value: T)

  /** A value, or the reason the computation stopped. `Result` works with `:-`, so
      a failing step ends the whole computation with its error. */
  datatype Result<+T, +E> = Success(value: T) | Failure(error: E) {
    predicate IsFailure() { Failure? }

    function PropagateFailure<U>(): Result<U, E>
      requires Failure?
    {
      Failure(error)
    }

    function Extract(): T
      requires Success?
    {
      value
    }
  }

  /** Why a compression or decompression stops without a result.
      - EmptyTable:  the tree builder found an empty queue (a thrown runtime_error).
      - NullRoot:    the decoder was handed no tree (a thrown runtime_error).
      - NullChild:   the decoder stepped below a leaf; the original dereferences a
                     null pointer here, so this marks undefined behaviour.
      - EmptyOutput: decoding produced no byte, which the decompressor reports.
      - Truncated:   the frame is shorter than its own fields say; the original
                     reads past the end without noticing, see README. */
  datatype Error = EmptyTable | NullRoot | NullChild | EmptyOutput | Truncated
}
