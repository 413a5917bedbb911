// Shared vocabulary: bytes, results and the errors the library throws.
module Common {

  type byte = x: int | 0 <= x < 256

  type bytes = seq<byte>

  datatype Option<+T> = None | Some(value: T)

  /** What an exception of the source carries, reduced to its cause. */
  datatype Error =
    | NotUnsigned      // negative or fractional number given for a uint
    | UnsafeNumber     // a `number` of 2^48 or more for a field of more than six bytes
    | TooLarge         // value does not fit the field
    | SizeMismatch     // bytes of the wrong length for a field of known size
    | ValueMismatch    // uint differs from the constant of the layout
    | DataMismatch     // bytes differ from the constant of the layout
    | TooShort         // encoded data ends before the item does
    | TooLong          // encoded data goes on after the last item
    | OutOfRange       // bytes written past the end of the buffer
    | TypeFault        // the run time's own TypeError (a missing field, a read past the end, ...)
    | NonTerminating   // not an exception: the source's loop never ends on this input
    | Conversion       // thrown by a custom conversion
    | Invalid(reason: string)

  datatype Result<+T> = Ok(value: T) | Err(error: Error) {

    predicate IsFailure() {
      Err?
    }

    function PropagateFailure<U>(): Result<U>
      requires Err?
    {
      Err(error)
    }

    function Extract(): T
      requires Ok?
    {
      value
    }
  }

  /** A custom conversion either returns or throws. */
  function Converted<T>(o: Option<T>): Result<T> {
    match o
    case Some(v) => Ok(v)
    case None => Err(Conversion)
  }

  lemma Associate<T>(a: seq<T>, b: seq<T>, c: seq<T>)
    ensures a + (b + c) == a + b + c
  {
  }
}
