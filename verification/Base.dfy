/** Types shared by all the models. */
module Base {

  type Byte = x: int | 0 <= x < 256

  datatype Option<+T> = None | Some(value: T)

  /** The outcome of code that either goes on or stops the machine. */
  datatype Status = Running | Panicked {
    predicate IsFailure() { Panicked? }
    function PropagateFailure(): Status requires Panicked? { this }
  }
}
