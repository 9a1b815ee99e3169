/** What the models share: the result of an operation that may panic (None), and machine words. */
module Wrappers {

  type Uint32 = n: int | 0 <= n < 0x1_0000_0000

  const NUL: char := '\0'

  datatype Option<+T> = None | Some(value: T) {

    predicate IsFailure() {
      None?
    }

    function PropagateFailure<U>(): Option<U>
      requires None?
    {
      None
    }

    function Extract(): T
      requires Some?
    {
      value
    }
  }
}
