/** Outcomes shared by every model: the Java exceptions the source throws
    become failure values instead of preconditions. */
module Common {

  /** The failure reasons the modelled Java code can produce. */
  datatype Failure =
    | NullPointer        // a null reference is dereferenced
    | NoSuchElement      // a remove/delMin on an empty priority queue
    | IndexOutOfBounds   // an array index or explicit bounds check fails
    | IllegalArgument    // an explicit argument check fails
    | OutOfFuel          // the model's step bound on a `while (true)` loop is used up

  datatype Option<+T> = None | Some(value: T)

  datatype Result<+T> = Ok(value: T) | Err(failure: Failure)

  function Abs(x: int): (r: nat)
    ensures r == x || r == -x
  {
    if x < 0 then -x else x
  }

  /** Java's 32-bit `int` arithmetic: x reduced modulo 2^32 into
      [-2^31, 2^31), which is x itself when it already fits. */
  function Wrap32(x: int): (r: int)
    ensures -0x8000_0000 <= r < 0x8000_0000
    ensures (x - r) % 0x1_0000_0000 == 0
    ensures -0x8000_0000 <= x < 0x8000_0000 ==> r == x
  {
    var m := x % 0x1_0000_0000;
    if m < 0x8000_0000 then m else m - 0x1_0000_0000
  }
}
