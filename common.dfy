/** Values shared by the whole model: C# null, exceptions as results, the clock's value, integer helpers. */
module Common {

  /** A C# nullable value or reference: `None` stands for `null`. */
  datatype Option<+T> = None | Some(value: T)

  /** The value an operation returns, or the exception it throws instead. */
  datatype Result<+T, +E> = Ok(value: T) | Err(error: E)

  /** A `DateTime`, as an opaque point in time; nothing in the model computes with it. */
  datatype DateTime = DateTime(ticks: int)

  function Min(a: int, b: int): int { if a <= b then a else b }

  function Max(a: int, b: int): int { if a >= b then a else b }

  function Abs(a: int): nat { if a < 0 then -a else a }

  /** C#'s integer `/`, which truncates toward zero (Dafny's `/` is Euclidean). */
  function TruncDiv(a: int, b: int): int
    requires b != 0
  {
    if (a >= 0) == (b > 0) then Abs(a) / Abs(b) else -(Abs(a) / Abs(b))
  }
}
