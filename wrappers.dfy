/** Value wrappers shared by every module: a C# reference that may be null is an
    `Option`, and an operation that may throw is a `Result` whose error names the
    .NET exception type. */
module Wrappers {

  /** `None` stands for a C# `null`. */
  datatype Option<+T> = None | Some(value: T) {
    function GetOr(default: T): T {
      match this
      case Some(v) => v
      case None => default
    }
  }

  /** The .NET exceptions the modelled code can raise. */
  datatype ErrorKind =
    | ArgumentOutOfRange   // Substring, DateTime constructor
    | IndexOutOfRange      // array indexing
    | NullReference        // member access on null
    | Format               // Convert.FromBase64String
    | Argument             // new Guid(byte[]) with a length other than 16
    | ArgumentNull         // a null argument the callee rejects
    | Overflow             // TimeSpan.FromMilliseconds out of range, a negative array size

  /** The outcome of an operation that either returns a value or throws. */
  datatype Result<+T> = Ok(value: T) | Err(error: ErrorKind)

  /** A .NET `byte`. */
  type byte = b: int | 0 <= b < 256

  function Max(a: int, b: int): int { if a < b then b else a }

  function Min(a: int, b: int): int { if a < b then a else b }

  lemma SuccMul(k: int, d: int)
    ensures (1 + k) * d == k * d + d
  {
  }

  lemma MulMono(a: int, b: int, c: int)
    requires a <= b && 0 <= c
    ensures a * c <= b * c
  {
  }

  /** C# `int` arithmetic in an unchecked context: the exact result wrapped
      into 32-bit two's complement. */
  function Wrap32(x: int): (r: int)
    ensures -0x8000_0000 <= r < 0x8000_0000
    ensures -0x8000_0000 <= x < 0x8000_0000 ==> r == x
  {
    (x + 0x8000_0000) % 0x1_0000_0000 - 0x8000_0000
  }

  /** C#'s `/` on integers: the quotient truncated toward zero. */
  function TruncDiv(a: int, b: int): int
    requires b > 0
  {
    if a >= 0 then a / b else -((-a) / b)
  }

  /** C#'s `%` on integers: the remainder takes the sign of the dividend. */
  function TruncRem(a: int, b: int): (r: int)
    requires b > 0
    ensures a >= 0 ==> r == a % b
    ensures -b < r < b
    ensures a == TruncDiv(a, b) * b + r
  {
    a - TruncDiv(a, b) * b
  }
}
