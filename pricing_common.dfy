/** Shared vocabulary of the two pricing engines: the Python exceptions the
    pricing code can raise, a result type carrying them, and the numeric
    routines of Python's `math` module, taken as functions on exact reals. */
module PricingCommon {

  /** The exceptions raised inside the pricing functions.
      `MathDomainError` is Python's `ValueError("math domain error")` from
      `math.log`/`math.sqrt`; `InvalidOptionType` is the `ValueError` raised
      explicitly by the closed-form engine. */
  datatype PricingError =
    | ZeroDivisionError
    | MathDomainError
    | InvalidOptionType
    | IndexError

  /** Either the value a pricing function returns or the exception it raises. */
  datatype Result<T> = Ok(value: T) | Err(error: PricingError)

  /** `math.exp`, `math.sqrt`, `math.log` and `math.erf`. Their floating-point
      values are not modelled; the proofs only use the facts in `Sound`. */
  datatype MathLib = MathLib(
    exp: real -> real,
    sqrt: real -> real,
    log: real -> real,
    erf: real -> real)

  /** What the model relies on of the platform routines: the exponential is
      positive and exp(-x) is the reciprocal of exp(x), the error function is
      odd, and the square root of two is positive. */
  ghost predicate Sound(m: MathLib)
  {
    && m.sqrt(2.0) > 0.0
    && (forall x :: m.exp(x) > 0.0)
    && (forall x, y :: x + y == 0.0 ==> m.exp(x) * m.exp(y) == 1.0)
    && (forall x, y :: x + y == 0.0 ==> m.erf(x) + m.erf(y) == 0.0)
  }

  /** Python's `max` on two numbers. */
  function Max(a: real, b: real): (r: real)
    ensures r >= a && r >= b
    ensures r == a || r == b
  {
    if b > a then b else a
  }
}
