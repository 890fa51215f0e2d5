/** Shared vocabulary: bytes, Python's exception kinds and a failure-compatible result. */
module Common {

  /** One byte of a Python 2 byte string (the value of ord(c)). */
  type Byte = b: int | 0 <= b < 256

  /** The exception classes the modelled code raises or lets escape. */
  datatype Error =
    | ValueError
    | KeyError
    | IndexError
    | NameError       // an unbound local variable (UnboundLocalError)
    | TypeError
    | AttributeError
    | AssertionError
    | OverflowError
    | RuntimeError    // recursion that never ends (maximum recursion depth exceeded)

  datatype Option<+T> = None | Some(value: T)

  /** Either the value a call returns or the exception it raises. */
  datatype Result<+T> = Ok(value: T) | Err(error: Error) {
    predicate IsFailure() { Err? }

    function PropagateFailure<U>(): Result<U>
      requires Err?
    {
      Err(error)
    }

    function Extract(): T
      requires Ok?
    {
      value
    }
  }

  /** Python's `[x] * n` and `"x" * n`: empty when n is not positive. */
  function Repeat<T>(x: T, n: int): (r: seq<T>)
    ensures |r| == if n < 0 then 0 else n
    ensures forall i :: 0 <= i < |r| ==> r[i] == x
    decreases if n < 0 then 0 else n
  {
    if n <= 0 then [] else [x] + Repeat(x, n - 1)
  }

  /** No element occurs twice. */
  predicate Distinct<T(==)>(s: seq<T>)
  {
    forall i, j :: 0 <= i < j < |s| ==> s[i] != s[j]
  }

  /** 2 to the power n. */
  function Pow2(n: nat): (r: nat)
    ensures r >= 1
  {
    if n == 0 then 1 else 2 * Pow2(n - 1)
  }

  /** 256 to the power n: the number of values n bytes can hold. */
  function Pow256(n: nat): (r: nat)
    ensures r >= 1
  {
    if n == 0 then 1 else 256 * Pow256(n - 1)
  }
}
