/**
 * The Fibonacci helper of the procedures lab: an iterative computation that
 * rejects negative arguments, proved equal to the recursive definition.
 */
module Fibonacci {

  /** Outcome of `fib`: a value, or the ValueError raised for a negative argument. */
  datatype FibResult = Ok(value: int) | ValueError(message: string)

  /** The message carried by the error for a negative argument. */
  const NegativeArgumentMessage: string := "n must be >= 0"

  /** The reference definition: Fib(0) == 0, Fib(1) == 1, Fib(n) == Fib(n-1) + Fib(n-2). */
  function Fib(n: nat): nat
  {
    if n < 2 then n else Fib(n - 1) + Fib(n - 2)
  }

  /**
   * The iterative computation: fails exactly on a negative argument and
   * otherwise yields the n-th Fibonacci number of the recursive definition.
   */
  method ComputeFib(n: int) returns (r: FibResult)
    ensures r.ValueError? <==> n < 0
    ensures r.ValueError? ==> r.message == NegativeArgumentMessage
    ensures n >= 0 ==> r == Ok(Fib(n))
  {
    if n < 0 {
      return ValueError(NegativeArgumentMessage);
    }
    if n == 0 {
      return Ok(0);
    }
    if n == 1 {
      return Ok(1);
    }
    var a, b := 0, 1;
    for i := 2 to n + 1
      invariant a == Fib(i - 2) && b == Fib(i - 1)
    {
      a, b := b, a + b;
    }
    return Ok(b);
  }

  /** One step of the sequence never decreases it. */
  lemma FibStep(n: nat)
    ensures Fib(n) <= Fib(n + 1)
  {
  }

  /** The sequence is monotonically non-decreasing. */
  lemma {:induction false} FibMonotone(n: nat, m: nat)
    requires n <= m
    ensures Fib(n) <= Fib(m)
  {
    if n < m {
      FibMonotone(n, m - 1);
      FibStep(m - 1);
    }
  }

  /** The values listed for the helper: fib(0), fib(1), fib(10) and fib(-1). */
  method FibExamples()
  {
    var r := ComputeFib(0);
    assert r == Ok(0);
    r := ComputeFib(1);
    assert r == Ok(1);
    r := ComputeFib(10);
    assert Fib(10) == 55;
    assert r == Ok(55);
    r := ComputeFib(-1);
    assert r.ValueError?;
  }
}
