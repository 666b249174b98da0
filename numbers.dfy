/**
 * Go's `int` on a 64-bit platform: two's-complement integers that wrap
 * around modulo 2^64.  Every `+` on an `int` in the modelled files goes
 * through `Wrap`.  Also the two mathematical functions the files compute
 * incrementally: the Fibonacci numbers and the sum of a sequence.
 */
module Numbers {

  const Modulus: int := 0x1_0000_0000_0000_0000
  const MinInt64: int := -0x8000_0000_0000_0000
  const MaxInt64: int := 0x7FFF_FFFF_FFFF_FFFF

  type Int64 = x: int | MinInt64 <= x <= MaxInt64

  /** The two's-complement reading of `x` truncated to 64 bits. */
  function Wrap(x: int): (r: Int64)
    ensures (r - x) % Modulus == 0
    ensures MinInt64 <= x <= MaxInt64 ==> r == x
  {
    (x - MinInt64) % Modulus + MinInt64
  }

  /** `Wrap` picks the one value of the signed range congruent to `x`. */
  lemma {:induction false} WrapUnique(x: int, r: int)
    requires MinInt64 <= r <= MaxInt64
    requires (r - x) % Modulus == 0
    ensures Wrap(x) == r
  {
    var w := Wrap(x);
    var q1 := (w - x) / Modulus;
    var q2 := (r - x) / Modulus;
    assert w - x == Modulus * q1;
    assert r - x == Modulus * q2;
    assert w - r == Modulus * (q1 - q2);
  }

  /** Adding wrapped values and wrapping again is the same as wrapping once. */
  lemma {:induction false} WrapAdd(x: int, y: int)
    ensures Wrap(Wrap(x) + Wrap(y)) == Wrap(x + y)
  {
    var wx, wy := Wrap(x), Wrap(y);
    var z := Wrap(wx + wy);
    var qx, qy, qz := (wx - x) / Modulus, (wy - y) / Modulus, (z - (wx + wy)) / Modulus;
    assert wx - x == Modulus * qx;
    assert wy - y == Modulus * qy;
    assert z - (wx + wy) == Modulus * qz;
    assert z - (x + y) == Modulus * (qx + qy + qz);
    WrapUnique(x + y, z);
  }

  /** Fib(0) = 0, Fib(1) = 1, Fib(n + 2) = Fib(n) + Fib(n + 1). */
  function Fib(n: nat): nat
  {
    if n < 2 then n else Fib(n - 2) + Fib(n - 1)
  }

  /** Fib(n) as a Go `int`: what the iterative computations hold after wrap-around. */
  function FibInt64(n: nat): Int64
  {
    Wrap(Fib(n))
  }

  /** One step `x, y = y, x+y` of the recurrence, in 64-bit arithmetic. */
  lemma {:induction false} FibStep(n: nat, x: Int64, y: Int64)
    requires x == FibInt64(n) && y == FibInt64(n + 1)
    ensures Wrap(x + y) == FibInt64(n + 2)
  {
    WrapAdd(Fib(n), Fib(n + 1));
  }

  /** The mathematical sum of a sequence, adding from the front. */
  function Sum(s: seq<int>): int
  {
    if s == [] then 0 else Sum(s[..|s| - 1]) + s[|s| - 1]
  }
}
