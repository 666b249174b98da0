/**
 * main/8-function.go: the closures returned by `adder()` and `fibonacci()`.
 * A closure's captured variables become the fields of an object; each
 * call of the closure is a call of the object's method.
 */
module Closures {
  import opened Numbers

  /** The closure returned by `adder()`: it captures `sum`, starting at 0. */
  class Adder {
    var sum: Int64
    /** The arguments of all calls so far, oldest first. */
    ghost var args: seq<Int64>

    ghost predicate Valid()
      reads this
    {
      sum == Wrap(Sum(args))
    }

    constructor ()
      ensures Valid() && args == [] && sum == 0
    {
      sum := 0;
      args := [];
    }

    /** `f(x)`: `sum += x`, then return the new `sum`. */
    method Call(x: Int64) returns (r: Int64)
      requires Valid()
      modifies this
      ensures Valid()
      ensures args == old(args) + [x]
      ensures sum == Wrap(old(sum) + x)
      ensures r == sum == Wrap(Sum(args))
    {
      sum := Wrap(sum + x);
      args := args + [x];
      assert args[..|args| - 1] == old(args);
      WrapAdd(Sum(old(args)), x);
      r := sum;
    }
  }

  /**
   * Two adders made by separate calls of `adder()` and called alternately,
   * the first with `xs[i]`, the second with `ys[i]`, as `pos` and `neg` are:
   * each ends with the (wrapped) total of its own arguments only.
   */
  method AlternateAdders(xs: seq<Int64>, ys: seq<Int64>) returns (p: Int64, n: Int64)
    requires |xs| == |ys|
    ensures p == Wrap(Sum(xs)) && n == Wrap(Sum(ys))
  {
    var pos := new Adder();
    var neg := new Adder();
    p, n := 0, 0;
    var i := 0;
    while i < |xs|
      invariant 0 <= i <= |xs|
      invariant pos != neg && pos.Valid() && neg.Valid()
      invariant pos.args == xs[..i] && neg.args == ys[..i]
      invariant p == pos.sum && n == neg.sum
    {
      p := pos.Call(xs[i]);
      n := neg.Call(ys[i]);
      assert xs[..i + 1] == xs[..i] + [xs[i]];
      assert ys[..i + 1] == ys[..i] + [ys[i]];
      i := i + 1;
    }
    assert xs[..i] == xs && ys[..i] == ys;
  }

  /** The closure returned by `fibonacci()`: it captures `a := 0, b := 1`. */
  class Fibonacci {
    var a: Int64
    var b: Int64
    /** How many times the closure has been called. */
    ghost var calls: nat

    /** `(a, b)` are consecutive Fibonacci numbers, `a` the `calls`-th one. */
    ghost predicate Valid()
      reads this
    {
      a == FibInt64(calls) && b == FibInt64(calls + 1)
    }

    constructor ()
      ensures Valid() && calls == 0
    {
      a, b := 0, 1;
      calls := 0;
    }

    /** `f()`: `tmp := a + b; a, b = b, tmp; return a`. */
    method Next() returns (r: Int64)
      requires Valid()
      modifies this
      ensures Valid() && calls == old(calls) + 1
      ensures a == old(b) && b == Wrap(old(a) + old(b))
      ensures r == a == FibInt64(calls)
    {
      var tmp := Wrap(a + b);
      FibStep(calls, a, b);
      a, b := b, tmp;
      calls := calls + 1;
      r := a;
    }
  }

  /**
   * Calling one `fibonacci()` closure `n` times yields Fib(1), ..., Fib(n):
   * 1, 1, 2, 3, 5, ... (each wrapped to 64 bits).
   */
  method FibonacciCalls(n: nat) returns (out: seq<Int64>)
    ensures |out| == n
    ensures forall k :: 0 <= k < n ==> out[k] == FibInt64(k + 1)
  {
    var f := new Fibonacci();
    out := [];
    while |out| < n
      invariant |out| <= n
      invariant f.Valid() && f.calls == |out|
      invariant forall k :: 0 <= k < |out| ==> out[k] == FibInt64(k + 1)
    {
      var v := f.Next();
      out := out + [v];
    }
  }
}
