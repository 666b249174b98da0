/** basic.go: the integer helper `add` and the two spellings of `swap`. */
module Basic {
  import opened Numbers

  /** `add(a, b)`: Go's `a + b` on 64-bit ints, wrapping on overflow. */
  function Add(a: Int64, b: Int64): (r: Int64)
    ensures (r - (a + b)) % Modulus == 0
    ensures MinInt64 <= a + b <= MaxInt64 ==> r == a + b
    ensures 0 < b && r < a ==> a + b > MaxInt64
  {
    Wrap(a + b)
  }

  /** `swap(a, b)`: the pair with its components exchanged. */
  function Swap<T>(a: T, b: T): (r: (T, T))
    ensures r.0 == b && r.1 == a
  {
    (b, a)
  }

  /** `swap2(a, b)`: the same exchange, through named results `x, y`. */
  method Swap2<T>(a: T, b: T) returns (x: T, y: T)
    ensures (x, y) == Swap(a, b)
  {
    x, y := b, a;
  }

  /** Swapping the result of a swap gives back the original pair. */
  lemma SwapInvolutive<T>(a: T, b: T)
    ensures Swap(Swap(a, b).0, Swap(a, b).1) == (a, b)
  {
  }
}
