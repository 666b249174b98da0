/**
 * main/12-readers.go: two `io.Reader`s.  `MyReader` fills a buffer with the
 * letter 'A'; `rot13Reader` wraps another reader and applies ROT13 to the
 * buffer in place.
 */
module Readers {
  import opened Wrappers

  type Byte = x: int | 0 <= x < 256

  predicate IsLower(c: Byte) { 'a' as int <= c <= 'z' as int }
  predicate IsUpper(c: Byte) { 'A' as int <= c <= 'Z' as int }

  /** The switch of `rot13Reader.Read` on one byte, in the source's case order. */
  function Rot13(c: Byte): (r: Byte)
    ensures IsLower(r) <==> IsLower(c)
    ensures IsUpper(r) <==> IsUpper(c)
    ensures !IsLower(c) && !IsUpper(c) ==> r == c
  {
    if c < 'n' as int && c >= 'a' as int then c + 13
    else if c >= 'n' as int && c <= 'z' as int then c - 13
    else if c < 'N' as int && c >= 'A' as int then c + 13
    else if c >= 'N' as int && c <= 'Z' as int then c - 13
    else c
  }

  /**
   * Reference definition: the Caesar shift by `k` places within the
   * letter's own case; other bytes are kept.
   */
  function Caesar(c: Byte, k: nat): Byte
  {
    if IsLower(c) then 'a' as int + (c - 'a' as int + k) % 26
    else if IsUpper(c) then 'A' as int + (c - 'A' as int + k) % 26
    else c
  }

  /** The per-byte rule, case by case. */
  lemma Rot13Cases(c: Byte)
    ensures 'a' as int <= c <= 'm' as int ==> Rot13(c) == c + 13
    ensures 'n' as int <= c <= 'z' as int ==> Rot13(c) == c - 13
    ensures 'A' as int <= c <= 'M' as int ==> Rot13(c) == c + 13
    ensures 'N' as int <= c <= 'Z' as int ==> Rot13(c) == c - 13
    ensures !IsLower(c) && !IsUpper(c) ==> Rot13(c) == c
  {
  }

  /** ROT13 is the Caesar shift by 13. */
  lemma Rot13IsCaesar(c: Byte)
    ensures Rot13(c) == Caesar(c, 13)
  {
  }

  /** A letter keeps its case; a non-letter stays a non-letter. */
  lemma Rot13KeepsCase(c: Byte)
    ensures IsLower(Rot13(c)) <==> IsLower(c)
    ensures IsUpper(Rot13(c)) <==> IsUpper(c)
  {
  }

  /** Rotating a byte twice gives it back. */
  lemma Rot13Involutive(c: Byte)
    ensures Rot13(Rot13(c)) == c
  {
  }

  /** ROT13 applied to every byte of `s`. */
  function Rot13All(s: seq<Byte>): (r: seq<Byte>)
    ensures |r| == |s|
    ensures forall i :: 0 <= i < |s| ==> r[i] == Rot13(s[i])
  {
    if s == [] then [] else [Rot13(s[0])] + Rot13All(s[1..])
  }

  /** Rotating a whole buffer twice gives it back. */
  lemma {:induction false} Rot13AllInvolutive(s: seq<Byte>)
    ensures Rot13All(Rot13All(s)) == s
  {
    forall i | 0 <= i < |s|
      ensures Rot13All(Rot13All(s))[i] == s[i]
    {
      Rot13Involutive(s[i]);
    }
  }

  /**
   * `rot13Reader.Read(b)`.  The wrapped reader is outside the model: on
   * entry `b` holds whatever the wrapped reader's `Read` left in it, and
   * `length, err` are what that call returned.  Every byte of `b` is
   * rotated, not only the first `length`, and the wrapped reader's result
   * is passed through unchanged.
   */
  method Rot13Read(b: array<Byte>, length: int, err: Error) returns (n: int, e: Error)
    modifies b
    ensures b[..] == Rot13All(old(b[..]))
    ensures n == length && e == err
  {
    var i := 0;
    while i < b.Length
      invariant 0 <= i <= b.Length
      invariant forall k :: 0 <= k < i ==> b[k] == Rot13(old(b[k]))
      invariant forall k :: i <= k < b.Length ==> b[k] == old(b[k])
    {
      b[i] := Rot13(b[i]);
      i := i + 1;
    }
    n, e := length, err;
  }

  /**
   * `MyReader.Read(b)` as written: `copy(b, "A")` writes 'A' into `b[0]`
   * when there is room, and the call reports one byte read and no error
   * whatever the length of `b`.
   */
  method MyRead(b: array<Byte>) returns (n: int, e: Error)
    modifies b
    ensures n == 1 && e == None
    ensures b.Length >= 1 ==> b[0] == 'A' as int
    ensures forall k :: 1 <= k < b.Length ==> b[k] == old(b[k])
  {
    if b.Length >= 1 {
      b[0] := 'A' as int;
    }
    n, e := 1, None;
  }

  /**
   * On an empty buffer, `MyRead` reports more bytes than the buffer can
   * hold, breaking the `io.Reader` rule `0 <= n <= len(b)`.
   */
  method MyReadEmptyBuffer() returns (n: int, capacity: int)
    ensures capacity == 0 && n > capacity
  {
    var b := new Byte[0];
    var e;
    n, e := MyRead(b);
    capacity := b.Length;
  }

  /** `MyReader.Read` reporting the number of bytes `copy` actually wrote. */
  method MyReadBounded(b: array<Byte>) returns (n: int, e: Error)
    modifies b
    ensures 0 <= n <= b.Length && n == if b.Length >= 1 then 1 else 0
    ensures e == None
    ensures forall k :: 0 <= k < n ==> b[k] == 'A' as int
    ensures forall k :: n <= k < b.Length ==> b[k] == old(b[k])
  {
    if b.Length >= 1 {
      b[0] := 'A' as int;
      n := 1;
    } else {
      n := 0;
    }
    e := None;
  }
}
