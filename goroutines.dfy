/**
 * main/14-goroutines.go: goroutines that write to channels.  A channel is
 * modelled by the sequence of operations its producer performs on it
 * (`Send(v)` for `c <- v`, `Close` for `close(c)`), and a reader sees a
 * prefix of that sequence.  Scheduling is left out: one producer per
 * channel means the order of operations on it is fixed.
 */
module Goroutines {
  import opened Numbers

  datatype ChanOp = Send(v: int) | Close

  /** The operations of a producer that sends the values of `s` in order. */
  function Sends(s: seq<int>): (ops: seq<ChanOp>)
    ensures |ops| == |s|
    ensures forall i :: 0 <= i < |s| ==> ops[i] == Send(s[i])
  {
    seq(|s|, i requires 0 <= i < |s| => Send(s[i]))
  }

  /**
   * `v, ok := <-c` as the `k`-th receive from a channel whose producer did
   * `ops` and ended by closing it: the `k`-th sent value, or Go's zero value
   * and `false` once the channel is closed.  (Receiving past the end of a
   * channel that is never closed blocks forever, so that case is excluded.)
   */
  function Recv(ops: seq<ChanOp>, k: nat): (r: (int, bool))
    requires |ops| > 0 && ops[|ops| - 1] == Close
    ensures r.1 ==> k < |ops| && ops[k] == Send(r.0)
    ensures !r.1 ==> r.0 == 0 && (k < |ops| ==> ops[k] == Close)
  {
    if k < |ops| && ops[k].Send? then (ops[k].v, true) else (0, false)
  }

  /** Receiving from a channel that got the values `s` and was then closed. */
  lemma RecvAfterSends(s: seq<int>, k: nat)
    ensures Recv(Sends(s) + [Close], k) == if k < |s| then (s[k], true) else (0, false)
  {
  }

  // ---------------------------------------------------------------------
  // sum and fib

  /** `sum(s, c)`: adds up `s` in a 64-bit `int` and sends the total once. */
  method SumSend(s: seq<Int64>) returns (ops: seq<ChanOp>)
    ensures ops == [Send(Wrap(Sum(s)))]
  {
    var sum: Int64 := 0;
    var i := 0;
    while i < |s|
      invariant 0 <= i <= |s|
      invariant sum == Wrap(Sum(s[..i]))
    {
      assert s[..i + 1][..i] == s[..i];
      WrapAdd(Sum(s[..i]), s[i]);
      sum := Wrap(sum + s[i]);
      i := i + 1;
    }
    assert s[..i] == s;
    ops := [Send(sum)];
  }

  /**
   * `fib(n, c)`: sends F(0), ..., F(n - 1) (each wrapped to 64 bits; none
   * when `n <= 0`) and then closes the channel.
   */
  method FibSend(n: int) returns (ops: seq<ChanOp>)
    ensures |ops| == (if n > 0 then n else 0) + 1
    ensures forall i :: 0 <= i < |ops| - 1 ==> ops[i] == Send(FibInt64(i))
    ensures ops[|ops| - 1] == Close
  {
    var x: Int64, y: Int64 := 0, 1;
    var sent: seq<ChanOp> := [];
    var i := 0;
    while i < n
      invariant i == |sent| && i <= (if n > 0 then n else 0)
      invariant x == FibInt64(i) && y == FibInt64(i + 1)
      invariant forall k :: 0 <= k < i ==> sent[k] == Send(FibInt64(k))
    {
      sent := sent + [Send(x)];
      FibStep(i, x, y);
      x, y := y, Wrap(x + y);
      i := i + 1;
    }
    ops := sent + [Close];
  }

  // ---------------------------------------------------------------------
  // The tree exercise

  /** A binary tree of `int`s as built by the tour's `tree` package; `Nil` is a nil pointer. */
  datatype Tree = Nil | Node(left: Tree, value: Int64, right: Tree)

  function Size(t: Tree): nat
  {
    match t
    case Nil => 0
    case Node(l, _, r) => Size(l) + 1 + Size(r)
  }

  /** In-order: left subtree, value, right subtree. */
  function InOrder(t: Tree): seq<int>
  {
    match t
    case Nil => []
    case Node(l, v, r) => InOrder(l) + [v] + InOrder(r)
  }

  /** Right subtree, value, left subtree; a nil subtree gives nothing. */
  function ReverseInOrder(t: Tree): seq<int>
  {
    match t
    case Nil => []
    case Node(l, v, r) => ReverseInOrder(r) + [v] + ReverseInOrder(l)
  }

  function Reverse(s: seq<int>): (r: seq<int>)
    ensures |r| == |s|
    ensures forall i :: 0 <= i < |s| ==> r[i] == s[|s| - 1 - i]
  {
    if s == [] then [] else Reverse(s[1..]) + [s[0]]
  }

  /**
   * `_WalkTree(t, ch, isRoot)`: walks the right child (if not nil), sends
   * the value, walks the left child (if not nil), and closes the channel
   * only in the root call.  `t.Right` is read unconditionally, so `t` must
   * not be nil.
   */
  function WalkOps(t: Tree, isRoot: bool): (ops: seq<ChanOp>)
    requires t.Node?
    ensures |ops| == Size(t) + (if isRoot then 1 else 0)
    ensures Close in ops <==> isRoot
  {
    (if t.right.Node? then WalkOps(t.right, false) else [])
    + [Send(t.value)]
    + (if t.left.Node? then WalkOps(t.left, false) else [])
    + (if isRoot then [Close] else [])
  }

  /** `WalkTree(t, ch)`: the root call of `_WalkTree`. */
  function WalkTree(t: Tree): (ops: seq<ChanOp>)
    requires t.Node?
    ensures |ops| == Size(t) + 1
    ensures ops[|ops| - 1] == Close && Close !in ops[..|ops| - 1]
  {
    WalkOps(t, true)
  }

  lemma SendsAppend(s: seq<int>, u: seq<int>)
    ensures Sends(s + u) == Sends(s) + Sends(u)
  {
  }

  /**
   * The walk sends the reverse in-order sequence of values, one per node;
   * only the root call closes the channel, as its last operation.
   */
  lemma {:induction false} WalkOpsShape(t: Tree, isRoot: bool)
    requires t.Node?
    ensures WalkOps(t, isRoot) == Sends(ReverseInOrder(t)) + (if isRoot then [Close] else [])
  {
    var Node(l, v, r) := t;
    var right := if r.Node? then WalkOps(r, false) else [];
    var left := if l.Node? then WalkOps(l, false) else [];
    var tail: seq<ChanOp> := if isRoot then [Close] else [];
    if r.Node? { WalkOpsShape(r, false); }
    if l.Node? { WalkOpsShape(l, false); }
    assert right == Sends(ReverseInOrder(r));
    assert left == Sends(ReverseInOrder(l));
    assert Sends([v]) == [Send(v)];
    SendsAppend(ReverseInOrder(r), [v]);
    SendsAppend(ReverseInOrder(r) + [v], ReverseInOrder(l));
    calc {
      WalkOps(t, isRoot);
      right + [Send(v)] + left + tail;
      Sends(ReverseInOrder(r)) + Sends([v]) + Sends(ReverseInOrder(l)) + tail;
      Sends(ReverseInOrder(r) + [v] + ReverseInOrder(l)) + tail;
      Sends(ReverseInOrder(t)) + tail;
    }
  }

  /** The walk order is exactly in-order, reversed. */
  lemma {:induction false} ReverseInOrderIsReversed(t: Tree)
    ensures ReverseInOrder(t) == Reverse(InOrder(t))
  {
    match t
    case Nil =>
    case Node(l, v, r) =>
      ReverseInOrderIsReversed(l);
      ReverseInOrderIsReversed(r);
      var s := InOrder(l) + [v] + InOrder(r);
      assert Reverse(s) == Reverse(InOrder(r)) + [v] + Reverse(InOrder(l));
  }

  /** One value per node. */
  lemma {:induction false} WalkLength(t: Tree)
    ensures |ReverseInOrder(t)| == Size(t)
  {
    match t
    case Nil =>
    case Node(l, _, r) =>
      WalkLength(l);
      WalkLength(r);
  }

  /**
   * One round of the lockstep comparison of two walks that agree on their
   * first `k` values: what the two receives tell about the whole walks.
   */
  lemma LockstepRound(s1: seq<int>, s2: seq<int>, k: nat)
    requires k <= |s1| && k <= |s2| && s1[..k] == s2[..k]
    ensures var (i1, ok1) := Recv(Sends(s1) + [Close], k);
            var (i2, ok2) := Recv(Sends(s2) + [Close], k);
            && (i1 != i2 || ok1 != ok2 ==> s1 != s2)
            && (i1 == i2 && ok1 == ok2 && !ok1 ==> s1 == s2)
            && (i1 == i2 && ok1 == ok2 && ok1 ==> k < |s1| && k < |s2| && s1[..k + 1] == s2[..k + 1])
  {
    RecvAfterSends(s1, k);
    RecvAfterSends(s2, k);
    if k < |s1| && k < |s2| {
      assert s1[..k + 1] == s1[..k] + [s1[k]];
      assert s2[..k + 1] == s2[..k] + [s2[k]];
      if s1 == s2 {
        assert s1[k] == s2[k];
      }
    } else if k == |s1| && k == |s2| {
      assert s1 == s1[..k] && s2 == s2[..k];
    }
  }

  /**
   * `SameTree(t1, t2)`: reads one value from each walk per round; a
   * different value or one channel closed before the other gives false,
   * both closed together gives true.  True exactly when the two walks send
   * the same sequence.
   */
  method SameTree(t1: Tree, t2: Tree) returns (same: bool)
    requires t1.Node? && t2.Node?
    ensures same <==> ReverseInOrder(t1) == ReverseInOrder(t2)
    ensures same <==> InOrder(t1) == InOrder(t2)
  {
    SameTreeInOrder(t1, t2);
    var c1, c2 := WalkTree(t1), WalkTree(t2);
    ghost var s1, s2 := ReverseInOrder(t1), ReverseInOrder(t2);
    WalkOpsShape(t1, true);
    WalkOpsShape(t2, true);
    var k := 0;
    while true
      invariant k <= |s1| && k <= |s2|
      invariant s1[..k] == s2[..k]
      decreases |s1| - k
    {
      LockstepRound(s1, s2, k);
      var (i1, ok1) := Recv(c1, k);
      var (i2, ok2) := Recv(c2, k);
      if i1 != i2 || ok1 != ok2 {
        return false;
      } else if !ok1 {
        return true;
      }
      k := k + 1;
    }
  }

  lemma ReverseInjective(a: seq<int>, b: seq<int>)
    requires Reverse(a) == Reverse(b)
    ensures a == b
  {
    assert |a| == |b|;
    forall i | 0 <= i < |a|
      ensures a[i] == b[i]
    {
      assert Reverse(a)[|a| - 1 - i] == Reverse(b)[|a| - 1 - i];
    }
  }

  /**
   * Comparing the reverse in-order walks decides the same question as
   * comparing the in-order sequences.
   */
  lemma SameTreeInOrder(t1: Tree, t2: Tree)
    ensures ReverseInOrder(t1) == ReverseInOrder(t2) <==> InOrder(t1) == InOrder(t2)
  {
    ReverseInOrderIsReversed(t1);
    ReverseInOrderIsReversed(t2);
    if ReverseInOrder(t1) == ReverseInOrder(t2) {
      ReverseInjective(InOrder(t1), InOrder(t2));
    }
  }

  /** A tree compared with itself is the same tree. */
  method SameTreeReflexive(t: Tree) returns (same: bool)
    requires t.Node?
    ensures same
  {
    same := SameTree(t, t);
  }

  /** The comparison does not depend on the order of its arguments. */
  method SameTreeSymmetric(t1: Tree, t2: Tree) returns (forward: bool, backward: bool)
    requires t1.Node? && t2.Node?
    ensures forward == backward
  {
    forward := SameTree(t1, t2);
    backward := SameTree(t2, t1);
  }

  /** Trees that compare equal have the same number of nodes. */
  lemma {:induction false} SameWalkSameSize(t1: Tree, t2: Tree)
    requires ReverseInOrder(t1) == ReverseInOrder(t2)
    ensures Size(t1) == Size(t2)
  {
    WalkLength(t1);
    WalkLength(t2);
  }
}
