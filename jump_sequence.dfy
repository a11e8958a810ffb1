/**
 The sequence of jump targets of the jump consistent hash, and the facts
 about it that make the hash consistent.

 Iteration i >= 1 of the loop jumps from the previous target with the i-th
 divisor drawn from the key. Here the divisors are any stream of values in
 [1, JUMP], so that these facts hold whatever the key: the bucket count
 only decides where the sequence of targets is cut.
 */
module JumpSequence {
  import opened JavaLong

  /** `JUMP`, which is `1L << 31`. */
  const JUMP: Long := 0x8000_0000

  /**
   The floating-point step of the loop: from the previous target b and the
   value d of the divisor it gives `(long) ((b + 1L) * (JUMP / d))`.
   */
  type FloatJump = (Long, int) -> Long

  /**
   What the model assumes of the floating-point step: it moves at least one
   bucket ahead. The exact quotient JUMP / d is at least 1 for d <= JUMP, so
   its rounded value is at least 1.0, and b + 1 <= 2^31 is exact in a double;
   their product truncated to a `long` is then at least b + 1.
   */
  ghost predicate Advances(jump: FloatJump)
  {
    forall b: Long, d: int :: 0 <= b < JUMP && 1 <= d <= JUMP ==> jump(b, d) >= b + 1
  }

  /** A stream of divisors the loop can draw: every one lies in [1, JUMP]. */
  ghost predicate ValidDivisors(divisors: nat -> int)
  {
    forall i: nat :: 1 <= divisors(i) <= JUMP
  }

  /** The value of `j` after i iterations of the loop. */
  function Target(divisors: nat -> int, jump: FloatJump, i: nat): (r: Long)
  {
    if i == 0 then 0 else jump(Target(divisors, jump, i - 1), divisors(i))
  }

  /** Each new target lies strictly beyond the one it jumps from. */
  lemma TargetAdvances(divisors: nat -> int, jump: FloatJump, i: nat)
    requires ValidDivisors(divisors) && Advances(jump)
    requires 0 <= Target(divisors, jump, i) < JUMP
    ensures Target(divisors, jump, i + 1) > Target(divisors, jump, i)
  {
    assert Target(divisors, jump, i + 1) == jump(Target(divisors, jump, i), divisors(i + 1));
  }

  /**
   While the targets stay below a bucket count, each is at least its
   index: every iteration moves at least one bucket ahead.
   */
  lemma {:induction false} TargetsGrow(divisors: nat -> int, jump: FloatJump, i: nat, buckets: Int)
    requires ValidDivisors(divisors) && Advances(jump)
    requires forall m: nat :: m < i ==> Target(divisors, jump, m) < buckets
    ensures i <= Target(divisors, jump, i)
  {
    if i > 0 {
      TargetsGrow(divisors, jump, i - 1, buckets);
      TargetAdvances(divisors, jump, i - 1);
    }
  }

  /**
   The index of the first target at or beyond `buckets`, searching from
   target i: the iteration after which the loop stops.
   */
  function IterationsFrom(divisors: nat -> int, jump: FloatJump, buckets: Int, i: nat): (r: nat)
    requires ValidDivisors(divisors) && Advances(jump)
    requires 0 <= Target(divisors, jump, i)
    decreases buckets - Target(divisors, jump, i)
  {
    if Target(divisors, jump, i) < buckets then
      TargetAdvances(divisors, jump, i);
      IterationsFrom(divisors, jump, buckets, i + 1)
    else i
  }

  /** The number of iterations the loop makes for `buckets` buckets. */
  function Iterations(divisors: nat -> int, jump: FloatJump, buckets: Int): (r: nat)
    requires ValidDivisors(divisors) && Advances(jump)
  {
    IterationsFrom(divisors, jump, buckets, 0)
  }

  /**
   From iteration i on, the loop stops at the first target at or beyond
   `buckets`: every target before it is below `buckets`.
   */
  lemma {:induction false} IterationsFromStop(divisors: nat -> int, jump: FloatJump, buckets: Int, i: nat)
    requires ValidDivisors(divisors) && Advances(jump)
    requires 0 <= Target(divisors, jump, i)
    ensures i <= IterationsFrom(divisors, jump, buckets, i)
    ensures buckets <= Target(divisors, jump, IterationsFrom(divisors, jump, buckets, i))
    ensures forall m: nat :: i <= m < IterationsFrom(divisors, jump, buckets, i) ==> Target(divisors, jump, m) < buckets
    decreases buckets - Target(divisors, jump, i)
  {
    if Target(divisors, jump, i) < buckets {
      TargetAdvances(divisors, jump, i);
      IterationsFromStop(divisors, jump, buckets, i + 1);
      assert IterationsFrom(divisors, jump, buckets, i) == IterationsFrom(divisors, jump, buckets, i + 1);
    }
  }

  /** The loop stops at the first target at or beyond `buckets`. */
  lemma IterationsStop(divisors: nat -> int, jump: FloatJump, buckets: Int)
    requires ValidDivisors(divisors) && Advances(jump)
    ensures buckets <= Target(divisors, jump, Iterations(divisors, jump, buckets))
    ensures forall m: nat :: m < Iterations(divisors, jump, buckets) ==> Target(divisors, jump, m) < buckets
  {
    IterationsFromStop(divisors, jump, buckets, 0);
  }

  /**
   The value of `b` when the loop stops: the last target below `buckets`,
   or -1 when the loop never runs.
   */
  function LastTargetBelow(divisors: nat -> int, jump: FloatJump, buckets: Int): (r: Int)
    requires 0 <= buckets
    requires ValidDivisors(divisors) && Advances(jump)
  {
    var n := Iterations(divisors, jump, buckets);
    IterationsStop(divisors, jump, buckets);
    if n == 0 then -1
    else
      TargetsGrow(divisors, jump, n - 1, buckets);
      Target(divisors, jump, n - 1)
  }

  /** After n iterations `b` holds target n - 1, or -1 if n is 0. */
  lemma LastTargetBelowAfter(divisors: nat -> int, jump: FloatJump, buckets: Int, n: nat)
    requires 0 <= buckets
    requires ValidDivisors(divisors) && Advances(jump)
    requires Iterations(divisors, jump, buckets) == n
    ensures LastTargetBelow(divisors, jump, buckets) == if n == 0 then -1 else Target(divisors, jump, n - 1)
  {
  }

  /** With no bucket the loop never runs and the result is the sentinel -1. */
  lemma NoBucketsNoIterations(divisors: nat -> int, jump: FloatJump)
    requires ValidDivisors(divisors) && Advances(jump)
    ensures Iterations(divisors, jump, 0) == 0
    ensures LastTargetBelow(divisors, jump, 0) == -1
  {
  }

  /** With at least one bucket the result is a bucket: it lies in [0, buckets). */
  lemma LastTargetBelowInRange(divisors: nat -> int, jump: FloatJump, buckets: Int)
    requires 0 < buckets
    requires ValidDivisors(divisors) && Advances(jump)
    ensures 0 <= LastTargetBelow(divisors, jump, buckets) < buckets
  {
    IterationsStop(divisors, jump, buckets);
    var n := Iterations(divisors, jump, buckets);
    assert n != 0;
    TargetsGrow(divisors, jump, n - 1, buckets);
  }

  /** The loop makes at most `buckets` iterations. */
  lemma IterationsAtMostBuckets(divisors: nat -> int, jump: FloatJump, buckets: Int)
    requires 0 <= buckets
    requires ValidDivisors(divisors) && Advances(jump)
    ensures Iterations(divisors, jump, buckets) <= buckets
  {
    IterationsStop(divisors, jump, buckets);
    var n := Iterations(divisors, jump, buckets);
    if n > 0 {
      TargetsGrow(divisors, jump, n - 1, buckets);
    }
  }

  /**
   The result is the target reached just before the first one at or beyond
   `buckets`: if the targets 0 .. i are below `buckets` and target i + 1 is
   not, the result is target i.
   */
  lemma IsLastTargetBelow(divisors: nat -> int, jump: FloatJump, buckets: Int, i: nat)
    requires 0 <= buckets
    requires ValidDivisors(divisors) && Advances(jump)
    requires forall m: nat :: m <= i ==> Target(divisors, jump, m) < buckets
    requires buckets <= Target(divisors, jump, i + 1)
    ensures LastTargetBelow(divisors, jump, buckets) == Target(divisors, jump, i)
  {
    IterationsStop(divisors, jump, buckets);
    var n := Iterations(divisors, jump, buckets);
    assert n == i + 1;
  }

  /**
   The keys that move when bucket `buckets` is added are exactly those whose
   first target at or beyond the old count is the new bucket itself; they
   all move to it.
   */
  lemma MovesOnlyToNewBucket(divisors: nat -> int, jump: FloatJump, buckets: Int)
    requires 0 <= buckets < 0x7fff_ffff
    requires ValidDivisors(divisors) && Advances(jump)
    ensures var n := Iterations(divisors, jump, buckets);
      if Target(divisors, jump, n) == buckets
      then LastTargetBelow(divisors, jump, buckets + 1) == buckets
      else LastTargetBelow(divisors, jump, buckets + 1) == LastTargetBelow(divisors, jump, buckets)
  {
    IterationsStop(divisors, jump, buckets);
    var n := Iterations(divisors, jump, buckets);
    if Target(divisors, jump, n) == buckets {
      TargetAdvances(divisors, jump, n);
      IsLastTargetBelow(divisors, jump, buckets + 1, n);
    } else {
      assert n > 0;
      IsLastTargetBelow(divisors, jump, buckets + 1, n - 1);
    }
  }
}
