/**
 The jump consistent hash of Lamping and Veach ("A Fast, Minimal Memory,
 Consistent Hash Algorithm", 2014) as the utility class `JumpConsistentHash`
 implements it: a `long` key and an `int` bucket count give a bucket in
 [0, buckets).

 The loop's one floating-point step is a parameter `jump` of the model,
 constrained only by `JumpSequence.Advances`. Every other step is integer
 arithmetic on `long`s and is modelled exactly.
 */
module JumpConsistentHash {
  import opened JavaLong
  import opened JumpSequence

  /** `UNSIGNED_MASK`: all the bits of a `long` except the sign bit. */
  const UNSIGNED_MASK: Long := 0x7fff_ffff_ffff_ffff

  /**
   `CONSTANT`, the multiplier of the generator. It is parsed as an unsigned
   number; being below 2^63, it is also the value the `long` holds.
   */
  const CONSTANT: Long := 2862933555777941757

  /** The message of the exception a negative bucket count raises. */
  const NEGATIVE_BUCKETS: string := "Buckets cannot be less than 0"

  datatype Option<T> = None | Some(value: T)

  /** How a call ends: with a bucket, or with an `IllegalArgumentException`. */
  datatype Outcome = Bucket(index: Int) | IllegalArgument(message: string)

  /** `checkBuckets`: the message of the exception thrown, if one is. */
  function CheckBuckets(buckets: Int): (thrown: Option<string>)
    ensures thrown.Some? <==> buckets < 0
    ensures thrown.Some? ==> thrown.value == NEGATIVE_BUCKETS
  {
    if buckets < 0 then Some(NEGATIVE_BUCKETS) else None
  }

  /**
   `toDouble`: the value of `n` read as an unsigned 64-bit number. The sign
   bit is masked off and, when it was set, its weight 2^63 is added back.
   */
  method ToDouble(n: Long) returns (d: int)
    ensures d == Unsigned(n)
    ensures 0 <= d < TWO_64
  {
    d := And(n, UNSIGNED_MASK);
    MaskKeepsLow63(n);
    SignBitWeight(n);
    if n < 0 {
      d := d + TWO_63;
    }
  }

  /** `n & UNSIGNED_MASK` is the unsigned reading of `n` without its top bit. */
  lemma MaskKeepsLow63(n: Long)
    ensures And(n, UNSIGNED_MASK) == Unsigned(n) % TWO_63
  {
    var u := Unsigned(n);
    assert Unsigned(UNSIGNED_MASK) == UNSIGNED_MASK;
    assert NatAnd(u, UNSIGNED_MASK) == u % TWO_63 by {
      Pow2Values();
      NatAndLowMask(u, 63);
    }
    NonNegativeBelow63(And(n, UNSIGNED_MASK));
  }

  /** The unsigned reading is its low 63 bits plus 2^63 when the sign bit is set. */
  lemma SignBitWeight(n: Long)
    ensures Unsigned(n) == Unsigned(n) % TWO_63 + (if n < 0 then TWO_63 else 0)
  {
  }

  /** A `long` whose unsigned reading is below 2^63 is that reading. */
  lemma NonNegativeBelow63(r: Long)
    requires Unsigned(r) < TWO_63
    ensures r == Unsigned(r)
  {
  }

  /**
   One step `k * CONSTANT + 1L` of the generator in `long` arithmetic: on the
   unsigned readings it is the step of the unsigned 64-bit generator.
   */
  function LcgStep(k: Long): (next: Long)
    ensures Unsigned(next) == (Unsigned(k) * CONSTANT + 1) % TWO_64
  {
    LcgStepUnsigned(k);
    Wrap(Wrap(k * CONSTANT) + 1)
  }

  /** The signed `long` step and the unsigned 64-bit step agree on the bits. */
  lemma LcgStepUnsigned(k: Long)
    ensures Unsigned(Wrap(Wrap(k * CONSTANT) + 1)) == (Unsigned(k) * CONSTANT + 1) % TWO_64
  {
    var p: int := Wrap(k * CONSTANT);
    LcgCongruence(k, p);
    UnsignedWrap(p + 1);
  }

  /** Any p congruent to k * CONSTANT gives the unsigned step after adding 1. */
  lemma LcgCongruence(k: int, p: int)
    requires (k * CONSTANT - p) % TWO_64 == 0
    ensures (p + 1) % TWO_64 == ((k % TWO_64) * CONSTANT + 1) % TWO_64
  {
    var u := k % TWO_64;
    var a := k / TWO_64;
    var c := (k * CONSTANT - p) / TWO_64;
    assert k == a * TWO_64 + u;
    assert k * CONSTANT - p == c * TWO_64;
    assert p + 1 == u * CONSTANT + 1 + (a * CONSTANT - c) * TWO_64;
    ModShift(u * CONSTANT + 1, a * CONSTANT - c);
  }

  /** Adding a multiple of 2^64 does not change the remainder modulo 2^64. */
  lemma ModShift(x: int, q: int)
    ensures (x + q * TWO_64) % TWO_64 == x % TWO_64
  {
  }

  /**
   The value of the divisor `toDouble((k >>> 33) + 1L)`: the top 31 bits of
   the generator state, plus one, so never zero and at most JUMP.
   */
  function Divisor(k: Long): (d: int)
    ensures 1 <= d <= JUMP
  {
    TopBitsBelowJump(k);
    Unsigned(ShiftRightUnsigned(k, 33) + 1)
  }

  /** `k >>> 33` keeps the top 31 bits of `k`: a value in [0, JUMP). */
  lemma TopBitsBelowJump(k: Long)
    ensures 0 <= ShiftRightUnsigned(k, 33) < JUMP
  {
    Pow2Values();
    assert 64 - 33 == 31;
  }

  /** The divisor is the top 31 bits of the generator state, plus one. */
  lemma DivisorIsTopBits(k: Long)
    ensures Divisor(k) == Unsigned(k) / 0x2_0000_0000 + 1
  {
    ShiftIsDivision(k, 33);
    Pow2Values();
    TopBitsBelowJump(k);
  }

  /** The generator state `k` after i iterations of the loop. */
  function KeyAfter(key: Long, i: nat): (r: Long)
  {
    if i == 0 then key else LcgStep(KeyAfter(key, i - 1))
  }

  /**
   The divisors the loop draws for `key`: the one of iteration i, i >= 1,
   comes from the generator state after i steps.
   */
  function Divisors(key: Long): (r: nat -> int)
  {
    (i: nat) => Divisor(KeyAfter(key, i))
  }

  /** Every divisor drawn for a key lies in [1, JUMP]. */
  lemma DivisorsValid(key: Long)
    ensures ValidDivisors(Divisors(key))
  {
    forall i: nat ensures 1 <= Divisors(key)(i) <= JUMP {
      assert Divisors(key)(i) == Divisor(KeyAfter(key, i));
    }
  }

  /** `divisors` is the stream of divisors the loop draws for `key`. */
  ghost predicate DrawnFor(key: Long, divisors: nat -> int)
  {
    forall i: nat :: divisors(i) == Divisor(KeyAfter(key, i))
  }

  /** `Divisors(key)` is the stream drawn for `key`. */
  lemma DivisorsDrawn(key: Long)
    ensures DrawnFor(key, Divisors(key))
  {
    forall i: nat ensures Divisors(key)(i) == Divisor(KeyAfter(key, i)) {
    }
  }

  /**
   `jumpConsistentHash(key, buckets)` for a bucket count `checkBuckets`
   accepts (buckets >= 0): the last target of the key below `buckets`, or
   -1 when the loop never runs. The bucket count only decides where the
   key's sequence of targets is cut.
   */
  function Hash(key: Long, buckets: Int, jump: FloatJump): (r: Int)
    requires 0 <= buckets
    requires Advances(jump)
    ensures buckets == 0 ==> r == -1
    ensures 0 < buckets ==> 0 <= r < buckets
  {
    DivisorsValid(key);
    var r := LastTargetBelow(Divisors(key), jump, buckets);
    assert 0 < buckets ==> 0 <= r < buckets by {
      if 0 < buckets {
        LastTargetBelowInRange(Divisors(key), jump, buckets);
      }
    }
    assert buckets == 0 ==> r == -1 by {
      NoBucketsNoIterations(Divisors(key), jump);
    }
    r
  }

  /**
   `jumpConsistentHash(long, int)`. A negative bucket count raises an
   `IllegalArgumentException` before anything is computed; otherwise the
   loop runs and its last target is returned, narrowed to an `int`.
   */
  method HashLong(key: Long, buckets: Int, jump: FloatJump) returns (result: Outcome)
    requires Advances(jump)
    ensures buckets < 0 <==> result.IllegalArgument?
    ensures buckets < 0 ==> result == IllegalArgument(NEGATIVE_BUCKETS)
    ensures 0 <= buckets ==> result == Bucket(Hash(key, buckets, jump))
    ensures buckets == 0 ==> result == Bucket(-1)
    ensures 0 < buckets ==> result.Bucket? && 0 <= result.index < buckets
  {
    var thrown := CheckBuckets(buckets);
    if thrown.Some? {
      return IllegalArgument(thrown.value);
    }
    DivisorsValid(key);
    DivisorsDrawn(key);
    var b := FollowTargets(key, buckets, jump, Divisors(key));
    NoBucketsNoIterations(Divisors(key), jump);
    if 0 < buckets {
      LastTargetBelowInRange(Divisors(key), jump, buckets);
    }
    return Bucket(IntCast(b));
  }

  /**
   The loop of `jumpConsistentHash`: from target 0, the generator draws the
   next divisor and `jump` the next target while the target is below
   `buckets`; `b` keeps the last target reached below `buckets`, -1 if none.
   `divisors` names, for the proof, the divisors the generator draws.
   */
  method FollowTargets(key: Long, buckets: Int, jump: FloatJump, ghost divisors: nat -> int) returns (b: Long)
    requires 0 <= buckets
    requires Advances(jump) && ValidDivisors(divisors) && DrawnFor(key, divisors)
    ensures b == LastTargetBelow(divisors, jump, buckets)
    ensures -1 <= b < buckets
  {
    var k: Long := key;
    b := -1;
    var j: Long := 0;
    ghost var n: nat := 0;
    while j < buckets
      invariant k == KeyAfter(key, n)
      invariant j == Target(divisors, jump, n)
      invariant b == if n == 0 then -1 else Target(divisors, jump, n - 1)
      invariant -1 <= b < j && b < buckets
      invariant Iterations(divisors, jump, buckets) == IterationsFrom(divisors, jump, buckets, n)
      decreases buckets - j
    {
      ghost var next := n + 1;
      FollowStep(key, buckets, jump, divisors, n, next, k, j);
      b := j;
      k := LcgStep(k);
      var d := ToDouble(ShiftRightUnsigned(k, 33) + 1);
      j := jump(b, d);
      n := next;
    }
    assert Iterations(divisors, jump, buckets) == n;
    LastTargetBelowAfter(divisors, jump, buckets, n);
  }

  /**
   One iteration of the loop of `jumpConsistentHash` moves every quantity
   of the loop from its value after n iterations to its value after
   next = n + 1.
   */
  lemma FollowStep(key: Long, buckets: Int, jump: FloatJump, divisors: nat -> int, n: nat, next: nat, k: Long, j: Long)
    requires 0 <= buckets
    requires Advances(jump) && ValidDivisors(divisors) && DrawnFor(key, divisors)
    requires next == n + 1
    requires k == KeyAfter(key, n)
    requires 0 <= j == Target(divisors, jump, n) < buckets
    requires Iterations(divisors, jump, buckets) == IterationsFrom(divisors, jump, buckets, n)
    ensures LcgStep(k) == KeyAfter(key, next)
    ensures 0 <= ShiftRightUnsigned(LcgStep(k), 33) < JUMP
    ensures Unsigned(ShiftRightUnsigned(LcgStep(k), 33) + 1) == divisors(next)
    ensures j == Target(divisors, jump, next - 1)
    ensures jump(j, divisors(next)) == Target(divisors, jump, next) > j
    ensures Iterations(divisors, jump, buckets) == IterationsFrom(divisors, jump, buckets, next)
  {
    TopBitsBelowJump(LcgStep(k));
    TargetAdvances(divisors, jump, n);
  }

  /**
   `jumpConsistentHash(Object, int)`: the object's `hashCode()`, an `int`,
   widened to a `long`, is the key.
   */
  method HashObject(hashCode: Int, buckets: Int, jump: FloatJump) returns (result: Outcome)
    requires Advances(jump)
    ensures buckets < 0 <==> result.IllegalArgument?
    ensures 0 <= buckets ==> result == Bucket(Hash(hashCode, buckets, jump))
  {
    result := HashLong(hashCode, buckets, jump);
  }

  /**
   Consistency: adding a bucket either leaves a key where it was or moves it
   to the new bucket, never to another old one.
   */
  lemma Stability(key: Long, buckets: Int, jump: FloatJump)
    requires 0 <= buckets < 0x7fff_ffff
    requires Advances(jump)
    ensures Hash(key, buckets + 1, jump) == Hash(key, buckets, jump)
         || Hash(key, buckets + 1, jump) == buckets
  {
    DivisorsValid(key);
    MovesOnlyToNewBucket(Divisors(key), jump, buckets);
  }

  /**
   Consistency over any growth of the bucket count: going from `fewer` to
   `more` buckets, a key either keeps its bucket or moves to one of the
   buckets added, never to another old one.
   */
  lemma {:induction false} MovesOnlyToAddedBuckets(key: Long, fewer: Int, more: Int, jump: FloatJump)
    requires 0 <= fewer <= more
    requires Advances(jump)
    ensures Hash(key, more, jump) == Hash(key, fewer, jump) || fewer <= Hash(key, more, jump) < more
    decreases more - fewer
  {
    if fewer < more {
      MovesOnlyToAddedBuckets(key, fewer, more - 1, jump);
      Stability(key, more - 1, jump);
      DivisorsValid(key);
      LastTargetBelowInRange(Divisors(key), jump, more);
    }
  }

  /** The loop of `jumpConsistentHash(key, buckets)` makes at most `buckets` iterations. */
  lemma IterationsBound(key: Long, buckets: Int, jump: FloatJump)
    requires 0 <= buckets
    requires Advances(jump)
    ensures Iterations(Divisors(key), jump, buckets) <= buckets
  {
    DivisorsValid(key);
    IterationsAtMostBuckets(Divisors(key), jump, buckets);
  }
}
