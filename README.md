# Jump consistent hash, modelled in Dafny

The repository implements the jump consistent hash of Lamping and Veach
("A Fast, Minimal Memory, Consistent Hash Algorithm", 2014) as the Java
utility class `JumpConsistentHash`. Given a 64-bit key and a bucket count,
`jumpConsistentHash(long, int)` returns a bucket. A negative count raises an
`IllegalArgumentException`. A count of 0 gives -1. Any other count gives a
bucket in [0, buckets). The algorithm runs a 64-bit linear congruential
generator seeded with the key. Each draw jumps from the current bucket to a
later one. The loop stops at the first jump that reaches or passes the
bucket count, and the last bucket below the count is the result.

The model has three modules:

- `JavaLong` (`java_long.dfy`): Java's `int` and `long` as bounded integers,
  plus the bit-level operators the code uses. These are overflowing `long`
  arithmetic (`Wrap`), the unsigned reading of a `long` (`Unsigned`), `>>>`
  (`ShiftRightUnsigned`), `&` (`And`) and the `(int)` cast (`IntCast`).
- `JumpSequence` (`jump_sequence.dfy`): the sequence of jump targets for an
  arbitrary stream of divisors in [1, 2^31]. It proves that the targets
  grow, that the loop stops within `buckets` iterations, and that the result
  is in range. It also proves consistency: adding one bucket either leaves
  the result alone or moves it to the new bucket.
- `JumpConsistentHash` (`jump_consistent_hash.dfy`):
  - the class's constants, `checkBuckets` and `toDouble`;
  - the generator step and the divisor it draws;
  - the loop, as a method with invariants (`FollowTargets`);
  - both public overloads;
  - the consistency lemmas for the key's own divisor stream.

The one floating-point expression, `(long) ((b + 1L) * (JUMP / d))`, is a
function parameter `jump` of the model (its type is `FloatJump`). The
predicate `Advances` assumes one thing about it: for 0 <= b < 2^31 and
1 <= d <= 2^31, `jump(b, d) >= b + 1`.

Where the Javadoc and the code disagree, the model follows the code. The
Javadoc of both overloads says the result lies in "[0, buckets]". The code
returns values in [0, buckets) when buckets > 0, and -1 when buckets is 0.
The class-level Javadoc also says [0, buckets).

## Model

| member | source | states |
|---|---|---|
| JumpConsistentHash.CheckBuckets | src/main/java/org/ssedano/hash/JumpConsistentHash.java:96-100 | an exception is raised exactly when buckets < 0, and its message is "Buckets cannot be less than 0" |
| JumpConsistentHash.ToDouble | src/main/java/org/ssedano/hash/JumpConsistentHash.java:102-108 | masking off the sign bit and adding back 2^63 when it was set gives the unsigned 64-bit reading of n, a value in [0, 2^64) |
| JumpConsistentHash.MaskKeepsLow63 | src/main/java/org/ssedano/hash/JumpConsistentHash.java:103 | `n & UNSIGNED_MASK` keeps the low 63 bits of n's unsigned reading |
| JumpConsistentHash.LcgStep | src/main/java/org/ssedano/hash/JumpConsistentHash.java:89 | the overflowing signed step `k * CONSTANT + 1L` is, on unsigned readings, the generator step (k * 2862933555777941757 + 1) mod 2^64 |
| JumpConsistentHash.Divisor | src/main/java/org/ssedano/hash/JumpConsistentHash.java:91 | the divisor `(k >>> 33) + 1L` lies in [1, 2^31], so it is never zero |
| JumpConsistentHash.TopBitsBelowJump | src/main/java/org/ssedano/hash/JumpConsistentHash.java:91 | `k >>> 33` lies in [0, 2^31), so adding 1L cannot overflow |
| JumpConsistentHash.DivisorIsTopBits | src/main/java/org/ssedano/hash/JumpConsistentHash.java:91 | the divisor is the generator state's unsigned reading divided by 2^33, plus 1 |
| JumpConsistentHash.DivisorsValid | src/main/java/org/ssedano/hash/JumpConsistentHash.java:87-92 | every divisor drawn for any key, at any iteration, lies in [1, 2^31] |
| JumpConsistentHash.KeyAfter | src/main/java/org/ssedano/hash/JumpConsistentHash.java:83-89 | definition: the generator state `k` after i executions of the step at line 89, starting from the key |
| JumpConsistentHash.Divisors | src/main/java/org/ssedano/hash/JumpConsistentHash.java:89-91 | definition: the key's divisor stream, whose entry i is the divisor drawn from the generator state after i steps |
| JumpConsistentHash.Hash | src/main/java/org/ssedano/hash/JumpConsistentHash.java:81-94 | definition: the value `jumpConsistentHash` returns for a bucket count of at least 0, the key's last target below `buckets`; it is -1 for 0 buckets and lies in [0, buckets) otherwise |
| JumpConsistentHash.FollowStep | src/main/java/org/ssedano/hash/JumpConsistentHash.java:87-92 | one iteration advances the state to the next generator step and the target to the next one, strictly beyond the last; the iteration at which the loop stops is unchanged |
| JumpConsistentHash.FollowTargets | src/main/java/org/ssedano/hash/JumpConsistentHash.java:83-92 | the loop ends with b equal to the last target below buckets, -1 when the loop never runs, and -1 <= b < buckets |
| JumpConsistentHash.HashLong | src/main/java/org/ssedano/hash/JumpConsistentHash.java:81-94 | buckets < 0 raises the exception with its message; buckets == 0 gives -1; buckets > 0 gives a bucket in [0, buckets), the key's last target below buckets after a lossless `(int)` cast |
| JumpConsistentHash.HashObject | src/main/java/org/ssedano/hash/JumpConsistentHash.java:65-67 | the Object overload raises exactly when buckets < 0; otherwise it hashes the `int` hash code widened to a `long` |
| JumpConsistentHash.Stability | src/test/java/com/github/ssedano/hash/JumpConsistentHashTest.java:61-67 | going from buckets to buckets + 1, a key keeps its bucket or moves to the new bucket `buckets` |
| JumpConsistentHash.MovesOnlyToAddedBuckets | src/main/java/org/ssedano/hash/JumpConsistentHash.java:87-93 | going from `fewer` to `more` buckets, a key keeps its bucket or moves to one of the added buckets [fewer, more) |
| JumpConsistentHash.IterationsBound | src/main/java/org/ssedano/hash/JumpConsistentHash.java:87-92 | for every key the loop makes at most `buckets` iterations |
| JumpSequence.Target | src/main/java/org/ssedano/hash/JumpConsistentHash.java:85-91 | definition: the value of `j` after i iterations, 0 before the first and then the jump from the previous target with divisor i |
| JumpSequence.IterationsFrom | src/main/java/org/ssedano/hash/JumpConsistentHash.java:87 | definition: the index of the first target at or beyond `buckets`, searching from target i, where the guard at line 87 fails |
| JumpSequence.Iterations | src/main/java/org/ssedano/hash/JumpConsistentHash.java:87 | definition: the number of iterations the loop makes, the index of the first target at or beyond `buckets` |
| JumpSequence.LastTargetBelow | src/main/java/org/ssedano/hash/JumpConsistentHash.java:84-93 | definition: the value of `b` at line 93, the target before the first one at or beyond `buckets`, or -1 when the loop never runs |
| JumpSequence.TargetAdvances | src/main/java/org/ssedano/hash/JumpConsistentHash.java:91 | each new target lies strictly beyond the target it jumps from |
| JumpSequence.TargetsGrow | src/main/java/org/ssedano/hash/JumpConsistentHash.java:87-92 | while the targets stay below the bucket count, target i is at least i |
| JumpSequence.IterationsFromStop | src/main/java/org/ssedano/hash/JumpConsistentHash.java:87 | from iteration i on, the loop stops at the first target at or beyond buckets, and every target before it is below buckets |
| JumpSequence.IterationsStop | src/main/java/org/ssedano/hash/JumpConsistentHash.java:87 | the loop stops at the first target at or beyond buckets, and all earlier targets are below it |
| JumpSequence.LastTargetBelowInRange | src/test/java/com/github/ssedano/hash/JumpConsistentHashTest.java:36-42 | with at least one bucket the result lies in [0, buckets) |
| JumpSequence.IterationsAtMostBuckets | src/main/java/org/ssedano/hash/JumpConsistentHash.java:87-92 | for any divisor stream the loop makes at most `buckets` iterations |
| JumpSequence.IsLastTargetBelow | src/main/java/org/ssedano/hash/JumpConsistentHash.java:87-93 | if targets 0 .. i are below buckets and target i + 1 is not, the result is target i |
| JumpSequence.MovesOnlyToNewBucket | src/main/java/org/ssedano/hash/JumpConsistentHash.java:87-93 | adding bucket `buckets` moves exactly the keys whose first target at or beyond the old count is `buckets`, and they move to it; every other key keeps its result |
| JumpSequence.NoBucketsNoIterations | src/main/java/org/ssedano/hash/JumpConsistentHash.java:84-87 | with 0 buckets the loop never runs and the result is the sentinel -1 |
| JavaLong.Unsigned | src/main/java/org/ssedano/hash/JumpConsistentHash.java:91 | definition: the 64 bits of a `long` read as an unsigned number, the `uint64_t` reading of the key; it lies in [0, 2^64) |
| JavaLong.Wrap | src/main/java/org/ssedano/hash/JumpConsistentHash.java:89 | an overflowing `long` result is the `long` congruent to the exact value modulo 2^64 |
| JavaLong.UnsignedWrap | src/main/java/org/ssedano/hash/JumpConsistentHash.java:89 | the unsigned reading of a wrapped value is the exact value modulo 2^64 |
| JavaLong.WrapUnsigned | src/main/java/org/ssedano/hash/JumpConsistentHash.java:89 | wrapping a `long`'s unsigned reading gives back the `long` |
| JavaLong.ShiftRightUnsigned | src/main/java/org/ssedano/hash/JumpConsistentHash.java:91 | `n >>> s` is non-negative and below 2^(64 - s) |
| JavaLong.ShiftIsDivision | src/main/java/org/ssedano/hash/JumpConsistentHash.java:91 | `n >>> s` is the unsigned reading of n divided by 2^s, rounded down |
| JavaLong.And | src/main/java/org/ssedano/hash/JumpConsistentHash.java:103 | the unsigned reading of `n & m` is the bitwise AND of the unsigned readings |
| JavaLong.NatAndLowMask | src/main/java/org/ssedano/hash/JumpConsistentHash.java:42 | AND with the mask of the low p bits, 2^p - 1, is the remainder modulo 2^p |
| JavaLong.IntCast | src/main/java/org/ssedano/hash/JumpConsistentHash.java:93 | `(int)` keeps the value of a `long` already in `int` range, and always keeps its low 32 bits |

## Left out

- The floating-point step `(long) ((b + 1L) * (JUMP / toDouble(...)))` is not computed. It is the parameter `jump`, and the model assumes only `Advances` about it: for 0 <= b < 2^31 and 1 <= d <= 2^31 it is at least b + 1. JUMP / d is exactly at least 1, so its rounded value is at least 1.0, and b + 1 <= 2^31 is exact in a double. The exact bucket a key receives is therefore not determined by the model.
- Stability: the test expects key 1 to keep its bucket when going from 10 to 11 buckets. The model proves the weaker either-or for every key, because which branch holds depends on the floating-point step.
- Stability: requires buckets < 2^31 - 1, so that buckets + 1 is still an `int`.
- ToDouble: returns the exact unsigned value, while a Java `double` rounds values above 2^53. Its only call site passes a value in [1, 2^31], which a double holds exactly.
- ShiftRightUnsigned: covers only shift distances 0 < s < 64. Java reduces other distances modulo 64, but the code shifts only by 33.
- HashObject: takes the object's `hashCode()` as an `int` parameter. Calling `hashCode()`, and the NullPointerException a null object raises, are not modelled.
- The private constructor, which throws an `AssertionError` to forbid instances, is not modelled. It computes nothing.
- The key-distribution test is statistical and random. It is not modelled.
- Concrete bucket values for concrete keys are not modelled, because they depend on the floating-point step.
