/** Shifts and masks by powers of two, as uthash.h uses them on bucket counts. */
module Bits {
  function Pow2(k: nat): (p: nat)
    ensures p > 0
  {
    if k == 0 then 1 else 2 * Pow2(k - 1)
  }

  /** `a & b`. */
  function And(a: nat, b: nat): nat {
    if a == 0 || b == 0 then 0
    else (if a % 2 == 1 && b % 2 == 1 then 1 else 0) + 2 * And(a / 2, b / 2)
  }

  /** `a >> k`. */
  function Shift(a: nat, k: nat): nat {
    if k == 0 then a else Shift(a / 2, k - 1)
  }

  /** Masking keeps what a division by a power of two leaves over, shifting its quotient. */
  lemma {:induction false} Divides(a: nat, k: nat)
    ensures And(a, Pow2(k) - 1) < Pow2(k)
    ensures a == Shift(a, k) * Pow2(k) + And(a, Pow2(k) - 1)
    decreases k
  {
    if k == 0 {
      assert And(a, 0) == 0;
    } else {
      Divides(a / 2, k - 1);
      var half, mask := Pow2(k - 1), Pow2(k) - 1;
      assert mask / 2 == half - 1 && mask % 2 == 1;
      assert And(a, mask) == a % 2 + 2 * And(a / 2, half - 1);
      Doubles(a, Shift(a / 2, k - 1), half, And(a / 2, half - 1));
    }
  }

  lemma Doubles(a: nat, q: nat, half: nat, rest: nat)
    requires a / 2 == q * half + rest
    ensures a == q * (2 * half) + (a % 2 + 2 * rest)
  {
    assert q * (2 * half) == 2 * (q * half);
  }

  /** The bucket of a hash value among `numBuckets`. */
  function BucketOf(hashv: nat, numBuckets: nat): nat {
    if numBuckets > 0 then And(hashv, numBuckets - 1) else 0
  }

  /** `k` is the logarithm of `n`. */
  predicate IsLog(n: nat, k: nat) {
    if k == 0 then n == 1 else n % 2 == 0 && IsLog(n / 2, k - 1)
  }

  lemma {:induction false} LogIs(n: nat, k: nat)
    ensures IsLog(n, k) <==> n == Pow2(k)
    decreases k
  {
    if k > 0 {
      LogIs(n / 2, k - 1);
    }
  }

  ghost predicate PowerOfTwo(n: nat) {
    exists k: nat :: IsLog(n, k)
  }

  /** HASH_TO_BKT. */
  method HashToBkt(hashv: nat, numBuckets: nat) returns (bkt: nat)
    requires PowerOfTwo(numBuckets)
    ensures bkt == BucketOf(hashv, numBuckets) < numBuckets
  {
    ghost var k: nat :| IsLog(numBuckets, k);
    LogIs(numBuckets, k);
    Divides(hashv, k);
    bkt := And(hashv, numBuckets - 1);
  }

  /** (n >> k) + ((n & (b - 1)) ? 1 : 0), for b the k-th power of two. */
  function Ceiling(n: nat, k: nat): nat {
    Shift(n, k) + if And(n, Pow2(k) - 1) != 0 then 1 else 0
  }

  /** `buckets` chains of at most `room` items hold `n`. */
  predicate Fits(n: nat, buckets: nat, room: nat) {
    room * buckets >= n
  }

  /** The least number of items per bucket that makes room for `n` items. */
  ghost predicate LeastRoom(n: nat, buckets: nat, room: nat) {
    forall r: nat :: Fits(n, buckets, r) <==> r >= room
  }

  /** The shift and the mask give exactly that. */
  lemma CeilingIsLeast(n: nat, k: nat)
    ensures LeastRoom(n, Pow2(k), Ceiling(n, k))
    ensures n > 0 ==> Ceiling(n, k) >= 1
  {
    forall r: nat
      ensures Fits(n, Pow2(k), r) <==> r >= Ceiling(n, k)
    {
      CeilingFits(n, k, r);
    }
    CeilingFits(n, k, 0);
  }

  lemma CeilingFits(n: nat, k: nat, room: nat)
    ensures Fits(n, Pow2(k), room) <==> room >= Ceiling(n, k)
  {
    Divides(n, k);
    Room(n, Pow2(k), Shift(n, k), And(n, Pow2(k) - 1), room);
  }

  lemma Room(n: nat, p: nat, q: nat, rest: nat, room: nat)
    requires n == q * p + rest && rest < p
    ensures room * p >= n <==> room >= q + if rest != 0 then 1 else 0
  {
    if room > q {
      Times(q + 1, room, p);
      assert (q + 1) * p == q * p + p;
    } else {
      Times(room, q, p);
    }
    if room < q {
      Times(room + 1, q, p);
      assert (room + 1) * p == room * p + p;
    }
  }

  lemma Times(a: nat, b: nat, p: nat)
    requires a <= b
    ensures a * p <= b * p
  {
    assert b * p == a * p + (b - a) * p;
  }
}
