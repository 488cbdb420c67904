/** How the table is dimensioned: the bucket count and the pool size are rounded up to powers
    of two, and the sweep shift is the smallest that spreads 2^39 bytes over the buckets. */
module TableInit {
  import opened Arith
  import opened Sweep
  import opened CacheState
  import CircularLog

  const MINIMUM_POOL_SIZE := 2097152

  datatype Init = AssertionFailed | Ready(shape: Shape)

  lemma Powers()
    ensures Pow2(3) == 8 && Pow2(21) == MINIMUM_POOL_SIZE && Pow2(32) == TWO_32 && Pow2(38) == HALF / 2
    ensures Pow2(39) == HALF && Pow2(40) == CircularLog.OFFSET_LIMIT
  {
    assert Pow2(10) == 1024;
    Pow2Add(10, 10);
    Pow2Add(20, 1);
    Pow2Add(20, 10);
    Pow2Add(30, 2);
    Pow2Add(30, 8);
    Pow2Add(30, 9);
    Pow2Add(30, 10);
  }

  /** The least power of two that is not below v. */
  method NextPower(v: nat) returns (e: nat)
    ensures v <= Pow2(e)
    ensures e == 0 || Pow2(e - 1) < v
  {
    e := 0;
    while Pow2(e) < v
      invariant e == 0 || Pow2(e - 1) < v
      decreases v - Pow2(e)
    {
      e := e + 1;
    }
  }

  /** The smallest shift that leaves no more blocks of 2^39 bytes than there are buckets. */
  method ComputeShift(k: nat) returns (shift: nat)
    requires k <= 31
    ensures shift == 39 - k && Pow2(k) * Pow2(shift) == HALF
  {
    Powers();
    shift := 0;
    Pow2Add(39, 0);
    while HALF / Pow2(shift) > Pow2(k)
      invariant shift <= 39 - k
      decreases 39 - shift
    {
      BlocksLeft(shift);
      shift := shift + 1;
    }
    BlocksLeft(shift);
    if shift < 39 - k {
      Pow2Monotone(k + 1, 39 - shift);
    }
    Pow2Add(k, shift);
  }

  lemma BlocksLeft(shift: nat)
    requires shift <= 39
    ensures HALF / Pow2(shift) == Pow2(39 - shift)
  {
    Powers();
    Pow2Add(shift, 39 - shift);
    DivModUnique(HALF, Pow2(shift), Pow2(39 - shift), 0);
  }

  lemma {:induction false} Pow2Even(e: nat)
    requires 1 <= e
    ensures Pow2(e) % 2 == 0 && 2 <= Pow2(e)
  {
  }

  /** A power of two from 2 MB on that is below a size rounded up to a page is below the size. */
  lemma PowerBelow(e: nat, bytes: nat)
    requires 21 <= e
    requires Pow2(e) < (bytes + (MINIMUM_POOL_SIZE - 1)) / MINIMUM_POOL_SIZE * MINIMUM_POOL_SIZE
    ensures Pow2(e) < bytes
  {
    Powers();
    Pow2Add(21, e - 21);
    PagesBelow(Pow2(e - 21), bytes);
  }

  lemma PagesBelow(k: nat, bytes: nat)
    requires k * MINIMUM_POOL_SIZE < (bytes + (MINIMUM_POOL_SIZE - 1)) / MINIMUM_POOL_SIZE * MINIMUM_POOL_SIZE
    ensures k * MINIMUM_POOL_SIZE < bytes
  {
    var q := (bytes + (MINIMUM_POOL_SIZE - 1)) / MINIMUM_POOL_SIZE;
    assert k <= q - 1;
  }

  /** The pool size as a power of two: the least of at least 2 MB, a multiple of the page size. */
  method PoolBits(poolBytes: nat) returns (e: nat)
    ensures 21 <= e && poolBytes <= Pow2(e)
    ensures e == 21 || Pow2(e - 1) < poolBytes
    ensures e <= 38 <==> poolBytes <= HALF / 2
  {
    Powers();
    var size := if poolBytes < MINIMUM_POOL_SIZE then MINIMUM_POOL_SIZE else poolBytes;
    size := (size + (MINIMUM_POOL_SIZE - 1)) / MINIMUM_POOL_SIZE * MINIMUM_POOL_SIZE;
    e := NextPower(size);
    if e > 21 {
      Pow2Monotone(21, e - 1);
      PowerBelow(e - 1, poolBytes);
    }
    if e < 21 {
      Pow2Monotone(e, 20);
    } else if e <= 38 {
      Pow2Monotone(e, 38);
    } else {
      Pow2Monotone(38, e - 1);
    }
  }

  /** The bucket count as a power of two. */
  method BucketBits(requested: nat) returns (k: nat)
    requires 0 < requested
    ensures (k == 0 <==> requested == 1) && (k <= 31 <==> requested <= TWO_32 / 2) && (k <= 32 <==> requested <= TWO_32)
  {
    Powers();
    assert Pow2(31) == TWO_32 / 2;
    k := NextPower(requested);
    if k <= 31 {
      Pow2Monotone(k, 31);
    } else if k <= 32 {
      Pow2Monotone(31, k - 1);
    } else {
      Pow2Monotone(32, k - 1);
    }
  }

  /** The sizes that the initialisation computes make a working cache exactly if two or more,
      and at most 2^31, buckets were asked for.  A single bucket is never swept, and 2^32
      buckets are stored in a 32-bit field as none. */
  method InitTable(requested: nat, poolBytes: nat) returns (r: Init)
    requires 0 < requested
    ensures r.Ready? ==> (r.shape.Ok() <==> 2 <= requested <= TWO_32 / 2)
    ensures r.Ready? ==> poolBytes <= 8 * r.shape.words
    ensures r.AssertionFailed? <==> requested > TWO_32 || poolBytes > HALF / 2
  {
    var k := BucketBits(requested);
    var e := PoolBits(poolBytes);
    if k > 32 {
      return AssertionFailed;
    }
    if e > 38 {
      PoolTooLarge(e);
      assert Pow2(e) > (CircularLog.OFFSET_LIMIT - 1) / 2;
      return AssertionFailed;
    }
    PoolDivides(e);
    if k == 32 {
      // The bucket count wraps to 0 and the shift runs until no block is left.
      return Ready(Shape(Pow2(40), 0, Pow2(e) / 8, CircularLog.OFFSET_LIMIT / Pow2(e)));
    }
    var shift := ComputeShift(k);
    r := Ready(Shape(Pow2(shift), Pow2(k), Pow2(e) / 8, CircularLog.OFFSET_LIMIT / Pow2(e)));
    if k >= 1 {
      Pow2Even(k);
    }
  }

  lemma PoolTooLarge(e: nat)
    requires 39 <= e
    ensures Pow2(e) > (CircularLog.OFFSET_LIMIT - 1) / 2
  {
    Powers();
    Pow2Monotone(39, e);
  }

  lemma PoolDivides(e: nat)
    requires 21 <= e <= 38
    ensures 8 * (Pow2(e) / 8) == Pow2(e) && Pow2(e) * (CircularLog.OFFSET_LIMIT / Pow2(e)) == CircularLog.OFFSET_LIMIT
    ensures MINIMUM_POOL_SIZE <= Pow2(e) <= HALF / 2
  {
    PoolInWords(e);
    Powers();
    Pow2Add(e, 40 - e);
    DivModUnique(CircularLog.OFFSET_LIMIT, Pow2(e), Pow2(40 - e), 0);
  }

  lemma PoolInWords(e: nat)
    requires 21 <= e <= 38
    ensures 8 * (Pow2(e) / 8) == Pow2(e)
    ensures MINIMUM_POOL_SIZE <= Pow2(e) <= HALF / 2
  {
    Powers();
    Pow2Add(3, e - 3);
    Pow2Monotone(21, e);
    Pow2Monotone(e, 38);
  }
}
