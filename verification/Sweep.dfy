/** The garbage sweep of the cache: which buckets a tail advance visits, and why an offset
    that survives it is never 2^40 bytes old.

    The position axis is cut into blocks of `block` bytes.  Leaving block j visits bucket
    j % buckets, and buckets * block is 2^39 bytes. */
module Sweep {
  import opened Arith

  const HALF := 0x80_0000_0000

  /** Bucket visited when the tail leaves the block of a position. */
  function BucketOf(position: nat, block: nat, buckets: nat): nat
    requires 0 < block && 0 < buckets
  {
    (position / block) % buckets
  }

  /** Every visit to bucket b up to position t left only offsets at most `size` bytes old. */
  ghost predicate Recent(block: nat, buckets: nat, size: nat, b: nat, o: nat, t: nat)
    requires 0 < buckets
  {
    forall j: nat {:trigger j % buckets} :: j % buckets == b && (j + 1) * block <= t ==> (j + 1) * block <= o + size
  }

  /** An offset that every visit so far has spared is less than 2^39 bytes plus the pool size
      behind the tail. */
  lemma RecentBound(block: nat, buckets: nat, size: nat, b: nat, o: nat, t: nat)
    requires 0 < block && buckets * block == HALF && b < buckets
    requires Recent(block, buckets, size, b, o, t)
    ensures t < o + HALF + size
  {
    var q := t / block;
    MultipleLe(q + 1, block, t);
    if q < buckets {
      Multiples(q + 1, buckets, block);
    } else {
      var j := LastVisit(q, buckets, b);
      assert j % buckets == b;
      MultipleLe(j + 1, block, t);
      Multiples(q - j, buckets, block);
      assert (q + 1) * block == (j + 1) * block + (q - j) * block;
    }
  }

  lemma Multiples(a: nat, b: nat, block: nat)
    requires a <= b
    ensures a * block <= b * block
  {
    ProductBound(b, block, a, block);
  }

  /** The last block before q whose bucket is b. */
  lemma LastVisit(q: nat, buckets: nat, b: nat) returns (j: nat)
    requires 0 < buckets <= q && b < buckets
    ensures j < q <= j + buckets && j % buckets == b
  {
    var d := (q - 1 - b) % buckets;
    j := q - 1 - d;
    assert q - 1 - b == buckets * ((q - 1 - b) / buckets) + d;
    AddMultiple(b, (q - 1 - b) / buckets, buckets);
    assert j == b + buckets * ((q - 1 - b) / buckets);
    DivModUnique(b, buckets, 0, b);
  }

  /** A bucket that the advance from t to t' does not visit stays recent. */
  lemma RecentUnvisited(block: nat, buckets: nat, size: nat, b: nat, o: nat, t: nat, t': nat)
    requires 0 < block && 0 < buckets && t <= t'
    requires Recent(block, buckets, size, b, o, t)
    requires forall j: nat {:trigger j % buckets} :: t / block <= j < t' / block ==> j % buckets != b
    ensures Recent(block, buckets, size, b, o, t')
  {
    forall j: nat | j % buckets == b && (j + 1) * block <= t'
      ensures (j + 1) * block <= o + size
    {
      MultipleLe(j + 1, block, t);
      MultipleLe(j + 1, block, t');
    }
  }

  /** An advance by at most the pool size leaves fewer blocks than there are buckets, as soon
      as there are two buckets. */
  lemma AdvanceLeavesFewBlocks(block: nat, buckets: nat, t: nat, t': nat)
    requires 0 < block && buckets * block == HALF && 2 <= buckets && buckets % 2 == 0
    requires t <= t' <= t + HALF / 2
    ensures t / block <= t' / block < t / block + buckets
  {
    MultipleLe(t / block, block, t);
    MultipleLe(t / block, block, t');
    var half := buckets / 2;
    assert half * block == HALF / 2 by {
      assert buckets * block == 2 * half * block;
    }
    MultipleLe(t / block + 1, block, t);
    MultipleLe(t / block + 1 + half, block, t');
    assert (t / block + 1 + half) * block == (t / block + 1) * block + half * block;
  }

  /** The mask on the start of the advance does not change which bucket comes first. */
  lemma MaskedStart(block: nat, buckets: nat, t: nat)
    requires 0 < block && buckets * block == HALF
    ensures BucketOf(t % (2 * HALF), block, buckets) == BucketOf(t, block, buckets)
  {
    var q := t / (2 * HALF);
    var m := t % (2 * HALF);
    assert t == m + 2 * HALF * q;
    assert 2 * HALF * q == block * (buckets * (2 * q)) by {
      assert block * (buckets * (2 * q)) == buckets * block * (2 * q);
    }
    AddMultiple(m, buckets * (2 * q), block);
    AddMultiple(m / block, 2 * q, buckets);
  }

  /** With a single bucket the sweep loop stops before its first visit, whatever the tail
      does; with two or more, an even number, an advance within the pool size visits every bucket whose
      blocks it leaves. */
  lemma SweepRunsIff(block: nat, buckets: nat)
    requires 0 < block && buckets * block == HALF && (buckets == 1 || buckets % 2 == 0)
    ensures (forall t: nat, t': nat :: t <= t' <= t + HALF / 2 ==>
               (t / block < t' / block <==> BucketOf(t, block, buckets) != BucketOf(t', block, buckets)))
            <==> 2 <= buckets
  {
    if 2 <= buckets {
      forall t: nat, t': nat | t <= t' <= t + HALF / 2
        ensures t / block < t' / block <==> BucketOf(t, block, buckets) != BucketOf(t', block, buckets)
      {
        AdvanceLeavesFewBlocks(block, buckets, t, t');
        if t / block < t' / block {
          DistinctRemainders(t / block, t' / block, buckets);
        }
      }
    } else {
      var t, t': nat := HALF - 8, HALF;
      assert t / block == 0 && t' / block == 1;
      assert BucketOf(t, block, buckets) == BucketOf(t', block, buckets);
    }
  }
}
