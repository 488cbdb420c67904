/** The hash of a four-byte key with seed 0, and the signed value that the Maglev rows are made
    from. */
module Murmur {
  import opened MaglevRow

  function RotateLeft(x: bv32, k: nat): bv32
    requires 0 < k < 32
  {
    (x << k) | (x >> (32 - k))
  }

  function MixKey(k: bv32): bv32 {
    RotateLeft(k * 0xcc9e2d51, 15) * 0x1b873593
  }

  function Finish(h: bv32): bv32 {
    var h1 := (h ^ (h >> 16)) * 0x85ebca6b;
    var h2 := (h1 ^ (h1 >> 13)) * 0xc2b2ae35;
    h2 ^ (h2 >> 16)
  }

  /** One block, no remaining bytes. */
  function Hash4(key: bv32): bv32 {
    var h := RotateLeft(0 ^ MixKey(key), 13) * 5 + 0xe6546b64;
    Finish(h ^ MixKey(0) ^ 4)
  }

  /** An unsigned word stored in a signed integer. */
  function Signed(w: bv32): int {
    if w < 0x8000_0000 then w as int else w as int - TWO_32
  }

  /** What the row of backend i is made from. */
  function IndexHash(i: nat): int
    requires i < TWO_31
  {
    Signed(Hash4(i as bv32))
  }

  function IndexHashes(n: nat): (hashes: seq<int>)
    requires n < TWO_31
    ensures |hashes| == n
  {
    seq(n, i requires 0 <= i < n => IndexHash(i))
  }

  lemma FirstHashes(n: nat)
    requires 3 <= n < TWO_31
    ensures var h := IndexHashes(n); h[0] == 593689054 && h[1] == -68075478 && h[2] == 1085422463
  {
    assert IndexHash(0) == 593689054 && IndexHash(1) == -68075478 && IndexHash(2) == 1085422463;
  }

  lemma FirstSkips(h: seq<int>)
    requires |h| >= 3 && h[0] == 593689054 && h[1] == -68075478 && h[2] == 1085422463
    ensures !GoodHash(h[0]) && !GoodHash(h[1]) && GoodHash(h[2])
  {
  }

  /** The rows of the first two backends are never permutations; the row of the third is. */
  lemma FirstRows(n: nat)
    requires 3 <= n < TWO_31
    ensures var h := IndexHashes(n); !GoodHash(h[0]) && !GoodHash(h[1]) && GoodHash(h[2])
  {
    FirstHashes(n);
    FirstSkips(IndexHashes(n));
  }
}
