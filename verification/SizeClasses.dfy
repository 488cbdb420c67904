/** The size classes of the segregated-fit allocator.

    Chunk sizes are in bytes.  The class functions of the source compute with unsigned
    64-bit integers, so the subtraction in the round-up is taken modulo 2^64 here. */
module SizeClasses {
  const OVERHEAD := 16
  const MIN_SIZE := 32
  const MAX_SIZE := 0x100_0000_0000 - 1
  const NUM_CLASSES := 32
  const CLASS_INCREMENT := 8
  const TWO_64 := 0x1_0000_0000_0000_0000

  function RoundUp8(x: nat): nat {
    (x + 7) / 8 * 8
  }

  function ClassRoundUp(size: nat): nat
    requires size <= MAX_SIZE
  {
    if size <= MIN_SIZE + (NUM_CLASSES - 1) * CLASS_INCREMENT then
      ((size - MIN_SIZE + CLASS_INCREMENT - 1) % TWO_64) / CLASS_INCREMENT
    else
      NUM_CLASSES - 1
  }

  function ClassRoundDown(size: nat): (c: nat)
    requires MIN_SIZE <= size <= MAX_SIZE
    ensures c < NUM_CLASSES
  {
    if size < MIN_SIZE + NUM_CLASSES * CLASS_INCREMENT then
      (size - MIN_SIZE) / CLASS_INCREMENT
    else
      NUM_CLASSES - 1
  }

  /** The round-up stays inside the 32 classes exactly for the sizes that do not make the
      unsigned subtraction wrap around. */
  lemma RoundUpInRange(size: nat)
    requires size <= MAX_SIZE
    ensures ClassRoundUp(size) < NUM_CLASSES <==> MIN_SIZE - CLASS_INCREMENT < size
  {
  }

  /** An allocation request therefore needs at least 9 bytes: every smaller one yields a
      chunk size whose class index is out of the table. */
  lemma RequestInRange(itemSize: nat)
    requires itemSize < 0x1_0000_0000
    ensures ClassRoundUp(RoundUp8(itemSize) + OVERHEAD) < NUM_CLASSES <==> 9 <= itemSize
  {
  }

  /** A chunk filed under a class at or above the round-up of a request is large enough,
      unless both are in the open-ended last class. */
  lemma ClassFits(size: nat, request: nat)
    requires MIN_SIZE <= size <= MAX_SIZE && MIN_SIZE <= request <= MAX_SIZE
    requires size % CLASS_INCREMENT == 0 && request % CLASS_INCREMENT == 0
    ensures request <= MIN_SIZE + (NUM_CLASSES - 1) * CLASS_INCREMENT ==>
              (ClassRoundUp(request) <= ClassRoundDown(size) <==> request <= size)
    ensures ClassRoundDown(size) < ClassRoundUp(request) ==> size < request
    ensures ClassRoundDown(size) < NUM_CLASSES - 1 && ClassRoundUp(request) <= ClassRoundDown(size) ==> request <= size
  {
  }

  /** Below the last class a class holds one size only, and classes are ordered by size. */
  lemma ClassOrder(a: nat, b: nat)
    requires MIN_SIZE <= a <= MAX_SIZE && MIN_SIZE <= b <= MAX_SIZE
    requires a % CLASS_INCREMENT == 0 && b % CLASS_INCREMENT == 0
    ensures ClassRoundDown(a) <= ClassRoundDown(b) && ClassRoundDown(a) < NUM_CLASSES - 1 ==> a <= b
  {
  }
}
