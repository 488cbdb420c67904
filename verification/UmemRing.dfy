/** The fill ring that the program produces into and the kernel consumes from: 32-bit counters
    that wrap, a stale copy of the consumer's counter, and slots addressed by the low bits. */
module UmemRing {
  import opened Arith

  const TWO_32 := 0x1_0000_0000

  lemma WrapLowBits(x: nat, size: nat)
    requires 0 < size && TWO_32 % size == 0
    ensures x % TWO_32 % size == x % size
  {
    var k := TWO_32 / size;
    assert TWO_32 == size * k;
    var q := x / TWO_32;
    assert x == x % TWO_32 + TWO_32 * q;
    assert TWO_32 * q == size * (k * q) by {
      assert size * k * q == size * (k * q);
    }
    AddMultiple(x % TWO_32, k * q, size);
  }

  /** The distance of two 32-bit counters. */
  function Gap(a: nat, b: nat): (g: nat)
    ensures g < TWO_32
  {
    (a - b) % TWO_32
  }

  /** The slot of a counter. */
  function Slot(n: nat, size: nat): (i: nat)
    requires 0 < size
    ensures i < size
  {
    n % size
  }

  function Wrap(n: nat): (w: nat)
    ensures w < TWO_32
  {
    n % TWO_32
  }

  lemma WrapGap(a: nat, b: nat)
    requires b <= a < b + TWO_32
    ensures Gap(Wrap(a), Wrap(b)) == a - b
  {
    AddMultiple(a - b, b / TWO_32 - a / TWO_32, TWO_32);
    assert Wrap(a) - Wrap(b) == a - b + TWO_32 * (b / TWO_32 - a / TWO_32);
  }

  lemma WrapAdd(n: nat, k: nat)
    ensures Wrap(Wrap(n) + k) == Wrap(n + k)
  {
  }

  /** The slots from a counter on hold a sequence. */
  ghost predicate Window(slots: seq<nat>, from: nat, q: seq<nat>) {
    0 < |slots| && forall i {:trigger q[i]} :: 0 <= i < |q| ==> slots[Slot(from + i, |slots|)] == q[i]
  }

  /** Writing a slot past a window that is shorter than the ring leaves the window alone. */
  lemma WriteOutside(slots: seq<nat>, from: nat, q: seq<nat>, at: nat, v: nat)
    requires Window(slots, from, q) && from + |q| <= at < from + |slots|
    ensures Window(slots[Slot(at, |slots|) := v], from, q)
  {
    forall i | 0 <= i < |q|
      ensures slots[Slot(at, |slots|) := v][Slot(from + i, |slots|)] == q[i]
    {
      DistinctRemainders(from + i, at, |slots|);
    }
  }

  lemma WriteNext(slots: seq<nat>, from: nat, q: seq<nat>, v: nat)
    requires Window(slots, from, q) && |q| < |slots|
    ensures Window(slots[Slot(from + |q|, |slots|) := v], from, q + [v])
  {
    WriteOutside(slots, from, q, from + |q|, v);
  }

  lemma Joined(slots: seq<nat>, from: nat, q: seq<nat>, r: seq<nat>)
    requires Window(slots, from, q) && Window(slots, from + |q|, r)
    ensures Window(slots, from, q + r)
  {
  }

  lemma Behind(slots: seq<nat>, from: nat, q: seq<nat>)
    requires Window(slots, from, q) && q != []
    ensures slots[Slot(from, |slots|)] == q[0] && Window(slots, from + 1, q[1..])
  {
  }

  function Min(a: nat, b: nat): nat {
    if a <= b then a else b
  }

  class FillRing {
    const size: nat
    const slots: array<nat>
    var cachedProd: nat
    var cachedCons: nat
    var producer: nat
    var consumer: nat

    /** The same counters without the wrap-around, and the submitted slots the kernel has not
        taken. */
    ghost var reserved: nat
    ghost var seen: nat
    ghost var produced: nat
    ghost var taken: nat
    ghost var queue: seq<nat>

    ghost predicate Valid()
      reads this, slots
    {
      && 0 < size <= 0x8000_0000 && TWO_32 % size == 0 && slots.Length == size
      && cachedProd == Wrap(reserved) && cachedCons == Wrap(seen + size)
      && producer == Wrap(produced) && consumer == Wrap(taken)
      && seen <= taken <= produced <= reserved <= seen + size
      && |queue| == produced - taken
      && Window(slots[..], taken, queue)
    }

    constructor (size: nat)
      requires 0 < size <= 0x8000_0000 && TWO_32 % size == 0
      ensures Valid() && this.size == size && queue == [] && reserved == produced && fresh(slots)
    {
      this.size := size;
      slots := new nat[size](_ => 0);
      cachedProd, cachedCons, producer, consumer := 0, size, 0, 0;
      reserved, seen, produced, taken, queue := 0, 0, 0, 0, [];
    }

    /** The free slots, by the stale copy of the consumer's counter if that shows enough. */
    method Free(nb: nat) returns (free: nat)
      requires Valid()
      modifies this`cachedCons, this`seen
      ensures Valid() && free == seen + size - reserved
      ensures Min(nb, free) == Min(nb, taken + size - reserved)
    {
      WrapGap(seen + size, reserved);
      free := Gap(cachedCons, cachedProd);
      if free >= nb {
        return;
      }
      WrapAdd(taken, size);
      WrapGap(taken + size, reserved);
      cachedCons, seen := Wrap(consumer + size), taken;
      free := Gap(cachedCons, cachedProd);
    }

    /** Reserve slots: as many as are free, up to the number wanted. */
    method Reserve(nb: nat) returns (got: nat, idx: nat)
      requires Valid()
      modifies this`cachedProd, this`cachedCons, this`reserved, this`seen
      ensures Valid() && idx == Wrap(old(reserved))
      ensures got == Min(nb, taken + size - old(reserved)) && reserved == old(reserved) + got
    {
      var free := Free(nb);
      idx := cachedProd;
      got := Min(nb, free);
      WrapAdd(reserved, got);
      cachedProd, reserved := Wrap(cachedProd + got), reserved + got;
    }

    /** Write a reserved slot. */
    method Put(idx: nat, addr: nat, ghost at: nat)
      requires Valid() && produced <= at < reserved && idx == Wrap(at)
      modifies slots
      ensures Valid()
      ensures slots[..] == old(slots[..])[Slot(at, size) := addr]
    {
      WrapLowBits(at, size);
      WriteOutside(slots[..], taken, queue, at, addr);
      slots[Slot(idx, size)] := addr;
    }

    /** Show the kernel the slots written since the last submit. */
    method Submit(nb: nat, ghost addrs: seq<nat>)
      requires Valid() && |addrs| == nb && produced + nb <= reserved
      requires Window(slots[..], produced, addrs)
      modifies this`producer, this`produced, this`queue
      ensures Valid() && queue == old(queue) + addrs && produced == old(produced) + nb
    {
      WrapAdd(produced, nb);
      Joined(slots[..], taken, queue, addrs);
      producer, produced, queue := Wrap(producer + nb), produced + nb, queue + addrs;
    }

    /** The kernel takes the oldest address. */
    method Take() returns (addr: nat)
      requires Valid() && queue != []
      modifies this`consumer, this`taken, this`queue
      ensures Valid() && addr == old(queue[0]) && queue == old(queue[1..])
    {
      WrapLowBits(taken, size);
      Behind(slots[..], taken, queue);
      addr := slots[Slot(consumer, size)];
      WrapAdd(taken, 1);
      consumer, taken, queue := Wrap(consumer + 1), taken + 1, queue[1..];
    }

    /** Write a batch of addresses into the slots reserved for it. */
    method PutAll(idx: nat, addrs: seq<nat>)
      requires Valid() && reserved == produced + |addrs| && idx == Wrap(produced)
      modifies slots
      ensures Valid() && Window(slots[..], produced, addrs)
    {
      var at, i := idx, 0;
      while i < |addrs|
        invariant i <= |addrs| && Valid() && at == Wrap(produced + i)
        invariant Window(slots[..], produced, addrs[..i])
      {
        WriteNext(slots[..], produced, addrs[..i], addrs[i]);
        assert addrs[..i + 1] == addrs[..i] + [addrs[i]];
        Put(at, addrs[i], produced + i);
        WrapAdd(produced + i, 1);
        at, i := Wrap(at + 1), i + 1;
      }
      assert addrs[..i] == addrs;
    }

    /** Give a batch of addresses to the kernel.  With a free slot for each, the first reservation
        succeeds and the retry loop is not entered. */
    method Refill(addrs: seq<nat>)
      requires Valid() && reserved == produced && |queue| + |addrs| <= size
      modifies this, slots
      ensures Valid() && reserved == produced
      ensures queue == old(queue) + addrs
    {
      var got, idx := Reserve(|addrs|);
      assert got == |addrs|;
      PutAll(idx, addrs);
      Submit(|addrs|, addrs);
    }
  }
}
