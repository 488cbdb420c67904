/** The pool allocator: an append-only log in a circular buffer that evicts from its head. */
module Pool {
  import opened CircularLog

  class Pool {
    const data: array<int>
    var head: nat
    var tail: nat
    ghost var log: map<nat, seq<int>>

    ghost predicate Valid()
      reads this, data
    {
      LogOk(data.Length, data[..], head, tail, log)
    }

    constructor (n: nat)
      requires 0 < n
      ensures Valid() && fresh(data) && data.Length == n
      ensures head == tail == 0 && log == map[]
    {
      data := new int[n];
      head, tail, log := 0, 0, map[];
    }

    method Reset()
      requires 0 < data.Length
      modifies this
      ensures Valid()
      ensures head == tail == 0 && log == map[]
    {
      head, tail, log := 0, 0, map[];
    }

    /** Drop the item at the head, whose size is read from memory. */
    method PopHead()
      requires Valid() && head < tail
      modifies this`head, this`log
      ensures Valid() && head <= tail
      ensures old(head) in old(log) && head == End(old(log), old(head))
      ensures log == old(log) - {old(head)}
    {
      HeadReadsSize(data.Length, data[..], head, tail, log);
      PopKeeps(data.Length, data[..], head, tail, log);
      log := log - {head};
      head := head + data[(head / 8) % data.Length];
    }

    /** Append room for an item, dropping items from the head until it fits.  Exactly the
        items that the new tail leaves in the window survive. */
    method PushTail(itemSize: nat) returns (offset: nat)
      requires Valid()
      requires itemSize % 8 == 0 && 0 < itemSize <= 8 * data.Length
      modifies this, data
      ensures Valid()
      ensures tail == old(tail) + itemSize && offset == old(tail) % OFFSET_LIMIT
      ensures data[..] == old(data[..])[(old(tail) / 8) % data.Length := itemSize]
      ensures log == From(old(log), tail - 8 * data.Length)
                       [old(tail) := Fresh(data.Length, old(data[..]), old(tail), itemSize / 8)]
    {
      var start := tail;
      var v := start + itemSize;
      AllAfterHead(data.Length, head, tail, log);
      while v > head + 8 * data.Length
        invariant Valid() && tail == start && data[..] == old(data[..])
        invariant forall o :: o in log <==> o in old(log) && head <= o
        invariant forall o :: o in log ==> log[o] == old(log)[o]
        invariant forall o :: o in old(log) && o < head ==> o + 8 * data.Length < v
        decreases tail - head
      {
        PopStep(data.Length, head, tail, log);
        PopHead();
      }
      PushKeeps(data.Length, data[..], head, tail, log, itemSize / 8);
      data[(start / 8) % data.Length] := itemSize;
      tail := tail + itemSize;
      log := log[start := Fresh(data.Length, old(data[..]), start, itemSize / 8)];
      assert forall o :: o in old(log) && tail - 8 * data.Length <= o ==> head <= o;
      offset := start % OFFSET_LIMIT;
    }

    /** Overwrite a word of an item. */
    method StoreWord(ghost o: nat, masked: nat, i: nat, x: int)
      requires Valid() && o in log && 1 <= i < |log[o]|
      requires (masked / 8 + i) % data.Length == (o / 8 + i) % data.Length
      modifies data, this`log
      ensures Valid()
      ensures log == old(log)[o := old(log)[o][i := x]]
    {
      StoreKeeps(data.Length, data[..], head, tail, log, o, i, x);
      data[(masked / 8 + i) % data.Length] := x;
      log := log[o := log[o][i := x]];
    }
  }

  lemma AllAfterHead(n: nat, head: nat, tail: nat, log: map<nat, seq<int>>)
    requires Tiling(n, head, tail, log)
    ensures forall o :: o in log ==> head <= o < tail
  {
    forall o | o in log
      ensures head <= o < tail
    {
      assert ItemOk(n, head, tail, log, o);
    }
  }

  /** After the first item there is nothing before the next head. */
  lemma PopStep(n: nat, head: nat, tail: nat, log: map<nat, seq<int>>)
    requires Tiling(n, head, tail, log) && head < tail
    ensures head in log && head < End(log, head) <= tail
    ensures forall o :: o in log ==> head <= o && (o != head ==> End(log, head) <= o)
  {
    assert ItemOk(n, head, tail, log, head);
    forall o | o in log
      ensures head <= o && (o != head ==> End(log, head) <= o)
    {
      assert ItemOk(n, head, tail, log, o) && Apart(log, head, o);
    }
  }
}
