/** The cache under concurrent use, seen from one bucket: the steps that threads other than a
    reader take, one memory access at a time, in any order that the two locks allow.

    At most one thread holds the lock of the bucket (the version is odd meanwhile) and at most
    one the lock of the pool.  `mine` tells the pool activity of the bucket's own lock holder
    from that of threads working on other buckets.  The version counts without bound here; a
    reader sees it modulo 2^32. */
module SharedCache {
  import opened Arith
  import opened CircularLog
  import opened CacheState

  /** An item that has been appended: its length in words and whether its key belongs here. */
  datatype Item = Item(count: nat, mine: bool)

  /** What the holder of the pool lock is doing. */
  datatype PoolUse =
    | PoolFree
    | Held(mine: bool)
    | Placed(mine: bool, count: nat)
    | Filling(mine: bool, o: nat, body: seq<int>, done: nat, isNew: bool)

  /** What the holder of the bucket lock is doing. */
  datatype BucketUse = Unlocked | Locked | Filled(o: nat)

  datatype Shared = Shared(
    mem: seq<int>,
    tail: nat,
    version: nat,
    slots: seq<nat>,
    origin: seq<nat>,
    items: map<nat, Item>,
    pool: PoolUse,
    bucket: BucketUse,
    visited: nat)

  datatype Step =
    | LockBucket
    | UnlockBucket
    | ClearSlot(i: nat)
    | LockPool(mine: bool)
    | UnlockPool
    | Place(count: nat)
    | Publish(body: seq<int>)
    | Update(o: nat, body: seq<int>)
    | FillWord
    | EndFill
    | PointSlot(i: nat, tag: nat)
    | Visit(p: nat)

  // ---------------------------------------------------------------- the steps

  /** A body, the words after the size, that holds a pair. */
  ghost predicate BodyOk(body: seq<int>) {
    exists key, entry :: Holds([0] + body, key, entry)
  }

  /** The sweep is due at this bucket every 2^39 bytes.  A visit may come late, by up to 2^39 bytes
      less the pool size. */
  ghost predicate SweepInTime(s: Shared, tail: nat) {
    tail + 8 * |s.mem| < s.visited + OFFSET_LIMIT
  }

  ghost predicate Enabled(s: Shared, step: Step) {
    && |s.slots| == |s.origin| && 0 < |s.mem|
    && match step
       case LockBucket => s.bucket.Unlocked?
       case UnlockBucket => s.bucket.Locked? && !(s.pool != PoolFree && s.pool.mine)
       case ClearSlot(i) => s.bucket.Locked? && i < |s.slots|
       case LockPool(mine) => s.pool.PoolFree? && (mine ==> s.bucket.Locked?)
       case UnlockPool => s.pool.Held?
       case Place(count) => s.pool.Held? && 1 <= count <= |s.mem|
       case Publish(body) =>
         && s.pool.Placed? && 1 + |body| == s.pool.count
         && (s.pool.mine ==> BodyOk(body))
         && SweepInTime(s, s.tail + 8 * s.pool.count)
       case Update(o, body) =>
         && s.pool.Held? && o in s.items && s.items[o].mine == s.pool.mine
         && s.tail <= o + 8 * |s.mem| && 1 + |body| <= s.items[o].count
         && (s.pool.mine ==> BodyOk(body))
       case FillWord => s.pool.Filling? && s.pool.done < |s.pool.body|
       case EndFill => s.pool.Filling? && s.pool.done == |s.pool.body|
       case PointSlot(i, tag) =>
         s.bucket.Filled? && i < |s.slots| && 1 <= tag < TWO_16 && OnlySlot(s.slots, i, tag)
       case Visit(p) =>
         && s.bucket.Locked? && !(s.pool != PoolFree && s.pool.mine) && s.visited <= p <= s.tail
         && forall i {:trigger s.slots[i]} :: 0 <= i < |s.slots| && s.slots[i] != 0 ==> p <= s.origin[i] + 8 * |s.mem|
  }

  function Apply(s: Shared, step: Step): Shared
    requires |s.slots| == |s.origin| && 0 < |s.mem|
  {
    var n := |s.mem|;
    match step
    case LockBucket => s.(version := s.version + 1, bucket := Locked)
    case UnlockBucket => s.(version := s.version + 1, bucket := Unlocked)
    case ClearSlot(i) => if i < |s.slots| then s.(slots := s.slots[i := 0]) else s
    case LockPool(mine) => s.(pool := Held(mine))
    case UnlockPool => s.(pool := PoolFree)
    case Place(count) =>
      if s.pool.Held? then s.(mem := s.mem[(s.tail / 8) % n := 8 * count], pool := Placed(s.pool.mine, count)) else s
    case Publish(body) =>
      if s.pool.Placed? then
        s.(tail := s.tail + 8 * s.pool.count,
           items := s.items[s.tail := Item(s.pool.count, s.pool.mine)],
           pool := Filling(s.pool.mine, s.tail, body, 0, true))
      else s
    case Update(o, body) => if s.pool.Held? then s.(pool := Filling(s.pool.mine, o, body, 0, false)) else s
    case FillWord =>
      if s.pool.Filling? && s.pool.done < |s.pool.body| then
        s.(mem := s.mem[(s.pool.o / 8 + 1 + s.pool.done) % n := s.pool.body[s.pool.done]],
           pool := s.pool.(done := s.pool.done + 1))
      else s
    case EndFill =>
      if s.pool.Filling? then
        s.(pool := PoolFree, bucket := if s.pool.mine && s.pool.isNew then Filled(s.pool.o) else s.bucket)
      else s
    case PointSlot(i, tag) =>
      if s.bucket.Filled? && i < |s.slots| then
        s.(slots := s.slots[i := ItemVec(tag, s.bucket.o % OFFSET_LIMIT)], origin := s.origin[i := s.bucket.o],
           bucket := Locked)
      else s
    case Visit(p) => s.(visited := p)
  }

  // ---------------------------------------------------------------- the invariant

  /** The words of an item as they are in memory. */
  function ItemWords(mem: seq<int>, o: nat, count: nat): seq<int>
    requires 0 < |mem|
  {
    seq(count, i requires 0 <= i < count => Word(mem, o, i))
  }

  ghost predicate HoldsSome(words: seq<int>) {
    exists key, entry :: Holds(words, key, entry)
  }

  ghost predicate ItemAt(s: Shared, o: nat) {
    && o in s.items && o % 8 == 0
    && 1 <= s.items[o].count <= |s.mem|
    && o + 8 * s.items[o].count <= s.tail
  }

  ghost predicate ItemsApart(s: Shared, o: nat, p: nat)
    requires o in s.items && p in s.items
  {
    o < p ==> o + 8 * s.items[o].count <= p
  }

  /** A used slot points at an item of its bucket, less than 2^40 bytes behind the tail. */
  ghost predicate SlotAt(s: Shared, i: nat)
    requires i < |s.slots| == |s.origin|
  {
    s.slots[i] != 0 ==>
      && s.origin[i] in s.items && s.items[s.origin[i]].mine
      && OffsetOf(s.slots[i]) == s.origin[i] % OFFSET_LIMIT
      && s.tail < s.origin[i] + OFFSET_LIMIT && s.visited <= s.origin[i] + 8 * |s.mem|
  }

  /** An item of this bucket that is in the window and not being written holds a pair. */
  ghost predicate Complete(s: Shared, o: nat)
    requires o in s.items && 0 < |s.mem|
  {
    s.items[o].mine && s.tail <= o + 8 * |s.mem| && !(s.pool.Filling? && s.pool.o == o) ==>
      HoldsSome(ItemWords(s.mem, o, s.items[o].count))
  }

  ghost predicate PoolOk(s: Shared)
    requires 0 < |s.mem|
  {
    match s.pool
    case PoolFree => true
    case Held(mine) => mine ==> s.bucket.Locked?
    case Placed(mine, count) => (mine ==> s.bucket.Locked?) && 1 <= count <= |s.mem|
    case Filling(mine, o, body, done, isNew) =>
      && (mine ==> s.bucket.Locked? && BodyOk(body))
      && (mine && isNew ==> s.visited <= o)
      && o in s.items && s.items[o].mine == mine
      && s.tail <= o + 8 * |s.mem|
      && 1 + |body| <= s.items[o].count && done <= |body|
      && forall k {:trigger body[k]} :: 0 <= k < done ==> Word(s.mem, o, 1 + k) == body[k]
  }

  ghost predicate Inv(s: Shared) {
    && 0 < |s.mem| && |s.slots| == |s.origin| == ITEMS_PER_BUCKET && s.tail % 8 == 0
    && (s.bucket.Unlocked? <==> s.version % 2 == 0)
    && (s.bucket.Filled? ==> s.bucket.o in s.items && s.items[s.bucket.o].mine && s.visited <= s.bucket.o)
    && s.visited <= s.tail && SweepInTime(s, s.tail)
    && UniqueTags(s.slots)
    && PoolOk(s)
    && (forall o {:trigger ItemAt(s, o)} :: o in s.items ==> ItemAt(s, o))
    && (forall o, p {:trigger ItemsApart(s, o, p)} :: o in s.items && p in s.items ==> ItemsApart(s, o, p))
    && (forall o {:trigger Complete(s, o)} :: o in s.items ==> Complete(s, o))
    && (forall i {:trigger SlotAt(s, i)} :: 0 <= i < ITEMS_PER_BUCKET ==> SlotAt(s, i))
  }

  /** A table that has just been set up: no items, every slot zero, both locks free. */
  function NewTable(mem: seq<int>): Shared {
    var zeros := seq(ITEMS_PER_BUCKET, _ => 0);
    Shared(mem, 0, 0, zeros, zeros, map[], PoolFree, Unlocked, 0)
  }

  lemma NewTableInv(mem: seq<int>)
    requires 0 < |mem| && 8 * |mem| < OFFSET_LIMIT
    ensures Inv(NewTable(mem))
  {
  }

  // ---------------------------------------------------------------- what a write leaves alone

  /** The words of an item after the first are the same in two memories. */
  ghost predicate SameBody(mem: seq<int>, mem': seq<int>, o: nat, count: nat)
    requires 0 < |mem| == |mem'|
  {
    forall i :: 1 <= i < count ==> Word(mem, o, i) == Word(mem', o, i)
  }

  lemma SameBodyHolds(mem: seq<int>, mem': seq<int>, o: nat, count: nat)
    requires 0 < |mem| == |mem'| && SameBody(mem, mem', o, count) && HoldsSome(ItemWords(mem, o, count))
    ensures HoldsSome(ItemWords(mem', o, count))
  {
    var key, entry :| Holds(ItemWords(mem, o, count), key, entry);
    HoldsBody(ItemWords(mem, o, count), ItemWords(mem', o, count), key, entry);
  }

  /** A pair does not depend on the size word or on slack. */
  lemma HoldsBody(words: seq<int>, words': seq<int>, key: Key, entry: Entry)
    requires Holds(words, key, entry) && |words| <= |words'|
    requires forall i :: 1 <= i < |words| ==> words[i] == words'[i]
    ensures Holds(words', key, entry)
  {
  }

  /** Placing the size word of the next item reaches, of the items in the window, at most the
      size word of the oldest. */
  lemma PlaceLeavesBody(mem: seq<int>, tail: nat, o: nat, count: nat, x: int)
    requires 0 < |mem| && o % 8 == 0 && tail % 8 == 0 && o + 8 * count <= tail <= o + 8 * |mem|
    ensures SameBody(mem, mem[(tail / 8) % |mem| := x], o, count)
  {
    forall i | 1 <= i < count
      ensures Word(mem, o, i) == Word(mem[(tail / 8) % |mem| := x], o, i)
    {
      DistinctRemainders(o / 8 + i, tail / 8, |mem|);
    }
  }

  /** Writing into one item of the window leaves the others in the window alone. */
  lemma FillLeavesBody(mem: seq<int>, tail: nat, p: nat, j: nat, pcount: nat, o: nat, count: nat, x: int)
    requires 0 < |mem| && o % 8 == 0 && p % 8 == 0 && j < pcount
    requires tail <= o + 8 * |mem| && tail <= p + 8 * |mem| && o + 8 * count <= tail && p + 8 * pcount <= tail
    requires p + 8 * pcount <= o || o + 8 * count <= p
    ensures SameBody(mem, mem[(p / 8 + j) % |mem| := x], o, count)
  {
    forall i | 1 <= i < count
      ensures Word(mem, o, i) == Word(mem[(p / 8 + j) % |mem| := x], o, i)
    {
      if p < o {
        DistinctRemainders(p / 8 + j, o / 8 + i, |mem|);
      } else {
        DistinctRemainders(o / 8 + i, p / 8 + j, |mem|);
      }
    }
  }

  // ---------------------------------------------------------------- every step keeps it

  lemma PlaceKeeps(s: Shared, count: nat)
    requires Inv(s) && Enabled(s, Place(count))
    ensures Inv(Apply(s, Place(count)))
  {
    var s' := Apply(s, Place(count));
    forall o | o in s'.items
      ensures ItemAt(s', o) && Complete(s', o)
    {
      assert ItemAt(s, o) && Complete(s, o);
      if s.items[o].mine && s.tail <= o + 8 * |s.mem| {
        PlaceLeavesBody(s.mem, s.tail, o, s.items[o].count, 8 * count);
        SameBodyHolds(s.mem, s'.mem, o, s.items[o].count);
      }
    }
    KeepRest(s, s');
  }

  /** The parts of the invariant that a step on memory does not touch. */
  lemma KeepRest(s: Shared, s': Shared)
    requires Inv(s) && s' == s.(mem := s'.mem, pool := s'.pool) && |s'.mem| == |s.mem|
    ensures forall o, p {:trigger ItemsApart(s', o, p)} :: o in s'.items && p in s'.items ==> ItemsApart(s', o, p)
    ensures forall i {:trigger SlotAt(s', i)} :: 0 <= i < ITEMS_PER_BUCKET ==> SlotAt(s', i)
  {
    forall o, p | o in s'.items && p in s'.items
      ensures ItemsApart(s', o, p)
    {
      assert ItemsApart(s, o, p);
    }
    forall i | 0 <= i < ITEMS_PER_BUCKET
      ensures SlotAt(s', i)
    {
      assert SlotAt(s, i);
    }
  }

  lemma PublishKeeps(s: Shared, body: seq<int>)
    requires Inv(s) && Enabled(s, Publish(body))
    ensures Inv(Apply(s, Publish(body)))
  {
    var s' := Apply(s, Publish(body));
    assert s.tail in s.items ==> ItemAt(s, s.tail);
    forall o | o in s'.items
      ensures ItemAt(s', o) && Complete(s', o)
    {
      if o != s.tail {
        assert ItemAt(s, o) && Complete(s, o);
      }
    }
    forall o, p | o in s'.items && p in s'.items
      ensures ItemsApart(s', o, p)
    {
      assert o in s.items ==> ItemAt(s, o);
      assert p in s.items ==> ItemAt(s, p);
      assert o in s.items && p in s.items ==> ItemsApart(s, o, p);
    }
    forall i | 0 <= i < ITEMS_PER_BUCKET
      ensures SlotAt(s', i)
    {
      assert SlotAt(s, i);
    }
  }

  lemma FillKeeps(s: Shared)
    requires Inv(s) && Enabled(s, FillWord)
    ensures Inv(Apply(s, FillWord))
  {
    var s' := Apply(s, FillWord);
    var p, j, n := s.pool.o, 1 + s.pool.done, |s.mem|;
    assert ItemAt(s, p);
    forall o | o in s'.items
      ensures ItemAt(s', o) && Complete(s', o)
    {
      assert ItemAt(s, o) && Complete(s, o) && ItemsApart(s, o, p) && ItemsApart(s, p, o);
      if o != p && s.items[o].mine && s.tail <= o + 8 * n {
        FillLeavesBody(s.mem, s.tail, p, j, s.items[p].count, o, s.items[o].count, s.pool.body[s.pool.done]);
        SameBodyHolds(s.mem, s'.mem, o, s.items[o].count);
      }
    }
    forall k | 0 <= k < s.pool.done + 1
      ensures Word(s'.mem, p, 1 + k) == s.pool.body[k]
    {
      if k < s.pool.done {
        DistinctRemainders(p / 8 + 1 + k, p / 8 + j, n);
      }
    }
    KeepRest(s, s');
  }

  lemma EndFillKeeps(s: Shared)
    requires Inv(s) && Enabled(s, EndFill)
    ensures Inv(Apply(s, EndFill))
  {
    var s' := Apply(s, EndFill);
    var p, body := s.pool.o, s.pool.body;
    forall o | o in s'.items
      ensures ItemAt(s', o) && Complete(s', o)
    {
      assert ItemAt(s, o) && Complete(s, o);
      if o == p && s.pool.mine {
        var key, entry :| Holds([0] + body, key, entry);
        HoldsBody([0] + body, ItemWords(s.mem, p, s.items[p].count), key, entry);
      }
    }
    KeepRestOf(s, s');
  }

  /** The parts of the invariant that a step on the locks does not touch. */
  lemma KeepRestOf(s: Shared, s': Shared)
    requires Inv(s) && s' == s.(pool := s'.pool, bucket := s'.bucket, version := s'.version)
    ensures forall o, p {:trigger ItemsApart(s', o, p)} :: o in s'.items && p in s'.items ==> ItemsApart(s', o, p)
    ensures forall i {:trigger SlotAt(s', i)} :: 0 <= i < ITEMS_PER_BUCKET ==> SlotAt(s', i)
    ensures forall o {:trigger ItemAt(s', o)} :: o in s'.items ==> ItemAt(s', o)
    ensures s.pool.Filling? || forall o {:trigger Complete(s', o)} :: o in s'.items ==> Complete(s', o)
    ensures s.pool == s'.pool ==> forall o {:trigger Complete(s', o)} :: o in s'.items ==> Complete(s', o)
  {
    forall o, p | o in s'.items && p in s'.items
      ensures ItemsApart(s', o, p)
    {
      assert ItemsApart(s, o, p);
    }
    forall i | 0 <= i < ITEMS_PER_BUCKET
      ensures SlotAt(s', i)
    {
      assert SlotAt(s, i);
    }
    forall o | o in s'.items
      ensures ItemAt(s', o)
      ensures !s.pool.Filling? || s.pool == s'.pool ==> Complete(s', o)
    {
      assert ItemAt(s, o) && Complete(s, o);
    }
  }

  lemma SlotStepKeeps(s: Shared, step: Step)
    requires Inv(s) && Enabled(s, step) && (step.ClearSlot? || step.PointSlot? || step.Visit?)
    ensures Inv(Apply(s, step))
  {
    var s' := Apply(s, step);
    forall o, p | o in s'.items && p in s'.items
      ensures ItemsApart(s', o, p)
    {
      assert ItemsApart(s, o, p);
    }
    forall o | o in s'.items
      ensures ItemAt(s', o) && Complete(s', o)
    {
      assert ItemAt(s, o) && Complete(s, o);
    }
    forall i | 0 <= i < ITEMS_PER_BUCKET
      ensures SlotAt(s', i)
    {
      assert SlotAt(s, i);
      if step.PointSlot? && i == step.i {
        VecRoundTrip(step.tag, s.bucket.o % OFFSET_LIMIT);
      }
    }
  }

  /** Every step of every thread keeps the invariant. */
  lemma StepKeeps(s: Shared, step: Step)
    requires Inv(s) && Enabled(s, step)
    ensures Inv(Apply(s, step))
  {
    match step {
      case Place(count) => PlaceKeeps(s, count);
      case Publish(body) => PublishKeeps(s, body);
      case FillWord => FillKeeps(s);
      case EndFill => EndFillKeeps(s);
      case ClearSlot(_) => SlotStepKeeps(s, step);
      case PointSlot(_, _) => SlotStepKeeps(s, step);
      case Visit(_) => SlotStepKeeps(s, step);
      case _ => KeepRestOf(s, Apply(s, step));
    }
  }
}
