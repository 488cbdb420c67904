/** The log-structured cache, used by one thread: buckets of packed slots over a pool, with
    the garbage sweep that every append drives.  Two ghost fields tell what the slots stand
    for: `origin` has the true offset behind each slot's 40-bit one, and `spec` is the plain
    map that the cache stands in for. */
module Cache {
  import opened Arith
  import opened Options
  import opened CircularLog
  import opened Sweep
  import opened CacheState
  import P = Pool

  class Cache {
    const pool: P.Pool
    const sh: Shape
    var buckets: seq<seq<nat>>
    ghost var origin: seq<seq<nat>>
    ghost var spec: map<Key, Entry>

    /** Everything but the sweep, which has covered the appends up to position t. */
    ghost predicate SweptTo(t: nat)
      reads this, pool, pool.data
    {
      && sh.Ok() && pool.data.Length == sh.words
      && pool.Valid()
      && TableOk(sh, pool.tail, pool.log, spec, buckets, origin)
      && TableRecent(sh, buckets, origin, t)
      && t <= pool.tail <= t + 8 * sh.words
    }

    ghost predicate Valid()
      reads this, pool, pool.data
    {
      SweptTo(pool.tail)
    }

    ghost predicate Has(key: Key)
      requires 0 < sh.buckets
      reads this, pool
    {
      Cached(sh, pool.log, buckets, origin, key)
    }

    /** The cache has the key, at an item that the log has outgrown by at most `age` bytes. */
    ghost predicate Young(key: Key, age: int)
      requires 0 < sh.buckets
      reads this, pool
    {
      Within(sh, pool.tail, pool.log, buckets, origin, key, age)
    }

    /** Every key that the log has not outgrown is there. */
    ghost predicate AllYoung(ages: map<Key, nat>)
      requires 0 < sh.buckets
      reads this, pool
    {
      AllWithin(sh, pool.tail, pool.log, buckets, origin, ages)
    }

    lemma SurelyHas(ages: map<Key, nat>, key: Key)
      requires 0 < sh.buckets && AllYoung(ages)
      ensures Surely(sh, ages, key) ==> Has(key)
    {
      if Surely(sh, ages, key) {
        YoungIsCached(sh, pool.tail, pool.log, buckets, origin, key, ages[key]);
      }
    }

    lemma HasIsYoung(key: Key)
      requires Valid()
      ensures Has(key) ==> key in spec && Young(key, 8 * sh.words)
    {
      if Has(key) {
        CachedIsWithin(sh, pool.head, pool.tail, pool.log, spec, buckets, origin, key);
      }
    }

    /** Some slot of the key's bucket matches it, whether or not its item is still in the log. */
    ghost predicate SomeMatch(key: Key)
      requires 0 < sh.buckets <= |buckets| && 0 < pool.data.Length
      reads this, pool.data
    {
      var slots := buckets[BucketIndex(key.hash, sh.buckets)];
      exists i :: 0 <= i < |slots| && Matches(pool.data[..], slots[i], key)
    }

    /** What an account of a run says is so. */
    ghost predicate Bears(known: Account)
      requires 0 < sh.buckets <= |buckets| && 0 < pool.data.Length
      reads this, pool, pool.data
    {
      && AllYoung(known.ages) && TagsIn(buckets, known.tags)
      && (known.gone.Some? ==> !SomeMatch(known.gone.value))
    }

    lemma SurelyNoMatch(known: Account, key: Key)
      requires Valid() && Bears(known)
      ensures Place(sh, key) !in known.tags || known.gone == Some(key) ==> !SomeMatch(key)
    {
      if Place(sh, key) !in known.tags {
        UntaggedNoMatch(pool.data[..], buckets, known.tags, BucketIndex(key.hash, sh.buckets), key);
      }
    }

    constructor (sh: Shape)
      requires sh.Ok()
      ensures Valid() && this.sh == sh && spec == map[] && fresh(pool) && fresh(pool.data)
      ensures TagsIn(buckets, {})
    {
      this.sh := sh;
      pool := new P.Pool(sh.words);
      buckets := seq(sh.buckets, _ => seq(ITEMS_PER_BUCKET, _ => 0));
      origin := seq(sh.buckets, _ => seq(ITEMS_PER_BUCKET, _ => 0));
      spec := map[];
    }

    /** Empty every bucket and the pool. */
    method Reset()
      requires Valid()
      modifies this, pool
      ensures Valid() && spec == map[] && TagsIn(buckets, {})
    {
      buckets := seq(sh.buckets, _ => seq(ITEMS_PER_BUCKET, _ => 0));
      origin := seq(sh.buckets, _ => seq(ITEMS_PER_BUCKET, _ => 0));
      spec := map[];
      pool.Reset();
    }

    // ---------------------------------------------------------------- lookup

    /** Compare the key of whatever lies at an offset. */
    method CompareKeys(offset: nat, key: Key) returns (same: bool)
      requires 0 < pool.data.Length
      ensures same <==>
                && KeyLength(Word(pool.data[..], offset, 1)) == key.length
                && forall i :: 0 <= i < |key.words| ==> Word(pool.data[..], offset, HEADER_WORDS + i) == key.words[i]
    {
      var n := pool.data.Length;
      if KeyLength(pool.data[(offset / 8 + 1) % n]) != key.length {
        return false;
      }
      for i := 0 to |key.words|
        invariant forall j :: 0 <= j < i ==> Word(pool.data[..], offset, HEADER_WORDS + j) == key.words[j]
      {
        if pool.data[(offset / 8 + HEADER_WORDS + i) % n] != key.words[i] {
          return false;
        }
      }
      return true;
    }

    /** The first slot of a bucket that matches, or the number of slots. */
    method FindItemIndex(b: nat, key: Key) returns (i: nat)
      requires 0 < pool.data.Length && b < |buckets| && |buckets[b]| == ITEMS_PER_BUCKET
      ensures i <= ITEMS_PER_BUCKET
      ensures i < ITEMS_PER_BUCKET ==> Matches(pool.data[..], buckets[b][i], key)
      ensures forall j :: 0 <= j < i ==> !Matches(pool.data[..], buckets[b][j], key)
    {
      i := 0;
      while i < ITEMS_PER_BUCKET
        invariant i <= ITEMS_PER_BUCKET
        invariant forall j :: 0 <= j < i ==> !Matches(pool.data[..], buckets[b][j], key)
      {
        var v := buckets[b][i];
        if TagOf(v) == CalcTag(key.hash) {
          var offset := OffsetOf(v);
          if pool.data[(offset / 8 + 2) % pool.data.Length] == key.hash {
            var same := CompareKeys(offset, key);
            if same {
              return;
            }
          }
        }
        i := i + 1;
      }
    }

    method FindSameTag(b: nat, tag: nat) returns (i: nat)
      requires b < |buckets| && |buckets[b]| == ITEMS_PER_BUCKET
      ensures i <= ITEMS_PER_BUCKET
      ensures i < ITEMS_PER_BUCKET ==> TagOf(buckets[b][i]) == tag
      ensures forall j :: 0 <= j < i ==> TagOf(buckets[b][j]) != tag
    {
      i := 0;
      while i < ITEMS_PER_BUCKET && TagOf(buckets[b][i]) != tag
        invariant i <= ITEMS_PER_BUCKET
        invariant forall j :: 0 <= j < i ==> TagOf(buckets[b][j]) != tag
      {
        i := i + 1;
      }
    }

    /** The masked distance of a slot from the tail. */
    function Distance(v: nat): nat
      reads pool
    {
      (pool.tail - OffsetOf(v)) % OFFSET_LIMIT
    }

    /** The first empty slot, or else the slot nearest to the tail: the source calls it the
        oldest, but its comparison keeps the smallest distance. */
    method FindEmptyOrOldest(b: nat) returns (i: nat)
      requires b < |buckets| && |buckets[b]| == ITEMS_PER_BUCKET
      ensures i < ITEMS_PER_BUCKET
      ensures 0 in buckets[b] ==> buckets[b][i] == 0 && forall j :: 0 <= j < i ==> buckets[b][j] != 0
      ensures 0 !in buckets[b] ==> forall j ::
                0 <= j < ITEMS_PER_BUCKET ==> Distance(buckets[b][i]) <= Distance(buckets[b][j])
    {
      var nearest, k := 0xFFFF_FFFF_FFFF_FFFF, 0;
      i := 0;
      while k < ITEMS_PER_BUCKET
        invariant 0 <= k <= ITEMS_PER_BUCKET && i < ITEMS_PER_BUCKET
        invariant forall j :: 0 <= j < k ==> buckets[b][j] != 0
        invariant forall j :: 0 <= j < k ==> nearest <= Distance(buckets[b][j])
        invariant k == 0 ==> nearest == 0xFFFF_FFFF_FFFF_FFFF
        invariant 0 < k ==> nearest == Distance(buckets[b][i])
      {
        if buckets[b][k] == 0 {
          return k;
        }
        var distance := (pool.tail - OffsetOf(buckets[b][k])) % OFFSET_LIMIT;
        if nearest > distance {
          nearest, i := distance, k;
        }
        k := k + 1;
      }
    }

    // ---------------------------------------------------------------- get

    method ClearSlot(b: nat, i: nat, ghost t: nat)
      requires SweptTo(t) && b < sh.buckets && i < ITEMS_PER_BUCKET && |buckets[b]| == ITEMS_PER_BUCKET
      modifies this`buckets
      ensures SweptTo(t) && buckets == Put(old(buckets), b, i, 0)
      ensures old(origin[b][i] !in pool.log) ==> forall k :: Has(k) <==> old(Has(k))
      ensures old(origin[b][i] !in pool.log) ==> SameAges(sh, pool.tail, pool.log, old(buckets), buckets, origin)
    {
      ClearKeeps(sh, pool.tail, pool.log, spec, buckets, origin, b, i);
      ClearKeepsRecent(sh, buckets, origin, b, i, t);
      if origin[b][i] !in pool.log {
        ClearStaleStep(sh, pool.tail, pool.log, buckets, origin, b, i);
      }
      buckets := Put(buckets, b, i, 0);
    }

    /** Copy words of whatever lies at an offset. */
    method CopyWords(offset: nat, first: nat, count: nat) returns (words: seq<int>)
      requires 0 < pool.data.Length
      ensures |words| == count
      ensures forall j :: 0 <= j < count ==> words[j] == Word(pool.data[..], offset, first + j)
    {
      words := [];
      for j := 0 to count
        invariant |words| == j
        invariant forall k :: 0 <= k < j ==> words[k] == Word(pool.data[..], offset, first + k)
      {
        words := words + [pool.data[(offset / 8 + first + j) % pool.data.Length]];
      }
    }

    /** Copy out whatever lies at a slot's offset, with the lengths kept in their limits.  If
        the item is in the log the copy is the entry it holds. */
    method ReadItem(v: nat, capacity: nat, ghost o: nat, ghost key: Key, ghost entry: Entry) returns (r: Lookup)
      requires sh.Ok() && pool.data.Length == sh.words && pool.Valid()
      requires 1 <= TagOf(v) < TWO_16 && v == ItemVec(TagOf(v), o % OFFSET_LIMIT)
      ensures r.Hit?
      ensures o in pool.log && Holds(pool.log[o], key, entry) ==> Returns(r, entry, capacity)
    {
      var offset := OffsetOf(v);
      var meta := pool.data[(offset / 8 + 1) % pool.data.Length];
      var keyLength := if KeyLength(meta) > MAX_KEY_LENGTH then MAX_KEY_LENGTH else KeyLength(meta);
      var valueLength := if ValueLength(meta) > MAX_VALUE_LENGTH then MAX_VALUE_LENGTH else ValueLength(meta);
      var length := if valueLength > capacity then capacity else valueLength;
      var words := CopyWords(offset, HEADER_WORDS + Words(keyLength), Words(length));
      if o in pool.log && Holds(pool.log[o], key, entry) {
        ReadMeta(sh, pool.data[..], pool.head, pool.tail, pool.log, v, o, key, entry);
        ReadBack(sh, pool.data[..], pool.head, pool.tail, pool.log, v, o, key, entry, words, length);
      }
      r := Hit(length, words, Expire(meta));
    }

    /** A hit returns, up to the caller's capacity, what the abstract map has for the key, and
        the lookup hits exactly if the cache still has the key. */
    method Get(key: Key, capacity: nat, readonly: bool) returns (r: Lookup)
      requires Valid() && key.Ok()
      modifies this`buckets
      ensures Valid()
      ensures r.Hit? <==> old(Has(key))
      ensures r.Hit? ==> key in spec && Returns(r, spec[key], capacity)
      ensures forall k :: Has(k) <==> old(Has(k))
      ensures SameAges(sh, pool.tail, pool.log, old(buckets), buckets, origin)
      ensures readonly || r.Hit? ==> buckets == old(buckets)
    {
      var b := BucketIndex(key.hash, sh.buckets);
      assert BucketOk(sh, pool.tail, pool.log, spec, b, buckets[b], origin[b]);
      var i := FindItemIndex(b, key);
      FindDecides(sh, pool.data[..], pool.head, pool.tail, pool.log, spec, buckets, origin, key, i);
      if i == ITEMS_PER_BUCKET {
        return Miss;
      }
      ghost var o := origin[b][i];
      var copy := ReadItem(buckets[b][i], capacity, o, key, if key in spec then spec[key] else Entry(0, [], 0));
      assert BucketRecent(sh, b, buckets[b], origin[b], pool.tail);
      ValidIffInLog(sh, pool.tail, pool.tail, pool.log, spec, b, buckets[b][i], o, pool.head);
      if !IsValid(pool.data.Length, pool.tail, OffsetOf(buckets[b][i])) {
        if !readonly {
          ClearSlot(b, i, pool.tail);
        }
        return Miss;
      }
      // At the FIFO threshold, the pool size, no item is far enough back to be moved to the tail.
      assert (pool.tail - OffsetOf(buckets[b][i])) % (8 * pool.data.Length) <= 8 * pool.data.Length;
      r := copy;
    }

    /** After a delete the cache does not have the key, whatever was found. */
    method Delete(key: Key) returns (found: bool)
      requires Valid() && key.Ok()
      modifies this`buckets, this`spec
      ensures Valid()
      ensures spec == old(spec) - {key}
      ensures found <==> old(SomeMatch(key))
      ensures old(Has(key)) ==> found
      ensures !Has(key) && forall k :: k != key ==> (Has(k) <==> old(Has(k)))
      ensures OthersSameAges(sh, pool.tail, pool.log, old(buckets), buckets, origin, key)
      ensures !SomeMatch(key) && (!found ==> buckets == old(buckets))
      ensures found ==> TagRemoved(old(buckets), buckets, BucketIndex(key.hash, sh.buckets), CalcTag(key.hash))
    {
      var b := BucketIndex(key.hash, sh.buckets);
      assert BucketOk(sh, pool.tail, pool.log, spec, b, buckets[b], origin[b]);
      var i := FindItemIndex(b, key);
      FindDecides(sh, pool.data[..], pool.head, pool.tail, pool.log, spec, buckets, origin, key, i);
      if i == ITEMS_PER_BUCKET {
        ForgetKeeps(sh, pool.tail, pool.log, spec, buckets, origin, key);
        spec := spec - {key};
        return false;
      }
      ClearedNotCached(sh, pool.log, buckets, origin, i, key);
      ClearStep(sh, pool.tail, pool.log, buckets, Put(buckets, b, i, 0), origin, b, i, key);
      ClearRemovesTag(buckets, b, i);
      ClearedNoMatch(pool.data[..], buckets[b], i, key, Put(buckets, b, i, 0)[b]);
      ClearSlot(b, i, pool.tail);
      ForgetKeeps(sh, pool.tail, pool.log, spec, buckets, origin, key);
      spec := spec - {key};
      return true;
    }

    // ---------------------------------------------------------------- set

    /** Copy words into an item, from a given word on. */
    method WriteWords(ghost o: nat, offset: nat, first: nat, words: seq<int>)
      requires sh.Ok() && pool.data.Length == sh.words && pool.Valid()
      requires o in pool.log && o % 8 == 0 && offset == o % OFFSET_LIMIT
      requires 1 <= first && first + |words| <= |pool.log[o]|
      modifies pool`log, pool.data
      ensures pool.Valid()
      ensures pool.log == old(pool.log)[o := Splice(old(pool.log[o]), first, words)]
    {
      assert Splice(pool.log[o], first, words[..0]) == pool.log[o];
      for j := 0 to |words|
        invariant pool.Valid()
        invariant pool.log == old(pool.log)[o := Splice(old(pool.log[o]), first, words[..j])]
      {
        SpliceStep(old(pool.log[o]), first, words, j);
        SameWord(sh.words, sh.wraps, o, first + j);
        pool.StoreWord(o, offset, first + j, words[j]);
      }
      assert words[..|words|] == words;
    }

    /** Fill a new item. */
    method SetItem(ghost o: nat, offset: nat, key: Key, entry: Entry)
      requires sh.Ok() && pool.data.Length == sh.words && pool.Valid() && key.Ok() && entry.Ok()
      requires o in pool.log && o % 8 == 0 && offset == o % OFFSET_LIMIT && 8 * |pool.log[o]| == ItemSize(key, entry)
      modifies pool`log, pool.data
      ensures pool.Valid()
      ensures o in pool.log && pool.log == old(pool.log)[o := pool.log[o]]
      ensures Holds(pool.log[o], key, entry) && |pool.log[o]| == old(|pool.log[o]|)
    {
      FreshItemHolds(pool.log[o], key, entry);
      WriteWords(o, offset, 1, [MetaWord(key.length, entry.length, entry.expire), key.hash]);
      WriteWords(o, offset, HEADER_WORDS, key.words);
      WriteWords(o, offset, HEADER_WORDS + Words(key.length), entry.words);
    }

    /** Replace the value of an item in place; the key length is read from the item. */
    method SetItemValue(ghost o: nat, offset: nat, entry: Entry, ghost key: Key, ghost entry0: Entry)
      requires sh.Ok() && pool.data.Length == sh.words && pool.Valid() && entry.Ok()
      requires o in pool.log && o % 8 == 0 && offset == o % OFFSET_LIMIT
      requires Holds(pool.log[o], key, entry0) && ItemSize(key, entry) <= 8 * |pool.log[o]|
      modifies pool`log, pool.data
      ensures pool.Valid()
      ensures o in pool.log && pool.log == old(pool.log)[o := pool.log[o]]
      ensures Holds(pool.log[o], key, entry)
    {
      ReadsLog(sh, pool.data[..], pool.head, pool.tail, pool.log, o, 1);
      MetaRoundTrip(key.length, entry0.length, entry0.expire);
      UpdatedItemHolds(pool.log[o], key, entry0, entry);
      var keyLength := KeyLength(pool.data[(offset / 8 + 1) % pool.data.Length]);
      WriteWords(o, offset, 1, [MetaWord(keyLength, entry.length, entry.expire)]);
      WriteWords(o, offset, HEADER_WORDS + Words(keyLength), entry.words);
    }

    /** Empty the slots of a bucket whose items have left the log. */
    method CleanBucket(b: nat, ghost t: nat)
      requires SweptTo(t) && b < sh.buckets
      modifies this`buckets
      ensures SweptTo(t)
      ensures InWindow(sh, buckets[b], origin[b], pool.tail)
      ensures forall c :: 0 <= c < sh.buckets && InWindow(sh, old(buckets)[c], origin[c], pool.tail) ==>
                            InWindow(sh, buckets[c], origin[c], pool.tail)
      ensures forall k :: Has(k) <==> old(Has(k))
      ensures SameAges(sh, pool.tail, pool.log, old(buckets), buckets, origin)
    {
      assert BucketOk(sh, pool.tail, pool.log, spec, b, buckets[b], origin[b]);
      for i := 0 to ITEMS_PER_BUCKET
        invariant SweptTo(t) && BucketOk(sh, pool.tail, pool.log, spec, b, buckets[b], origin[b])
        invariant forall j {:trigger buckets[b][j]} ::
                    0 <= j < i && buckets[b][j] != 0 ==> pool.tail <= origin[b][j] + 8 * sh.words
        invariant forall c :: 0 <= c < sh.buckets && c != b ==> buckets[c] == old(buckets[c])
        invariant forall j :: 0 <= j < ITEMS_PER_BUCKET ==> buckets[b][j] == old(buckets[b])[j] || buckets[b][j] == 0
        invariant forall k :: Has(k) <==> old(Has(k))
        invariant SameAges(sh, pool.tail, pool.log, old(buckets), buckets, origin)
      {
        var v := buckets[b][i];
        if v != 0 {
          assert BucketRecent(sh, b, buckets[b], origin[b], t);
          ValidIffInLog(sh, t, pool.tail, pool.log, spec, b, v, origin[b][i], pool.head);
          if !IsValid(pool.data.Length, pool.tail, OffsetOf(v)) {
            ghost var before := buckets;
            ClearSlot(b, i, t);
            SameAgesTransitive(sh, pool.tail, pool.log, old(buckets), before, buckets, origin);
            assert BucketOk(sh, pool.tail, pool.log, spec, b, buckets[b], origin[b]);
          }
        }
      }
    }

    /** Visit the bucket of every block that the advance from the old tail leaves. */
    method Cleanup(oldTail: nat, newTail: nat, ghost t: nat)
      requires SweptTo(t) && newTail == pool.tail && oldTail == t % OFFSET_LIMIT
      modifies this`buckets
      ensures Valid()
      ensures forall k :: Has(k) <==> old(Has(k))
      ensures SameAges(sh, pool.tail, pool.log, old(buckets), buckets, origin)
    {
      var index: nat := (oldTail / sh.block) % sh.buckets;
      var end: nat := (newTail / sh.block) % sh.buckets;
      ghost var first, last := SweepSpan(sh, oldTail, newTail, t);
      ghost var j: nat := first;
      while index != end
        invariant SweptTo(t) && newTail == pool.tail
        invariant first <= j <= last && index == j % sh.buckets
        invariant Visited(sh, buckets, origin, first, j, pool.tail)
        invariant forall k :: Has(k) <==> old(Has(k))
        invariant SameAges(sh, pool.tail, pool.log, old(buckets), buckets, origin)
        decreases last - j
      {
        SameBlock(sh, first, j, last);
        ghost var before := buckets;
        CleanBucket(index, t);
        SameAgesTransitive(sh, pool.tail, pool.log, old(buckets), before, buckets, origin);
        VisitOneMore(sh, before, buckets, origin, first, j, pool.tail);
        index := (index + 1) % sh.buckets;
        j := j + 1;
      }
      SameBlock(sh, first, j, last);
      SweepCatchesUp(sh, buckets, origin, t, pool.tail);
    }

    /** Overwrite the item that a slot points at, in place. */
    method UpdateInPlace(b: nat, i: nat, key: Key, entry: Entry)
      requires Valid() && key.Ok() && entry.Ok() && b == BucketIndex(key.hash, sh.buckets)
      requires i < ITEMS_PER_BUCKET && BucketOk(sh, pool.tail, pool.log, spec, b, buckets[b], origin[b])
      requires SlotHas(pool.log, buckets[b][i], origin[b][i], key)
      requires key in spec && Holds(pool.log[origin[b][i]], key, spec[key])
      requires ItemSize(key, entry) <= 8 * |pool.log[origin[b][i]]|
      modifies this`spec, pool`log, pool.data
      ensures Valid() && spec == old(spec)[key := entry]
      ensures Has(key)
      ensures forall k :: k != key ==> (Has(k) <==> old(Has(k)))
      ensures OthersAge(sh, b, pool.tail, old(pool.log), buckets, origin, pool.tail, pool.log, buckets, origin)
      ensures forall age :: old(Young(key, age)) ==> Young(key, age)
    {
      ghost var o := origin[b][i];
      assert SlotOk(sh, pool.tail, pool.log, spec, b, buckets[b][i], o);
      VecRoundTrip(TagOf(buckets[b][i]), o % OFFSET_LIMIT);
      var offset := OffsetOf(buckets[b][i]);
      SetItemValue(o, offset, entry, key, spec[key]);
      UpdateKeeps(sh, pool.tail, old(pool.log), spec, buckets, origin, i, pool.log[o], key, spec[key], entry);
      spec := spec[key := entry];
      assert SlotHas(pool.log, buckets[b][i], o, key);
      UpdateStep(sh, pool.tail, old(pool.log), buckets, origin, o, pool.log[o], key, old(spec)[key], entry);
    }

    /** Append an item for a pair. */
    method NewItem(key: Key, entry: Entry) returns (offset: nat)
      requires sh.Ok() && pool.data.Length == sh.words && pool.Valid() && key.Ok() && entry.Ok()
      modifies pool, pool.data
      ensures pool.Valid() && offset == old(pool.tail) % OFFSET_LIMIT
      ensures old(pool.tail) in pool.log && Holds(pool.log[old(pool.tail)], key, entry)
      ensures var t, words := old(pool.tail), pool.log[old(pool.tail)];
              && t % 8 == 0 && |words| <= sh.words && pool.tail == t + 8 * |words| == t + ItemSize(key, entry)
              && pool.log == From(old(pool.log), pool.tail - 8 * sh.words)[t := words]
    {
      ghost var t := pool.tail;
      offset := pool.PushTail(ItemSize(key, entry));
      SetItem(t, offset, key, entry);
    }

    /** Append an item and point a slot at it; the sweep is still to come. */
    method Append(b: nat, i: nat, key: Key, entry: Entry) returns (offset: nat)
      requires Valid() && key.Ok() && entry.Ok() && b == BucketIndex(key.hash, sh.buckets)
      requires i < ITEMS_PER_BUCKET && BucketOk(sh, pool.tail, pool.log, spec, b, buckets[b], origin[b])
      requires OnlySlot(buckets[b], i, CalcTag(key.hash))
      modifies this, pool, pool.data
      ensures SweptTo(old(pool.tail)) && spec == old(spec)[key := entry]
      ensures offset == old(pool.tail) % OFFSET_LIMIT
      ensures Has(key)
      ensures forall k :: k != key && Has(k) ==> old(Has(k))
      ensures forall k :: Survives(sh, old(pool.log), old(buckets), old(origin), b, i, pool.tail, k) ==> Has(k)
      ensures pool.tail == old(pool.tail) + ItemSize(key, entry) && Young(key, ItemSize(key, entry))
      ensures OthersAge(sh, b, old(pool.tail), old(pool.log), old(buckets), old(origin),
                        pool.tail, pool.log, buckets, origin)
      ensures TagAdded(old(buckets), buckets, b, CalcTag(key.hash))
    {
      ghost var t := pool.tail;
      P.AllAfterHead(pool.data.Length, pool.head, pool.tail, pool.log);
      offset := NewItem(key, entry);
      ghost var words := pool.log[t];
      VecRoundTrip(CalcTag(key.hash), offset);
      PutAddsTag(buckets, b, i, ItemVec(CalcTag(key.hash), offset));
      buckets := Put(buckets, b, i, ItemVec(CalcTag(key.hash), offset));
      origin := Put(origin, b, i, t);
      AppendStep(sh, t, old(pool.log), spec, old(buckets), old(origin), b, i, buckets[b][i], words, key, entry,
                 pool.tail, pool.log, buckets, origin);
      AppendEffects(sh, t, old(pool.log), old(buckets), old(origin), b, i, buckets[b][i], words, key, entry,
                    pool.tail, pool.log, buckets, origin);
      spec := spec[key := entry];
    }

    /** A successful set makes the abstract map and the cache have the entry; it fails only
        when it may not overwrite. */
    method Set(key: Key, entry: Entry, overwrite: bool) returns (ok: bool)
      requires Valid() && key.Ok() && entry.Ok()
      modifies this, pool, pool.data
      ensures Valid()
      ensures ok ==> spec == old(spec)[key := entry] && Has(key)
      ensures ok ==> forall k :: k != key && Has(k) ==> old(Has(k))
      ensures ok ==>
                var b := BucketIndex(key.hash, sh.buckets);
                exists i :: Given(old(buckets), b, i, CalcTag(key.hash)) && forall k ::
                  k != key && Survives(sh, old(pool.log), old(buckets), old(origin), b, i, pool.tail, k) ==> Has(k)
      ensures ok ==> SetAged(sh, key, entry, old(Has(key)), old(pool.tail), old(pool.log), old(buckets), old(origin),
                             pool.tail, pool.log, buckets, origin)
      ensures !ok ==> spec == old(spec) && buckets == old(buckets) && origin == old(origin) && pool.log == old(pool.log)
      ensures !ok ==> pool.tail == old(pool.tail)
      ensures ok <==> overwrite || !old(SomeMatch(key))
      ensures old(Has(key)) ==> old(SomeMatch(key))
    {
      var b := BucketIndex(key.hash, sh.buckets);
      assert BucketOk(sh, pool.tail, pool.log, spec, b, buckets[b], origin[b]);
      var i := FindItemIndex(b, key);
      FindDecides(sh, pool.data[..], pool.head, pool.tail, pool.log, spec, buckets, origin, key, i);
      if i < ITEMS_PER_BUCKET {
        if !overwrite {
          return false;
        }
        var done := TryInPlace(b, i, key, entry);
        if done {
          assert Given(old(buckets), b, i, CalcTag(key.hash));
          return true;
        }
      } else {
        i := FindSameTag(b, CalcTag(key.hash));
        if i == ITEMS_PER_BUCKET {
          i := FindEmptyOrOldest(b);
        }
      }
      StoreNew(b, i, key, entry);
      assert Given(old(buckets), b, i, CalcTag(key.hash));
      return true;
    }

    /** Overwrite the item of a matching slot in place, if it is still in the log and long enough. */
    method TryInPlace(b: nat, i: nat, key: Key, entry: Entry) returns (done: bool)
      requires Valid() && key.Ok() && entry.Ok() && b == BucketIndex(key.hash, sh.buckets)
      requires i < ITEMS_PER_BUCKET && BucketOk(sh, pool.tail, pool.log, spec, b, buckets[b], origin[b])
      requires buckets[b][i] != 0 && (origin[b][i] in pool.log ==>
                 && SlotHas(pool.log, buckets[b][i], origin[b][i], key)
                 && key in spec && Holds(pool.log[origin[b][i]], key, spec[key]))
      modifies this`spec, pool`log, pool.data
      ensures Valid() && BucketOk(sh, pool.tail, pool.log, spec, b, buckets[b], origin[b])
      ensures !done ==> spec == old(spec) && pool.log == old(pool.log)
      ensures done ==> old(Has(key)) && spec == old(spec)[key := entry] && Has(key)
      ensures done ==> forall k :: k != key ==> (Has(k) <==> old(Has(k)))
      ensures done ==> SetAged(sh, key, entry, true, pool.tail, old(pool.log), buckets, origin,
                               pool.tail, pool.log, buckets, origin)
    {
      var offset := OffsetOf(buckets[b][i]);
      ghost var o := origin[b][i];
      assert BucketRecent(sh, b, buckets[b], origin[b], pool.tail);
      ValidIffInLog(sh, pool.tail, pool.tail, pool.log, spec, b, buckets[b][i], o, pool.head);
      VecRoundTrip(TagOf(buckets[b][i]), o % OFFSET_LIMIT);
      if !IsValid(pool.data.Length, pool.tail, offset) {
        return false;
      }
      assert ItemOk(sh.words, pool.head, pool.tail, pool.log, o);
      ReadsLog(sh, pool.data[..], pool.head, pool.tail, pool.log, o, 0);
      if pool.data[(offset / 8) % pool.data.Length] < ItemSize(key, entry) {
        return false;
      }
      UpdateInPlace(b, i, key, entry);
      return true;
    }

    /** Append an item, point a slot at it, and let the sweep catch up. */
    method StoreNew(b: nat, i: nat, key: Key, entry: Entry)
      requires Valid() && key.Ok() && entry.Ok() && b == BucketIndex(key.hash, sh.buckets)
      requires i < ITEMS_PER_BUCKET && BucketOk(sh, pool.tail, pool.log, spec, b, buckets[b], origin[b])
      requires OnlySlot(buckets[b], i, CalcTag(key.hash))
      modifies this, pool, pool.data
      ensures Valid() && spec == old(spec)[key := entry] && Has(key)
      ensures forall k :: k != key && Has(k) ==> old(Has(k))
      ensures forall k :: Survives(sh, old(pool.log), old(buckets), old(origin), b, i, pool.tail, k) ==> Has(k)
      ensures forall had :: SetAged(sh, key, entry, had, old(pool.tail), old(pool.log), old(buckets), old(origin),
                                    pool.tail, pool.log, buckets, origin)
    {
      ghost var t := pool.tail;
      var offset := Append(b, i, key, entry);
      ghost var appended := buckets;
      Cleanup(offset, pool.tail, t);
      AgeThenSweep(sh, b, t, old(pool.log), old(buckets), old(origin), pool.tail, pool.log, appended, origin, buckets);
    }
  }

  // ---------------------------------------------------------------- whole runs

  datatype Op =
    | SetOp(key: Key, entry: Entry, overwrite: bool)
    | GetOp(key: Key, capacity: nat, readonly: bool)
    | DeleteOp(key: Key)

  datatype Outcome = Stored(ok: bool) | Looked(lookup: Lookup) | Deleted(found: bool)

  ghost predicate OpOk(op: Op) {
    op.key.Ok() && (op.SetOp? ==> op.entry.Ok())
  }

  /** The entry of the last successful set of a key, if no delete of the key came after it. */
  function LastStored(ops: seq<Op>, outcomes: seq<Outcome>, key: Key): Option<Entry>
    requires |ops| == |outcomes|
  {
    if ops == [] then None
    else
      var n := |ops| - 1;
      if ops[n].SetOp? && ops[n].key == key && outcomes[n] == Stored(true) then Some(ops[n].entry)
      else if ops[n].DeleteOp? && ops[n].key == key then None
      else LastStored(ops[..n], outcomes[..n], key)
  }

  /** The abstract map is the last stored entry of every key. */
  ghost predicate Agrees(spec: map<Key, Entry>, ops: seq<Op>, outcomes: seq<Outcome>)
    requires |ops| == |outcomes|
  {
    forall key :: LastStored(ops, outcomes, key) == if key in spec then Some(spec[key]) else None
  }

  /** A lookup that hit returned the last stored entry of its key. */
  ghost predicate HitOk(ops: seq<Op>, outcomes: seq<Outcome>, t: nat)
    requires t < |ops| == |outcomes|
  {
    ops[t].GetOp? && outcomes[t].Looked? && outcomes[t].lookup.Hit? ==>
      var last := LastStored(ops[..t], outcomes[..t], ops[t].key);
      last.Some? && Returns(outcomes[t].lookup, last.value, ops[t].capacity)
  }

  /** How many bytes of log each key is known to be behind, at most, after an operation.  Keys of
      the bucket of a set are given up, because one of them may have been evicted. */
  function AgesAfter(sh: Shape, was: map<Key, nat>, last: Option<Entry>, op: Op, outcome: Outcome): map<Key, nat>
    requires 0 < sh.buckets
  {
    match op
    case GetOp(_, _, _) => was
    case DeleteOp(key) => was - {key}
    case SetOp(key, entry, _) =>
      if outcome != Stored(true) then was
      else
        var b := BucketIndex(key.hash, sh.buckets);
        (map k | k in was && BucketIndex(k.hash, sh.buckets) != b :: was[k] + ItemSize(key, entry))
          [key := OwnAge(sh, was, last, key, entry)]
  }

  /** A key that was stored before may be updated where it is, and then keeps its age. */
  function OwnAge(sh: Shape, was: map<Key, nat>, last: Option<Entry>, key: Key, entry: Entry): nat {
    if last.None? then ItemSize(key, entry)
    else if key in was && ItemSize(key, entry) <= was[key] <= 8 * sh.words then was[key]
    else if key in was && was[key] <= 8 * sh.words then ItemSize(key, entry)
    else 8 * sh.words
  }

  /** The bucket and the tag that a key is found by. */
  function Place(sh: Shape, key: Key): (nat, nat)
    requires 0 < sh.buckets
  {
    (BucketIndex(key.hash, sh.buckets), CalcTag(key.hash))
  }

  /** What a run tells about the cache: how far behind its keys are, the bucket and tag of every
      used slot, and the key that was just deleted. */
  datatype Account = Account(ages: map<Key, nat>, tags: set<(nat, nat)>, gone: Option<Key>)

  function AccountAfter(sh: Shape, was: Account, last: Option<Entry>, op: Op, outcome: Outcome): Account
    requires 0 < sh.buckets
  {
    Account(AgesAfter(sh, was.ages, last, op, outcome),
            if outcome == Stored(true) then was.tags + {Place(sh, op.key)}
            else if outcome == Deleted(true) then was.tags - {Place(sh, op.key)}
            else was.tags,
            if op.DeleteOp? then Some(op.key) else None)
  }

  function Accounts(sh: Shape, tags: set<(nat, nat)>, ops: seq<Op>, outcomes: seq<Outcome>): Account
    requires |ops| == |outcomes| && 0 < sh.buckets
  {
    if ops == [] then Account(map[], tags, None)
    else
      var n := |ops| - 1;
      AccountAfter(sh, Accounts(sh, tags, ops[..n], outcomes[..n]), LastStored(ops[..n], outcomes[..n], ops[n].key),
                   ops[n], outcomes[n])
  }

  /** The log has not gone round since the key was stored. */
  predicate Surely(sh: Shape, ages: map<Key, nat>, key: Key) {
    key in ages && ages[key] <= 8 * sh.words
  }

  /** A lookup hits as long as the log has not gone round.  A set that may not overwrite is refused
      as long as the log has not gone round, and succeeds if no slot can have the key's tag or the
      key was just deleted. */
  ghost predicate KeptOk(sh: Shape, known: Account, op: Op, outcome: Outcome)
    requires 0 < sh.buckets
  {
    match op
    case GetOp(key, _, _) => outcome.Looked? && (Surely(sh, known.ages, key) ==> outcome.lookup.Hit?)
    case SetOp(key, _, overwrite) =>
      && outcome.Stored?
      && (overwrite || Place(sh, key) !in known.tags || known.gone == Some(key) ==> outcome.ok)
      && (!overwrite && Surely(sh, known.ages, key) ==> !outcome.ok)
    case DeleteOp(key) =>
      && outcome.Deleted?
      && (Surely(sh, known.ages, key) ==> outcome.found)
      && (Place(sh, key) !in known.tags || known.gone == Some(key) ==> !outcome.found)
  }

  ghost predicate RetainOk(sh: Shape, tags: set<(nat, nat)>, ops: seq<Op>, outcomes: seq<Outcome>, t: nat)
    requires t < |ops| == |outcomes| && 0 < sh.buckets
  {
    KeptOk(sh, Accounts(sh, tags, ops[..t], outcomes[..t]), ops[t], outcomes[t])
  }

  /** In every run, whatever was evicted and however often the log went round, every hit
      returned the last successful set of its key with no later delete; and every lookup of a key
      hit whose bucket was not set since and that the log has not overwritten.  `tags` covers the
      slots used at the start, none in a new cache. */
  method Run(cache: Cache, ops: seq<Op>, ghost tags: set<(nat, nat)>) returns (outcomes: seq<Outcome>)
    requires cache.Valid() && cache.spec == map[] && TagsIn(cache.buckets, tags)
    requires forall op :: op in ops ==> OpOk(op)
    modifies cache, cache.pool, cache.pool.data
    ensures cache.Valid() && |outcomes| == |ops|
    ensures Agrees(cache.spec, ops, outcomes)
    ensures forall t {:trigger HitOk(ops, outcomes, t)} :: 0 <= t < |ops| ==> HitOk(ops, outcomes, t)
    ensures forall t {:trigger RetainOk(cache.sh, tags, ops, outcomes, t)} ::
              0 <= t < |ops| ==> RetainOk(cache.sh, tags, ops, outcomes, t)
  {
    outcomes := [];
    ghost var known := Account(map[], tags, None);
    for n := 0 to |ops|
      invariant cache.Valid() && |outcomes| == n
      invariant Agrees(cache.spec, ops[..n], outcomes)
      invariant forall t {:trigger HitOk(ops[..n], outcomes, t)} :: 0 <= t < n ==> HitOk(ops[..n], outcomes, t)
      invariant known == Accounts(cache.sh, tags, ops[..n], outcomes) && cache.Bears(known)
      invariant forall t {:trigger RetainOk(cache.sh, tags, ops[..n], outcomes, t)} ::
                  0 <= t < n ==> RetainOk(cache.sh, tags, ops[..n], outcomes, t)
    {
      assert ops[n] in ops;
      ghost var before, spec0, last := outcomes, cache.spec, LastStored(ops[..n], outcomes, ops[n].key);
      var result := Step(cache, ops[n], known, last);
      Extend(ops, before, n, result, spec0, cache.spec);
      ExtendAccounts(cache.sh, tags, ops, before, n, result, known);
      outcomes, known := outcomes + [result], AccountAfter(cache.sh, known, last, ops[n], result);
    }
    assert ops[..|ops|] == ops;
  }

  /** What a step does to the abstract map, and what a hit returns. */
  ghost predicate StepOk(op: Op, result: Outcome, spec: map<Key, Entry>, spec': map<Key, Entry>) {
    match op
    case SetOp(key, entry, _) => result.Stored? && spec' == if result.ok then spec[key := entry] else spec
    case DeleteOp(key) => result.Deleted? && spec' == spec - {key}
    case GetOp(key, capacity, _) =>
      && result.Looked? && spec' == spec
      && (result.lookup.Hit? ==> key in spec && Returns(result.lookup, spec[key], capacity))
  }

  method Step(cache: Cache, op: Op, ghost known: Account, ghost last: Option<Entry>) returns (result: Outcome)
    requires cache.Valid() && OpOk(op) && cache.Bears(known)
    requires last == if op.key in cache.spec then Some(cache.spec[op.key]) else None
    modifies cache, cache.pool, cache.pool.data
    ensures cache.Valid()
    ensures StepOk(op, result, old(cache.spec), cache.spec)
    ensures KeptOk(cache.sh, known, op, result) && cache.Bears(AccountAfter(cache.sh, known, last, op, result))
  {
    match op {
      case SetOp(key, entry, overwrite) => result := StepSet(cache, key, entry, overwrite, known, last);
      case GetOp(key, capacity, readonly) => result := StepGet(cache, key, capacity, readonly, known, last);
      case DeleteOp(key) => result := StepDelete(cache, key, known, last);
    }
  }

  method StepGet(cache: Cache, key: Key, capacity: nat, readonly: bool, ghost known: Account, ghost last: Option<Entry>)
    returns (result: Outcome)
    requires cache.Valid() && key.Ok() && cache.Bears(known)
    modifies cache`buckets
    ensures cache.Valid() && StepOk(GetOp(key, capacity, readonly), result, cache.spec, cache.spec)
    ensures KeptOk(cache.sh, known, GetOp(key, capacity, readonly), result)
    ensures cache.Bears(AccountAfter(cache.sh, known, last, GetOp(key, capacity, readonly), result))
  {
    cache.SurelyHas(known.ages, key);
    var lookup := cache.Get(key, capacity, readonly);
    AllWithinSame(cache.sh, cache.pool.tail, cache.pool.log, old(cache.buckets), cache.buckets, cache.origin,
                  known.ages);
    result := Looked(lookup);
  }

  method StepDelete(cache: Cache, key: Key, ghost known: Account, ghost last: Option<Entry>) returns (result: Outcome)
    requires cache.Valid() && key.Ok() && cache.Bears(known)
    modifies cache`buckets, cache`spec
    ensures cache.Valid() && StepOk(DeleteOp(key), result, old(cache.spec), cache.spec)
    ensures KeptOk(cache.sh, known, DeleteOp(key), result)
    ensures cache.Bears(AccountAfter(cache.sh, known, last, DeleteOp(key), result))
  {
    cache.SurelyHas(known.ages, key);
    cache.SurelyNoMatch(known, key);
    var found := cache.Delete(key);
    AllWithinOthers(cache.sh, cache.pool.tail, cache.pool.log, old(cache.buckets), cache.buckets, cache.origin,
                    known.ages, key);
    result := Deleted(found);
  }

  method StepSet(cache: Cache, key: Key, entry: Entry, overwrite: bool, ghost known: Account, ghost last: Option<Entry>)
    returns (result: Outcome)
    requires cache.Valid() && key.Ok() && entry.Ok() && cache.Bears(known)
    requires last == if key in cache.spec then Some(cache.spec[key]) else None
    modifies cache, cache.pool, cache.pool.data
    ensures cache.Valid() && StepOk(SetOp(key, entry, overwrite), result, old(cache.spec), cache.spec)
    ensures KeptOk(cache.sh, known, SetOp(key, entry, overwrite), result)
    ensures cache.Bears(AccountAfter(cache.sh, known, last, SetOp(key, entry, overwrite), result))
  {
    cache.SurelyHas(known.ages, key);
    cache.SurelyNoMatch(known, key);
    cache.HasIsYoung(key);
    ItemFits(cache.sh, key, entry);
    ghost var had := cache.Has(key);
    var ok := cache.Set(key, entry, overwrite);
    if ok {
      SetAges(cache.sh, known.ages, last, key, entry, overwrite, had, old(cache.pool.tail), old(cache.pool.log),
              old(cache.buckets), old(cache.origin), cache.pool.tail, cache.pool.log, cache.buckets, cache.origin);
    }
    result := Stored(ok);
  }

  /** A successful set leaves every key as young as the account says. */
  lemma SetAges(sh: Shape, ages: map<Key, nat>, last: Option<Entry>, key: Key, entry: Entry, overwrite: bool, had: bool,
                tail: nat, log: map<nat, seq<int>>, buckets: seq<seq<nat>>, origin: seq<seq<nat>>,
                tail': nat, log': map<nat, seq<int>>, buckets': seq<seq<nat>>, origin': seq<seq<nat>>)
    requires 0 < sh.buckets && AllWithin(sh, tail, log, buckets, origin, ages) && ItemSize(key, entry) <= 8 * sh.words
    requires SetAged(sh, key, entry, had, tail, log, buckets, origin, tail', log', buckets', origin')
    requires had ==> last.Some? && Within(sh, tail, log, buckets, origin, key, 8 * sh.words)
    ensures AllWithin(sh, tail', log', buckets', origin',
                      AgesAfter(sh, ages, last, SetOp(key, entry, overwrite), Stored(true)))
  {
    var b := BucketIndex(key.hash, sh.buckets);
    var ages' := AgesAfter(sh, ages, last, SetOp(key, entry, overwrite), Stored(true));
    forall k | k in ages' && ages'[k] <= 8 * sh.words
      ensures Within(sh, tail', log', buckets', origin', k, ages'[k])
    {
      if k != key {
        assert Within(sh, tail, log, buckets, origin, k, ages[k]);
        Older(sh, tail', log', buckets', origin', k, ages[k] + (tail' - tail), ages'[k]);
      } else if tail' != tail {
        Older(sh, tail', log', buckets', origin', k, tail' - tail, ages'[k]);
      } else if key in ages && ages[key] <= 8 * sh.words {
        assert Within(sh, tail, log, buckets, origin, key, ages[key]);
        Older(sh, tail', log', buckets', origin', k, ages[key], ages'[k]);
      }
    }
  }

  lemma ExtendAccounts(sh: Shape, tags: set<(nat, nat)>, ops: seq<Op>, outcomes: seq<Outcome>, n: nat, result: Outcome,
                       known: Account)
    requires n < |ops| && |outcomes| == n && 0 < sh.buckets && known == Accounts(sh, tags, ops[..n], outcomes)
    requires KeptOk(sh, known, ops[n], result)
    requires forall t {:trigger RetainOk(sh, tags, ops[..n], outcomes, t)} ::
               0 <= t < n ==> RetainOk(sh, tags, ops[..n], outcomes, t)
    ensures Accounts(sh, tags, ops[..n + 1], outcomes + [result]) ==
            AccountAfter(sh, known, LastStored(ops[..n], outcomes, ops[n].key), ops[n], result)
    ensures forall t {:trigger RetainOk(sh, tags, ops[..n + 1], outcomes + [result], t)} ::
              0 <= t < n + 1 ==> RetainOk(sh, tags, ops[..n + 1], outcomes + [result], t)
  {
    var ops', outcomes' := ops[..n + 1], outcomes + [result];
    assert ops'[..n] == ops[..n] && outcomes'[..n] == outcomes;
    forall t | 0 <= t < n + 1
      ensures RetainOk(sh, tags, ops', outcomes', t)
    {
      if t < n {
        assert RetainOk(sh, tags, ops[..n], outcomes, t);
        assert ops'[..t] == ops[..n][..t] && outcomes'[..t] == outcomes[..t];
      }
    }
  }

  lemma Extend(ops: seq<Op>, outcomes: seq<Outcome>, n: nat, result: Outcome, spec: map<Key, Entry>, spec': map<Key,
               Entry>)
    requires n < |ops| && |outcomes| == n
    requires Agrees(spec, ops[..n], outcomes) && StepOk(ops[n], result, spec, spec')
    requires forall t {:trigger HitOk(ops[..n], outcomes, t)} :: 0 <= t < n ==> HitOk(ops[..n], outcomes, t)
    ensures Agrees(spec', ops[..n + 1], outcomes + [result])
    ensures forall t {:trigger HitOk(ops[..n + 1], outcomes + [result], t)} ::
              0 <= t < n + 1 ==> HitOk(ops[..n + 1], outcomes + [result], t)
  {
    var ops', outcomes' := ops[..n + 1], outcomes + [result];
    assert ops'[..n] == ops[..n] && outcomes'[..n] == outcomes;
    forall key
      ensures LastStored(ops', outcomes', key) == if key in spec' then Some(spec'[key]) else None
    {
      assert LastStored(ops[..n], outcomes, key) == if key in spec then Some(spec[key]) else None;
    }
    forall t | 0 <= t < n + 1
      ensures HitOk(ops', outcomes', t)
    {
      if t < n {
        assert HitOk(ops[..n], outcomes, t);
        assert ops'[..t] == ops[..n][..t] && outcomes'[..t] == outcomes[..t];
      } else {
        var key := ops[n].key;
        assert LastStored(ops[..n], outcomes, key) == if key in spec then Some(spec[key]) else None;
      }
    }
  }

  /** The blocks that the sweep has to visit: fewer than there are buckets. */
  lemma SweepSpan(sh: Shape, oldTail: nat, newTail: nat, t: nat) returns (first: nat, last: nat)
    requires sh.Ok() && t <= newTail <= t + 8 * sh.words && oldTail == t % OFFSET_LIMIT
    ensures first == t / sh.block && last == newTail / sh.block && first <= last < first + sh.buckets
    ensures (oldTail / sh.block) % sh.buckets == first % sh.buckets
    ensures (newTail / sh.block) % sh.buckets == last % sh.buckets
  {
    MaskedStart(sh.block, sh.buckets, t);
    AdvanceLeavesFewBlocks(sh.block, sh.buckets, t, newTail);
    MultipleLe(0, sh.block, t);
    MultipleLe(0, sh.block, newTail);
    first, last := t / sh.block, newTail / sh.block;
  }

  /** The lengths and the expiry time of an item that is in the log. */
  lemma ReadMeta(sh: Shape, mem: seq<int>, head: nat, tail: nat, log: map<nat, seq<int>>, v: nat, o: nat, key: Key,
                 entry: Entry)
    requires sh.Ok() && LogOk(sh.words, mem, head, tail, log) && o in log && Holds(log[o], key, entry)
    requires 1 <= TagOf(v) < TWO_16 && v == ItemVec(TagOf(v), o % OFFSET_LIMIT)
    ensures var meta := Word(mem, OffsetOf(v), 1);
            KeyLength(meta) == key.length && ValueLength(meta) == entry.length && Expire(meta) == entry.expire
  {
    VecRoundTrip(TagOf(v), o % OFFSET_LIMIT);
    ReadsLog(sh, mem, head, tail, log, o, 1);
    MetaRoundTrip(key.length, entry.length, entry.expire);
  }

  /** A copy of the value words of an item that is in the log. */
  lemma ReadBack(sh: Shape, mem: seq<int>, head: nat, tail: nat, log: map<nat, seq<int>>, v: nat, o: nat,
                 key: Key, entry: Entry, words: seq<int>, length: nat)
    requires sh.Ok() && LogOk(sh.words, mem, head, tail, log) && o in log && Holds(log[o], key, entry)
    requires 1 <= TagOf(v) < TWO_16 && v == ItemVec(TagOf(v), o % OFFSET_LIMIT)
    requires |words| == Words(length) && length <= entry.length
    requires forall j :: 0 <= j < |words| ==> words[j] == Word(mem, OffsetOf(v), HEADER_WORDS + Words(key.length) + j)
    ensures Words(length) <= |entry.words| && words == entry.words[..Words(length)]
  {
    VecRoundTrip(TagOf(v), o % OFFSET_LIMIT);
    var k := |key.words|;
    forall j | 0 <= j < |words|
      ensures words[j] == entry.words[j]
    {
      ReadsLog(sh, mem, head, tail, log, o, HEADER_WORDS + k + j);
      assert log[o][HEADER_WORDS + k..HEADER_WORDS + k + |entry.words|][j] == log[o][HEADER_WORDS + k + j];
    }
  }
}
