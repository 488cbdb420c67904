/** The index of the cache over the circular log, as values: packed slots, item words, and
    the invariant that ties the slots to the log and to an abstract map.

    A word is 8 bytes.  Keys and values are given as whole words, because the source compares
    and copies in units of 8 bytes. */
module CacheState {
  import opened Arith
  import opened CircularLog
  import opened Sweep

  const ITEMS_PER_BUCKET := 15
  const MAX_KEY_LENGTH := 255
  const MAX_VALUE_LENGTH := 1048575
  const HEADER_WORDS := 3
  const TWO_16 := 0x1_0000
  const TWO_24 := 0x100_0000
  const TWO_32 := 0x1_0000_0000
  const TWO_48 := 0x1_0000_0000_0000

  function Words(length: nat): nat {
    (length + 7) / 8
  }

  datatype Key = Key(hash: nat, length: nat, words: seq<int>) {
    ghost predicate Ok() {
      length <= MAX_KEY_LENGTH && |words| == Words(length)
    }
  }

  datatype Entry = Entry(length: nat, words: seq<int>, expire: nat) {
    ghost predicate Ok() {
      length <= MAX_VALUE_LENGTH && |words| == Words(length) && expire < TWO_32
    }
  }

  // ---------------------------------------------------------------- packed words

  function BucketIndex(hash: nat, buckets: nat): nat
    requires 0 < buckets
  {
    ((hash / TWO_16) % TWO_32) % buckets
  }

  function CalcTag(hash: nat): (t: nat)
    ensures 1 <= t < TWO_16
  {
    if hash % TWO_16 == 0 then 1 else hash % TWO_16
  }

  function ItemVec(tag: nat, offset: nat): nat {
    tag * TWO_48 + offset
  }

  function TagOf(v: nat): nat {
    v / TWO_48
  }

  function OffsetOf(v: nat): nat {
    v % OFFSET_LIMIT
  }

  /** A packed slot gives back its tag and its offset, and is never the empty slot. */
  lemma VecRoundTrip(tag: nat, offset: nat)
    requires 1 <= tag < TWO_16 && offset < OFFSET_LIMIT
    ensures TagOf(ItemVec(tag, offset)) == tag && OffsetOf(ItemVec(tag, offset)) == offset
    ensures ItemVec(tag, offset) != 0 && TagOf(0) == 0
  {
    DivModUnique(ItemVec(tag, offset), TWO_48, tag, offset);
    DivModUnique(ItemVec(tag, offset), OFFSET_LIMIT, 256 * tag, offset);
  }

  /** Key length, value length and expiry time share the second word of an item. */
  function MetaWord(keyLength: nat, valueLength: nat, expire: nat): nat {
    keyLength * TWO_24 + valueLength + expire * TWO_32
  }

  function KeyLength(meta: int): nat {
    (meta % TWO_32) / TWO_24
  }

  function ValueLength(meta: int): nat {
    (meta % TWO_32) % TWO_24
  }

  function Expire(meta: int): int {
    meta / TWO_32
  }

  lemma MetaRoundTrip(k: nat, v: nat, e: nat)
    requires k <= MAX_KEY_LENGTH && v <= MAX_VALUE_LENGTH
    ensures KeyLength(MetaWord(k, v, e)) == k && ValueLength(MetaWord(k, v, e)) == v && Expire(MetaWord(k, v, e)) == e
  {
  }

  // ---------------------------------------------------------------- items

  function ItemSize(key: Key, entry: Entry): nat {
    8 * (HEADER_WORDS + Words(key.length) + Words(entry.length))
  }

  /** After the size word come the lengths and expiry time, the hash, the key and the value,
      perhaps followed by slack. */
  ghost predicate Holds(words: seq<int>, key: Key, entry: Entry) {
    var k, v := |key.words|, |entry.words|;
    && key.Ok() && entry.Ok()
    && HEADER_WORDS + k + v <= |words|
    && words[1] == MetaWord(key.length, entry.length, entry.expire)
    && words[2] == key.hash
    && words[HEADER_WORDS..HEADER_WORDS + k] == key.words
    && words[HEADER_WORDS + k..HEADER_WORDS + k + v] == entry.words
  }

  /** Words hold at most one pair. */
  lemma HoldsUnique(words: seq<int>, key: Key, entry: Entry, key': Key, entry': Entry)
    requires Holds(words, key, entry) && Holds(words, key', entry')
    ensures key == key' && entry == entry'
  {
    MetaRoundTrip(key.length, entry.length, entry.expire);
    MetaRoundTrip(key'.length, entry'.length, entry'.expire);
    var k, v := |key.words|, |entry.words|;
    assert key.words == words[HEADER_WORDS..HEADER_WORDS + k] == key'.words;
    assert entry.words == words[HEADER_WORDS + k..HEADER_WORDS + k + v] == entry'.words;
  }

  datatype Lookup = Miss | Hit(length: nat, words: seq<int>, expire: int)

  /** A hit hands out an entry, its value cut to the caller's capacity. */
  predicate Returns(r: Lookup, entry: Entry, capacity: nat)
    requires r.Hit?
  {
    && r.length == (if entry.length <= capacity then entry.length else capacity)
    && Words(r.length) <= |entry.words|
    && r.words == entry.words[..Words(r.length)]
    && r.expire == entry.expire
  }

  // ---------------------------------------------------------------- reading by offset

  /** Word i of whatever lies at an offset. */
  function Word(mem: seq<int>, offset: nat, i: nat): int
    requires 0 < |mem|
  {
    mem[(offset / 8 + i) % |mem|]
  }

  /** The key comparison of a lookup, on whatever lies at the slot's offset. */
  ghost predicate Matches(mem: seq<int>, v: nat, key: Key)
    requires 0 < |mem|
  {
    var o := OffsetOf(v);
    && TagOf(v) == CalcTag(key.hash)
    && Word(mem, o, 2) == key.hash
    && KeyLength(Word(mem, o, 1)) == key.length
    && forall i :: 0 <= i < |key.words| ==> Word(mem, o, HEADER_WORDS + i) == key.words[i]
  }

  // ---------------------------------------------------------------- the invariant

  datatype Shape = Shape(block: nat, buckets: nat, words: nat, wraps: nat) {
    /** Two or more buckets, a power of two, whose blocks make up 2^39 bytes; a pool size that
        is a power of two of at most 2^38 bytes. */
    ghost predicate Ok() {
      && 0 < block && 2 <= buckets && buckets % 2 == 0 && buckets * block == HALF
      && 0 < words && 8 * words <= HALF / 2 && 8 * words * wraps == OFFSET_LIMIT
      && HEADER_WORDS + Words(MAX_KEY_LENGTH) + Words(MAX_VALUE_LENGTH) <= words
    }
  }

  /** A used slot of bucket b: its tag and masked offset, and, as long as the item is in the
      log, the pair it holds, which is the one the abstract map has for the key. */
  ghost predicate SlotOk(sh: Shape, tail: nat, log: map<nat, seq<int>>, spec: map<Key, Entry>, b: nat, v: nat, o: nat)
    requires 0 < sh.buckets
  {
    && 1 <= TagOf(v) < TWO_16 && v == ItemVec(TagOf(v), o % OFFSET_LIMIT)
    && o < tail && o % 8 == 0
    && (o in log || o + 8 * sh.words < tail)
    && (o in log ==> exists key, entry :: PairAt(sh, log[o], spec, b, TagOf(v), key, entry))
  }

  ghost predicate PairAt(sh: Shape, words: seq<int>, spec: map<Key, Entry>, b: nat, tag: nat, key: Key, entry: Entry)
    requires 0 < sh.buckets
  {
    && Holds(words, key, entry)
    && BucketIndex(key.hash, sh.buckets) == b && CalcTag(key.hash) == tag
    && key in spec && spec[key] == entry
  }

  ghost predicate UniqueTags(slots: seq<nat>) {
    forall i, j :: 0 <= i < j < |slots| && slots[i] != 0 && slots[j] != 0 ==> TagOf(slots[i]) != TagOf(slots[j])
  }

  ghost predicate BucketOk(sh: Shape, tail: nat, log: map<nat, seq<int>>, spec: map<Key, Entry>, b: nat,
                           slots: seq<nat>, origin: seq<nat>)
    requires 0 < sh.buckets
  {
    && |slots| == |origin| == ITEMS_PER_BUCKET
    && UniqueTags(slots)
    && forall i {:trigger slots[i]} :: 0 <= i < |slots| && slots[i] != 0 ==>
         SlotOk(sh, tail, log, spec, b, slots[i], origin[i])
  }

  /** The used slots of bucket b have all survived the visits up to position t. */
  ghost predicate BucketRecent(sh: Shape, b: nat, slots: seq<nat>, origin: seq<nat>, t: nat)
    requires 0 < sh.buckets && |slots| == |origin|
  {
    forall i {:trigger slots[i]} :: 0 <= i < |slots| && slots[i] != 0 ==>
      Recent(sh.block, sh.buckets, 8 * sh.words, b, origin[i], t)
  }

  ghost predicate TableOk(sh: Shape, tail: nat, log: map<nat, seq<int>>, spec: map<Key, Entry>,
                          buckets: seq<seq<nat>>, origin: seq<seq<nat>>)
    requires 0 < sh.buckets
  {
    && |buckets| == |origin| == sh.buckets
    && forall b {:trigger buckets[b]} :: 0 <= b < sh.buckets ==> BucketOk(sh, tail, log, spec, b, buckets[b], origin[b])
  }

  ghost predicate TableRecent(sh: Shape, buckets: seq<seq<nat>>, origin: seq<seq<nat>>, t: nat)
    requires 0 < sh.buckets && |buckets| == |origin| == sh.buckets
  {
    forall b {:trigger buckets[b]} :: 0 <= b < sh.buckets && |buckets[b]| == |origin[b]| ==>
      BucketRecent(sh, b, buckets[b], origin[b], t)
  }

  // ---------------------------------------------------------------- steps that keep it

  /** A slot of another key is not disturbed by an append for a key. */
  lemma SlotAfterAppend(sh: Shape, tail: nat, log: map<nat, seq<int>>, spec: map<Key, Entry>, b: nat, v: nat, o: nat,
                        words: seq<int>, key: Key, entry: Entry)
    requires 0 < sh.buckets && SlotOk(sh, tail, log, spec, b, v, o)
    requires BucketIndex(key.hash, sh.buckets) != b || CalcTag(key.hash) != TagOf(v)
    ensures var tail' := tail + 8 * |words|;
            SlotOk(sh, tail', From(log, tail' - 8 * sh.words)[tail := words], spec[key := entry], b, v, o)
  {
    var tail' := tail + 8 * |words|;
    if o in log && tail' - 8 * sh.words <= o {
      var key', entry' :| PairAt(sh, log[o], spec, b, TagOf(v), key', entry');
      assert PairAt(sh, log[o], spec[key := entry], b, TagOf(v), key', entry');
    }
  }

  function Put(buckets: seq<seq<nat>>, b: nat, i: nat, v: nat): seq<seq<nat>>
    requires b < |buckets| && i < |buckets[b]|
  {
    var slots: seq<nat> := buckets[b][i := v];
    buckets[b := slots]
  }

  /** No slot of the bucket other than i carries the tag. */
  ghost predicate OnlySlot(slots: seq<nat>, i: nat, tag: nat) {
    forall j :: 0 <= j < |slots| && j != i && slots[j] != 0 ==> TagOf(slots[j]) != tag
  }

  /** Appending an item for a key and pointing a slot at it. */
  lemma AppendKeeps(sh: Shape, tail: nat, log: map<nat, seq<int>>, spec: map<Key, Entry>,
                    buckets: seq<seq<nat>>, origin: seq<seq<nat>>, i: nat, words: seq<int>, key: Key, entry: Entry)
    requires 0 < sh.buckets && TableOk(sh, tail, log, spec, buckets, origin)
    requires Holds(words, key, entry) && |words| <= sh.words && tail % 8 == 0
    requires i < ITEMS_PER_BUCKET
    requires OnlySlot(buckets[BucketIndex(key.hash, sh.buckets)], i, CalcTag(key.hash))
    ensures var b, tail' := BucketIndex(key.hash, sh.buckets), tail + 8 * |words|;
            TableOk(sh, tail', From(log, tail' - 8 * sh.words)[tail := words], spec[key := entry],
                    Put(buckets, b, i, ItemVec(CalcTag(key.hash), tail % OFFSET_LIMIT)), Put(origin, b, i, tail))
  {
    var c, tag, tail' := BucketIndex(key.hash, sh.buckets), CalcTag(key.hash), tail + 8 * |words|;
    var v := ItemVec(tag, tail % OFFSET_LIMIT);
    var log', spec' := From(log, tail' - 8 * sh.words)[tail := words], spec[key := entry];
    var buckets', origin' := Put(buckets, c, i, v), Put(origin, c, i, tail);
    VecRoundTrip(tag, tail % OFFSET_LIMIT);
    assert PairAt(sh, words, spec', c, tag, key, entry);
    forall b | 0 <= b < sh.buckets
      ensures BucketOk(sh, tail', log', spec', b, buckets'[b], origin'[b])
    {
      assert BucketOk(sh, tail, log, spec, b, buckets[b], origin[b]);
      forall j | 0 <= j < ITEMS_PER_BUCKET && buckets'[b][j] != 0
        ensures SlotOk(sh, tail', log', spec', b, buckets'[b][j], origin'[b][j])
      {
        if b != c || j != i {
          assert buckets'[b][j] == buckets[b][j];
          SlotAfterAppend(sh, tail, log, spec, b, buckets[b][j], origin[b][j], words, key, entry);
        }
      }
    }
  }

  lemma SlotAfterUpdate(sh: Shape, tail: nat, log: map<nat, seq<int>>, spec: map<Key, Entry>, b: nat, v: nat, o: nat,
                        o': nat, words: seq<int>, key: Key, entry0: Entry, entry: Entry)
    requires 0 < sh.buckets && SlotOk(sh, tail, log, spec, b, v, o)
    requires o' in log && Holds(log[o'], key, entry0)
    requires BucketIndex(key.hash, sh.buckets) != b || CalcTag(key.hash) != TagOf(v)
    ensures SlotOk(sh, tail, log[o' := words], spec[key := entry], b, v, o)
  {
    if o in log {
      var key', entry' :| PairAt(sh, log[o], spec, b, TagOf(v), key', entry');
      assert o != o';
      assert PairAt(sh, log[o], spec[key := entry], b, TagOf(v), key', entry');
    }
  }

  /** Rewriting in place the item that a slot points at. */
  lemma UpdateKeeps(sh: Shape, tail: nat, log: map<nat, seq<int>>, spec: map<Key, Entry>,
                    buckets: seq<seq<nat>>, origin: seq<seq<nat>>, i: nat, words: seq<int>, key: Key, entry0: Entry,
                    entry: Entry)
    requires 0 < sh.buckets && TableOk(sh, tail, log, spec, buckets, origin)
    requires i < ITEMS_PER_BUCKET
    requires var b := BucketIndex(key.hash, sh.buckets);
             && BucketOk(sh, tail, log, spec, b, buckets[b], origin[b])
             && buckets[b][i] != 0 && TagOf(buckets[b][i]) == CalcTag(key.hash)
             && origin[b][i] in log && Holds(log[origin[b][i]], key, entry0)
    requires Holds(words, key, entry)
    ensures TableOk(sh, tail, log[origin[BucketIndex(key.hash, sh.buckets)][i] := words], spec[key := entry],
                    buckets, origin)
  {
    var c, tag := BucketIndex(key.hash, sh.buckets), CalcTag(key.hash);
    var log', spec' := log[origin[c][i] := words], spec[key := entry];
    assert SlotOk(sh, tail, log, spec, c, buckets[c][i], origin[c][i]);
    assert PairAt(sh, words, spec', c, tag, key, entry);
    forall b | 0 <= b < sh.buckets
      ensures BucketOk(sh, tail, log', spec', b, buckets[b], origin[b])
    {
      assert BucketOk(sh, tail, log, spec, b, buckets[b], origin[b]);
      forall j | 0 <= j < ITEMS_PER_BUCKET && buckets[b][j] != 0
        ensures SlotOk(sh, tail, log', spec', b, buckets[b][j], origin[b][j])
      {
        if b != c || j != i {
          SlotAfterUpdate(sh, tail, log, spec, b, buckets[b][j], origin[b][j], origin[c][i], words, key, entry0, entry);
        }
      }
    }
  }

  /** Emptying a slot. */
  lemma ClearKeeps(sh: Shape, tail: nat, log: map<nat, seq<int>>, spec: map<Key, Entry>,
                   buckets: seq<seq<nat>>, origin: seq<seq<nat>>, b: nat, i: nat)
    requires 0 < sh.buckets && TableOk(sh, tail, log, spec, buckets, origin)
    requires b < sh.buckets && i < ITEMS_PER_BUCKET && |buckets[b]| == ITEMS_PER_BUCKET
    ensures TableOk(sh, tail, log, spec, Put(buckets, b, i, 0), origin)
  {
  }

  // ---------------------------------------------------------------- what a lookup finds

  /** A slot whose item is still in the log and holds the key. */
  ghost predicate SlotHas(log: map<nat, seq<int>>, v: nat, o: nat, key: Key) {
    && v != 0 && TagOf(v) == CalcTag(key.hash)
    && o in log && exists entry :: Holds(log[o], key, entry)
  }

  /** The cache still has the key. */
  ghost predicate Cached(sh: Shape, log: map<nat, seq<int>>, buckets: seq<seq<nat>>, origin: seq<seq<nat>>, key: Key)
    requires 0 < sh.buckets
  {
    var b := BucketIndex(key.hash, sh.buckets);
    && b < |buckets| && b < |origin|
    && exists i :: 0 <= i < |buckets[b]| && i < |origin[b]| && SlotHas(log, buckets[b][i], origin[b][i], key)
  }

  /** The cache has the key, and the log has grown by at most `age` bytes since its item began. */
  ghost predicate Within(sh: Shape, tail: nat, log: map<nat, seq<int>>, buckets: seq<seq<nat>>, origin: seq<seq<nat>>,
                         key: Key, age: int)
    requires 0 < sh.buckets
  {
    var b := BucketIndex(key.hash, sh.buckets);
    && b < |buckets| && b < |origin|
    && exists i :: 0 <= i < |buckets[b]| && i < |origin[b]| && SlotHas(log, buckets[b][i], origin[b][i], key) &&
                   tail <= origin[b][i] + age
  }

  /** The word read through a masked offset is the word of the item in the log. */
  lemma ReadsLog(sh: Shape, mem: seq<int>, head: nat, tail: nat, log: map<nat, seq<int>>, o: nat, i: nat)
    requires sh.Ok() && LogOk(sh.words, mem, head, tail, log) && o in log && i < |log[o]|
    ensures Word(mem, o % OFFSET_LIMIT, i) == log[o][i]
  {
    assert ItemOk(sh.words, head, tail, log, o) && Stored(sh.words, mem, o, log[o]);
    SameWord(sh.words, sh.wraps, o, i);
  }

  /** On an item that is in the log, the lookup comparison is exact. */
  lemma MatchIsExact(sh: Shape, mem: seq<int>, head: nat, tail: nat, log: map<nat, seq<int>>, v: nat, o: nat,
                     key: Key, key': Key, entry': Entry)
    requires sh.Ok() && LogOk(sh.words, mem, head, tail, log) && o in log
    requires 1 <= TagOf(v) < TWO_16 && v == ItemVec(TagOf(v), o % OFFSET_LIMIT) && TagOf(v) == CalcTag(key'.hash)
    requires key.Ok() && Holds(log[o], key', entry')
    ensures Matches(mem, v, key) <==> key == key'
  {
    VecRoundTrip(TagOf(v), o % OFFSET_LIMIT);
    assert OffsetOf(v) == o % OFFSET_LIMIT;
    MetaRoundTrip(key'.length, entry'.length, entry'.expire);
    ReadsLog(sh, mem, head, tail, log, o, 1);
    ReadsLog(sh, mem, head, tail, log, o, 2);
    var words := log[o];
    forall i | 0 <= i < |key'.words|
      ensures Word(mem, OffsetOf(v), HEADER_WORDS + i) == key'.words[i]
    {
      ReadsLog(sh, mem, head, tail, log, o, HEADER_WORDS + i);
      assert words[HEADER_WORDS + i] == words[HEADER_WORDS..HEADER_WORDS + |key'.words|][i];
    }
    if Matches(mem, v, key) {
      assert key.words == key'.words;
    }
  }

  /** A matching slot has the key, if its item is in the log; a slot that has it matches. */
  lemma MatchIffHas(sh: Shape, mem: seq<int>, head: nat, tail: nat, log: map<nat, seq<int>>, spec: map<Key, Entry>,
                    b: nat, v: nat, o: nat, key: Key)
    requires sh.Ok() && LogOk(sh.words, mem, head, tail, log)
    requires v != 0 && SlotOk(sh, tail, log, spec, b, v, o) && key.Ok()
    ensures SlotHas(log, v, o, key) <==> Matches(mem, v, key) && o in log
    ensures SlotHas(log, v, o, key) ==> key in spec && Holds(log[o], key, spec[key])
  {
    if o in log {
      var key', entry' :| PairAt(sh, log[o], spec, b, TagOf(v), key', entry');
      MatchIsExact(sh, mem, head, tail, log, v, o, key, key', entry');
      if SlotHas(log, v, o, key) {
        var entry :| Holds(log[o], key, entry);
        HoldsUnique(log[o], key, entry, key', entry');
      }
    }
  }

  /** The validity test on a slot that has survived the visits up to an earlier tail tells
      whether its item is in the log. */
  lemma ValidIffInLog(sh: Shape, t: nat, tail: nat, log: map<nat, seq<int>>, spec: map<Key, Entry>, b: nat, v: nat,
                      o: nat, head: nat)
    requires sh.Ok() && SlotOk(sh, tail, log, spec, b, v, o) && b < sh.buckets
    requires Tiling(sh.words, head, tail, log)
    requires Recent(sh.block, sh.buckets, 8 * sh.words, b, o, t) && t <= tail <= t + 8 * sh.words
    ensures IsValid(sh.words, tail, OffsetOf(v)) <==> o in log
    ensures o in log <==> tail <= o + 8 * sh.words
  {
    RecentBound(sh.block, sh.buckets, 8 * sh.words, b, o, t);
    VecRoundTrip(TagOf(v), o % OFFSET_LIMIT);
    ValidIffInWindow(sh.words, tail, o);
    if o in log {
      assert ItemOk(sh.words, head, tail, log, o);
    }
  }

  /** Without visits, an offset 2^40 bytes old passes the validity test again. */
  lemma AgedOffsetLooksValid(n: nat, o: nat, d: nat)
    requires d <= 8 * n < OFFSET_LIMIT
    ensures var tail := o + OFFSET_LIMIT + d; o + 8 * n < tail && IsValid(n, tail, o % OFFSET_LIMIT)
  {
  }

  /** What the first matching slot of a bucket says about the key. */
  lemma FindDecides(sh: Shape, mem: seq<int>, head: nat, tail: nat, log: map<nat, seq<int>>, spec: map<Key, Entry>,
                    buckets: seq<seq<nat>>, origin: seq<seq<nat>>, key: Key, i: nat)
    requires sh.Ok() && key.Ok()
    requires LogOk(sh.words, mem, head, tail, log) && TableOk(sh, tail, log, spec, buckets, origin)
    requires i <= ITEMS_PER_BUCKET && |buckets[BucketIndex(key.hash, sh.buckets)]| == ITEMS_PER_BUCKET
    requires var b := BucketIndex(key.hash, sh.buckets);
             && (i < ITEMS_PER_BUCKET ==> Matches(mem, buckets[b][i], key))
             && (forall j :: 0 <= j < i ==> !Matches(mem, buckets[b][j], key))
    ensures var b := BucketIndex(key.hash, sh.buckets);
            && BucketOk(sh, tail, log, spec, b, buckets[b], origin[b])
            && (Cached(sh, log, buckets, origin, key) <==> i < ITEMS_PER_BUCKET && origin[b][i] in log)
            && (i < ITEMS_PER_BUCKET ==>
                  buckets[b][i] != 0 && SlotOk(sh, tail, log, spec, b, buckets[b][i], origin[b][i]))
            && (i < ITEMS_PER_BUCKET && origin[b][i] in log ==>
                  && SlotHas(log, buckets[b][i], origin[b][i], key)
                  && key in spec && Holds(log[origin[b][i]], key, spec[key]))
  {
    var b := BucketIndex(key.hash, sh.buckets);
    assert BucketOk(sh, tail, log, spec, b, buckets[b], origin[b]);
    if i < ITEMS_PER_BUCKET {
      MatchIffHas(sh, mem, head, tail, log, spec, b, buckets[b][i], origin[b][i], key);
    }
    forall j | 0 <= j < ITEMS_PER_BUCKET && SlotHas(log, buckets[b][j], origin[b][j], key)
      ensures j == i
    {
      MatchIffHas(sh, mem, head, tail, log, spec, b, buckets[b][j], origin[b][j], key);
    }
  }

  /** Emptying slots whose items have left the log loses no key. */
  lemma ClearStaleKeepsCached(sh: Shape, tail: nat, log: map<nat, seq<int>>, buckets: seq<seq<nat>>,
                              origin: seq<seq<nat>>, b: nat, i: nat, key: Key)
    requires 0 < sh.buckets && b < |buckets| == |origin| && i < |buckets[b]| == |origin[b]|
    requires origin[b][i] !in log
    ensures Cached(sh, log, Put(buckets, b, i, 0), origin, key) <==> Cached(sh, log, buckets, origin, key)
    ensures forall age :: Within(sh, tail, log, Put(buckets, b, i, 0), origin, key, age) <==>
                          Within(sh, tail, log, buckets, origin, key, age)
  {
    var c := BucketIndex(key.hash, sh.buckets);
    var buckets' := Put(buckets, b, i, 0);
    assert forall j :: c < |buckets| && 0 <= j < |buckets[c]| && j < |origin[c]| ==>
             (SlotHas(log, buckets'[c][j], origin[c][j], key) <==> SlotHas(log, buckets[c][j], origin[c][j], key));
  }

  lemma ClearKeepsRecent(sh: Shape, buckets: seq<seq<nat>>, origin: seq<seq<nat>>, b: nat, i: nat, t: nat)
    requires 0 < sh.buckets && |buckets| == |origin| == sh.buckets && TableRecent(sh, buckets, origin, t)
    requires b < sh.buckets && i < |buckets[b]| == |origin[b]|
    ensures TableRecent(sh, Put(buckets, b, i, 0), origin, t)
  {
  }

  /** A key that the cache does not have, the abstract map may forget it. */
  lemma ForgetKeeps(sh: Shape, tail: nat, log: map<nat, seq<int>>, spec: map<Key, Entry>,
                    buckets: seq<seq<nat>>, origin: seq<seq<nat>>, key: Key)
    requires 0 < sh.buckets && TableOk(sh, tail, log, spec, buckets, origin)
    requires !Cached(sh, log, buckets, origin, key)
    ensures TableOk(sh, tail, log, spec - {key}, buckets, origin)
  {
    forall b | 0 <= b < sh.buckets
      ensures BucketOk(sh, tail, log, spec - {key}, b, buckets[b], origin[b])
    {
      assert BucketOk(sh, tail, log, spec, b, buckets[b], origin[b]);
      forall j | 0 <= j < ITEMS_PER_BUCKET && buckets[b][j] != 0
        ensures SlotOk(sh, tail, log, spec - {key}, b, buckets[b][j], origin[b][j])
      {
        var o := origin[b][j];
        if o in log {
          var key', entry' :| PairAt(sh, log[o], spec, b, TagOf(buckets[b][j]), key', entry');
          assert SlotHas(log, buckets[b][j], o, key');
          assert PairAt(sh, log[o], spec - {key}, b, TagOf(buckets[b][j]), key', entry');
        }
      }
    }
  }

  /** Emptying the slot with a key's tag leaves no slot for the key. */
  lemma ClearedNotCached(sh: Shape, log: map<nat, seq<int>>, buckets: seq<seq<nat>>, origin: seq<seq<nat>>, i: nat,
                         key: Key)
    requires 0 < sh.buckets && |buckets| == sh.buckets
    requires var b := BucketIndex(key.hash, sh.buckets);
             && UniqueTags(buckets[b]) && i < |buckets[b]| && buckets[b][i] != 0
             && TagOf(buckets[b][i]) == CalcTag(key.hash)
    ensures !Cached(sh, log, Put(buckets, BucketIndex(key.hash, sh.buckets), i, 0), origin, key)
  {
  }

  /** Emptying the slot of a key, or one whose item has left the log, loses no other key. */
  lemma ClearKeepsOthers(sh: Shape, tail: nat, log: map<nat, seq<int>>, buckets: seq<seq<nat>>, origin: seq<seq<nat>>,
                         b: nat, i: nat, key: Key, other: Key)
    requires 0 < sh.buckets && b < |buckets| == |origin| && i < |buckets[b]| == |origin[b]| && other != key
    requires origin[b][i] in log ==> SlotHas(log, buckets[b][i], origin[b][i], key)
    ensures Cached(sh, log, Put(buckets, b, i, 0), origin, other) <==> Cached(sh, log, buckets, origin, other)
    ensures forall age :: Within(sh, tail, log, Put(buckets, b, i, 0), origin, other, age) <==>
                          Within(sh, tail, log, buckets, origin, other, age)
  {
    var c := BucketIndex(other.hash, sh.buckets);
    var buckets' := Put(buckets, b, i, 0);
    if c < |buckets| {
      forall j | 0 <= j < |buckets[c]| && j < |origin[c]|
        ensures SlotHas(log, buckets'[c][j], origin[c][j], other) <==> SlotHas(log, buckets[c][j], origin[c][j], other)
      {
        if c == b && j == i && SlotHas(log, buckets[b][i], origin[b][i], other) {
          var e, e' :| Holds(log[origin[b][i]], key, e) && Holds(log[origin[b][i]], other, e');
          HoldsUnique(log[origin[b][i]], key, e, other, e');
        }
      }
    }
  }

  // ---------------------------------------------------------------- building items

  /** Words with a stretch replaced. */
  function Splice(words: seq<int>, first: nat, part: seq<int>): seq<int>
    requires first + |part| <= |words|
  {
    words[..first] + part + words[first + |part|..]
  }

  lemma SpliceStep(words: seq<int>, first: nat, part: seq<int>, j: nat)
    requires first + |part| <= |words| && j < |part|
    ensures Splice(words, first, part[..j])[first + j := part[j]] == Splice(words, first, part[..j + 1])
  {
  }

  lemma FreshItemHolds(words: seq<int>, key: Key, entry: Entry)
    requires key.Ok() && entry.Ok() && 8 * |words| == ItemSize(key, entry)
    ensures var k := |key.words|;
            var header := [MetaWord(key.length, entry.length, entry.expire), key.hash];
            Holds(Splice(Splice(Splice(words, 1, header), 3, key.words), 3 + k, entry.words), key, entry)
  {
  }

  lemma UpdatedItemHolds(words: seq<int>, key: Key, entry0: Entry, entry: Entry)
    requires Holds(words, key, entry0) && entry.Ok() && ItemSize(key, entry) <= 8 * |words|
    ensures var k := |key.words|;
            var header := [MetaWord(key.length, entry.length, entry.expire)];
            Holds(Splice(Splice(words, 1, header), 3 + k, entry.words), key, entry)
  {
    var k, v := |key.words|, |entry.words|;
    var w1 := Splice(words, 1, [MetaWord(key.length, entry.length, entry.expire)]);
    var w2 := Splice(w1, 3 + k, entry.words);
    assert w2[1] == w1[1] && w2[2] == words[2];
    assert w2[3..3 + k] == words[3..3 + k];
    assert w2[3 + k..3 + k + v] == entry.words;
  }

  // ---------------------------------------------------------------- what a store does to lookups

  /** After an append the cache has the new key. */
  lemma AppendHas(sh: Shape, tail: nat, log: map<nat, seq<int>>, buckets: seq<seq<nat>>, origin: seq<seq<nat>>,
                  b: nat, i: nat, words: seq<int>, key: Key, entry: Entry)
    requires 0 < sh.buckets && |words| <= sh.words && Holds(words, key, entry)
    requires b == BucketIndex(key.hash, sh.buckets) && b < |buckets| == |origin| && i < |buckets[b]| == |origin[b]|
    requires tail in log && log[tail] == words
    ensures Cached(sh, log, Put(buckets, b, i, ItemVec(CalcTag(key.hash), tail % OFFSET_LIMIT)),
                   Put(origin, b, i, tail), key)
    ensures Within(sh, tail + 8 * |words|, log, Put(buckets, b, i, ItemVec(CalcTag(key.hash), tail % OFFSET_LIMIT)),
                   Put(origin, b, i, tail), key, 8 * |words|)
  {
    VecRoundTrip(CalcTag(key.hash), tail % OFFSET_LIMIT);
    var v := ItemVec(CalcTag(key.hash), tail % OFFSET_LIMIT);
    assert SlotHas(log, Put(buckets, b, i, v)[b][i], Put(origin, b, i, tail)[b][i], key);
  }

  /** An append makes the cache have no other key that it did not have before. */
  lemma AppendAddsNoOther(sh: Shape, tail: nat, log: map<nat, seq<int>>, spec: map<Key, Entry>,
                          buckets: seq<seq<nat>>, origin: seq<seq<nat>>,
                          i: nat, words: seq<int>, key: Key, entry: Entry, other: Key)
    requires 0 < sh.buckets && TableOk(sh, tail, log, spec, buckets, origin) && other != key
    requires Holds(words, key, entry) && i < |buckets[BucketIndex(key.hash, sh.buckets)]| == ITEMS_PER_BUCKET
    requires var b := BucketIndex(key.hash, sh.buckets); i < |origin[b]| && i < |buckets[b]|
    requires var b, tail' := BucketIndex(key.hash, sh.buckets), tail + 8 * |words|;
             Cached(sh, From(log, tail' - 8 * sh.words)[tail := words],
                    Put(buckets, b, i, ItemVec(CalcTag(key.hash), tail % OFFSET_LIMIT)), Put(origin, b, i, tail), other)
    ensures Cached(sh, log, buckets, origin, other)
  {
    var b, tail' := BucketIndex(key.hash, sh.buckets), tail + 8 * |words|;
    var log' := From(log, tail' - 8 * sh.words)[tail := words];
    var buckets' := Put(buckets, b, i, ItemVec(CalcTag(key.hash), tail % OFFSET_LIMIT));
    var origin' := Put(origin, b, i, tail);
    var c := BucketIndex(other.hash, sh.buckets);
    assert BucketOk(sh, tail, log, spec, c, buckets[c], origin[c]);
    var j :| 0 <= j < |buckets'[c]| && j < |origin'[c]| && SlotHas(log', buckets'[c][j], origin'[c][j], other);
    if c == b && j == i {
      var e :| Holds(words, other, e);
      HoldsUnique(words, key, entry, other, e);
    } else {
      assert SlotOk(sh, tail, log, spec, c, buckets[c][j], origin[c][j]);
      assert SlotHas(log, buckets[c][j], origin[c][j], other);
    }
  }

  /** An update in place changes nothing about other keys. */
  lemma UpdateKeepsOthers(sh: Shape, tail: nat, log: map<nat, seq<int>>, buckets: seq<seq<nat>>, origin: seq<seq<nat>>,
                          o: nat, words: seq<int>, key: Key, was: Entry, entry: Entry, other: Key)
    requires 0 < sh.buckets && other != key && Holds(words, key, entry) && o in log && Holds(log[o], key, was)
    ensures Cached(sh, log[o := words], buckets, origin, other) <==> Cached(sh, log, buckets, origin, other)
    ensures forall age :: Within(sh, tail, log[o := words], buckets, origin, other, age) <==>
                          Within(sh, tail, log, buckets, origin, other, age)
  {
    var c := BucketIndex(other.hash, sh.buckets);
    if c < |buckets| && c < |origin| {
      forall j | 0 <= j < |buckets[c]| && j < |origin[c]|
        ensures SlotHas(log[o := words], buckets[c][j], origin[c][j], other) <==>
                SlotHas(log, buckets[c][j], origin[c][j], other)
      {
        OnePair(words, key, entry, other);
        OnePair(log[o], key, was, other);
      }
    }
  }

  lemma OnePair(words: seq<int>, key: Key, entry: Entry, other: Key)
    requires Holds(words, key, entry) && other != key
    ensures !exists e :: Holds(words, other, e)
  {
    if e :| Holds(words, other, e) {
      HoldsUnique(words, key, entry, other, e);
    }
  }

  /** A slot that a new item may take: one with its tag or an empty one; any, only when the bucket
      is full. */
  ghost predicate Given(buckets: seq<seq<nat>>, b: nat, i: int, tag: nat) {
    && b < |buckets| && 0 <= i < |buckets[b]|
    && (buckets[b][i] == 0 || TagOf(buckets[b][i]) == tag || 0 !in buckets[b])
  }

  /** The cache has a key in another slot than the given one, at an item that is in the window
      behind a later tail. */
  ghost predicate Survives(sh: Shape, log: map<nat, seq<int>>, buckets: seq<seq<nat>>, origin: seq<seq<nat>>,
                           b: nat, i: int, tail: nat, key: Key)
    requires 0 < sh.buckets
  {
    var c := BucketIndex(key.hash, sh.buckets);
    && c < |buckets| && c < |origin|
    && exists j :: 0 <= j < |buckets[c]| && j < |origin[c]| && !(c == b && j == i) &&
                   SlotHas(log, buckets[c][j], origin[c][j], key) && tail <= origin[c][j] + 8 * sh.words
  }

  /** Every key is there that is accounted to be in the window. */
  ghost predicate AllWithin(sh: Shape, tail: nat, log: map<nat, seq<int>>, buckets: seq<seq<nat>>,
                            origin: seq<seq<nat>>, ages: map<Key, nat>)
    requires 0 < sh.buckets
  {
    forall k {:trigger ages[k]} :: k in ages && ages[k] <= 8 * sh.words ==>
                                     Within(sh, tail, log, buckets, origin, k, ages[k])
  }

  lemma Older(sh: Shape, tail: nat, log: map<nat, seq<int>>, buckets: seq<seq<nat>>, origin: seq<seq<nat>>,
              key: Key, age: int, age': int)
    requires 0 < sh.buckets && Within(sh, tail, log, buckets, origin, key, age) && age <= age'
    ensures Within(sh, tail, log, buckets, origin, key, age')
  {
  }

  lemma YoungIsCached(sh: Shape, tail: nat, log: map<nat, seq<int>>, buckets: seq<seq<nat>>, origin: seq<seq<nat>>,
                      key: Key, age: int)
    requires 0 < sh.buckets && Within(sh, tail, log, buckets, origin, key, age)
    ensures Cached(sh, log, buckets, origin, key)
  {
  }

  lemma AllWithinSame(sh: Shape, tail: nat, log: map<nat, seq<int>>, buckets: seq<seq<nat>>, buckets': seq<seq<nat>>,
                      origin: seq<seq<nat>>, ages: map<Key, nat>)
    requires 0 < sh.buckets && AllWithin(sh, tail, log, buckets, origin, ages)
    requires SameAges(sh, tail, log, buckets, buckets', origin)
    ensures AllWithin(sh, tail, log, buckets', origin, ages)
  {
  }

  lemma AllWithinOthers(sh: Shape, tail: nat, log: map<nat, seq<int>>, buckets: seq<seq<nat>>, buckets': seq<seq<nat>>,
                        origin: seq<seq<nat>>, ages: map<Key, nat>, key: Key)
    requires 0 < sh.buckets && AllWithin(sh, tail, log, buckets, origin, ages)
    requires OthersSameAges(sh, tail, log, buckets, buckets', origin, key)
    ensures AllWithin(sh, tail, log, buckets', origin, ages - {key})
  {
    forall k | k in ages - {key} && ages[k] <= 8 * sh.words
      ensures Within(sh, tail, log, buckets', origin, k, ages[k])
    {
      assert Within(sh, tail, log, buckets, origin, k, ages[k]);
    }
  }

  lemma ItemFits(sh: Shape, key: Key, entry: Entry)
    requires sh.Ok() && key.Ok() && entry.Ok()
    ensures ItemSize(key, entry) <= 8 * sh.words
  {
  }

  /** Every cached key is in the abstract map and in the window. */
  lemma CachedIsWithin(sh: Shape, head: nat, tail: nat, log: map<nat, seq<int>>, spec: map<Key, Entry>,
                       buckets: seq<seq<nat>>, origin: seq<seq<nat>>, key: Key)
    requires 0 < sh.buckets && TableOk(sh, tail, log, spec, buckets, origin) && Tiling(sh.words, head, tail, log)
    requires Cached(sh, log, buckets, origin, key)
    ensures key in spec && Within(sh, tail, log, buckets, origin, key, 8 * sh.words)
  {
    var b := BucketIndex(key.hash, sh.buckets);
    assert BucketOk(sh, tail, log, spec, b, buckets[b], origin[b]);
    var i :| 0 <= i < |buckets[b]| && i < |origin[b]| && SlotHas(log, buckets[b][i], origin[b][i], key);
    var o := origin[b][i];
    assert ItemOk(sh.words, head, tail, log, o);
    assert SlotOk(sh, tail, log, spec, b, buckets[b][i], o);
    var key', entry' :| PairAt(sh, log[o], spec, b, TagOf(buckets[b][i]), key', entry');
    var entry :| Holds(log[o], key, entry);
    HoldsUnique(log[o], key, entry, key', entry');
  }

  /** An update in place leaves the item where it is. */
  lemma UpdateKeepsAge(sh: Shape, tail: nat, log: map<nat, seq<int>>, buckets: seq<seq<nat>>, origin: seq<seq<nat>>,
                       o: nat, words: seq<int>, key: Key, entry: Entry, age: int)
    requires 0 < sh.buckets && o in log && Holds(words, key, entry)
    requires Within(sh, tail, log, buckets, origin, key, age)
    ensures Within(sh, tail, log[o := words], buckets, origin, key, age)
  {
    var b := BucketIndex(key.hash, sh.buckets);
    var i :| 0 <= i < |buckets[b]| && i < |origin[b]| && SlotHas(log, buckets[b][i], origin[b][i], key) &&
             tail <= origin[b][i] + age;
    assert SlotHas(log[o := words], buckets[b][i], origin[b][i], key);
  }

  /** A key of another bucket ages by what an append adds, and stays as long as it is in the
      window. */
  lemma AppendAges(sh: Shape, tail: nat, log: map<nat, seq<int>>, buckets: seq<seq<nat>>, origin: seq<seq<nat>>,
                   b: nat, i: nat, v: nat, words: seq<int>, other: Key, age: int)
    requires 0 < sh.buckets && b < |buckets| == |origin| && i < |buckets[b]| == |origin[b]| && tail !in log
    requires BucketIndex(other.hash, sh.buckets) != b && age + 8 * |words| <= 8 * sh.words
    requires Within(sh, tail, log, buckets, origin, other, age)
    ensures Within(sh, tail + 8 * |words|, From(log, tail + 8 * |words| - 8 * sh.words)[tail := words],
                   Put(buckets, b, i, v), Put(origin, b, i, tail), other, age + 8 * |words|)
  {
    var c := BucketIndex(other.hash, sh.buckets);
    var log' := From(log, tail + 8 * |words| - 8 * sh.words)[tail := words];
    var j :| 0 <= j < |buckets[c]| && j < |origin[c]| && SlotHas(log, buckets[c][j], origin[c][j], other) &&
             tail <= origin[c][j] + age;
    assert log'[origin[c][j]] == log[origin[c][j]];
    assert SlotHas(log', Put(buckets, b, i, v)[c][j], Put(origin, b, i, tail)[c][j], other);
  }

  /** Every used slot's bucket and tag are in the set. */
  ghost predicate TagsIn(buckets: seq<seq<nat>>, tags: set<(nat, nat)>) {
    forall b: nat, i: nat {:trigger buckets[b][i]} :: b < |buckets| && i < |buckets[b]| && buckets[b][i] != 0 ==>
      (b, TagOf(buckets[b][i])) in tags
  }

  /** No slot got a tag. */
  ghost predicate TagsKept(buckets: seq<seq<nat>>, buckets': seq<seq<nat>>) {
    forall tags {:trigger TagsIn(buckets, tags)} {:trigger TagsIn(buckets', tags)} ::
      TagsIn(buckets, tags) ==> TagsIn(buckets', tags)
  }

  /** No slot got a tag but one. */
  ghost predicate TagAdded(buckets: seq<seq<nat>>, buckets': seq<seq<nat>>, b: nat, tag: nat) {
    forall tags {:trigger TagsIn(buckets, tags)} :: TagsIn(buckets, tags) ==> TagsIn(buckets', tags + {(b, tag)})
  }

  /** The slot with a tag was emptied. */
  ghost predicate TagRemoved(buckets: seq<seq<nat>>, buckets': seq<seq<nat>>, b: nat, tag: nat) {
    forall tags {:trigger TagsIn(buckets, tags)} :: TagsIn(buckets, tags) ==> TagsIn(buckets', tags - {(b, tag)})
  }

  lemma PutAddsTag(buckets: seq<seq<nat>>, b: nat, i: nat, v: nat)
    requires b < |buckets| && i < |buckets[b]|
    ensures TagAdded(buckets, Put(buckets, b, i, v), b, TagOf(v))
    ensures v == 0 ==> TagsKept(buckets, Put(buckets, b, i, v))
  {
  }

  lemma ClearRemovesTag(buckets: seq<seq<nat>>, b: nat, i: nat)
    requires b < |buckets| && i < |buckets[b]| && UniqueTags(buckets[b]) && buckets[b][i] != 0
    ensures TagRemoved(buckets, Put(buckets, b, i, 0), b, TagOf(buckets[b][i]))
  {
  }

  /** With its only slot emptied, no slot matches a key. */
  lemma ClearedNoMatch(mem: seq<int>, slots: seq<nat>, i: nat, key: Key, slots': seq<nat>)
    requires 0 < |mem| && i < |slots| && UniqueTags(slots) && slots[i] != 0 && Matches(mem, slots[i], key)
    requires slots' == slots[i := 0]
    ensures forall j :: 0 <= j < |slots'| ==> !Matches(mem, slots'[j], key)
  {
    VecRoundTrip(1, 0);
    forall j | 0 <= j < |slots'|
      ensures !Matches(mem, slots'[j], key)
    {
      if j != i && slots[j] != 0 {
        assert TagOf(slots[j]) != TagOf(slots[i]);
      }
    }
  }

  /** A tag that no slot has is matched by none. */
  lemma UntaggedNoMatch(mem: seq<int>, buckets: seq<seq<nat>>, tags: set<(nat, nat)>, b: nat, key: Key)
    requires 0 < |mem| && b < |buckets| && TagsIn(buckets, tags) && (b, CalcTag(key.hash)) !in tags
    ensures forall i :: 0 <= i < |buckets[b]| ==> !Matches(mem, buckets[b][i], key)
  {
    VecRoundTrip(1, 0);
  }

  /** Over a step on bucket b, the keys of other buckets age by what the log has grown and stay as
      long as they are in the window. */
  ghost predicate OthersAge(sh: Shape, b: nat, tail: nat, log: map<nat, seq<int>>, buckets: seq<seq<nat>>,
                            origin: seq<seq<nat>>, tail': nat, log': map<nat, seq<int>>, buckets': seq<seq<nat>>,
                            origin': seq<seq<nat>>)
    requires 0 < sh.buckets
  {
    forall k: Key, age: int {:trigger Within(sh, tail, log, buckets, origin, k, age)} ::
      BucketIndex(k.hash, sh.buckets) != b && age + (tail' - tail) <= 8 * sh.words &&
      Within(sh, tail, log, buckets, origin, k, age) ==>
        Within(sh, tail', log', buckets', origin', k, age + (tail' - tail))
  }

  /** Emptying slots changes nothing about which keys are there and how old they are, and gives no
      slot a tag. */
  ghost predicate SameAges(sh: Shape, tail: nat, log: map<nat, seq<int>>, buckets: seq<seq<nat>>,
                           buckets': seq<seq<nat>>, origin: seq<seq<nat>>)
    requires 0 < sh.buckets
  {
    && TagsKept(buckets, buckets')
    && forall k: Key, age: int {:trigger Within(sh, tail, log, buckets', origin, k, age)}
                               {:trigger Within(sh, tail, log, buckets, origin, k, age)} ::
         Within(sh, tail, log, buckets', origin, k, age) <==> Within(sh, tail, log, buckets, origin, k, age)
  }

  /** The same for the keys other than one. */
  ghost predicate OthersSameAges(sh: Shape, tail: nat, log: map<nat, seq<int>>, buckets: seq<seq<nat>>,
                                 buckets': seq<seq<nat>>, origin: seq<seq<nat>>, key: Key)
    requires 0 < sh.buckets
  {
    forall k: Key, age: int {:trigger Within(sh, tail, log, buckets', origin, k, age)}
                            {:trigger Within(sh, tail, log, buckets, origin, k, age)} ::
      k != key ==> (Within(sh, tail, log, buckets', origin, k, age) <==> Within(sh, tail, log, buckets, origin, k, age))
  }

  /** What a successful set does to tags and ages: either the item was updated where it is, or the log grew by
      an item and the key's is the newest. */
  ghost predicate SetAged(sh: Shape, key: Key, entry: Entry, had: bool,
                          tail: nat, log: map<nat, seq<int>>, buckets: seq<seq<nat>>, origin: seq<seq<nat>>,
                          tail': nat, log': map<nat, seq<int>>, buckets': seq<seq<nat>>, origin': seq<seq<nat>>)
    requires 0 < sh.buckets
  {
    && OthersAge(sh, BucketIndex(key.hash, sh.buckets), tail, log, buckets, origin, tail', log', buckets', origin')
    && TagAdded(buckets, buckets', BucketIndex(key.hash, sh.buckets), CalcTag(key.hash))
    && if tail' == tail then
         had && forall age {:trigger Within(sh, tail, log, buckets, origin, key, age)} ::
           Within(sh, tail, log, buckets, origin, key, age) ==> Within(sh, tail', log', buckets', origin', key, age)
       else
         tail' == tail + ItemSize(key, entry) && Within(sh, tail', log', buckets', origin', key, ItemSize(key, entry))
  }

  lemma AppendAgesAll(sh: Shape, tail: nat, log: map<nat, seq<int>>, buckets: seq<seq<nat>>, origin: seq<seq<nat>>,
                      b: nat, i: nat, v: nat, words: seq<int>)
    requires 0 < sh.buckets && b < |buckets| == |origin| && i < |buckets[b]| == |origin[b]| && tail !in log
    ensures OthersAge(sh, b, tail, log, buckets, origin, tail + 8 * |words|,
                      From(log, tail + 8 * |words| - 8 * sh.words)[tail := words],
                      Put(buckets, b, i, v), Put(origin, b, i, tail))
  {
    forall k: Key, age: int | BucketIndex(k.hash, sh.buckets) != b && age + 8 * |words| <= 8 * sh.words &&
                              Within(sh, tail, log, buckets, origin, k, age)
      ensures Within(sh, tail + 8 * |words|, From(log, tail + 8 * |words| - 8 * sh.words)[tail := words],
                     Put(buckets, b, i, v), Put(origin, b, i, tail), k, age + 8 * |words|)
    {
      AppendAges(sh, tail, log, buckets, origin, b, i, v, words, k, age);
    }
  }

  /** All that an update in place does to lookups. */
  lemma UpdateStep(sh: Shape, tail: nat, log: map<nat, seq<int>>, buckets: seq<seq<nat>>, origin: seq<seq<nat>>,
                   o: nat, words: seq<int>, key: Key, was: Entry, entry: Entry)
    requires 0 < sh.buckets && Holds(words, key, entry) && o in log && Holds(log[o], key, was)
    ensures forall k ::
              k != key ==> (Cached(sh, log[o := words], buckets, origin, k) <==> Cached(sh, log, buckets, origin, k))
    ensures OthersAge(sh, BucketIndex(key.hash, sh.buckets), tail, log, buckets, origin,
                      tail, log[o := words], buckets, origin)
    ensures forall age {:trigger Within(sh, tail, log, buckets, origin, key, age)} ::
              Within(sh, tail, log, buckets, origin, key, age) ==>
                Within(sh, tail, log[o := words], buckets, origin, key, age)
  {
    forall k | k != key
      ensures Cached(sh, log[o := words], buckets, origin, k) <==> Cached(sh, log, buckets, origin, k)
      ensures forall age :: Within(sh, tail, log[o := words], buckets, origin, k, age) <==>
                            Within(sh, tail, log, buckets, origin, k, age)
    {
      UpdateKeepsOthers(sh, tail, log, buckets, origin, o, words, key, was, entry, k);
    }
    forall age | Within(sh, tail, log, buckets, origin, key, age)
      ensures Within(sh, tail, log[o := words], buckets, origin, key, age)
    {
      UpdateKeepsAge(sh, tail, log, buckets, origin, o, words, key, entry, age);
    }
  }

  /** All that emptying the slot of a key does to the others. */
  lemma ClearStep(sh: Shape, tail: nat, log: map<nat, seq<int>>, buckets: seq<seq<nat>>, buckets': seq<seq<nat>>,
                  origin: seq<seq<nat>>, b: nat, i: nat, key: Key)
    requires 0 < sh.buckets && b < |buckets| == |origin| && i < |buckets[b]| == |origin[b]|
    requires origin[b][i] in log ==> SlotHas(log, buckets[b][i], origin[b][i], key)
    requires buckets' == Put(buckets, b, i, 0)
    ensures forall k {:trigger Cached(sh, log, buckets', origin, k)} :: k != key ==>
              (Cached(sh, log, buckets', origin, k) <==> Cached(sh, log, buckets, origin, k))
    ensures OthersSameAges(sh, tail, log, buckets, buckets', origin, key)
  {
    forall k, age | k != key
      ensures Within(sh, tail, log, buckets', origin, k, age) <==> Within(sh, tail, log, buckets, origin, k, age)
    {
      ClearKeepsOthers(sh, tail, log, buckets, origin, b, i, key, k);
    }
    forall k | k != key
      ensures Cached(sh, log, buckets', origin, k) <==> Cached(sh, log, buckets, origin, k)
    {
      ClearKeepsOthers(sh, tail, log, buckets, origin, b, i, key, k);
    }
  }

  /** Emptying a slot whose item has left the log. */
  lemma ClearStaleStep(sh: Shape, tail: nat, log: map<nat, seq<int>>, buckets: seq<seq<nat>>, origin: seq<seq<nat>>,
                       b: nat, i: nat)
    requires 0 < sh.buckets && b < |buckets| == |origin| && i < |buckets[b]| == |origin[b]|
    requires origin[b][i] !in log
    ensures forall k :: Cached(sh, log, Put(buckets, b, i, 0), origin, k) <==> Cached(sh, log, buckets, origin, k)
    ensures SameAges(sh, tail, log, buckets, Put(buckets, b, i, 0), origin)
  {
    forall k
      ensures Cached(sh, log, Put(buckets, b, i, 0), origin, k) <==> Cached(sh, log, buckets, origin, k)
      ensures forall age :: Within(sh, tail, log, Put(buckets, b, i, 0), origin, k, age) <==>
                            Within(sh, tail, log, buckets, origin, k, age)
    {
      ClearStaleKeepsCached(sh, tail, log, buckets, origin, b, i, k);
    }
    PutAddsTag(buckets, b, i, 0);
  }

  lemma SameAgesTransitive(sh: Shape, tail: nat, log: map<nat, seq<int>>, a: seq<seq<nat>>, b: seq<seq<nat>>,
                           c: seq<seq<nat>>, origin: seq<seq<nat>>)
    requires 0 < sh.buckets && SameAges(sh, tail, log, a, b, origin) && SameAges(sh, tail, log, b, c, origin)
    ensures SameAges(sh, tail, log, a, c, origin)
  {
    forall k: Key, age: int
      ensures Within(sh, tail, log, c, origin, k, age) <==> Within(sh, tail, log, a, origin, k, age)
    {
      assert Within(sh, tail, log, b, origin, k, age) <==> Within(sh, tail, log, a, origin, k, age);
    }
  }

  lemma AgeThenSweep(sh: Shape, b: nat, tail: nat, log: map<nat, seq<int>>, buckets: seq<seq<nat>>,
                     origin: seq<seq<nat>>,
                     tail': nat, log': map<nat, seq<int>>, buckets': seq<seq<nat>>, origin': seq<seq<nat>>,
                     swept: seq<seq<nat>>)
    requires 0 < sh.buckets && OthersAge(sh, b, tail, log, buckets, origin, tail', log', buckets', origin')
    requires SameAges(sh, tail', log', buckets', swept, origin')
    ensures OthersAge(sh, b, tail, log, buckets, origin, tail', log', swept, origin')
    ensures forall tag :: TagAdded(buckets, buckets', b, tag) ==> TagAdded(buckets, swept, b, tag)
  {
    forall k: Key, age: int | BucketIndex(k.hash, sh.buckets) != b && age + (tail' - tail) <= 8 * sh.words &&
                              Within(sh, tail, log, buckets, origin, k, age)
      ensures Within(sh, tail', log', swept, origin', k, age + (tail' - tail))
    {
      assert Within(sh, tail', log', buckets', origin', k, age + (tail' - tail));
    }
  }

  /** An append loses only the key of the slot it takes and the items it overwrites. */
  lemma AppendKeepsOthers(sh: Shape, tail: nat, log: map<nat, seq<int>>, buckets: seq<seq<nat>>, origin: seq<seq<nat>>,
                          b: nat, i: nat, v: nat, words: seq<int>, other: Key)
    requires 0 < sh.buckets && b < |buckets| == |origin| && i < |buckets[b]| == |origin[b]| && tail !in log
    requires Survives(sh, log, buckets, origin, b, i, tail + 8 * |words|, other)
    ensures Cached(sh, From(log, tail + 8 * |words| - 8 * sh.words)[tail := words],
                   Put(buckets, b, i, v), Put(origin, b, i, tail), other)
  {
    var c := BucketIndex(other.hash, sh.buckets);
    var log' := From(log, tail + 8 * |words| - 8 * sh.words)[tail := words];
    var j :| 0 <= j < |buckets[c]| && j < |origin[c]| && !(c == b && j == i) &&
             SlotHas(log, buckets[c][j], origin[c][j], other) && tail + 8 * |words| <= origin[c][j] + 8 * sh.words;
    assert log'[origin[c][j]] == log[origin[c][j]];
    assert SlotHas(log', Put(buckets, b, i, v)[c][j], Put(origin, b, i, tail)[c][j], other);
  }

  lemma AppendRecent(sh: Shape, buckets: seq<seq<nat>>, origin: seq<seq<nat>>, b: nat, i: nat, v: nat, t: nat)
    requires 0 < sh.buckets && |buckets| == |origin| == sh.buckets && TableRecent(sh, buckets, origin, t)
    requires b < sh.buckets && i < |buckets[b]| == |origin[b]|
    ensures TableRecent(sh, Put(buckets, b, i, v), Put(origin, b, i, t), t)
  {
  }

  /** All that an append does to the table. */
  lemma AppendStep(sh: Shape, tail: nat, log: map<nat, seq<int>>, spec: map<Key, Entry>, buckets: seq<seq<nat>>,
                   origin: seq<seq<nat>>,
                   b: nat, i: nat, v: nat, words: seq<int>, key: Key, entry: Entry,
                   tail': nat, log': map<nat, seq<int>>, buckets': seq<seq<nat>>, origin': seq<seq<nat>>)
    requires 0 < sh.buckets && TableOk(sh, tail, log, spec, buckets, origin) && TableRecent(sh, buckets, origin, tail)
    requires b == BucketIndex(key.hash, sh.buckets) && v == ItemVec(CalcTag(key.hash), tail % OFFSET_LIMIT)
    requires i < ITEMS_PER_BUCKET == |buckets[b]| == |origin[b]| && OnlySlot(buckets[b], i, CalcTag(key.hash))
    requires Holds(words, key, entry) && |words| <= sh.words && tail % 8 == 0 && tail !in log
    requires tail' == tail + 8 * |words| && log' == From(log, tail' - 8 * sh.words)[tail := words]
    requires buckets' == Put(buckets, b, i, v) && origin' == Put(origin, b, i, tail)
    ensures TableOk(sh, tail', log', spec[key := entry], buckets', origin') && TableRecent(sh, buckets', origin', tail)
    ensures Cached(sh, log', buckets', origin', key)
    ensures forall other ::
              other != key && Cached(sh, log', buckets', origin', other) ==> Cached(sh, log, buckets, origin, other)
  {
    AppendKeeps(sh, tail, log, spec, buckets, origin, i, words, key, entry);
    AppendRecent(sh, buckets, origin, b, i, v, tail);
    AppendHas(sh, tail, log', buckets, origin, b, i, words, key, entry);
    forall other | other != key && Cached(sh, log', buckets', origin', other)
      ensures Cached(sh, log, buckets, origin, other)
    {
      AppendAddsNoOther(sh, tail, log, spec, buckets, origin, i, words, key, entry, other);
    }
  }

  lemma AppendKeepsAll(sh: Shape, tail: nat, log: map<nat, seq<int>>, buckets: seq<seq<nat>>, origin: seq<seq<nat>>,
                       b: nat, i: nat, v: nat, words: seq<int>,
                       tail': nat, log': map<nat, seq<int>>, buckets': seq<seq<nat>>, origin': seq<seq<nat>>)
    requires 0 < sh.buckets && b < |buckets| == |origin| && i < |buckets[b]| == |origin[b]|
    requires |words| <= sh.words && tail !in log
    requires tail' == tail + 8 * |words| && log' == From(log, tail' - 8 * sh.words)[tail := words]
    requires buckets' == Put(buckets, b, i, v) && origin' == Put(origin, b, i, tail)
    ensures forall k {:trigger Survives(sh, log, buckets, origin, b, i, tail', k)} ::
              Survives(sh, log, buckets, origin, b, i, tail', k) ==> Cached(sh, log', buckets', origin', k)
  {
    forall k | Survives(sh, log, buckets, origin, b, i, tail', k)
      ensures Cached(sh, log', buckets', origin', k)
    {
      AppendKeepsOthers(sh, tail, log, buckets, origin, b, i, v, words, k);
    }
  }

  /** What an append does to lookups. */
  lemma AppendEffects(sh: Shape, tail: nat, log: map<nat, seq<int>>, buckets: seq<seq<nat>>, origin: seq<seq<nat>>,
                      b: nat, i: nat, v: nat, words: seq<int>, key: Key, entry: Entry,
                      tail': nat, log': map<nat, seq<int>>, buckets': seq<seq<nat>>, origin': seq<seq<nat>>)
    requires 0 < sh.buckets && b == BucketIndex(key.hash, sh.buckets) && b < |buckets| == |origin|
    requires i < |buckets[b]| == |origin[b]| && v == ItemVec(CalcTag(key.hash), tail % OFFSET_LIMIT)
    requires Holds(words, key, entry) && |words| <= sh.words && tail !in log
    requires tail' == tail + 8 * |words| && log' == From(log, tail' - 8 * sh.words)[tail := words]
    requires buckets' == Put(buckets, b, i, v) && origin' == Put(origin, b, i, tail)
    ensures forall k {:trigger Survives(sh, log, buckets, origin, b, i, tail', k)} ::
              Survives(sh, log, buckets, origin, b, i, tail', k) ==> Cached(sh, log', buckets', origin', k)
    ensures Within(sh, tail', log', buckets', origin', key, 8 * |words|)
    ensures OthersAge(sh, b, tail, log, buckets, origin, tail', log', buckets', origin')
  {
    AppendKeepsAll(sh, tail, log, buckets, origin, b, i, v, words, tail', log', buckets', origin');
    AppendHas(sh, tail, log', buckets, origin, b, i, words, key, entry);
    AppendAgesAll(sh, tail, log, buckets, origin, b, i, v, words);
  }

  // ---------------------------------------------------------------- the sweep

  /** Every used slot of the bucket points into the window behind the tail. */
  ghost predicate InWindow(sh: Shape, slots: seq<nat>, origin: seq<nat>, tail: nat) {
    && |slots| == |origin|
    && forall i {:trigger slots[i]} :: 0 <= i < |slots| && slots[i] != 0 ==> tail <= origin[i] + 8 * sh.words
  }

  /** The buckets of the blocks from first up to last are all in the window. */
  ghost predicate Visited(sh: Shape, buckets: seq<seq<nat>>, origin: seq<seq<nat>>, first: nat, last: nat, tail: nat)
    requires 0 < sh.buckets && |buckets| == |origin| == sh.buckets
  {
    forall j {:trigger j % sh.buckets} :: first <= j < last ==>
      InWindow(sh, buckets[j % sh.buckets], origin[j % sh.buckets], tail)
  }

  /** One more visit, which spoils none of the earlier ones. */
  lemma VisitOneMore(sh: Shape, buckets: seq<seq<nat>>, buckets': seq<seq<nat>>, origin: seq<seq<nat>>, first: nat,
                     j: nat, tail: nat)
    requires 0 < sh.buckets && |buckets| == |buckets'| == |origin| == sh.buckets
    requires Visited(sh, buckets, origin, first, j, tail)
    requires InWindow(sh, buckets'[j % sh.buckets], origin[j % sh.buckets], tail)
    requires forall c :: 0 <= c < sh.buckets && InWindow(sh, buckets[c], origin[c], tail) ==>
                           InWindow(sh, buckets'[c], origin[c], tail)
    ensures Visited(sh, buckets', origin, first, j + 1, tail)
    ensures (j % sh.buckets + 1) % sh.buckets == (j + 1) % sh.buckets
  {
    ModAdd(j, 1, sh.buckets);
  }

  /** Fewer blocks than buckets are left, so equal buckets mean the same block. */
  lemma SameBlock(sh: Shape, first: nat, j: nat, last: nat)
    requires 0 < sh.buckets && first <= j <= last < first + sh.buckets
    ensures j % sh.buckets == last % sh.buckets <==> j == last
  {
    if j < last {
      DistinctRemainders(j, last, sh.buckets);
    }
  }

  /** When the buckets whose blocks the advance left are all in the window, the sweep has
      caught up with the tail. */
  lemma SweepCatchesUp(sh: Shape, buckets: seq<seq<nat>>, origin: seq<seq<nat>>, t: nat, tail: nat)
    requires sh.Ok() && |buckets| == |origin| == sh.buckets && TableRecent(sh, buckets, origin, t) && t <= tail
    requires Visited(sh, buckets, origin, t / sh.block, tail / sh.block, tail)
    ensures TableRecent(sh, buckets, origin, tail)
  {
    forall b | 0 <= b < sh.buckets && |buckets[b]| == |origin[b]|
      ensures BucketRecent(sh, b, buckets[b], origin[b], tail)
    {
      assert BucketRecent(sh, b, buckets[b], origin[b], t);
      if j :| t / sh.block <= j < tail / sh.block && j % sh.buckets == b {
      } else {
        forall i | 0 <= i < |buckets[b]| && buckets[b][i] != 0
          ensures Recent(sh.block, sh.buckets, 8 * sh.words, b, origin[b][i], tail)
        {
          RecentUnvisited(sh.block, sh.buckets, 8 * sh.words, b, origin[b][i], t, tail);
        }
      }
    }
  }
}
