/** A lock-free lookup among concurrent writers: the reader takes one memory access at a time,
    interleaved with the steps of every other thread.  If it ends with a hit, it copied what
    its bucket held for the key in the state in which it first read the version. */
module ConcurrentGet {
  import opened Arith
  import opened CircularLog
  import opened CacheState
  import opened SharedCache

  /** What is asked for, and how often the pool size goes into 2^40. */
  datatype Query = Query(key: Key, capacity: nat, wraps: nat)

  /** The reader's next access, with what it has read so far; v is the version it started at. */
  datatype Reader =
    | Idle
    | Scan(v: nat, i: nat)
    | Locate(v: nat, i: nat)
    | Probe(v: nat, i: nat, vec: nat, j: nat)
    | Fetch(v: nat, i: nat)
    | ReadExpire(v: nat, i: nat, vec: nat)
    | ReadKeyLength(v: nat, i: nat, vec: nat, expire: int)
    | ReadValueLength(v: nat, i: nat, vec: nat, expire: int, keyLength: nat)
    | Copy(v: nat, i: nat, vec: nat, expire: int, keyLength: nat, length: nat, words: seq<int>)
    | Check(v: nat, i: nat, vec: nat, expire: int, length: nat, words: seq<int>)
    | Finish(v: nat, lookup: Lookup)
    | Done(lookup: Lookup)

  function Min(a: nat, b: nat): nat {
    if a <= b then a else b
  }

  /** One access of the reader. */
  function Access(s: Shared, r: Reader, q: Query): Reader
    requires 0 < |s.mem| && |s.slots| == ITEMS_PER_BUCKET
  {
    match r
    case Idle => if s.version % TWO_32 % 2 != 0 then Idle else Scan(s.version % TWO_32, 0)
    case Scan(v, i) =>
      if i >= ITEMS_PER_BUCKET then Finish(v, Miss)
      else if TagOf(s.slots[i]) != CalcTag(q.key.hash) then Scan(v, i + 1)
      else Locate(v, i)
    case Locate(v, i) => if i < ITEMS_PER_BUCKET then Probe(v, i, s.slots[i], 0) else Idle
    case Probe(v, i, vec, j) =>
      var o := OffsetOf(vec);
      if j == 0 then
        if Word(s.mem, o, 2) == q.key.hash then Probe(v, i, vec, 1) else Scan(v, i + 1)
      else if j == 1 then
        if KeyLength(Word(s.mem, o, 1)) == q.key.length then Probe(v, i, vec, 2) else Scan(v, i + 1)
      else if j - 2 >= |q.key.words| then
        Fetch(v, i)
      else if Word(s.mem, o, HEADER_WORDS + j - 2) == q.key.words[j - 2] then Probe(v, i, vec, j + 1)
      else Scan(v, i + 1)
    case Fetch(v, i) => if i < ITEMS_PER_BUCKET then ReadExpire(v, i, s.slots[i]) else Idle
    case ReadExpire(v, i, vec) => ReadKeyLength(v, i, vec, Expire(Word(s.mem, OffsetOf(vec), 1)))
    case ReadKeyLength(v, i, vec, expire) =>
      ReadValueLength(v, i, vec, expire, Min(KeyLength(Word(s.mem, OffsetOf(vec), 1)), MAX_KEY_LENGTH))
    case ReadValueLength(v, i, vec, expire, keyLength) =>
      var length := Min(ValueLength(Word(s.mem, OffsetOf(vec), 1)), MAX_VALUE_LENGTH);
      Copy(v, i, vec, expire, keyLength, Min(length, q.capacity), [])
    case Copy(v, i, vec, expire, keyLength, length, words) =>
      if |words| >= Words(length) then Check(v, i, vec, expire, length, words)
      else Copy(v, i, vec, expire, keyLength, length,
                words + [Word(s.mem, OffsetOf(vec), HEADER_WORDS + Words(keyLength) + |words|)])
    case Check(v, _, vec, expire, length, words) =>
      Finish(v, if IsValid(|s.mem|, s.tail, OffsetOf(vec)) then Hit(length, words, expire) else Miss)
    case Finish(v, lookup) => if s.version % TWO_32 == v then Done(lookup) else Idle
    case Done(_) => r
  }

  // ---------------------------------------------------------------- the whole system

  /** The shared state, the reader, and the state in which the reader first read the version. */
  datatype System = System(s: Shared, r: Reader, start: Shared)

  datatype Move = Other(step: Step) | Read

  /** Fewer than 2^31 times has the bucket been locked since the reader started. */
  ghost predicate FewLocks(sys: System) {
    sys.r.Idle? || sys.r.Done? || sys.s.version < sys.start.version + TWO_32
  }

  ghost predicate Possible(sys: System, move: Move) {
    move.Other? ==> Enabled(sys.s, move.step)
  }

  function Execute(sys: System, move: Move, q: Query): System
    requires 0 < |sys.s.mem| && |sys.s.slots| == |sys.s.origin| == ITEMS_PER_BUCKET
  {
    match move
    case Other(step) => sys.(s := Apply(sys.s, step))
    case Read => System(sys.s, Access(sys.s, sys.r, q), if sys.r.Idle? then sys.s else sys.start)
  }

  // ---------------------------------------------------------------- what the reader knows

  /** The words, at the start, of the item a slot pointed at. */
  ghost function StartWords(start: Shared, i: nat): seq<int>
    requires 0 < |start.mem| && i < |start.origin|
  {
    var o := start.origin[i];
    if o in start.items then ItemWords(start.mem, o, start.items[o].count) else []
  }

  /** Comparison j of the key has succeeded. */
  ghost predicate Compared(words: seq<int>, key: Key, j: nat) {
    && (j >= 1 ==> 2 < |words| && words[2] == key.hash)
    && (j >= 2 ==> KeyLength(words[1]) == key.length)
    && (forall k :: 0 <= k < j - 2 && k < |key.words| ==>
                      HEADER_WORDS + k < |words| && words[HEADER_WORDS + k] == key.words[k])
  }

  ghost predicate FullyCompared(words: seq<int>, key: Key) {
    Compared(words, key, |key.words| + 2)
  }

  /** What the bucket held for the key at the start is what the reader returns. */
  ghost predicate GoodHit(start: Shared, lookup: Lookup, q: Query)
    requires 0 < |start.mem| && |start.slots| == |start.origin| == ITEMS_PER_BUCKET
  {
    exists i, entry ::
      0 <= i < ITEMS_PER_BUCKET && HeldAt(start, i, q.key, entry) && lookup.Hit? && Returns(lookup, entry, q.capacity)
  }

  /** Slot i is in use and has the tag of the key. */
  ghost predicate Tagged(start: Shared, i: nat, key: Key)
    requires i < |start.slots|
  {
    start.slots[i] != 0 && TagOf(start.slots[i]) == CalcTag(key.hash)
  }

  /** Slot i has the tag of the key and points at an item, still in the log, that holds the
      pair. */
  ghost predicate HeldAt(start: Shared, i: nat, key: Key, entry: Entry)
    requires 0 < |start.mem| && i < |start.slots| == |start.origin|
  {
    && Tagged(start, i, key) && start.tail <= start.origin[i] + 8 * |start.mem|
    && Holds(StartWords(start, i), key, entry)
  }

  /** What slot i held for the key at the start, if anything, the log has overwritten before a
      later tail. */
  ghost predicate NotHeld(start: Shared, tail: nat, i: nat, key: Key)
    requires 0 < |start.mem| && i < |start.slots| == |start.origin|
  {
    (exists entry :: HeldAt(start, i, key, entry)) ==> start.origin[i] + 8 * |start.mem| < tail
  }

  /** A miss is right: by now no slot holds the key that held it at the start. */
  ghost predicate GoodMiss(start: Shared, tail: nat, key: Key)
    requires 0 < |start.mem| && |start.slots| == |start.origin| == ITEMS_PER_BUCKET
  {
    forall i {:trigger NotHeld(start, tail, i, key)} :: 0 <= i < ITEMS_PER_BUCKET ==> NotHeld(start, tail, i, key)
  }

  ghost predicate Shaped(s: Shared) {
    0 < |s.mem| && |s.slots| == |s.origin| == ITEMS_PER_BUCKET
  }

  ghost predicate NotHeldBelow(start: Shared, tail: nat, i: nat, key: Key)
    requires Shaped(start)
  {
    forall j {:trigger NotHeld(start, tail, j, key)} ::
      0 <= j < i && j < ITEMS_PER_BUCKET ==> NotHeld(start, tail, j, key)
  }

  lemma OneMoreNotHeld(start: Shared, tail: nat, i: nat, key: Key)
    requires Shaped(start) && i < ITEMS_PER_BUCKET && NotHeldBelow(start, tail, i, key) && NotHeld(start, tail, i, key)
    ensures NotHeldBelow(start, tail, i + 1, key)
  {
  }

  lemma NoneHeld(start: Shared, tail: nat, i: nat, key: Key)
    requires Shaped(start) && ITEMS_PER_BUCKET <= i && NotHeldBelow(start, tail, i, key)
    ensures GoodMiss(start, tail, key)
  {
  }

  /** No slot below i holds the key, as long as the bucket has not been locked since. */
  ghost predicate Scanned(sys: System, i: nat, q: Query)
    requires Shaped(sys.start)
  {
    sys.s.version == sys.start.version ==> NotHeldBelow(sys.start, sys.s.tail, i, q.key)
  }

  ghost predicate TagSeen(sys: System, i: nat, q: Query)
    requires Shaped(sys.start)
  {
    i < ITEMS_PER_BUCKET && (sys.s.version == sys.start.version ==> Tagged(sys.start, i, q.key))
  }

  /** How far the search for the key has got. */
  ghost predicate SearchOk(sys: System, q: Query)
    requires Shaped(sys.start)
  {
    match sys.r
    case Idle => true
    case Scan(_, i) => Scanned(sys, i, q)
    case Locate(_, i) => Scanned(sys, i, q) && TagSeen(sys, i, q)
    case Probe(_, i, _, _) => Scanned(sys, i, q) && TagSeen(sys, i, q)
    case Fetch(_, i) => TagSeen(sys, i, q)
    case ReadExpire(_, i, _) => TagSeen(sys, i, q)
    case ReadKeyLength(_, i, _, _) => TagSeen(sys, i, q)
    case ReadValueLength(_, i, _, _, _) => TagSeen(sys, i, q)
    case Copy(_, i, _, _, _, _, _) => TagSeen(sys, i, q)
    case Check(_, i, _, _, _, _) => TagSeen(sys, i, q)
    case Finish(_, lookup) =>
      sys.s.version == sys.start.version && lookup.Miss? ==> GoodMiss(sys.start, sys.s.tail, q.key)
    case Done(lookup) => lookup.Miss? ==> GoodMiss(sys.start, sys.s.tail, q.key)
  }

  /** The bucket has not been locked since, and the item of slot i is still in the window. */
  ghost predicate Undisturbed(sys: System, i: nat)
    requires i < |sys.start.origin|
  {
    sys.s.version == sys.start.version && sys.s.tail <= sys.start.origin[i] + 8 * |sys.s.mem|
  }

  /** Each thing the reader has read is right, unless the read is doomed to be discarded. */
  ghost predicate LocalOk(sys: System, q: Query)
    requires Inv(sys.start)
  {
    var start := sys.start;
    var quiet := sys.s.version == start.version;
    match sys.r
    case Idle => true
    case Scan(_, _) => true
    case Locate(_, i) => i < ITEMS_PER_BUCKET && (quiet ==> start.slots[i] != 0)
    case Probe(_, i, vec, j) =>
      && i < ITEMS_PER_BUCKET && j <= |q.key.words| + 2
      && (quiet ==> vec == start.slots[i] != 0)
      && (Undisturbed(sys, i) ==> Compared(StartWords(start, i), q.key, j))
    case Fetch(_, i) =>
      && i < ITEMS_PER_BUCKET && (quiet ==> start.slots[i] != 0)
      && (Undisturbed(sys, i) ==> FullyCompared(StartWords(start, i), q.key))
    case ReadExpire(_, i, vec) => Matched(sys, i, vec, q)
    case ReadKeyLength(_, i, vec, expire) =>
      Matched(sys, i, vec, q) && (Undisturbed(sys, i) ==> expire == Expire(StartWords(start, i)[1]))
    case ReadValueLength(_, i, vec, expire, keyLength) =>
      && Matched(sys, i, vec, q)
      && (Undisturbed(sys, i) ==> expire == Expire(StartWords(start, i)[1]) && keyLength == q.key.length)
    case Copy(_, i, vec, expire, keyLength, length, words) =>
      && Matched(sys, i, vec, q) && |words| <= Words(length)
      && (Undisturbed(sys, i) ==> keyLength == q.key.length && CopyOk(StartWords(start, i), q, expire, length, words))
    case Check(_, i, vec, expire, length, words) =>
      && Matched(sys, i, vec, q) && |words| == Words(length)
      && (Undisturbed(sys, i) ==> CopyOk(StartWords(start, i), q, expire, length, words))
    case Finish(_, lookup) => quiet && lookup.Hit? ==> GoodHit(start, lookup, q)
    case Done(lookup) => lookup.Hit? ==> GoodHit(start, lookup, q)
  }

  ghost predicate Matched(sys: System, i: nat, vec: nat, q: Query)
    requires Inv(sys.start)
  {
    && i < ITEMS_PER_BUCKET && (sys.s.version == sys.start.version ==> vec == sys.start.slots[i] != 0)
    && (Undisturbed(sys, i) ==> 1 < |StartWords(sys.start, i)| && FullyCompared(StartWords(sys.start, i), q.key))
  }

  /** The words copied so far, and the lengths, are those of the item. */
  ghost predicate CopyOk(item: seq<int>, q: Query, expire: int, length: nat, words: seq<int>) {
    && 1 < |item| && expire == Expire(item[1])
    && length == Min(Min(ValueLength(item[1]), MAX_VALUE_LENGTH), q.capacity)
    && |words| <= Words(length)
    && HEADER_WORDS + |q.key.words| + |words| <= |item|
    && forall k :: 0 <= k < |words| ==> words[k] == item[HEADER_WORDS + |q.key.words| + k]
  }

  /** As long as the bucket is not locked, its slots stand and the items they point at keep
      their words until the log overwrites them. */
  ghost predicate Stands(s: Shared, start: Shared)
    requires Inv(start) && |s.mem| == |start.mem|
  {
    s.version == start.version ==>
      && s.slots == start.slots && s.origin == start.origin
      && forall i {:trigger ItemStands(s, start, i)} :: 0 <= i < ITEMS_PER_BUCKET ==> ItemStands(s, start, i)
  }

  ghost predicate ItemStands(s: Shared, start: Shared, i: nat)
    requires i < |start.slots| == |start.origin| && 0 < |s.mem| == |start.mem|
  {
    start.slots[i] != 0 && s.tail <= start.origin[i] + 8 * |s.mem| ==>
      var o := start.origin[i];
      && o in start.items && o in s.items && s.items[o] == start.items[o]
      && SameBody(start.mem, s.mem, o, start.items[o].count)
  }

  ghost predicate SystemInv(sys: System, q: Query) {
    CoreInv(sys, q) && (!sys.r.Idle? ==> SearchOk(sys, q))
  }

  ghost predicate CoreInv(sys: System, q: Query) {
    && Inv(sys.s) && q.key.Ok() && 8 * |sys.s.mem| * q.wraps == OFFSET_LIMIT
    && (!sys.r.Idle? ==> Inv(sys.start) && LocalOk(sys, q))
    && (!sys.r.Idle? && !sys.r.Done? ==>
          && sys.start.version % 2 == 0 && sys.r.v == sys.start.version % TWO_32
          && sys.start.version <= sys.s.version && sys.start.tail <= sys.s.tail
          && |sys.start.mem| == |sys.s.mem|
          && Stands(sys.s, sys.start))
  }

  // ---------------------------------------------------------------- steps of other threads

  lemma SameBodyTransitive(a: seq<int>, b: seq<int>, c: seq<int>, o: nat, count: nat)
    requires 0 < |a| == |b| == |c| && SameBody(a, b, o, count) && SameBody(b, c, o, count)
    ensures SameBody(a, c, o, count)
  {
  }

  /** A step that leaves the bucket unlocked changes no word, but perhaps the size, of an item
      of the bucket that is in the window. */
  lemma StepLeavesBody(s: Shared, step: Step, o: nat)
    requires Inv(s) && Enabled(s, step) && s.bucket.Unlocked?
    requires o in s.items && s.items[o].mine && Apply(s, step).tail <= o + 8 * |s.mem|
    ensures var s' := Apply(s, step); |s'.mem| == |s.mem| && SameBody(s.mem, s'.mem, o, s.items[o].count)
  {
    assert ItemAt(s, o);
    match step {
      case Place(count) => PlaceLeavesBody(s.mem, s.tail, o, s.items[o].count, 8 * count);
      case FillWord =>
        var p := s.pool.o;
        assert ItemAt(s, p) && ItemsApart(s, o, p) && ItemsApart(s, p, o);
        FillLeavesBody(s.mem, s.tail, p, 1 + s.pool.done, s.items[p].count, o, s.items[o].count,
                       s.pool.body[s.pool.done]);
      case _ =>
    }
  }

  lemma StepKeepsStands(s: Shared, step: Step, start: Shared)
    requires Inv(s) && Inv(start) && Enabled(s, step) && |s.mem| == |start.mem| && Stands(s, start)
    requires start.version % 2 == 0 && start.version <= s.version
    ensures var s' := Apply(s, step); |s'.mem| == |start.mem| && Stands(s', start)
  {
    var s' := Apply(s, step);
    if s'.version == start.version {
      assert s.bucket.Unlocked? && s.version == start.version;
      forall i | 0 <= i < ITEMS_PER_BUCKET
        ensures ItemStands(s', start, i)
      {
        assert ItemStands(s, start, i) && SlotAt(s, i);
        var o := start.origin[i];
        if start.slots[i] != 0 && s'.tail <= o + 8 * |s.mem| {
          assert ItemAt(s, o);
          StepLeavesBody(s, step, o);
          SameBodyTransitive(start.mem, s.mem, s'.mem, o, start.items[o].count);
        }
      }
    }
  }

  lemma StepKeepsLocal(sys: System, step: Step, q: Query)
    requires Inv(sys.s) && Inv(sys.start) && Enabled(sys.s, step) && LocalOk(sys, q) && !sys.r.Idle?
    requires sys.r.Done? || sys.start.version <= sys.s.version
    ensures LocalOk(sys.(s := Apply(sys.s, step)), q)
  {
    var sys' := sys.(s := Apply(sys.s, step));
    assert sys.s.version <= sys'.s.version && sys.s.tail <= sys'.s.tail && |sys'.s.mem| == |sys.s.mem|;
    assert forall i :: 0 <= i < ITEMS_PER_BUCKET && !sys.r.Done? && Undisturbed(sys', i) ==> Undisturbed(sys, i);
  }

  lemma LaterMiss(start: Shared, tail: nat, tail': nat, key: Key)
    requires 0 < |start.mem| && |start.slots| == |start.origin| == ITEMS_PER_BUCKET && tail <= tail'
    ensures forall i {:trigger NotHeld(start, tail', i, key)} ::
              0 <= i < ITEMS_PER_BUCKET && NotHeld(start, tail, i, key) ==> NotHeld(start, tail', i, key)
    ensures GoodMiss(start, tail, key) ==> GoodMiss(start, tail', key)
  {
    if forall i {:trigger NotHeld(start, tail, i, key)} :: 0 <= i < ITEMS_PER_BUCKET ==> NotHeld(start, tail, i, key) {
      forall i | 0 <= i < ITEMS_PER_BUCKET
        ensures NotHeld(start, tail', i, key)
      {
        assert NotHeld(start, tail, i, key);
      }
    }
  }

  lemma StepKeepsSearch(sys: System, step: Step, q: Query)
    requires Inv(sys.s) && Inv(sys.start) && Enabled(sys.s, step) && SearchOk(sys, q) && !sys.r.Idle?
    requires sys.r.Done? || sys.start.version <= sys.s.version
    ensures SearchOk(sys.(s := Apply(sys.s, step)), q)
  {
    var s' := Apply(sys.s, step);
    assert sys.s.version <= s'.version && sys.s.tail <= s'.tail;
    LaterMiss(sys.start, sys.s.tail, s'.tail, q.key);
  }

  lemma OtherKeeps(sys: System, step: Step, q: Query)
    requires SystemInv(sys, q) && Enabled(sys.s, step)
    ensures SystemInv(Execute(sys, Other(step), q), q)
  {
    StepKeeps(sys.s, step);
    if !sys.r.Idle? {
      StepKeepsLocal(sys, step, q);
      StepKeepsSearch(sys, step, q);
      if !sys.r.Done? {
        StepKeepsStands(sys.s, step, sys.start);
      }
    }
  }

  // ---------------------------------------------------------------- accesses of the reader

  /** In an undisturbed read, the item held a pair at the start and a word read through the
      slot is the word of the item. */
  lemma ReadsStart(sys: System, i: nat, vec: nat, w: nat, q: Query)
    requires CoreInv(sys, q) && !sys.r.Idle? && !sys.r.Done? && i < ITEMS_PER_BUCKET
    requires Undisturbed(sys, i) && vec == sys.start.slots[i] != 0
    ensures HoldsSome(StartWords(sys.start, i)) && HEADER_WORDS <= |StartWords(sys.start, i)|
    ensures 1 <= w < |StartWords(sys.start, i)| ==> Word(sys.s.mem, OffsetOf(vec), w) == StartWords(sys.start, i)[w]
  {
    var start := sys.start;
    var o := start.origin[i];
    assert ItemStands(sys.s, start, i) && SlotAt(start, i);
    assert ItemAt(start, o) && Complete(start, o);
    if 1 <= w < |StartWords(start, i)| {
      SameWord(|sys.s.mem|, q.wraps, o, w);
      assert Word(start.mem, o, w) == Word(sys.s.mem, o, w);
    }
  }

  /** Words that compare equal to the key hold the key. */
  lemma ComparedHolds(words: seq<int>, key: Key, key': Key, entry': Entry)
    requires Holds(words, key', entry') && FullyCompared(words, key) && key.Ok()
    ensures key == key'
  {
    MetaRoundTrip(key'.length, entry'.length, entry'.expire);
    var k := |key.words|;
    assert words[HEADER_WORDS..HEADER_WORDS + k] == key.words;
  }

  /** The part of the item that the reader still needs is inside the item. */
  lemma StartItem(sys: System, i: nat, q: Query) returns (key': Key, entry': Entry)
    requires CoreInv(sys, q) && !sys.r.Idle? && !sys.r.Done? && i < ITEMS_PER_BUCKET
    requires Undisturbed(sys, i) && sys.start.slots[i] != 0
    ensures Holds(StartWords(sys.start, i), key', entry')
    ensures var meta := StartWords(sys.start, i)[1];
            KeyLength(meta) == key'.length && ValueLength(meta) == entry'.length && Expire(meta) == entry'.expire
    ensures FullyCompared(StartWords(sys.start, i), q.key) ==> key' == q.key
  {
    ReadsStart(sys, i, sys.start.slots[i], 1, q);
    var words := StartWords(sys.start, i);
    key', entry' :| Holds(words, key', entry');
    MetaRoundTrip(key'.length, entry'.length, entry'.expire);
    if FullyCompared(words, q.key) {
      ComparedHolds(words, q.key, key', entry');
    }
  }

  lemma ComparedOneMore(words: seq<int>, key: Key, j: nat)
    requires Compared(words, key, j) && 2 <= j < |key.words| + 2
    requires HEADER_WORDS + j - 2 < |words| && words[HEADER_WORDS + j - 2] == key.words[j - 2]
    ensures Compared(words, key, j + 1)
  {
  }

  lemma CopiedOneMore(item: seq<int>, q: Query, expire: int, length: nat, words: seq<int>, x: int)
    requires CopyOk(item, q, expire, length, words) && |words| < Words(length)
    requires HEADER_WORDS + |q.key.words| + |words| < |item| && x == item[HEADER_WORDS + |q.key.words| + |words|]
    ensures CopyOk(item, q, expire, length, words + [x])
  {
  }

  lemma ProbeHeaderKeeps(sys: System, q: Query)
    requires CoreInv(sys, q) && sys.r.Probe? && sys.r.j < 2
    ensures LocalOk(Execute(sys, Read, q), q)
  {
    var i, vec := sys.r.i, sys.r.vec;
    if Undisturbed(sys, i) {
      ReadsStart(sys, i, vec, 1, q);
      ReadsStart(sys, i, vec, 2, q);
    }
  }

  lemma ProbeKeyKeeps(sys: System, q: Query)
    requires CoreInv(sys, q) && sys.r.Probe? && 2 <= sys.r.j
    ensures LocalOk(Execute(sys, Read, q), q)
  {
    var i, vec, j := sys.r.i, sys.r.vec, sys.r.j;
    if Undisturbed(sys, i) && j - 2 < |q.key.words| {
      var key', entry' := StartItem(sys, i, q);
      ReadsStart(sys, i, vec, HEADER_WORDS + j - 2, q);
      var words := StartWords(sys.start, i);
      if words[HEADER_WORDS + j - 2] == q.key.words[j - 2] {
        ComparedOneMore(words, q.key, j);
      }
    }
  }

  lemma MetaKeeps(sys: System, q: Query)
    requires CoreInv(sys, q) && (sys.r.Fetch? || sys.r.ReadExpire? || sys.r.ReadKeyLength? || sys.r.ReadValueLength?)
    ensures LocalOk(Execute(sys, Read, q), q)
  {
    var i := sys.r.i;
    if Undisturbed(sys, i) {
      var vec := sys.start.slots[i];
      ReadsStart(sys, i, vec, 1, q);
      var key', entry' := StartItem(sys, i, q);
    }
  }

  /** The words still to be copied are inside the item. */
  lemma CopyInside(sys: System, q: Query)
    requires CoreInv(sys, q) && sys.r.Copy? && Undisturbed(sys, sys.r.i) && |sys.r.words| < Words(sys.r.length)
    ensures HEADER_WORDS + |q.key.words| + |sys.r.words| < |StartWords(sys.start, sys.r.i)|
  {
    var key', entry' := StartItem(sys, sys.r.i, q);
  }

  /** The next word copied from an undisturbed item is the item's. */
  lemma CopyWord(sys: System, q: Query, w: nat)
    requires CoreInv(sys, q) && sys.r.Copy? && Undisturbed(sys, sys.r.i) && |sys.r.words| < Words(sys.r.length)
    requires w == HEADER_WORDS + |q.key.words| + |sys.r.words|
    ensures w < |StartWords(sys.start, sys.r.i)|
    ensures Word(sys.s.mem, OffsetOf(sys.r.vec), w) == StartWords(sys.start, sys.r.i)[w]
    ensures Words(sys.r.keyLength) == |q.key.words|
  {
    CopyInside(sys, q);
    ReadsStart(sys, sys.r.i, sys.r.vec, w, q);
  }

  lemma CopyKeeps(sys: System, q: Query)
    requires CoreInv(sys, q) && sys.r.Copy?
    ensures LocalOk(Execute(sys, Read, q), q)
  {
    var done := sys.r.words;
    if Undisturbed(sys, sys.r.i) && |done| < Words(sys.r.length) {
      var w := HEADER_WORDS + |q.key.words| + |done|;
      CopyWord(sys, q, w);
      var words := StartWords(sys.start, sys.r.i);
      CopiedOneMore(words, q, sys.r.expire, sys.r.length, done, words[w]);
    }
  }

  lemma CheckKeeps(sys: System, q: Query)
    requires CoreInv(sys, q) && sys.r.Check? && TagSeen(sys, sys.r.i, q)
    ensures LocalOk(Execute(sys, Read, q), q)
  {
    var start, i, vec := sys.start, sys.r.i, sys.r.vec;
    if sys.s.version == start.version && IsValid(|sys.s.mem|, sys.s.tail, OffsetOf(vec)) {
      assert SlotAt(sys.s, i) && ItemAt(sys.s, sys.s.origin[i]);
      ValidIffInWindow(|sys.s.mem|, sys.s.tail, start.origin[i]);
      var words := StartWords(start, i);
      var key', entry' := StartItem(sys, i, q);
      var lookup := Hit(sys.r.length, sys.r.words, sys.r.expire);
      CopyReturns(words, q, entry', lookup);
      assert HeldAt(start, i, q.key, entry') && Returns(lookup, entry', q.capacity);
    }
  }

  /** A complete copy of the value words is what a hit is to return. */
  lemma CopyReturns(words: seq<int>, q: Query, entry: Entry, lookup: Lookup)
    requires lookup.Hit? && Holds(words, q.key, entry)
    requires CopyOk(words, q, lookup.expire, lookup.length, lookup.words) && |lookup.words| == Words(lookup.length)
    ensures Returns(lookup, entry, q.capacity)
  {
    MetaRoundTrip(q.key.length, entry.length, entry.expire);
    var k, v := |q.key.words|, |entry.words|;
    forall j | 0 <= j < |lookup.words|
      ensures lookup.words[j] == entry.words[j]
    {
      assert words[HEADER_WORDS + k..HEADER_WORDS + k + v][j] == words[HEADER_WORDS + k + j];
    }
  }

  /** Words that hold the key compare equal to it. */
  lemma HoldsCompares(words: seq<int>, key: Key, entry: Entry)
    requires Holds(words, key, entry)
    ensures FullyCompared(words, key)
  {
    MetaRoundTrip(key.length, entry.length, entry.expire);
    forall k | 0 <= k < |key.words|
      ensures words[HEADER_WORDS + k] == key.words[k]
    {
      assert words[HEADER_WORDS..HEADER_WORDS + |key.words|][k] == key.words[k];
    }
  }

  /** What an undisturbed slot held for the key at the start, the comparisons find. */
  lemma HeldMatches(sys: System, q: Query, entry: Entry)
    requires CoreInv(sys, q) && sys.r.Probe? && Undisturbed(sys, sys.r.i)
    requires HeldAt(sys.start, sys.r.i, q.key, entry)
    ensures Word(sys.s.mem, OffsetOf(sys.r.vec), 2) == q.key.hash
    ensures KeyLength(Word(sys.s.mem, OffsetOf(sys.r.vec), 1)) == q.key.length
    ensures 2 <= sys.r.j < |q.key.words| + 2 ==>
              Word(sys.s.mem, OffsetOf(sys.r.vec), HEADER_WORDS + sys.r.j - 2) == q.key.words[sys.r.j - 2]
  {
    var i, vec, j := sys.r.i, sys.r.vec, sys.r.j;
    HoldsCompares(StartWords(sys.start, i), q.key, entry);
    ReadsStart(sys, i, vec, 1, q);
    ReadsStart(sys, i, vec, 2, q);
    if 2 <= j < |q.key.words| + 2 {
      ReadsStart(sys, i, vec, HEADER_WORDS + j - 2, q);
    }
  }

  /** A comparison that fails shows that the slot does not hold the key, or no longer. */
  lemma MismatchNotHeld(sys: System, q: Query)
    requires CoreInv(sys, q) && sys.r.Probe? && Execute(sys, Read, q).r.Scan?
    requires sys.s.version == sys.start.version
    ensures NotHeld(sys.start, sys.s.tail, sys.r.i, q.key)
  {
    if Undisturbed(sys, sys.r.i) {
      if entry :| HeldAt(sys.start, sys.r.i, q.key, entry) {
        HeldMatches(sys, q, entry);
      }
    }
  }

  lemma ScanKeeps(sys: System, q: Query)
    requires CoreInv(sys, q) && sys.r.Scan? && Scanned(sys, sys.r.i, q)
    ensures SearchOk(Execute(sys, Read, q), q)
  {
    if sys.r.i < ITEMS_PER_BUCKET && sys.s.version == sys.start.version {
      ScannedSlot(sys, q);
    }
    ScanMoves(sys, q);
  }

  lemma ScanMoves(sys: System, q: Query)
    requires Shaped(sys.s) && Shaped(sys.start) && sys.r.Scan? && Scanned(sys, sys.r.i, q)
    requires sys.r.i < ITEMS_PER_BUCKET && sys.s.version == sys.start.version ==>
               && (TagOf(sys.s.slots[sys.r.i]) == CalcTag(q.key.hash) <==> Tagged(sys.start, sys.r.i, q.key))
               && (!Tagged(sys.start, sys.r.i, q.key) ==> NotHeld(sys.start, sys.s.tail, sys.r.i, q.key))
    ensures SearchOk(Execute(sys, Read, q), q)
  {
    var v, i := sys.r.v, sys.r.i;
    if sys.s.version == sys.start.version {
      if i >= ITEMS_PER_BUCKET {
        NoneHeld(sys.start, sys.s.tail, i, q.key);
      } else if TagOf(sys.s.slots[i]) != CalcTag(q.key.hash) {
        OneMoreNotHeld(sys.start, sys.s.tail, i, q.key);
      }
    }
    if i >= ITEMS_PER_BUCKET {
      assert Execute(sys, Read, q) == System(sys.s, Finish(v, Miss), sys.start);
    } else if TagOf(sys.s.slots[i]) != CalcTag(q.key.hash) {
      assert Execute(sys, Read, q) == System(sys.s, Scan(v, i + 1), sys.start);
    } else {
      assert Execute(sys, Read, q) == System(sys.s, Locate(v, i), sys.start);
    }
  }

  /** The tag that is read is that of the slot at the start, and without it the slot does not hold
      the key. */
  lemma ScannedSlot(sys: System, q: Query)
    requires CoreInv(sys, q) && sys.r.Scan? && sys.r.i < ITEMS_PER_BUCKET && sys.s.version == sys.start.version
    ensures TagOf(sys.s.slots[sys.r.i]) == CalcTag(q.key.hash) <==> Tagged(sys.start, sys.r.i, q.key)
    ensures !Tagged(sys.start, sys.r.i, q.key) ==> NotHeld(sys.start, sys.s.tail, sys.r.i, q.key)
  {
    VecRoundTrip(1, 0);
  }

  /** A comparison stays with its slot unless it fails, and then the scan goes on behind it. */
  lemma ProbeMoves(s: Shared, r: Reader, q: Query)
    requires 0 < |s.mem| && |s.slots| == |s.origin| == ITEMS_PER_BUCKET && r.Probe?
    ensures var r' := Access(s, r, q);
      && (r'.Scan? || r'.Probe? || r'.Fetch?)
      && r'.i == if r'.Scan? then r.i + 1 else r.i
  {
  }

  lemma ProbeKeepsSearch(sys: System, q: Query)
    requires CoreInv(sys, q) && sys.r.Probe? && Scanned(sys, sys.r.i, q) && TagSeen(sys, sys.r.i, q)
    ensures SearchOk(Execute(sys, Read, q), q)
  {
    var sys' := Execute(sys, Read, q);
    ProbeMoves(sys.s, sys.r, q);
    if sys'.r.Scan? {
      if sys.s.version == sys.start.version {
        MismatchNotHeld(sys, q);
        OneMoreNotHeld(sys.start, sys.s.tail, sys.r.i, q.key);
      }
      assert Scanned(sys', sys.r.i + 1, q);
    } else {
      assert Scanned(sys', sys.r.i, q) && TagSeen(sys', sys.r.i, q);
    }
  }

  lemma CheckKeepsSearch(sys: System, q: Query)
    requires CoreInv(sys, q) && sys.r.Check? && TagSeen(sys, sys.r.i, q)
    ensures SearchOk(Execute(sys, Read, q), q)
  {
    var start, i := sys.start, sys.r.i;
    if sys.s.version == start.version && Execute(sys, Read, q).r.lookup.Miss? {
      assert SlotAt(sys.s, i) && ItemAt(sys.s, sys.s.origin[i]);
      ValidIffInWindow(|sys.s.mem|, sys.s.tail, start.origin[i]);
      forall k | 0 <= k < ITEMS_PER_BUCKET
        ensures NotHeld(start, sys.s.tail, k, q.key)
      {
        assert k != i ==> !Tagged(start, k, q.key);
      }
    }
  }

  /** The reader's next access keeps its account of the search. */
  lemma SearchKeeps(sys: System, q: Query)
    requires CoreInv(sys, q) && FewLocks(sys) && !sys.r.Idle? && SearchOk(sys, q)
    ensures SearchOk(Execute(sys, Read, q), q)
  {
    match sys.r {
      case Scan(_, _) => ScanKeeps(sys, q);
      case Probe(_, _, _, _) => ProbeKeepsSearch(sys, q);
      case Check(_, _, _, _, _, _) => CheckKeepsSearch(sys, q);
      case Finish(_, _) => SameVersion(sys, q);
      case _ =>
    }
  }

  /** The last access accepts a lookup exactly if the version has moved by a multiple of 2^32. */
  lemma FinishAcceptsIff(s: Shared, version: nat, lookup: Lookup, q: Query)
    requires 0 < |s.mem| && |s.slots| == ITEMS_PER_BUCKET
    ensures Access(s, Finish(version % TWO_32, lookup), q) == Done(lookup) <==> (s.version - version) % TWO_32 == 0
  {
    if s.version % TWO_32 == version % TWO_32 {
      SameRemainder(version, s.version, TWO_32);
    } else if (s.version - version) % TWO_32 == 0 {
      AddDivisible(version, s.version - version, TWO_32);
    }
  }

  /** So after 2^31 locks, which move it by 2^32, the lookup is accepted although the bucket has
      changed. */
  lemma ManyLocksUnseen(s: Shared, version: nat, lookup: Lookup, q: Query)
    requires 0 < |s.mem| && |s.slots| == ITEMS_PER_BUCKET && s.version == version + TWO_32
    ensures Access(s, Finish(version % TWO_32, lookup), q) == Done(lookup)
  {
    FinishAcceptsIff(s, version, lookup, q);
  }

  /** A version that reads the same is the same. */
  lemma SameVersion(sys: System, q: Query)
    requires CoreInv(sys, q) && FewLocks(sys) && sys.r.Finish?
    ensures sys.s.version % TWO_32 == sys.r.v <==> sys.s.version == sys.start.version
  {
    if sys.s.version % TWO_32 == sys.start.version % TWO_32 && sys.s.version != sys.start.version {
      DistinctRemainders(sys.start.version, sys.s.version, TWO_32);
    }
  }

  lemma LocalKeeps(sys: System, q: Query)
    requires CoreInv(sys, q) && FewLocks(sys) && !sys.r.Idle?
    requires sys.r.Check? ==> TagSeen(sys, sys.r.i, q)
    ensures LocalOk(Execute(sys, Read, q), q)
  {
    match sys.r {
      case Probe(_, _, _, j) =>
        if j < 2 {
          ProbeHeaderKeeps(sys, q);
        } else {
          ProbeKeyKeeps(sys, q);
        }
      case Fetch(_, _) => MetaKeeps(sys, q);
      case ReadExpire(_, _, _) => MetaKeeps(sys, q);
      case ReadKeyLength(_, _, _, _) => MetaKeeps(sys, q);
      case ReadValueLength(_, _, _, _, _) => MetaKeeps(sys, q);
      case Copy(_, _, _, _, _, _, _) => CopyKeeps(sys, q);
      case Check(_, _, _, _, _, _) => CheckKeeps(sys, q);
      case Finish(_, _) => SameVersion(sys, q);
      case _ =>
    }
  }

  lemma BeginKeeps(sys: System, q: Query)
    requires CoreInv(sys, q) && sys.r.Idle?
    ensures SystemInv(Execute(sys, Read, q), q)
  {
    var sys' := Execute(sys, Read, q);
    if !sys'.r.Idle? {
      StartStands(sys.s);
      assert Scanned(sys', 0, q);
      assert sys'.s.version % 2 == 0;
    }
  }

  lemma CoreKeeps(sys: System, q: Query)
    requires CoreInv(sys, q) && FewLocks(sys) && !sys.r.Idle?
    requires sys.r.Check? ==> TagSeen(sys, sys.r.i, q)
    ensures CoreInv(Execute(sys, Read, q), q)
  {
    LocalKeeps(sys, q);
  }

  lemma ReadKeeps(sys: System, q: Query)
    requires SystemInv(sys, q) && FewLocks(sys)
    ensures SystemInv(Execute(sys, Read, q), q)
  {
    if sys.r.Idle? {
      BeginKeeps(sys, q);
    } else {
      CoreKeeps(sys, q);
      SearchKeeps(sys, q);
    }
  }

  lemma StartStands(s: Shared)
    requires Inv(s)
    ensures Stands(s, s)
  {
    forall i | 0 <= i < ITEMS_PER_BUCKET
      ensures ItemStands(s, s, i)
    {
      assert SlotAt(s, i);
    }
  }

  // ---------------------------------------------------------------- every run

  /** The states of a run. */
  ghost function Trace(sys: System, moves: seq<Move>, q: Query): (t: seq<System>)
    requires SystemInv(sys, q)
    ensures |t| >= 1 && t[0] == sys
    decreases |moves|
  {
    if moves == [] || !Possible(sys, moves[0]) || !FewLocks(sys) then [sys]
    else
      assert SystemInv(Execute(sys, moves[0], q), q) by { MoveKeeps(sys, moves[0], q); }
      [sys] + Trace(Execute(sys, moves[0], q), moves[1..], q)
  }

  lemma MoveKeeps(sys: System, move: Move, q: Query)
    requires SystemInv(sys, q) && Possible(sys, move) && FewLocks(sys)
    ensures SystemInv(Execute(sys, move, q), q)
  {
    match move {
      case Other(step) => OtherKeeps(sys, step, q);
      case Read => ReadKeeps(sys, q);
    }
  }

  /** In every run, a lookup that ends with a hit returns what its bucket held for the key in
      the state, earlier in the run, in which it first read the version. */
  lemma {:induction false} HitsAreSound(sys: System, moves: seq<Move>, q: Query, k: nat)
    requires SystemInv(sys, q) && sys.r.Idle? && k < |Trace(sys, moves, q)|
    ensures var t := Trace(sys, moves, q);
            t[k].r.Done? && t[k].r.lookup.Hit? ==>
              exists m: nat :: m < k && t[m].s == t[k].start && Inv(t[k].start) && GoodHit(t[k].start, t[k].r.lookup, q)
  {
    RunKeeps(sys, moves, q, k);
    StartIsEarlier(sys, moves, q, k);
  }

  /** In every run, a lookup that ends with a miss is right about the state in which it first read
      the version: what its bucket held for the key then, the log has overwritten since. */
  lemma {:induction false} MissesAreSound(sys: System, moves: seq<Move>, q: Query, k: nat)
    requires SystemInv(sys, q) && sys.r.Idle? && k < |Trace(sys, moves, q)|
    ensures var t := Trace(sys, moves, q);
            t[k].r.Done? && t[k].r.lookup.Miss? ==>
              exists m: nat :: m < k && t[m].s == t[k].start && Inv(t[k].start) &&
                               GoodMiss(t[k].start, t[k].s.tail, q.key)
  {
    RunKeeps(sys, moves, q, k);
    StartIsEarlier(sys, moves, q, k);
  }

  /** The same from a fresh table on, with nothing supposed of the states in between. */
  lemma RunsFromNewTable(mem: seq<int>, moves: seq<Move>, q: Query, k: nat)
    requires q.key.Ok() && 0 < |mem| && 2 <= q.wraps && 8 * |mem| * q.wraps == OFFSET_LIMIT
    ensures SystemInv(System(NewTable(mem), Idle, NewTable(mem)), q)
    ensures var t := Trace(System(NewTable(mem), Idle, NewTable(mem)), moves, q);
            k < |t| && t[k].r.Done? ==>
              exists m: nat :: m < k && t[m].s == t[k].start && Inv(t[k].start) &&
                               if t[k].r.lookup.Hit? then GoodHit(t[k].start, t[k].r.lookup, q)
                               else GoodMiss(t[k].start, t[k].s.tail, q.key)
  {
    NewTableInv(mem);
    var sys := System(NewTable(mem), Idle, NewTable(mem));
    if k < |Trace(sys, moves, q)| {
      HitsAreSound(sys, moves, q, k);
      MissesAreSound(sys, moves, q, k);
    }
  }

  lemma {:induction false} RunKeeps(sys: System, moves: seq<Move>, q: Query, k: nat)
    requires SystemInv(sys, q) && k < |Trace(sys, moves, q)|
    ensures SystemInv(Trace(sys, moves, q)[k], q)
    decreases |moves|
  {
    if k > 0 {
      MoveKeeps(sys, moves[0], q);
      RunKeeps(Execute(sys, moves[0], q), moves[1..], q, k - 1);
    }
  }

  lemma {:induction false} StartIsEarlier(sys: System, moves: seq<Move>, q: Query, k: nat)
    requires SystemInv(sys, q) && k < |Trace(sys, moves, q)|
    ensures var t := Trace(sys, moves, q);
            t[k].r.Idle? || (!sys.r.Idle? && t[k].start == sys.start) || exists m: nat :: m < k && t[m].s == t[k].start
    decreases |moves|
  {
    if k > 0 {
      var t := Trace(sys, moves, q);
      var next := Execute(sys, moves[0], q);
      MoveKeeps(sys, moves[0], q);
      StartIsEarlier(next, moves[1..], q, k - 1);
      var t' := Trace(next, moves[1..], q);
      assert t == [sys] + t';
      if m: nat :| m < k - 1 && t'[m].s == t'[k - 1].start {
        assert t[m + 1].s == t[k].start;
      } else if !t[k].r.Idle? {
        assert t[k].start == next.start;
        if sys.r.Idle? {
          assert t[0].s == t[k].start;
        }
      }
    }
  }
}
