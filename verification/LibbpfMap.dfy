/** The generic hash map of libbpf: chains that grow by doubling, with the insert strategies that
    keep one entry for each key.  Keys that the caller's equality identifies are one key here. */
module LibbpfMap {
  import opened Arith
  import opened Chains
  import opened Options

  const MIN_CAP_BITS := 2
  const SIZE_BITS := 64
  /** From 61 bits on the bucket array has more bytes than a size can count. */
  const MAX_CAP_BITS := 60
  const GOLDEN := 11400714819323198485

  datatype Strategy = Add | Set | Update
  datatype Outcome = Done | Exists | NoEntry | NoMemory

  /** The upper bits of the shuffled hash. */
  function HashBits(h: nat, bits: nat): (r: nat)
    requires bits <= SIZE_BITS
    ensures r < Pow2(bits)
  {
    if bits == 0 then 0
    else
      UpperBits(h * GOLDEN % Pow2(SIZE_BITS), bits);
      h * GOLDEN % Pow2(SIZE_BITS) / Pow2(SIZE_BITS - bits)
  }

  lemma UpperBits(x: nat, bits: nat)
    requires bits <= SIZE_BITS && x < Pow2(SIZE_BITS)
    ensures 0 <= x / Pow2(SIZE_BITS - bits) < Pow2(bits)
  {
    Pow2Add(bits, SIZE_BITS - bits);
    MultipleLe(Pow2(bits), Pow2(SIZE_BITS - bits), x);
    MultipleLe(0, Pow2(SIZE_BITS - bits), x);
  }

  ghost function Home<K(!new)>(hash: K -> nat, bits: nat): K -> nat
    requires bits <= SIZE_BITS
  {
    k => HashBits(hash(k), bits)
  }

  /** A table of this capacity has no room for another entry. */
  predicate Full(size: nat, bits: nat) {
    bits == 0 || (size + 1) * 4 / 3 > Pow2(bits)
  }

  function GrownBits(bits: nat): nat {
    if bits + 1 < MIN_CAP_BITS then MIN_CAP_BITS else bits + 1
  }

  ghost function Get<K, V>(m: map<K, V>, k: K): Option<V> {
    if k in m then Some(m[k]) else None
  }

  /** The capacity bits after an insert: a new key makes a full table grow, even when there is then
      no memory for the entry. */
  ghost function BitsAfter<K, V>(m: map<K, V>, bits: nat, key: K, strategy: Strategy, growMemory: bool): nat {
    if key !in m && strategy != Update && Full(|m|, bits) && growMemory && bits < MAX_CAP_BITS
    then GrownBits(bits)
    else bits
  }

  ghost predicate Submap<K, V>(a: map<K, V>, m: map<K, V>) {
    forall k :: k in a ==> k in m && m[k] == a[k]
  }

  class HashMap<K(!new, ==), V> {
    const hash: K -> nat
    var buckets: array<seq<Entry<K, V>>>
    var capBits: nat
    var sz: nat
    ghost var contents: map<K, V>

    /** The buckets hold the contents, and at most three quarters of the capacity is used. */
    ghost predicate Valid()
      reads this, buckets
    {
      && capBits <= MAX_CAP_BITS
      && buckets.Length == (if capBits == 0 then 0 else Pow2(capBits))
      && (capBits == 0 || MIN_CAP_BITS <= capBits)
      && Represents(buckets[..], Home(hash, capBits), contents)
      && sz == |contents| && sz * 4 / 3 <= buckets.Length
    }

    constructor (hash: K -> nat)
      ensures Valid() && contents == map[] && capBits == 0 && this.hash == hash && fresh(buckets)
    {
      this.hash := hash;
      buckets := new seq<Entry<K, V>>[0];
      capBits, sz, contents := 0, 0, map[];
    }

    predicate NeedsToGrow()
      reads this
    {
      buckets.Length == 0 || (sz + 1) * 4 / 3 > buckets.Length
    }

    /** Which depends on the number of entries and of capacity bits alone. */
    lemma GrowthRule()
      requires Valid()
      ensures NeedsToGrow() <==> Full(|contents|, capBits)
    {
    }

    /** Where in its chain a key is, if it is there. */
    method FindEntry(key: K) returns (at: Option<nat>)
      requires Valid()
      ensures at.Some? <==> key in contents
      ensures at.Some? ==> Home(hash, capBits)(key) < buckets.Length
      ensures at.Some? ==>
                var chain := buckets[Home(hash, capBits)(key)];
                at.value < |chain| && chain[at.value] == Entry(key, contents[key])
    {
      ghost var home := Home(hash, capBits);
      if buckets.Length == 0 {
        assert key in contents ==> Held(buckets[..], home, key);
        return None;
      }
      var h := HashBits(hash(key), capBits);
      var chain := buckets[h];
      WalkDecides(buckets[..], home, contents, key);
      var j := 0;
      while j < |chain|
        invariant j <= |chain| && forall l :: 0 <= l < j ==> chain[l].key != key
      {
        if chain[j].key == key {
          return Some(j);
        }
        j := j + 1;
      }
      return None;
    }

    method Find(key: K) returns (value: Option<V>)
      requires Valid()
      ensures value == Get(contents, key)
    {
      var at := FindEntry(key);
      if at.None? {
        return None;
      }
      value := Some(buckets[HashBits(hash(key), capBits)][at.value].value);
    }

    method Delete(key: K) returns (oldValue: Option<V>)
      requires Valid()
      modifies this, buckets
      ensures Valid() && buckets == old(buckets) && capBits == old(capBits)
      ensures oldValue == Get(old(contents), key)
      ensures contents == old(contents) - {key}
    {
      var at := FindEntry(key);
      if at.None? {
        assert contents - {key} == contents;
        return None;
      }
      oldValue := Some(buckets[HashBits(hash(key), capBits)][at.value].value);
      Unlink(key, at.value);
    }

    method Unlink(key: K, at: nat)
      requires Valid() && Home(hash, capBits)(key) < buckets.Length
      requires at < |buckets[Home(hash, capBits)(key)]| && buckets[Home(hash, capBits)(key)][at].key == key
      modifies this`sz, this`contents, buckets
      ensures Valid() && contents == old(contents) - {key}
    {
      var h := HashBits(hash(key), capBits);
      var chain := buckets[h];
      RemoveKeeps(buckets[..], Home(hash, capBits), contents, key, at);
      buckets[h] := chain[..at] + chain[at + 1..];
      RemovedOne(contents, key);
      sz, contents := sz - 1, contents - {key};
    }

    /** Relink the entries of one chain into the new buckets. */
    method MoveChain(chain: seq<Entry<K, V>>, bits: nat, target: array<seq<Entry<K, V>>>, ghost moved: map<K, V>)
      returns (ghost moved': map<K, V>)
      requires bits <= SIZE_BITS && target.Length == Pow2(bits)
      requires Represents(target[..], Home(hash, bits), moved)
      requires Distinct(chain) && forall j :: 0 <= j < |chain| ==> chain[j].key !in moved
      modifies target
      ensures Represents(target[..], Home(hash, bits), moved')
      ensures forall k :: k in moved ==> k in moved' && moved'[k] == moved[k]
      ensures forall j :: 0 <= j < |chain| ==> chain[j].key in moved' && moved'[chain[j].key] == chain[j].value
      ensures forall k :: k in moved' ==> k in moved || InChain(chain, k)
    {
      moved' := moved;
      var j := 0;
      while j < |chain|
        invariant j <= |chain|
        invariant Represents(target[..], Home(hash, bits), moved')
        invariant forall k :: k in moved ==> k in moved' && moved'[k] == moved[k]
        invariant forall l :: 0 <= l < j ==> chain[l].key in moved' && moved'[chain[l].key] == chain[l].value
        invariant forall l :: j <= l < |chain| ==> chain[l].key !in moved'
        invariant forall k :: k in moved' ==> k in moved || InChain(chain, k)
      {
        var key, value := chain[j].key, chain[j].value;
        var h := HashBits(hash(key), bits);
        PrependKeeps(target[..], Home(hash, bits), moved', key, value);
        target[h] := [Entry(key, value)] + target[h];
        moved' := moved'[key := value];
        j := j + 1;
      }
    }

    /** Double the buckets, from none to four, and rehash every entry. */
    method Grow(memory: bool) returns (grown: bool)
      requires Valid()
      modifies this
      ensures Valid() && contents == old(contents) && sz == old(sz)
      ensures grown <==> memory && old(capBits) < MAX_CAP_BITS
      ensures grown ==> !NeedsToGrow() && fresh(buckets)
      ensures grown ==> capBits == GrownBits(old(capBits))
      ensures !grown ==> buckets == old(buckets) && capBits == old(capBits)
    {
      var bits := GrownBits(capBits);
      if !memory || bits > MAX_CAP_BITS {
        return false;
      }
      var target := new seq<Entry<K, V>>[Pow2(bits)](_ => []);
      ghost var home := Home(hash, capBits);
      EmptyRepresents(target[..], Home(hash, bits));
      ghost var moved: map<K, V> := map[];
      var b := 0;
      while b < buckets.Length
        modifies target
        invariant b <= buckets.Length && buckets[..] == old(buckets[..])
        invariant Represents(target[..], Home(hash, bits), moved)
        invariant Submap(moved, contents) && forall k :: k in moved ==> home(k) < b
        invariant forall k :: k in contents && home(k) < b ==> k in moved
      {
        var chain := buckets[b];
        assert ChainOk(buckets[..][b], home, contents, b);
        assert forall j :: 0 <= j < |chain| ==> EntryOk(chain[j], home, contents, b);
        moved := MoveChain(chain, bits, target, moved);
        forall k | k in contents && home(k) == b
          ensures k in moved
        {
          assert Held(buckets[..], home, k);
        }
        b := b + 1;
      }
      forall k | k in contents
        ensures k in moved
      {
        assert Held(buckets[..], home, k);
      }
      assert moved == contents;
      RoomAfterGrowth(sz, capBits, bits);
      buckets, capBits := target, bits;
      return true;
    }

    /** Insert by one of the strategies.  `growMemory` and `entryMemory` say whether the two
        allocations succeed. */
    method Insert(key: K, value: V, strategy: Strategy, growMemory: bool, entryMemory: bool)
      returns (outcome: Outcome, oldValue: Option<V>)
      requires Valid()
      modifies this, buckets
      ensures Valid() && (buckets == old(buckets) || fresh(buckets))
      ensures oldValue == Get(old(contents), key)
      ensures outcome == Exists <==> strategy == Add && key in old(contents)
      ensures outcome == NoEntry <==> strategy == Update && key !in old(contents)
      ensures outcome == NoMemory <==>
                && strategy != Update && key !in old(contents)
                && (|| !entryMemory
                    || (Full(|old(contents)|, old(capBits)) && !(growMemory && old(capBits) < MAX_CAP_BITS)))
      ensures capBits == BitsAfter(old(contents), old(capBits), key, strategy, growMemory)
      ensures contents == if outcome == Done then old(contents)[key := value] else old(contents)
    {
      var at := FindEntry(key);
      if at.Some? {
        oldValue := Some(buckets[HashBits(hash(key), capBits)][at.value].value);
        if strategy == Add {
          return Exists, oldValue;
        }
        Overwrite(key, value, at.value);
        return Done, oldValue;
      }
      if strategy == Update {
        return NoEntry, None;
      }
      outcome := InsertNew(key, value, growMemory, entryMemory);
      return outcome, None;
    }

    /** Insert a key that is not there, growing first if the map is full. */
    method InsertNew(key: K, value: V, growMemory: bool, entryMemory: bool) returns (outcome: Outcome)
      requires Valid() && key !in contents
      modifies this, buckets
      ensures Valid() && (buckets == old(buckets) || fresh(buckets))
      ensures outcome == Done || outcome == NoMemory
      ensures outcome == NoMemory <==>
                !entryMemory || (Full(|old(contents)|, old(capBits)) && !(growMemory && old(capBits) < MAX_CAP_BITS))
      ensures capBits == BitsAfter(old(contents), old(capBits), key, Set, growMemory)
      ensures contents == if outcome == Done then old(contents)[key := value] else old(contents)
    {
      GrowthRule();
      if NeedsToGrow() {
        var grown := Grow(growMemory);
        if !grown {
          return NoMemory;
        }
      }
      if !entryMemory {
        return NoMemory;
      }
      Link(key, value);
      return Done;
    }

    method Overwrite(key: K, value: V, at: nat)
      requires Valid() && Home(hash, capBits)(key) < buckets.Length
      requires at < |buckets[Home(hash, capBits)(key)]| && buckets[Home(hash, capBits)(key)][at].key == key
      modifies this`contents, buckets
      ensures Valid() && contents == old(contents)[key := value]
    {
      var h := HashBits(hash(key), capBits);
      ReplaceKeeps(buckets[..], Home(hash, capBits), contents, key, value, at);
      buckets[h] := buckets[h][at := Entry(key, value)];
      assert contents[key := value].Keys == contents.Keys;
      contents := contents[key := value];
    }

    method Link(key: K, value: V)
      requires Valid() && !NeedsToGrow() && key !in contents
      modifies this`sz, this`contents, buckets
      ensures Valid() && contents == old(contents)[key := value]
    {
      var h := HashBits(hash(key), capBits);
      PrependKeeps(buckets[..], Home(hash, capBits), contents, key, value);
      buckets[h] := [Entry(key, value)] + buckets[h];
      sz, contents := sz + 1, contents[key := value];
    }
  }

  // ---------------------------------------------------------------- whole runs

  datatype Op<K, V> =
    | OpInsert(key: K, value: V, strategy: Strategy, growMemory: bool, entryMemory: bool)
    | OpDelete(key: K)
    | OpFind(key: K)

  datatype Reply<V> = Reply(outcome: Outcome, value: Option<V>)

  /** A plain map together with the capacity bits, which decide when an insert needs memory for
      growing. */
  datatype Model<K, V> = Model(contents: map<K, V>, bits: nat)

  /** What a plain map answers; a new key is refused exactly for want of memory. */
  ghost predicate ReplyOk<K, V>(m: Model<K, V>, op: Op<K, V>, r: Reply<V>) {
    && r.value == Get(m.contents, op.key)
    && match op
       case OpInsert(key, _, strategy, growMemory, entryMemory) =>
         && (r.outcome == Exists <==> strategy == Add && key in m.contents)
         && (r.outcome == NoEntry <==> strategy == Update && key !in m.contents)
         && (r.outcome == NoMemory <==>
               && strategy != Update && key !in m.contents
               && (!entryMemory || (Full(|m.contents|, m.bits) && !(growMemory && m.bits < MAX_CAP_BITS))))
       case OpDelete(_) => r.outcome == Done
       case OpFind(_) => r.outcome == Done
  }

  ghost function After<K, V>(m: Model<K, V>, op: Op<K, V>, r: Reply<V>): Model<K, V> {
    match op
    case OpInsert(key, value, strategy, growMemory, _) =>
      Model(if r.outcome == Done then m.contents[key := value] else m.contents,
            BitsAfter(m.contents, m.bits, key, strategy, growMemory))
    case OpDelete(key) => m.(contents := m.contents - {key})
    case OpFind(_) => m
  }

  /** A plain map that starts empty, goes through `models` and gives these answers. */
  ghost predicate RunOk<K, V>(ops: seq<Op<K, V>>, replies: seq<Reply<V>>, models: seq<Model<K, V>>) {
    && |replies| == |ops| && |models| == |ops| + 1 && models[0] == Model(map[], 0)
    && forall i {:trigger ops[i]} :: 0 <= i < |ops| ==>
         ReplyOk(models[i], ops[i], replies[i]) && models[i + 1] == After(models[i], ops[i], replies[i])
  }

  /** Over every sequence of operations the hash map answers as a plain map does. */
  method RunAll<K(!new, ==), V>(hash: K -> nat, ops: seq<Op<K, V>>)
    returns (table: HashMap<K, V>, replies: seq<Reply<V>>, ghost models: seq<Model<K, V>>)
    ensures table.Valid() && RunOk(ops, replies, models) && Model(table.contents, table.capBits) == models[|ops|]
  {
    table := new HashMap<K, V>(hash);
    replies, models := [], [Model(map[], 0)];
    var i := 0;
    while i < |ops|
      invariant i <= |ops| && table.Valid() && fresh(table) && fresh(table.buckets)
      invariant RunOk(ops[..i], replies, models) && Model(table.contents, table.capBits) == models[i]
    {
      var reply := Perform(table, ops[i], models[i]);
      RunStep(ops[..i], replies, models, ops[i], reply);
      assert ops[..i + 1] == ops[..i] + [ops[i]];
      replies, models := replies + [reply], models + [After(models[i], ops[i], reply)];
      i := i + 1;
    }
    assert ops[..i] == ops;
  }

  lemma RunStep<K, V>(ops: seq<Op<K, V>>, replies: seq<Reply<V>>, models: seq<Model<K, V>>, op: Op<K, V>, r: Reply<V>)
    requires RunOk(ops, replies, models) && ReplyOk(models[|ops|], op, r)
    ensures RunOk(ops + [op], replies + [r], models + [After(models[|ops|], op, r)])
  {
  }

  method Perform<K(!new, ==), V>(m: HashMap<K, V>, op: Op<K, V>, ghost was: Model<K, V>) returns (reply: Reply<V>)
    requires m.Valid() && was == Model(m.contents, m.capBits)
    modifies m, m.buckets
    ensures m.Valid() && (m.buckets == old(m.buckets) || fresh(m.buckets))
    ensures ReplyOk(was, op, reply) && Model(m.contents, m.capBits) == After(was, op, reply)
  {
    match op
    case OpInsert(key, value, strategy, growMemory, entryMemory) =>
      var outcome, value' := m.Insert(key, value, strategy, growMemory, entryMemory);
      reply := Reply(outcome, value');
    case OpDelete(key) =>
      var value := m.Delete(key);
      reply := Reply(Done, value);
    case OpFind(key) =>
      var value := m.Find(key);
      reply := Reply(Done, value);
  }

  lemma RemovedOne<K, V>(m: map<K, V>, k: K)
    requires k in m
    ensures |m - {k}| == |m| - 1
  {
  }

  /** Twice the buckets always have room for one more entry. */
  lemma RoomAfterGrowth(sz: nat, capBits: nat, bits: nat)
    requires sz * 4 / 3 <= if capBits == 0 then 0 else Pow2(capBits)
    requires bits == if capBits == 0 then MIN_CAP_BITS else capBits + 1
    requires capBits == 0 || MIN_CAP_BITS <= capBits
    ensures (sz + 1) * 4 / 3 <= Pow2(bits)
  {
  }
}
