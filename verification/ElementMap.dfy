/** The load balancer's own hash map: chains of fixed length that insert only absent keys. */
module ElementMap {
  import opened Chains
  import opened Options

  ghost function Home<K(!new)>(hash: K -> nat, size: nat): K -> nat
    requires 0 < size
  {
    k => hash(k) % size
  }

  class Table<K(!new, ==), V> {
    const hash: K -> nat
    const buckets: array<seq<Entry<K, V>>>
    ghost var contents: map<K, V>

    ghost predicate Valid()
      reads this, buckets
    {
      0 < buckets.Length && Represents(buckets[..], Home(hash, buckets.Length), contents)
    }

    constructor (hash: K -> nat, maxEntries: nat)
      requires 0 < maxEntries
      ensures Valid() && contents == map[] && this.hash == hash && fresh(buckets)
    {
      this.hash := hash;
      buckets := new seq<Entry<K, V>>[maxEntries](_ => []);
      contents := map[];
      new;
      EmptyRepresents(buckets[..], Home(hash, maxEntries));
    }

    /** Walk the chain of a key. */
    method Walk(key: K) returns (at: Option<nat>)
      requires Valid()
      ensures at.Some? <==> key in contents
      ensures at.Some? ==>
                var chain := buckets[hash(key) % buckets.Length];
                at.value < |chain| && chain[at.value] == Entry(key, contents[key])
    {
      var chain := buckets[hash(key) % buckets.Length];
      WalkDecides(buckets[..], Home(hash, buckets.Length), contents, key);
      var j := 0;
      while j < |chain|
        invariant j <= |chain| && forall l :: 0 <= l < j ==> chain[l].key != key
      {
        if chain[j].key == key {
          return Some(j);
        }
        j := j + 1;
      }
      return None;
    }

    method Insert(key: K, value: V) returns (inserted: bool)
      requires Valid()
      modifies this, buckets
      ensures Valid() && inserted == (key !in old(contents))
      ensures contents == if inserted then old(contents)[key := value] else old(contents)
    {
      var at := Walk(key);
      if at.Some? {
        return false;
      }
      var h := hash(key) % buckets.Length;
      PrependKeeps(buckets[..], Home(hash, buckets.Length), contents, key, value);
      buckets[h] := [Entry(key, value)] + buckets[h];
      contents := contents[key := value];
      return true;
    }

    method Lookup(key: K) returns (value: Option<V>)
      requires Valid()
      ensures value == if key in contents then Some(contents[key]) else None
    {
      var at := Walk(key);
      if at.None? {
        return None;
      }
      value := Some(buckets[hash(key) % buckets.Length][at.value].value);
    }

    /** A missing key is ignored. */
    method Update(key: K, value: V)
      requires Valid()
      modifies this, buckets
      ensures Valid() && contents == if key in old(contents) then old(contents)[key := value] else old(contents)
    {
      var at := Walk(key);
      if at.Some? {
        var h := hash(key) % buckets.Length;
        ReplaceKeeps(buckets[..], Home(hash, buckets.Length), contents, key, value, at.value);
        buckets[h] := buckets[h][at.value := Entry(key, value)];
        contents := contents[key := value];
      }
    }

    method Delete(key: K)
      requires Valid()
      modifies this, buckets
      ensures Valid() && contents == old(contents) - {key}
    {
      var at := Walk(key);
      if at.None? {
        assert contents - {key} == contents;
        return;
      }
      var h := hash(key) % buckets.Length;
      RemoveKeeps(buckets[..], Home(hash, buckets.Length), contents, key, at.value);
      buckets[h] := buckets[h][..at.value] + buckets[h][at.value + 1..];
      contents := contents - {key};
    }
  }
}
