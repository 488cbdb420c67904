/** Buckets of chains as a representation of a map, shared by the two chained hash tables of the
    repository.  `home` is where a key belongs. */
module Chains {
  datatype Entry<K, V> = Entry(key: K, value: V)

  ghost predicate EntryOk<K(!new), V>(e: Entry<K, V>, home: K -> nat, m: map<K, V>, i: nat) {
    e.key in m && m[e.key] == e.value && home(e.key) == i
  }

  ghost predicate Distinct<K, V>(chain: seq<Entry<K, V>>) {
    forall j, l :: 0 <= j < l < |chain| ==> chain[j].key != chain[l].key
  }

  /** A chain holds only entries of the map that belong here, each key once. */
  ghost predicate ChainOk<K(!new), V>(chain: seq<Entry<K, V>>, home: K -> nat, m: map<K, V>, i: nat) {
    && Distinct(chain)
    && forall j :: 0 <= j < |chain| ==> EntryOk(chain[j], home, m, i)
  }

  predicate InChain<K(==), V>(chain: seq<Entry<K, V>>, k: K) {
    exists j :: 0 <= j < |chain| && chain[j].key == k
  }

  ghost predicate Held<K(!new), V>(buckets: seq<seq<Entry<K, V>>>, home: K -> nat, k: K) {
    home(k) < |buckets| && InChain(buckets[home(k)], k)
  }

  /** The buckets hold exactly the map. */
  ghost predicate Represents<K(!new), V>(buckets: seq<seq<Entry<K, V>>>, home: K -> nat, m: map<K, V>) {
    && (forall i {:trigger ChainOk(buckets[i], home, m, i)} ::
          0 <= i < |buckets| ==> ChainOk(buckets[i], home, m, i))
    && (forall k {:trigger Held(buckets, home, k)} :: k in m ==> Held(buckets, home, k))
  }

  /** Walking the home chain of a key decides whether the map has it. */
  lemma WalkDecides<K(!new), V>(buckets: seq<seq<Entry<K, V>>>, home: K -> nat, m: map<K, V>, k: K)
    requires Represents(buckets, home, m) && home(k) < |buckets|
    ensures k in m <==> InChain(buckets[home(k)], k)
    ensures forall j :: 0 <= j < |buckets[home(k)]| && buckets[home(k)][j].key == k ==>
                          k in m && m[k] == buckets[home(k)][j].value
  {
    assert ChainOk(buckets[home(k)], home, m, home(k));
    assert k in m ==> Held(buckets, home, k);
  }

  lemma EmptyRepresents<K(!new), V>(buckets: seq<seq<Entry<K, V>>>, home: K -> nat)
    requires forall i :: 0 <= i < |buckets| ==> buckets[i] == []
    ensures Represents(buckets, home, map[])
  {
  }

  /** A chain of another map is also one of this map when they agree on its keys. */
  lemma ChainFrame<K(!new), V>(chain: seq<Entry<K, V>>, home: K -> nat, m: map<K, V>, m': map<K, V>, i: nat)
    requires ChainOk(chain, home, m, i)
    requires forall j :: 0 <= j < |chain| ==> chain[j].key in m' && m'[chain[j].key] == m[chain[j].key]
    ensures ChainOk(chain, home, m', i)
  {
  }

  /** Changing one chain and one key represents the changed map. */
  lemma ChangeOne<K(!new), V>(buckets: seq<seq<Entry<K, V>>>, home: K -> nat, m: map<K, V>, k: K,
                              chain: seq<Entry<K, V>>, m': map<K, V>)
    requires Represents(buckets, home, m) && home(k) < |buckets|
    requires ChainOk(chain, home, m', home(k))
    requires forall x :: x != k ==> (x in m' <==> x in m) && (x in m ==> m'[x] == m[x])
    requires forall x :: x != k && InChain(buckets[home(k)], x) ==> InChain(chain, x)
    requires k in m' ==> InChain(chain, k)
    ensures Represents(buckets[home(k) := chain], home, m')
  {
    var buckets' := buckets[home(k) := chain];
    forall i | 0 <= i < |buckets'|
      ensures ChainOk(buckets'[i], home, m', i)
    {
      if i != home(k) {
        assert ChainOk(buckets[i], home, m, i);
        forall j | 0 <= j < |buckets[i]|
          ensures buckets[i][j].key in m' && m'[buckets[i][j].key] == m[buckets[i][j].key]
        {
          assert EntryOk(buckets[i][j], home, m, i);
        }
        ChainFrame(buckets[i], home, m, m', i);
      }
    }
    forall x | x in m'
      ensures Held(buckets', home, x)
    {
      if x != k {
        assert Held(buckets, home, x);
      }
    }
  }

  lemma PrependChain<K(!new), V>(chain: seq<Entry<K, V>>, home: K -> nat, m: map<K, V>, k: K, v: V)
    requires ChainOk(chain, home, m, home(k)) && k !in m
    ensures ChainOk([Entry(k, v)] + chain, home, m[k := v], home(k))
  {
    var chain' := [Entry(k, v)] + chain;
    forall j | 0 <= j < |chain'|
      ensures EntryOk(chain'[j], home, m[k := v], home(k))
    {
      if j > 0 {
        assert chain'[j] == chain[j - 1] && EntryOk(chain[j - 1], home, m, home(k));
      }
    }
    forall j, l | 0 <= j < l < |chain'|
      ensures chain'[j].key != chain'[l].key
    {
      assert chain'[l] == chain[l - 1] && EntryOk(chain[l - 1], home, m, home(k));
      assert j > 0 ==> chain'[j] == chain[j - 1];
    }
  }

  /** Linking a new entry in front. */
  lemma PrependKeeps<K(!new), V>(buckets: seq<seq<Entry<K, V>>>, home: K -> nat, m: map<K, V>, k: K, v: V)
    requires Represents(buckets, home, m) && home(k) < |buckets| && k !in m
    ensures Represents(buckets[home(k) := [Entry(k, v)] + buckets[home(k)]], home, m[k := v])
  {
    var old' := buckets[home(k)];
    var chain := [Entry(k, v)] + old';
    assert ChainOk(old', home, m, home(k));
    PrependChain(old', home, m, k, v);
    forall x | InChain(old', x)
      ensures InChain(chain, x)
    {
      var j :| 0 <= j < |old'| && old'[j].key == x;
      assert chain[j + 1].key == x;
    }
    assert chain[0].key == k;
    ChangeOne(buckets, home, m, k, chain, m[k := v]);
  }

  /** Writing another value into an entry. */
  lemma ReplaceKeeps<K(!new), V>(buckets: seq<seq<Entry<K, V>>>, home: K -> nat, m: map<K, V>, k: K, v: V, at: nat)
    requires Represents(buckets, home, m) && home(k) < |buckets|
    requires at < |buckets[home(k)]| && buckets[home(k)][at].key == k
    ensures k in m
    ensures Represents(buckets[home(k) := buckets[home(k)][at := Entry(k, v)]], home, m[k := v])
  {
    var old' := buckets[home(k)];
    var chain := old'[at := Entry(k, v)];
    var m' := m[k := v];
    assert ChainOk(old', home, m, home(k));
    forall j | 0 <= j < |chain|
      ensures EntryOk(chain[j], home, m', home(k))
    {
      assert EntryOk(old'[j], home, m, home(k));
    }
    forall x | InChain(old', x)
      ensures InChain(chain, x)
    {
      var j :| 0 <= j < |old'| && old'[j].key == x;
      assert chain[j].key == x;
    }
    ChangeOne(buckets, home, m, k, chain, m');
  }

  /** Unlinking an entry. */
  lemma RemoveKeeps<K(!new), V>(buckets: seq<seq<Entry<K, V>>>, home: K -> nat, m: map<K, V>, k: K, at: nat)
    requires Represents(buckets, home, m) && home(k) < |buckets|
    requires at < |buckets[home(k)]| && buckets[home(k)][at].key == k
    ensures k in m
    ensures Represents(buckets[home(k) := buckets[home(k)][..at] + buckets[home(k)][at + 1..]], home, m - {k})
  {
    var old' := buckets[home(k)];
    var chain := old'[..at] + old'[at + 1..];
    var m' := m - {k};
    assert ChainOk(old', home, m, home(k));
    assert EntryOk(old'[at], home, m, home(k));
    forall j | 0 <= j < |chain|
      ensures EntryOk(chain[j], home, m', home(k))
    {
      var j' := if j < at then j else j + 1;
      assert chain[j] == old'[j'] && EntryOk(old'[j'], home, m, home(k));
    }
    forall x | x != k && InChain(old', x)
      ensures InChain(chain, x)
    {
      var j :| 0 <= j < |old'| && old'[j].key == x;
      assert chain[if j < at then j else j - 1].key == x;
    }
    ChangeOne(buckets, home, m, k, chain, m');
  }

  // ---------------------------------------------------------------- counting entries

  ghost function Keys<K(!new), V>(chain: seq<Entry<K, V>>): set<K> {
    set j | 0 <= j < |chain| :: chain[j].key
  }

  ghost function KeysBelow<K(!new), V>(buckets: seq<seq<Entry<K, V>>>, n: nat): set<K>
    requires n <= |buckets|
  {
    if n == 0 then {} else KeysBelow(buckets, n - 1) + Keys(buckets[n - 1])
  }

  function Total<K, V>(buckets: seq<seq<Entry<K, V>>>, n: nat): nat
    requires n <= |buckets|
  {
    if n == 0 then 0 else Total(buckets, n - 1) + |buckets[n - 1]|
  }

  lemma {:induction false} ChainSize<K(!new), V>(chain: seq<Entry<K, V>>)
    requires Distinct(chain)
    ensures |Keys(chain)| == |chain|
  {
    if chain != [] {
      var front, last := chain[..|chain| - 1], chain[|chain| - 1];
      ChainSize(front);
      assert forall j :: 0 <= j < |front| ==> front[j] == chain[j];
      assert Keys(chain) == Keys(front) + {last.key} by {
        assert last.key == chain[|chain| - 1].key;
      }
      assert last.key !in Keys(front);
    }
  }

  lemma {:induction false} KeysBelowSize<K(!new), V>(buckets: seq<seq<Entry<K, V>>>, home: K -> nat, m: map<K, V>,
                                                     n: nat)
    requires Represents(buckets, home, m) && n <= |buckets|
    ensures |KeysBelow(buckets, n)| == Total(buckets, n)
    ensures forall k :: k in KeysBelow(buckets, n) <==> k in m && home(k) < n
  {
    if n > 0 {
      KeysBelowSize(buckets, home, m, n - 1);
      ChainKeys(buckets, home, m, n - 1);
      assert KeysBelow(buckets, n - 1) !! Keys(buckets[n - 1]);
    }
  }

  /** A chain has the keys of its bucket, each once. */
  lemma ChainKeys<K(!new), V>(buckets: seq<seq<Entry<K, V>>>, home: K -> nat, m: map<K, V>, b: nat)
    requires Represents(buckets, home, m) && b < |buckets|
    ensures |Keys(buckets[b])| == |buckets[b]|
    ensures forall k :: k in Keys(buckets[b]) <==> k in m && home(k) == b
  {
    var chain := buckets[b];
    assert ChainOk(chain, home, m, b);
    ChainSize(chain);
    forall k
      ensures k in Keys(chain) <==> k in m && home(k) == b
    {
      assert k in m ==> Held(buckets, home, k);
      if k in Keys(chain) {
        var j :| 0 <= j < |chain| && chain[j].key == k;
        assert EntryOk(chain[j], home, m, b);
      }
    }
  }

  /** No entry is lost and none is there twice: the chains have one entry for each key. */
  lemma TotalIsSize<K(!new), V>(buckets: seq<seq<Entry<K, V>>>, home: K -> nat, m: map<K, V>)
    requires Represents(buckets, home, m)
    ensures Total(buckets, |buckets|) == |m|
  {
    KeysBelowSize(buckets, home, m, |buckets|);
    forall k | k in m
      ensures home(k) < |buckets|
    {
      assert Held(buckets, home, k);
    }
    assert KeysBelow(buckets, |buckets|) == m.Keys;
  }
}
