/** The circular append log of the cache: what its memory holds.

    Positions are byte offsets that only grow; all are multiples of 8.  The memory is n
    words of 8 bytes, and position p is stored in word (p / 8) % n, so that a position
    overwrites the one 8 * n bytes before it.  A log maps the offset of each item that has
    not been popped to the words of the item, the first of which is the item size. */
module CircularLog {
  import opened Arith

  const OFFSET_LIMIT := 0x100_0000_0000

  function End(log: map<nat, seq<int>>, o: nat): nat
    requires o in log
  {
    o + 8 * |log[o]|
  }

  /** The words of one item are in memory. */
  ghost predicate Stored(n: nat, mem: seq<int>, o: nat, words: seq<int>)
    requires 0 < n == |mem|
  {
    forall i {:trigger words[i]} :: 0 <= i < |words| ==> mem[(o / 8 + i) % n] == words[i]
  }

  ghost predicate ItemOk(n: nat, head: nat, tail: nat, log: map<nat, seq<int>>, o: nat)
    requires o in log
  {
    && o % 8 == 0 && head <= o
    && 1 <= |log[o]| && log[o][0] == 8 * |log[o]|
    && End(log, o) <= tail
    && (End(log, o) == tail || End(log, o) in log)
  }

  ghost predicate Apart(log: map<nat, seq<int>>, o: nat, p: nat)
    requires o in log && p in log
  {
    o < p ==> End(log, o) <= p
  }

  /** The items cover the positions head to tail, in order and without overlap. */
  ghost predicate Tiling(n: nat, head: nat, tail: nat, log: map<nat, seq<int>>) {
    && 0 < n
    && head <= tail <= head + 8 * n
    && tail % 8 == 0
    && (head == tail || head in log)
    && (forall o {:trigger ItemOk(n, head, tail, log, o)} :: o in log ==> ItemOk(n, head, tail, log, o))
    && (forall o, p {:trigger Apart(log, o, p)} :: o in log && p in log ==> Apart(log, o, p))
  }

  ghost predicate LogOk(n: nat, mem: seq<int>, head: nat, tail: nat, log: map<nat, seq<int>>) {
    && n == |mem|
    && Tiling(n, head, tail, log)
    && (forall o {:trigger Stored(n, mem, o, log[o])} :: o in log ==> Stored(n, mem, o, log[o]))
  }

  /** The items at or after a position. */
  function From(log: map<nat, seq<int>>, p: int): map<nat, seq<int>> {
    map o | o in log && p <= o :: log[o]
  }

  // ---------------------------------------------------------------- popping

  lemma PopKeeps(n: nat, mem: seq<int>, head: nat, tail: nat, log: map<nat, seq<int>>)
    requires LogOk(n, mem, head, tail, log) && head < tail
    ensures head in log && ItemOk(n, head, tail, log, head)
    ensures LogOk(n, mem, End(log, head), tail, log - {head})
  {
    var head', log' := End(log, head), log - {head};
    assert ItemOk(n, head, tail, log, head);
    forall o | o in log'
      ensures ItemOk(n, head', tail, log', o)
    {
      assert ItemOk(n, head, tail, log, o) && Apart(log, head, o);
    }
    forall o, p | o in log' && p in log'
      ensures Apart(log', o, p)
    {
      assert Apart(log, o, p);
    }
    forall o | o in log'
      ensures Stored(n, mem, o, log'[o])
    {
      assert Stored(n, mem, o, log[o]);
    }
  }

  /** Popping an empty log is never needed to make room for an item that fits. */
  lemma HeadReadsSize(n: nat, mem: seq<int>, head: nat, tail: nat, log: map<nat, seq<int>>)
    requires LogOk(n, mem, head, tail, log) && head < tail
    ensures head in log && mem[(head / 8) % n] == 8 * |log[head]|
  {
    assert ItemOk(n, head, tail, log, head) && Stored(n, mem, head, log[head]);
    assert log[head][0] == mem[(head / 8 + 0) % n];
  }

  // ---------------------------------------------------------------- writing

  /** A word written at a log position that no item of the window shares leaves an item alone. */
  lemma WriteElsewhere(n: nat, mem: seq<int>, o: nat, words: seq<int>, w: nat, x: int)
    requires 0 < n == |mem| && Stored(n, mem, o, words)
    requires o / 8 + |words| <= w < o / 8 + n || (w < o / 8 && o / 8 + |words| <= w + n)
    ensures Stored(n, mem[w % n := x], o, words)
  {
    forall i | 0 <= i < |words|
      ensures mem[w % n := x][(o / 8 + i) % n] == words[i]
    {
      if w < o / 8 {
        DistinctRemainders(w, o / 8 + i, n);
      } else {
        DistinctRemainders(o / 8 + i, w, n);
      }
    }
  }

  /** The words that an append at the tail finds in memory, with the item size in front. */
  function Fresh(n: nat, mem: seq<int>, o: nat, count: nat): seq<int>
    requires 0 < n == |mem| && 1 <= count
  {
    seq(count, i requires 0 <= i < count => if i == 0 then 8 * count else mem[(o / 8 + i) % n])
  }

  /** The item that an append leaves at the tail is stored. */
  lemma FreshStored(n: nat, mem: seq<int>, tail: nat, count: nat)
    requires 0 < n == |mem| && 1 <= count <= n
    ensures Stored(n, mem[(tail / 8) % n := 8 * count], tail, Fresh(n, mem, tail, count))
  {
    var words := Fresh(n, mem, tail, count);
    forall i | 0 <= i < |words|
      ensures mem[(tail / 8) % n := 8 * count][(tail / 8 + i) % n] == words[i]
    {
      if i > 0 {
        DistinctRemainders(tail / 8, tail / 8 + i, n);
      }
    }
  }

  lemma {:induction false} PushItem(n: nat, head: nat, tail: nat, log: map<nat, seq<int>>, words: seq<int>, o: nat)
    requires Tiling(n, head, tail, log) && o in log[tail := words]
    requires 1 <= |words| && words[0] == 8 * |words|
    ensures ItemOk(n, head, tail + 8 * |words|, log[tail := words], o)
    ensures o in log ==> o < tail
  {
    assert tail in log ==> ItemOk(n, head, tail, log, tail);
    if o != tail {
      assert ItemOk(n, head, tail, log, o);
    }
  }

  lemma {:induction false} PushApart(n: nat, head: nat, tail: nat, log: map<nat, seq<int>>, words: seq<int>, o: nat,
                                     p: nat)
    requires Tiling(n, head, tail, log) && o in log[tail := words] && p in log[tail := words]
    requires 1 <= |words| && words[0] == 8 * |words|
    ensures Apart(log[tail := words], o, p)
  {
    PushItem(n, head, tail, log, words, o);
    PushItem(n, head, tail, log, words, p);
    assert o in log ==> ItemOk(n, head, tail, log, o);
    assert o in log && p in log ==> Apart(log, o, p);
  }

  lemma {:induction false} PushTiles(n: nat, head: nat, tail: nat, log: map<nat, seq<int>>, words: seq<int>)
    requires Tiling(n, head, tail, log)
    requires 1 <= |words| && words[0] == 8 * |words| && tail + 8 * |words| <= head + 8 * n
    ensures Tiling(n, head, tail + 8 * |words|, log[tail := words])
  {
    var tail', log' := tail + 8 * |words|, log[tail := words];
    forall o | o in log'
      ensures ItemOk(n, head, tail', log', o)
    {
      PushItem(n, head, tail, log, words, o);
    }
    forall o, p | o in log' && p in log'
      ensures Apart(log', o, p)
    {
      PushApart(n, head, tail, log, words, o, p);
    }
    AddMultiple(tail, |words|, 8);
  }

  lemma PushKeeps(n: nat, mem: seq<int>, head: nat, tail: nat, log: map<nat, seq<int>>, count: nat)
    requires LogOk(n, mem, head, tail, log)
    requires 1 <= count && tail + 8 * count <= head + 8 * n
    ensures LogOk(n, mem[(tail / 8) % n := 8 * count], head, tail + 8 * count, log[tail := Fresh(n, mem, tail, count)])
  {
    var words := Fresh(n, mem, tail, count);
    var mem', log' := mem[(tail / 8) % n := 8 * count], log[tail := words];
    PushTiles(n, head, tail, log, words);
    FreshStored(n, mem, tail, count);
    forall o | o in log'
      ensures Stored(n, mem', o, log'[o])
    {
      if o != tail {
        assert ItemOk(n, head, tail, log, o) && Stored(n, mem, o, log[o]);
        WriteElsewhere(n, mem, o, log[o], tail / 8, 8 * count);
      }
    }
  }

  /** Overwriting a word of an item, other than its size, changes that item only. */
  lemma StoreKeeps(n: nat, mem: seq<int>, head: nat, tail: nat, log: map<nat, seq<int>>, o: nat, i: nat, x: int)
    requires LogOk(n, mem, head, tail, log)
    requires o in log && 1 <= i < |log[o]|
    ensures LogOk(n, mem[(o / 8 + i) % n := x], head, tail, log[o := log[o][i := x]])
  {
    var mem', log' := mem[(o / 8 + i) % n := x], log[o := log[o][i := x]];
    assert ItemOk(n, head, tail, log, o);
    forall p | p in log'
      ensures ItemOk(n, head, tail, log', p)
      ensures Stored(n, mem', p, log'[p])
    {
      assert ItemOk(n, head, tail, log, p) && Stored(n, mem, p, log[p]);
      if p != o {
        assert Apart(log, o, p) && Apart(log, p, o);
        WriteElsewhere(n, mem, p, log[p], o / 8 + i, x);
      } else {
        forall j | 0 <= j < |log[o]|
          ensures mem'[(o / 8 + j) % n] == log'[o][j]
        {
          if j < i {
            DistinctRemainders(o / 8 + j, o / 8 + i, n);
          } else if i < j {
            DistinctRemainders(o / 8 + i, o / 8 + j, n);
          }
        }
      }
    }
    forall p, q | p in log' && q in log'
      ensures Apart(log', p, q)
    {
      assert Apart(log, p, q);
    }
  }

  // ---------------------------------------------------------------- validity of offsets

  /** The validity test on a masked offset. */
  predicate IsValid(n: nat, tail: nat, masked: nat) {
    (tail - masked) % OFFSET_LIMIT <= 8 * n
  }

  /** For a true offset less than 2^40 bytes behind the tail, masking loses nothing: the test
      passes exactly for the offsets that the memory has not yet overwritten. */
  lemma ValidIffInWindow(n: nat, tail: nat, o: nat)
    requires o <= tail < o + OFFSET_LIMIT
    ensures IsValid(n, tail, o % OFFSET_LIMIT) <==> tail <= o + 8 * n
  {
  }

  /** Masked and true offsets name the same word when the pool size divides 2^40. */
  lemma SameWord(n: nat, m: nat, o: nat, i: nat)
    requires 0 < n && 8 * n * m == OFFSET_LIMIT && o % 8 == 0
    ensures ((o % OFFSET_LIMIT) / 8 + i) % n == (o / 8 + i) % n
  {
    var q := o / OFFSET_LIMIT;
    assert o == o % OFFSET_LIMIT + OFFSET_LIMIT * q;
    assert o / 8 == (o % OFFSET_LIMIT) / 8 + (OFFSET_LIMIT / 8) * q;
    var a := (o % OFFSET_LIMIT) / 8 + i;
    assert o / 8 + i == a + n * (m * q) by {
      assert n * m == OFFSET_LIMIT / 8;
      assert n * (m * q) == (n * m) * q;
    }
    AddMultiple(a, m * q, n);
  }
}
