/** What the words of the segregated-fit heap stand for.

    Positions and lengths are counted in 8-byte words.  A layout names the chunks (start
    to length), the chunk that ends at each boundary, the free chunks, and the links of the
    32 free lists, with NIL for a null pointer.  Ranks, handed out by a clock, order each
    list from its head down, so that a list cannot close on itself. */
module HeapLayout {
  import opened SizeClasses

  const NIL := -1

  datatype Layout = Layout(
    size: map<int, nat>,
    left: map<int, int>,
    free: set<int>,
    prev: map<int, int>,
    next: map<int, int>,
    rank: map<int, nat>,
    clock: nat,
    head: seq<int>)

  // ---------------------------------------------------------------- chunks

  /** One chunk: where it lies and which chunks it touches. */
  ghost predicate ChunkOk(n: nat, size: map<int, nat>, left: map<int, int>, s: int)
    requires s in size
  {
    var e := s + size[s];
    && 0 <= s && 4 <= size[s] && e <= n
    && (e == n || e in size)
    && e in left && left[e] == s
    && (s == 0 || s in left)
  }

  ghost predicate BoundaryOk(size: map<int, nat>, left: map<int, int>, e: int)
    requires e in left
  {
    left[e] in size && left[e] + size[left[e]] == e
  }

  ghost predicate Apart(size: map<int, nat>, s: int, t: int)
    requires s in size && t in size
  {
    s < t ==> s + size[s] <= t
  }

  /** The chunks cover the words 0 to n without a gap and without overlap. */
  ghost predicate Tiling(n: nat, size: map<int, nat>, left: map<int, int>) {
    && 8 * n <= MAX_SIZE
    && 0 in size
    && (forall s {:trigger ChunkOk(n, size, left, s)} :: s in size ==> ChunkOk(n, size, left, s))
    && (forall e {:trigger BoundaryOk(size, left, e)} :: e in left ==> BoundaryOk(size, left, e))
    && (forall s, t {:trigger Apart(size, s, t)} :: s in size && t in size ==> Apart(size, s, t))
  }

  ghost predicate EndsAtAllocated(size: map<int, nat>, free: set<int>, s: int) {
    s in size && s + size[s] !in free
  }

  /** No free chunk ends where another begins. */
  ghost predicate Separated(size: map<int, nat>, free: set<int>) {
    forall s {:trigger EndsAtAllocated(size, free, s)} :: s in free ==> EndsAtAllocated(size, free, s)
  }

  // ---------------------------------------------------------------- free lists

  /** The class a chunk of k words is filed under. */
  function WordClass(k: nat): (c: nat)
    ensures c < NUM_CLASSES
  {
    if 4 <= k && 8 * k <= MAX_SIZE then ClassRoundDown(8 * k) else 0
  }

  function Class(L: Layout, s: int): (c: nat)
    ensures c < NUM_CLASSES
  {
    if s in L.size then WordClass(L.size[s]) else 0
  }

  ghost predicate Linked(L: Layout) {
    && |L.head| == NUM_CLASSES
    && L.free <= L.size.Keys
    && L.prev.Keys == L.free
    && L.next.Keys == L.free
    && L.rank.Keys == L.free
  }

  /** The back-link side of one free chunk. */
  ghost predicate PrevOk(L: Layout, s: int)
    requires Linked(L) && s in L.free
  {
    var p := L.prev[s];
    && L.rank[s] < L.clock
    && if p == NIL then
      L.head[Class(L, s)] == s
    else
      p in L.free && L.next[p] == s && Class(L, p) == Class(L, s) && L.rank[s] < L.rank[p]
  }

  /** The forward-link side of one free chunk. */
  ghost predicate NextOk(L: Layout, s: int)
    requires Linked(L) && s in L.free
  {
    L.next[s] != NIL ==> L.next[s] in L.free && L.prev[L.next[s]] == s
  }

  ghost predicate HeadOk(L: Layout, c: nat)
    requires Linked(L) && c < NUM_CLASSES
  {
    L.head[c] != NIL ==> L.head[c] in L.free && Class(L, L.head[c]) == c && L.prev[L.head[c]] == NIL
  }

  /** The free lists: every free chunk is linked both ways into the list of its class. */
  ghost predicate Lists(L: Layout) {
    && Linked(L)
    && NIL !in L.free
    && (forall s {:trigger PrevOk(L, s)} :: s in L.free ==> PrevOk(L, s))
    && (forall s {:trigger NextOk(L, s)} :: s in L.free ==> NextOk(L, s))
    && (forall c {:trigger HeadOk(L, c)} :: 0 <= c < NUM_CLASSES ==> HeadOk(L, c))
  }

  /** The structural invariant of the heap. */
  ghost predicate WellFormed(n: nat, L: Layout) {
    && Tiling(n, L.size, L.left)
    && Lists(L)
    && Separated(L.size, L.free)
  }

  // ---------------------------------------------------------------- list surgery

  function Unlink(L: Layout, s: int): Layout
    requires s in L.prev && s in L.next && |L.head| == NUM_CLASSES
  {
    var p, q := L.prev[s], L.next[s];
    L.(free := L.free - {s},
       rank := L.rank - {s},
       next := (if p == NIL then L.next else L.next[p := q]) - {s},
       prev := (if q == NIL then L.prev else L.prev[q := p]) - {s},
       head := if p == NIL then L.head[Class(L, s) := q] else L.head)
  }

  function Link(L: Layout, s: int): Layout
    requires |L.head| == NUM_CLASSES
  {
    var c := Class(L, s);
    var h := L.head[c];
    L.(free := L.free + {s},
       rank := L.rank[s := L.clock],
       clock := L.clock + 1,
       next := L.next[s := h],
       prev := (if h == NIL then L.prev else L.prev[h := s])[s := NIL],
       head := L.head[c := s])
  }

  lemma UnlinkKeepsLists(L: Layout, s: int)
    requires Lists(L) && s in L.free
    ensures Lists(Unlink(L, s))
  {
    var L' := Unlink(L, s);
    var p, q := L.prev[s], L.next[s];
    assert PrevOk(L, s) && NextOk(L, s);
    assert q != NIL ==> PrevOk(L, q);
    assert p != NIL ==> NextOk(L, p);
    assert Linked(L');
    forall t | t in L'.free
      ensures PrevOk(L', t) && NextOk(L', t)
    {
      assert PrevOk(L, t) && NextOk(L, t);
    }
    forall c | 0 <= c < NUM_CLASSES
      ensures HeadOk(L', c)
    {
      assert HeadOk(L, c);
    }
  }

  lemma LinkKeepsLists(L: Layout, s: int)
    requires Lists(L) && s in L.size && s !in L.free && s != NIL
    ensures Lists(Link(L, s))
  {
    var L' := Link(L, s);
    assert HeadOk(L, Class(L, s));
    assert Linked(L');
    forall t | t in L'.free
      ensures PrevOk(L', t) && NextOk(L', t)
    {
      if t != s {
        assert PrevOk(L, t) && NextOk(L, t);
      }
    }
    forall d | 0 <= d < NUM_CLASSES
      ensures HeadOk(L', d)
    {
      assert HeadOk(L, d);
    }
  }

  lemma UnlinkWellFormed(n: nat, L: Layout, s: int)
    requires WellFormed(n, L) && s in L.free
    ensures WellFormed(n, Unlink(L, s))
  {
    UnlinkKeepsLists(L, s);
    var free := L.free - {s};
    forall t | t in free
      ensures EndsAtAllocated(L.size, free, t)
    {
      assert EndsAtAllocated(L.size, L.free, t);
    }
  }

  lemma LinkWellFormed(n: nat, L: Layout, s: int)
    requires WellFormed(n, L) && s in L.size && s !in L.free
    requires s + L.size[s] !in L.free
    requires s in L.left ==> L.left[s] !in L.free
    ensures WellFormed(n, Link(L, s))
  {
    assert ChunkOk(n, L.size, L.left, s);
    LinkKeepsLists(L, s);
    var free := L.free + {s};
    forall t | t in free
      ensures EndsAtAllocated(L.size, free, t)
    {
      assert ChunkOk(n, L.size, L.left, t);
      if t != s {
        assert EndsAtAllocated(L.size, L.free, t);
      }
    }
  }

  // ---------------------------------------------------------------- splitting and merging

  /** Cut the chunk at s after k words. */
  function Split(L: Layout, s: int, k: nat): Layout
    requires s in L.size && k <= L.size[s]
  {
    L.(size := L.size[s := k][s + k := L.size[s] - k],
       left := L.left[s + k := s][s + L.size[s] := s + k])
  }

  /** Join the chunk at s with the chunk that starts where it ends. */
  function Merge(L: Layout, s: int): Layout
    requires s in L.size && s + L.size[s] in L.size
  {
    var t := s + L.size[s];
    L.(size := L.size[s := L.size[s] + L.size[t]] - {t},
       left := L.left[t + L.size[t] := s] - {t})
  }

  lemma SplitApart(n: nat, L: Layout, s: int, k: nat, t: int, u: int)
    requires Tiling(n, L.size, L.left) && s in L.size
    requires 4 <= k && k + 4 <= L.size[s]
    requires t in Split(L, s, k).size && u in Split(L, s, k).size
    ensures Apart(Split(L, s, k).size, t, u)
  {
    var t', u' := if t == s + k then s else t, if u == s + k then s else u;
    assert Apart(L.size, t', u') && Apart(L.size, u', t');
  }

  lemma SplitChunk(n: nat, L: Layout, s: int, k: nat, t: int)
    requires Tiling(n, L.size, L.left) && s in L.size
    requires 4 <= k && k + 4 <= L.size[s]
    requires t in Split(L, s, k).size
    ensures ChunkOk(n, Split(L, s, k).size, Split(L, s, k).left, t)
  {
    assert ChunkOk(n, L.size, L.left, s);
    if t in L.size {
      assert ChunkOk(n, L.size, L.left, t) && Apart(L.size, s, t) && Apart(L.size, t, s);
    }
  }

  lemma SplitTiling(n: nat, L: Layout, s: int, k: nat)
    requires Tiling(n, L.size, L.left) && s in L.size
    requires 4 <= k && k + 4 <= L.size[s]
    ensures Tiling(n, Split(L, s, k).size, Split(L, s, k).left)
    ensures s + k !in L.size
  {
    var L' := Split(L, s, k);
    assert ChunkOk(n, L.size, L.left, s);
    assert s + k in L.size ==> Apart(L.size, s, s + k);
    forall t | t in L'.size
      ensures ChunkOk(n, L'.size, L'.left, t)
    {
      SplitChunk(n, L, s, k, t);
    }
    forall e | e in L'.left
      ensures BoundaryOk(L'.size, L'.left, e)
    {
      if e in L.left {
        assert BoundaryOk(L.size, L.left, e);
      }
    }
    forall t, u | t in L'.size && u in L'.size
      ensures Apart(L'.size, t, u)
    {
      SplitApart(n, L, s, k, t, u);
    }
  }

  lemma MergeChunk(n: nat, L: Layout, s: int, u: int)
    requires Tiling(n, L.size, L.left) && s in L.size && s + L.size[s] in L.size
    requires u in Merge(L, s).size
    ensures ChunkOk(n, Merge(L, s).size, Merge(L, s).left, u)
  {
    var t := s + L.size[s];
    assert ChunkOk(n, L.size, L.left, s) && ChunkOk(n, L.size, L.left, t) && ChunkOk(n, L.size, L.left, u);
    assert Apart(L.size, s, t) && Apart(L.size, s, u) && Apart(L.size, u, s);
    assert Apart(L.size, t, u) && Apart(L.size, u, t);
  }

  lemma MergeApart(n: nat, L: Layout, s: int, u: int, v: int)
    requires Tiling(n, L.size, L.left) && s in L.size && s + L.size[s] in L.size
    requires u in Merge(L, s).size && v in Merge(L, s).size
    ensures Apart(Merge(L, s).size, u, v)
  {
    var t := s + L.size[s];
    assert Apart(L.size, u, v) && Apart(L.size, t, v) && Apart(L.size, v, t);
    assert ChunkOk(n, L.size, L.left, s) && ChunkOk(n, L.size, L.left, v);
  }

  lemma MergeTiling(n: nat, L: Layout, s: int)
    requires Tiling(n, L.size, L.left) && s in L.size && s + L.size[s] in L.size
    ensures Tiling(n, Merge(L, s).size, Merge(L, s).left)
  {
    var L' := Merge(L, s);
    var t := s + L.size[s];
    assert ChunkOk(n, L.size, L.left, s) && ChunkOk(n, L.size, L.left, t);
    forall u | u in L'.size
      ensures ChunkOk(n, L'.size, L'.left, u)
    {
      MergeChunk(n, L, s, u);
    }
    forall e | e in L'.left
      ensures BoundaryOk(L'.size, L'.left, e)
    {
      if e in L.left {
        assert BoundaryOk(L.size, L.left, e);
      }
    }
    forall u, v | u in L'.size && v in L'.size
      ensures Apart(L'.size, u, v)
    {
      MergeApart(n, L, s, u, v);
    }
  }

  /** Lists and separation depend on the sizes of the free chunks only. */
  lemma KeepLists(L: Layout, L': Layout)
    requires Lists(L) && L.free <= L'.size.Keys && Separated(L.size, L.free)
    requires L' == L.(size := L'.size, left := L'.left)
    requires forall s :: s in L.free ==> L'.size[s] == L.size[s]
    ensures Lists(L') && Separated(L'.size, L'.free)
  {
    forall t | t in L'.free
      ensures EndsAtAllocated(L'.size, L'.free, t)
    {
      assert EndsAtAllocated(L.size, L.free, t);
    }
    forall t | t in L'.free
      ensures PrevOk(L', t) && NextOk(L', t)
    {
      assert PrevOk(L, t) && NextOk(L, t);
    }
    forall c | 0 <= c < NUM_CLASSES
      ensures HeadOk(L', c)
    {
      assert HeadOk(L, c);
    }
  }

  lemma SplitWellFormed(n: nat, L: Layout, s: int, k: nat)
    requires WellFormed(n, L) && s in L.size && s !in L.free
    requires 4 <= k && k + 4 <= L.size[s]
    ensures WellFormed(n, Split(L, s, k))
    ensures s + k !in L.size
  {
    SplitTiling(n, L, s, k);
    KeepLists(L, Split(L, s, k));
  }

  lemma MergeWellFormed(n: nat, L: Layout, s: int)
    requires WellFormed(n, L) && s in L.size && s + L.size[s] in L.size
    requires s !in L.free && s + L.size[s] !in L.free
    ensures WellFormed(n, Merge(L, s))
  {
    MergeTiling(n, L, s);
    KeepLists(L, Merge(L, s));
  }

  /** The allocated chunks. */
  function Live(L: Layout): map<int, nat> {
    map s | s in L.size && s !in L.free :: L.size[s]
  }

  lemma LinkLive(L: Layout, s: int)
    requires |L.head| == NUM_CLASSES
    ensures Live(Link(L, s)) == Live(L) - {s}
  {
  }

  lemma UnlinkLive(L: Layout, s: int)
    requires s in L.prev && s in L.next && |L.head| == NUM_CLASSES && s in L.size
    ensures Live(Unlink(L, s)) == Live(L)[s := L.size[s]]
  {
  }

  lemma SplitLive(L: Layout, s: int, k: nat)
    requires s in L.size && k <= L.size[s] && s !in L.free && s + k !in L.free
    ensures Live(Split(L, s, k)) == Live(L)[s := k][s + k := L.size[s] - k]
  {
  }

  lemma MergeLive(L: Layout, s: int)
    requires s in L.size && s + L.size[s] in L.size && s !in L.free
    ensures Live(Merge(L, s)) == Live(L)[s := L.size[s] + L.size[s + L.size[s]]] - {s + L.size[s]}
  {
  }

  /** The left neighbour of a free chunk is allocated. */
  lemma LeftOfFree(n: nat, L: Layout, p: int)
    requires WellFormed(n, L) && p in L.free && p in L.left
    ensures L.left[p] !in L.free
  {
    assert BoundaryOk(L.size, L.left, p);
    assert L.left[p] in L.free ==> EndsAtAllocated(L.size, L.free, L.left[p]);
  }

  /** Joining a chunk with the free chunk on its left. */
  lemma AbsorbLeft(n: nat, L: Layout, s: int)
    requires WellFormed(n, L) && s in L.size && s in L.left && s !in L.free && L.left[s] in L.free
    ensures var p := L.left[s];
            var L1 := Unlink(L, p);
            && p + L.size[p] == s
            && WellFormed(n, L1)
            && WellFormed(n, Merge(L1, p))
            && Live(Merge(L1, p)) - {p} == Live(L) - {s}
            && Merge(L1, p).size[p] == L.size[p] + L.size[s]
            && (p in Merge(L1, p).left ==> Merge(L1, p).left[p] !in Merge(L1, p).free)
  {
    var p := L.left[s];
    var L1 := Unlink(L, p);
    assert BoundaryOk(L.size, L.left, s) && ChunkOk(n, L.size, L.left, p) && ChunkOk(n, L.size, L.left, s);
    UnlinkWellFormed(n, L, p);
    MergeWellFormed(n, L1, p);
    UnlinkLive(L, p);
    MergeLive(L1, p);
    if p in L.left {
      LeftOfFree(n, L, p);
    }
  }

  /** Joining a chunk with the free chunk on its right. */
  lemma AbsorbRight(n: nat, L: Layout, s: int)
    requires WellFormed(n, L) && s in L.size && s !in L.free && s + L.size[s] in L.free
    requires s in L.left ==> L.left[s] !in L.free
    ensures var t := s + L.size[s];
            var L1 := Unlink(L, t);
            && WellFormed(n, L1)
            && WellFormed(n, Merge(L1, s))
            && Live(Merge(L1, s)) - {s} == Live(L) - {s}
            && Merge(L1, s).size[s] == L.size[s] + L.size[t]
            && (s in Merge(L1, s).left ==> Merge(L1, s).left[s] !in Merge(L1, s).free)
            && s + Merge(L1, s).size[s] !in Merge(L1, s).free
  {
    var t := s + L.size[s];
    var L1 := Unlink(L, t);
    assert ChunkOk(n, L.size, L.left, s) && ChunkOk(n, L.size, L.left, t);
    assert EndsAtAllocated(L.size, L.free, t);
    UnlinkWellFormed(n, L, t);
    MergeWellFormed(n, L1, s);
    UnlinkLive(L, t);
    MergeLive(L1, s);
  }

  // ---------------------------------------------------------------- consequences

  /** A class with a free chunk has a list head: back-links climb in rank to the head. */
  lemma {:induction false} HeadExists(L: Layout, s: int)
    requires Lists(L) && s in L.free
    ensures L.head[Class(L, s)] != NIL
    decreases L.clock - L.rank[s]
  {
    assert PrevOk(L, s);
    if L.prev[s] != NIL {
      assert PrevOk(L, L.prev[s]);
      HeadExists(L, L.prev[s]);
    }
  }

  /** The free list below a chunk, read along the forward links. */
  ghost function ListFrom(L: Layout, s: int): (l: seq<int>)
    requires Lists(L) && (s == NIL || s in L.free)
    decreases if s == NIL then 0 else 1 + L.rank[s]
  {
    if s == NIL then []
    else
      assert NextOk(L, s);
      assert L.next[s] != NIL ==> PrevOk(L, L.next[s]);
      [s] + ListFrom(L, L.next[s])
  }

  ghost predicate Ranked(L: Layout, a: int, b: int) {
    a in L.rank && b in L.rank && L.rank[b] < L.rank[a]
  }

  /** A free list descends in rank, so no chunk comes back on it, and stays in its class. */
  lemma {:induction false} ListDescends(L: Layout, s: int)
    requires Lists(L) && s in L.free
    ensures forall t :: t in ListFrom(L, s) ==> t in L.free && Class(L, t) == Class(L, s) && L.rank[t] <= L.rank[s]
    ensures forall i, j :: 0 <= i < j < |ListFrom(L, s)| ==> Ranked(L, ListFrom(L, s)[i], ListFrom(L, s)[j])
    decreases L.rank[s]
  {
    assert NextOk(L, s);
    var q := L.next[s];
    if q != NIL {
      assert PrevOk(L, q);
      ListDescends(L, q);
      var l, l' := ListFrom(L, s), ListFrom(L, q);
      assert l == [s] + l' && Class(L, q) == Class(L, s);
      forall i, j | 0 <= i < j < |l|
        ensures Ranked(L, l[i], l[j])
      {
        assert l[j] == l'[j - 1] && l[j] in l';
      }
    } else {
      assert ListFrom(L, s) == [s];
    }
  }

  /** A free chunk is on the list of its class: it is reached from the head. */
  lemma {:induction false} OnList(L: Layout, s: int)
    requires Lists(L) && s in L.free
    ensures var h := L.head[Class(L, s)]; h in L.free && s in ListFrom(L, h)
    ensures forall t :: t in ListFrom(L, s) ==> t in ListFrom(L, L.head[Class(L, s)])
    decreases L.clock - L.rank[s]
  {
    assert PrevOk(L, s);
    var p := L.prev[s];
    if p != NIL {
      assert PrevOk(L, p) && NextOk(L, p);
      OnList(L, p);
      assert ListFrom(L, p) == [p] + ListFrom(L, s);
    }
    assert ListFrom(L, s)[0] == s;
  }

  /** Every free chunk is on exactly one list, that of its rounded-down class, exactly once. */
  lemma FreeListsPartition(n: nat, L: Layout, s: int)
    requires WellFormed(n, L) && s in L.free
    ensures forall c {:trigger L.head[c]} :: 0 <= c < NUM_CLASSES ==>
              (L.head[c] == NIL || L.head[c] in L.free) &&
              (s in ListFrom(L, L.head[c]) <==> c == Class(L, s))
    ensures exists i :: 0 <= i < |ListFrom(L, L.head[Class(L, s)])| && ListFrom(L, L.head[Class(L, s)])[i] == s
    ensures forall i, j :: 0 <= i < j < |ListFrom(L, L.head[Class(L, s)])| ==>
              ListFrom(L, L.head[Class(L, s)])[i] != ListFrom(L, L.head[Class(L, s)])[j]
  {
    OnList(L, s);
    ListDescends(L, L.head[Class(L, s)]);
    forall c | 0 <= c < NUM_CLASSES
      ensures L.head[c] == NIL || L.head[c] in L.free
      ensures s in ListFrom(L, L.head[c]) <==> c == Class(L, s)
    {
      assert HeadOk(L, c);
      if L.head[c] != NIL {
        ListDescends(L, L.head[c]);
      }
    }
  }

  /** Every word of the heap lies in exactly one chunk. */
  lemma {:induction false} ChunkOfWord(n: nat, L: Layout, k: int, s: int) returns (t: int)
    requires Tiling(n, L.size, L.left) && s in L.size && s <= k < n
    ensures t in L.size && t <= k < t + L.size[t]
    ensures forall u :: u in L.size && u <= k < u + L.size[u] ==> u == t
    decreases n - s
  {
    assert ChunkOk(n, L.size, L.left, s);
    if k < s + L.size[s] {
      t := s;
      forall u | u in L.size && u <= k < u + L.size[u]
        ensures u == t
      {
        assert Apart(L.size, u, t) && Apart(L.size, t, u);
      }
    } else {
      t := ChunkOfWord(n, L, k, s + L.size[s]);
    }
  }

  /** With nothing allocated the whole heap is one free chunk. */
  lemma AllFreeIsOneChunk(n: nat, L: Layout)
    requires WellFormed(n, L) && L.size.Keys <= L.free
    ensures L.size == map[0 := n] && L.free == {0}
  {
    assert ChunkOk(n, L.size, L.left, 0);
    forall s | s in L.size
      ensures s == 0
    {
      assert ChunkOk(n, L.size, L.left, s) && Apart(L.size, 0, s) && EndsAtAllocated(L.size, L.free, 0);
    }
  }

  /** The layout of one allocated chunk that spans the heap. */
  function Whole(n: nat): Layout {
    Layout(map[0 := n], map[n := 0], {}, map[], map[], map[], 0, seq(NUM_CLASSES, _ => NIL))
  }

  lemma WholeWellFormed(n: nat)
    requires 4 <= n && 8 * n <= MAX_SIZE
    ensures WellFormed(n, Whole(n)) && Live(Whole(n)) == map[0 := n]
  {
  }
}
